/** The catalog of deck terminal profiles: `DesktopDeckTerminalProfileCatalog` of `desktop/service.py`. */
module Profiles {
  import Canonical
  import JsonReader
  import opened Wrappers

  const DECK_PREFIX := "desktopdeck_"
  const ACTIVE_PREFIX := "termpref_"
  const ID_PREFIX := "decktermpref_"
  const CATALOG_VERSION := "desktop-deck-terminal-profile-catalog-v1"

  datatype Profile = Profile(
    id: string, deck: string, name: string, active: string, archived: bool, revision: int,
    createdAt: string, updatedAt: string, archivedAt: Option<string>)

  /** What a new identifier is computed from. */
  datatype Birth = Birth(active: string, createdAt: string, deck: string, name: string)

  /** `stable_digest` of the arguments of `create`, and `text == text.strip()`. */
  datatype Oracle = Oracle(newId: Birth -> string, trimmed: string -> bool)

  /** The checks of the record's constructor; timestamps come from the clock and are always well formed. */
  predicate Accepted(o: Oracle, r: Profile) {
    && r.name != "" && o.trimmed(r.name) && |r.name| <= 80
    && DECK_PREFIX <= r.deck && ACTIVE_PREFIX <= r.active
    && r.revision >= 1
    && (r.archived <==> r.archivedAt.Some?)
  }

  /** Every stored record passes its own checks and stands under its own identifier, so reading the
      catalog back never fails. */
  ghost predicate Readable(o: Oracle, records: map<string, Profile>) {
    forall id :: id in records ==> records[id].id == id && Accepted(o, records[id])
  }

  datatype Op =
    | Create(deck: string, name: string, active: string, now: string)
    | Update(id: string, name: string, active: string, now: string)
    | Archive(id: string, now: string)

  datatype Result = Done(profile: Profile) | NotFound | IsArchived | Invalid

  function BirthOf(op: Op): Birth
    requires op.Create?
  {
    Birth(op.active, op.now, op.deck, op.name)
  }

  /** The profile an operation is about. */
  function Target(o: Oracle, op: Op): string {
    if op.Create? then o.newId(BirthOf(op)) else op.id
  }

  function Created(o: Oracle, op: Op): Profile
    requires op.Create?
  {
    Profile(o.newId(BirthOf(op)), op.deck, op.name, op.active, false, 1, op.now, op.now, None)
  }

  function Updated(r: Profile, op: Op): Profile
    requires op.Update?
  {
    r.(name := op.name, active := op.active, archived := false, revision := r.revision + 1, updatedAt := op.now,
       archivedAt := None)
  }

  function Shelved(r: Profile, now: string): Profile {
    r.(archived := true, updatedAt := now, archivedAt := Some(now))
  }

  /** What an operation answers. */
  function Answer(o: Oracle, records: map<string, Profile>, op: Op): Result {
    match op
    case Create(_, _, _, _) => if Accepted(o, Created(o, op)) then Done(Created(o, op)) else Invalid
    case Update(id, _, _, _) =>
      if id !in records then NotFound
      else if records[id].archived then IsArchived
      else if !Accepted(o, Updated(records[id], op)) then Invalid
      else Done(Updated(records[id], op))
    case Archive(id, now) =>
      if id !in records then NotFound
      else if records[id].archived then Done(records[id])
      else Done(Shelved(records[id], now))
  }

  /** An answered record is the one stored. */
  function Step(o: Oracle, records: map<string, Profile>, op: Op): map<string, Profile> {
    var answer := Answer(o, records, op);
    if answer.Done? then records[Target(o, op) := answer.profile] else records
  }

  // ----- what the operations mean -----

  /** A name the record takes. */
  predicate Proper(o: Oracle, name: string) { 1 <= |name| <= 80 && o.trimmed(name) }

  /** The profile as given, with the rest of its history. */
  ghost predicate Reads(r: Profile, id: string, deck: string, name: string, active: string, createdAt: string) {
    r.id == id && r.deck == deck && r.name == name && r.active == active && r.createdAt == createdAt
  }

  /** What an answer says of the catalog before and after. */
  ghost predicate Explained(o: Oracle, before: map<string, Profile>, op: Op, answer: Result,
                            after: map<string, Profile>) {
    && (if answer.Done? then after == before[answer.profile.id := answer.profile] else after == before)
    && match op
       case Create(deck, name, active, now) =>
         var proper := Proper(o, name) && "desktopdeck_" <= deck && "termpref_" <= active;
         && (if proper then answer.Done? else answer == Invalid)
         && (answer.Done? ==>
               && Reads(answer.profile, o.newId(Birth(active, now, deck, name)), deck, name, active, now)
               && !answer.profile.archived && answer.profile.revision == 1
               && answer.profile.updatedAt == now && answer.profile.archivedAt == None)
       case Update(id, name, active, now) =>
         var usable := id in before && !before[id].archived;
         && (answer == NotFound <==> id !in before)
         && (answer == IsArchived <==> id in before && before[id].archived)
         && (answer == Invalid <==> usable && !(Proper(o, name) && "termpref_" <= active))
         && (answer.Done? ==>
               && Reads(answer.profile, id, before[id].deck, name, active, before[id].createdAt)
               && !answer.profile.archived && answer.profile.revision == before[id].revision + 1
               && answer.profile.updatedAt == now && answer.profile.archivedAt == None)
       case Archive(id, now) =>
         && (answer == NotFound <==> id !in before) && (answer.Done? <==> id in before)
         && (answer.Done? && before[id].archived ==> answer.profile == before[id])
         && (answer.Done? && !before[id].archived ==>
               && Reads(answer.profile, id, before[id].deck, before[id].name, before[id].active,
                        before[id].createdAt)
               && answer.profile.archived && answer.profile.revision == before[id].revision
               && answer.profile.updatedAt == now && answer.profile.archivedAt == Some(now))
  }

  lemma AnswerMeaning(o: Oracle, records: map<string, Profile>, op: Op)
    requires Readable(o, records)
    ensures Explained(o, records, op, Answer(o, records, op), Step(o, records, op))
  {
    if op.Archive? && op.id in records && records[op.id].archived { KeepsSame(records, op.id); }
  }

  class DeckTerminalProfileCatalog {
    var records: map<string, Profile>
    const oracle: Oracle

    constructor (oracle: Oracle)
      ensures this.oracle == oracle && records == map[] && Readable(oracle, records)
    {
      this.oracle := oracle;
      records := map[];
    }

    method Create(deck: string, name: string, active: string, now: string) returns (r: Result)
      requires Readable(oracle, records)
      modifies this
      ensures Readable(oracle, records)
      ensures r == Answer(oracle, old(records), Op.Create(deck, name, active, now))
      ensures records == Step(oracle, old(records), Op.Create(deck, name, active, now))
      ensures Explained(oracle, old(records), Op.Create(deck, name, active, now), r, records)
    {
      AnswerMeaning(oracle, records, Op.Create(deck, name, active, now));
      var id := oracle.newId(Birth(active, now, deck, name));
      var record := Profile(id, deck, name, active, false, 1, now, now, None);
      if !Accepted(oracle, record) {
        return Invalid;
      }
      records := records[id := record];
      r := Done(record);
    }

    method Update(id: string, name: string, active: string, now: string) returns (r: Result)
      requires Readable(oracle, records)
      modifies this
      ensures Readable(oracle, records)
      ensures r == Answer(oracle, old(records), Op.Update(id, name, active, now))
      ensures records == Step(oracle, old(records), Op.Update(id, name, active, now))
      ensures Explained(oracle, old(records), Op.Update(id, name, active, now), r, records)
    {
      AnswerMeaning(oracle, records, Op.Update(id, name, active, now));
      if id !in records {
        return NotFound;
      }
      var current := records[id];
      if current.archived {
        return IsArchived;
      }
      var updated := Profile(
        current.id, current.deck, name, active, false, current.revision + 1, current.createdAt, now, None);
      if !Accepted(oracle, updated) {
        return Invalid;
      }
      records := records[id := updated];
      r := Done(updated);
    }

    method Archive(id: string, now: string) returns (r: Result)
      requires Readable(oracle, records)
      modifies this
      ensures Readable(oracle, records)
      ensures r == Answer(oracle, old(records), Op.Archive(id, now))
      ensures records == Step(oracle, old(records), Op.Archive(id, now))
      ensures Explained(oracle, old(records), Op.Archive(id, now), r, records)
    {
      AnswerMeaning(oracle, records, Op.Archive(id, now));
      if id !in records {
        return NotFound;
      }
      var current := records[id];
      if current.archived {
        KeepsSame(records, id);
        return Done(current);
      }
      var archived := Profile(
        current.id, current.deck, current.name, current.active, true, current.revision, current.createdAt, now,
        Some(now));
      records := records[id := archived];
      r := Done(archived);
    }
  }

  lemma KeepsSame(records: map<string, Profile>, id: string)
    requires id in records
    ensures records[id := records[id]] == records
  {}

  // ----- runs -----

  function Run(o: Oracle, records: map<string, Profile>, ops: seq<Op>, n: nat): map<string, Profile>
    requires n <= |ops|
  {
    if n == 0 then records else Step(o, Run(o, records, ops, n - 1), ops[n - 1])
  }

  /** The updates of `id` that succeeded among the operations from `m` to `n`. */
  function UpdatesOf(o: Oracle, records: map<string, Profile>, ops: seq<Op>, id: string, m: nat, n: nat): nat
    requires m <= n <= |ops|
  {
    if n == m then 0
    else
      var counted := ops[n - 1].Update? && ops[n - 1].id == id
                     && Answer(o, Run(o, records, ops, n - 1), ops[n - 1]).Done?;
      UpdatesOf(o, records, ops, id, m, n - 1) + if counted then 1 else 0
  }

  predicate Creates(o: Oracle, op: Op, id: string) {
    op.Create? && Accepted(o, Created(o, op)) && o.newId(BirthOf(op)) == id
  }

  /** One operation: other profiles stay as they are. */
  lemma OthersUnchanged(o: Oracle, records: map<string, Profile>, op: Op, id: string)
    requires id != Target(o, op)
    ensures id in Step(o, records, op) <==> id in records
    ensures id in records ==> Step(o, records, op)[id] == records[id]
  {}

  /** What a later state of a profile owes to an earlier one. */
  ghost predicate Descends(before: Profile, after: Profile, updates: nat) {
    && after.id == before.id && after.deck == before.deck && after.createdAt == before.createdAt
    && after.revision == before.revision + updates
    && (before.archived ==> after == before)
  }

  lemma StepDescends(o: Oracle, records: map<string, Profile>, op: Op, id: string)
    requires id in records && !Creates(o, op, id)
    ensures id in Step(o, records, op)
    ensures Descends(records[id], Step(o, records, op)[id],
              if op.Update? && op.id == id && Answer(o, records, op).Done? then 1 else 0)
  {}

  /** Over any run that does not create the same identifier again: identity, deck and creation time
      stay, the revision counts the successful updates, and an archived profile never changes. */
  lemma {:induction false} Lifecycle(
      o: Oracle, records: map<string, Profile>, ops: seq<Op>, id: string, m: nat, n: nat)
    requires m <= n <= |ops| && id in Run(o, records, ops, m)
    requires forall k :: m <= k < n ==> !Creates(o, ops[k], id)
    ensures id in Run(o, records, ops, n)
    ensures Descends(Run(o, records, ops, m)[id], Run(o, records, ops, n)[id], UpdatesOf(o, records, ops, id, m, n))
  {
    if m < n {
      Lifecycle(o, records, ops, id, m, n - 1);
      StepDescends(o, Run(o, records, ops, n - 1), ops[n - 1], id);
    }
  }

  /** From its creation on, a profile that is not created again has the deck and time it was created
      with, and revision one plus its successful updates. */
  lemma BornOnce(o: Oracle, records: map<string, Profile>, ops: seq<Op>, k: nat, n: nat)
    requires k < n <= |ops| && ops[k].Create? && Accepted(o, Created(o, ops[k]))
    requires forall j :: k < j < n ==> !Creates(o, ops[j], o.newId(BirthOf(ops[k])))
    ensures var id := o.newId(BirthOf(ops[k]));
      && id in Run(o, records, ops, n)
      && Run(o, records, ops, n)[id].deck == ops[k].deck
      && Run(o, records, ops, n)[id].createdAt == ops[k].now
      && Run(o, records, ops, n)[id].revision == 1 + UpdatesOf(o, records, ops, id, k + 1, n)
  {
    Lifecycle(o, records, ops, o.newId(BirthOf(ops[k])), k + 1, n);
  }

  /** Archiving again answers the same record and changes nothing, whatever the time. */
  lemma ArchiveTwice(o: Oracle, records: map<string, Profile>, id: string, now: string, later: string)
    requires id in records
    ensures var once := Step(o, records, Archive(id, now));
      && Step(o, once, Archive(id, later)) == once
      && Answer(o, once, Archive(id, later)) == Answer(o, records, Archive(id, now))
  {
    var once := Step(o, records, Archive(id, now));
    KeepsSame(once, id);
  }

  // ----- when a new identifier is new -----

  ghost predicate Injective(newId: Birth -> string) { forall a, b :: newId(a) == newId(b) ==> a == b }

  ghost predicate BornBefore(o: Oracle, ops: seq<Op>, n: nat, id: string)
    requires n <= |ops|
  {
    exists k :: 0 <= k < n && Creates(o, ops[k], id)
  }

  lemma {:induction false} PresentIffBorn(o: Oracle, ops: seq<Op>, n: nat, id: string)
    requires n <= |ops|
    ensures id in Run(o, map[], ops, n) <==> BornBefore(o, ops, n, id)
  {
    if n > 0 {
      PresentIffBorn(o, ops, n - 1, id);
      assert BornBefore(o, ops, n, id) <==> BornBefore(o, ops, n - 1, id) || Creates(o, ops[n - 1], id);
    }
  }

  /** In a catalog grown from nothing, creating meets an existing identifier exactly when an earlier
      profile was created with the same deck, name, preference and time; it then starts that profile
      over at revision one, even if it was archived. */
  lemma CreateCollides(o: Oracle, ops: seq<Op>, n: nat, op: Op)
    requires Injective(o.newId) && n <= |ops| && op.Create? && Accepted(o, Created(o, op))
    ensures o.newId(BirthOf(op)) in Run(o, map[], ops, n)
            <==> exists k :: 0 <= k < n && ops[k].Create? && BirthOf(ops[k]) == BirthOf(op)
    ensures var after := Step(o, Run(o, map[], ops, n), op); var id := o.newId(BirthOf(op));
      id in after && !after[id].archived && after[id].revision == 1
  {
    var id := o.newId(BirthOf(op));
    PresentIffBorn(o, ops, n, id);
    if k :| 0 <= k < n && ops[k].Create? && BirthOf(ops[k]) == BirthOf(op) {
      assert Created(o, ops[k]) == Created(o, op);
      assert Creates(o, ops[k], id);
    }
  }

  // ----- the identifier itself -----

  function Entry(key: string, value: string): (Canonical.Key, Canonical.Value) {
    (Canonical.TextKey(key), Canonical.Leaf(Canonical.Str(value)))
  }

  const BIRTH_KEYS: seq<string> := ["active_profile_id", "created_at", "deck_id", "display_name", "schema_version"]

  function BirthValues(b: Birth): (values: seq<string>)
    ensures |values| == 5
  {
    [b.active, b.createdAt, b.deck, b.name, CATALOG_VERSION]
  }

  function BirthDoc(b: Birth): (doc: Canonical.Value)
    ensures doc.Dict? && |doc.entries| == 5
    ensures forall i :: 0 <= i < 5 ==> doc.entries[i] == Entry(BIRTH_KEYS[i], BirthValues(b)[i])
  {
    Canonical.Dict(seq(5, i requires 0 <= i < 5 => Entry(BIRTH_KEYS[i], BirthValues(b)[i])))
  }

  lemma BirthKeysDistinct()
    ensures forall i, j :: 0 <= i < j < 5 ==> BIRTH_KEYS[i] != BIRTH_KEYS[j]
  {
    assert BIRTH_KEYS[0][0] == 'a' && BIRTH_KEYS[1][0] == 'c' && BIRTH_KEYS[4][0] == 's';
    assert BIRTH_KEYS[2][0] == 'd' && BIRTH_KEYS[2][1] == 'e';
    assert BIRTH_KEYS[3][0] == 'd' && BIRTH_KEYS[3][1] == 'i';
  }

  lemma BirthDocPrintable(limit: nat, b: Birth)
    ensures Canonical.WellFormed(BirthDoc(b)) && Canonical.CanonicalJson(limit, BirthDoc(b)).Some?
  {
    var doc := BirthDoc(b);
    BirthKeysDistinct();
    forall i, j | 0 <= i < j < 5 ensures doc.entries[i].0 != doc.entries[j].0 {
      assert BIRTH_KEYS[i] != BIRTH_KEYS[j];
    }
    Canonical.FailsExactly(limit, doc);
  }

  lemma SameBirthDoc(a: Birth, b: Birth)
    requires Canonical.Equivalent(BirthDoc(a), BirthDoc(b))
    ensures a == b
  {
    BirthKeysDistinct();
    forall i | 0 <= i < 5 ensures BirthValues(a)[i] == BirthValues(b)[i] {
      SameField(a, b, i);
    }
    assert BirthValues(a)[0] == BirthValues(b)[0] && BirthValues(a)[1] == BirthValues(b)[1];
    assert BirthValues(a)[2] == BirthValues(b)[2] && BirthValues(a)[3] == BirthValues(b)[3];
  }

  lemma SameText(s: string, t: string, a: Canonical.Value, b: Canonical.Value)
    requires a == Canonical.Leaf(Canonical.Str(s)) && b == Canonical.Leaf(Canonical.Str(t))
    requires Canonical.Equivalent(a, b)
    ensures s == t
  {
    assert Canonical.ScalarOf(a) == Canonical.ScalarOf(b);
  }

  lemma SameField(a: Birth, b: Birth, i: nat)
    requires Canonical.Equivalent(BirthDoc(a), BirthDoc(b)) && i < 5
    ensures BirthValues(a)[i] == BirthValues(b)[i]
  {
    var x, y := BirthDoc(a), BirthDoc(b);
    assert Canonical.HasPartner(x, i, y);
    var j :| 0 <= j < 5 && Canonical.Partners(x, i, y, j);
    assert Canonical.ChildKey(x, i) == BIRTH_KEYS[i] && Canonical.ChildKey(y, j) == BIRTH_KEYS[j];
    BirthKeysDistinct();
    assert i == j;
    SameText(BirthValues(a)[i], BirthValues(b)[i], Canonical.Child(x, i), Canonical.Child(y, j));
  }

  function DigestId(limit: nat, hash: string -> string, b: Birth): Option<string> {
    Canonical.StableDigest(limit, hash, ID_PREFIX, BirthDoc(b))
  }

  /** The five fields by name. */
  ghost function Fields(b: Birth): Canonical.Value {
    Canonical.Dict([
      Entry("active_profile_id", b.active), Entry("created_at", b.createdAt), Entry("deck_id", b.deck),
      Entry("display_name", b.name), Entry("schema_version", "desktop-deck-terminal-profile-catalog-v1")])
  }

  lemma BirthDocIs(b: Birth)
    ensures BirthDoc(b) == Fields(b)
  {
    assert BirthDoc(b).entries == Fields(b).entries;
  }

  /** The identifier is its prefix and the hash of a JSON text of the five fields. */
  lemma IdentifierMeaning(limit: nat, hash: string -> string, b: Birth)
    returns (text: string)
    ensures DigestId(limit, hash, b) == Some("decktermpref_" + hash(text)) && JsonReader.Read(text).Some?
    ensures JsonReader.Denotes(JsonReader.Read(text).value, Fields(b))
  {
    BirthDocPrintable(limit, b);
    BirthDocIs(b);
    text := Canonical.CanonicalJson(limit, BirthDoc(b)).value;
    JsonReader.CanonicalTextDenotes(limit, BirthDoc(b));
  }

  /** Why identifiers are told apart: with a collision-free hash, `stable_digest` gives two profiles
      the same identifier exactly when they were created with the same arguments at the same time. */
  lemma IdentifierNamesBirth(limit: nat, hash: string -> string, a: Birth, b: Birth)
    requires forall s, t :: hash(s) == hash(t) ==> s == t
    ensures DigestId(limit, hash, a).Some?
    ensures DigestId(limit, hash, a) == DigestId(limit, hash, b) <==> a == b
  {
    BirthDocPrintable(limit, a);
    BirthDocPrintable(limit, b);
    Canonical.DigestUnambiguous(limit, hash, ID_PREFIX, BirthDoc(a), BirthDoc(b));
    if DigestId(limit, hash, a) == DigestId(limit, hash, b) { SameBirthDoc(a, b); }
  }
}
