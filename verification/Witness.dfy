/** Qualification witnesses: `derive_qualification_witness` and the independent `_validate_witness`
    of `experiment/qualification.py`. */
module Witness {
  import opened Sequences
  import opened Wrappers

  datatype Profile = Short | Long | GraveBanish | Unsupported

  /** The field names of a witness document. */
  datatype Name =
    | ActionCount | CheckpointCount | MinimumActionCount | Observed | Success | TerminalStopReason
    | Transitions | TurnPhaseProgression | WitnessType | Phase | Turn
    | AfterCount | BeforeCount | FromStep | Player | ToStep | ZoneName

  datatype Field =
    | Null
    | Flag(b: bool)
    | Number(n: int)
    | Text(t: string)
    | Items(items: seq<Field>)
    | Record(fields: map<Name, Field>)

  const LEGAL_STOP := "core_end_turn_available"
  const SHORT_TYPE := "short-legal-stop-success-v1"
  const LONG_TYPE := "long-action-turn-phase-legal-stop-success-v2"
  const GRAVE_BANISH_TYPE := "grave-banish-zone-transition-legal-stop-success-v2"
  const GRAVEYARD := "graveyard"
  const BANISHED := "banished"
  const LONG_PROFILE_MIN_ACTIONS := 12

  // ----- checked reads -----

  /** A whole number that is not a flag and not below `minimum`. */
  predicate IsInteger(f: Field, minimum: int) { f.Number? && f.n >= minimum }

  predicate IsText(f: Field) { f.Text? && f.t != "" }

  function Get(r: Field, name: Name): Field {
    if r.Record? && name in r.fields then r.fields[name] else Null
  }

  // ----- the route, as far as a witness reads it -----

  datatype Zone = Graveyard | Banished

  /** One counted zone of one player. */
  datatype Slot = Slot(second: bool, zone: Zone)

  const SLOT_COUNT := 4

  /** The order of the two nested loops: players, and for each player zones. */
  function SlotAt(k: nat): Slot
    requires k < SLOT_COUNT
  {
    Slot(k >= 2, if k == 0 || k == 2 then Graveyard else Banished)
  }

  function Rank(s: Slot): (k: nat)
    ensures k < SLOT_COUNT && SlotAt(k) == s
  {
    (if s.second then 2 else 0) + (if s.zone == Banished then 1 else 0)
  }

  lemma RankOfSlot(k: nat)
    requires k < SLOT_COUNT
    ensures Rank(SlotAt(k)) == k
  {}

  /** A zone of the initial snapshot; `cards` holds false where the source has None. */
  datatype ZoneSnapshot = ZoneSnapshot(controller: int, location: int, cards: seq<bool>)

  datatype Checkpoint = Checkpoint(turn: Field, phase: Field, step: Field, counts: map<Slot, Field>)

  datatype Route = Route(
    initialZones: seq<ZoneSnapshot>, eventCount: nat, checkpoints: seq<Checkpoint>, success: Field, stopReason: Field)

  type Counts = map<Slot, int>

  ghost predicate Total(c: Counts) { forall s: Slot :: s in c }

  // ----- initial counts -----

  function Present(cards: seq<bool>): nat {
    if cards == [] then 0 else Present(cards[..|cards| - 1]) + if cards[|cards| - 1] then 1 else 0
  }

  /** The slot a snapshot zone counts for, if any. */
  function SlotOf(z: ZoneSnapshot): Option<Slot> {
    if z.controller !in {0, 1} then None
    else if z.location == 0x10 then Some(Slot(z.controller == 1, Graveyard))
    else if z.location == 0x20 then Some(Slot(z.controller == 1, Banished))
    else None
  }

  /** The cards present in the first `n` snapshot zones of `s`. */
  function CardsIn(zones: seq<ZoneSnapshot>, s: Slot, n: nat): nat
    requires n <= |zones|
  {
    if n == 0 then 0
    else CardsIn(zones, s, n - 1) + if SlotOf(zones[n - 1]) == Some(s) then Present(zones[n - 1].cards) else 0
  }

  method CountCards(cards: seq<bool>) returns (n: nat)
    ensures n == Present(cards)
  {
    n := 0;
    for i := 0 to |cards|
      invariant n == Present(cards[..i])
    {
      assert cards[..i + 1][..i] == cards[..i];
      if cards[i] { n := n + 1; }
    }
    assert cards[..|cards|] == cards;
  }

  ghost predicate Counts4(zones: seq<ZoneSnapshot>, counts: Counts, n: nat)
    requires n <= |zones|
  {
    forall k :: 0 <= k < SLOT_COUNT ==> SlotAt(k) in counts && counts[SlotAt(k)] == CardsIn(zones, SlotAt(k), n)
  }

  lemma FourSlots(zones: seq<ZoneSnapshot>, counts: Counts, n: nat)
    requires n <= |zones| && Counts4(zones, counts, n)
    ensures forall s: Slot :: s in counts && counts[s] == CardsIn(zones, s, n)
  {
    forall s: Slot ensures s in counts && counts[s] == CardsIn(zones, s, n) {
      assert SlotAt(Rank(s)) == s;
    }
  }

  /** What the snapshot holds in each counted zone. */
  function InitialOf(zones: seq<ZoneSnapshot>): (counts: Counts)
    ensures forall s: Slot :: s in counts && counts[s] == CardsIn(zones, s, |zones|)
  {
    var counts := map[
      SlotAt(0) := CardsIn(zones, SlotAt(0), |zones|), SlotAt(1) := CardsIn(zones, SlotAt(1), |zones|),
      SlotAt(2) := CardsIn(zones, SlotAt(2), |zones|), SlotAt(3) := CardsIn(zones, SlotAt(3), |zones|)
    ];
    FourSlots(zones, counts, |zones|);
    counts
  }

  /** The places of the snapshot that hold a card of one player's graveyard or banished zone. */
  ghost function PresentUpto(zones: seq<ZoneSnapshot>, s: Slot, n: nat): set<(int, int)>
    requires n <= |zones|
  {
    set i, j | 0 <= i < n && 0 <= j < |zones[i].cards| && zones[i].controller == (if s.second then 1 else 0)
      && zones[i].location == (if s.zone == Graveyard then 16 else 32) && zones[i].cards[j] :: (i, j)
  }

  ghost function PresentIn(zones: seq<ZoneSnapshot>, s: Slot): set<(int, int)> { PresentUpto(zones, s, |zones|) }

  ghost function CardsUpto(cards: seq<bool>, i: int, n: nat): set<(int, int)>
    requires n <= |cards|
  {
    set j | 0 <= j < n && cards[j] :: (i, j)
  }

  lemma {:induction false} CardsMeaning(cards: seq<bool>, i: int, n: nat)
    requires n <= |cards|
    ensures Present(cards[..n]) == |CardsUpto(cards, i, n)|
  {
    if n > 0 {
      CardsMeaning(cards, i, n - 1);
      assert cards[..n][..n - 1] == cards[..n - 1];
      var before := CardsUpto(cards, i, n - 1);
      if cards[n - 1] {
        assert CardsUpto(cards, i, n) == before + {(i, n - 1)};
      } else {
        assert CardsUpto(cards, i, n) == before;
      }
    } else {
      assert CardsUpto(cards, i, 0) == {};
    }
  }

  lemma PresentMore(zones: seq<ZoneSnapshot>, s: Slot, n: nat)
    requires n < |zones|
    ensures PresentUpto(zones, s, n + 1) == PresentUpto(zones, s, n)
            + if SlotOf(zones[n]) == Some(s) then CardsUpto(zones[n].cards, n, |zones[n].cards|) else {}
  {
    SlotMeaning(zones[n], s);
  }

  lemma SlotMeaning(z: ZoneSnapshot, s: Slot)
    ensures SlotOf(z) == Some(s) <==>
      z.controller == (if s.second then 1 else 0) && z.location == (if s.zone == Graveyard then 16 else 32)
  {
  }

  lemma {:induction false} PresentMeaning(zones: seq<ZoneSnapshot>, s: Slot, n: nat)
    requires n <= |zones|
    ensures CardsIn(zones, s, n) == |PresentUpto(zones, s, n)|
  {
    if n > 0 {
      PresentMeaning(zones, s, n - 1);
      PresentMore(zones, s, n - 1);
      var cards := zones[n - 1].cards;
      CardsMeaning(cards, n - 1, |cards|);
      assert cards[..|cards|] == cards;
      assert PresentUpto(zones, s, n - 1) !! CardsUpto(cards, n - 1, |cards|);
    } else {
      assert PresentUpto(zones, s, 0) == {};
    }
  }

  /** `_initial_zone_counts`: every zone of a slot adds to it. */
  method InitialZoneCounts(zones: seq<ZoneSnapshot>) returns (counts: Counts)
    ensures counts == InitialOf(zones)
    ensures forall s: Slot :: s in counts && counts[s] == |PresentIn(zones, s)|
  {
    forall s: Slot ensures InitialOf(zones)[s] == |PresentIn(zones, s)| { PresentMeaning(zones, s, |zones|); }
    counts := map[SlotAt(0) := 0, SlotAt(1) := 0, SlotAt(2) := 0, SlotAt(3) := 0];
    FourSlots(zones, counts, 0);
    for i := 0 to |zones|
      invariant forall s: Slot :: s in counts && counts[s] == CardsIn(zones, s, i)
    {
      var slot := SlotOf(zones[i]);
      if slot.Some? {
        var cards := CountCards(zones[i].cards);
        counts := counts[slot.value := counts[slot.value] + cards];
      }
    }
    forall s: Slot ensures counts[s] == InitialOf(zones)[s] {}
  }

  // ----- zone transitions -----

  datatype Transition = Transition(slot: Slot, before: int, after: int, fromStep: int, toStep: int)

  ghost predicate Counted(c: Checkpoint) {
    forall s: Slot :: s in c.counts && IsInteger(c.counts[s], 0)
  }

  ghost predicate Stepped(c: Checkpoint) { Counted(c) && IsInteger(c.step, 0) }

  ghost predicate AllStepped(cs: seq<Checkpoint>) { forall i :: 0 <= i < |cs| ==> Stepped(cs[i]) }

  /** The count of `s` before checkpoint `n`. */
  ghost function CountAt(initial: Counts, cs: seq<Checkpoint>, s: Slot, n: nat): int
    requires Total(initial) && n <= |cs| && AllStepped(cs)
  {
    if n == 0 then initial[s] else cs[n - 1].counts[s].n
  }

  ghost function StepAt(cs: seq<Checkpoint>, n: nat): int
    requires n <= |cs| && AllStepped(cs)
  {
    if n == 0 then -1 else cs[n - 1].step.n
  }

  /** What checkpoint `n` adds for one slot. */
  ghost function Change(initial: Counts, cs: seq<Checkpoint>, s: Slot, n: nat): seq<Transition>
    requires Total(initial) && n < |cs| && AllStepped(cs)
  {
    var before, after := CountAt(initial, cs, s, n), CountAt(initial, cs, s, n + 1);
    if before == after then [] else [Transition(s, before, after, StepAt(cs, n), StepAt(cs, n + 1))]
  }

  /** The changes of the first `k` slots at checkpoint `n`. */
  ghost function ChangesAt(initial: Counts, cs: seq<Checkpoint>, n: nat, k: nat): seq<Transition>
    requires Total(initial) && n < |cs| && AllStepped(cs) && k <= SLOT_COUNT
  {
    if k == 0 then [] else ChangesAt(initial, cs, n, k - 1) + Change(initial, cs, SlotAt(k - 1), n)
  }

  /** Every change up to checkpoint `n`, checkpoint by checkpoint and slot by slot. */
  ghost function AllChanges(initial: Counts, cs: seq<Checkpoint>, n: nat): seq<Transition>
    requires Total(initial) && n <= |cs| && AllStepped(cs)
  {
    if n == 0 then [] else AllChanges(initial, cs, n - 1) + ChangesAt(initial, cs, n - 1, SLOT_COUNT)
  }

  /** The changes of one slot alone. */
  ghost function SlotChanges(initial: Counts, cs: seq<Checkpoint>, s: Slot, n: nat): seq<Transition>
    requires Total(initial) && n <= |cs| && AllStepped(cs)
  {
    if n == 0 then [] else SlotChanges(initial, cs, s, n - 1) + Change(initial, cs, s, n - 1)
  }

  function Of(ts: seq<Transition>, s: Slot): seq<Transition> {
    if ts == [] then []
    else if ts[|ts| - 1].slot == s then Of(ts[..|ts| - 1], s) + [ts[|ts| - 1]]
    else Of(ts[..|ts| - 1], s)
  }

  lemma {:induction false} OfConcat(xs: seq<Transition>, ys: seq<Transition>, s: Slot)
    ensures Of(xs + ys, s) == Of(xs, s) + Of(ys, s)
  {
    if ys == [] {
      assert xs + ys == xs;
    } else {
      assert (xs + ys)[..|xs + ys| - 1] == xs + ys[..|ys| - 1];
      OfConcat(xs, ys[..|ys| - 1], s);
    }
  }

  lemma OfChange(initial: Counts, cs: seq<Checkpoint>, s: Slot, t: Slot, n: nat)
    requires Total(initial) && n < |cs| && AllStepped(cs)
    ensures Of(Change(initial, cs, t, n), s) == if s == t then Change(initial, cs, t, n) else []
  {}

  lemma OfNextSlot(initial: Counts, cs: seq<Checkpoint>, s: Slot, n: nat, k: nat)
    requires Total(initial) && n < |cs| && AllStepped(cs) && k < SLOT_COUNT
    ensures Of(ChangesAt(initial, cs, n, k + 1), s)
            == Of(ChangesAt(initial, cs, n, k), s) + Of(Change(initial, cs, SlotAt(k), n), s)
  {
    OfConcat(ChangesAt(initial, cs, n, k), Change(initial, cs, SlotAt(k), n), s);
  }

  lemma {:induction false} NotYetVisited(initial: Counts, cs: seq<Checkpoint>, s: Slot, n: nat, k: nat)
    requires Total(initial) && n < |cs| && AllStepped(cs) && k <= Rank(s)
    ensures Of(ChangesAt(initial, cs, n, k), s) == []
  {
    if k > 0 {
      NotYetVisited(initial, cs, s, n, k - 1);
      OfNextSlot(initial, cs, s, n, k - 1);
      RankOfSlot(k - 1);
      OfChange(initial, cs, s, SlotAt(k - 1), n);
    }
  }

  lemma EmptyEnds(xs: seq<Transition>)
    ensures xs + [] == xs && [] + xs == xs
  {}

  lemma {:induction false} Visited(initial: Counts, cs: seq<Checkpoint>, s: Slot, n: nat, k: nat)
    requires Total(initial) && n < |cs| && AllStepped(cs) && Rank(s) <= k < SLOT_COUNT
    ensures Of(ChangesAt(initial, cs, n, k + 1), s) == Change(initial, cs, s, n)
  {
    var change := Change(initial, cs, s, n);
    EmptyEnds(change);
    OfNextSlot(initial, cs, s, n, k);
    OfChange(initial, cs, s, SlotAt(k), n);
    if Rank(s) == k {
      NotYetVisited(initial, cs, s, n, k);
    } else {
      RankOfSlot(k);
      Visited(initial, cs, s, n, k - 1);
    }
  }

  lemma OfNextCheckpoint(initial: Counts, cs: seq<Checkpoint>, s: Slot, n: nat)
    requires Total(initial) && n < |cs| && AllStepped(cs)
    ensures Of(AllChanges(initial, cs, n + 1), s) == Of(AllChanges(initial, cs, n), s) + Change(initial, cs, s, n)
  {
    OfConcat(AllChanges(initial, cs, n), ChangesAt(initial, cs, n, SLOT_COUNT), s);
    Visited(initial, cs, s, n, SLOT_COUNT - 1);
  }

  ghost predicate Separate(initial: Counts, cs: seq<Checkpoint>, s: Slot, n: nat)
    requires Total(initial) && n <= |cs| && AllStepped(cs)
  {
    Of(AllChanges(initial, cs, n), s) == SlotChanges(initial, cs, s, n)
  }

  lemma SeparateNext(initial: Counts, cs: seq<Checkpoint>, s: Slot, n: nat)
    requires Total(initial) && n < |cs| && AllStepped(cs) && Separate(initial, cs, s, n)
    ensures Separate(initial, cs, s, n + 1)
  {
    OfNextCheckpoint(initial, cs, s, n);
  }

  /** The recorded list holds, for each slot, exactly that slot's own changes in order. */
  lemma {:induction false} SlotsSeparate(initial: Counts, cs: seq<Checkpoint>, s: Slot, n: nat)
    requires Total(initial) && n <= |cs| && AllStepped(cs)
    ensures Separate(initial, cs, s, n)
  {
    if n > 0 {
      SlotsSeparate(initial, cs, s, n - 1);
      SeparateNext(initial, cs, s, n - 1);
    }
  }

  function Differences(ts: seq<Transition>): int {
    if ts == [] then 0 else Differences(ts[..|ts| - 1]) + (ts[|ts| - 1].after - ts[|ts| - 1].before)
  }

  /** Each change starts at the count the one before it reached. */
  ghost predicate Chains(start: int, ts: seq<Transition>, end: int) {
    if ts == [] then start == end
    else
      var last := ts[|ts| - 1];
      Chains(start, ts[..|ts| - 1], last.before) && last.before != last.after && last.after == end
  }

  lemma {:induction false} ChainSums(start: int, ts: seq<Transition>, end: int)
    requires Chains(start, ts, end)
    ensures Differences(ts) == end - start
  {
    if ts != [] { ChainSums(start, ts[..|ts| - 1], ts[|ts| - 1].before); }
  }

  lemma {:induction false} SlotChain(initial: Counts, cs: seq<Checkpoint>, s: Slot, n: nat)
    requires Total(initial) && n <= |cs| && AllStepped(cs)
    ensures Chains(initial[s], SlotChanges(initial, cs, s, n), CountAt(initial, cs, s, n))
  {
    if n > 0 {
      SlotChain(initial, cs, s, n - 1);
      var front, more := SlotChanges(initial, cs, s, n - 1), Change(initial, cs, s, n - 1);
      if more == [] {
        assert front + more == front;
      } else {
        assert (front + more)[..|front + more| - 1] == front;
      }
    }
  }

  /** Telescoping: for every slot the recorded changes run from the initial count to the last one
      without a gap, so their differences add up to the difference of the two. */
  lemma TransitionsTelescope(initial: Counts, cs: seq<Checkpoint>, s: Slot)
    requires Total(initial) && AllStepped(cs)
    ensures var mine := Of(AllChanges(initial, cs, |cs|), s);
      && Chains(initial[s], mine, CountAt(initial, cs, s, |cs|))
      && Differences(mine) == CountAt(initial, cs, s, |cs|) - initial[s]
  {
    SlotsSeparate(initial, cs, s, |cs|);
    SlotChain(initial, cs, s, |cs|);
    ChainSums(initial[s], SlotChanges(initial, cs, s, |cs|), CountAt(initial, cs, s, |cs|));
  }

  ghost predicate Constant(initial: Counts, cs: seq<Checkpoint>, n: nat)
    requires Total(initial) && n <= |cs| && AllStepped(cs)
  {
    forall s: Slot, i :: 0 <= i <= n ==> CountAt(initial, cs, s, i) == initial[s]
  }

  lemma {:induction false} NoChanges(initial: Counts, cs: seq<Checkpoint>, n: nat, k: nat)
    requires Total(initial) && n < |cs| && AllStepped(cs) && k <= SLOT_COUNT
    requires forall s: Slot :: CountAt(initial, cs, s, n + 1) == CountAt(initial, cs, s, n)
    ensures ChangesAt(initial, cs, n, k) == []
  {
    if k > 0 { NoChanges(initial, cs, n, k - 1); }
  }

  lemma NothingMoved(initial: Counts, cs: seq<Checkpoint>, n: nat, s: Slot)
    requires Total(initial) && n < |cs| && AllStepped(cs) && ChangesAt(initial, cs, n, SLOT_COUNT) == []
    ensures CountAt(initial, cs, s, n + 1) == CountAt(initial, cs, s, n)
  {
    Visited(initial, cs, s, n, SLOT_COUNT - 1);
  }

  lemma StillConstant(initial: Counts, cs: seq<Checkpoint>, n: nat)
    requires Total(initial) && n < |cs| && AllStepped(cs) && Constant(initial, cs, n + 1)
    ensures Constant(initial, cs, n)
    ensures forall s: Slot :: CountAt(initial, cs, s, n + 1) == CountAt(initial, cs, s, n)
  {
    forall s: Slot ensures CountAt(initial, cs, s, n + 1) == CountAt(initial, cs, s, n) {
      assert CountAt(initial, cs, s, n + 1) == initial[s] == CountAt(initial, cs, s, n);
    }
  }

  lemma ConstantFurther(initial: Counts, cs: seq<Checkpoint>, n: nat)
    requires Total(initial) && n < |cs| && AllStepped(cs) && Constant(initial, cs, n)
    requires ChangesAt(initial, cs, n, SLOT_COUNT) == []
    ensures Constant(initial, cs, n + 1)
  {
    forall s: Slot ensures CountAt(initial, cs, s, n + 1) == initial[s] {
      NothingMoved(initial, cs, n, s);
      assert CountAt(initial, cs, s, n) == initial[s];
    }
  }

  /** Nothing is recorded exactly when no count ever moves. */
  lemma {:induction false} EmptyIffConstant(initial: Counts, cs: seq<Checkpoint>, n: nat)
    requires Total(initial) && n <= |cs| && AllStepped(cs)
    ensures AllChanges(initial, cs, n) == [] <==> Constant(initial, cs, n)
  {
    if n > 0 {
      EmptyIffConstant(initial, cs, n - 1);
      if AllChanges(initial, cs, n) == [] {
        ConstantFurther(initial, cs, n - 1);
      } else if Constant(initial, cs, n) {
        StillConstant(initial, cs, n - 1);
        NoChanges(initial, cs, n - 1, SLOT_COUNT);
      }
    }
  }

  // ----- turn and phase progression -----

  datatype Coordinate = Coordinate(turn: int, phase: string)

  predicate Placed(c: Checkpoint) { IsInteger(c.turn, 1) && IsText(c.phase) }

  ghost predicate AllPlaced(cs: seq<Checkpoint>) { forall i :: 0 <= i < |cs| ==> Placed(cs[i]) }

  function CoordinateOf(c: Checkpoint): Coordinate
    requires Placed(c)
  {
    Coordinate(c.turn.n, c.phase.t)
  }

  ghost function Coordinates(cs: seq<Checkpoint>): (r: seq<Coordinate>)
    requires AllPlaced(cs)
    ensures |r| == |cs| && forall i :: 0 <= i < |cs| ==> r[i] == CoordinateOf(cs[i])
  {
    seq(|cs|, i requires 0 <= i < |cs| && AllPlaced(cs) => CoordinateOf(cs[i]))
  }

  /** The first `n` coordinates without immediate repeats. */
  function Collapse(xs: seq<Coordinate>, n: nat): seq<Coordinate>
    requires n <= |xs|
  {
    if n == 0 then []
    else if n == 1 || xs[n - 1] != xs[n - 2] then Collapse(xs, n - 1) + [xs[n - 1]]
    else Collapse(xs, n - 1)
  }

  ghost predicate NoRepeats(xs: seq<Coordinate>) {
    forall i :: 0 < i < |xs| ==> xs[i - 1] != xs[i]
  }

  /** The number of changes among the first `n` coordinates: where coordinate `n - 1` ends up. */
  function Place(xs: seq<Coordinate>, n: nat): nat
    requires n <= |xs|
  {
    if n == 0 then 0
    else if n == 1 || xs[n - 1] != xs[n - 2] then Place(xs, n - 1) + 1
    else Place(xs, n - 1)
  }

  lemma {:induction false} CollapseEnds(xs: seq<Coordinate>, n: nat)
    requires n <= |xs|
    ensures |Collapse(xs, n)| == Place(xs, n)
    ensures n > 0 ==> Place(xs, n) > 0 && Collapse(xs, n)[Place(xs, n) - 1] == xs[n - 1]
  {
    if n > 0 { CollapseEnds(xs, n - 1); }
  }

  lemma {:induction false} CollapseDistinct(xs: seq<Coordinate>, n: nat)
    requires n <= |xs|
    ensures NoRepeats(Collapse(xs, n))
  {
    if n > 0 {
      CollapseDistinct(xs, n - 1);
      CollapseEnds(xs, n - 1);
    }
  }

  lemma {:induction false} CollapseGrows(xs: seq<Coordinate>, m: nat, n: nat)
    requires m <= n <= |xs|
    ensures Collapse(xs, m) <= Collapse(xs, n)
  {
    if m < n { CollapseGrows(xs, m, n - 1); }
  }

  /** The progression has no immediate repeats, and walking through the checkpoints walks through
      it: each checkpoint stands on its own entry, which is the entry of the checkpoint before
      when the coordinate repeats and the next one when it changes. */
  lemma ProgressionFollows(xs: seq<Coordinate>, i: nat)
    requires i < |xs|
    ensures NoRepeats(Collapse(xs, |xs|))
    ensures 0 < Place(xs, i + 1) <= |Collapse(xs, |xs|)|
    ensures Collapse(xs, |xs|)[Place(xs, i + 1) - 1] == xs[i]
    ensures Place(xs, i + 1) == Place(xs, i) + if i > 0 && xs[i] == xs[i - 1] then 0 else 1
    ensures |Collapse(xs, |xs|)| == Place(xs, |xs|)
  {
    CollapseDistinct(xs, |xs|);
    CollapseEnds(xs, i + 1);
    CollapseEnds(xs, |xs|);
    CollapseGrows(xs, i + 1, |xs|);
  }

  /** A progression is its own progression. */
  lemma {:induction false} CollapseFixed(xs: seq<Coordinate>, n: nat)
    requires n <= |xs| && NoRepeats(xs)
    ensures Collapse(xs, n) == xs[..n]
  {
    if n > 0 {
      CollapseFixed(xs, n - 1);
      assert xs[..n] == xs[..n - 1] + [xs[n - 1]];
    }
  }

  // ----- derivation -----

  method DeriveProgression(cs: seq<Checkpoint>) returns (r: Option<seq<Coordinate>>)
    ensures r.Some? <==> AllPlaced(cs)
    ensures r.Some? ==> r.value == Collapse(Coordinates(cs), |cs|)
  {
    var progression: seq<Coordinate> := [];
    var previous: Option<Coordinate> := None;
    for i := 0 to |cs|
      invariant forall k :: 0 <= k < i ==> Placed(cs[k])
      invariant previous == if i == 0 then None else Some(CoordinateOf(cs[i - 1]))
      invariant progression == Collapse(Coordinates(cs[..i]), i)
    {
      if !Placed(cs[i]) {
        return None;
      }
      CollapsePrefix(Coordinates(cs[..i]), Coordinates(cs[..i + 1]), i);
      if previous != Some(CoordinateOf(cs[i])) {
        progression := progression + [CoordinateOf(cs[i])];
        previous := Some(CoordinateOf(cs[i]));
      }
    }
    assert cs[..|cs|] == cs;
    r := Some(progression);
  }

  lemma {:induction false} CollapsePrefix(xs: seq<Coordinate>, ys: seq<Coordinate>, n: nat)
    requires n <= |xs| && n <= |ys| && xs[..n] == ys[..n]
    ensures Collapse(xs, n) == Collapse(ys, n)
  {
    if n > 0 {
      assert xs[..n][..n - 1] == xs[..n - 1] && ys[..n][..n - 1] == ys[..n - 1];
      assert xs[..n][n - 1] == ys[..n][n - 1];
      if n > 1 { assert xs[..n][n - 2] == ys[..n][n - 2]; }
      CollapsePrefix(xs, ys, n - 1);
    }
  }

  method ZoneCounts(c: Checkpoint) returns (counts: Option<Counts>)
    ensures counts.Some? <==> Counted(c)
    ensures counts.Some? ==> Total(counts.value) && forall s :: counts.value[s] == c.counts[s].n
  {
    var read: Counts := map[];
    for k := 0 to SLOT_COUNT
      invariant forall j :: 0 <= j < k ==> SlotAt(j) in c.counts && IsInteger(c.counts[SlotAt(j)], 0)
      invariant forall j :: 0 <= j < k ==> SlotAt(j) in read && read[SlotAt(j)] == c.counts[SlotAt(j)].n
    {
      if SlotAt(k) !in c.counts || !IsInteger(c.counts[SlotAt(k)], 0) {
        return None;
      }
      read := read[SlotAt(k) := c.counts[SlotAt(k)].n];
    }
    forall s: Slot
      ensures s in c.counts && IsInteger(c.counts[s], 0) && s in read && read[s] == c.counts[s].n
    {
      assert SlotAt(Rank(s)) == s;
    }
    counts := Some(read);
  }

  /** The two inner loops: what one checkpoint adds. */
  method CompareCounts(before: Counts, after: Counts, fromStep: int, toStep: int,
                       ghost initial: Counts, ghost cs: seq<Checkpoint>, ghost n: nat)
    returns (ts: seq<Transition>)
    requires Total(before) && Total(after) && Total(initial) && n < |cs| && AllStepped(cs)
    requires forall s :: before[s] == CountAt(initial, cs, s, n) && after[s] == CountAt(initial, cs, s, n + 1)
    requires fromStep == StepAt(cs, n) && toStep == StepAt(cs, n + 1)
    ensures ts == ChangesAt(initial, cs, n, SLOT_COUNT)
  {
    ts := [];
    for k := 0 to SLOT_COUNT
      invariant ts == ChangesAt(initial, cs, n, k)
    {
      var s := SlotAt(k);
      if before[s] != after[s] {
        ts := ts + [Transition(s, before[s], after[s], fromStep, toStep)];
      }
    }
  }

  method DeriveTransitions(initial: Counts, cs: seq<Checkpoint>) returns (r: Option<seq<Transition>>)
    requires Total(initial)
    ensures r == if AllStepped(cs) then Some(AllChanges(initial, cs, |cs|)) else None
  {
    var previousCounts := initial;
    var previousStep := -1;
    var transitions: seq<Transition> := [];
    for i := 0 to |cs|
      invariant AllStepped(cs[..i]) && Total(previousCounts)
      invariant forall s :: previousCounts[s] == CountAt(initial, cs[..i], s, i)
      invariant previousStep == StepAt(cs[..i], i)
      invariant transitions == AllChanges(initial, cs[..i], i)
    {
      var current := ZoneCounts(cs[i]);
      if current.None? || !IsInteger(cs[i].step, 0) {
        assert !Stepped(cs[i]);
        return None;
      }
      PrefixStep(cs, i);
      ChangesPrefix(initial, cs, i);
      var more := CompareCounts(previousCounts, current.value, previousStep, cs[i].step.n, initial, cs[..i + 1], i);
      transitions := transitions + more;
      previousCounts := current.value;
      previousStep := cs[i].step.n;
    }
    assert cs[..|cs|] == cs;
    r := Some(transitions);
  }

  lemma PrefixStep(cs: seq<Checkpoint>, i: nat)
    requires i < |cs| && AllStepped(cs[..i]) && Stepped(cs[i])
    ensures AllStepped(cs[..i + 1])
  {
    assert cs[..i + 1] == cs[..i] + [cs[i]];
  }

  lemma {:induction false} AllChangesPrefix(initial: Counts, xs: seq<Checkpoint>, ys: seq<Checkpoint>, n: nat)
    requires Total(initial) && AllStepped(xs) && AllStepped(ys)
    requires n <= |xs| <= |ys| && ys[..|xs|] == xs
    ensures AllChanges(initial, xs, n) == AllChanges(initial, ys, n)
  {
    if n > 0 {
      AllChangesPrefix(initial, xs, ys, n - 1);
      ChangesAtPrefix(initial, xs, ys, n - 1, SLOT_COUNT);
    }
  }

  lemma {:induction false} ChangesAtPrefix(initial: Counts, xs: seq<Checkpoint>, ys: seq<Checkpoint>, n: nat, k: nat)
    requires Total(initial) && AllStepped(xs) && AllStepped(ys)
    requires n < |xs| <= |ys| && ys[..|xs|] == xs && k <= SLOT_COUNT
    ensures ChangesAt(initial, xs, n, k) == ChangesAt(initial, ys, n, k)
  {
    if k > 0 {
      ChangesAtPrefix(initial, xs, ys, n, k - 1);
      assert ys[..|xs|][n] == ys[n];
      if n > 0 { assert ys[..|xs|][n - 1] == ys[n - 1]; }
    }
  }

  lemma ChangesPrefix(initial: Counts, cs: seq<Checkpoint>, i: nat)
    requires Total(initial) && i < |cs| && AllStepped(cs[..i]) && AllStepped(cs[..i + 1])
    ensures AllChanges(initial, cs[..i], i) == AllChanges(initial, cs[..i + 1], i)
    ensures forall s :: CountAt(initial, cs[..i], s, i) == CountAt(initial, cs[..i + 1], s, i)
    ensures StepAt(cs[..i], i) == StepAt(cs[..i + 1], i)
  {
    assert cs[..i + 1][..i] == cs[..i];
    AllChangesPrefix(initial, cs[..i], cs[..i + 1], i);
    if i > 0 { assert cs[..i + 1][i - 1] == cs[..i][i - 1]; }
  }

  // ----- the witness document -----

  predicate LegalStop(route: Route) { route.success == Flag(true) && route.stopReason == Text(LEGAL_STOP) }

  function CoordinateDoc(c: Coordinate): Field {
    Record(map[Phase := Text(c.phase), Turn := Number(c.turn)])
  }

  function CoordinateDocs(cs: seq<Coordinate>): (r: seq<Field>)
    ensures |r| == |cs| && forall i :: 0 <= i < |cs| ==> r[i] == CoordinateDoc(cs[i])
  {
    seq(|cs|, i requires 0 <= i < |cs| => CoordinateDoc(cs[i]))
  }

  function TransitionDoc(t: Transition): Field {
    Record(map[
      AfterCount := Number(t.after),
      BeforeCount := Number(t.before),
      FromStep := Number(t.fromStep),
      Player := Number(if t.slot.second then 1 else 0),
      ToStep := Number(t.toStep),
      ZoneName := Text(if t.slot.zone == Graveyard then GRAVEYARD else BANISHED)
    ])
  }

  function TransitionDocs(ts: seq<Transition>): (r: seq<Field>)
    ensures |r| == |ts| && forall i :: 0 <= i < |ts| ==> r[i] == TransitionDoc(ts[i])
  {
    seq(|ts|, i requires 0 <= i < |ts| => TransitionDoc(ts[i]))
  }

  function ShortWitness(route: Route): Field {
    Record(map[
      ActionCount := Number(route.eventCount),
      Observed := Flag(LegalStop(route)),
      Success := route.success,
      TerminalStopReason := route.stopReason,
      WitnessType := Text(SHORT_TYPE)
    ])
  }

  function LongWitness(route: Route, progression: seq<Coordinate>): Field {
    Record(map[
      ActionCount := Number(route.eventCount),
      CheckpointCount := Number(|route.checkpoints|),
      MinimumActionCount := Number(LONG_PROFILE_MIN_ACTIONS),
      Observed := Flag(LegalStop(route) && route.eventCount >= LONG_PROFILE_MIN_ACTIONS && progression != []),
      Success := route.success,
      TerminalStopReason := route.stopReason,
      TurnPhaseProgression := Items(CoordinateDocs(progression)),
      WitnessType := Text(LONG_TYPE)
    ])
  }

  function GraveBanishWitness(route: Route, transitions: seq<Transition>): Field {
    Record(map[
      Observed := Flag(LegalStop(route) && transitions != []),
      Success := route.success,
      TerminalStopReason := route.stopReason,
      Transitions := Items(TransitionDocs(transitions)),
      WitnessType := Text(GRAVE_BANISH_TYPE)
    ])
  }

  /** Which routes qualify: a legal successful stop, and for the long profile enough actions and
      at least one well-formed checkpoint, for the zone profile a count that moves. */
  ghost predicate Qualifies(profile: Profile, route: Route) {
    route.success == Flag(true) && route.stopReason == Text("core_end_turn_available") &&
    match profile
    case Short => true
    case Long => AllPlaced(route.checkpoints) && route.eventCount >= 12 && route.checkpoints != []
    case GraveBanish =>
      AllStepped(route.checkpoints)
      && !Constant(InitialOf(route.initialZones), route.checkpoints, |route.checkpoints|)
    case Unsupported => false
  }

  ghost predicate IsWitness(profile: Profile, route: Route, w: Field)
    requires Qualifies(profile, route)
  {
    var cs := route.checkpoints;
    match profile
    case Short => w == ShortWitness(route)
    case Long => w == LongWitness(route, Collapse(Coordinates(cs), |cs|))
    case GraveBanish => w == GraveBanishWitness(route, AllChanges(InitialOf(route.initialZones), cs, |cs|))
  }

  method DeriveQualificationWitness(profile: Profile, route: Route) returns (w: Option<Field>)
    ensures w.Some? <==> Qualifies(profile, route)
    ensures w.Some? ==> IsWitness(profile, route, w.value)
    ensures w.Some? ==> Witnesses(profile, route, w.value)
  {
    if !route.success.Flag? || !IsText(route.stopReason) {
      return None;
    }
    var document: Field;
    match profile {
      case Short =>
        document := ShortWitness(route);
      case Long =>
        var progression := DeriveProgression(route.checkpoints);
        if progression.None? {
          return None;
        }
        ProgressionSound(route.checkpoints);
        document := LongWitness(route, progression.value);
      case GraveBanish =>
        var initial := InitialZoneCounts(route.initialZones);
        var transitions := DeriveTransitions(initial, route.checkpoints);
        if transitions.None? {
          return None;
        }
        EmptyIffConstant(initial, route.checkpoints, |route.checkpoints|);
        document := GraveBanishWitness(route, transitions.value);
      case Unsupported =>
        return None;
    }
    if Get(document, Observed) != Flag(true) {
      return None;
    }
    w := Some(document);
    WitnessMeaning(profile, route, document);
  }

  // ----- what a witness says of its route, without the functions that make it -----

  ghost predicate CoordinateIs(d: Field, c: Checkpoint) {
    d == Record(map[Phase := c.phase, Turn := c.turn])
  }

  /** Each checkpoint stands at the place of its coordinate: the place of the one before while turn and phase
      stay the same, the next one when they change; and there are no other places. */
  ghost predicate Walks(places: seq<nat>, docs: seq<Field>, cs: seq<Checkpoint>) {
    && |places| == |cs| > 0 && places[0] == 0 && |docs| == places[|cs| - 1] + 1
    && (forall i :: 0 <= i < |cs| ==> places[i] < |docs| && CoordinateIs(docs[places[i]], cs[i]))
    && (forall i :: 0 < i < |cs| ==>
          places[i] == places[i - 1]
                       + if cs[i].turn == cs[i - 1].turn && cs[i].phase == cs[i - 1].phase then 0 else 1)
  }

  /** The count of a zone before checkpoint `n`: in the snapshot, or at the checkpoint before. */
  ghost function CountBefore(route: Route, s: Slot, n: nat): int
    requires AllStepped(route.checkpoints) && n <= |route.checkpoints|
  {
    if n == 0 then |PresentIn(route.initialZones, s)| else route.checkpoints[n - 1].counts[s].n
  }

  /** Place `c` of the comparison: checkpoint `c / 4`, then player, then graveyard before banished. */
  ghost function ComparedSlot(c: nat): Slot {
    Slot(c % 4 >= 2, if c % 2 == 0 then Graveyard else Banished)
  }

  ghost function Moved(route: Route): set<nat>
    requires AllStepped(route.checkpoints)
  {
    set c: nat | c < 4 * |route.checkpoints|
      && CountBefore(route, ComparedSlot(c), c / 4) != CountBefore(route, ComparedSlot(c), c / 4 + 1)
  }

  ghost predicate TransitionIs(d: Field, route: Route, c: nat)
    requires AllStepped(route.checkpoints)
  {
    && c < 4 * |route.checkpoints|
    && var n, s := c / 4, ComparedSlot(c);
      d == Record(map[
        AfterCount := Number(CountBefore(route, s, n + 1)),
        BeforeCount := Number(CountBefore(route, s, n)),
        FromStep := (if n == 0 then Number(-1) else route.checkpoints[n - 1].step),
        Player := Number(if s.second then 1 else 0),
        ToStep := route.checkpoints[n].step,
        ZoneName := Text(if s.zone == Graveyard then "graveyard" else "banished")
      ])
  }

  /** One transition for each count that moved, in the order of the comparison. */
  ghost predicate Recorded(picked: seq<nat>, docs: seq<Field>, route: Route)
    requires AllStepped(route.checkpoints)
  {
    && Picks(picked, Moved(route)) && |docs| == |picked|
    && forall j :: 0 <= j < |docs| ==> TransitionIs(docs[j], route, picked[j])
  }

  /** The document of a qualifying route: it was observed, and holds the counts and the progression or the
      transitions of that route. */
  ghost predicate Witnesses(profile: Profile, route: Route, w: Field)
    requires Qualifies(profile, route)
  {
    match profile
    case Short =>
      w == Record(map[
        ActionCount := Number(route.eventCount), Observed := Flag(true), Success := Flag(true),
        TerminalStopReason := Text("core_end_turn_available"),
        WitnessType := Text("short-legal-stop-success-v1")
      ])
    case Long =>
      exists docs, places :: Walks(places, docs, route.checkpoints)
        && w == Record(map[
             ActionCount := Number(route.eventCount), CheckpointCount := Number(|route.checkpoints|),
             MinimumActionCount := Number(12), Observed := Flag(true), Success := Flag(true),
             TerminalStopReason := Text("core_end_turn_available"), TurnPhaseProgression := Items(docs),
             WitnessType := Text("long-action-turn-phase-legal-stop-success-v2")
           ])
    case GraveBanish =>
      exists docs, picked :: Recorded(picked, docs, route)
        && w == Record(map[
             Observed := Flag(true), Success := Flag(true),
             TerminalStopReason := Text("core_end_turn_available"), Transitions := Items(docs),
             WitnessType := Text("grave-banish-zone-transition-legal-stop-success-v2")
           ])
  }

  function Places(xs: seq<Coordinate>): (r: seq<nat>)
    ensures |r| == |xs| && forall i :: 0 <= i < |r| ==> r[i] == if Place(xs, i + 1) > 0 then Place(xs, i + 1) - 1 else 0
  {
    seq(|xs|, i requires 0 <= i < |xs| => if Place(xs, i + 1) > 0 then Place(xs, i + 1) - 1 else 0)
  }

  lemma {:induction false} ProgressionWalks(cs: seq<Checkpoint>)
    requires AllPlaced(cs) && cs != []
    ensures Walks(Places(Coordinates(cs)), CoordinateDocs(Collapse(Coordinates(cs), |cs|)), cs)
  {
    var xs := Coordinates(cs);
    var docs := CoordinateDocs(Collapse(xs, |cs|));
    forall i | 0 <= i < |cs|
      ensures Places(xs)[i] < |docs| && CoordinateIs(docs[Places(xs)[i]], cs[i])
      ensures i > 0 ==> Places(xs)[i] == Places(xs)[i - 1] + if xs[i] == xs[i - 1] then 0 else 1
    {
      ProgressionFollows(xs, i);
      if i > 0 { ProgressionFollows(xs, i - 1); }
      assert Placed(cs[i]);
    }
    ProgressionFollows(xs, |cs| - 1);
    forall i | 0 < i < |cs|
      ensures xs[i] == xs[i - 1] <==> cs[i].turn == cs[i - 1].turn && cs[i].phase == cs[i - 1].phase
    {
      assert Placed(cs[i]) && Placed(cs[i - 1]);
    }
  }

  lemma CountsAgree(route: Route, s: Slot, n: nat)
    requires AllStepped(route.checkpoints) && n <= |route.checkpoints|
    ensures CountBefore(route, s, n) == CountAt(InitialOf(route.initialZones), route.checkpoints, s, n)
  {
    PresentMeaning(route.initialZones, s, |route.initialZones|);
  }

  /** The moves compared before place `c`. */
  ghost function MovedBefore(route: Route, c: nat): set<nat>
    requires AllStepped(route.checkpoints)
  {
    set x | x in Moved(route) && x < c
  }

  ghost predicate RecordedBefore(picked: seq<nat>, ts: seq<Transition>, route: Route, c: nat)
    requires AllStepped(route.checkpoints)
  {
    && Picks(picked, MovedBefore(route, c)) && |ts| == |picked|
    && forall j :: 0 <= j < |ts| ==> TransitionIs(TransitionDoc(ts[j]), route, picked[j])
  }

  lemma OnePlaceMore(route: Route, n: nat, k: nat, picked: seq<nat>, ts: seq<Transition>) returns (more: seq<nat>)
    requires AllStepped(route.checkpoints) && n < |route.checkpoints| && k < SLOT_COUNT
    requires RecordedBefore(picked, ts, route, 4 * n + k)
    ensures RecordedBefore(
      more, ts + Change(InitialOf(route.initialZones), route.checkpoints, SlotAt(k), n), route, 4 * n + k + 1)
  {
    var c := 4 * n + k;
    assert c / 4 == n && c % 4 == k && ComparedSlot(c) == SlotAt(k);
    CountsAgree(route, SlotAt(k), n);
    CountsAgree(route, SlotAt(k), n + 1);
    if c in Moved(route) {
      assert MovedBefore(route, c + 1) == MovedBefore(route, c) + {c};
      PicksOneMore(picked, MovedBefore(route, c), c);
      more := picked + [c];
    } else {
      assert MovedBefore(route, c + 1) == MovedBefore(route, c);
      more := picked;
    }
  }

  lemma {:induction false} PlacesOf(route: Route, n: nat, k: nat, ts: seq<Transition>, picked: seq<nat>)
    returns (more: seq<nat>)
    requires AllStepped(route.checkpoints) && n < |route.checkpoints| && k <= SLOT_COUNT
    requires RecordedBefore(picked, ts, route, 4 * n)
    ensures RecordedBefore(
      more, ts + ChangesAt(InitialOf(route.initialZones), route.checkpoints, n, k), route, 4 * n + k)
    decreases k
  {
    var initial, cs := InitialOf(route.initialZones), route.checkpoints;
    if k == 0 {
      more := picked;
      assert ts + [] == ts;
    } else {
      var before := PlacesOf(route, n, k - 1, ts, picked);
      more := OnePlaceMore(route, n, k - 1, before, ts + ChangesAt(initial, cs, n, k - 1));
      Reassociate(ts, ChangesAt(initial, cs, n, k - 1), Change(initial, cs, SlotAt(k - 1), n));
    }
  }

  lemma {:induction false} AllRecorded(route: Route, n: nat) returns (picked: seq<nat>)
    requires AllStepped(route.checkpoints) && n <= |route.checkpoints|
    ensures RecordedBefore(picked, AllChanges(InitialOf(route.initialZones), route.checkpoints, n), route, 4 * n)
    decreases n
  {
    if n == 0 {
      picked := [];
    } else {
      var before := AllRecorded(route, n - 1);
      picked := PlacesOf(route, n - 1, SLOT_COUNT, AllChanges(InitialOf(route.initialZones), route.checkpoints, n - 1),
                         before);
    }
  }

  lemma TransitionsRecorded(route: Route) returns (picked: seq<nat>)
    requires AllStepped(route.checkpoints)
    ensures Recorded(
      picked, TransitionDocs(AllChanges(InitialOf(route.initialZones), route.checkpoints, |route.checkpoints|)), route)
  {
    picked := AllRecorded(route, |route.checkpoints|);
    assert MovedBefore(route, 4 * |route.checkpoints|) == Moved(route);
  }

  lemma WitnessMeaning(profile: Profile, route: Route, w: Field)
    requires Qualifies(profile, route) && IsWitness(profile, route, w)
    ensures Witnesses(profile, route, w)
  {
    var cs := route.checkpoints;
    match profile {
      case Short =>
      case Long =>
        ProgressionWalks(cs);
        ProgressionSound(cs);
      case GraveBanish =>
        EmptyIffConstant(InitialOf(route.initialZones), cs, |cs|);
        var picked := TransitionsRecorded(route);
    }
  }

  // ----- the validator -----

  predicate HasExactly(w: Field, names: set<Name>) { w.Record? && w.fields.Keys == names }

  predicate StopsLegally(w: Field) {
    Get(w, Success) == Flag(true) && Get(w, TerminalStopReason) == Text(LEGAL_STOP)
  }

  predicate CoordinateOk(c: Field) {
    HasExactly(c, {Phase, Turn}) && IsText(Get(c, Phase)) && IsInteger(Get(c, Turn), 1)
  }

  /** `x in (0, 1)` in Python also holds of False and True. */
  predicate PlayerOk(p: Field) { p.Flag? || p == Number(0) || p == Number(1) }

  predicate TransitionOk(t: Field) {
    && HasExactly(t, {AfterCount, BeforeCount, FromStep, Player, ToStep, ZoneName})
    && IsInteger(Get(t, AfterCount), 0) && IsInteger(Get(t, BeforeCount), 0) && IsInteger(Get(t, ToStep), 0)
    && (Get(t, FromStep) == Number(-1) || IsInteger(Get(t, FromStep), 0))
    && PlayerOk(Get(t, Player))
    && (Get(t, ZoneName) == Text(GRAVEYARD) || Get(t, ZoneName) == Text(BANISHED))
  }

  predicate AcceptsShort(w: Field) {
    && HasExactly(w, {ActionCount, Observed, Success, TerminalStopReason, WitnessType})
    && Get(w, WitnessType) == Text(SHORT_TYPE)
    && IsInteger(Get(w, ActionCount), 1)
    && StopsLegally(w)
  }

  predicate AcceptsLong(w: Field) {
    && HasExactly(w, {ActionCount, CheckpointCount, MinimumActionCount, Observed, Success, TerminalStopReason,
                      TurnPhaseProgression, WitnessType})
    && Get(w, WitnessType) == Text(LONG_TYPE)
    && StopsLegally(w)
    && IsInteger(Get(w, ActionCount), 1)
    && Get(w, MinimumActionCount) == Number(LONG_PROFILE_MIN_ACTIONS)
    && Get(w, ActionCount).n >= LONG_PROFILE_MIN_ACTIONS
    && IsInteger(Get(w, CheckpointCount), 1)
    && Get(w, TurnPhaseProgression).Items?
    && Get(w, TurnPhaseProgression).items != []
    && forall i :: 0 <= i < |Get(w, TurnPhaseProgression).items| ==> CoordinateOk(Get(w, TurnPhaseProgression).items[i])
  }

  predicate AcceptsGraveBanish(w: Field) {
    && HasExactly(w, {Observed, Success, TerminalStopReason, Transitions, WitnessType})
    && Get(w, WitnessType) == Text(GRAVE_BANISH_TYPE)
    && StopsLegally(w)
    && Get(w, Transitions).Items?
    && Get(w, Transitions).items != []
    && forall i :: 0 <= i < |Get(w, Transitions).items| ==> TransitionOk(Get(w, Transitions).items[i])
  }

  /** `_validate_witness` as a predicate; an unsupported profile is checked like the zone profile. */
  predicate Accepts(profile: Profile, w: Field) {
    && (match profile
        case Short => AcceptsShort(w)
        case Long => AcceptsLong(w)
        case _ => AcceptsGraveBanish(w))
    && Get(w, Observed) == Flag(true)
  }

  predicate CoordinateSound(c: Coordinate) { c.turn >= 1 && c.phase != "" }

  lemma LongAccepted(route: Route, progression: seq<Coordinate>)
    requires LegalStop(route) && route.eventCount >= LONG_PROFILE_MIN_ACTIONS && route.checkpoints != []
    requires progression != [] && forall k :: 0 <= k < |progression| ==> CoordinateSound(progression[k])
    ensures Accepts(Long, LongWitness(route, progression))
  {
    var docs := CoordinateDocs(progression);
    forall k | 0 <= k < |docs| ensures CoordinateOk(docs[k]) {
      assert CoordinateSound(progression[k]);
    }
  }

  lemma ProgressionSound(cs: seq<Checkpoint>)
    requires AllPlaced(cs)
    ensures var progression := Collapse(Coordinates(cs), |cs|);
      && (progression != [] <==> cs != [])
      && forall k :: 0 <= k < |progression| ==> CoordinateSound(progression[k])
  {
    var xs := Coordinates(cs);
    CollapseEnds(xs, |xs|);
    forall k | 0 <= k < |Collapse(xs, |xs|)| ensures CoordinateSound(Collapse(xs, |xs|)[k]) {
      CollapseMember(xs, |xs|, k);
    }
  }

  lemma {:induction false} CollapseMember(xs: seq<Coordinate>, n: nat, k: nat)
    requires n <= |xs| && k < |Collapse(xs, n)|
    ensures Collapse(xs, n)[k] in xs
  {
    if k < |Collapse(xs, n - 1)| {
      CollapseMember(xs, n - 1, k);
    } else {
      assert Collapse(xs, n)[k] == xs[n - 1];
    }
  }

  ghost predicate Sound(t: Transition) { t.before >= 0 && t.after >= 0 && t.fromStep >= -1 && t.toStep >= 0 }

  lemma {:induction false} ChangesAtSound(initial: Counts, cs: seq<Checkpoint>, n: nat, k: nat)
    requires Total(initial) && (forall s :: initial[s] >= 0) && n < |cs| && AllStepped(cs) && k <= SLOT_COUNT
    ensures forall i :: 0 <= i < |ChangesAt(initial, cs, n, k)| ==> Sound(ChangesAt(initial, cs, n, k)[i])
  {
    if k > 0 {
      ChangesAtSound(initial, cs, n, k - 1);
      assert Stepped(cs[n]);
      if n > 0 { assert Stepped(cs[n - 1]); }
    }
  }

  lemma {:induction false} AllChangesSound(initial: Counts, cs: seq<Checkpoint>, n: nat)
    requires Total(initial) && (forall s :: initial[s] >= 0) && n <= |cs| && AllStepped(cs)
    ensures forall i :: 0 <= i < |AllChanges(initial, cs, n)| ==> Sound(AllChanges(initial, cs, n)[i])
  {
    if n > 0 {
      AllChangesSound(initial, cs, n - 1);
      ChangesAtSound(initial, cs, n - 1, SLOT_COUNT);
    }
  }

  lemma SoundDoc(t: Transition)
    ensures TransitionOk(TransitionDoc(t)) <==> Sound(t)
  {
  }

  /** Exactly which transition lists the validator accepts in a zone witness: non-empty ones of sound
      records, whether or not the records chain. */
  lemma GraveBanishAccepted(route: Route, ts: seq<Transition>)
    ensures Accepts(GraveBanish, GraveBanishWitness(route, ts))
            <==> LegalStop(route) && ts != [] && forall i :: 0 <= i < |ts| ==> Sound(ts[i])
  {
    var w, docs := GraveBanishWitness(route, ts), TransitionDocs(ts);
    assert Get(w, Transitions) == Items(docs);
    forall i | 0 <= i < |ts| ensures TransitionOk(docs[i]) <==> Sound(ts[i]) { SoundDoc(ts[i]); }
    if AcceptsGraveBanish(w) {
      forall i | 0 <= i < |ts| ensures Sound(ts[i]) { assert TransitionOk(docs[i]); }
    }
  }

  lemma MovesSound(route: Route)
    requires Qualifies(GraveBanish, route)
    ensures var ts := AllChanges(InitialOf(route.initialZones), route.checkpoints, |route.checkpoints|);
      ts != [] && forall i :: 0 <= i < |ts| ==> Sound(ts[i])
  {
    var initial, cs := InitialOf(route.initialZones), route.checkpoints;
    EmptyIffConstant(initial, cs, |cs|);
    AllChangesSound(initial, cs, |cs|);
  }

  /** Every derived witness passes the independent validator, except a short witness of a route
      without events, which derivation allows and the validator refuses. */
  lemma DerivedAccepted(profile: Profile, route: Route, w: Field)
    requires Qualifies(profile, route) && IsWitness(profile, route, w)
    ensures Accepts(profile, w) <==> (profile == Short ==> route.eventCount > 0)
  {
    match profile {
      case Short =>
      case Long =>
        ProgressionSound(route.checkpoints);
        LongAccepted(route, Collapse(Coordinates(route.checkpoints), |route.checkpoints|));
      case GraveBanish =>
        MovesSound(route);
        GraveBanishAccepted(route, AllChanges(InitialOf(route.initialZones), route.checkpoints, |route.checkpoints|));
    }
  }

  /** `_validate_witness`; false stands for its error. */
  method ValidateWitness(profile: Profile, w: Field) returns (ok: bool)
    ensures ok <==> Accepts(profile, w)
    ensures profile in {Short, Long, GraveBanish} ==> (ok <==> IsDocument(profile, w))
  {
    AcceptsDocuments(profile, w);
    match profile {
      case Short =>
        ok := AcceptsShort(w);
      case Long =>
        ok := ValidateLong(w);
      case _ =>
        ok := ValidateGraveBanish(w);
    }
    ok := ok && Get(w, Observed) == Flag(true);
  }

  method ValidateLong(w: Field) returns (ok: bool)
    ensures ok <==> AcceptsLong(w)
  {
    if !HasExactly(w, {ActionCount, CheckpointCount, MinimumActionCount, Observed, Success, TerminalStopReason,
                       TurnPhaseProgression, WitnessType})
      || Get(w, WitnessType) != Text(LONG_TYPE) || !StopsLegally(w) || !IsInteger(Get(w, ActionCount), 1)
      || Get(w, MinimumActionCount) != Number(LONG_PROFILE_MIN_ACTIONS)
      || Get(w, ActionCount).n < LONG_PROFILE_MIN_ACTIONS || !IsInteger(Get(w, CheckpointCount), 1) {
      return false;
    }
    var progression := Get(w, TurnPhaseProgression);
    if !progression.Items? || progression.items == [] {
      return false;
    }
    for i := 0 to |progression.items|
      invariant forall k :: 0 <= k < i ==> CoordinateOk(progression.items[k])
    {
      if !CoordinateOk(progression.items[i]) {
        return false;
      }
    }
    ok := true;
  }

  method ValidateGraveBanish(w: Field) returns (ok: bool)
    ensures ok <==> AcceptsGraveBanish(w)
  {
    if !HasExactly(w, {Observed, Success, TerminalStopReason, Transitions, WitnessType})
      || Get(w, WitnessType) != Text(GRAVE_BANISH_TYPE) || !StopsLegally(w) {
      return false;
    }
    var transitions := Get(w, Transitions);
    if !transitions.Items? || transitions.items == [] {
      return false;
    }
    for i := 0 to |transitions.items|
      invariant forall k :: 0 <= k < i ==> TransitionOk(transitions.items[k])
    {
      if !TransitionOk(transitions.items[i]) {
        return false;
      }
    }
    ok := true;
  }

  // ----- which documents the validator accepts, written out -----

  ghost predicate IsCoordinate(d: Field) {
    exists turn, phase :: turn >= 1 && phase != "" && d == Record(map[Phase := Text(phase), Turn := Number(turn)])
  }

  ghost predicate IsTransition(d: Field) {
    exists after, before, from, player, to, zone ::
      && after >= 0 && before >= 0 && from >= -1 && to >= 0
      && player in {Number(0), Number(1), Flag(false), Flag(true)} && zone in {"graveyard", "banished"}
      && d == Record(map[AfterCount := Number(after), BeforeCount := Number(before), FromStep := Number(from),
                         Player := player, ToStep := Number(to), ZoneName := Text(zone)])
  }

  ghost predicate IsShort(w: Field, actions: int) {
    w == Record(map[ActionCount := Number(actions), Observed := Flag(true), Success := Flag(true),
                    TerminalStopReason := Text("core_end_turn_available"),
                    WitnessType := Text("short-legal-stop-success-v1")])
  }

  ghost predicate IsLong(w: Field, actions: int, checkpoints: int, progression: seq<Field>) {
    w == Record(map[ActionCount := Number(actions), CheckpointCount := Number(checkpoints),
                    MinimumActionCount := Number(12), Observed := Flag(true), Success := Flag(true),
                    TerminalStopReason := Text("core_end_turn_available"), TurnPhaseProgression := Items(progression),
                    WitnessType := Text("long-action-turn-phase-legal-stop-success-v2")])
  }

  ghost predicate IsGraveBanish(w: Field, transitions: seq<Field>) {
    w == Record(map[Observed := Flag(true), Success := Flag(true),
                    TerminalStopReason := Text("core_end_turn_available"), Transitions := Items(transitions),
                    WitnessType := Text("grave-banish-zone-transition-legal-stop-success-v2")])
  }

  /** The documents there are: with at least one action; with at least twelve, a checkpoint and a progression;
      with at least one transition. */
  ghost predicate IsDocument(profile: Profile, w: Field) {
    match profile
    case Short => exists n :: n >= 1 && IsShort(w, n)
    case Long =>
      exists n, m, progression :: n >= 12 && m >= 1 && progression != []
        && (forall i :: 0 <= i < |progression| ==> IsCoordinate(progression[i])) && IsLong(w, n, m, progression)
    case GraveBanish =>
      exists transitions :: transitions != []
        && (forall i :: 0 <= i < |transitions| ==> IsTransition(transitions[i])) && IsGraveBanish(w, transitions)
    case Unsupported => false
  }

  lemma CoordinateDocument(d: Field)
    ensures CoordinateOk(d) <==> IsCoordinate(d)
  {
    if CoordinateOk(d) {
      var phase, turn := Get(d, Phase), Get(d, Turn);
      assert d == Record(map[Phase := Text(phase.t), Turn := Number(turn.n)]);
    }
  }

  lemma TransitionDocument(d: Field)
    ensures TransitionOk(d) <==> IsTransition(d)
  {
    if TransitionOk(d) {
      var after, before, from := Get(d, AfterCount).n, Get(d, BeforeCount).n, Get(d, FromStep).n;
      var player, to, zone := Get(d, Player), Get(d, ToStep).n, Get(d, ZoneName).t;
      assert d == Record(map[AfterCount := Number(after), BeforeCount := Number(before), FromStep := Number(from),
                             Player := player, ToStep := Number(to), ZoneName := Text(zone)]);
      assert player in {Number(0), Number(1), Flag(false), Flag(true)};
    }
  }

  lemma AcceptsDocuments(profile: Profile, w: Field)
    ensures profile in {Short, Long, GraveBanish} ==> (Accepts(profile, w) <==> IsDocument(profile, w))
  {
    match profile {
      case Short => ShortDocument(w);
      case Long => LongDocument(w);
      case GraveBanish => GraveBanishDocument(w);
      case Unsupported =>
    }
  }

  lemma ShortDocument(w: Field)
    ensures Accepts(Short, w) <==> IsDocument(Short, w)
  {
    if Accepts(Short, w) { assert IsShort(w, Get(w, ActionCount).n); }
  }

  lemma LongDocument(w: Field)
    ensures Accepts(Long, w) <==> IsDocument(Long, w)
  {
    if Accepts(Long, w) {
      var progression := Get(w, TurnPhaseProgression).items;
      forall i | 0 <= i < |progression| ensures IsCoordinate(progression[i]) { CoordinateDocument(progression[i]); }
      assert IsLong(w, Get(w, ActionCount).n, Get(w, CheckpointCount).n, progression);
    }
    if IsDocument(Long, w) {
      var n, m, progression :| n >= 12 && m >= 1 && progression != []
        && (forall i :: 0 <= i < |progression| ==> IsCoordinate(progression[i])) && IsLong(w, n, m, progression);
      forall i | 0 <= i < |progression| ensures CoordinateOk(progression[i]) { CoordinateDocument(progression[i]); }
      LongFields(w, n, m, progression);
    }
  }

  lemma LongFields(w: Field, n: int, m: int, progression: seq<Field>)
    requires n >= 12 && m >= 1 && IsLong(w, n, m, progression) && progression != []
    requires forall i :: 0 <= i < |progression| ==> CoordinateOk(progression[i])
    ensures Accepts(Long, w)
  {
    assert Get(w, TurnPhaseProgression) == Items(progression);
  }

  lemma GraveBanishDocument(w: Field)
    ensures Accepts(GraveBanish, w) <==> IsDocument(GraveBanish, w)
  {
    if Accepts(GraveBanish, w) { AcceptedTransitions(w); }
    if IsDocument(GraveBanish, w) { TransitionsAccepted(w); }
  }

  lemma AcceptedTransitions(w: Field)
    requires Accepts(GraveBanish, w)
    ensures IsDocument(GraveBanish, w)
  {
    var transitions := Get(w, Transitions).items;
    forall i | 0 <= i < |transitions| ensures IsTransition(transitions[i]) { TransitionDocument(transitions[i]); }
    assert IsGraveBanish(w, transitions);
  }

  lemma TransitionsAccepted(w: Field)
    requires IsDocument(GraveBanish, w)
    ensures Accepts(GraveBanish, w)
  {
    var transitions :| transitions != []
      && (forall i :: 0 <= i < |transitions| ==> IsTransition(transitions[i])) && IsGraveBanish(w, transitions);
    forall i | 0 <= i < |transitions| ensures TransitionOk(transitions[i]) { TransitionDocument(transitions[i]); }
    GraveBanishFields(w, transitions);
  }

  lemma GraveBanishFields(w: Field, transitions: seq<Field>)
    requires IsGraveBanish(w, transitions) && transitions != []
    requires forall i :: 0 <= i < |transitions| ==> TransitionOk(transitions[i])
    ensures Accepts(GraveBanish, w)
  {
    assert Get(w, Transitions) == Items(transitions);
  }

  /** So it does not check what derivation guarantees: a list with a gap passes. */
  lemma GapsAccepted(route: Route) returns (ts: seq<Transition>, s: Slot)
    requires LegalStop(route)
    ensures Accepts(GraveBanish, GraveBanishWitness(route, ts))
    ensures forall start, end :: !Chains(start, Of(ts, s), end)
  {
    s := SlotAt(0);
    var first, second := Transition(s, 0, 1, -1, 0), Transition(s, 5, 6, 0, 1);
    ts := [first, second];
    assert ts[..1] == [first] && Of([first], s) == [first];
    assert Of(ts, s) == ts;
    GraveBanishAccepted(route, ts);
  }
}
