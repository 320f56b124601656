/** Route normalisation: `route_dsl/analysis.py`.

    A route document enters as the summary `_extract_summary` makes of it. The report groups
    the routes by target state, picks a representative per group, explains how the others
    differ from it, and ranks the whole collection. */
module Routes {
  import opened Order
  import opened Sequences
  import opened Wrappers

  datatype Step = Step(key: string, caption: string, atomicSteps: seq<nat>)

  datatype Summary = Summary(
    id: string,
    target: string,
    score: real,
    success: bool,
    actionCount: nat,
    context: string,
    atomicSteps: seq<Step>,
    compositeSteps: Option<seq<Step>>,
    cost: Option<real>)

  function Id(s: Summary): string { s.id }

  // ----- rankings -----

  datatype Ranking =
    | Missing(routeIds: seq<string>)
    | Available(winners: seq<string>, value: real)

  function Filter<T>(p: T -> bool, s: seq<T>): (r: seq<T>) {
    if |s| == 0 then [] else (if p(s[0]) then [s[0]] else []) + Filter(p, s[1..])
  }

  function Map<T, U>(f: T -> U, s: seq<T>): (r: seq<U>)
    ensures |r| == |s| && forall i :: 0 <= i < |s| ==> r[i] == f(s[i])
  {
    seq(|s|, i requires 0 <= i < |s| => f(s[i]))
  }

  function Minimum(f: Summary -> real, s: seq<Summary>): real
    requires |s| > 0
  {
    if |s| == 1 then f(s[0])
    else
      var rest := Minimum(f, s[1..]);
      if f(s[0]) <= rest then f(s[0]) else rest
  }

  function IdsSorted(s: seq<Summary>): seq<string> {
    Map(Id, SortBy(Id, s))
  }

  function Lacks(measure: Summary -> Option<real>): Summary -> bool {
    x => measure(x).None?
  }

  function ValueOf(measure: Summary -> Option<real>): Summary -> real {
    x => if measure(x).Some? then measure(x).value else 0.0
  }

  function Attains(f: Summary -> real, value: real): Summary -> bool {
    x => f(x) == value
  }

  /** `_minimum_ranking`; a measure is missing for a route when it is `None`. */
  function MinimumRanking(measure: Summary -> Option<real>, s: seq<Summary>): Ranking
    requires |s| > 0
  {
    if |Filter(Lacks(measure), s)| > 0 then Missing(IdsSorted(Filter(Lacks(measure), s)))
    else
      var minimum := Minimum(ValueOf(measure), s);
      Available(IdsSorted(Filter(Attains(ValueOf(measure), minimum), s)), minimum)
  }

  function ActionCount(s: Summary): Option<real> { Some(s.actionCount as real) }

  function Cost(s: Summary): Option<real> { s.cost }

  datatype ScoreRanking =
    | Incomparable(contexts: seq<string>)
    | Best(context: string, winners: seq<string>, score: real)

  function Dedup(s: seq<string>): (r: seq<string>)
    ensures forall x :: x in r <==> x in s
    ensures forall i, j :: 0 <= i < j < |r| ==> r[i] != r[j]
  {
    if |s| == 0 then []
    else
      var rest := Dedup(s[1..]);
      assert s == [s[0]] + s[1..];
      if s[0] in rest then rest else [s[0]] + rest
  }

  /** `sorted({f(x) for x in s})` */
  function SortedSet(f: Summary -> string, s: seq<Summary>): seq<string> {
    SortBy(Self, Dedup(Map(f, s)))
  }

  function Context(s: Summary): string { s.context }

  function Target(s: Summary): string { s.target }

  function Negated(s: Summary): real { -s.score }

  /** `_highest_score_ranking`; the maximum score is the minimum of the negated ones. */
  function HighestScore(s: seq<Summary>): ScoreRanking
    requires |s| > 0
  {
    var contexts := SortedSet(Context, s);
    if |contexts| != 1 then Incomparable(contexts)
    else
      var best := Minimum(Negated, s);
      Best(contexts[0], IdsSorted(Filter(Attains(Negated, best), s)), -best)
  }

  // ----- order does not matter -----

  ghost predicate UniqueIds(s: seq<Summary>) {
    DistinctKeys(Id, s)
  }

  lemma {:induction false} FilterMembers<T>(p: T -> bool, s: seq<T>, x: T)
    ensures x in Filter(p, s) <==> x in s && p(x)
  {
    if |s| > 0 {
      FilterMembers(p, s[1..], x);
      assert s == [s[0]] + s[1..];
    }
  }

  lemma {:induction false} FilterUnique(p: Summary -> bool, s: seq<Summary>)
    requires UniqueIds(s)
    ensures UniqueIds(Filter(p, s))
  {
    if |s| > 0 {
      FilterUnique(p, s[1..]);
      var rest := Filter(p, s[1..]);
      forall j | 0 <= j < |rest| ensures Id(rest[j]) != Id(s[0]) {
        FilterMembers(p, s[1..], rest[j]);
      }
    }
  }

  lemma FilterSame(p: Summary -> bool, s: seq<Summary>, t: seq<Summary>)
    requires UniqueIds(s) && UniqueIds(t) && SameMembers(s, t)
    ensures SameMembers(Filter(p, s), Filter(p, t))
    ensures UniqueIds(Filter(p, s)) && UniqueIds(Filter(p, t))
    ensures SortBy(Id, Filter(p, s)) == SortBy(Id, Filter(p, t))
  {
    forall x ensures x in Filter(p, s) <==> x in Filter(p, t) {
      FilterMembers(p, s, x);
      FilterMembers(p, t, x);
    }
    FilterUnique(p, s);
    FilterUnique(p, t);
    SortForgetsOrder(Id, Filter(p, s), Filter(p, t));
  }

  lemma {:induction false} MinimumLeast(f: Summary -> real, s: seq<Summary>)
    requires |s| > 0
    ensures forall x :: x in s ==> Minimum(f, s) <= f(x)
    ensures exists x :: x in s && Minimum(f, s) == f(x)
  {
    assert s == [s[0]] + s[1..];
    assert s[0] in s;
    if |s| > 1 {
      MinimumLeast(f, s[1..]);
      var x :| x in s[1..] && Minimum(f, s[1..]) == f(x);
      assert x in s;
    }
  }

  lemma MinimumSame(f: Summary -> real, s: seq<Summary>, t: seq<Summary>)
    requires |s| > 0 && |t| > 0 && SameMembers(s, t)
    ensures Minimum(f, s) == Minimum(f, t)
  {
    MinimumLeast(f, s);
    MinimumLeast(f, t);
    var x :| x in s && Minimum(f, s) == f(x);
    var y :| y in t && Minimum(f, t) == f(y);
    assert x in t && y in s;
  }

  lemma SortedSetSame(f: Summary -> string, s: seq<Summary>, t: seq<Summary>)
    requires SameMembers(s, t)
    ensures SortedSet(f, s) == SortedSet(f, t)
  {
    var a, b := Dedup(Map(f, s)), Dedup(Map(f, t));
    forall x ensures x in a <==> x in b {
      if x in a {
        var i :| 0 <= i < |s| && Map(f, s)[i] == x;
        assert s[i] in t;
        var j :| 0 <= j < |t| && t[j] == s[i];
        assert Map(f, t)[j] == x;
      }
      if x in b {
        var i :| 0 <= i < |t| && Map(f, t)[i] == x;
        assert t[i] in s;
        var j :| 0 <= j < |s| && s[j] == t[i];
        assert Map(f, s)[j] == x;
      }
    }
    SortForgetsOrder(Self, a, b);
  }

  lemma MinimumRankingSame(measure: Summary -> Option<real>, s: seq<Summary>, t: seq<Summary>)
    requires |s| > 0 && |t| > 0 && UniqueIds(s) && UniqueIds(t) && SameMembers(s, t)
    ensures MinimumRanking(measure, s) == MinimumRanking(measure, t)
  {
    FilterSame(Lacks(measure), s, t);
    assert |SortBy(Id, Filter(Lacks(measure), s))| == |Filter(Lacks(measure), s)|;
    assert |SortBy(Id, Filter(Lacks(measure), t))| == |Filter(Lacks(measure), t)|;
    MinimumSame(ValueOf(measure), s, t);
    FilterSame(Attains(ValueOf(measure), Minimum(ValueOf(measure), s)), s, t);
  }

  lemma HighestScoreSame(s: seq<Summary>, t: seq<Summary>)
    requires |s| > 0 && |t| > 0 && UniqueIds(s) && UniqueIds(t) && SameMembers(s, t)
    ensures HighestScore(s) == HighestScore(t)
  {
    SortedSetSame(Context, s, t);
    MinimumSame(Negated, s, t);
    FilterSame(Attains(Negated, Minimum(Negated, s)), s, t);
  }

  // ----- what a ranking means -----

  ghost predicate Identifies(id: string, s: seq<Summary>, p: Summary -> bool) {
    exists x :: x in s && p(x) && x.id == id
  }

  /** `ids` are the identifiers of the routes of `s` that meet `p`, in ascending order. */
  ghost predicate Names(ids: seq<string>, s: seq<Summary>, p: Summary -> bool) {
    Ascending(Self, ids) && forall id :: id in ids <==> Identifies(id, s, p)
  }

  function HasScore(score: real): Summary -> bool {
    (x: Summary) => x.score == score
  }

  /** The value is the least measure and the winners are the routes that have it; or the measure is
      missing, exactly for the routes named. */
  ghost predicate RanksLeast(r: Ranking, measure: Summary -> Option<real>, s: seq<Summary>) {
    match r
    case Missing(ids) => ids != [] && Names(ids, s, x => measure(x).None?)
    case Available(winners, value) =>
      && winners != [] && Names(winners, s, x => measure(x) == Some(value))
      && forall x :: x in s ==> measure(x).Some? && value <= measure(x).value
  }

  /** The routes share a context, the score is their highest and the winners are the routes that
      reach it; or their contexts differ, and all are listed in ascending order. */
  ghost predicate RanksHighest(r: ScoreRanking, s: seq<Summary>) {
    match r
    case Incomparable(contexts) =>
      && (exists x, y :: x in s && y in s && x.context != y.context)
      && Ascending(Self, contexts)
      && (forall c :: c in contexts <==> exists x :: x in s && x.context == c)
    case Best(context, winners, score) =>
      && winners != [] && Names(winners, s, HasScore(score))
      && forall x :: x in s ==> x.context == context && x.score <= score
  }

  lemma IdsSortedNames(p: Summary -> bool, s: seq<Summary>)
    requires UniqueIds(s)
    ensures Names(IdsSorted(Filter(p, s)), s, p)
  {
    var chosen := Filter(p, s);
    var ids := IdsSorted(chosen);
    FilterUnique(p, s);
    SortAscending(Id, chosen);
    forall i, j | 0 <= i < j < |ids| ensures Less(Self(ids[i]), Self(ids[j])) {
      assert Less(Id(SortBy(Id, chosen)[i]), Id(SortBy(Id, chosen)[j]));
    }
    forall id ensures id in ids <==> Identifies(id, s, p) {
      if id in ids {
        var i :| 0 <= i < |ids| && ids[i] == id;
        SortMembers(Id, chosen, SortBy(Id, chosen)[i]);
        FilterMembers(p, s, SortBy(Id, chosen)[i]);
      }
      if Identifies(id, s, p) {
        var x :| x in s && p(x) && x.id == id;
        NamedBy(p, s, x);
      }
    }
  }

  lemma SameNames(ids: seq<string>, s: seq<Summary>, p: Summary -> bool, q: Summary -> bool)
    requires Names(ids, s, p) && forall x :: x in s ==> p(x) == q(x)
    ensures Names(ids, s, q)
  {
    forall id ensures Identifies(id, s, p) <==> Identifies(id, s, q) {
      if Identifies(id, s, p) { var x :| x in s && p(x) && x.id == id; }
      if Identifies(id, s, q) { var x :| x in s && q(x) && x.id == id; }
    }
  }

  lemma SomeoneNamed(ids: seq<string>, s: seq<Summary>, p: Summary -> bool, x: Summary)
    requires Names(ids, s, p) && x in s && p(x)
    ensures ids != []
  {
    assert Identifies(x.id, s, p);
  }

  lemma {:induction false} MinimumRankingMeaning(measure: Summary -> Option<real>, s: seq<Summary>)
    requires |s| > 0 && UniqueIds(s)
    ensures RanksLeast(MinimumRanking(measure, s), measure, s)
  {
    var lacking := Filter(Lacks(measure), s);
    if |lacking| > 0 {
      IdsSortedNames(Lacks(measure), s);
      SameNames(IdsSorted(lacking), s, Lacks(measure), x => measure(x).None?);
      assert |IdsSorted(lacking)| == |lacking|;
    } else {
      forall x | x in s ensures measure(x).Some? { FilterMembers(Lacks(measure), s, x); }
      LeastNamed(measure, s);
    }
  }

  lemma {:induction false} LeastNamed(measure: Summary -> Option<real>, s: seq<Summary>)
    requires |s| > 0 && UniqueIds(s) && forall x :: x in s ==> measure(x).Some?
    ensures var value := Minimum(ValueOf(measure), s);
      RanksLeast(Available(IdsSorted(Filter(Attains(ValueOf(measure), value), s)), value), measure, s)
  {
    var value, winners := Attaining(ValueOf(measure), s);
    SameNames(winners, s, Attains(ValueOf(measure), value), x => measure(x) == Some(value));
  }

  lemma Attaining(f: Summary -> real, s: seq<Summary>) returns (value: real, winners: seq<string>)
    requires |s| > 0 && UniqueIds(s)
    ensures value == Minimum(f, s) && winners == IdsSorted(Filter(Attains(f, value), s))
    ensures winners != [] && Names(winners, s, Attains(f, value))
    ensures forall x :: x in s ==> value <= f(x)
  {
    value := Minimum(f, s);
    winners := IdsSorted(Filter(Attains(f, value), s));
    MinimumLeast(f, s);
    IdsSortedNames(Attains(f, value), s);
    var x :| x in s && value == f(x);
    SomeoneNamed(winners, s, Attains(f, value), x);
  }

  lemma SameMeasure(r: Ranking, f: Summary -> Option<real>, g: Summary -> Option<real>, s: seq<Summary>)
    requires RanksLeast(r, f, s) && forall x :: x in s ==> f(x) == g(x)
    ensures RanksLeast(r, g, s)
  {
    match r
    case Missing(ids) => SameNames(ids, s, x => f(x).None?, x => g(x).None?);
    case Available(winners, value) => SameNames(winners, s, x => f(x) == Some(value), x => g(x) == Some(value));
  }

  lemma CostMeaning(s: seq<Summary>)
    requires |s| > 0 && UniqueIds(s)
    ensures RanksLeast(MinimumRanking(Cost, s), (x: Summary) => x.cost, s)
  {
    MinimumRankingMeaning(Cost, s);
    SameMeasure(MinimumRanking(Cost, s), Cost, (x: Summary) => x.cost, s);
  }

  lemma ActionCountMeaning(s: seq<Summary>)
    requires |s| > 0 && UniqueIds(s)
    ensures RanksLeast(MinimumRanking(ActionCount, s), (x: Summary) => Some(x.actionCount as real), s)
  {
    MinimumRankingMeaning(ActionCount, s);
    SameMeasure(MinimumRanking(ActionCount, s), ActionCount, (x: Summary) => Some(x.actionCount as real), s);
  }

  lemma ContextsListed(s: seq<Summary>)
    ensures Ascending(Self, SortedSet(Context, s))
    ensures forall c :: c in SortedSet(Context, s) <==> exists x :: x in s && x.context == c
  {
    SortedSetMeaning(Context, s);
    forall c | exists x :: x in s && x.context == c ensures c in SortedSet(Context, s) {
      var x :| x in s && x.context == c;
      assert Context(x) == c;
    }
  }

  lemma SortedSetMeaning(f: Summary -> string, s: seq<Summary>)
    ensures Ascending(Self, SortedSet(f, s))
    ensures forall c :: c in SortedSet(f, s) ==> exists x :: x in s && f(x) == c
    ensures forall x :: x in s ==> f(x) in SortedSet(f, s)
  {
    var found := Dedup(Map(f, s));
    SortAscending(Self, found);
    forall c | c in SortedSet(f, s) ensures exists x :: x in s && f(x) == c {
      SortMembers(Self, found, c);
      var i :| 0 <= i < |s| && Map(f, s)[i] == c;
      assert s[i] in s;
    }
    forall x | x in s ensures f(x) in SortedSet(f, s) {
      var i :| 0 <= i < |s| && s[i] == x;
      assert Map(f, s)[i] == f(x);
      SortMembers(Self, found, f(x));
    }
  }

  lemma {:induction false} HighestScoreMeaning(s: seq<Summary>)
    requires |s| > 0 && UniqueIds(s)
    ensures RanksHighest(HighestScore(s), s)
  {
    var contexts := SortedSet(Context, s);
    ContextsListed(s);
    assert s[0] in s && s[0].context in contexts;
    if |contexts| != 1 {
      TwoContexts(s, contexts);
    } else {
      BestMeaning(s);
      forall x | x in s ensures x.context == contexts[0] { assert x.context in contexts; }
    }
  }

  lemma {:induction false} BestMeaning(s: seq<Summary>)
    requires |s| > 0 && UniqueIds(s)
    ensures var best := Minimum(Negated, s);
      var winners := IdsSorted(Filter(Attains(Negated, best), s));
      && winners != [] && Names(winners, s, HasScore(-best))
      && forall x :: x in s ==> x.score <= -best
  {
    var best, winners := Attaining(Negated, s);
    NegatedScores(best, s);
    SameNames(winners, s, Attains(Negated, best), HasScore(-best));
  }

  lemma NegatedScores(best: real, s: seq<Summary>)
    requires forall x :: x in s ==> best <= Negated(x)
    ensures forall x :: x in s ==> x.score <= -best
    ensures forall x :: x in s ==> Attains(Negated, best)(x) == HasScore(-best)(x)
  {
    forall x | x in s ensures x.score <= -best && Attains(Negated, best)(x) == HasScore(-best)(x) {
      assert best <= Negated(x);
      assert Attains(Negated, best)(x) <==> Negated(x) == best;
    }
  }

  lemma TwoContexts(s: seq<Summary>, contexts: seq<string>)
    requires Ascending(Self, contexts) && |contexts| > 1
    requires forall c :: c in contexts ==> exists x :: x in s && x.context == c
    ensures exists x, y :: x in s && y in s && x.context != y.context
  {
    LessAsymmetric(Self(contexts[0]), Self(contexts[1]));
    assert contexts[0] in contexts && contexts[1] in contexts;
    var x :| x in s && x.context == contexts[0];
    var y :| y in s && y.context == contexts[1];
  }

  /** With unique ids, a route's id is in the sorted id list exactly when it passed the filter. */
  lemma NamedBy(p: Summary -> bool, s: seq<Summary>, x: Summary)
    requires UniqueIds(s) && x in s
    ensures x.id in IdsSorted(Filter(p, s)) <==> p(x)
  {
    var sorted := SortBy(Id, Filter(p, s));
    FilterMembers(p, s, x);
    SortMembers(Id, Filter(p, s), x);
    if p(x) {
      var i :| 0 <= i < |sorted| && sorted[i] == x;
      assert IdsSorted(Filter(p, s))[i] == x.id;
    }
    if x.id in IdsSorted(Filter(p, s)) {
      var i :| 0 <= i < |sorted| && Id(sorted[i]) == x.id;
      SortMembers(Id, Filter(p, s), sorted[i]);
      FilterMembers(p, s, sorted[i]);
      SameIdSameRoute(s, x, sorted[i]);
    }
  }

  lemma SameIdSameRoute(s: seq<Summary>, x: Summary, y: Summary)
    requires UniqueIds(s) && x in s && y in s && x.id == y.id
    ensures x == y
  {
    var i :| 0 <= i < |s| && s[i] == x;
    var j :| 0 <= j < |s| && s[j] == y;
    assert i == j;
  }

  // ----- explaining a route by its differences -----

  datatype Tag = Equal | Replace | Delete | Insert

  /** An opcode of `SequenceMatcher`: `a[i1..i2]` against `b[j1..j2]`. */
  datatype Opcode = Opcode(tag: Tag, i1: nat, i2: nat, j1: nat, j2: nat)

  datatype Difference = Difference(tag: Tag, baseStart: nat, baseEnd: nat, otherStart: nat, otherEnd: nat,
                                   baseActions: seq<Step>, otherActions: seq<Step>)

  /** The documented contract of `get_opcodes`: the opcodes cover both sequences from
      `(i, j)` on without gaps, and `Equal` ones join equal stretches. */
  ghost predicate Covers(ops: seq<Opcode>, a: seq<string>, b: seq<string>, i: nat, j: nat) {
    if |ops| == 0 then i == |a| && j == |b|
    else
      var op := ops[0];
      && op.i1 == i <= op.i2 <= |a| && op.j1 == j <= op.j2 <= |b|
      && (op.tag.Equal? ==> a[i..op.i2] == b[j..op.j2])
      && Covers(ops[1..], a, b, op.i2, op.j2)
  }

  type Matcher = (seq<string>, seq<string>) -> seq<Opcode>

  ghost predicate MeetsContract(m: Matcher) {
    forall a, b :: Covers(m(a, b), a, b, 0, 0)
  }

  function Keys(steps: seq<Step>): (r: seq<string>)
    ensures |r| == |steps| && forall i :: 0 <= i < |r| ==> r[i] == steps[i].key
  {
    seq(|steps|, i requires 0 <= i < |steps| => steps[i].key)
  }

  /** The loop of `_diff_steps`: every opcode but the equal ones, with the actions it spans. */
  method DiffSteps(ops: seq<Opcode>, base: seq<Step>, other: seq<Step>) returns (differences: seq<Difference>)
    requires Covers(ops, Keys(base), Keys(other), 0, 0)
    ensures differences == Differences(ops, base, other, 0, 0)
  {
    differences := [];
    ghost var i, j := 0, 0;
    assert ops[0..] == ops;
    for k := 0 to |ops|
      invariant Covers(ops[k..], Keys(base), Keys(other), i, j)
      invariant differences + Differences(ops[k..], base, other, i, j) == Differences(ops, base, other, 0, 0)
    {
      var op := ops[k];
      assert ops[k..][0] == op && ops[k..][1..] == ops[k + 1..];
      NextDifference(ops[k..], base, other, i, j, differences);
      if !op.tag.Equal? {
        differences := differences + [DifferenceOf(op, base, other)];
      }
      i, j := op.i2, op.j2;
    }
  }

  function DifferenceOf(op: Opcode, base: seq<Step>, other: seq<Step>): Difference
    requires op.i1 <= op.i2 <= |base| && op.j1 <= op.j2 <= |other|
  {
    Difference(op.tag, op.i1, op.i2, op.j1, op.j2, base[op.i1..op.i2], other[op.j1..op.j2])
  }

  function Differences(ops: seq<Opcode>, base: seq<Step>, other: seq<Step>, ghost i: nat, ghost j: nat): seq<Difference>
    requires Covers(ops, Keys(base), Keys(other), i, j)
  {
    if |ops| == 0 then []
    else
      (if ops[0].tag.Equal? then [] else [DifferenceOf(ops[0], base, other)])
      + Differences(ops[1..], base, other, ops[0].i2, ops[0].j2)
  }

  lemma NextDifference(
      ops: seq<Opcode>, base: seq<Step>, other: seq<Step>, i: nat, j: nat, before: seq<Difference>)
    requires |ops| > 0 && Covers(ops, Keys(base), Keys(other), i, j)
    ensures var op := ops[0];
      var now := if op.tag.Equal? then before else before + [DifferenceOf(op, base, other)];
      before + Differences(ops, base, other, i, j) == now + Differences(ops[1..], base, other, op.i2, op.j2)
  {
  }

  /** Reads a list of differences as an edit of the base keys from position `i` on. */
  function Edit(base: seq<string>, differences: seq<Difference>, i: nat): seq<string>
    requires i <= |base|
    decreases |differences|
  {
    if |differences| == 0 then base[i..]
    else
      var d := differences[0];
      if i <= d.baseStart <= d.baseEnd <= |base| then
        base[i..d.baseStart] + Keys(d.otherActions) + Edit(base, differences[1..], d.baseEnd)
      else []
  }

  /** The explanation is complete: applying the listed differences to the representative's
      actions gives exactly the other route's actions. */
  lemma {:induction false} DifferencesExplain(ops: seq<Opcode>, base: seq<Step>, other: seq<Step>, i: nat, j: nat)
    requires Covers(ops, Keys(base), Keys(other), i, j)
    requires i <= |base| && j <= |other|
    ensures var ds := Differences(ops, base, other, i, j);
      && Edit(Keys(base), ds, i) == Keys(other)[j..]
      && (|ds| > 0 ==> i <= ds[0].baseStart <= ds[0].baseEnd <= |base|)
    decreases |ops|
  {
    if |ops| > 0 {
      var op := ops[0];
      DifferencesExplain(ops[1..], base, other, op.i2, op.j2);
      var rest := Differences(ops[1..], base, other, op.i2, op.j2);
      var a, b := Keys(base), Keys(other);
      assert b[j..] == b[j..op.j2] + b[op.j2..];
      if op.tag.Equal? {
        assert [] + rest == rest;
        EditSkips(a, rest, i, op.i2);
      } else {
        var d := DifferenceOf(op, base, other);
        assert ([d] + rest)[0] == d && ([d] + rest)[1..] == rest;
        assert Keys(d.otherActions) == b[j..op.j2];
        assert a[i..op.i1] + Keys(d.otherActions) == b[j..op.j2];
        assert Edit(a, [d] + rest, i) == a[i..d.baseStart] + Keys(d.otherActions) + Edit(a, rest, d.baseEnd);
      }
    }
  }

  /** Each listed difference carries the actions of the two spans it names, and none is an equality. */
  ghost predicate Spans(d: Difference, base: seq<Step>, other: seq<Step>) {
    && !d.tag.Equal?
    && d.baseStart <= d.baseEnd <= |base| && d.baseActions == base[d.baseStart..d.baseEnd]
    && d.otherStart <= d.otherEnd <= |other| && d.otherActions == other[d.otherStart..d.otherEnd]
  }

  lemma {:induction false} DifferencesSpan(ops: seq<Opcode>, base: seq<Step>, other: seq<Step>, i: nat, j: nat)
    requires Covers(ops, Keys(base), Keys(other), i, j)
    ensures forall d :: d in Differences(ops, base, other, i, j) ==> Spans(d, base, other)
    decreases |ops|
  {
    if |ops| > 0 { DifferencesSpan(ops[1..], base, other, ops[0].i2, ops[0].j2); }
  }

  lemma EditSkips(a: seq<string>, ds: seq<Difference>, i: nat, k: nat)
    requires i <= k <= |a|
    requires |ds| > 0 ==> k <= ds[0].baseStart <= ds[0].baseEnd <= |a|
    ensures Edit(a, ds, i) == a[i..k] + Edit(a, ds, k)
  {
    if |ds| > 0 {
      var d := ds[0];
      assert a[i..d.baseStart] == a[i..k] + a[k..d.baseStart];
      var keys := Keys(d.otherActions);
      Reassociate(a[i..k], a[k..d.baseStart], keys);
      Reassociate(a[i..k], a[k..d.baseStart] + keys, Edit(a, ds[1..], d.baseEnd));
    } else {
      assert a[i..] == a[i..k] + a[k..];
    }
  }
}
