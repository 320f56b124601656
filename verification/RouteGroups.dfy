/** Grouping and the whole report: `_group_report` and `normalize_and_explain_routes` of
    `route_dsl/analysis.py`. */
module RouteGroups {
  import opened Order
  import opened Routes
  import opened Sequences
  import opened Wrappers

  // ----- the representative of a group -----

  /** `(action_count, cost is None, cost or inf, route_id)` compared as tuples. */
  predicate Precedes(a: Summary, b: Summary) {
    if a.actionCount != b.actionCount then a.actionCount < b.actionCount
    else if a.cost.None? != b.cost.None? then a.cost.Some?
    else if a.cost.Some? && a.cost.value != b.cost.value then a.cost.value < b.cost.value
    else Less(a.id, b.id)
  }

  lemma PrecedesTotal(a: Summary, b: Summary)
    requires a.id != b.id
    ensures Precedes(a, b) <==> !Precedes(b, a)
  {
    LessTotal(a.id, b.id);
    if Less(a.id, b.id) { LessAsymmetric(a.id, b.id); } else { LessAsymmetric(b.id, a.id); }
  }

  lemma PrecedesTransitive(a: Summary, b: Summary, c: Summary)
    requires Precedes(a, b) && Precedes(b, c)
    ensures Precedes(a, c)
  {
    if Less(a.id, b.id) && Less(b.id, c.id) { LessTransitive(a.id, b.id, c.id); }
  }

  function Representative(s: seq<Summary>): Summary
    requires |s| > 0
  {
    if |s| == 1 then s[0]
    else
      var rest := Representative(s[1..]);
      if Precedes(rest, s[0]) then rest else s[0]
  }

  lemma {:induction false} RepresentativeLeast(s: seq<Summary>)
    requires |s| > 0 && UniqueIds(s)
    ensures Representative(s) in s
    ensures forall x :: x in s ==> x == Representative(s) || Precedes(Representative(s), x)
  {
    assert s == [s[0]] + s[1..];
    if |s| > 1 {
      RepresentativeLeast(s[1..]);
      var r := Representative(s[1..]);
      assert r.id != s[0].id by {
        var j :| 0 <= j < |s| - 1 && s[1..][j] == r;
        assert Id(s[0]) != Id(s[j + 1]);
      }
      PrecedesTotal(r, s[0]);
      forall x | x in s ensures x == Representative(s) || Precedes(Representative(s), x) {
        if x != s[0] && x != r && !Precedes(r, s[0]) {
          assert x in s[1..];
          PrecedesTransitive(s[0], r, x);
        }
      }
    }
  }

  // ----- one group -----

  datatype Alternative = Alternative(
    id: string,
    actionCountDelta: int,
    costDelta: Option<real>,
    scoreComparable: bool,
    scoreDelta: Option<real>,
    differences: seq<Difference>)

  datatype Group = Group(
    target: string,
    composite: bool,
    routes: seq<Summary>,
    representativeId: string,
    alternatives: seq<Alternative>,
    branchPoints: seq<Difference>,
    cheapest: Ranking,
    shortest: Ranking)

  /** `_assert_consistent_scores` does not raise. */
  predicate ConsistentScores(s: seq<Summary>) {
    forall i, j :: 0 <= i < |s| && 0 <= j < |s| && s[i].context == s[j].context ==> s[i].score == s[j].score
  }

  predicate AllComposite(s: seq<Summary>) {
    forall i :: 0 <= i < |s| ==> s[i].compositeSteps.Some?
  }

  function StepsOf(s: Summary, composite: bool): seq<Step>
    requires composite ==> s.compositeSteps.Some?
  {
    if composite then s.compositeSteps.value else s.atomicSteps
  }

  function Compare(m: Matcher, r: Summary, x: Summary, composite: bool): Alternative
    requires MeetsContract(m)
    requires composite ==> r.compositeSteps.Some? && x.compositeSteps.Some?
  {
    var base, other := StepsOf(r, composite), StepsOf(x, composite);
    Alternative(
      x.id,
      x.actionCount - r.actionCount,
      if x.cost.Some? && r.cost.Some? then Some(x.cost.value - r.cost.value) else None,
      x.context == r.context,
      if x.context == r.context then Some(x.score - r.score) else None,
      Differences(m(Keys(base), Keys(other)), base, other, 0, 0))
  }

  function Alternatives(m: Matcher, r: Summary, s: seq<Summary>, composite: bool): seq<Alternative>
    requires MeetsContract(m)
    requires composite ==> r.compositeSteps.Some? && AllComposite(s)
  {
    if |s| == 0 then []
    else (if s[0].id == r.id then [] else [Compare(m, r, s[0], composite)]) + Alternatives(m, r, s[1..], composite)
  }

  function BranchPoints(alternatives: seq<Alternative>): seq<Difference> {
    if |alternatives| == 0 then [] else alternatives[0].differences + BranchPoints(alternatives[1..])
  }

  function GroupOf(m: Matcher, members: seq<Summary>): Group
    requires MeetsContract(m) && |members| > 0
  {
    var ordered := SortBy(Id, members);
    var composite := AllComposite(ordered);
    var r := Representative(ordered);
    RepresentativeIn(ordered);
    var alternatives := Alternatives(m, r, ordered, composite);
    Group(ordered[0].target, composite, ordered, r.id, alternatives, BranchPoints(alternatives),
          MinimumRanking(Cost, ordered), MinimumRanking(ActionCount, ordered))
  }

  lemma {:induction false} RepresentativeIn(s: seq<Summary>)
    requires |s| > 0
    ensures Representative(s) in s
  {
    assert s == [s[0]] + s[1..];
    if |s| > 1 { RepresentativeIn(s[1..]); }
  }

  lemma {:induction false} AlternativesSnoc(m: Matcher, r: Summary, s: seq<Summary>, x: Summary, composite: bool)
    requires MeetsContract(m)
    requires composite ==> r.compositeSteps.Some? && AllComposite(s) && x.compositeSteps.Some?
    ensures composite ==> AllComposite(s + [x])
    ensures Alternatives(m, r, s + [x], composite)
      == Alternatives(m, r, s, composite) + (if x.id == r.id then [] else [Compare(m, r, x, composite)])
  {
    if |s| == 0 {
      assert s + [x] == [x];
    } else {
      assert (s + [x])[1..] == s[1..] + [x];
      AlternativesSnoc(m, r, s[1..], x, composite);
    }
  }

  lemma {:induction false} BranchPointsSnoc(alternatives: seq<Alternative>, a: Alternative)
    ensures BranchPoints(alternatives + [a]) == BranchPoints(alternatives) + a.differences
  {
    if |alternatives| == 0 {
      assert alternatives + [a] == [a];
    } else {
      assert (alternatives + [a])[1..] == alternatives[1..] + [a];
      BranchPointsSnoc(alternatives[1..], a);
    }
  }

  /** One alternative of the loop in `_group_report`. */
  method CompareRoutes(m: Matcher, r: Summary, x: Summary, composite: bool) returns (alternative: Alternative)
    requires MeetsContract(m)
    requires composite ==> r.compositeSteps.Some? && x.compositeSteps.Some?
    ensures alternative == Compare(m, r, x, composite)
  {
    var base, other := StepsOf(r, composite), StepsOf(x, composite);
    var differences := DiffSteps(m(Keys(base), Keys(other)), base, other);
    alternative := Alternative(
      x.id,
      x.actionCount - r.actionCount,
      if x.cost.Some? && r.cost.Some? then Some(x.cost.value - r.cost.value) else None,
      x.context == r.context,
      if x.context == r.context then Some(x.score - r.score) else None,
      differences);
  }

  /** `_group_report`; `None` stands for inconsistent scores. */
  method GroupReport(m: Matcher, members: seq<Summary>) returns (group: Option<Group>)
    requires MeetsContract(m) && |members| > 0
    ensures group == if ConsistentScores(SortBy(Id, members)) then Some(GroupOf(m, members)) else None
  {
    var ordered := SortBy(Id, members);
    if !ConsistentScores(ordered) {
      return None;
    }
    var composite := AllComposite(ordered);
    var r := Representative(ordered);
    RepresentativeIn(ordered);
    var alternatives: seq<Alternative> := [];
    var branchPoints: seq<Difference> := [];
    for k := 0 to |ordered|
      invariant alternatives == Alternatives(m, r, ordered[..k], composite)
      invariant branchPoints == BranchPoints(alternatives)
    {
      var x := ordered[k];
      TakeOneMore(ordered, k);
      AlternativesSnoc(m, r, ordered[..k], x, composite);
      if x.id == r.id {
        continue;
      }
      var alternative := CompareRoutes(m, r, x, composite);
      BranchPointsSnoc(alternatives, alternative);
      branchPoints := branchPoints + alternative.differences;
      alternatives := alternatives + [alternative];
    }
    assert ordered[..|ordered|] == ordered;
    return Some(Group(ordered[0].target, composite, ordered, r.id, alternatives, branchPoints,
                      MinimumRanking(Cost, ordered), MinimumRanking(ActionCount, ordered)));
  }

  lemma OrderedMembers(members: seq<Summary>)
    requires UniqueIds(members)
    ensures UniqueIds(SortBy(Id, members)) && SameMembers(SortBy(Id, members), members)
  {
    SortAscending(Id, members);
    AscendingDistinct(SortBy(Id, members));
    forall x ensures x in SortBy(Id, members) <==> x in members { SortMembers(Id, members, x); }
  }

  /** The representative is among the group's shortest; no alternative has fewer actions; one
      with as many costs no less where its cost is measured; and ties go to the lesser id. */
  lemma RepresentativeIsBest(members: seq<Summary>, x: Summary)
    requires |members| > 0 && UniqueIds(members) && x in members
    ensures var ordered := SortBy(Id, members);
      var r := Representative(ordered);
      && r in members
      && x.actionCount >= r.actionCount
      && (x.actionCount == r.actionCount && x.cost.Some? ==> r.cost.Some? && x.cost.value >= r.cost.value)
      && (x.actionCount == r.actionCount && x.cost == r.cost && x != r ==> Less(r.id, x.id))
      && MinimumRanking(ActionCount, ordered).Available?
      && r.id in MinimumRanking(ActionCount, ordered).winners
  {
    var ordered := SortBy(Id, members);
    OrderedMembers(members);
    RepresentativeLeast(ordered);
    ShortestIs(ordered, Representative(ordered));
  }

  /** What the report says of an alternative `x` beside the representative `r`. */
  ghost predicate FairlyCompared(m: Matcher, r: Summary, x: Summary, composite: bool)
    requires MeetsContract(m)
  {
    && (composite ==> r.compositeSteps.Some? && x.compositeSteps.Some?)
    && var a := Compare(m, r, x, composite);
       && a.actionCountDelta >= 0
       && (a.scoreComparable ==> a.scoreDelta == Some(0.0))
       && (a.actionCountDelta == 0 && a.costDelta.Some? ==> a.costDelta.value >= 0.0)
       && Edit(Keys(StepsOf(r, composite)), a.differences, 0) == Keys(StepsOf(x, composite))
  }

  lemma CompareFairly(m: Matcher, r: Summary, x: Summary, composite: bool)
    requires MeetsContract(m) && (composite ==> r.compositeSteps.Some? && x.compositeSteps.Some?)
    requires x.actionCount >= r.actionCount && (x.context == r.context ==> x.score == r.score)
    requires x.actionCount == r.actionCount && x.cost.Some? ==> r.cost.Some? && x.cost.value >= r.cost.value
    ensures FairlyCompared(m, r, x, composite)
  {
    var base, other := StepsOf(r, composite), StepsOf(x, composite);
    DifferencesExplain(m(Keys(base), Keys(other)), base, other, 0, 0);
    assert Keys(other)[0..] == Keys(other);
  }

  /** No alternative takes fewer actions than the representative, comparable scores agree, and the
      listed differences turn the representative's actions into the alternative's. */
  lemma AlternativeDeltas(m: Matcher, members: seq<Summary>, x: Summary)
    requires MeetsContract(m) && |members| > 0 && UniqueIds(members) && x in members
    requires ConsistentScores(SortBy(Id, members))
    ensures FairlyCompared(m, Representative(SortBy(Id, members)), x, AllComposite(SortBy(Id, members)))
  {
    var ordered := SortBy(Id, members);
    var r := Representative(ordered);
    OrderedMembers(members);
    RepresentativeIsBest(members, x);
    assert x in ordered && r in ordered;
    var i :| 0 <= i < |ordered| && ordered[i] == x;
    var j :| 0 <= j < |ordered| && ordered[j] == r;
    CompareFairly(m, r, x, AllComposite(ordered));
  }

  lemma AscendingDistinct(s: seq<Summary>)
    requires Ascending(Id, s)
    ensures UniqueIds(s)
  {
    forall i, j | 0 <= i < j < |s| ensures Id(s[i]) != Id(s[j]) { LessAsymmetric(Id(s[i]), Id(s[j])); }
  }

  lemma ShortestIs(s: seq<Summary>, r: Summary)
    requires |s| > 0 && UniqueIds(s) && r in s
    requires forall x :: x in s ==> x.actionCount >= r.actionCount
    ensures MinimumRanking(ActionCount, s).Available?
    ensures MinimumRanking(ActionCount, s).value == r.actionCount as real
    ensures r.id in MinimumRanking(ActionCount, s).winners
  {
    NothingLacks(s);
    MinimumRankingMeaning(ActionCount, s);
    MinimumLeast(ValueOf(ActionCount), s);
    forall x | x in s ensures ValueOf(ActionCount)(x) == x.actionCount as real { assert ActionCount(x).Some?; }
    var value := MinimumRanking(ActionCount, s).value;
    assert Identifies(r.id, s, x => ActionCount(x) == Some(value)) by { assert ActionCount(r) == Some(value); }
  }

  lemma {:induction false} NothingLacks(s: seq<Summary>)
    ensures Filter(Lacks(ActionCount), s) == []
  {
    if |s| > 0 {
      assert ActionCount(s[0]).Some? && !Lacks(ActionCount)(s[0]);
      NothingLacks(s[1..]);
    }
  }

  // ----- what a group's report says, without the functions that make it -----

  /** Fewer actions; as many and a measured cost where the other's is higher or unknown; or no
      difference but the lesser identifier. */
  ghost predicate ComesBefore(r: Summary, x: Summary) {
    || r.actionCount < x.actionCount
    || (&& r.actionCount == x.actionCount
        && (|| (r.cost.Some? && (x.cost.None? || r.cost.value < x.cost.value))
            || (r.cost == x.cost && Less(r.id, x.id))))
  }

  /** The steps that are compared: the composite ones exactly when every route of the group has them. */
  ghost predicate Steps(s: Summary, composite: bool, steps: seq<Step>) {
    if composite then s.compositeSteps == Some(steps) else s.atomicSteps == steps
  }

  /** What is said of the alternative `x`: its deltas, and differences that carry the actions of the spans
      they name and edit the representative's steps into its own. */
  ghost predicate Describes(a: Alternative, r: Summary, x: Summary, composite: bool) {
    && a.id == x.id && a.actionCountDelta == x.actionCount - r.actionCount
    && (a.costDelta.Some? <==> x.cost.Some? && r.cost.Some?)
    && (a.costDelta.Some? ==> a.costDelta.value == x.cost.value - r.cost.value)
    && (a.scoreComparable <==> x.context == r.context)
    && a.scoreDelta == (if x.context == r.context then Some(0.0) else None)
    && exists base, other :: Steps(r, composite, base) && Steps(x, composite, other)
         && Edit(Keys(base), a.differences, 0) == Keys(other)
         && forall d :: d in a.differences ==> Spans(d, base, other)
  }

  ghost predicate IdsAscend(s: seq<Alternative>) {
    forall i, j :: 0 <= i < j < |s| ==> Less(s[i].id, s[j].id)
  }

  /** Every route but the representative `r` is described once, in the order of the identifiers, and the
      branch points are the differences of all of them. */
  ghost predicate ExplainsFrom(g: Group, r: Summary) {
    && (forall x :: x in g.routes && x != r ==> ComesBefore(r, x))
    && IdsAscend(g.alternatives)
    && (forall a :: a in g.alternatives ==> exists x :: x in g.routes && x != r && Describes(a, r, x, g.composite))
    && (forall x :: x in g.routes && x != r ==> exists a :: a in g.alternatives && a.id == x.id)
    && (forall d :: d in g.branchPoints <==> exists a :: a in g.alternatives && d in a.differences)
  }

  ghost predicate ExplainsGroup(g: Group) {
    && Ascending(Id, g.routes)
    && (forall x :: x in g.routes ==> x.target == g.target)
    && (g.composite <==> forall x :: x in g.routes ==> x.compositeSteps.Some?)
    && RanksLeast(g.cheapest, (x: Summary) => x.cost, g.routes)
    && RanksLeast(g.shortest, (x: Summary) => Some(x.actionCount as real), g.routes)
    && exists r :: r in g.routes && r.id == g.representativeId && ExplainsFrom(g, r)
  }

  lemma PrecedesMeans(r: Summary, x: Summary)
    ensures Precedes(r, x) <==> ComesBefore(r, x)
  {
  }

  lemma CompareDescribes(m: Matcher, r: Summary, x: Summary, composite: bool)
    requires MeetsContract(m) && (composite ==> r.compositeSteps.Some? && x.compositeSteps.Some?)
    requires x.context == r.context ==> x.score == r.score
    ensures Describes(Compare(m, r, x, composite), r, x, composite)
  {
    var base, other := StepsOf(r, composite), StepsOf(x, composite);
    DifferencesExplain(m(Keys(base), Keys(other)), base, other, 0, 0);
    DifferencesSpan(m(Keys(base), Keys(other)), base, other, 0, 0);
    assert Keys(other)[0..] == Keys(other);
    assert Steps(r, composite, base) && Steps(x, composite, other);
  }

  /** The route the k-th alternative is about. */
  lemma {:induction false} AlternativeFrom(m: Matcher, r: Summary, s: seq<Summary>, composite: bool, k: nat)
    returns (x: Summary)
    requires MeetsContract(m) && (composite ==> r.compositeSteps.Some? && AllComposite(s))
    requires k < |Alternatives(m, r, s, composite)|
    ensures x in s && x.id != r.id && (composite ==> x.compositeSteps.Some?)
    ensures Alternatives(m, r, s, composite)[k] == Compare(m, r, x, composite)
  {
    assert s == [s[0]] + s[1..];
    if s[0].id == r.id {
      x := AlternativeFrom(m, r, s[1..], composite, k);
    } else if k == 0 {
      x := s[0];
    } else {
      x := AlternativeFrom(m, r, s[1..], composite, k - 1);
    }
  }

  lemma {:induction false} AlternativeFor(m: Matcher, r: Summary, s: seq<Summary>, composite: bool, x: Summary)
    requires MeetsContract(m) && (composite ==> r.compositeSteps.Some? && AllComposite(s))
    requires x in s && x.id != r.id
    ensures composite ==> x.compositeSteps.Some?
    ensures Compare(m, r, x, composite) in Alternatives(m, r, s, composite)
  {
    assert s == [s[0]] + s[1..];
    if x != s[0] { AlternativeFor(m, r, s[1..], composite, x); }
  }

  lemma AscendBehind(c: Alternative, rest: seq<Alternative>)
    requires IdsAscend(rest) && forall j :: 0 <= j < |rest| ==> Less(c.id, rest[j].id)
    ensures IdsAscend([c] + rest)
  {
  }

  lemma {:induction false} AlternativesAscend(m: Matcher, r: Summary, s: seq<Summary>, composite: bool)
    requires MeetsContract(m) && Ascending(Id, s) && (composite ==> r.compositeSteps.Some? && AllComposite(s))
    ensures IdsAscend(Alternatives(m, r, s, composite))
  {
    if |s| > 0 {
      AlternativesAscend(m, r, s[1..], composite);
      var rest := Alternatives(m, r, s[1..], composite);
      if s[0].id == r.id {
        assert [] + rest == rest;
      } else {
        forall j | 0 <= j < |rest| ensures Less(s[0].id, rest[j].id) {
          var x := AlternativeFrom(m, r, s[1..], composite, j);
          var i :| 0 <= i < |s[1..]| && s[1..][i] == x;
          assert Less(Id(s[0]), Id(s[i + 1]));
        }
        AscendBehind(Compare(m, r, s[0], composite), rest);
      }
    }
  }

  lemma {:induction false} BranchPointsOf(alternatives: seq<Alternative>, d: Difference)
    ensures d in BranchPoints(alternatives) <==> exists a :: a in alternatives && d in a.differences
  {
    if |alternatives| > 0 {
      assert alternatives == [alternatives[0]] + alternatives[1..];
      BranchPointsOf(alternatives[1..], d);
    }
  }

  /** The group's report says all of that. */
  lemma {:induction false} GroupMeaning(m: Matcher, members: seq<Summary>)
    requires MeetsContract(m) && |members| > 0 && UniqueIds(members)
    requires ConsistentScores(SortBy(Id, members))
    requires forall x, y :: x in members && y in members ==> x.target == y.target
    ensures ExplainsGroup(GroupOf(m, members)) && SameMembers(GroupOf(m, members).routes, members)
  {
    var g := GroupOf(m, members);
    var r := Representative(g.routes);
    OrderedMembers(members);
    SortAscending(Id, members);
    RepresentativeLeast(g.routes);
    CostMeaning(g.routes);
    ActionCountMeaning(g.routes);
    assert g.routes[0] in members;
    CompositeMeaning(g);
    FromRepresentative(m, g, r);
  }

  lemma CompositeMeaning(g: Group)
    requires g.composite == AllComposite(g.routes)
    ensures g.composite <==> forall x :: x in g.routes ==> x.compositeSteps.Some?
  {
    assert forall i :: 0 <= i < |g.routes| ==> g.routes[i] in g.routes;
  }

  lemma {:induction false} FromRepresentative(m: Matcher, g: Group, r: Summary)
    requires MeetsContract(m) && |g.routes| > 0 && UniqueIds(g.routes) && Ascending(Id, g.routes)
    requires ConsistentScores(g.routes) && g.composite == AllComposite(g.routes) && r in g.routes
    requires forall x :: x in g.routes ==> x == r || Precedes(r, x)
    requires g.alternatives == Alternatives(m, r, g.routes, g.composite)
    requires g.branchPoints == BranchPoints(g.alternatives)
    ensures ExplainsFrom(g, r)
  {
    AlternativesAscend(m, r, g.routes, g.composite);
    forall x | x in g.routes && x != r
      ensures ComesBefore(r, x) && exists a :: a in g.alternatives && a.id == x.id
    {
      PrecedesMeans(r, x);
      DescribedMember(m, g, r, x);
      AlternativeFor(m, r, g.routes, g.composite, x);
      assert Compare(m, r, x, g.composite).id == x.id;
    }
    forall a | a in g.alternatives ensures exists x :: x in g.routes && x != r && Describes(a, r, x, g.composite) {
      var k :| 0 <= k < |g.alternatives| && g.alternatives[k] == a;
      var x := AlternativeFrom(m, r, g.routes, g.composite, k);
      DescribedMember(m, g, r, x);
    }
    forall d ensures d in g.branchPoints <==> exists a :: a in g.alternatives && d in a.differences {
      BranchPointsOf(g.alternatives, d);
    }
  }

  lemma DescribedMember(m: Matcher, g: Group, r: Summary, x: Summary)
    requires MeetsContract(m) && UniqueIds(g.routes) && ConsistentScores(g.routes)
    requires g.composite == AllComposite(g.routes) && r in g.routes && x in g.routes && x != r
    ensures x.id != r.id
    ensures (g.composite ==> r.compositeSteps.Some? && x.compositeSteps.Some?)
    ensures Describes(Compare(m, r, x, g.composite), r, x, g.composite)
  {
    var i :| 0 <= i < |g.routes| && g.routes[i] == x;
    var j :| 0 <= j < |g.routes| && g.routes[j] == r;
    assert Id(g.routes[i]) != Id(g.routes[j]);
    CompareDescribes(m, r, x, g.composite);
  }
}
