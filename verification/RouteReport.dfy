/** The whole report: `normalize_and_explain_routes` of `route_dsl/analysis.py`. */
module RouteReport {
  import opened Order
  import opened RouteGroups
  import opened Routes
  import opened Sequences
  import opened Wrappers

  datatype Report = Report(
    groups: seq<Group>,
    highestScore: ScoreRanking,
    cheapest: Ranking,
    shortest: Ranking,
    routeCount: nat)

  datatype Result =
    | Ok(report: Report)
    | NoRoutes
    | DuplicateIds(ids: seq<string>)
    | InconsistentScores(target: string)

  // ----- input checks and grouping -----

  function IdCounts(docs: seq<Summary>): multiset<string> {
    multiset(Map(Id, docs))
  }

  function Repeated(docs: seq<Summary>): Summary -> bool {
    var counts := IdCounts(docs);
    (x: Summary) => counts[x.id] > 1
  }

  /** `sorted(id for id in set(ids) if ids.count(id) > 1)` */
  function Duplicates(docs: seq<Summary>): seq<string> {
    SortedSet(Id, Filter(Repeated(docs), docs))
  }

  function HasTarget(target: string): Summary -> bool {
    (x: Summary) => x.target == target
  }

  /** `grouped[target]`: the routes with that target, in input order. */
  function GroupMembers(docs: seq<Summary>, target: string): seq<Summary> {
    Filter(HasTarget(target), docs)
  }

  function Targets(docs: seq<Summary>): seq<string> {
    SortedSet(Target, docs)
  }

  lemma TargetsMembers(docs: seq<Summary>, target: string)
    ensures target in Targets(docs) <==> |GroupMembers(docs, target)| > 0
  {
    SortMembers(Self, Dedup(Map(Target, docs)), target);
    if target in Map(Target, docs) {
      var i :| 0 <= i < |docs| && Map(Target, docs)[i] == target;
      FilterMembers(HasTarget(target), docs, docs[i]);
    }
    if |GroupMembers(docs, target)| > 0 {
      var x := GroupMembers(docs, target)[0];
      FilterMembers(HasTarget(target), docs, x);
      var i :| 0 <= i < |docs| && docs[i] == x;
      assert Map(Target, docs)[i] == target;
    }
  }

  // ----- the report as a function of the documents -----

  function GroupsFor(m: Matcher, docs: seq<Summary>, targets: seq<string>): (groups: seq<Group>)
    requires MeetsContract(m)
    requires forall t :: t in targets ==> |GroupMembers(docs, t)| > 0
    ensures |groups| == |targets|
  {
    if |targets| == 0 then []
    else [GroupOf(m, GroupMembers(docs, targets[0]))] + GroupsFor(m, docs, targets[1..])
  }

  /** The first target, in sorted order, whose routes disagree on a score. */
  function FirstInconsistent(docs: seq<Summary>, targets: seq<string>): Option<string> {
    if |targets| == 0 then None
    else if !ConsistentScores(SortBy(Id, GroupMembers(docs, targets[0]))) then Some(targets[0])
    else FirstInconsistent(docs, targets[1..])
  }

  lemma AllTargetsHaveMembers(docs: seq<Summary>)
    ensures forall t :: t in Targets(docs) ==> |GroupMembers(docs, t)| > 0
  {
    forall t | t in Targets(docs) ensures |GroupMembers(docs, t)| > 0 { TargetsMembers(docs, t); }
  }

  function Normalize(m: Matcher, docs: seq<Summary>): Result
    requires MeetsContract(m)
  {
    if |docs| == 0 then NoRoutes
    else if |Duplicates(docs)| > 0 then DuplicateIds(Duplicates(docs))
    else
      var inconsistent := FirstInconsistent(docs, Targets(docs));
      if inconsistent.Some? then InconsistentScores(inconsistent.value)
      else
        AllTargetsHaveMembers(docs);
        Ok(Report(GroupsFor(m, docs, Targets(docs)), HighestScore(docs),
                  MinimumRanking(Cost, docs), MinimumRanking(ActionCount, docs), |docs|))
  }

  // ----- the loops of the source -----

  lemma {:induction false} FilterSnoc<T>(p: T -> bool, s: seq<T>, x: T)
    ensures Filter(p, s + [x]) == Filter(p, s) + (if p(x) then [x] else [])
  {
    if |s| == 0 {
      assert s + [x] == [x];
    } else {
      assert (s + [x])[1..] == s[1..] + [x];
      FilterSnoc(p, s[1..], x);
      Reassociate(if p(s[0]) then [s[0]] else [], Filter(p, s[1..]), if p(x) then [x] else []);
    }
  }

  /** `grouped.setdefault(summary.target_state_id, []).append(summary)` for every summary. */
  method GroupByTarget(docs: seq<Summary>) returns (grouped: map<string, seq<Summary>>)
    ensures forall t :: t in grouped <==> |GroupMembers(docs, t)| > 0
    ensures forall t :: t in grouped ==> grouped[t] == GroupMembers(docs, t)
  {
    grouped := map[];
    for k := 0 to |docs|
      invariant forall t :: t in grouped <==> |GroupMembers(docs[..k], t)| > 0
      invariant forall t :: t in grouped ==> grouped[t] == GroupMembers(docs[..k], t)
    {
      var x := docs[k];
      assert docs[..k + 1] == docs[..k] + [x];
      forall t ensures GroupMembers(docs[..k + 1], t)
        == GroupMembers(docs[..k], t) + (if x.target == t then [x] else [])
      {
        FilterSnoc(HasTarget(t), docs[..k], x);
      }
      grouped := grouped[x.target := (if x.target in grouped then grouped[x.target] else []) + [x]];
    }
    assert docs[..|docs|] == docs;
  }

  lemma {:induction false} GroupsForSnoc(m: Matcher, docs: seq<Summary>, targets: seq<string>, t: string)
    requires MeetsContract(m) && |GroupMembers(docs, t)| > 0
    requires forall u :: u in targets ==> |GroupMembers(docs, u)| > 0
    ensures forall u :: u in targets + [t] ==> |GroupMembers(docs, u)| > 0
    ensures GroupsFor(m, docs, targets + [t]) == GroupsFor(m, docs, targets) + [GroupOf(m, GroupMembers(docs, t))]
  {
    if |targets| == 0 {
      assert targets + [t] == [t];
    } else {
      assert (targets + [t])[1..] == targets[1..] + [t];
      GroupsForSnoc(m, docs, targets[1..], t);
    }
  }

  lemma {:induction false} FirstInconsistentAt(docs: seq<Summary>, targets: seq<string>, k: nat)
    requires k <= |targets|
    requires FirstInconsistent(docs, targets[..k]).None?
    ensures FirstInconsistent(docs, targets) == FirstInconsistent(docs, targets[k..])
    decreases k
  {
    if k > 0 {
      assert targets[..k][1..] == targets[1..][..k - 1];
      FirstInconsistentAt(docs, targets[1..], k - 1);
      assert targets[1..][k - 1..] == targets[k..];
    } else {
      assert targets[0..] == targets;
    }
  }

  lemma {:induction false} FirstInconsistentSnoc(docs: seq<Summary>, targets: seq<string>, t: string)
    requires FirstInconsistent(docs, targets).None?
    requires ConsistentScores(SortBy(Id, GroupMembers(docs, t)))
    ensures FirstInconsistent(docs, targets + [t]).None?
  {
    if |targets| == 0 {
      assert targets + [t] == [t];
    } else {
      assert (targets + [t])[1..] == targets[1..] + [t];
      FirstInconsistentSnoc(docs, targets[1..], t);
    }
  }

  lemma {:induction false} ReportedNext(m: Matcher, docs: seq<Summary>, targets: seq<string>, t: string)
    requires MeetsContract(m) && |GroupMembers(docs, t)| > 0
    requires forall u :: u in targets ==> |GroupMembers(docs, u)| > 0
    requires FirstInconsistent(docs, targets).None? && ConsistentScores(SortBy(Id, GroupMembers(docs, t)))
    ensures forall u :: u in targets + [t] ==> |GroupMembers(docs, u)| > 0
    ensures FirstInconsistent(docs, targets + [t]).None?
    ensures GroupsFor(m, docs, targets + [t]) == GroupsFor(m, docs, targets) + [GroupOf(m, GroupMembers(docs, t))]
  {
    FirstInconsistentSnoc(docs, targets, t);
    GroupsForSnoc(m, docs, targets, t);
  }

  /** The groups found by the first loop. */
  ghost predicate Grouped(docs: seq<Summary>, grouped: map<string, seq<Summary>>) {
    forall t :: t in Targets(docs) ==>
      t in grouped && grouped[t] == GroupMembers(docs, t) && |GroupMembers(docs, t)| > 0
  }

  /** The second loop: one report for each target, until a group's scores disagree. */
  method ReportGroups(m: Matcher, docs: seq<Summary>, grouped: map<string, seq<Summary>>)
    returns (groups: seq<Group>, inconsistent: Option<string>)
    requires MeetsContract(m) && Grouped(docs, grouped)
    ensures inconsistent == FirstInconsistent(docs, Targets(docs))
    ensures inconsistent.None? ==> groups == GroupsFor(m, docs, Targets(docs))
  {
    var targets := Targets(docs);
    groups, inconsistent := [], None;
    for k := 0 to |targets|
      invariant FirstInconsistent(docs, targets[..k]).None?
      invariant groups == GroupsFor(m, docs, targets[..k])
    {
      var t := targets[k];
      assert t in targets;
      TakeOneMore(targets, k);
      var group := GroupReport(m, grouped[t]);
      if group.None? {
        FirstInconsistentAt(docs, targets, k);
        return groups, Some(t);
      }
      ReportedNext(m, docs, targets[..k], t);
      groups := groups + [group.value];
    }
    assert targets[..|targets|] == targets;
  }

  /** `normalize_and_explain_routes` */
  method NormalizeAndExplain(m: Matcher, docs: seq<Summary>) returns (result: Result)
    requires MeetsContract(m)
    ensures result == Normalize(m, docs)
    ensures Explains(result, docs)
  {
    NormalizeMeaning(m, docs);
    if |docs| == 0 {
      return NoRoutes;
    }
    var duplicates := Duplicates(docs);
    if |duplicates| > 0 {
      return DuplicateIds(duplicates);
    }
    var grouped := GroupByTarget(docs);
    AllTargetsHaveMembers(docs);
    var groups, inconsistent := ReportGroups(m, docs, grouped);
    if inconsistent.Some? {
      return InconsistentScores(inconsistent.value);
    }
    result := Ok(Report(groups, HighestScore(docs), MinimumRanking(Cost, docs),
                        MinimumRanking(ActionCount, docs), |docs|));
  }

  // ----- input order does not matter -----

  lemma WithoutOne(t: seq<Summary>, k: nat)
    requires k < |t|
    ensures multiset(t[..k] + t[k + 1..]) == multiset(t) - multiset{t[k]}
  {
    assert t == t[..k] + [t[k]] + t[k + 1..];
  }

  lemma IdsWithoutOne(t: seq<Summary>, k: nat)
    requires k < |t|
    ensures IdCounts(t) == IdCounts(t[..k] + t[k + 1..]) + multiset{t[k].id}
  {
    assert Map(Id, t) == Map(Id, t[..k]) + [t[k].id] + Map(Id, t[k + 1..]);
    assert Map(Id, t[..k] + t[k + 1..]) == Map(Id, t[..k]) + Map(Id, t[k + 1..]);
  }

  lemma PermutedTails(s: seq<Summary>, t: seq<Summary>, k: nat)
    requires multiset(s) == multiset(t) && |s| > 0 && k < |t| && t[k] == s[0]
    ensures multiset(s[..0] + s[1..]) == multiset(t[..k] + t[k + 1..])
  {
    WithoutOne(s, 0);
    WithoutOne(t, k);
  }

  lemma PermutedIdsStep(s: seq<Summary>, t: seq<Summary>, k: nat)
    requires |s| > 0 && k < |t| && t[k] == s[0]
    requires IdCounts(s[..0] + s[1..]) == IdCounts(t[..k] + t[k + 1..])
    ensures IdCounts(s) == IdCounts(t)
  {
    IdsWithoutOne(s, 0);
    IdsWithoutOne(t, k);
  }

  lemma {:induction false} PermutedIds(s: seq<Summary>, t: seq<Summary>)
    requires multiset(s) == multiset(t)
    ensures IdCounts(s) == IdCounts(t)
    decreases |s|
  {
    PermutedMembers(s, t);
    if |s| > 0 {
      assert s[0] in t;
      var k :| 0 <= k < |t| && t[k] == s[0];
      PermutedTails(s, t, k);
      PermutedIds(s[..0] + s[1..], t[..k] + t[k + 1..]);
      PermutedIdsStep(s, t, k);
    }
  }

  lemma PermutedMembers<T(!new)>(s: seq<T>, t: seq<T>)
    requires multiset(s) == multiset(t)
    ensures SameMembers(s, t) && |s| == |t|
  {
    assert |multiset(s)| == |s| && |multiset(t)| == |t|;
    forall x ensures x in s <==> x in t {
      assert x in s <==> x in multiset(s);
      assert x in t <==> x in multiset(t);
    }
  }

  lemma NoDuplicatesUnique(docs: seq<Summary>)
    requires |Duplicates(docs)| == 0
    ensures UniqueIds(docs)
  {
    forall i, j | 0 <= i < j < |docs| ensures Id(docs[i]) != Id(docs[j]) {
      if Id(docs[i]) == Id(docs[j]) {
        CountTwice(Map(Id, docs), i, j);
        FilterMembers(Repeated(docs), docs, docs[i]);
        var repeated := Filter(Repeated(docs), docs);
        var k :| 0 <= k < |repeated| && repeated[k] == docs[i];
        assert Map(Id, repeated)[k] in Map(Id, repeated);
        SortMembers(Self, Dedup(Map(Id, repeated)), Map(Id, repeated)[k]);
        assert false;
      }
    }
  }

  lemma CountTwice<T>(s: seq<T>, i: nat, j: nat)
    requires i < j < |s| && s[i] == s[j]
    ensures multiset(s)[s[i]] > 1
  {
    assert s == s[..i] + [s[i]] + s[i + 1..];
    assert s[i + 1..] == s[i + 1..j] + [s[j]] + s[j + 1..];
  }

  lemma {:induction false} GroupsForSame(m: Matcher, s: seq<Summary>, t: seq<Summary>, targets: seq<string>)
    requires MeetsContract(m) && UniqueIds(s) && UniqueIds(t) && SameMembers(s, t)
    requires forall u :: u in targets ==> |GroupMembers(s, u)| > 0 && |GroupMembers(t, u)| > 0
    ensures GroupsFor(m, s, targets) == GroupsFor(m, t, targets)
  {
    if |targets| > 0 {
      FilterSame(HasTarget(targets[0]), s, t);
      GroupsForSame(m, s, t, targets[1..]);
    }
  }

  lemma {:induction false} FirstInconsistentSame(s: seq<Summary>, t: seq<Summary>, targets: seq<string>)
    requires UniqueIds(s) && UniqueIds(t) && SameMembers(s, t)
    ensures FirstInconsistent(s, targets) == FirstInconsistent(t, targets)
  {
    if |targets| > 0 {
      FilterSame(HasTarget(targets[0]), s, t);
      FirstInconsistentSame(s, t, targets[1..]);
    }
  }

  lemma DuplicatesSame(s: seq<Summary>, t: seq<Summary>)
    requires multiset(s) == multiset(t)
    ensures Duplicates(s) == Duplicates(t)
  {
    PermutedIds(s, t);
    PermutedMembers(s, t);
    var a, b := Filter(Repeated(s), s), Filter(Repeated(t), t);
    forall x ensures x in a <==> x in b {
      FilterMembers(Repeated(s), s, x);
      FilterMembers(Repeated(t), t, x);
    }
    SortedSetSame(Id, a, b);
  }

  /** Whatever the order the documents come in, the result is the same: the same report, or
      the same error. */
  lemma NormalizePermuted(m: Matcher, s: seq<Summary>, t: seq<Summary>)
    requires MeetsContract(m) && multiset(s) == multiset(t)
    ensures Normalize(m, s) == Normalize(m, t)
  {
    PermutedMembers(s, t);
    DuplicatesSame(s, t);
    if |s| > 0 && |Duplicates(s)| == 0 {
      NoDuplicatesUnique(s);
      NoDuplicatesUnique(t);
      SortedSetSame(Target, s, t);
      FirstInconsistentSame(s, t, Targets(s));
      AllTargetsHaveMembers(s);
      AllTargetsHaveMembers(t);
      GroupsForSame(m, s, t, Targets(s));
      HighestScoreSame(s, t);
      MinimumRankingSame(Cost, s, t);
      MinimumRankingSame(ActionCount, s, t);
    }
  }

  // ----- the groups partition the routes -----

  lemma {:induction false} GroupsForAt(m: Matcher, docs: seq<Summary>, targets: seq<string>, k: nat)
    requires MeetsContract(m) && k < |targets|
    requires forall t :: t in targets ==> |GroupMembers(docs, t)| > 0
    ensures GroupsFor(m, docs, targets)[k] == GroupOf(m, GroupMembers(docs, targets[k]))
    decreases |targets|
  {
    if k > 0 {
      var rest := targets[1..];
      forall t | t in rest ensures |GroupMembers(docs, t)| > 0 { assert t in targets; }
      GroupsForAt(m, docs, rest, k - 1);
      assert GroupsFor(m, docs, targets)[k] == GroupsFor(m, docs, rest)[k - 1];
    }
  }

  /** Group `k` is that of the k-th target, and holds exactly the routes with that target. */
  lemma GroupHolds(m: Matcher, docs: seq<Summary>, k: nat)
    requires MeetsContract(m) && Normalize(m, docs).Ok?
    requires k < |Normalize(m, docs).report.groups|
    ensures var groups := Normalize(m, docs).report.groups;
      && |groups| == |Targets(docs)|
      && groups[k].target == Targets(docs)[k]
      && forall x :: x in groups[k].routes <==> x in docs && x.target == groups[k].target
  {
    AllTargetsHaveMembers(docs);
    var targets := Targets(docs);
    var groups := Normalize(m, docs).report.groups;
    assert |targets| > 0;
    GroupsForAt(m, docs, targets, 0);
    GroupsForAt(m, docs, targets, k);
    var members := GroupMembers(docs, targets[k]);
    forall x ensures x in groups[k].routes <==> x in docs && x.target == targets[k] {
      SortMembers(Id, members, x);
      FilterMembers(HasTarget(targets[k]), docs, x);
    }
    assert groups[k].routes[0] in groups[k].routes;
  }

  /** The groups carry the targets, in ascending order. */
  lemma GroupsAscending(m: Matcher, docs: seq<Summary>)
    requires MeetsContract(m) && Normalize(m, docs).Ok? && docs != []
    ensures var groups := Normalize(m, docs).report.groups;
      && |groups| == |Targets(docs)|
      && (forall k :: 0 <= k < |groups| ==> groups[k].target == Targets(docs)[k])
      && (forall k, l :: 0 <= k < l < |groups| ==> Less(groups[k].target, groups[l].target))
  {
    var groups := Normalize(m, docs).report.groups;
    var targets := Targets(docs);
    TargetsMembers(docs, docs[0].target);
    FilterMembers(HasTarget(docs[0].target), docs, docs[0]);
    AllTargetsHaveMembers(docs);
    GroupsForAt(m, docs, targets, 0);
    forall k | 0 <= k < |groups| ensures groups[k].target == targets[k] { GroupHolds(m, docs, k); }
    SortAscending(Self, Dedup(Map(Target, docs)));
  }

  /** Each route is in exactly one group, the one carrying its target, and the groups stand in
      ascending target order. */
  lemma GroupsPartition(m: Matcher, docs: seq<Summary>, x: Summary)
    requires MeetsContract(m) && Normalize(m, docs).Ok? && x in docs
    ensures var groups := Normalize(m, docs).report.groups;
      && (exists k :: 0 <= k < |groups| && x in groups[k].routes && groups[k].target == x.target)
      && (forall k, l ::
            0 <= k < |groups| && 0 <= l < |groups| && x in groups[k].routes && x in groups[l].routes ==> k == l)
      && (forall k, l :: 0 <= k < l < |groups| ==> Less(groups[k].target, groups[l].target))
  {
    var groups := Normalize(m, docs).report.groups;
    GroupsAscending(m, docs);
    var home := HomeGroup(m, docs, x);
    forall k, l | 0 <= k < |groups| && 0 <= l < |groups| && x in groups[k].routes && x in groups[l].routes
      ensures k == l
    {
      GroupHolds(m, docs, k);
      GroupHolds(m, docs, l);
      SameTargetSameGroup(groups, k, l);
    }
  }

  lemma HomeGroup(m: Matcher, docs: seq<Summary>, x: Summary) returns (k: nat)
    requires MeetsContract(m) && Normalize(m, docs).Ok? && x in docs
    ensures var groups := Normalize(m, docs).report.groups;
      k < |groups| && x in groups[k].routes && groups[k].target == x.target
  {
    GroupsAscending(m, docs);
    FilterMembers(HasTarget(x.target), docs, x);
    TargetsMembers(docs, x.target);
    var targets := Targets(docs);
    k :| k < |targets| && targets[k] == x.target;
    GroupHolds(m, docs, k);
  }

  lemma SameTargetSameGroup(groups: seq<Group>, k: nat, l: nat)
    requires forall i, j :: 0 <= i < j < |groups| ==> Less(groups[i].target, groups[j].target)
    requires k < |groups| && l < |groups| && groups[k].target == groups[l].target
    ensures k == l
  {
    if k < l { LessAsymmetric(groups[k].target, groups[l].target); }
    if l < k { LessAsymmetric(groups[l].target, groups[k].target); }
  }

  /** The global shortest value is the least action count among the groups'
      representatives. */
  lemma ShortestIsARepresentative(m: Matcher, docs: seq<Summary>)
    requires MeetsContract(m) && Normalize(m, docs).Ok?
    ensures var report := Normalize(m, docs).report;
      && report.shortest.Available?
      && (forall k :: 0 <= k < |report.groups| ==>
            |report.groups[k].routes| > 0
            && report.shortest.value <= Representative(report.groups[k].routes).actionCount as real)
      && exists k :: 0 <= k < |report.groups| && |report.groups[k].routes| > 0
           && report.shortest.value == Representative(report.groups[k].routes).actionCount as real
  {
    var report := Normalize(m, docs).report;
    var groups := report.groups;
    var best := SomeShortest(m, docs);
    forall k | 0 <= k < |groups|
      ensures |groups[k].routes| > 0
      ensures report.shortest.value <= Representative(groups[k].routes).actionCount as real
    {
      NoneShorter(m, docs, k);
    }
  }

  lemma NoneShorter(m: Matcher, docs: seq<Summary>, k: nat)
    requires MeetsContract(m) && Normalize(m, docs).Ok? && k < |Normalize(m, docs).report.groups|
    ensures var report := Normalize(m, docs).report;
      && report.shortest.Available?
      && |report.groups[k].routes| > 0
      && report.shortest.value <= Representative(report.groups[k].routes).actionCount as real
  {
    var routes := Normalize(m, docs).report.groups[k].routes;
    ShortestValue(docs);
    GroupNonempty(m, docs, k);
    RepresentativeIn(routes);
    GroupHolds(m, docs, k);
    assert Representative(routes) in docs;
  }

  lemma SomeShortest(m: Matcher, docs: seq<Summary>) returns (k: nat)
    requires MeetsContract(m) && Normalize(m, docs).Ok?
    ensures var report := Normalize(m, docs).report;
      && report.shortest.Available?
      && k < |report.groups| && |report.groups[k].routes| > 0
      && report.shortest.value == Representative(report.groups[k].routes).actionCount as real
  {
    var groups := Normalize(m, docs).report.groups;
    ShortestValue(docs);
    var x :| x in docs && Normalize(m, docs).report.shortest.value == x.actionCount as real;
    GroupsPartition(m, docs, x);
    k :| 0 <= k < |groups| && x in groups[k].routes && groups[k].target == x.target;
    NoneShorter(m, docs, k);
    GroupNonempty(m, docs, k);
    NoDuplicatesUnique(docs);
    FilterUnique(HasTarget(Targets(docs)[k]), docs);
    RepresentativeNoLonger(GroupMembers(docs, Targets(docs)[k]), x);
  }

  lemma ShortestValue(docs: seq<Summary>)
    requires |docs| > 0
    ensures MinimumRanking(ActionCount, docs).Available?
    ensures forall x :: x in docs ==> MinimumRanking(ActionCount, docs).value <= x.actionCount as real
    ensures exists x :: x in docs && MinimumRanking(ActionCount, docs).value == x.actionCount as real
  {
    NothingLacks(docs);
    MinimumLeast(ValueOf(ActionCount), docs);
    forall x | x in docs ensures ValueOf(ActionCount)(x) == x.actionCount as real { assert ActionCount(x).Some?; }
  }

  lemma GroupNonempty(m: Matcher, docs: seq<Summary>, k: nat)
    requires MeetsContract(m) && Normalize(m, docs).Ok?
    requires k < |Normalize(m, docs).report.groups|
    ensures |Normalize(m, docs).report.groups| == |Targets(docs)|
    ensures |Normalize(m, docs).report.groups[k].routes| > 0
    ensures Normalize(m, docs).report.groups[k].routes == SortBy(Id, GroupMembers(docs, Targets(docs)[k]))
  {
    AllTargetsHaveMembers(docs);
    GroupHolds(m, docs, k);
    GroupsForAt(m, docs, Targets(docs), k);
  }

  lemma RepresentativeNoLonger(members: seq<Summary>, x: Summary)
    requires UniqueIds(members) && x in SortBy(Id, members)
    ensures Representative(SortBy(Id, members)).actionCount <= x.actionCount
  {
    SortMembers(Id, members, x);
    RepresentativeIsBest(members, x);
  }

  // ----- what the result says, without the functions that make it -----

  /** Two routes to `t` in one context have different scores. */
  ghost predicate Disagree(docs: seq<Summary>, t: string) {
    exists x, y :: x in docs && y in docs && x.target == t && y.target == t
      && x.context == y.context && x.score != y.score
  }

  ghost predicate Twice(docs: seq<Summary>, id: string) {
    exists i, j :: 0 <= i < j < |docs| && docs[i].id == id && docs[j].id == id
  }

  /** The report covers every route once, in groups by ascending target, explains each group and ranks
      the whole collection; or the first of the three things wrong with the documents is named. */
  ghost predicate Explains(result: Result, docs: seq<Summary>) {
    match result
    case NoRoutes => docs == []
    case DuplicateIds(ids) => ids != [] && Ascending(Self, ids) && forall id :: id in ids <==> Twice(docs, id)
    case InconsistentScores(t) =>
      docs != [] && UniqueIds(docs) && Disagree(docs, t) && forall u :: Less(u, t) ==> !Disagree(docs, u)
    case Ok(report) =>
      docs != [] && UniqueIds(docs) && (forall t :: !Disagree(docs, t)) && ExplainsAll(report, docs)
  }

  ghost predicate ExplainsAll(report: Report, docs: seq<Summary>) {
    && (forall k :: 0 <= k < |report.groups| ==> ExplainsGroup(report.groups[k]))
    && Partitioned(report.groups, docs)
    && RanksHighest(report.highestScore, docs)
    && RanksLeast(report.cheapest, (x: Summary) => x.cost, docs)
    && RanksLeast(report.shortest, (x: Summary) => Some(x.actionCount as real), docs)
    && report.routeCount == |docs|
  }

  ghost predicate Partitioned(groups: seq<Group>, docs: seq<Summary>) {
    && (forall k, l :: 0 <= k < l < |groups| ==> Less(groups[k].target, groups[l].target))
    && (forall k, x :: 0 <= k < |groups| ==> (x in groups[k].routes <==> x in docs && x.target == groups[k].target))
    && (forall x :: x in docs ==> exists k :: 0 <= k < |groups| && x in groups[k].routes)
  }

  lemma {:induction false} DuplicatesMeaning(docs: seq<Summary>)
    ensures Ascending(Self, Duplicates(docs))
    ensures forall id :: id in Duplicates(docs) <==> Twice(docs, id)
  {
    var repeated := Filter(Repeated(docs), docs);
    SortedSetMeaning(Id, repeated);
    forall id ensures id in Duplicates(docs) <==> Twice(docs, id) {
      if id in Duplicates(docs) {
        var x :| x in repeated && Id(x) == id;
        FilterMembers(Repeated(docs), docs, x);
        var i, j := TwoPlaces(Map(Id, docs), id);
      }
      if Twice(docs, id) {
        var i, j :| 0 <= i < j < |docs| && docs[i].id == id && docs[j].id == id;
        CountTwice(Map(Id, docs), i, j);
        FilterMembers(Repeated(docs), docs, docs[i]);
        assert Id(docs[i]) == id;
      }
    }
  }

  lemma {:induction false} TwoPlaces(s: seq<string>, x: string) returns (i: nat, j: nat)
    requires multiset(s)[x] > 1
    ensures i < j < |s| && s[i] == x && s[j] == x
  {
    var front, last := s[..|s| - 1], s[|s| - 1];
    assert s == front + [last];
    if last == x {
      assert x in multiset(front);
      i :| 0 <= i < |front| && front[i] == x;
      j := |s| - 1;
    } else {
      i, j := TwoPlaces(front, x);
    }
  }

  lemma {:induction false} ConsistentMeans(docs: seq<Summary>, t: string)
    ensures ConsistentScores(SortBy(Id, GroupMembers(docs, t))) <==> !Disagree(docs, t)
  {
    var members := GroupMembers(docs, t);
    var ordered := SortBy(Id, members);
    forall x ensures x in ordered <==> x in docs && x.target == t {
      SortMembers(Id, members, x);
      FilterMembers(HasTarget(t), docs, x);
    }
    if Disagree(docs, t) {
      var x, y :| x in docs && y in docs && x.target == t && y.target == t && x.context == y.context
        && x.score != y.score;
      var i :| 0 <= i < |ordered| && ordered[i] == x;
      var j :| 0 <= j < |ordered| && ordered[j] == y;
    }
    if !ConsistentScores(ordered) {
      var i, j :| 0 <= i < |ordered| && 0 <= j < |ordered| && ordered[i].context == ordered[j].context
        && ordered[i].score != ordered[j].score;
      assert ordered[i] in ordered && ordered[j] in ordered;
    }
  }

  lemma {:induction false} FirstInconsistentIs(docs: seq<Summary>, targets: seq<string>) returns (k: nat)
    ensures k <= |targets| && forall j :: 0 <= j < k ==> !Disagree(docs, targets[j])
    ensures var t := FirstInconsistent(docs, targets);
      if k == |targets| then t.None? else t == Some(targets[k]) && Disagree(docs, targets[k])
  {
    k := 0;
    if |targets| > 0 {
      ConsistentMeans(docs, targets[0]);
      if !Disagree(docs, targets[0]) {
        var rest := FirstInconsistentIs(docs, targets[1..]);
        k := rest + 1;
      }
    }
  }

  lemma {:induction false} DisagreeTarget(docs: seq<Summary>, t: string)
    requires Disagree(docs, t)
    ensures t in Targets(docs)
  {
    SortedSetMeaning(Target, docs);
    var x, y :| x in docs && y in docs && x.target == t && y.target == t && x.context == y.context
      && x.score != y.score;
    assert Target(x) == t;
  }

  lemma {:induction false} InconsistentMeaning(docs: seq<Summary>)
    ensures var t := FirstInconsistent(docs, Targets(docs));
      if t.None? then forall u :: !Disagree(docs, u)
      else Disagree(docs, t.value) && forall u :: Less(u, t.value) ==> !Disagree(docs, u)
  {
    var targets := Targets(docs);
    SortAscending(Self, Dedup(Map(Target, docs)));
    var k := FirstInconsistentIs(docs, targets);
    forall u | Disagree(docs, u)
      ensures k < |targets| && !Less(u, targets[k])
    {
      DisagreeTarget(docs, u);
      var j :| 0 <= j < |targets| && targets[j] == u;
      if k < j { LessAsymmetric(Self(targets[k]), Self(targets[j])); }
      if Less(u, targets[k]) { LessAsymmetric(u, targets[k]); }
    }
  }

  lemma {:induction false} GroupExplained(m: Matcher, docs: seq<Summary>, k: nat)
    requires MeetsContract(m) && Normalize(m, docs).Ok? && k < |Normalize(m, docs).report.groups|
    ensures ExplainsGroup(Normalize(m, docs).report.groups[k])
  {
    AllTargetsHaveMembers(docs);
    GroupHolds(m, docs, k);
    var t := Targets(docs)[k];
    var members := GroupMembers(docs, t);
    GroupsForAt(m, docs, Targets(docs), k);
    NoDuplicatesUnique(docs);
    FilterUnique(HasTarget(t), docs);
    InconsistentMeaning(docs);
    ConsistentMeans(docs, t);
    forall x | x in members ensures x.target == t { FilterMembers(HasTarget(t), docs, x); }
    GroupMeaning(m, members);
  }

  lemma {:induction false} GroupsPartitioned(m: Matcher, docs: seq<Summary>)
    requires MeetsContract(m) && Normalize(m, docs).Ok?
    ensures Partitioned(Normalize(m, docs).report.groups, docs)
  {
    var groups := Normalize(m, docs).report.groups;
    GroupsAscending(m, docs);
    forall k, x | 0 <= k < |groups| ensures x in groups[k].routes <==> x in docs && x.target == groups[k].target {
      GroupHolds(m, docs, k);
    }
    forall x | x in docs ensures exists k :: 0 <= k < |groups| && x in groups[k].routes {
      var k := HomeGroup(m, docs, x);
    }
  }

  lemma {:induction false} ReportMeaning(m: Matcher, docs: seq<Summary>)
    requires MeetsContract(m) && Normalize(m, docs).Ok?
    ensures ExplainsAll(Normalize(m, docs).report, docs)
  {
    GroupsPartitioned(m, docs);
    NoDuplicatesUnique(docs);
    var groups := Normalize(m, docs).report.groups;
    forall k | 0 <= k < |groups| ensures ExplainsGroup(groups[k]) { GroupExplained(m, docs, k); }
    HighestScoreMeaning(docs);
    CostMeaning(docs);
    ActionCountMeaning(docs);
  }

  /** The result says all of that. */
  lemma {:induction false} NormalizeMeaning(m: Matcher, docs: seq<Summary>)
    requires MeetsContract(m)
    ensures Explains(Normalize(m, docs), docs)
  {
    if docs != [] {
      DuplicatesMeaning(docs);
      if |Duplicates(docs)| == 0 {
        NoDuplicatesUnique(docs);
        InconsistentMeaning(docs);
        if Normalize(m, docs).Ok? {
          ReportMeaning(m, docs);
        }
      }
    }
  }
}
