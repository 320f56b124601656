/** The release audit and its repair: `target_version`, `audit_issue`, `audit_issues` and
    `apply_findings` of `release_governance.py`, with the issue tracker as mutable state. */
module Governance {
  import Order
  import opened Wrappers

  datatype ReleaseState = Active | Planned | Released | Superseded

  datatype VersionRule = VersionRule(mark: string, milestone: string, state: ReleaseState)

  datatype LegacyRange = LegacyRange(first: int, last: int, version: string)

  datatype Policy = Policy(
    managedMinimum: int, versions: map<string, VersionRule>, ranges: seq<LegacyRange>, overrides: map<int, string>) {

    /** What loading a policy guarantees: overrides and ranges name known versions. */
    ghost predicate Valid() {
      && (forall i :: 0 <= i < |ranges| ==> ranges[i].version in versions)
      && (forall n :: n in overrides ==> overrides[n] in versions)
    }

    /** The version labels of the policy. */
    function Known(): (marks: set<string>)
      ensures forall v :: v in versions ==> versions[v].mark in marks
    {
      set v | v in versions :: versions[v].mark
    }
  }

  datatype Issue = Issue(number: int, title: string, labels: seq<string>, milestone: Option<string>, open: bool)

  datatype Code =
    | Unclassified | MissingLabel | MultipleLabels | WrongLabel | MissingMilestone | WrongMilestone
    | OpenInReleased | OpenInSuperseded

  datatype Finding = Finding(
    number: int, target: Option<string>, codes: seq<Code>, observed: seq<string>, milestone: Option<string>)

  // ----- the audit of one issue -----

  function RangeVersion(ranges: seq<LegacyRange>, number: int): Option<string> {
    if ranges == [] then None
    else if ranges[0].first <= number <= ranges[0].last then Some(ranges[0].version)
    else RangeVersion(ranges[1..], number)
  }

  /** `titled` finds the version in a title, if the title has one. */
  function TargetVersion(titled: string -> Option<string>, issue: Issue, p: Policy): Option<string> {
    if titled(issue.title).Some? then
      if titled(issue.title).value in p.versions then titled(issue.title) else None
    else if issue.number in p.overrides then Some(p.overrides[issue.number])
    else RangeVersion(p.ranges, issue.number)
  }

  lemma {:induction false} RangeKnown(p: Policy, ranges: seq<LegacyRange>, number: int)
    requires forall i :: 0 <= i < |ranges| ==> ranges[i].version in p.versions
    ensures RangeVersion(ranges, number).Some? ==> RangeVersion(ranges, number).value in p.versions
  {
    if ranges != [] { RangeKnown(p, ranges[1..], number); }
  }

  lemma TargetKnown(titled: string -> Option<string>, issue: Issue, p: Policy)
    requires p.Valid()
    ensures TargetVersion(titled, issue, p).Some? ==> TargetVersion(titled, issue, p).value in p.versions
  {
    RangeKnown(p, p.ranges, issue.number);
  }

  /** The labels of `known`, each once. */
  function Distinct(labels: seq<string>, known: set<string>): seq<string> {
    if labels == [] then []
    else
      var front, last := labels[..|labels| - 1], labels[|labels| - 1];
      if last in known && last !in front then Distinct(front, known) + [last] else Distinct(front, known)
  }

  /** `sorted(set(labels) & known)`. */
  function Observed(labels: seq<string>, known: set<string>): seq<string> {
    Order.SortBy(Order.Self, Distinct(labels, known))
  }

  ghost predicate NoDuplicates(s: seq<string>) { forall i, j :: 0 <= i < j < |s| ==> s[i] != s[j] }

  lemma {:induction false} DistinctMembers(labels: seq<string>, known: set<string>)
    ensures forall x :: x in Distinct(labels, known) <==> x in labels && x in known
    ensures NoDuplicates(Distinct(labels, known))
  {
    if labels != [] {
      var front, last := labels[..|labels| - 1], labels[|labels| - 1];
      DistinctMembers(front, known);
      assert labels == front + [last];
    }
  }

  /** The observed version labels are the issue's labels that the policy knows, in order and
      without repeats. */
  lemma ObservedMembers(labels: seq<string>, known: set<string>)
    ensures forall x :: x in Observed(labels, known) <==> x in labels && x in known
    ensures Order.Ascending(Order.Self, Observed(labels, known))
  {
    var found := Distinct(labels, known);
    DistinctMembers(labels, known);
    assert Order.DistinctKeys(Order.Self, found);
    Order.SortAscending(Order.Self, found);
    forall x ensures x in Observed(labels, known) <==> x in found { Order.SortMembers(Order.Self, found, x); }
  }

  lemma OnlyOne(s: seq<string>, x: string)
    requires Order.Ascending(Order.Self, s) && forall y :: y in s <==> y == x
    ensures s == [x]
  {
    assert x in s;
    assert s[0] in s;
    if |s| > 1 {
      assert s[1] in s;
      Order.LessAsymmetric(Order.Self(s[0]), Order.Self(s[1]));
    }
  }

  function LabelCodes(observed: seq<string>, rule: VersionRule): seq<Code> {
    if |observed| == 0 then [MissingLabel]
    else if |observed| > 1 then [MultipleLabels]
    else if observed[0] != rule.mark then [WrongLabel]
    else []
  }

  function MilestoneCodes(milestone: Option<string>, rule: VersionRule): seq<Code> {
    if milestone.None? then [Code.MissingMilestone]
    else if milestone.value != rule.milestone then [WrongMilestone]
    else []
  }

  /** What no repair touches. */
  function StateCodes(open: bool, rule: VersionRule): seq<Code> {
    if rule.state == Released && open then [OpenInReleased]
    else if rule.state == Superseded && open then [OpenInSuperseded]
    else []
  }

  function AuditIssue(titled: string -> Option<string>, issue: Issue, p: Policy): (f: Finding)
    requires p.Valid()
  {
    if issue.number < p.managedMinimum then Finding(issue.number, None, [], [], issue.milestone)
    else
      var version := TargetVersion(titled, issue, p);
      var observed := Observed(issue.labels, p.Known());
      if version.None? then Finding(issue.number, None, [Unclassified], observed, issue.milestone)
      else
        TargetKnown(titled, issue, p);
        var rule := p.versions[version.value];
        Finding(issue.number, version,
          LabelCodes(observed, rule) + MilestoneCodes(issue.milestone, rule) + StateCodes(issue.open, rule),
          observed, issue.milestone)
  }

  /** The label and milestone are right: the issue carries exactly one version label, the expected one. */
  ghost predicate Placed(issue: Issue, rule: VersionRule, p: Policy) {
    (forall x :: x in issue.labels && x in p.Known() <==> x == rule.mark) && issue.milestone == Some(rule.milestone)
  }

  lemma LabelsRight(labels: seq<string>, rule: VersionRule, p: Policy)
    ensures LabelCodes(Observed(labels, p.Known()), rule) == []
            <==> forall x :: x in labels && x in p.Known() <==> x == rule.mark
  {
    var observed := Observed(labels, p.Known());
    ObservedMembers(labels, p.Known());
    if forall x :: x in labels && x in p.Known() <==> x == rule.mark {
      OnlyOne(observed, rule.mark);
    }
  }

  /** An issue with a target has no finding but its state exactly when it is placed right. */
  lemma CleanIffPlaced(titled: string -> Option<string>, issue: Issue, p: Policy)
    requires p.Valid() && issue.number >= p.managedMinimum && TargetVersion(titled, issue, p).Some?
    ensures AuditIssue(titled, issue, p).target.Some? && AuditIssue(titled, issue, p).target.value in p.versions
    ensures var f := AuditIssue(titled, issue, p); var rule := p.versions[f.target.value];
      f.codes == StateCodes(issue.open, rule) <==> Placed(issue, rule, p)
  {
    TargetKnown(titled, issue, p);
    var rule := p.versions[TargetVersion(titled, issue, p).value];
    LabelsRight(issue.labels, rule, p);
    var codes := LabelCodes(Observed(issue.labels, p.Known()), rule) + MilestoneCodes(issue.milestone, rule);
    if codes == [] { assert codes + StateCodes(issue.open, rule) == StateCodes(issue.open, rule); }
  }

  // ----- what the audit of one issue says, without the functions that make it -----

  /** The version an issue belongs to: the one its title names, if the policy knows it; without one in the
      title the override of its number; without either the first range around the number. */
  ghost predicate BelongsTo(issue: Issue, version: Option<string>, titled: string -> Option<string>, p: Policy) {
    var named := titled(issue.title);
    if named.Some? then version == (if named.value in p.versions then named else None)
    else if issue.number in p.overrides then version == Some(p.overrides[issue.number])
    else
      || (version.None? && forall k :: 0 <= k < |p.ranges| ==> !Around(p.ranges[k], issue.number))
      || (version.Some? && exists k :: FirstAround(p.ranges, k, issue.number) && p.ranges[k].version == version.value)
  }

  ghost predicate FirstAround(ranges: seq<LegacyRange>, k: int, number: int) {
    && 0 <= k < |ranges| && Around(ranges[k], number)
    && forall j :: 0 <= j < k ==> !Around(ranges[j], number)
  }

  predicate Around(r: LegacyRange, number: int) { r.first <= number && number <= r.last }

  lemma {:induction false} RangeMeaning(ranges: seq<LegacyRange>, number: int) returns (k: nat)
    ensures k <= |ranges| && forall j :: 0 <= j < k ==> !Around(ranges[j], number)
    ensures if k == |ranges| then RangeVersion(ranges, number).None?
            else Around(ranges[k], number) && RangeVersion(ranges, number) == Some(ranges[k].version)
  {
    k := 0;
    if ranges != [] && !Around(ranges[0], number) {
      var rest := RangeMeaning(ranges[1..], number);
      k := rest + 1;
    }
  }

  lemma TargetMeaning(titled: string -> Option<string>, issue: Issue, p: Policy)
    ensures BelongsTo(issue, TargetVersion(titled, issue, p), titled, p)
  {
    var k := RangeMeaning(p.ranges, issue.number);
    assert k < |p.ranges| ==> FirstAround(p.ranges, k, issue.number);
  }

  /** A version label of the policy. */
  ghost predicate IsMark(x: string, p: Policy) { exists v :: v in p.versions && p.versions[v].mark == x }

  ghost predicate Carries(issue: Issue, x: string, p: Policy) { x in issue.labels && IsMark(x, p) }

  ghost predicate CarriesOnly(issue: Issue, x: string, p: Policy) {
    Carries(issue, x, p) && forall y :: Carries(issue, y, p) ==> y == x
  }

  /** Each code stands exactly for what is wrong with the issue. */
  ghost predicate CodesMean(codes: seq<Code>, issue: Issue, rule: VersionRule, p: Policy) {
    && Unclassified !in codes
    && (MissingLabel in codes <==> forall x :: !Carries(issue, x, p))
    && (MultipleLabels in codes <==> exists x, y :: Carries(issue, x, p) && Carries(issue, y, p) && x != y)
    && (WrongLabel in codes <==> exists x :: CarriesOnly(issue, x, p) && x != rule.mark)
    && (Code.MissingMilestone in codes <==> issue.milestone.None?)
    && (WrongMilestone in codes <==> issue.milestone.Some? && issue.milestone.value != rule.milestone)
    && (OpenInReleased in codes <==> issue.open && rule.state == Released)
    && (OpenInSuperseded in codes <==> issue.open && rule.state == Superseded)
  }

  /** First the label, then the milestone, then the state, each once. */
  function Rank(c: Code): nat {
    match c
    case Unclassified => 0
    case MissingLabel => 1 case MultipleLabels => 1 case WrongLabel => 1
    case MissingMilestone => 2 case WrongMilestone => 2
    case OpenInReleased => 3 case OpenInSuperseded => 3
  }

  ghost predicate InRankOrder(codes: seq<Code>) {
    forall i, j :: 0 <= i < j < |codes| ==> Rank(codes[i]) < Rank(codes[j])
  }

  /** What the audit may say of an issue: nothing if it is too old; that it is unclassified; or what is
      wrong with it, and which version labels it carries. */
  ghost predicate SaysOf(f: Finding, issue: Issue, titled: string -> Option<string>, p: Policy)
    requires p.Valid()
  {
    && f.number == issue.number && f.milestone == issue.milestone
    && (issue.number < p.managedMinimum ==> f.target.None? && f.codes == [] && f.observed == [])
    && (issue.number >= p.managedMinimum ==>
          && BelongsTo(issue, f.target, titled, p)
          && Order.Ascending(Order.Self, f.observed)
          && (forall x :: x in f.observed <==> Carries(issue, x, p))
          && InRankOrder(f.codes)
          && (if f.target.None? then f.codes == [Unclassified]
              else f.target.value in p.versions && CodesMean(f.codes, issue, p.versions[f.target.value], p)))
  }

  lemma MarksKnown(p: Policy)
    ensures forall x :: x in p.Known() <==> IsMark(x, p)
  {
  }

  lemma ObservedCarried(issue: Issue, p: Policy)
    ensures forall x :: x in Observed(issue.labels, p.Known()) <==> Carries(issue, x, p)
  {
    ObservedMembers(issue.labels, p.Known());
    MarksKnown(p);
  }

  lemma ObservedCount(issue: Issue, p: Policy)
    ensures var observed := Observed(issue.labels, p.Known());
      && (|observed| == 0 <==> forall x :: !Carries(issue, x, p))
      && (|observed| > 1 <==> exists x, y :: Carries(issue, x, p) && Carries(issue, y, p) && x != y)
      && (|observed| == 1 ==> CarriesOnly(issue, observed[0], p))
      && (forall x :: CarriesOnly(issue, x, p) ==> observed == [x])
  {
    var observed := Observed(issue.labels, p.Known());
    ObservedMembers(issue.labels, p.Known());
    ObservedCarried(issue, p);
    if |observed| > 0 { assert observed[0] in observed; }
    if |observed| > 1 {
      assert observed[1] in observed;
      Order.LessAsymmetric(Order.Self(observed[0]), Order.Self(observed[1]));
    }
    forall x | CarriesOnly(issue, x, p) ensures observed == [x] {
      assert forall y :: y in observed <==> y == x;
      OnlyOne(observed, x);
    }
  }

  lemma AuditMeaning(titled: string -> Option<string>, issue: Issue, p: Policy)
    requires p.Valid()
    ensures SaysOf(AuditIssue(titled, issue, p), issue, titled, p)
  {
    TargetMeaning(titled, issue, p);
    TargetKnown(titled, issue, p);
    ObservedMembers(issue.labels, p.Known());
    ObservedCarried(issue, p);
    var f := AuditIssue(titled, issue, p);
    if issue.number >= p.managedMinimum && f.target.Some? {
      CodesAre(issue, p.versions[f.target.value], p);
      CodesOrdered(f.observed, issue, p.versions[f.target.value]);
    }
  }

  lemma LabelCodesAre(issue: Issue, rule: VersionRule, p: Policy)
    ensures var codes := LabelCodes(Observed(issue.labels, p.Known()), rule);
      && |codes| <= 1 && (forall c :: c in codes ==> c in {MissingLabel, MultipleLabels, WrongLabel})
      && (MissingLabel in codes <==> forall x :: !Carries(issue, x, p))
      && (MultipleLabels in codes <==> exists x, y :: Carries(issue, x, p) && Carries(issue, y, p) && x != y)
      && (WrongLabel in codes <==> exists x :: CarriesOnly(issue, x, p) && x != rule.mark)
  {
    ObservedCount(issue, p);
  }

  lemma MilestoneCodesAre(issue: Issue, rule: VersionRule)
    ensures var codes := MilestoneCodes(issue.milestone, rule);
      && |codes| <= 1 && (forall c :: c in codes ==> c in {Code.MissingMilestone, WrongMilestone})
      && (Code.MissingMilestone in codes <==> issue.milestone.None?)
      && (WrongMilestone in codes <==> issue.milestone.Some? && issue.milestone.value != rule.milestone)
  {
  }

  lemma StateCodesAre(issue: Issue, rule: VersionRule)
    ensures var codes := StateCodes(issue.open, rule);
      && |codes| <= 1 && (forall c :: c in codes ==> c in {OpenInReleased, OpenInSuperseded})
      && (OpenInReleased in codes <==> issue.open && rule.state == Released)
      && (OpenInSuperseded in codes <==> issue.open && rule.state == Superseded)
  {
  }

  lemma InEither(a: seq<Code>, b: seq<Code>, c: seq<Code>)
    ensures forall x :: x in a + b + c <==> x in a || x in b || x in c
  {
  }

  lemma CodesAre(issue: Issue, rule: VersionRule, p: Policy)
    ensures var codes := LabelCodes(Observed(issue.labels, p.Known()), rule) + MilestoneCodes(issue.milestone, rule)
                         + StateCodes(issue.open, rule);
      CodesMean(codes, issue, rule, p)
  {
    var a, b := LabelCodes(Observed(issue.labels, p.Known()), rule), MilestoneCodes(issue.milestone, rule);
    var c := StateCodes(issue.open, rule);
    LabelCodesAre(issue, rule, p);
    MilestoneCodesAre(issue, rule);
    StateCodesAre(issue, rule);
    InEither(a, b, c);
  }

  lemma CodesOrdered(observed: seq<string>, issue: Issue, rule: VersionRule)
    ensures InRankOrder(LabelCodes(observed, rule) + MilestoneCodes(issue.milestone, rule)
                        + StateCodes(issue.open, rule))
  {
    RanksInOrder(LabelCodes(observed, rule), MilestoneCodes(issue.milestone, rule), StateCodes(issue.open, rule));
  }

  lemma RanksInOrder(a: seq<Code>, b: seq<Code>, c: seq<Code>)
    requires |a| <= 1 && |b| <= 1 && |c| <= 1
    requires (a != [] ==> Rank(a[0]) == 1) && (b != [] ==> Rank(b[0]) == 2) && (c != [] ==> Rank(c[0]) == 3)
    ensures InRankOrder(a + b + c)
  {
  }

  // ----- the audit of a snapshot -----

  /** `sorted(issues, key=number)`: stable insertion. */
  function InsertByNumber(issue: Issue, s: seq<Issue>): seq<Issue> {
    if s == [] then [issue]
    else if s[|s| - 1].number <= issue.number then s + [issue]
    else InsertByNumber(issue, s[..|s| - 1]) + [s[|s| - 1]]
  }

  function SortByNumber(s: seq<Issue>): seq<Issue> {
    if s == [] then [] else InsertByNumber(s[|s| - 1], SortByNumber(s[..|s| - 1]))
  }

  ghost predicate ByNumber(s: seq<Issue>) { forall i, j :: 0 <= i < j < |s| ==> s[i].number < s[j].number }

  ghost predicate DistinctNumbers(s: seq<Issue>) {
    forall i, j :: 0 <= i < j < |s| ==> s[i].number != s[j].number
  }

  lemma {:induction false} InsertMembers(issue: Issue, s: seq<Issue>)
    ensures forall x :: x in InsertByNumber(issue, s) <==> x in s || x == issue
  {
    if s != [] && s[|s| - 1].number > issue.number {
      assert s == s[..|s| - 1] + [s[|s| - 1]];
      InsertMembers(issue, s[..|s| - 1]);
    }
  }

  lemma {:induction false} InsertOrders(issue: Issue, s: seq<Issue>)
    requires ByNumber(s) && forall x :: x in s ==> x.number != issue.number
    ensures ByNumber(InsertByNumber(issue, s))
  {
    if s != [] {
      var front, last := s[..|s| - 1], s[|s| - 1];
      assert last in s;
      if last.number > issue.number {
        InsertOrders(issue, front);
        InsertMembers(issue, front);
        var r := InsertByNumber(issue, front);
        forall i | 0 <= i < |r| ensures r[i].number < last.number {
          assert r[i] in r;
        }
      }
    }
  }

  lemma {:induction false} SortKeeps(s: seq<Issue>)
    ensures forall x :: x in SortByNumber(s) <==> x in s
    ensures DistinctNumbers(s) ==> ByNumber(SortByNumber(s))
  {
    if s != [] {
      var front, last := s[..|s| - 1], s[|s| - 1];
      assert s == front + [last];
      SortKeeps(front);
      InsertMembers(last, SortByNumber(front));
      if DistinctNumbers(s) { InsertOrders(last, SortByNumber(front)); }
    }
  }

  /** The findings of the first `n` issues. */
  function FindingsOf(titled: string -> Option<string>, issues: seq<Issue>, p: Policy, n: nat): seq<Finding>
    requires p.Valid() && n <= |issues|
  {
    if n == 0 then []
    else
      var f := AuditIssue(titled, issues[n - 1], p);
      if f.codes != [] then FindingsOf(titled, issues, p, n - 1) + [f] else FindingsOf(titled, issues, p, n - 1)
  }

  function AllFindings(titled: string -> Option<string>, issues: seq<Issue>, p: Policy): seq<Finding>
    requires p.Valid()
  {
    FindingsOf(titled, SortByNumber(issues), p, |SortByNumber(issues)|)
  }

  method AuditIssues(titled: string -> Option<string>, issues: seq<Issue>, p: Policy) returns (findings: seq<Finding>)
    requires p.Valid()
    ensures findings == AllFindings(titled, issues, p)
    ensures Audited(findings, issues, titled, p)
  {
    AuditedMeaning(titled, issues, p);
    findings := [];
    var sorted := SortByNumber(issues);
    for i := 0 to |sorted|
      invariant findings == FindingsOf(titled, sorted, p, i)
    {
      var finding := AuditIssue(titled, sorted[i], p);
      if finding.codes != [] {
        findings := findings + [finding];
      }
    }
  }

  ghost predicate DistinctFindings(fs: seq<Finding>) {
    forall i, j :: 0 <= i < j < |fs| ==> fs[i].number != fs[j].number
  }

  /** `f` is what the audit says of one of the first `n` issues, and not nothing. */
  ghost predicate FoundAmong(titled: string -> Option<string>, issues: seq<Issue>, p: Policy, n: nat, f: Finding)
    requires p.Valid() && n <= |issues|
  {
    exists i :: 0 <= i < n && f == AuditIssue(titled, issues[i], p) && f.codes != []
  }

  ghost predicate FoundIn(titled: string -> Option<string>, issues: seq<Issue>, p: Policy, f: Finding)
    requires p.Valid()
  {
    exists issue :: issue in issues && f == AuditIssue(titled, issue, p) && f.codes != []
  }

  lemma {:induction false} FindingsAre(titled: string -> Option<string>, issues: seq<Issue>, p: Policy, n: nat)
    requires p.Valid() && n <= |issues| && ByNumber(issues)
    ensures DistinctFindings(FindingsOf(titled, issues, p, n))
    ensures forall f :: f in FindingsOf(titled, issues, p, n) <==> FoundAmong(titled, issues, p, n, f)
  {
    if n > 0 {
      FindingsAre(titled, issues, p, n - 1);
      var front, f := FindingsOf(titled, issues, p, n - 1), AuditIssue(titled, issues[n - 1], p);
      forall k | 0 <= k < |front| ensures front[k].number != f.number {
        assert front[k] in front;
      }
    }
  }

  /** The findings are those of the issues that are not compliant, one for each. */
  lemma FindingsMeaning(titled: string -> Option<string>, issues: seq<Issue>, p: Policy)
    requires p.Valid() && DistinctNumbers(issues)
    ensures DistinctFindings(AllFindings(titled, issues, p))
    ensures forall f :: f in AllFindings(titled, issues, p) <==> FoundIn(titled, issues, p, f)
  {
    var sorted := SortByNumber(issues);
    SortKeeps(issues);
    FindingsAre(titled, sorted, p, |sorted|);
    forall f ensures f in AllFindings(titled, issues, p) <==> FoundIn(titled, issues, p, f) {
      if FoundAmong(titled, sorted, p, |sorted|, f) {
        var i :| 0 <= i < |sorted| && f == AuditIssue(titled, sorted[i], p) && f.codes != [];
        assert sorted[i] in sorted;
      }
      if FoundIn(titled, issues, p, f) {
        var issue :| issue in issues && f == AuditIssue(titled, issue, p) && f.codes != [];
        assert issue in sorted;
        var i :| 0 <= i < |sorted| && sorted[i] == issue;
      }
    }
  }

  ghost predicate Ascends(fs: seq<Finding>) { forall i, j :: 0 <= i < j < |fs| ==> fs[i].number <= fs[j].number }

  ghost predicate NonDecreasing(s: seq<Issue>) { forall i, j :: 0 <= i < j < |s| ==> s[i].number <= s[j].number }

  ghost predicate SomeIssue(f: Finding, issues: seq<Issue>, titled: string -> Option<string>, p: Policy)
    requires p.Valid()
  {
    exists issue :: issue in issues && SaysOf(f, issue, titled, p)
  }

  ghost predicate Listed(fs: seq<Finding>, issue: Issue, titled: string -> Option<string>, p: Policy)
    requires p.Valid()
  {
    exists f :: f in fs && SaysOf(f, issue, titled, p)
  }

  /** Too old to be managed, or in its version's milestone with that version's label alone, and closed if
      the version is released or superseded. */
  ghost predicate Compliant(issue: Issue, titled: string -> Option<string>, p: Policy) {
    || issue.number < p.managedMinimum
    || exists t :: t in p.versions && CompliantIn(issue, t, titled, p)
  }

  ghost predicate CompliantIn(issue: Issue, t: string, titled: string -> Option<string>, p: Policy)
    requires t in p.versions
  {
    var rule := p.versions[t];
    && BelongsTo(issue, Some(t), titled, p) && CarriesOnly(issue, rule.mark, p)
    && issue.milestone == Some(rule.milestone)
    && !(issue.open && (rule.state == Released || rule.state == Superseded))
  }

  /** By ascending number, a finding for each issue that is not compliant and for no other. */
  ghost predicate Audited(fs: seq<Finding>, issues: seq<Issue>, titled: string -> Option<string>, p: Policy)
    requires p.Valid()
  {
    && Ascends(fs)
    && (forall f :: f in fs ==> f.codes != [] && SomeIssue(f, issues, titled, p))
    && (forall issue :: issue in issues && !Compliant(issue, titled, p) ==> Listed(fs, issue, titled, p))
  }

  lemma {:induction false} InsertKeepsOrder(issue: Issue, s: seq<Issue>)
    requires NonDecreasing(s)
    ensures NonDecreasing(InsertByNumber(issue, s))
  {
    if s != [] {
      var front, last := s[..|s| - 1], s[|s| - 1];
      if last.number > issue.number {
        InsertKeepsOrder(issue, front);
        InsertMembers(issue, front);
        var r := InsertByNumber(issue, front);
        forall i | 0 <= i < |r| ensures r[i].number <= last.number { assert r[i] in r; }
      } else {
        assert forall i :: 0 <= i < |s| - 1 ==> s[i].number <= last.number;
      }
    }
  }

  lemma {:induction false} SortOrders(s: seq<Issue>)
    ensures NonDecreasing(SortByNumber(s))
  {
    if s != [] {
      SortOrders(s[..|s| - 1]);
      InsertKeepsOrder(s[|s| - 1], SortByNumber(s[..|s| - 1]));
    }
  }

  lemma FoundBefore(titled: string -> Option<string>, issues: seq<Issue>, p: Policy, n: nat, f: Finding)
    requires p.Valid() && n < |issues| && NonDecreasing(issues) && FoundAmong(titled, issues, p, n, f)
    ensures f.number <= issues[n].number
  {
    var i :| 0 <= i < n && f == AuditIssue(titled, issues[i], p) && f.codes != [];
    AuditMeaning(titled, issues[i], p);
  }

  lemma {:induction false} FindingsListed(titled: string -> Option<string>, issues: seq<Issue>, p: Policy, n: nat)
    requires p.Valid() && n <= |issues| && NonDecreasing(issues)
    ensures Ascends(FindingsOf(titled, issues, p, n))
    ensures forall f :: f in FindingsOf(titled, issues, p, n) <==> FoundAmong(titled, issues, p, n, f)
  {
    if n > 0 {
      FindingsListed(titled, issues, p, n - 1);
      var front, f := FindingsOf(titled, issues, p, n - 1), AuditIssue(titled, issues[n - 1], p);
      AuditMeaning(titled, issues[n - 1], p);
      forall k | 0 <= k < |front| ensures front[k].number <= f.number {
        FoundBefore(titled, issues, p, n - 1, front[k]);
      }
    }
  }

  lemma FoundMeans(titled: string -> Option<string>, issues: seq<Issue>, p: Policy, n: nat, f: Finding)
    requires p.Valid() && n <= |issues| && FoundAmong(titled, issues, p, n, f)
    ensures f.codes != [] && SomeIssue(f, issues, titled, p)
  {
    var i :| 0 <= i < n && f == AuditIssue(titled, issues[i], p) && f.codes != [];
    AuditMeaning(titled, issues[i], p);
  }

  lemma FaultFound(titled: string -> Option<string>, issues: seq<Issue>, p: Policy, issue: Issue)
    requires p.Valid() && issue in issues && !Compliant(issue, titled, p)
    ensures SaysOf(AuditIssue(titled, issue, p), issue, titled, p)
    ensures FoundAmong(titled, issues, p, |issues|, AuditIssue(titled, issue, p))
  {
    AuditMeaning(titled, issue, p);
    if AuditIssue(titled, issue, p).codes == [] { NotCompliant(titled, issue, p); }
    var i :| 0 <= i < |issues| && issues[i] == issue;
  }

  lemma AuditedMeaning(titled: string -> Option<string>, issues: seq<Issue>, p: Policy)
    requires p.Valid()
    ensures Audited(AllFindings(titled, issues, p), issues, titled, p)
  {
    var sorted, fs := SortByNumber(issues), AllFindings(titled, issues, p);
    SortKeeps(issues);
    SortOrders(issues);
    FindingsListed(titled, sorted, p, |sorted|);
    forall f | f in fs ensures f.codes != [] && SomeIssue(f, issues, titled, p) {
      FoundMeans(titled, sorted, p, |sorted|, f);
      var issue :| issue in sorted && SaysOf(f, issue, titled, p);
      assert issue in issues;
    }
    forall issue | issue in issues && !Compliant(issue, titled, p) ensures Listed(fs, issue, titled, p) {
      FaultFound(titled, sorted, p, issue);
    }
  }

  /** No code, no fault. */
  lemma NotCompliant(titled: string -> Option<string>, issue: Issue, p: Policy)
    requires p.Valid() && AuditIssue(titled, issue, p).codes == []
    ensures Compliant(issue, titled, p)
  {
    AuditMeaning(titled, issue, p);
    var f := AuditIssue(titled, issue, p);
    if issue.number >= p.managedMinimum {
      var x :| Carries(issue, x, p);
      assert CarriesOnly(issue, x, p);
      assert CompliantIn(issue, f.target.value, titled, p);
    }
  }

  // ----- the repair -----

  /** A label taken off an issue. */
  function Without(labels: seq<string>, x: string): seq<string> {
    if labels == [] then []
    else if labels[|labels| - 1] == x then Without(labels[..|labels| - 1], x)
    else Without(labels[..|labels| - 1], x) + [labels[|labels| - 1]]
  }

  function WithLabel(labels: seq<string>, x: string): seq<string> {
    if x in labels then labels else labels + [x]
  }

  /** The labels after the first `n` observed ones have been visited and all but `keep` taken off. */
  function Dropped(labels: seq<string>, observed: seq<string>, keep: string, n: nat): seq<string>
    requires n <= |observed|
  {
    if n == 0 then labels
    else
      var before := Dropped(labels, observed, keep, n - 1);
      if observed[n - 1] == keep then before else Without(before, observed[n - 1])
  }

  /** What the calls for one finding make of its issue. */
  function Repaired(issue: Issue, f: Finding, rule: VersionRule): Issue {
    var dropped := Dropped(issue.labels, f.observed, rule.mark, |f.observed|);
    issue.(
      labels := if rule.mark in f.observed then dropped else WithLabel(dropped, rule.mark),
      milestone := Some(rule.milestone))
  }

  lemma {:induction false} WithoutMembers(labels: seq<string>, x: string)
    ensures forall y :: y in Without(labels, x) <==> y in labels && y != x
  {
    if labels != [] {
      assert labels == labels[..|labels| - 1] + [labels[|labels| - 1]];
      WithoutMembers(labels[..|labels| - 1], x);
    }
  }

  lemma {:induction false} DroppedMembers(labels: seq<string>, observed: seq<string>, keep: string, n: nat)
    requires n <= |observed|
    ensures forall y :: y in Dropped(labels, observed, keep, n) <==> y in labels && (y == keep || y !in observed[..n])
  {
    if n > 0 {
      assert observed[..n] == observed[..n - 1] + [observed[n - 1]];
      DroppedMembers(labels, observed, keep, n - 1);
      WithoutMembers(Dropped(labels, observed, keep, n - 1), observed[n - 1]);
    }
  }

  /** The labels the policy knows nothing of, in order. */
  function Foreign(labels: seq<string>, known: set<string>): seq<string> {
    if labels == [] then []
    else if labels[|labels| - 1] in known then Foreign(labels[..|labels| - 1], known)
    else Foreign(labels[..|labels| - 1], known) + [labels[|labels| - 1]]
  }

  lemma {:induction false} ForeignWithout(labels: seq<string>, known: set<string>, x: string)
    requires x in known
    ensures Foreign(Without(labels, x), known) == Foreign(labels, known)
  {
    if labels != [] {
      var front, last := labels[..|labels| - 1], labels[|labels| - 1];
      ForeignWithout(front, known, x);
      if last != x { assert (Without(front, x) + [last])[..|Without(front, x)|] == Without(front, x); }
    }
  }

  lemma ForeignWith(labels: seq<string>, known: set<string>, x: string)
    requires x in known
    ensures Foreign(WithLabel(labels, x), known) == Foreign(labels, known)
  {
    if x !in labels { assert (labels + [x])[..|labels|] == labels; }
  }

  lemma {:induction false} ForeignDropped(
      labels: seq<string>, known: set<string>, observed: seq<string>, keep: string, n: nat)
    requires n <= |observed| && forall x :: x in observed ==> x in known
    ensures Foreign(Dropped(labels, observed, keep, n), known) == Foreign(labels, known)
  {
    if n > 0 {
      ForeignDropped(labels, known, observed, keep, n - 1);
      if observed[n - 1] != keep { ForeignWithout(Dropped(labels, observed, keep, n - 1), known, observed[n - 1]); }
    }
  }

  /** The finding says what the issue now carries. */
  ghost predicate Fresh(issue: Issue, f: Finding, p: Policy) {
    f.number == issue.number && f.observed == Observed(issue.labels, p.Known())
  }

  /** One repair: the one expected version label, the expected milestone, everything else as it was. */
  lemma RepairPlaces(issue: Issue, f: Finding, rule: VersionRule, p: Policy)
    requires Fresh(issue, f, p) && rule in p.versions.Values
    ensures Placed(Repaired(issue, f, rule), rule, p)
    ensures Foreign(Repaired(issue, f, rule).labels, p.Known()) == Foreign(issue.labels, p.Known())
  {
    var known := p.Known();
    ObservedMembers(issue.labels, known);
    assert f.observed[..|f.observed|] == f.observed;
    DroppedMembers(issue.labels, f.observed, rule.mark, |f.observed|);
    ForeignDropped(issue.labels, known, f.observed, rule.mark, |f.observed|);
    ForeignWith(Dropped(issue.labels, f.observed, rule.mark, |f.observed|), known, rule.mark);
  }

  /** What the calls make of an issue, whether or not the finding is current: of its labels those the finding
      observed are gone but the expected one, which is added if it was not observed; the milestone is
      the expected one; nothing else changes, and labels the policy does not know keep their order. */
  ghost predicate RepairedAs(was: Issue, now: Issue, f: Finding, rule: VersionRule, p: Policy) {
    && now == was.(labels := now.labels, milestone := Some(rule.milestone))
    && (forall y :: y in now.labels <==>
          (y in was.labels && (y == rule.mark || y !in f.observed)) || (y == rule.mark && rule.mark !in f.observed))
    && Foreign(now.labels, p.Known()) == Foreign(was.labels, p.Known())
  }

  lemma RepairedMeaning(issue: Issue, f: Finding, rule: VersionRule, p: Policy)
    requires rule.mark in p.Known() && forall x :: x in f.observed ==> x in p.Known()
    ensures RepairedAs(issue, Repaired(issue, f, rule), f, rule, p)
  {
    assert f.observed[..|f.observed|] == f.observed;
    DroppedMembers(issue.labels, f.observed, rule.mark, |f.observed|);
    ForeignRepaired(issue, f, rule, p);
  }

  lemma {:induction false} NothingDropped(labels: seq<string>, observed: seq<string>, keep: string, n: nat)
    requires n <= |observed| && forall i :: 0 <= i < n ==> observed[i] == keep
    ensures Dropped(labels, observed, keep, n) == labels
  {
    if n > 0 { NothingDropped(labels, observed, keep, n - 1); }
  }

  /** Repairing an issue that is placed right changes nothing. */
  lemma RepairIdle(issue: Issue, f: Finding, rule: VersionRule, p: Policy)
    requires Fresh(issue, f, p) && Placed(issue, rule, p)
    ensures Repaired(issue, f, rule) == issue
  {
    ObservedMembers(issue.labels, p.Known());
    OnlyOne(f.observed, rule.mark);
    NothingDropped(issue.labels, f.observed, rule.mark, |f.observed|);
  }

  // ----- the tracker -----

  /** The remote tracker. A call that raises may have taken effect before, for the reply is read
      afterwards; when the tracker is `reachable`, calls raise only for an issue or a label that is
      not there. */
  class Tracker {
    var issues: map<int, Issue>
    const listed: seq<(string, int)>
    const titles: map<int, string>
    const reachable: bool

    constructor (issues: map<int, Issue>, listed: seq<(string, int)>, titles: map<int, string>, reachable: bool)
      ensures this.issues == issues && this.listed == listed && this.titles == titles && this.reachable == reachable
    {
      this.issues, this.listed, this.titles, this.reachable := issues, listed, titles, reachable;
    }

    /** Changes one issue, reports whether it raised, and may have done either without the other. */
    method Change(number: int, issue: Issue) returns (ok: bool)
      requires number in issues
      modifies this
      ensures issues == old(issues) || issues == old(issues)[number := issue]
      ensures ok ==> issues == old(issues)[number := issue]
      ensures reachable ==> ok
    {
      var reached, answered := *, *;
      if reached || reachable {
        issues := issues[number := issue];
      }
      ok := reachable || (reached && answered);
    }

    method ListMilestones() returns (listing: Option<seq<(string, int)>>)
      ensures listing.Some? ==> listing.value == listed
      ensures reachable ==> listing.Some?
    {
      var answered := *;
      listing := if reachable || answered then Some(listed) else None;
    }

    method DeleteLabel(number: int, x: string) returns (ok: bool)
      modifies this
      ensures ok ==> number in old(issues) && x in old(issues)[number].labels
      ensures issues != old(issues) || ok ==> number in old(issues)
      ensures issues != old(issues) || ok ==>
        issues == old(issues)[number := old(issues)[number].(labels := Without(old(issues)[number].labels, x))]
      ensures reachable && number in old(issues) && x in old(issues)[number].labels ==> ok
    {
      if number !in issues || x !in issues[number].labels {
        return false;
      }
      ok := Change(number, issues[number].(labels := Without(issues[number].labels, x)));
    }

    method AddLabel(number: int, x: string) returns (ok: bool)
      modifies this
      ensures issues != old(issues) || ok ==> number in old(issues)
      ensures issues != old(issues) || ok ==>
        issues == old(issues)[number := old(issues)[number].(labels := WithLabel(old(issues)[number].labels, x))]
      ensures reachable && number in old(issues) ==> ok
    {
      if number !in issues {
        return false;
      }
      ok := Change(number, issues[number].(labels := WithLabel(issues[number].labels, x)));
    }

    method SetMilestone(number: int, milestone: int) returns (ok: bool)
      requires milestone in titles
      modifies this
      ensures issues != old(issues) || ok ==> number in old(issues)
      ensures issues != old(issues) || ok ==>
        issues == old(issues)[number := old(issues)[number].(milestone := Some(titles[milestone]))]
      ensures reachable && number in old(issues) ==> ok
    {
      if number !in issues {
        return false;
      }
      ok := Change(number, issues[number].(milestone := Some(titles[milestone])));
    }
  }

  /** The listing names milestones by their own titles. */
  ghost predicate Faithful(listed: seq<(string, int)>, titles: map<int, string>) {
    forall i :: 0 <= i < |listed| ==> listed[i].1 in titles && titles[listed[i].1] == listed[i].0
  }

  ghost predicate IsListed(listed: seq<(string, int)>, title: string) {
    exists i :: 0 <= i < |listed| && listed[i].0 == title
  }

  /** The dictionary of milestone numbers; a later entry of a title wins. */
  function NumberByTitle(listed: seq<(string, int)>): (m: map<string, int>)
    ensures forall t :: t in m <==> IsListed(listed, t)
  {
    if listed == [] then map[]
    else
      var front, last := listed[..|listed| - 1], listed[|listed| - 1];
      ListedMore(listed);
      NumberByTitle(front)[last.0 := last.1]
  }

  lemma ListedMore(listed: seq<(string, int)>)
    requires listed != []
    ensures forall t :: IsListed(listed, t) <==> IsListed(listed[..|listed| - 1], t) || t == listed[|listed| - 1].0
  {
    var front, last := listed[..|listed| - 1], listed[|listed| - 1];
    forall t ensures IsListed(listed, t) <==> IsListed(front, t) || t == last.0 {
      if IsListed(front, t) {
        var i :| 0 <= i < |front| && front[i].0 == t;
        assert listed[i].0 == t;
      }
      if IsListed(listed, t) {
        var i :| 0 <= i < |listed| && listed[i].0 == t;
        if i < |front| { assert front[i].0 == t; }
      }
    }
  }

  lemma {:induction false} NumbersFaithful(listed: seq<(string, int)>, titles: map<int, string>, t: string)
    requires Faithful(listed, titles) && t in NumberByTitle(listed)
    ensures NumberByTitle(listed)[t] in titles && titles[NumberByTitle(listed)[t]] == t
  {
    var front, last := listed[..|listed| - 1], listed[|listed| - 1];
    ListedMore(listed);
    if t != last.0 { NumbersFaithful(front, titles, t); }
  }

  /** Nothing changed but version labels and the milestone of one issue. */
  ghost predicate OnlyPlacementMoved(before: map<int, Issue>, after: map<int, Issue>, number: int, p: Policy) {
    && before.Keys == after.Keys
    && (forall n :: n in before && n != number ==> after[n] == before[n])
    && (number in before ==>
          && after[number] == before[number].(labels := after[number].labels, milestone := after[number].milestone)
          && Foreign(after[number].labels, p.Known()) == Foreign(before[number].labels, p.Known()))
  }

  function AfterDrops(issues: map<int, Issue>, f: Finding, rule: VersionRule, j: nat): map<int, Issue>
    requires f.number in issues && j <= |f.observed|
  {
    issues[f.number := issues[f.number].(labels := Dropped(issues[f.number].labels, f.observed, rule.mark, j))]
  }

  lemma DropNext(issues: map<int, Issue>, f: Finding, rule: VersionRule, j: nat)
    requires f.number in issues && j < |f.observed|
    ensures var now := AfterDrops(issues, f, rule, j);
      var labels := now[f.number].labels;
      AfterDrops(issues, f, rule, j + 1)
      == if f.observed[j] == rule.mark then now
         else now[f.number := now[f.number].(labels := Without(labels, f.observed[j]))]
  {
  }

  lemma DropMoves(issues: map<int, Issue>, f: Finding, rule: VersionRule, p: Policy, j: nat)
    requires f.number in issues && j <= |f.observed| && forall x :: x in f.observed ==> x in p.Known()
    ensures OnlyPlacementMoved(issues, AfterDrops(issues, f, rule, j), f.number, p)
  {
    ForeignDropped(issues[f.number].labels, p.Known(), f.observed, rule.mark, j);
  }

  /** The loop over the observed labels: all but the expected one are taken off. */
  method DropOthers(tracker: Tracker, f: Finding, rule: VersionRule, ghost p: Policy) returns (ok: bool)
    requires forall x :: x in f.observed ==> x in p.Known()
    modifies tracker
    ensures OnlyPlacementMoved(old(tracker.issues), tracker.issues, f.number, p)
    ensures ok && f.number !in old(tracker.issues) ==> tracker.issues == old(tracker.issues)
    ensures ok && f.number in old(tracker.issues) ==>
      tracker.issues == AfterDrops(old(tracker.issues), f, rule, |f.observed|)
    ensures tracker.reachable && f.number in old(tracker.issues) && Fresh(old(tracker.issues)[f.number], f, p) ==> ok
  {
    ghost var start := tracker.issues;
    for j := 0 to |f.observed|
      invariant f.number !in start ==> tracker.issues == start
      invariant f.number in start ==> tracker.issues == AfterDrops(start, f, rule, j)
    {
      if f.number in start {
        StillThere(start[f.number], f, rule, p, j);
        DropNext(start, f, rule, j);
        DropMoves(start, f, rule, p, j);
        DropMoves(start, f, rule, p, j + 1);
      }
      if f.observed[j] != rule.mark {
        ok := tracker.DeleteLabel(f.number, f.observed[j]);
        if !ok {
          return;
        }
      }
    }
    if f.number in start { DropMoves(start, f, rule, p, |f.observed|); }
    ok := true;
  }

  /** The calls for one finding. */
  method RepairOne(tracker: Tracker, f: Finding, rule: VersionRule, milestone: int, ghost p: Policy)
    returns (ok: bool)
    requires milestone in tracker.titles && tracker.titles[milestone] == rule.milestone
    requires rule.mark in p.Known() && forall x :: x in f.observed ==> x in p.Known()
    modifies tracker
    ensures ok ==> f.number in old(tracker.issues)
    ensures ok ==> tracker.issues == old(tracker.issues)[f.number := Repaired(old(tracker.issues)[f.number], f, rule)]
    ensures OnlyPlacementMoved(old(tracker.issues), tracker.issues, f.number, p)
    ensures tracker.reachable && f.number in old(tracker.issues) && Fresh(old(tracker.issues)[f.number], f, p) ==> ok
  {
    ghost var start := tracker.issues;
    if f.number in start { ForeignRepaired(start[f.number], f, rule, p); }
    ok := DropOthers(tracker, f, rule, p);
    if ok && rule.mark !in f.observed {
      ok := tracker.AddLabel(f.number, rule.mark);
    }
    if ok {
      ok := tracker.SetMilestone(f.number, milestone);
    }
  }

  lemma ForeignRepaired(issue: Issue, f: Finding, rule: VersionRule, p: Policy)
    requires rule.mark in p.Known() && forall x :: x in f.observed ==> x in p.Known()
    ensures Foreign(Dropped(issue.labels, f.observed, rule.mark, |f.observed|), p.Known())
            == Foreign(issue.labels, p.Known())
    ensures Foreign(Repaired(issue, f, rule).labels, p.Known()) == Foreign(issue.labels, p.Known())
  {
    ForeignDropped(issue.labels, p.Known(), f.observed, rule.mark, |f.observed|);
    ForeignWith(Dropped(issue.labels, f.observed, rule.mark, |f.observed|), p.Known(), rule.mark);
  }

  /** A fresh finding's labels are there to be taken off. */
  lemma StillThere(issue: Issue, f: Finding, rule: VersionRule, p: Policy, j: nat)
    requires j < |f.observed|
    ensures Fresh(issue, f, p) && f.observed[j] != rule.mark
            ==> f.observed[j] in Dropped(issue.labels, f.observed, rule.mark, j)
  {
    if Fresh(issue, f, p) {
      ObservedMembers(issue.labels, p.Known());
      DroppedMembers(issue.labels, f.observed, rule.mark, j);
      if f.observed[j] in f.observed[..j] {
        var k :| 0 <= k < j && f.observed[..j][k] == f.observed[j];
        Order.LessAsymmetric(Order.Self(f.observed[k]), Order.Self(f.observed[j]));
      }
    }
  }

  // ----- the repair of all findings -----

  /** The finding can be acted on: it is classified and the milestone it needs is listed. */
  ghost predicate Applicable(f: Finding, p: Policy, listed: seq<(string, int)>) {
    f.target.Some? && f.target.value in p.versions && IsListed(listed, p.versions[f.target.value].milestone)
  }

  ghost predicate AllApplicable(fs: seq<Finding>, p: Policy, listed: seq<(string, int)>, n: nat)
    requires n <= |fs|
  {
    forall i :: 0 <= i < n ==> Applicable(fs[i], p, listed)
  }

  /** The target and the observed labels of a finding are those of the policy. */
  ghost predicate FindingOfPolicy(f: Finding, p: Policy) {
    (f.target.Some? ==> f.target.value in p.versions) && forall x :: x in f.observed ==> x in p.Known()
  }

  ghost predicate OfPolicy(fs: seq<Finding>, p: Policy) {
    forall i :: 0 <= i < |fs| ==> FindingOfPolicy(fs[i], p)
  }

  /** What acting on a finding makes of the tracker; without target or issue it does nothing. */
  function Act(issues: map<int, Issue>, f: Finding, p: Policy): map<int, Issue> {
    if f.target.Some? && f.target.value in p.versions && f.number in issues
    then issues[f.number := Repaired(issues[f.number], f, p.versions[f.target.value])]
    else issues
  }

  /** One finding after another. */
  function RepairAll(issues: map<int, Issue>, fs: seq<Finding>, p: Policy, n: nat): map<int, Issue>
    requires n <= |fs|
  {
    if n == 0 then issues else Act(RepairAll(issues, fs, p, n - 1), fs[n - 1], p)
  }

  datatype Outcome = Completed | ListingFailed | UnclassifiedIssue | NoSuchMilestone | CallFailed

  /** Only an unreachable tracker or a finding about another state of the issue makes a call fail. */
  ghost predicate CallMayFail(reachable: bool, issues: map<int, Issue>, f: Finding, p: Policy) {
    reachable && f.number in issues ==> !Fresh(issues[f.number], f, p)
  }

  /** One turn of the loop of `apply_findings`. */
  method ApplyOne(tracker: Tracker, f: Finding, p: Policy, numbers: map<string, int>) returns (outcome: Outcome)
    requires Faithful(tracker.listed, tracker.titles) && numbers == NumberByTitle(tracker.listed)
    requires FindingOfPolicy(f, p)
    modifies tracker
    ensures !outcome.ListingFailed?
    ensures outcome.UnclassifiedIssue? <==> f.target.None?
    ensures outcome.NoSuchMilestone? <==> f.target.Some? && !Applicable(f, p, tracker.listed)
    ensures outcome.UnclassifiedIssue? || outcome.NoSuchMilestone? ==> tracker.issues == old(tracker.issues)
    ensures outcome.Completed? ==> f.number in old(tracker.issues) && tracker.issues == Act(old(tracker.issues), f, p)
    ensures outcome.CallFailed? ==> OnlyPlacementMoved(old(tracker.issues), tracker.issues, f.number, p)
    ensures outcome.CallFailed? ==> CallMayFail(tracker.reachable, old(tracker.issues), f, p)
  {
    if f.target.None? {
      return UnclassifiedIssue;
    }
    var rule := p.versions[f.target.value];
    if rule.milestone !in numbers {
      return NoSuchMilestone;
    }
    NumbersFaithful(tracker.listed, tracker.titles, rule.milestone);
    var ok := RepairOne(tracker, f, rule, numbers[rule.milestone], p);
    outcome := if ok then Completed else CallFailed;
  }

  /** The first `done` findings could be acted on, and were. */
  ghost predicate Acted(start: map<int, Issue>, now: map<int, Issue>, fs: seq<Finding>, p: Policy,
                        listed: seq<(string, int)>, done: nat) {
    done <= |fs| && AllApplicable(fs, p, listed, done) && now == RepairAll(start, fs, p, done)
  }

  lemma ActedNext(start: map<int, Issue>, before: map<int, Issue>, after: map<int, Issue>, fs: seq<Finding>, p: Policy,
                  listed: seq<(string, int)>, done: nat)
    requires done < |fs| && Acted(start, before, fs, p, listed, done)
    requires Applicable(fs[done], p, listed) && after == Act(before, fs[done], p)
    ensures Acted(start, after, fs, p, listed, done + 1)
  {}

  /** Findings were acted on in order until one could not be. `done` counts those fully acted on;
      only a call that raised, whether or not it took effect, leaves the issue of the next one changed
      as well, and then in no more than its version labels and milestone. */
  ghost predicate StoppedAt(start: map<int, Issue>, now: map<int, Issue>, fs: seq<Finding>, p: Policy,
                            tracker: (bool, seq<(string, int)>), outcome: Outcome, done: nat) {
    var (reachable, listed) := tracker;
    match outcome
    case Completed => done == |fs| && Acted(start, now, fs, p, listed, done)
    case ListingFailed => !reachable && done == 0 && now == start
    case UnclassifiedIssue => done < |fs| && Acted(start, now, fs, p, listed, done) && fs[done].target.None?
    case NoSuchMilestone =>
      done < |fs| && Acted(start, now, fs, p, listed, done)
      && fs[done].target.Some? && !Applicable(fs[done], p, listed)
    case CallFailed =>
      exists before :: done < |fs| && Acted(start, before, fs, p, listed, done)
        && Applicable(fs[done], p, listed)
        && CallMayFail(reachable, before, fs[done], p)
        && OnlyPlacementMoved(before, now, fs[done].number, p)
  }

  /** `apply_findings`. */
  method ApplyFindings(tracker: Tracker, findings: seq<Finding>, p: Policy) returns (outcome: Outcome, ghost done: nat)
    requires Faithful(tracker.listed, tracker.titles) && OfPolicy(findings, p)
    modifies tracker
    ensures StoppedAt(old(tracker.issues), tracker.issues, findings, p,
                      (tracker.reachable, tracker.listed), outcome, done)
    ensures !outcome.CallFailed? ==> Repairs(old(tracker.issues), tracker.issues, findings, p, done)
  {
    ghost var start := tracker.issues;
    done := 0;
    var listing := tracker.ListMilestones();
    if listing.None? {
      ghost var none := ActedMeaning(start, start, findings, p, tracker.listed, 0);
      return ListingFailed, 0;
    }
    var numbers := NumberByTitle(listing.value);
    for i := 0 to |findings|
      invariant done == i && Acted(start, tracker.issues, findings, p, tracker.listed, i)
    {
      ghost var before := tracker.issues;
      outcome := ApplyOne(tracker, findings[i], p, numbers);
      if !outcome.Completed? {
        if !outcome.CallFailed? { ghost var states := ActedMeaning(start, before, findings, p, tracker.listed, i); }
        return;
      }
      ActedNext(start, before, tracker.issues, findings, p, tracker.listed, i);
      done := i + 1;
    }
    outcome := Completed;
    ghost var states := ActedMeaning(start, tracker.issues, findings, p, tracker.listed, |findings|);
  }

  /** The states of the tracker between the findings acted on: each repairs the one issue it is about. */
  ghost predicate Trail(states: seq<map<int, Issue>>, fs: seq<Finding>, p: Policy, done: nat) {
    && |states| == done + 1 && done <= |fs|
    && forall i :: 0 <= i < done ==> StepOf(states[i], states[i + 1], fs[i], p)
  }

  ghost predicate StepOf(before: map<int, Issue>, after: map<int, Issue>, f: Finding, p: Policy) {
    && f.target.Some? && f.target.value in p.versions && before.Keys == after.Keys
    && (forall n :: n in before && n != f.number ==> after[n] == before[n])
    && (f.number in before ==> RepairedAs(before[f.number], after[f.number], f, p.versions[f.target.value], p))
  }

  /** Acting on the first `done` findings is that many repairs, one after the other. */
  lemma {:induction false} ActedMeaning(start: map<int, Issue>, now: map<int, Issue>, fs: seq<Finding>, p: Policy,
                                        listed: seq<(string, int)>, done: nat)
    returns (states: seq<map<int, Issue>>)
    requires Acted(start, now, fs, p, listed, done) && OfPolicy(fs, p)
    ensures Trail(states, fs, p, done) && states[0] == start && states[done] == now
  {
    if done == 0 {
      states := [start];
    } else {
      var before := RepairAll(start, fs, p, done - 1);
      var earlier := ActedMeaning(start, before, fs, p, listed, done - 1);
      var f := fs[done - 1];
      assert Applicable(f, p, listed) && FindingOfPolicy(f, p);
      if f.number in before { RepairedMeaning(before[f.number], f, p.versions[f.target.value], p); }
      assert StepOf(before, now, f, p);
      states := earlier + [now];
    }
  }

  ghost predicate Repairs(start: map<int, Issue>, now: map<int, Issue>, fs: seq<Finding>, p: Policy, done: nat) {
    exists states :: Trail(states, fs, p, done) && states[0] == start && states[done] == now
  }

  /** Each finding is about another issue, and says what that issue now carries. */
  ghost predicate AllFresh(issues: map<int, Issue>, fs: seq<Finding>, p: Policy) {
    && DistinctFindings(fs)
    && forall i :: 0 <= i < |fs| ==> fs[i].number in issues && Fresh(issues[fs[i].number], fs[i], p)
  }

  lemma {:induction false} OthersUntouched(issues: map<int, Issue>, fs: seq<Finding>, p: Policy, n: nat, number: int)
    requires n <= |fs| && number in issues
    requires forall i :: 0 <= i < n ==> fs[i].number != number
    ensures number in RepairAll(issues, fs, p, n) && RepairAll(issues, fs, p, n)[number] == issues[number]
  {
    if n > 0 { OthersUntouched(issues, fs, p, n - 1, number); }
  }

  lemma StillFresh(issues: map<int, Issue>, fs: seq<Finding>, p: Policy, i: nat)
    requires i < |fs| && AllFresh(issues, fs, p)
    ensures fs[i].number in RepairAll(issues, fs, p, i) && Fresh(RepairAll(issues, fs, p, i)[fs[i].number], fs[i], p)
  {
    OthersUntouched(issues, fs, p, i, fs[i].number);
  }

  /** With a reachable tracker and a current audit, applying completes exactly when every finding is
      classified and its milestone listed. */
  lemma CompletesIffApplicable(start: map<int, Issue>, now: map<int, Issue>, fs: seq<Finding>, p: Policy,
                               listed: seq<(string, int)>, outcome: Outcome, done: nat)
    requires StoppedAt(start, now, fs, p, (true, listed), outcome, done) && AllFresh(start, fs, p)
    ensures outcome.Completed? <==> AllApplicable(fs, p, listed, |fs|)
  {
    if outcome.CallFailed? { StillFresh(start, fs, p, done); }
  }

  lemma {:induction false} LaterUntouched(
      issues: map<int, Issue>, fs: seq<Finding>, p: Policy, m: nat, n: nat, number: int)
    requires m <= n <= |fs| && number in RepairAll(issues, fs, p, m)
    requires forall i :: m <= i < n ==> fs[i].number != number
    ensures number in RepairAll(issues, fs, p, n)
    ensures RepairAll(issues, fs, p, n)[number] == RepairAll(issues, fs, p, m)[number]
  {
    if m < n { LaterUntouched(issues, fs, p, m, n - 1, number); }
  }

  /** The issue of a finding is repaired once; every other issue is left alone. */
  lemma RepairedOnce(issues: map<int, Issue>, fs: seq<Finding>, p: Policy, n: nat, i: nat)
    requires i < n <= |fs| && AllFresh(issues, fs, p) && FindingOfPolicy(fs[i], p) && fs[i].target.Some?
    ensures fs[i].number in RepairAll(issues, fs, p, n)
    ensures RepairAll(issues, fs, p, n)[fs[i].number]
            == Repaired(issues[fs[i].number], fs[i], p.versions[fs[i].target.value])
  {
    OthersUntouched(issues, fs, p, i, fs[i].number);
    LaterUntouched(issues, fs, p, i + 1, n, fs[i].number);
  }

  // ----- audit, apply, audit -----

  /** A listing of issues of the tracker, each once. */
  ghost predicate Snapshot(issues: map<int, Issue>, s: seq<Issue>) {
    DistinctNumbers(s) && forall i :: 0 <= i < |s| ==> s[i].number in issues && issues[s[i].number] == s[i]
  }

  lemma AuditOfPolicy(titled: string -> Option<string>, issue: Issue, p: Policy)
    requires p.Valid()
    ensures var f := AuditIssue(titled, issue, p);
      && FindingOfPolicy(f, p)
      && (f.codes != [] ==> Fresh(issue, f, p))
  {
    TargetKnown(titled, issue, p);
    ObservedMembers(issue.labels, p.Known());
  }

  lemma AuditFresh(titled: string -> Option<string>, issues: map<int, Issue>, s: seq<Issue>, p: Policy)
    requires p.Valid() && Snapshot(issues, s)
    ensures OfPolicy(AllFindings(titled, s, p), p) && AllFresh(issues, AllFindings(titled, s, p), p)
  {
    var fs := AllFindings(titled, s, p);
    FindingsMeaning(titled, s, p);
    forall i | 0 <= i < |fs|
      ensures FindingOfPolicy(fs[i], p)
      ensures fs[i].number in issues && Fresh(issues[fs[i].number], fs[i], p)
    {
      assert fs[i] in fs;
      var issue :| issue in s && fs[i] == AuditIssue(titled, issue, p) && fs[i].codes != [];
      AuditOfPolicy(titled, issue, p);
    }
  }

  /** What a completed repair leaves of an issue. */
  ghost predicate Settled(titled: string -> Option<string>, was: Issue, now: Issue, p: Policy)
    requires p.Valid()
  {
    && now == was.(labels := now.labels, milestone := now.milestone)
    && Foreign(now.labels, p.Known()) == Foreign(was.labels, p.Known())
    && (was.number < p.managedMinimum ==> now == was)
    && (was.number >= p.managedMinimum ==>
          var f := AuditIssue(titled, now, p);
          && f.target == TargetVersion(titled, was, p)
          && f.target.Some? && f.target.value in p.versions
          && Placed(now, p.versions[f.target.value], p)
          && f.codes == StateCodes(was.open, p.versions[f.target.value]))
  }

  lemma FoundSettles(titled: string -> Option<string>, was: Issue, p: Policy)
    requires p.Valid() && AuditIssue(titled, was, p).codes != [] && AuditIssue(titled, was, p).target.Some?
    ensures AuditIssue(titled, was, p).target.value in p.versions
    ensures var f := AuditIssue(titled, was, p); Settled(titled, was, Repaired(was, f, p.versions[f.target.value]), p)
  {
    AuditOfPolicy(titled, was, p);
    var f := AuditIssue(titled, was, p);
    var rule := p.versions[f.target.value];
    var now := Repaired(was, f, rule);
    RepairPlaces(was, f, rule, p);
    CleanIffPlaced(titled, now, p);
  }

  lemma CompliantSettled(titled: string -> Option<string>, was: Issue, p: Policy)
    requires p.Valid() && AuditIssue(titled, was, p).codes == []
    ensures Settled(titled, was, was, p)
  {
    if was.number >= p.managedMinimum { CleanIffPlaced(titled, was, p); }
  }

  /** Audit, then a completed apply: every listed issue has kept its title, its state and its foreign
      labels; a managed one carries exactly its one expected version label and milestone; and all the
      audit can still say of it is that it is open in a released or superseded milestone. */
  lemma Converges(titled: string -> Option<string>, issues: map<int, Issue>, s: seq<Issue>, p: Policy,
                  listed: seq<(string, int)>, was: Issue)
    requires p.Valid() && Snapshot(issues, s) && was in s
    requires AllApplicable(AllFindings(titled, s, p), p, listed, |AllFindings(titled, s, p)|)
    ensures OfPolicy(AllFindings(titled, s, p), p)
    ensures var fs := AllFindings(titled, s, p); var after := RepairAll(issues, fs, p, |fs|);
      was.number in after && Settled(titled, was, after[was.number], p)
  {
    var fs, f := AllFindings(titled, s, p), AuditIssue(titled, was, p);
    AuditFresh(titled, issues, s, p);
    FindingsMeaning(titled, s, p);
    if f.codes != [] {
      assert FoundIn(titled, s, p, f);
      var i :| 0 <= i < |fs| && fs[i] == f;
      assert Applicable(fs[i], p, listed);
      RepairedOnce(issues, fs, p, |fs|, i);
      FoundSettles(titled, was, p);
    } else {
      forall i | 0 <= i < |fs| ensures fs[i].number != was.number {
        NotOfAnother(titled, s, p, fs[i], was);
      }
      OthersUntouched(issues, fs, p, |fs|, was.number);
      CompliantSettled(titled, was, p);
    }
  }

  lemma SameNumberSameIssue(s: seq<Issue>, x: Issue, y: Issue)
    requires DistinctNumbers(s) && x in s && y in s && x.number == y.number
    ensures x == y
  {
    var i :| 0 <= i < |s| && s[i] == x;
    var j :| 0 <= j < |s| && s[j] == y;
  }

  lemma NotOfAnother(titled: string -> Option<string>, s: seq<Issue>, p: Policy, f: Finding, was: Issue)
    requires p.Valid() && DistinctNumbers(s) && was in s && AuditIssue(titled, was, p).codes == []
    requires f in AllFindings(titled, s, p)
    ensures f.number != was.number
  {
    FindingsMeaning(titled, s, p);
    assert FoundIn(titled, s, p, f);
    var issue :| issue in s && f == AuditIssue(titled, issue, p) && f.codes != [];
    if issue.number == was.number { SameNumberSameIssue(s, issue, was); }
  }

  /** The finding's issue is placed right already. */
  ghost predicate Idle(issues: map<int, Issue>, f: Finding, p: Policy) {
    && f.target.Some? && f.target.value in p.versions && f.number in issues
    && Fresh(issues[f.number], f, p) && Placed(issues[f.number], p.versions[f.target.value], p)
  }

  ghost predicate ChangesNothing(issues: map<int, Issue>, f: Finding, p: Policy) { Act(issues, f, p) == issues }

  lemma ActIdle(issues: map<int, Issue>, f: Finding, p: Policy)
    requires Idle(issues, f, p)
    ensures ChangesNothing(issues, f, p)
  {
    RepairIdle(issues[f.number], f, p.versions[f.target.value], p);
  }

  ghost predicate NothingDone(issues: map<int, Issue>, fs: seq<Finding>, p: Policy, n: nat)
    requires n <= |fs|
  {
    RepairAll(issues, fs, p, n) == issues
  }

  lemma {:induction false} IdleRepair(issues: map<int, Issue>, fs: seq<Finding>, p: Policy, n: nat)
    requires n <= |fs| && forall i :: 0 <= i < n ==> ChangesNothing(issues, fs[i], p)
    ensures NothingDone(issues, fs, p, n)
  {
    if n > 0 {
      IdleRepair(issues, fs, p, n - 1);
      assert ChangesNothing(issues, fs[n - 1], p);
    }
  }

  ghost predicate OnlyStateCodes(codes: seq<Code>) { codes == [OpenInReleased] || codes == [OpenInSuperseded] }

  ghost predicate IsSettled(titled: string -> Option<string>, now: Issue, p: Policy)
    requires p.Valid()
  {
    exists was :: Settled(titled, was, now, p)
  }

  lemma SettledIdle(titled: string -> Option<string>, after: map<int, Issue>, was: Issue, issue: Issue, p: Policy)
    requires p.Valid() && Settled(titled, was, issue, p) && AuditIssue(titled, issue, p).codes != []
    requires issue.number in after && after[issue.number] == issue
    ensures OnlyStateCodes(AuditIssue(titled, issue, p).codes)
    ensures ChangesNothing(after, AuditIssue(titled, issue, p), p)
  {
    AuditOfPolicy(titled, issue, p);
    ActIdle(after, AuditIssue(titled, issue, p), p);
  }

  /** A second round finds only open issues in released or superseded milestones, and applying it
      changes no label and no milestone. */
  lemma SecondRoundIdle(titled: string -> Option<string>, after: map<int, Issue>, s: seq<Issue>, p: Policy)
    requires p.Valid() && Snapshot(after, s)
    requires forall i :: 0 <= i < |s| ==> IsSettled(titled, s[i], p)
    ensures OfPolicy(AllFindings(titled, s, p), p)
    ensures forall f :: f in AllFindings(titled, s, p) ==> OnlyStateCodes(f.codes)
    ensures NothingDone(after, AllFindings(titled, s, p), p, |AllFindings(titled, s, p)|)
  {
    var fs := AllFindings(titled, s, p);
    AuditFresh(titled, after, s, p);
    FindingsMeaning(titled, s, p);
    forall i | 0 <= i < |fs|
      ensures OnlyStateCodes(fs[i].codes)
      ensures ChangesNothing(after, fs[i], p)
    {
      assert fs[i] in fs;
      var issue :| issue in s && fs[i] == AuditIssue(titled, issue, p) && fs[i].codes != [];
      var was :| Settled(titled, was, issue, p);
      SettledIdle(titled, after, was, issue, p);
    }
    IdleRepair(after, fs, p, |fs|);
  }

  /** Convergence over both rounds: once an apply has completed, auditing the same issues again
      leaves nothing that another apply would change. */
  lemma AuditApplyAudit(titled: string -> Option<string>, issues: map<int, Issue>, s: seq<Issue>, p: Policy,
                        listed: seq<(string, int)>, after: map<int, Issue>, again: seq<Issue>)
    requires p.Valid() && Snapshot(issues, s)
    requires AllApplicable(AllFindings(titled, s, p), p, listed, |AllFindings(titled, s, p)|)
    requires after == RepairAll(issues, AllFindings(titled, s, p), p, |AllFindings(titled, s, p)|)
    requires Snapshot(after, again) && forall i :: 0 <= i < |again| ==> Numbered(s, again[i].number)
    ensures OfPolicy(AllFindings(titled, again, p), p)
    ensures forall f :: f in AllFindings(titled, again, p) ==> OnlyStateCodes(f.codes)
    ensures NothingDone(after, AllFindings(titled, again, p), p, |AllFindings(titled, again, p)|)
  {
    forall i | 0 <= i < |again| ensures IsSettled(titled, again[i], p) {
      assert Numbered(s, again[i].number);
      var was :| was in s && was.number == again[i].number;
      Converges(titled, issues, s, p, listed, was);
    }
    SecondRoundIdle(titled, after, again, p);
  }

  ghost predicate Numbered(s: seq<Issue>, number: int) { exists issue :: issue in s && issue.number == number }
}
