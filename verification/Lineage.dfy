/** The lineage check of `experiment/cross_validation.py`: an interrupted route must be the
    baseline up to the recorded fork, then the activation, its responses and a recovery. */
module Lineage {
  import opened Wrappers

  datatype ActionIdentity = ActionIdentity(kind: string, candidateIds: seq<string>, signature: string)

  datatype RequestIdentity = RequestIdentity(candidateIds: seq<string>, form: string)

  /** An event's semantics. `context` stands for everything else that enters them: hashes,
      step, turn, indices and the core's response. */
  datatype Event = Event(request: RequestIdentity, action: ActionIdentity, context: string)

  datatype Response = Response(step: int, candidateIds: seq<string>)

  datatype Trace = Trace(activationStep: int, candidateIds: seq<string>, responses: seq<Response>)

  datatype Error =
    | NoEvents | BaselineInterrupted | NotOneInterruption | BadForkStep | PrefixDiverged
    | RequestsDiffer | NotActivation | CandidatesDiffer | CandidateAbsent | SameAction
    | ResponsesNotContiguous | ResponseDiffers | NoRecovery

  datatype Result = Validated(fork: nat, recovery: seq<Event>) | Refused(error: Error)

  // ----- an independent notion of divergence -----

  /** Length of the longest common prefix. */
  function CommonPrefix(a: seq<Event>, b: seq<Event>): nat {
    if |a| > 0 && |b| > 0 && a[0] == b[0] then 1 + CommonPrefix(a[1..], b[1..]) else 0
  }

  lemma {:induction false} CommonPrefixIs(a: seq<Event>, b: seq<Event>, n: nat)
    requires n < |a| && n < |b|
    ensures CommonPrefix(a, b) == n <==> a[..n] == b[..n] && a[n] != b[n]
    decreases n
  {
    if n > 0 {
      CommonPrefixIs(a[1..], b[1..], n - 1);
      assert a[..n] == [a[0]] + a[1..][..n - 1] && b[..n] == [b[0]] + b[1..][..n - 1];
      if a[..n] == b[..n] { assert a[..n][0] == b[..n][0] && a[..n][1..] == b[..n][1..]; }
    }
  }

  /** The responses of the trace stand right after the fork, in order. */
  ghost predicate ResponsesFollow(events: seq<Event>, fork: nat, responses: seq<Response>) {
    && fork + |responses| < |events|
    && forall i :: 0 <= i < |responses| ==>
         && responses[i].step == fork + i + 1
         && events[fork + i + 1].action.candidateIds == responses[i].candidateIds
  }

  /** What a validated lineage means, in terms of the two histories and the one trace. */
  ghost predicate IsLineage(baseline: seq<Event>, interrupted: seq<Event>, baselineTraces: seq<Trace>,
                            traces: seq<Trace>) {
    && baselineTraces == [] && |traces| == 1
    && 0 <= traces[0].activationStep < |baseline| && traces[0].activationStep < |interrupted|
    && (var t, f := traces[0], traces[0].activationStep;
        && CommonPrefix(baseline, interrupted) == f
        && baseline[f].request == interrupted[f].request
        && baseline[f].action != interrupted[f].action
        && interrupted[f].action.kind == "ACTIVATE_EFFECT"
        && interrupted[f].action.candidateIds == t.candidateIds
        && (forall c :: c in t.candidateIds ==> c in baseline[f].request.candidateIds)
        && ResponsesFollow(interrupted, f, t.responses)
        && f + |t.responses| + 1 < |interrupted|)
  }

  // ----- why a pair of histories is refused -----

  /** The first response that is not as it should be stands at `i`. */
  ghost predicate FirstBad(events: seq<Event>, fork: nat, responses: seq<Response>, i: nat) {
    && i < |responses| && ResponsesFollow(events, fork, responses[..i])
    && !ResponsesFollow(events, fork, responses[..i + 1])
  }

  ghost predicate NotContiguous(events: seq<Event>, fork: nat, responses: seq<Response>) {
    exists i: nat :: FirstBad(events, fork, responses, i)
      && (responses[i].step != fork + i + 1 || fork + i + 1 >= |events|)
  }

  ghost predicate Differs(events: seq<Event>, fork: nat, responses: seq<Response>) {
    exists i: nat :: FirstBad(events, fork, responses, i)
      && responses[i].step == fork + i + 1 < |events|
      && events[fork + i + 1].action.candidateIds != responses[i].candidateIds
  }

  /** The histories up to the fork are there to be compared. */
  ghost predicate Comparable(baseline: seq<Event>, interrupted: seq<Event>, traces: seq<Trace>) {
    |traces| == 1 && 0 <= traces[0].activationStep < |baseline| && traces[0].activationStep < |interrupted|
  }

  ghost predicate Fault(e: Error, baseline: seq<Event>, interrupted: seq<Event>, baselineTraces: seq<Trace>,
                        traces: seq<Trace>) {
    match e
    case NoEvents => baseline == [] || interrupted == []
    case BaselineInterrupted => baselineTraces != []
    case NotOneInterruption => |traces| != 1
    case BadForkStep => |traces| == 1 && !Comparable(baseline, interrupted, traces)
    case _ => Comparable(baseline, interrupted, traces) && FaultAt(e, baseline, interrupted, traces[0])
  }

  ghost predicate FaultAt(e: Error, baseline: seq<Event>, interrupted: seq<Event>, t: Trace)
    requires 0 <= t.activationStep < |baseline| && t.activationStep < |interrupted|
  {
    var f := t.activationStep;
    match e
    case PrefixDiverged => exists k :: 0 <= k < f && baseline[k] != interrupted[k]
    case RequestsDiffer => baseline[f].request != interrupted[f].request
    case NotActivation => interrupted[f].action.kind != "ACTIVATE_EFFECT"
    case CandidatesDiffer => interrupted[f].action.candidateIds != t.candidateIds
    case CandidateAbsent => exists c :: c in t.candidateIds && c !in baseline[f].request.candidateIds
    case SameAction => baseline[f].action == interrupted[f].action
    case ResponsesNotContiguous => NotContiguous(interrupted, f, t.responses)
    case ResponseDiffers => Differs(interrupted, f, t.responses)
    case NoRecovery => f + |t.responses| + 1 >= |interrupted|
    case _ => false
  }

  /** The place of a check in the order the faults are looked for. */
  function Place(e: Error): nat {
    match e
    case NoEvents => 0
    case BaselineInterrupted => 1
    case NotOneInterruption => 2
    case BadForkStep => 3
    case PrefixDiverged => 4
    case RequestsDiffer => 5
    case NotActivation => 6
    case CandidatesDiffer => 7
    case CandidateAbsent => 8
    case SameAction => 9
    case ResponsesNotContiguous => 10
    case ResponseDiffers => 10
    case NoRecovery => 11
  }

  /** The fault named is there and those looked for before it are not. */
  ghost predicate FirstFault(e: Error, baseline: seq<Event>, interrupted: seq<Event>, baselineTraces: seq<Trace>,
                             traces: seq<Trace>) {
    && Fault(e, baseline, interrupted, baselineTraces, traces)
    && forall x :: Place(x) < Place(e) ==> !Fault(x, baseline, interrupted, baselineTraces, traces)
  }

  // ----- checking responses -----

  /** The loop over the response steps. */
  method CheckResponses(events: seq<Event>, fork: nat, responses: seq<Response>) returns (error: Option<Error>)
    requires fork < |events|
    ensures error.None? <==> ResponsesFollow(events, fork, responses)
    ensures error.Some? ==>
      || (error.value == ResponsesNotContiguous && NotContiguous(events, fork, responses))
      || (error.value == ResponseDiffers && Differs(events, fork, responses))
  {
    for i := 0 to |responses|
      invariant ResponsesFollow(events, fork, responses[..i])
    {
      var r := responses[i];
      var expected := fork + i + 1;
      if r.step != expected || r.step >= |events| {
        return Some(ResponsesNotContiguous);
      }
      if events[expected].action.candidateIds != r.candidateIds {
        return Some(ResponseDiffers);
      }
      assert responses[..i + 1] == responses[..i] + [r];
    }
    assert responses[..|responses|] == responses;
    error := None;
  }

  /** The histories are a lineage exactly when none of the faults is there. */
  lemma FaultlessLineage(baseline: seq<Event>, interrupted: seq<Event>, baselineTraces: seq<Trace>,
                         traces: seq<Trace>)
    ensures IsLineage(baseline, interrupted, baselineTraces, traces)
            <==> forall e :: !Fault(e, baseline, interrupted, baselineTraces, traces)
  {
    if IsLineage(baseline, interrupted, baselineTraces, traces) {
      LineageFaultless(baseline, interrupted, baselineTraces, traces);
    }
    if forall e :: !Fault(e, baseline, interrupted, baselineTraces, traces) {
      assert !Fault(BaselineInterrupted, baseline, interrupted, baselineTraces, traces);
      assert !Fault(NotOneInterruption, baseline, interrupted, baselineTraces, traces);
      assert !Fault(BadForkStep, baseline, interrupted, baselineTraces, traces);
      ForkFaultless(baseline, interrupted, baselineTraces, traces);
      ResponsesFaultless(baseline, interrupted, baselineTraces, traces);
    }
  }

  lemma LineageFaultless(baseline: seq<Event>, interrupted: seq<Event>, baselineTraces: seq<Trace>,
                         traces: seq<Trace>)
    requires IsLineage(baseline, interrupted, baselineTraces, traces)
    ensures forall e :: !Fault(e, baseline, interrupted, baselineTraces, traces)
  {
    var t, f := traces[0], traces[0].activationStep;
    CommonPrefixIs(baseline, interrupted, f);
    forall k | 0 <= k < f ensures baseline[k] == interrupted[k] {
      assert baseline[..f][k] == interrupted[..f][k];
    }
    forall i: nat | i < |t.responses| ensures !FirstBad(interrupted, f, t.responses, i) {
      assert ResponsesFollow(interrupted, f, t.responses[..i + 1]);
    }
  }

  lemma ForkFaultless(baseline: seq<Event>, interrupted: seq<Event>, baselineTraces: seq<Trace>,
                      traces: seq<Trace>)
    requires Comparable(baseline, interrupted, traces)
    requires forall e :: !Fault(e, baseline, interrupted, baselineTraces, traces)
    ensures var t, f := traces[0], traces[0].activationStep;
      && CommonPrefix(baseline, interrupted) == f && baseline[f].request == interrupted[f].request
      && baseline[f].action != interrupted[f].action && interrupted[f].action.kind == "ACTIVATE_EFFECT"
      && interrupted[f].action.candidateIds == t.candidateIds
      && forall c :: c in t.candidateIds ==> c in baseline[f].request.candidateIds
  {
    var f := traces[0].activationStep;
    assert !Fault(PrefixDiverged, baseline, interrupted, baselineTraces, traces);
    assert baseline[..f] == interrupted[..f];
    assert !Fault(RequestsDiffer, baseline, interrupted, baselineTraces, traces);
    assert !Fault(NotActivation, baseline, interrupted, baselineTraces, traces);
    assert !Fault(CandidatesDiffer, baseline, interrupted, baselineTraces, traces);
    assert !Fault(CandidateAbsent, baseline, interrupted, baselineTraces, traces);
    assert !Fault(SameAction, baseline, interrupted, baselineTraces, traces);
    CommonPrefixIs(baseline, interrupted, f);
  }

  lemma ResponsesFaultless(baseline: seq<Event>, interrupted: seq<Event>, baselineTraces: seq<Trace>,
                           traces: seq<Trace>)
    requires Comparable(baseline, interrupted, traces)
    requires forall e :: !Fault(e, baseline, interrupted, baselineTraces, traces)
    ensures ResponsesFollow(interrupted, traces[0].activationStep, traces[0].responses)
    ensures traces[0].activationStep + |traces[0].responses| + 1 < |interrupted|
  {
    var t, f := traces[0], traces[0].activationStep;
    assert !Fault(ResponsesNotContiguous, baseline, interrupted, baselineTraces, traces);
    assert !Fault(ResponseDiffers, baseline, interrupted, baselineTraces, traces);
    assert !Fault(NoRecovery, baseline, interrupted, baselineTraces, traces);
    GoodUpto(interrupted, f, t.responses, |t.responses|);
    assert t.responses[..|t.responses|] == t.responses;
  }

  lemma {:induction false} GoodUpto(events: seq<Event>, fork: nat, responses: seq<Response>, n: nat)
    requires fork < |events| && n <= |responses|
    requires !NotContiguous(events, fork, responses) && !Differs(events, fork, responses)
    ensures ResponsesFollow(events, fork, responses[..n])
  {
    if n > 0 {
      GoodUpto(events, fork, responses, n - 1);
      assert responses[..n] == responses[..n - 1] + [responses[n - 1]];
      if !ResponsesFollow(events, fork, responses[..n]) { assert FirstBad(events, fork, responses, n - 1); }
    }
  }

  /** The checks of `build_strategy_interruption_lineage` find the first fault. */
  method FindFault(baseline: seq<Event>, interrupted: seq<Event>, baselineTraces: seq<Trace>, traces: seq<Trace>)
    returns (error: Option<Error>)
    ensures if error.Some? then FirstFault(error.value, baseline, interrupted, baselineTraces, traces)
            else forall e :: !Fault(e, baseline, interrupted, baselineTraces, traces)
  {
    if baseline == [] || interrupted == [] { return Some(NoEvents); }
    if baselineTraces != [] { return Some(BaselineInterrupted); }
    if |traces| != 1 { return Some(NotOneInterruption); }
    var t := traces[0];
    if t.activationStep < 0 { return Some(BadForkStep); }
    var fork: nat := t.activationStep;
    if fork >= |baseline| || fork >= |interrupted| { return Some(BadForkStep); }
    if baseline[..fork] != interrupted[..fork] {
      assert exists k :: 0 <= k < fork && baseline[..fork][k] != interrupted[..fork][k];
      return Some(PrefixDiverged);
    }
    assert forall k :: 0 <= k < fork ==> baseline[k] == baseline[..fork][k] == interrupted[..fork][k] == interrupted[k];
    var b, x := baseline[fork], interrupted[fork];
    if b.request != x.request { return Some(RequestsDiffer); }
    if x.action.kind != "ACTIVATE_EFFECT" { return Some(NotActivation); }
    if x.action.candidateIds != t.candidateIds { return Some(CandidatesDiffer); }
    if exists c :: c in t.candidateIds && c !in b.request.candidateIds { return Some(CandidateAbsent); }
    if b.action == x.action { return Some(SameAction); }
    var bad := CheckResponses(interrupted, fork, t.responses);
    if bad.Some? { return bad; }
    if fork + |t.responses| + 1 >= |interrupted| { return Some(NoRecovery); }
    NoBadResponse(interrupted, fork, t.responses);
    error := None;
  }

  lemma NoBadResponse(events: seq<Event>, fork: nat, responses: seq<Response>)
    requires ResponsesFollow(events, fork, responses)
    ensures !NotContiguous(events, fork, responses) && !Differs(events, fork, responses)
  {
    forall i: nat | i < |responses| ensures !FirstBad(events, fork, responses, i) {
      assert ResponsesFollow(events, fork, responses[..i + 1]);
    }
  }

  /** `build_strategy_interruption_lineage` accepts exactly the lineages, and names the first fault of
      anything else. */
  method BuildLineage(baseline: seq<Event>, interrupted: seq<Event>, baselineTraces: seq<Trace>, traces: seq<Trace>)
    returns (r: Result)
    ensures r.Validated? <==> IsLineage(baseline, interrupted, baselineTraces, traces)
    ensures r.Validated? ==>
      && r.fork == traces[0].activationStep
      && r.recovery == interrupted[r.fork + |traces[0].responses| + 1..]
    ensures r.Refused? ==> FirstFault(r.error, baseline, interrupted, baselineTraces, traces)
  {
    FaultlessLineage(baseline, interrupted, baselineTraces, traces);
    var error := FindFault(baseline, interrupted, baselineTraces, traces);
    if error.Some? { return Refused(error.value); }
    var fork: nat := traces[0].activationStep;
    r := Validated(fork, interrupted[fork + |traces[0].responses| + 1..]);
  }

  /** A validated lineage splits the interrupted history into the longest prefix it shares with
      the baseline, one activation the baseline could have chosen but did not, the recorded
      responses, and a non-empty recovery. */
  lemma LineageSplits(baseline: seq<Event>, interrupted: seq<Event>, baselineTraces: seq<Trace>, traces: seq<Trace>)
    requires IsLineage(baseline, interrupted, baselineTraces, traces)
    ensures var f, t := CommonPrefix(baseline, interrupted), traces[0];
      var n := |t.responses|;
      && f + n + 1 < |interrupted|
      && interrupted == baseline[..f] + [interrupted[f]] + interrupted[f + 1..f + 1 + n] + interrupted[f + 1 + n..]
      && interrupted[f].action.kind == "ACTIVATE_EFFECT"
      && (forall c :: c in interrupted[f].action.candidateIds ==> c in baseline[f].request.candidateIds)
      && (forall i :: 0 <= i < n ==>
            interrupted[f + 1..f + 1 + n][i].action.candidateIds == t.responses[i].candidateIds)
      && interrupted[f + 1 + n..] != []
  {
    var f, t := CommonPrefix(baseline, interrupted), traces[0];
    CommonPrefixIs(baseline, interrupted, f);
    Parts(interrupted, f, |t.responses|);
  }

  lemma {:induction false} Parts(events: seq<Event>, f: nat, n: nat)
    requires f + n < |events|
    ensures events == events[..f] + [events[f]] + events[f + 1..f + 1 + n] + events[f + 1 + n..]
  {
    assert events[f + 1..] == events[f + 1..f + 1 + n] + events[f + 1 + n..];
    assert events == events[..f] + [events[f]] + events[f + 1..];
  }
}
