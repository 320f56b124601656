/** Scripted replay: `prototype/scripted_core.py` and `build_prototype_route` of
    `prototype/runtime.py`. */
module ScriptedRoute {
  import opened Order
  import opened Wrappers

  /** A board state. `turn` is `None` unless the state holds an int >= 1 there; `chain` is the
      length of its chain list, if it has one. */
  datatype State = State(board: string, turn: Option<nat>, chain: Option<nat>)

  datatype Candidate = Candidate(id: string, actionKind: string)

  datatype Step = Step(
    player: int,
    candidates: seq<Candidate>,
    minSelections: int,
    maxSelections: int,
    allowDuplicates: bool,
    select: seq<string>,
    nextState: State,
    canStop: bool,
    stopReason: string)

  datatype Scenario = Scenario(initial: State, steps: seq<Step>)

  datatype Evaluation = Evaluation(success: bool, score: real, ties: seq<int>)

  /** The digests and the evaluator, left abstract. */
  datatype Oracle = Oracle(
    stateHash: State -> string,
    signature: (nat, Step, State) -> string,
    evaluate: State -> Evaluation)

  // ----- validate_scenario -----

  function Ids(candidates: seq<Candidate>): (r: seq<string>)
    ensures |r| == |candidates| && forall i :: 0 <= i < |r| ==> r[i] == candidates[i].id
  {
    seq(|candidates|, i requires 0 <= i < |candidates| => candidates[i].id)
  }

  ghost predicate ValidStep(supported: set<string>, s: Step) {
    && |s.candidates| > 0
    && (forall i, j :: 0 <= i < j < |s.candidates| ==> s.candidates[i].id != s.candidates[j].id)
    && (forall i :: 0 <= i < |s.candidates| ==> s.candidates[i].id != "" && s.candidates[i].actionKind in supported)
    && SelectsCandidates(s)
  }

  ghost predicate SelectsCandidates(s: Step) {
    |s.select| > 0 && forall x :: x in s.select ==> x in Ids(s.candidates)
  }

  lemma ValidSelects(supported: set<string>, sc: Scenario, k: nat)
    requires ValidScenario(supported, sc) && k < |sc.steps|
    ensures SelectsCandidates(sc.steps[k])
  {
    assert ValidStep(supported, sc.steps[k]);
  }

  ghost predicate ValidScenario(supported: set<string>, sc: Scenario) {
    && |sc.steps| > 0
    && (forall k :: 0 <= k < |sc.steps| ==> ValidStep(supported, sc.steps[k]))
    && sc.steps[|sc.steps| - 1].canStop
  }

  /** The candidate loop of `validate_scenario`, with its growing set of seen ids. */
  method ValidateStep(supported: set<string>, s: Step) returns (ok: bool)
    ensures ok <==> ValidStep(supported, s)
  {
    if |s.candidates| == 0 {
      return false;
    }
    var seen: set<string> := {};
    for i := 0 to |s.candidates|
      invariant forall x :: x in seen <==> exists k :: 0 <= k < i && s.candidates[k].id == x
      invariant forall k, l :: 0 <= k < l < i ==> s.candidates[k].id != s.candidates[l].id
      invariant forall k :: 0 <= k < i ==> s.candidates[k].id != "" && s.candidates[k].actionKind in supported
    {
      var candidate := s.candidates[i];
      if candidate.id == "" || candidate.id in seen || candidate.actionKind !in supported {
        return false;
      }
      seen := seen + {candidate.id};
    }
    forall x ensures x in seen <==> x in Ids(s.candidates) {
      if x in seen {
        var k :| 0 <= k < |s.candidates| && s.candidates[k].id == x;
        assert Ids(s.candidates)[k] == x;
      }
    }
    ok := |s.select| > 0 && forall x :: x in s.select ==> x in seen;
  }

  method ValidateScenario(supported: set<string>, sc: Scenario) returns (ok: bool)
    ensures ok <==> ValidScenario(supported, sc)
  {
    if |sc.steps| == 0 {
      return false;
    }
    for k := 0 to |sc.steps|
      invariant forall i :: 0 <= i < k ==> ValidStep(supported, sc.steps[i])
    {
      var good := ValidateStep(supported, sc.steps[k]);
      if !good {
        return false;
      }
    }
    ok := sc.steps[|sc.steps| - 1].canStop;
  }

  // ----- the session -----

  datatype Transition = Transition(before: State, after: State, canStop: bool, stopReason: string)

  datatype Action = Action(kind: string, selected: seq<string>, signature: string)

  function StateAt(sc: Scenario, k: nat): State
    requires k <= |sc.steps|
  {
    if k == 0 then sc.initial else sc.steps[k - 1].nextState
  }

  function SignatureAt(o: Oracle, sc: Scenario, k: nat): Option<string>
    requires k <= |sc.steps|
  {
    if k == |sc.steps| then None else Some(o.signature(k, sc.steps[k], StateAt(sc, k)))
  }

  /** The kinds of the selected candidates. */
  function Kinds(s: Step): set<string> {
    set c | c in s.candidates && c.id in s.select :: c.actionKind
  }

  class ScriptedCoreSession {
    const oracle: Oracle
    const scenario: Scenario
    var stepIndex: nat
    var state: State

    ghost predicate Valid()
      reads this
    {
      stepIndex <= |scenario.steps| && state == StateAt(scenario, stepIndex)
    }

    constructor (oracle: Oracle, scenario: Scenario)
      ensures Valid() && stepIndex == 0
      ensures this.oracle == oracle && this.scenario == scenario
    {
      this.oracle, this.scenario := oracle, scenario;
      stepIndex, state := 0, scenario.initial;
    }

    /** The signature of the pending request, or `None` when the script is exhausted. */
    function NextRequest(): (r: Option<string>)
      reads this
      requires Valid()
      ensures r == SignatureAt(oracle, scenario, stepIndex)
    {
      if stepIndex == |scenario.steps| then None
      else Some(oracle.signature(stepIndex, scenario.steps[stepIndex], state))
    }

    /** `apply`; `None` stands for its errors. */
    method Apply(action: Action) returns (t: Option<Transition>)
      requires Valid()
      modifies this
      ensures Valid()
      ensures t.Some? <==>
        && old(stepIndex) < |scenario.steps|
        && SignatureAt(oracle, scenario, old(stepIndex)) == Some(action.signature)
        && action.selected == scenario.steps[old(stepIndex)].select
        && Kinds(scenario.steps[old(stepIndex)]) == {action.kind}
      ensures t.None? ==> stepIndex == old(stepIndex) && state == old(state)
      ensures t.Some? ==>
        && stepIndex == old(stepIndex) + 1
        && t.value.before == StateAt(scenario, old(stepIndex))
        && t.value.after == StateAt(scenario, old(stepIndex) + 1)
        && t.value.canStop == scenario.steps[old(stepIndex)].canStop
        && t.value.stopReason == scenario.steps[old(stepIndex)].stopReason
    {
      var request := NextRequest();
      if request.None? || action.signature != request.value {
        return None;
      }
      var step := scenario.steps[stepIndex];
      if action.selected != step.select || Kinds(step) != {action.kind} {
        return None;
      }
      var before := state;
      state := step.nextState;
      stepIndex := stepIndex + 1;
      t := Some(Transition(before, state, step.canStop, step.stopReason));
    }
  }

  // ----- the route -----

  datatype Event = Event(
    step: nat,
    signature: string,
    action: Action,
    hashBefore: string,
    hashAfter: string,
    nextSignature: Option<string>,
    turn: Option<nat>,
    turnActionIndex: Option<nat>,
    chainIndex: Option<nat>)

  datatype Checkpoint = Checkpoint(
    step: nat, stateHash: string, evaluation: Evaluation, canStop: bool, stopReason: string)

  datatype Route = Route(events: seq<Event>, checkpoints: seq<Checkpoint>, peak: Checkpoint, terminal: Checkpoint)

  datatype BuildResult =
    | InvalidScenario
    | Built(route: Route)
    | InvalidResponse(step: nat)
    | MixedKinds(step: nat)
    | NoCheckpoints
    | NoLegalStop

  /** `validate_decision_response` for the scripted selection. */
  ghost predicate GoodResponse(s: Step) {
    && s.minSelections <= |s.select| <= s.maxSelections
    && (s.allowDuplicates || forall i, j :: 0 <= i < j < |s.select| ==> s.select[i] != s.select[j])
    && forall x :: x in s.select ==> x in Ids(s.candidates)
  }

  method CheckResponse(s: Step) returns (ok: bool)
    ensures ok <==> GoodResponse(s)
  {
    ok := && s.minSelections <= |s.select| <= s.maxSelections
          && (s.allowDuplicates || forall i, j :: 0 <= i < j < |s.select| ==> s.select[i] != s.select[j])
          && forall x :: x in s.select ==> x in Ids(s.candidates);
  }

  /** How many of the first `k` steps were taken in turn `turn`. */
  function EarlierInTurn(sc: Scenario, turn: nat, k: nat): nat
    requires k <= |sc.steps|
  {
    if k == 0 then 0
    else EarlierInTurn(sc, turn, k - 1) + (if StateAt(sc, k - 1).turn == Some(turn) then 1 else 0)
  }

  /** What the k-th event must be, straight from the scenario. */
  function EventAt(o: Oracle, sc: Scenario, k: nat): Event
    requires k < |sc.steps|
  {
    var before, after, step := StateAt(sc, k), StateAt(sc, k + 1), sc.steps[k];
    Event(k, SignatureAt(o, sc, k).value,
          Action(KindOf(step), step.select, SignatureAt(o, sc, k).value),
          o.stateHash(before), o.stateHash(after), SignatureAt(o, sc, k + 1), before.turn,
          if before.turn.Some? then Some(EarlierInTurn(sc, before.turn.value, k)) else None,
          before.chain)
  }

  /** The kind of the first selected candidate. */
  function KindOf(s: Step): string {
    if |s.select| == 0 then "" else KindFrom(s.candidates, s.select[0])
  }

  function KindFrom(candidates: seq<Candidate>, id: string): string {
    if |candidates| == 0 then ""
    else if candidates[0].id == id then candidates[0].actionKind
    else KindFrom(candidates[1..], id)
  }

  lemma {:induction false} KindFromMember(candidates: seq<Candidate>, id: string)
    requires id in Ids(candidates)
    ensures exists c :: c in candidates && c.id == id && c.actionKind == KindFrom(candidates, id)
  {
    if candidates[0].id == id {
      assert candidates[0] in candidates;
    } else {
      var i :| 0 <= i < |candidates| && Ids(candidates)[i] == id;
      assert Ids(candidates[1..])[i - 1] == id;
      KindFromMember(candidates[1..], id);
      var c :| c in candidates[1..] && c.id == id && c.actionKind == KindFrom(candidates[1..], id);
      assert candidates == [candidates[0]] + candidates[1..];
      assert c in candidates;
    }
  }

  lemma KindIsTheKind(s: Step)
    requires |s.select| > 0 && s.select[0] in Ids(s.candidates)
    ensures KindOf(s) in Kinds(s)
    ensures |Kinds(s)| == 1 ==> Kinds(s) == {KindOf(s)}
  {
    KindFromMember(s.candidates, s.select[0]);
    var c :| c in s.candidates && c.id == s.select[0] && c.actionKind == KindFrom(s.candidates, s.select[0]);
    assert c.id in s.select;
    if |Kinds(s)| == 1 {
      assert |Kinds(s) - {KindOf(s)}| == 0;
    }
  }

  function CheckpointAt(o: Oracle, sc: Scenario, k: nat): Checkpoint
    requires k < |sc.steps|
  {
    var after := StateAt(sc, k + 1);
    Checkpoint(k, o.stateHash(after), o.evaluate(after), sc.steps[k].canStop,
               if sc.steps[k].canStop then sc.steps[k].stopReason else "not_legal_stop")
  }

  // ----- which checkpoint is the peak -----

  /** Python's `<` on int tuples. */
  predicate TupleLess(a: seq<int>, b: seq<int>) {
    |b| > 0 && (|a| == 0 || a[0] < b[0] || (a[0] == b[0] && TupleLess(a[1..], b[1..])))
  }

  lemma {:induction false} TupleLessTotal(a: seq<int>, b: seq<int>)
    ensures TupleLess(a, b) || a == b || TupleLess(b, a)
  {
    if |a| > 0 && |b| > 0 && a[0] == b[0] {
      TupleLessTotal(a[1..], b[1..]);
      assert a == [a[0]] + a[1..] && b == [b[0]] + b[1..];
    }
  }

  lemma {:induction false} TupleLessAsymmetric(a: seq<int>, b: seq<int>)
    requires TupleLess(a, b)
    ensures a != b && !TupleLess(b, a)
  {
    if |a| > 0 && a[0] == b[0] { TupleLessAsymmetric(a[1..], b[1..]); }
  }

  lemma {:induction false} TupleLessTransitive(a: seq<int>, b: seq<int>, c: seq<int>)
    requires TupleLess(a, b) && TupleLess(b, c)
    ensures TupleLess(a, c)
  {
    if |a| > 0 && a[0] == b[0] && b[0] == c[0] { TupleLessTransitive(a[1..], b[1..], c[1..]); }
  }

  predicate KeyLess(a: Evaluation, b: Evaluation) {
    if a.success != b.success then b.success
    else if a.score != b.score then a.score < b.score
    else TupleLess(a.ties, b.ties)
  }

  /** `_is_better_peak`: success, score and tie vector, then the earlier step, then the hash. */
  predicate Better(candidate: Checkpoint, current: Checkpoint) {
    if candidate.evaluation != current.evaluation then KeyLess(current.evaluation, candidate.evaluation)
    else if candidate.step != current.step then candidate.step < current.step
    else Less(candidate.stateHash, current.stateHash)
  }

  lemma BetterTotal(a: Checkpoint, b: Checkpoint)
    requires a.step != b.step
    ensures Better(a, b) <==> !Better(b, a)
  {
    var x, y := a.evaluation.ties, b.evaluation.ties;
    TupleLessTotal(x, y);
    if TupleLess(x, y) { TupleLessAsymmetric(x, y); }
    if TupleLess(y, x) { TupleLessAsymmetric(y, x); }
  }

  lemma KeyLessTransitive(a: Evaluation, b: Evaluation, c: Evaluation)
    requires KeyLess(a, b) && KeyLess(b, c)
    ensures KeyLess(a, c) && a != c
  {
    if a.success == b.success == c.success && a.score == b.score == c.score {
      TupleLessTransitive(a.ties, b.ties, c.ties);
      TupleLessAsymmetric(a.ties, c.ties);
    }
  }

  lemma BetterTransitive(a: Checkpoint, b: Checkpoint, c: Checkpoint)
    requires Better(a, b) && Better(b, c)
    ensures Better(a, c)
  {
    if a.evaluation != b.evaluation && b.evaluation != c.evaluation {
      KeyLessTransitive(c.evaluation, b.evaluation, a.evaluation);
    } else if a.evaluation == b.evaluation == c.evaluation && a.step == b.step == c.step {
      LessTransitive(a.stateHash, b.stateHash, c.stateHash);
    }
  }

  /** `peak` is a legal stop, and better than every other one. */
  ghost predicate IsPeak(peak: Checkpoint, checkpoints: seq<Checkpoint>) {
    && peak in checkpoints && peak.canStop
    && forall i ::
         0 <= i < |checkpoints| && checkpoints[i].canStop && checkpoints[i] != peak ==> Better(peak, checkpoints[i])
  }

  /** The peak loop; `None` when there is no legal stop. */
  method FindPeak(checkpoints: seq<Checkpoint>) returns (peak: Option<Checkpoint>)
    requires forall i :: 0 <= i < |checkpoints| ==> checkpoints[i].step == i
    ensures peak.None? <==> forall i :: 0 <= i < |checkpoints| ==> !checkpoints[i].canStop
    ensures peak.Some? ==> IsPeak(peak.value, checkpoints)
  {
    peak := None;
    for k := 0 to |checkpoints|
      invariant peak.None? <==> forall i :: 0 <= i < k ==> !checkpoints[i].canStop
      invariant peak.Some? ==> IsPeak(peak.value, checkpoints[..k]) && peak.value.step < k
    {
      var candidate := checkpoints[k];
      assert checkpoints[..k + 1] == checkpoints[..k] + [candidate];
      if candidate.canStop {
        if peak.None? {
          peak := Some(candidate);
        } else {
          PeakStep(peak.value, candidate, checkpoints[..k]);
          if Better(candidate, peak.value) {
            peak := Some(candidate);
          }
        }
      }
    }
    assert checkpoints[..|checkpoints|] == checkpoints;
  }

  lemma PeakStep(peak: Checkpoint, candidate: Checkpoint, before: seq<Checkpoint>)
    requires IsPeak(peak, before) && candidate.canStop && peak.step < candidate.step
    ensures IsPeak(if Better(candidate, peak) then candidate else peak, before + [candidate])
  {
    BetterTotal(candidate, peak);
    var all := before + [candidate];
    var winner := if Better(candidate, peak) then candidate else peak;
    forall i | 0 <= i < |all| && all[i].canStop && all[i] != winner ensures Better(winner, all[i]) {
      if i < |before| && winner == candidate && before[i] != peak {
        BetterTransitive(candidate, peak, before[i]);
      }
    }
  }

  // ----- build_prototype_route -----

  function CountTurn(events: seq<Event>, turn: Option<nat>): nat {
    if |events| == 0 then 0
    else CountTurn(events[..|events| - 1], turn) + (if events[|events| - 1].turn == turn then 1 else 0)
  }

  /** The events of the first `n` steps. */
  function Events(o: Oracle, sc: Scenario, n: nat): (r: seq<Event>)
    requires n <= |sc.steps|
    ensures |r| == n
  {
    if n == 0 then [] else Events(o, sc, n - 1) + [EventAt(o, sc, n - 1)]
  }

  function Checkpoints(o: Oracle, sc: Scenario, n: nat): (r: seq<Checkpoint>)
    requires n <= |sc.steps|
    ensures |r| == n
  {
    if n == 0 then [] else Checkpoints(o, sc, n - 1) + [CheckpointAt(o, sc, n - 1)]
  }

  ghost predicate EventsSoFar(o: Oracle, sc: Scenario, events: seq<Event>) {
    |events| <= |sc.steps| && forall k :: 0 <= k < |events| ==> events[k] == EventAt(o, sc, k)
  }

  ghost predicate CheckpointsSoFar(o: Oracle, sc: Scenario, checkpoints: seq<Checkpoint>) {
    |checkpoints| <= |sc.steps| && forall k :: 0 <= k < |checkpoints| ==> checkpoints[k] == CheckpointAt(o, sc, k)
  }

  lemma EventsExtend(o: Oracle, sc: Scenario, events: seq<Event>)
    requires EventsSoFar(o, sc, events) && |events| < |sc.steps|
    ensures EventsSoFar(o, sc, events + [EventAt(o, sc, |events|)])
  {}

  lemma CheckpointsExtend(o: Oracle, sc: Scenario, checkpoints: seq<Checkpoint>)
    requires CheckpointsSoFar(o, sc, checkpoints) && |checkpoints| < |sc.steps|
    ensures CheckpointsSoFar(o, sc, checkpoints + [CheckpointAt(o, sc, |checkpoints|)])
  {}

  lemma {:induction false} EventsAt(o: Oracle, sc: Scenario, n: nat)
    requires n <= |sc.steps|
    ensures EventsSoFar(o, sc, Events(o, sc, n))
  {
    if n > 0 {
      EventsAt(o, sc, n - 1);
      EventsExtend(o, sc, Events(o, sc, n - 1));
    }
  }

  lemma {:induction false} CheckpointsAt(o: Oracle, sc: Scenario, n: nat)
    requires n <= |sc.steps|
    ensures CheckpointsSoFar(o, sc, Checkpoints(o, sc, n))
  {
    if n > 0 {
      CheckpointsAt(o, sc, n - 1);
      CheckpointsExtend(o, sc, Checkpoints(o, sc, n - 1));
    }
  }

  lemma {:induction false} CountTurnIsEarlier(o: Oracle, sc: Scenario, events: seq<Event>, turn: nat)
    requires EventsSoFar(o, sc, events)
    ensures CountTurn(events, Some(turn)) == EarlierInTurn(sc, turn, |events|)
  {
    if |events| > 0 { CountTurnIsEarlier(o, sc, events[..|events| - 1], turn); }
  }

  /** What the k-th step raises, if it does. */
  ghost function StepError(sc: Scenario, k: nat): Option<BuildResult>
    requires k < |sc.steps|
  {
    if !GoodResponse(sc.steps[k]) then Some(InvalidResponse(k))
    else if |Kinds(sc.steps[k])| != 1 then Some(MixedKinds(k))
    else None
  }

  /** One turn of the loop: answer the pending request from the script, apply the action, and
      record event and checkpoint. The session never refuses the action. */
  method Advance(session: ScriptedCoreSession, events: seq<Event>)
    returns (error: Option<BuildResult>, event: Option<Event>, checkpoint: Option<Checkpoint>)
    requires session.Valid() && session.stepIndex < |session.scenario.steps|
    requires SelectsCandidates(session.scenario.steps[session.stepIndex])
    requires events == Events(session.oracle, session.scenario, session.stepIndex)
    modifies session
    ensures session.Valid()
    ensures error == StepError(session.scenario, old(session.stepIndex))
    ensures error.None? ==>
      && session.stepIndex == old(session.stepIndex) + 1
      && event == Some(EventAt(session.oracle, session.scenario, old(session.stepIndex)))
      && checkpoint == Some(CheckpointAt(session.oracle, session.scenario, old(session.stepIndex)))
  {
    var k := session.stepIndex;
    var step := session.scenario.steps[k];
    var request := session.NextRequest().value;
    var good := CheckResponse(step);
    if !good {
      return Some(InvalidResponse(k)), None, None;
    }
    if |Kinds(step)| != 1 {
      return Some(MixedKinds(k)), None, None;
    }
    KindIsTheKind(step);
    var action := Action(KindOf(step), step.select, request);
    var t := session.Apply(action);
    if t.None? {
      assert false;
    }
    var before, after := t.value.before, t.value.after;
    EventsAt(session.oracle, session.scenario, k);
    if before.turn.Some? {
      CountTurnIsEarlier(session.oracle, session.scenario, events, before.turn.value);
    }
    error := None;
    event := Some(Event(k, request, action, session.oracle.stateHash(before), session.oracle.stateHash(after),
                        session.NextRequest(), before.turn,
                        if before.turn.Some? then Some(CountTurn(events, before.turn)) else None, before.chain));
    checkpoint := Some(Checkpoint(k, session.oracle.stateHash(after), session.oracle.evaluate(after), t.value.canStop,
                                  if t.value.canStop then t.value.stopReason else "not_legal_stop"));
  }

  /** None of the first `n` steps raises. */
  ghost predicate CleanUpto(sc: Scenario, n: nat)
    requires n <= |sc.steps|
  {
    n == 0 || (StepError(sc, n - 1).None? && CleanUpto(sc, n - 1))
  }

  /** The first `n` steps are recorded, and none of them raises. */
  ghost predicate Recorded(o: Oracle, sc: Scenario, events: seq<Event>, checkpoints: seq<Checkpoint>, n: nat) {
    && n <= |sc.steps| && CleanUpto(sc, n)
    && events == Events(o, sc, n) && checkpoints == Checkpoints(o, sc, n)
  }

  lemma RecordNext(o: Oracle, sc: Scenario, events: seq<Event>, checkpoints: seq<Checkpoint>, n: nat)
    requires n < |sc.steps| && Recorded(o, sc, events, checkpoints, n) && StepError(sc, n).None?
    ensures Recorded(o, sc, events + [EventAt(o, sc, n)], checkpoints + [CheckpointAt(o, sc, n)], n + 1)
  {}

  /** The loop: it stops at the first step that raises, or consumes the whole script. */
  method RunScript(supported: set<string>, o: Oracle, sc: Scenario)
    returns (error: Option<BuildResult>, events: seq<Event>, checkpoints: seq<Checkpoint>)
    requires ValidScenario(supported, sc)
    ensures Recorded(o, sc, events, checkpoints, |events|)
    ensures if error.None? then |events| == |sc.steps|
            else |events| < |sc.steps| && error == StepError(sc, |events|)
  {
    var session := new ScriptedCoreSession(o, sc);
    error, events, checkpoints := None, [], [];
    while session.stepIndex < |sc.steps|
      invariant session.Valid() && session.oracle == o && session.scenario == sc
      invariant Recorded(o, sc, events, checkpoints, session.stepIndex)
      invariant error.None?
      decreases |sc.steps| - session.stepIndex
    {
      ghost var k := session.stepIndex;
      ValidSelects(supported, sc, k);
      var event, checkpoint;
      error, event, checkpoint := Advance(session, events);
      if error.Some? {
        return;
      }
      RecordNext(o, sc, events, checkpoints, k);
      events := events + [event.value];
      checkpoints := checkpoints + [checkpoint.value];
    }
  }

  ghost predicate FirstError(sc: Scenario, r: BuildResult) {
    exists k :: 0 <= k < |sc.steps| && StepError(sc, k) == Some(r) && CleanUpto(sc, k)
  }

  /** `build_prototype_route`. A valid scenario builds exactly when no step raises, that is, when
      every selection is an acceptable response of one action kind; otherwise the first step
      that raises decides. A built route has consumed every script step, each event and
      checkpoint is the one its step prescribes, and the peak is the best legal stop. */
  method BuildRoute(supported: set<string>, o: Oracle, sc: Scenario) returns (r: BuildResult)
    ensures r.InvalidScenario? <==> !ValidScenario(supported, sc)
    ensures r.Built? || r.InvalidScenario? || FirstError(sc, r)
    ensures r.Built? ==>
      && CleanUpto(sc, |sc.steps|)
      && r.route.events == Events(o, sc, |sc.steps|)
      && r.route.checkpoints == Checkpoints(o, sc, |sc.steps|)
      && IsPeak(r.route.peak, r.route.checkpoints)
      && r.route.terminal == CheckpointAt(o, sc, |sc.steps| - 1)
    ensures Explained(r, supported, o, sc)
  {
    var valid := ValidateScenario(supported, sc);
    if !valid {
      return InvalidScenario;
    }
    var error, events, checkpoints := RunScript(supported, o, sc);
    if error.Some? {
      ErrorMeaning(supported, sc, |events|);
      return error.value;
    }
    CheckpointsAt(o, sc, |sc.steps|);
    if |checkpoints| == 0 {
      return NoCheckpoints;
    }
    var last := checkpoints[|checkpoints| - 1];
    assert last == CheckpointAt(o, sc, |sc.steps| - 1) && last.canStop;
    var peak := FindPeak(checkpoints);
    if peak.None? {
      return NoLegalStop;
    }
    r := Built(Route(events, checkpoints, peak.value, last));
    BuiltMeaning(supported, o, sc, r.route);
  }

  // ----- the same, said of the scenario alone -----

  /** The boards the scenario passes through. */
  ghost predicate Boards(states: seq<State>, sc: Scenario) {
    && |states| == |sc.steps| + 1 && states[0] == sc.initial
    && forall k :: 0 <= k < |sc.steps| ==> states[k + 1] == sc.steps[k].nextState
  }

  ghost predicate Selected(c: Candidate, s: Step) {
    c in s.candidates && c.id in s.select
  }

  /** The selection is a legal answer and of one kind. */
  ghost predicate Playable(s: Step) {
    GoodResponse(s) && forall c, d :: Selected(c, s) && Selected(d, s) ==> c.actionKind == d.actionKind
  }

  /** Event `k` answers the k-th request on board `k`, and counts the events before it in its turn. */
  ghost predicate EventOf(e: Event, k: nat, events: seq<Event>, o: Oracle, sc: Scenario, states: seq<State>)
    requires k < |sc.steps| && |states| == |sc.steps| + 1 && k < |events|
  {
    && e.step == k && e.signature == o.signature(k, sc.steps[k], states[k])
    && e.action.selected == sc.steps[k].select && e.action.signature == e.signature
    && (forall c :: Selected(c, sc.steps[k]) ==> e.action.kind == c.actionKind)
    && e.hashBefore == o.stateHash(states[k]) && e.hashAfter == o.stateHash(states[k + 1])
    && e.nextSignature == (if k + 1 < |sc.steps| then Some(o.signature(k + 1, sc.steps[k + 1], states[k + 1]))
                           else None)
    && e.turn == states[k].turn && e.chainIndex == states[k].chain
    && (e.turn.None? ==> e.turnActionIndex.None?)
    && (e.turn.Some? ==> e.turnActionIndex == Some(|Earlier(events, e.turn, k)|))
  }

  ghost predicate CheckpointOf(c: Checkpoint, k: nat, o: Oracle, sc: Scenario, states: seq<State>)
    requires k < |sc.steps| && |states| == |sc.steps| + 1
  {
    && c.step == k && c.stateHash == o.stateHash(states[k + 1]) && c.evaluation == o.evaluate(states[k + 1])
    && c.canStop == sc.steps[k].canStop
    && c.stopReason == (if c.canStop then sc.steps[k].stopReason else "not_legal_stop")
  }

  /** At the first place where they differ `a` is less, or `a` is the beginning of `b`. */
  ghost predicate LexBelow(a: seq<int>, b: seq<int>) {
    exists k :: 0 <= k <= |a| && k <= |b| && a[..k] == b[..k]
      && (if k < |a| && k < |b| then a[k] < b[k] else k == |a| < |b|)
  }

  /** No legal board succeeds where the peak does not; none of equal success scores higher; none of equal
      score has higher ties; and of equals the peak is the first. */
  ghost predicate Peaks(peak: Checkpoint, c: Checkpoint) {
    && (c.evaluation.success ==> peak.evaluation.success)
    && (c.evaluation.success == peak.evaluation.success ==>
          && c.evaluation.score <= peak.evaluation.score
          && (c.evaluation.score == peak.evaluation.score ==>
                || LexBelow(c.evaluation.ties, peak.evaluation.ties)
                || (c.evaluation.ties == peak.evaluation.ties && peak.step <= c.step)))
  }

  ghost predicate Replays(route: Route, o: Oracle, sc: Scenario, states: seq<State>) {
    && Boards(states, sc) && |sc.steps| > 0 && |route.events| == |route.checkpoints| == |sc.steps|
    && (forall k :: 0 <= k < |sc.steps| ==> EventOf(route.events[k], k, route.events, o, sc, states))
    && (forall k :: 0 <= k < |sc.steps| ==> CheckpointOf(route.checkpoints[k], k, o, sc, states))
    && route.terminal == route.checkpoints[|sc.steps| - 1]
    && Tops(route.peak, route.checkpoints)
  }

  ghost predicate Tops(peak: Checkpoint, checkpoints: seq<Checkpoint>) {
    peak in checkpoints && peak.canStop && forall c :: c in checkpoints && c.canStop ==> Peaks(peak, c)
  }

  /** A built route replays the whole script and ends in its peak and terminal board; an error names the
      first step that is not playable and what is wrong with it. */
  ghost predicate Explained(r: BuildResult, supported: set<string>, o: Oracle, sc: Scenario) {
    match r
    case InvalidScenario => !ValidScenario(supported, sc)
    case Built(route) =>
      && ValidScenario(supported, sc) && (forall k :: 0 <= k < |sc.steps| ==> Playable(sc.steps[k]))
      && exists states :: Replays(route, o, sc, states)
    case InvalidResponse(k) => ValidScenario(supported, sc) && FirstUnplayable(sc, k) && !GoodResponse(sc.steps[k])
    case MixedKinds(k) => ValidScenario(supported, sc) && FirstUnplayable(sc, k) && GoodResponse(sc.steps[k])
    case NoCheckpoints => false
    case NoLegalStop => false
  }

  ghost predicate FirstUnplayable(sc: Scenario, k: nat) {
    && k < |sc.steps| && !Playable(sc.steps[k])
    && forall j :: 0 <= j < k ==> Playable(sc.steps[j])
  }

  lemma KindsOne(s: Step)
    requires SelectsCandidates(s)
    ensures |Kinds(s)| == 1 <==> forall c, d :: Selected(c, s) && Selected(d, s) ==> c.actionKind == d.actionKind
    ensures |Kinds(s)| == 1 ==> forall c :: Selected(c, s) ==> c.actionKind == KindOf(s)
  {
    KindIsTheKind(s);
    if |Kinds(s)| == 1 {
      forall c | Selected(c, s) ensures c.actionKind == KindOf(s) { assert c.actionKind in Kinds(s); }
    }
    if forall c, d :: Selected(c, s) && Selected(d, s) ==> c.actionKind == d.actionKind {
      assert Kinds(s) == {KindOf(s)};
    }
  }

  lemma StepErrorMeaning(sc: Scenario, k: nat)
    requires k < |sc.steps| && SelectsCandidates(sc.steps[k])
    ensures StepError(sc, k).None? <==> Playable(sc.steps[k])
    ensures StepError(sc, k) == Some(InvalidResponse(k)) <==> !GoodResponse(sc.steps[k])
    ensures StepError(sc, k) == Some(MixedKinds(k)) <==> GoodResponse(sc.steps[k]) && !Playable(sc.steps[k])
  {
    KindsOne(sc.steps[k]);
  }

  lemma CleanMeaning(supported: set<string>, sc: Scenario, n: nat)
    requires ValidScenario(supported, sc) && n <= |sc.steps| && CleanUpto(sc, n)
    ensures forall k :: 0 <= k < n ==> Playable(sc.steps[k])
  {
    forall k | 0 <= k < n ensures Playable(sc.steps[k]) {
      CleanEach(sc, n, k);
      StepPlays(supported, sc, k);
    }
  }

  lemma {:induction false} CleanEach(sc: Scenario, n: nat, k: nat)
    requires k < n <= |sc.steps| && CleanUpto(sc, n)
    ensures StepError(sc, k).None?
  {
    if k < n - 1 { CleanEach(sc, n - 1, k); }
  }

  lemma StepPlays(supported: set<string>, sc: Scenario, k: nat)
    requires ValidScenario(supported, sc) && k < |sc.steps| && StepError(sc, k).None?
    ensures Playable(sc.steps[k])
  {
    ValidSelects(supported, sc, k);
    StepErrorMeaning(sc, k);
  }

  lemma ErrorMeaning(supported: set<string>, sc: Scenario, k: nat)
    requires ValidScenario(supported, sc) && k < |sc.steps| && CleanUpto(sc, k) && StepError(sc, k).Some?
    ensures FirstUnplayable(sc, k)
    ensures StepError(sc, k).value ==
      if GoodResponse(sc.steps[k]) then MixedKinds(k) else InvalidResponse(k)
  {
    CleanMeaning(supported, sc, k);
    ValidSelects(supported, sc, k);
    StepErrorMeaning(sc, k);
  }

  lemma {:induction false} LexMeaning(a: seq<int>, b: seq<int>)
    ensures TupleLess(a, b) ==> LexBelow(a, b)
  {
    if TupleLess(a, b) {
      if |a| == 0 || a[0] < b[0] {
        assert a[..0] == b[..0];
      } else {
        LexMeaning(a[1..], b[1..]);
        var k :| 0 <= k <= |a[1..]| && k <= |b[1..]| && a[1..][..k] == b[1..][..k]
          && (if k < |a[1..]| && k < |b[1..]| then a[1..][k] < b[1..][k] else k == |a[1..]| < |b[1..]|);
        assert a[..k + 1] == [a[0]] + a[1..][..k] && b[..k + 1] == [b[0]] + b[1..][..k];
      }
    }
  }

  lemma BetterPeaks(peak: Checkpoint, c: Checkpoint)
    requires peak == c || Better(peak, c)
    ensures Peaks(peak, c)
  {
    LexMeaning(c.evaluation.ties, peak.evaluation.ties);
  }

  function States(sc: Scenario): (r: seq<State>)
    ensures |r| == |sc.steps| + 1 && forall k :: 0 <= k < |r| ==> r[k] == StateAt(sc, k)
  {
    seq(|sc.steps| + 1, k requires 0 <= k <= |sc.steps| => StateAt(sc, k))
  }

  ghost function Earlier(events: seq<Event>, turn: Option<nat>, k: nat): set<int>
    requires k <= |events|
  {
    set j | 0 <= j < k && events[j].turn == turn
  }

  lemma {:induction false} EarlierMore(events: seq<Event>, turn: Option<nat>, k: nat)
    requires k < |events|
    ensures |Earlier(events, turn, k + 1)|
            == |Earlier(events, turn, k)| + if events[k].turn == turn then 1 else 0
  {
    if events[k].turn == turn {
      assert Earlier(events, turn, k + 1) == Earlier(events, turn, k) + {k};
    } else {
      forall j ensures j in Earlier(events, turn, k + 1) <==> j in Earlier(events, turn, k) {}
    }
  }

  lemma {:induction false} EarlierCounted(sc: Scenario, events: seq<Event>, turn: nat, k: nat)
    requires k <= |events| == |sc.steps|
    requires forall j :: 0 <= j < |events| ==> events[j].turn == StateAt(sc, j).turn
    ensures EarlierInTurn(sc, turn, k) == |Earlier(events, Some(turn), k)|
  {
    if k > 0 {
      EarlierCounted(sc, events, turn, k - 1);
      EarlierMore(events, Some(turn), k - 1);
    } else {
      assert Earlier(events, Some(turn), 0) == {};
    }
  }

  lemma EventMeaning(o: Oracle, sc: Scenario, events: seq<Event>, k: nat)
    requires EventsSoFar(o, sc, events) && k < |events| == |sc.steps|
    requires SelectsCandidates(sc.steps[k]) && Playable(sc.steps[k])
    ensures EventOf(events[k], k, events, o, sc, States(sc))
  {
    KindsOne(sc.steps[k]);
    var states := States(sc);
    if states[k].turn.Some? { EarlierCounted(sc, events, states[k].turn.value, k); }
  }

  lemma PeakTops(peak: Checkpoint, checkpoints: seq<Checkpoint>)
    requires IsPeak(peak, checkpoints)
    ensures Tops(peak, checkpoints)
  {
    forall c | c in checkpoints && c.canStop ensures Peaks(peak, c) {
      var i :| 0 <= i < |checkpoints| && checkpoints[i] == c;
      BetterPeaks(peak, c);
    }
  }

  lemma BuiltMeaning(supported: set<string>, o: Oracle, sc: Scenario, route: Route)
    requires ValidScenario(supported, sc) && CleanUpto(sc, |sc.steps|)
    requires route.events == Events(o, sc, |sc.steps|) && route.checkpoints == Checkpoints(o, sc, |sc.steps|)
    requires IsPeak(route.peak, route.checkpoints) && route.terminal == CheckpointAt(o, sc, |sc.steps| - 1)
    ensures Explained(Built(route), supported, o, sc)
  {
    CleanMeaning(supported, sc, |sc.steps|);
    EventsMeaning(supported, o, sc, route.events);
    CheckpointsMeaning(o, sc, route.checkpoints);
    PeakTops(route.peak, route.checkpoints);
    assert Replays(route, o, sc, States(sc));
  }

  lemma EventsMeaning(supported: set<string>, o: Oracle, sc: Scenario, events: seq<Event>)
    requires ValidScenario(supported, sc) && events == Events(o, sc, |sc.steps|)
    requires forall k :: 0 <= k < |sc.steps| ==> Playable(sc.steps[k])
    ensures forall k :: 0 <= k < |sc.steps| ==> EventOf(events[k], k, events, o, sc, States(sc))
  {
    EventsAt(o, sc, |sc.steps|);
    forall k | 0 <= k < |sc.steps| ensures EventOf(events[k], k, events, o, sc, States(sc)) {
      ValidSelects(supported, sc, k);
      EventMeaning(o, sc, events, k);
    }
  }

  lemma CheckpointsMeaning(o: Oracle, sc: Scenario, checkpoints: seq<Checkpoint>)
    requires checkpoints == Checkpoints(o, sc, |sc.steps|)
    ensures |sc.steps| > 0 ==> checkpoints[|sc.steps| - 1] == CheckpointAt(o, sc, |sc.steps| - 1)
    ensures forall k :: 0 <= k < |sc.steps| ==> CheckpointOf(checkpoints[k], k, o, sc, States(sc))
  {
    CheckpointsAt(o, sc, |sc.steps|);
    forall k | 0 <= k < |sc.steps| ensures CheckpointOf(checkpoints[k], k, o, sc, States(sc)) {
      assert checkpoints[k] == CheckpointAt(o, sc, k);
    }
  }

  // ----- what a built history promises -----

  /** A gap-free chain from the initial state, each event announcing the next request. */
  lemma HistoryChains(o: Oracle, sc: Scenario, events: seq<Event>)
    requires |sc.steps| > 0 && events == Events(o, sc, |sc.steps|)
    ensures events[0].hashBefore == o.stateHash(sc.initial)
    ensures forall k :: 0 <= k < |events| - 1 ==>
      && events[k].hashAfter == events[k + 1].hashBefore
      && events[k].nextSignature == Some(events[k + 1].signature)
    ensures events[|events| - 1].nextSignature.None?
  {
    EventsAt(o, sc, |sc.steps|);
    forall k | 0 <= k < |events| - 1
      ensures events[k].hashAfter == events[k + 1].hashBefore
      ensures events[k].nextSignature == Some(events[k + 1].signature)
    {
      assert events[k] == EventAt(o, sc, k) && events[k + 1] == EventAt(o, sc, k + 1);
    }
  }

  function InTurn(events: seq<Event>, turn: nat): (r: seq<Event>)
    ensures forall e :: e in r ==> e.turn == Some(turn)
  {
    if |events| == 0 then []
    else
      var last := events[|events| - 1];
      InTurn(events[..|events| - 1], turn) + (if last.turn == Some(turn) then [last] else [])
  }

  /** Within each known turn the action indices are 0, 1, 2, ... in order. */
  lemma {:induction false} TurnIndicesCount(o: Oracle, sc: Scenario, events: seq<Event>, turn: nat)
    requires EventsSoFar(o, sc, events)
    ensures var mine := InTurn(events, turn);
      && |mine| == CountTurn(events, Some(turn))
      && forall i :: 0 <= i < |mine| ==> mine[i].turnActionIndex == Some(i)
    decreases |events|
  {
    if |events| > 0 {
      var front := events[..|events| - 1];
      TurnIndicesCount(o, sc, front, turn);
      CountTurnIsEarlier(o, sc, front, turn);
      assert events[|events| - 1] == EventAt(o, sc, |events| - 1);
    }
  }

  /** There is only one peak. */
  lemma PeakUnique(p: Checkpoint, q: Checkpoint, checkpoints: seq<Checkpoint>)
    requires forall i :: 0 <= i < |checkpoints| ==> checkpoints[i].step == i
    requires IsPeak(p, checkpoints) && IsPeak(q, checkpoints)
    ensures p == q
  {
    if p != q {
      var i :| 0 <= i < |checkpoints| && checkpoints[i] == p;
      var j :| 0 <= j < |checkpoints| && checkpoints[j] == q;
      BetterTotal(p, q);
    }
  }
}
