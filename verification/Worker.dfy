/** The desktop job worker: `desktop/lifecycle.py`.

    The catalog, the child process and the file system are an environment whose every call may
    raise. A run of one job is described by a `Scenario`: what the inputs are, what each turn
    of the poll loop observes, how the child exits. The contracts hold for every scenario and
    every pattern of raising calls. */
module Worker {
  import opened Lease
  import opened Sequences
  import opened Wrappers

  // ----- what can happen to a job -----

  /** The states a timed-out attempt can be recovered to: `storage/jobs.py:1242-1283`. */
  datatype Recovery = ToCancelled | ToRetrying | ToFailed

  datatype Disposition =
    | Quarantine
    | Retry
    | Fail
    | Cancel
    | RecoverTimeout(state: Recovery)
    | Publish

  /** The status an outcome reports for each disposition. */
  function StatusOf(d: Disposition): string {
    match d
    case Quarantine => "quarantined"
    case Retry => "retrying"
    case Fail => "failed"
    case Cancel => "cancelled"
    case RecoverTimeout(ToCancelled) => "cancelled"
    case RecoverTimeout(ToRetrying) => "retrying"
    case RecoverTimeout(ToFailed) => "failed"
    case Publish => "succeeded"
  }

  datatype Kind = Search | ReplayVerification | OtherKind

  datatype Claim = NoJob | Job(kind: Kind, leased: bool)

  /** One turn of the poll loop, begun because the child was still running. */
  datatype Tick = Tick(stop: bool, cancel: bool, timedOut: bool, recoveredState: Recovery, clock: Clock)

  datatype Scenario = Scenario(
    claim: Claim,
    inputsGood: bool,
    launches: bool,
    loopStart: real,
    lease: real,
    ticks: seq<Tick>,
    exitCode: int,
    reportStatus: string,
    artifactsValid: bool)

  function Clocks(ticks: seq<Tick>): (r: seq<Clock>)
    ensures |r| == |ticks| && forall i :: 0 <= i < |r| ==> r[i] == ticks[i].clock
  {
    seq(|ticks|, i requires 0 <= i < |ticks| => ticks[i].clock)
  }

  // ----- why a job ends, read off the scenario -----

  datatype Cause =
    | Unleased | UnsupportedKind | BadInputs | LaunchFailed
    | HostStop | CancelRequested | TimedOut(state: Recovery)
    | ExitedNonzero | ExitedWithoutRoute | ExitedInvalid | ExitedValid

  /** Within a turn a host stop comes before a cancel and a cancel before a timeout. */
  function TickCause(t: Tick): Option<Cause> {
    if t.stop then Some(HostStop)
    else if t.cancel then Some(CancelRequested)
    else if t.timedOut then Some(TimedOut(t.recoveredState))
    else None
  }

  /** The first turn with a reason to leave the loop decides. */
  function ControlCause(ticks: seq<Tick>): (r: Option<Cause>)
    ensures r.Some? ==> r.value.HostStop? || r.value.CancelRequested? || r.value.TimedOut?
  {
    if |ticks| == 0 then None
    else if TickCause(ticks[0]).Some? then TickCause(ticks[0])
    else ControlCause(ticks[1..])
  }

  /** The turns before the first one with a reason to leave the loop. */
  function Quiet(ticks: seq<Tick>): (n: nat)
    ensures n <= |ticks| && (n == |ticks| <==> ControlCause(ticks).None?)
  {
    if |ticks| == 0 || TickCause(ticks[0]).Some? then 0 else 1 + Quiet(ticks[1..])
  }

  predicate Launched(s: Scenario) {
    s.claim.Job? && s.claim.leased && s.claim.kind != OtherKind && s.inputsGood && s.launches
  }

  /** The turns of a run in which nothing raises. */
  function TurnsDue(s: Scenario): (n: nat)
    ensures n <= |s.ticks|
  {
    if Launched(s) then Quiet(s.ticks) else 0
  }

  const PERMANENT_STATUSES := {"configuration_failure", "artifact_failure", "no_route"}

  function CauseOf(s: Scenario): Cause
    requires s.claim.Job?
  {
    if !s.claim.leased then Unleased
    else if s.claim.kind == OtherKind then UnsupportedKind
    else if !s.inputsGood then BadInputs
    else if !s.launches then LaunchFailed
    else
      var control := ControlCause(s.ticks);
      if control.Some? then control.value
      else if s.exitCode != 0 then
        if s.claim.kind == ReplayVerification || s.reportStatus in PERMANENT_STATUSES then ExitedWithoutRoute
        else ExitedNonzero
      else if !s.artifactsValid then ExitedInvalid
      else ExitedValid
  }

  /** What each cause may lead to. A retry may turn out to be exhausted, hence a failure. */
  function Allowed(c: Cause): set<Disposition> {
    match c
    case Unleased => {Quarantine}
    case UnsupportedKind => {Quarantine}
    case BadInputs => {Quarantine}
    case LaunchFailed => {Retry, Fail}
    case HostStop => {Retry, Fail}
    case CancelRequested => {Cancel}
    case TimedOut(state) => {RecoverTimeout(state)}
    case ExitedNonzero => {Retry, Fail}
    case ExitedWithoutRoute => {Fail}
    case ExitedInvalid => {Quarantine}
    case ExitedValid => {Publish}
  }

  // ----- the environment -----

  /** A disposition the catalog carried out, with the state it was made in. */
  datatype Entry = Entry(
    disposition: Disposition, childAlive: bool, exitCode: Option<int>, validated: bool, retryRefused: bool)

  /** No job is handed on while its child may still run, and only a validated result of a
      clean exit is published. */
  predicate Sound(e: Entry) {
    && !e.childAlive
    && (e.disposition.Publish? ==> e.exitCode == Some(0) && e.validated)
  }

  /** The disposition is one the cause may lead to, and a cause that may be retried leads to a
      failure only when a retry was asked for and refused. */
  predicate Fits(e: Entry, c: Cause) {
    e.disposition in Allowed(c) && (e.disposition.Fail? && Retry in Allowed(c) ==> e.retryRefused)
  }

  datatype RetryAnswer = Scheduled | Exhausted | RetryRaised

  /** How often each call that leaves a child or its handle behind has raised: the clock read between
      the launch and the `try`, the look at the child and its termination in the `finally`, and the
      close after them. */
  datatype Failures = Failures(start: nat, final: nat, close: nat) {
    predicate UpTo(later: Failures) {
      start <= later.start && final <= later.final && close <= later.close
    }
  }

  class Environment {
    var entries: seq<Entry>
    var heartbeats: seq<real>
    /** How many turns of a poll loop have come to their sleep. */
    var sleeps: nat
    /** The child was launched and no one has seen it gone. */
    var childAlive: bool
    var handleOpen: bool
    var failures: Failures
    var exitCode: Option<int>
    var validated: bool
    /** The last retry asked for was refused because none is left. */
    var retryRefused: bool
    /** How many calls have raised. */
    var raises: nat

    constructor ()
      ensures entries == [] && heartbeats == [] && sleeps == 0 && raises == 0 && failures == Failures(0, 0, 0)
      ensures !childAlive && !handleOpen && exitCode.None? && !validated
    {
      entries, heartbeats, sleeps, raises, failures := [], [], 0, 0, Failures(0, 0, 0);
      childAlive, handleOpen, exitCode, validated := false, false, None, false;
      retryRefused := false;
    }

    /** Any call that changes nothing the worker's promises are about: reads, checkpoints,
        staging, clean-up of files. */
    method Call() returns (ok: bool)
      modifies `raises
      ensures raises == old(raises) + if ok then 0 else 1
    {
      ok := *;
      raises := raises + if ok then 0 else 1;
    }

    /** A disposition that raises has no effect. */
    method Dispose(d: Disposition) returns (ok: bool)
      modifies `entries, `raises
      ensures entries == if ok then old(entries) + [Entry(d, childAlive, exitCode, validated, retryRefused)]
                         else old(entries)
      ensures raises == old(raises) + if ok then 0 else 1
    {
      ok := *;
      raises := raises + if ok then 0 else 1;
      if ok {
        entries := entries + [Entry(d, childAlive, exitCode, validated, retryRefused)];
      }
    }

    method ScheduleRetry() returns (answer: RetryAnswer)
      modifies `entries, `retryRefused, `raises
      ensures entries == if answer.Scheduled? then old(entries) + [Entry(Retry, childAlive, exitCode, validated, false)]
                         else old(entries)
      ensures retryRefused == answer.Exhausted?
      ensures raises == old(raises) + if answer.RetryRaised? then 1 else 0
    {
      retryRefused := *;
      if retryRefused {
        return Exhausted;
      }
      var ok := Dispose(Retry);
      answer := if ok then Scheduled else RetryRaised;
    }

    method Launch()
      modifies `childAlive, `handleOpen, `exitCode, `validated
      ensures childAlive && handleOpen && exitCode.None? && !validated
    {
      childAlive, handleOpen := true, true;
      exitCode, validated := None, false;
    }

    /** The clock read between the launch and the `try`. */
    method StartClock() returns (ok: bool)
      modifies `failures, `raises
      ensures failures == if ok then old(failures) else old(failures).(start := old(failures).start + 1)
      ensures raises == old(raises) + if ok then 0 else 1
    {
      ok := *;
      if !ok {
        failures, raises := failures.(start := failures.start + 1), raises + 1;
      }
    }

    /** `terminate` either ends the tree or raises. */
    method Terminate() returns (ok: bool)
      modifies `childAlive, `raises
      ensures ok ==> !childAlive
      ensures !ok ==> childAlive == old(childAlive)
      ensures raises == old(raises) + if ok then 0 else 1
    {
      ok := *;
      raises := raises + if ok then 0 else 1;
      childAlive := childAlive && !ok;
    }

    /** `poll() is not None` in the `finally`; the child may have exited since anyone looked. */
    method LastLook() returns (ok: bool, exited: bool)
      modifies `childAlive, `failures, `raises
      ensures ok ==> exited == !childAlive
      ensures !old(childAlive) ==> !childAlive
      ensures failures == if ok then old(failures) else old(failures).(final := old(failures).final + 1)
      ensures raises == old(raises) + if ok then 0 else 1
    {
      var gone: bool := *;
      ok := *;
      childAlive := childAlive && !gone;
      exited := !childAlive;
      if !ok {
        failures, raises := failures.(final := failures.final + 1), raises + 1;
      }
    }

    /** `terminate` in the `finally`. */
    method LastTerminate() returns (ok: bool)
      modifies `childAlive, `failures, `raises
      ensures ok ==> !childAlive
      ensures failures == if ok then old(failures) else old(failures).(final := old(failures).final + 1)
      ensures raises == old(raises) + if ok then 0 else 1
    {
      ok := Terminate();
      if !ok {
        failures := failures.(final := failures.final + 1);
      }
    }

    /** `communicate()` returns once the child is gone. */
    method Communicate() returns (ok: bool)
      modifies `childAlive, `raises
      ensures ok ==> !childAlive
      ensures !ok ==> childAlive == old(childAlive)
      ensures raises == old(raises) + if ok then 0 else 1
    {
      ok := *;
      raises := raises + if ok then 0 else 1;
      if ok {
        childAlive := false;
      }
    }

    method NoteExit(code: int)
      modifies `exitCode
      ensures exitCode == Some(code)
    {
      exitCode := Some(code);
    }

    method NoteValid()
      modifies `validated
      ensures validated
    {
      validated := true;
    }

    method Heartbeat(now: real) returns (ok: bool)
      modifies `heartbeats, `raises
      ensures heartbeats == if ok then old(heartbeats) + [now] else old(heartbeats)
      ensures raises == old(raises) + if ok then 0 else 1
    {
      ok := *;
      raises := raises + if ok then 0 else 1;
      if ok {
        heartbeats := heartbeats + [now];
      }
    }

    /** `self.sleep`, which ends a turn. */
    method Sleep() returns (ok: bool)
      modifies `sleeps, `raises
      ensures sleeps == old(sleeps) + 1
      ensures raises == old(raises) + if ok then 0 else 1
    {
      ok := *;
      sleeps, raises := sleeps + 1, raises + if ok then 0 else 1;
    }

    method Close() returns (ok: bool)
      modifies `handleOpen, `failures, `raises
      ensures ok ==> !handleOpen
      ensures failures == if ok then old(failures) else old(failures).(close := old(failures).close + 1)
      ensures raises == old(raises) + if ok then 0 else 1
    {
      ok := *;
      if ok {
        handleOpen := false;
      } else {
        failures, raises := failures.(close := failures.close + 1), raises + 1;
      }
    }
  }

  /** How a worker call ends: an outcome with its status, or an exception. */
  datatype Exit = Returned(status: string) | Raised

  /** Between `before` and `after` at most one disposition took effect, it was sound and one
      the cause allows; if `exit` is an outcome there was exactly one and the status names it. */
  ghost predicate Disposed(before: seq<Entry>, after: seq<Entry>, c: Cause, exit: Exit) {
    || (after == before && exit.Raised?)
    || (&& |after| == |before| + 1 && after[..|before|] == before
        && var e := after[|before|];
           && Sound(e) && Fits(e, c)
           && (exit.Returned? ==> exit.status == StatusOf(e.disposition)))
  }

  // ----- the same, said of the scenario alone -----

  /** Turn `k` is the first with a stop, a cancel or a timeout. */
  ghost predicate InterruptedAt(s: Scenario, k: nat) {
    && k < |s.ticks| && (s.ticks[k].stop || s.ticks[k].cancel || s.ticks[k].timedOut)
    && forall j :: 0 <= j < k ==> !s.ticks[j].stop && !s.ticks[j].cancel && !s.ticks[j].timedOut
  }

  /** The child ran to its end with this exit code. */
  ghost predicate ExitedWith(s: Scenario, code: int) {
    && Launched(s) && s.exitCode == code
    && forall j :: 0 <= j < |s.ticks| ==> !s.ticks[j].stop && !s.ticks[j].cancel && !s.ticks[j].timedOut
  }

  /** What may be done with a job. A retry that is refused becomes a failure. */
  ghost predicate DueTo(s: Scenario, e: Entry) {
    var retried := e.disposition == Retry || (e.disposition == Fail && e.retryRefused);
    var taken := s.claim.Job? && s.claim.leased && s.claim.kind in {Search, ReplayVerification};
    && (e.disposition == Publish <==> ExitedWith(s, 0) && s.artifactsValid)
    && (e.disposition == Quarantine
        <==> !taken || !s.inputsGood || (ExitedWith(s, 0) && !s.artifactsValid))
    && (taken && s.inputsGood && !s.launches ==> retried)
    && (forall k: nat :: Launched(s) && InterruptedAt(s, k) ==>
          if s.ticks[k].stop then retried
          else if s.ticks[k].cancel then e.disposition == Cancel
          else e.disposition == RecoverTimeout(s.ticks[k].recoveredState))
    && (ExitedWith(s, s.exitCode) && s.exitCode != 0 ==>
          if s.claim.kind == ReplayVerification
             || s.reportStatus in {"configuration_failure", "artifact_failure", "no_route"}
          then e.disposition == Fail
          else retried)
  }

  /** What the outcome says was done. */
  ghost predicate Says(status: string, d: Disposition) {
    && (status == "succeeded" <==> d == Publish)
    && (status == "quarantined" <==> d == Quarantine)
    && (status == "cancelled" <==> d == Cancel || d == RecoverTimeout(ToCancelled))
    && (status == "retrying" <==> d == Retry || d == RecoverTimeout(ToRetrying))
    && (status == "failed" <==> d == Fail || d == RecoverTimeout(ToFailed))
  }

  lemma {:induction false} ControlCauseIs(s: Scenario, n: nat)
    requires n <= |s.ticks|
    requires forall j :: 0 <= j < n ==> TickCause(s.ticks[j]).None?
    ensures ControlCause(s.ticks) == ControlCause(s.ticks[n..])
  {
    if n == 0 {
      assert s.ticks[0..] == s.ticks;
    } else {
      ControlCauseIs(s, n - 1);
      assert s.ticks[n - 1..][0] == s.ticks[n - 1] && s.ticks[n - 1..][1..] == s.ticks[n..];
    }
  }

  lemma ControlCauseAt(s: Scenario, k: nat)
    requires InterruptedAt(s, k)
    ensures ControlCause(s.ticks) == TickCause(s.ticks[k])
  {
    ControlCauseIs(s, k);
    assert s.ticks[k..][0] == s.ticks[k];
  }

  lemma {:induction false} FirstCause(ticks: seq<Tick>) returns (k: nat)
    requires ControlCause(ticks).Some?
    ensures k < |ticks| && TickCause(ticks[k]).Some?
    ensures forall j :: 0 <= j < k ==> TickCause(ticks[j]).None?
  {
    k := 0;
    if TickCause(ticks[0]).None? {
      var rest := FirstCause(ticks[1..]);
      k := rest + 1;
    }
  }

  /** Every entry that fits a scenario's cause is what is due to the scenario. */
  lemma FittingIsDue(s: Scenario, e: Entry)
    requires s.claim.Job? && Fits(e, CauseOf(s))
    ensures DueTo(s, e)
  {
    if ControlCause(s.ticks).Some? {
      var k := FirstCause(s.ticks);
      assert InterruptedAt(s, k);
    } else {
      forall j | 0 <= j < |s.ticks| ensures TickCause(s.ticks[j]).None? { NoCause(s.ticks, j); }
    }
    forall k: nat | InterruptedAt(s, k) ensures ControlCause(s.ticks) == TickCause(s.ticks[k]) { ControlCauseAt(s, k); }
  }

  lemma {:induction false} NoCause(ticks: seq<Tick>, j: nat)
    requires ControlCause(ticks).None? && j < |ticks|
    ensures TickCause(ticks[j]).None?
  {
    if j > 0 { NoCause(ticks[1..], j - 1); }
  }

  lemma StatusSays(d: Disposition)
    ensures Says(StatusOf(d), d)
  {
  }

  /** Whatever the run did is due to its scenario, and an outcome says what was done. */
  ghost predicate Answered(s: Scenario, before: seq<Entry>, after: seq<Entry>, exit: Exit) {
    || (after == before && exit.Raised?)
    || (&& |after| == |before| + 1 && after[..|before|] == before
        && DueTo(s, after[|before|]) && !after[|before|].childAlive
        && (after[|before|].disposition == Publish ==>
              after[|before|].exitCode == Some(0) && after[|before|].validated)
        && (exit.Returned? ==> Says(exit.status, after[|before|].disposition)))
  }

  lemma DisposedIsAnswered(s: Scenario, before: seq<Entry>, after: seq<Entry>, exit: Exit)
    requires s.claim.Job? && Disposed(before, after, CauseOf(s), exit)
    ensures Answered(s, before, after, exit)
  {
    if after != before {
      FittingIsDue(s, after[|before|]);
      StatusSays(after[|before|].disposition);
    }
  }

  datatype LoopExit = Ended | Left(status: string) | Threw

  /** What turn `i` adds to the heartbeat times and to the renewals. */
  lemma TurnRenews(clocks: seq<Clock>, i: nat, start: real, lease: real)
    requires i < |clocks|
    ensures var last := LastHeartbeat(clocks[..i], start, lease);
      && LastHeartbeat(clocks[..i + 1], start, lease)
         == (if Due(clocks[i], last, lease) then clocks[i].beaten else last)
      && Renewals(clocks[..i + 1], start, lease)
         == Renewals(clocks[..i], start, lease) + (if Due(clocks[i], last, lease) then [clocks[i].now] else [])
  {
    TakeOneMore(clocks, i);
  }

  /** The renewals due in the first `k` turns. */
  function RenewalsUpto(s: Scenario, k: nat): seq<real>
    requires k <= |s.ticks|
  {
    Renewals(Clocks(s.ticks)[..k], s.loopStart, s.lease)
  }

  /** Between `before` and `after` exactly the renewals due in the first `k` turns were sent. */
  ghost predicate Sent(s: Scenario, k: nat, before: seq<real>, after: seq<real>) {
    k <= |s.ticks| && after == before + RenewalsUpto(s, k)
  }

  /** The first `k` turns each sleep for `poll` and take at most `d`, and that is safe. */
  ghost predicate InTime(s: Scenario, k: nat, claimed: real, poll: real, d: real)
    requires k <= |s.ticks|
  {
    && s.lease > 0.0 && 0.0 < poll <= d && Paced(Clocks(s.ticks)[..k], s.loopStart, poll, d)
    && Safe(claimed, s.loopStart, s.lease, poll, d)
  }

  /** Each of the first `k` turns was over before the lease held at its start ran out, as renewed by
      the heartbeats sent until then. */
  ghost predicate HeldFor(s: Scenario, k: nat, claimed: real, before: seq<real>, after: seq<real>)
    requires k <= |s.ticks|
  {
    forall j :: 0 <= j < k ==>
      && before + RenewalsUpto(s, j) <= after
      && s.ticks[j].clock.end < LeaseUntil(claimed, RenewalsUpto(s, j), s.lease)
  }

  lemma {:induction false} RenewalsGrow(s: Scenario, j: nat, k: nat)
    requires j <= k <= |s.ticks|
    ensures RenewalsUpto(s, j) <= RenewalsUpto(s, k)
  {
    if j < k {
      RenewalsGrow(s, j, k - 1);
      TurnRenews(Clocks(s.ticks), k - 1, s.loopStart, s.lease);
    }
  }

  /** A run that renews whenever due, in turns short enough, keeps its lease. */
  lemma RenewingHoldsLease(
      s: Scenario, k: nat, claimed: real, poll: real, d: real, before: seq<real>, after: seq<real>)
    requires k <= |s.ticks| && before + RenewalsUpto(s, k) <= after
    requires InTime(s, k, claimed, poll, d)
    ensures HeldFor(s, k, claimed, before, after)
  {
    var clocks := Clocks(s.ticks)[..k];
    SafeTurnsKeepLease(clocks, claimed, s.loopStart, s.lease, poll, d);
    forall j | 0 <= j < k
      ensures before + RenewalsUpto(s, j) <= after
      ensures s.ticks[j].clock.end < LeaseUntil(claimed, RenewalsUpto(s, j), s.lease)
    {
      RenewalsGrow(s, j, k);
      assert clocks[..j] == Clocks(s.ticks)[..j] && clocks[j] == s.ticks[j].clock;
    }
  }

  /** Whenever the first `k` turns are short enough to be safe, the lease was held in each of them. */
  ghost predicate LeaseKept(s: Scenario, k: nat, before: seq<real>, after: seq<real>)
    requires k <= |s.ticks|
  {
    forall claimed, poll, d :: InTime(s, k, claimed, poll, d) ==> HeldFor(s, k, claimed, before, after)
  }

  lemma RenewingKeepsLease(s: Scenario, k: nat, before: seq<real>, after: seq<real>)
    requires k <= |s.ticks|
    requires Sent(s, k, before, after) || Sent(s, k + 1, before, after)
    ensures LeaseKept(s, k, before, after)
  {
    if k < |s.ticks| { RenewalsGrow(s, k, k + 1); }
    forall claimed, poll, d | InTime(s, k, claimed, poll, d) ensures HeldFor(s, k, claimed, before, after) {
      RenewingHoldsLease(s, k, claimed, poll, d, before, after);
    }
  }

  // ----- where the loop stands -----

  /** The first `turns` turns gave no reason to leave the loop. */
  ghost predicate Reached(s: Scenario, turns: nat) {
    && turns <= |s.ticks|
    && ControlCause(s.ticks) == ControlCause(s.ticks[turns..])
    && Quiet(s.ticks) == turns + Quiet(s.ticks[turns..])
  }

  lemma ReachedNext(s: Scenario, turns: nat)
    requires Reached(s, turns) && turns < |s.ticks|
    ensures var cause := TickCause(s.ticks[turns]);
      if cause.Some? then ControlCause(s.ticks) == cause && Quiet(s.ticks) == turns
      else Reached(s, turns + 1) && turns < Quiet(s.ticks)
  {
    var rest := s.ticks[turns..];
    assert rest[0] == s.ticks[turns] && rest[1..] == s.ticks[turns + 1..];
  }

  lemma SentNext(s: Scenario, turns: nat, before: seq<real>, middle: seq<real>)
    requires Sent(s, turns, before, middle) && turns < |s.ticks|
    ensures var last, clock := LastHeartbeat(Clocks(s.ticks)[..turns], s.loopStart, s.lease), s.ticks[turns].clock;
      var due := Due(clock, last, s.lease);
      && LastHeartbeat(Clocks(s.ticks)[..turns + 1], s.loopStart, s.lease) == (if due then clock.beaten else last)
      && Sent(s, turns + 1, before, middle + (if due then [clock.now] else []))
  {
    TurnRenews(Clocks(s.ticks), turns, s.loopStart, s.lease);
  }

  class DesktopSearchWorker {
    const env: Environment

    constructor (env: Environment)
      ensures this.env == env
    {
      this.env := env;
    }

    /** An exception leaves exactly when some call raised on the way. */
    twostate predicate Raising(threw: bool)
      reads env
    {
      && env.raises >= old(env.raises) && old(env.failures).UpTo(env.failures)
      && (!threw ==> env.failures == old(env.failures))
      && (threw <==> env.raises > old(env.raises))
    }

    /** As many turns came to their sleep as are due, or fewer if something raised, and the heartbeats
        sent are the renewals due in those turns; a raise may leave one turn between its heartbeat and
        its sleep. */
    twostate predicate Renewed(s: Scenario, due: nat, threw: bool)
      requires due <= |s.ticks|
      reads env
    {
      && old(env.sleeps) <= env.sleeps <= old(env.sleeps) + due
      && (!threw ==> env.sleeps == old(env.sleeps) + due)
      && var turns := env.sleeps - old(env.sleeps);
         || Sent(s, turns, old(env.heartbeats), env.heartbeats)
         || (threw && turns < due && Sent(s, turns + 1, old(env.heartbeats), env.heartbeats))
    }

    /** `_retry_or_fail` */
    method RetryOrFail(ghost c: Cause) returns (exit: Exit)
      requires Allowed(c) == {Retry, Fail} && !env.childAlive
      modifies env`raises, env`retryRefused, env`entries
      ensures Disposed(old(env.entries), env.entries, c, exit)
      ensures Raising(exit.Raised?)
    {
      var answer := env.ScheduleRetry();
      match answer {
        case Scheduled => exit := Returned("retrying");
        case RetryRaised => exit := Raised;
        case Exhausted =>
          var ok := env.Dispose(Fail);
          exit := if ok then Returned("failed") else Raised;
      }
    }

    /** Makes one disposition and reports the status that names it. */
    method DisposeAs(d: Disposition, ghost c: Cause) returns (exit: Exit)
      requires d in Allowed(c) && !env.childAlive && (d.Fail? ==> Retry !in Allowed(c))
      requires d.Publish? ==> env.exitCode == Some(0) && env.validated
      modifies env`raises, env`retryRefused, env`entries
      ensures Disposed(old(env.entries), env.entries, c, exit)
      ensures Raising(exit.Raised?)
    {
      var ok := env.Dispose(d);
      exit := if ok then Returned(StatusOf(d)) else Raised;
    }

    /** The host-stop branch. */
    method StopChild() returns (r: LoopExit)
      modifies env`raises, env`retryRefused, env`entries, env`childAlive
      ensures !r.Ended? && (r.Left? ==> !env.childAlive)
      ensures Disposed(old(env.entries), env.entries, HostStop, if r.Left? then Returned(r.status) else Raised)
      ensures Raising(r.Threw?)
    {
      var ok := env.Call();
      if !ok { return Threw; }
      ok := env.Terminate();
      if !ok { return Threw; }
      ok := env.Call();
      if !ok { return Threw; }
      var exit := RetryOrFail(HostStop);
      if exit.Raised? { return Threw; }
      ok := env.Communicate();
      if !ok { return Threw; }
      r := Left(exit.status);
    }

    /** The cancel branch (with a checkpoint first) and the timeout branch (without). */
    method EndChild(d: Disposition, checkpoint: bool, ghost c: Cause) returns (r: LoopExit)
      requires d in Allowed(c) && !d.Publish? && !d.Fail?
      modifies env`raises, env`retryRefused, env`entries, env`childAlive
      ensures !r.Ended? && (r.Left? ==> !env.childAlive)
      ensures Disposed(old(env.entries), env.entries, c, if r.Left? then Returned(r.status) else Raised)
      ensures Raising(r.Threw?)
    {
      var ok := env.Call();
      if !ok { return Threw; }
      ok := env.Terminate();
      if !ok { return Threw; }
      ok := env.Communicate();
      if !ok { return Threw; }
      if checkpoint {
        ok := env.Call();
        if !ok { return Threw; }
      }
      var exit := DisposeAs(d, c);
      r := if exit.Raised? then Threw else Left(exit.status);
    }

    /** One turn's reactions, in the order the source checks them. */
    method React(tick: Tick) returns (r: Option<LoopExit>)
      requires env.childAlive
      modifies env`raises, env`retryRefused, env`entries, env`childAlive
      ensures r.None? ==> TickCause(tick).None? && env.childAlive
      ensures r.Some? ==> !r.value.Ended? && (r.value.Left? ==> !env.childAlive)
      ensures TickCause(tick).None? ==> env.entries == old(env.entries) && (r.Some? ==> r.value.Threw?)
      ensures TickCause(tick).Some? ==>
        r.Some? && Disposed(old(env.entries), env.entries, TickCause(tick).value,
                            if r.value.Left? then Returned(r.value.status) else Raised)
      ensures Raising(r.Some? && r.value.Threw?)
    {
      var left;
      var ok := env.Call();
      if !ok { return Some(Threw); }
      if tick.stop {
        left := StopChild();
        return Some(left);
      }
      ok := env.Call();
      if !ok { return Some(Threw); }
      if tick.cancel {
        left := EndChild(Cancel, true, CancelRequested);
        return Some(left);
      }
      if tick.timedOut {
        left := EndChild(RecoverTimeout(tick.recoveredState), false, TimedOut(tick.recoveredState));
        return Some(left);
      }
      r := None;
    }

    /** Renews the lease if due and notes when; then sleeps. */
    method RenewIfDue(clock: Clock, lastHeartbeat: real, lease: real) returns (ok: bool, last: real)
      modifies env`raises, env`heartbeats, env`sleeps
      ensures var due := Due(clock, lastHeartbeat, lease);
        var renewed := old(env.heartbeats) + (if due then [clock.now] else []);
        && (ok ==> last == if due then clock.beaten else lastHeartbeat)
        && old(env.sleeps) <= env.sleeps <= old(env.sleeps) + 1 && (ok ==> env.sleeps > old(env.sleeps))
        && (env.heartbeats == renewed || (env.sleeps == old(env.sleeps) && env.heartbeats == old(env.heartbeats)))
      ensures Raising(!ok)
    {
      last := lastHeartbeat;
      ok := env.Call();
      if !ok { return; }
      if clock.checked - lastHeartbeat >= lease / 3.0 {
        ok := env.Heartbeat(clock.now);
        if !ok { return; }
        ok := env.Call();
        if !ok { return; }
        last := clock.beaten;
      }
      ok := env.Sleep();
    }

    /** One turn: leave the loop, or come to its sleep. */
    method TakeTurn(tick: Tick, lastHeartbeat: real, lease: real) returns (left: Option<LoopExit>, last: real)
      requires env.childAlive
      modifies env`raises, env`retryRefused, env`entries, env`heartbeats, env`sleeps, env`childAlive
      ensures left.Some? ==> !left.value.Ended? && (left.value.Left? ==> !env.childAlive)
      ensures var cause := TickCause(tick);
        if cause.Some? then
          && left.Some? && env.sleeps == old(env.sleeps) && env.heartbeats == old(env.heartbeats)
          && Disposed(old(env.entries), env.entries, cause.value,
                      if left.value.Left? then Returned(left.value.status) else Raised)
        else
          env.entries == old(env.entries) && (left.Some? ==> left.value.Threw?)
      ensures var due := Due(tick.clock, lastHeartbeat, lease);
        var renewed := old(env.heartbeats) + (if due then [tick.clock.now] else []);
        && (left.None? ==> env.childAlive && last == if due then tick.clock.beaten else lastHeartbeat)
        && old(env.sleeps) <= env.sleeps <= old(env.sleeps) + 1 && (left.None? ==> env.sleeps > old(env.sleeps))
        && (env.heartbeats == renewed || (env.sleeps == old(env.sleeps) && env.heartbeats == old(env.heartbeats)))
      ensures Raising(left.Some? && left.value.Threw?)
    {
      last := lastHeartbeat;
      left := React(tick);
      if left.None? {
        var ok;
        ok, last := RenewIfDue(tick.clock, lastHeartbeat, lease);
        left := if ok then None else Some(Threw);
      }
    }

    /** With no cause to leave, nothing is disposed of and the child's own end is awaited; otherwise
        the cause is answered by its one disposition. */
    twostate predicate Controlled(s: Scenario, new r: LoopExit)
      reads env
    {
      var cause := ControlCause(s.ticks);
      && (!r.Threw? ==> !env.childAlive)
      && if cause.None? then !r.Left? && env.entries == old(env.entries)
         else !r.Ended? && Disposed(old(env.entries), env.entries, cause.value,
                                    if r.Left? then Returned(r.status) else Raised)
    }

    /** The child is gone: its output, its exit code and the process count are taken. */
    method TakeExit(code: int) returns (ok: bool)
      modifies env`raises, env`childAlive, env`exitCode
      ensures ok ==> !env.childAlive && env.exitCode == Some(code)
      ensures Raising(!ok)
    {
      ok := env.Communicate();
      if !ok { return; }
      env.NoteExit(code);
      ok := env.Call();
    }

    /** The body of the `try`: poll the child, react to stop, cancel and timeout, renew the
        lease, and when the child is gone take its exit code. */
    method PollLoop(s: Scenario) returns (r: LoopExit)
      requires env.childAlive
      modifies env`raises, env`retryRefused, env`entries, env`heartbeats, env`sleeps, env`childAlive, env`exitCode
      ensures Renewed(s, Quiet(s.ticks), r.Threw?)
      ensures r.Ended? ==> env.exitCode == Some(s.exitCode)
      ensures Controlled(s, r)
      ensures Raising(r.Threw?)
    {
      var lastHeartbeat := s.loopStart;
      var turns := 0;
      while turns < |s.ticks|
        invariant Reached(s, turns)
        invariant env.childAlive && env.entries == old(env.entries) && env.raises == old(env.raises)
        invariant env.sleeps == old(env.sleeps) + turns
        invariant lastHeartbeat == LastHeartbeat(Clocks(s.ticks)[..turns], s.loopStart, s.lease)
        invariant Sent(s, turns, old(env.heartbeats), env.heartbeats)
      {
        var tick := s.ticks[turns];
        ReachedNext(s, turns);
        SentNext(s, turns, old(env.heartbeats), env.heartbeats);
        var left;
        left, lastHeartbeat := TakeTurn(tick, lastHeartbeat, s.lease);
        if left.Some? { return left.value; }
        turns := turns + 1;
      }
      var ok := TakeExit(s.exitCode);
      r := if ok then Ended else Threw;
    }

    /** The `finally`: terminate a child still running, then close the handle whatever happened. */
    method CleanUp() returns (ok: bool)
      modifies env`raises, env`childAlive, env`failures, env`handleOpen
      ensures env.failures.start == old(env.failures.start)
      ensures env.childAlive ==> env.failures.final > old(env.failures.final)
      ensures env.handleOpen ==> env.failures.close > old(env.failures.close)
      ensures Raising(!ok)
    {
      var exited;
      ok, exited := env.LastLook();
      if ok && !exited {
        ok := env.LastTerminate();
      }
      var closed := env.Close();
      ok := ok && closed;
    }

    /** The whole `try`/`finally`: however the loop is left, a child still running is
        terminated and the handle is closed. */
    method Supervise(s: Scenario) returns (r: LoopExit)
      requires env.childAlive && env.handleOpen
      modifies env`raises, env`retryRefused, env`entries, env`heartbeats, env`sleeps
      modifies env`childAlive, env`failures, env`exitCode, env`handleOpen
      ensures AtRest() && env.failures.start == old(env.failures.start)
      ensures Renewed(s, Quiet(s.ticks), r.Threw?)
      ensures r.Ended? ==> env.exitCode == Some(s.exitCode)
      ensures Controlled(s, r)
      ensures Raising(r.Threw?)
    {
      r := PollLoop(s);
      var ok := CleanUp();
      r := if ok then r else Threw;
    }

    /** The handle is still open only if the clock read before the `try` or the close raised, and the
        child still running only if that clock, the last look at the child or its last termination
        did; and when that clock raises both are left behind. */
    twostate predicate AtRest()
      reads env
    {
      var before, after := old(env.failures), env.failures;
      && (env.handleOpen ==> after.start > before.start || after.close > before.close)
      && (env.childAlive ==> after.start > before.start || after.final > before.final)
      && (after.start > before.start ==> env.handleOpen && env.childAlive)
    }

    /** What every way out of a claimed job promises. */
    twostate predicate Settled(s: Scenario, exit: Exit)
      requires s.claim.Job?
      reads env
    {
      && Disposed(old(env.entries), env.entries, CauseOf(s), exit)
      && AtRest()
      && Renewed(s, TurnsDue(s), exit.Raised?)
    }

    /** Reading the inputs, then either quarantine or the checkpoint and launch. */
    method Prepare(s: Scenario) returns (exit: Option<Exit>)
      requires s.claim.Job? && s.claim.leased && s.claim.kind != OtherKind
      requires !env.childAlive && !env.handleOpen
      modifies env`raises, env`retryRefused, env`entries, env`childAlive, env`handleOpen, env`exitCode, env`validated
      ensures exit.None? ==> s.inputsGood && s.launches
      ensures exit.None? ==> env.childAlive && env.handleOpen && env.exitCode.None? && env.entries == old(env.entries)
      ensures exit.Some? ==> !env.childAlive && !env.handleOpen
      ensures exit.Some? && exit.value.Returned? ==> !(s.inputsGood && s.launches)
      ensures exit.Some? ==> Disposed(old(env.entries), env.entries, CauseOf(s), exit.value)
      ensures Raising(exit.Some? && exit.value.Raised?)
    {
      var ok := env.Call();
      if !ok { return Some(Raised); }
      if !s.inputsGood {
        var quarantined := DisposeAs(Quarantine, BadInputs);
        return Some(quarantined);
      }
      ok := env.Call();
      if !ok { return Some(Raised); }
      if !s.launches {
        var retried := RetryOrFail(LaunchFailed);
        return Some(retried);
      }
      ok := env.Call();
      if !ok { return Some(Raised); }
      env.Launch();
      exit := None;
    }

    /** A clean exit: validate, then quarantine or publish. */
    method Conclude(s: Scenario) returns (exit: Exit)
      requires s.claim.Job? && CauseOf(s) in {ExitedInvalid, ExitedValid}
      requires !env.childAlive && env.exitCode == Some(0)
      modifies env`raises, env`retryRefused, env`entries, env`validated
      ensures Disposed(old(env.entries), env.entries, CauseOf(s), exit)
      ensures Raising(exit.Raised?)
    {
      var ok := env.Call();
      if !ok { return Raised; }
      if !s.artifactsValid {
        assert CauseOf(s) == ExitedInvalid;
        exit := DisposeAs(Quarantine, ExitedInvalid);
        return;
      }
      assert CauseOf(s) == ExitedValid;
      env.NoteValid();
      ok := env.Call();
      if !ok { return Raised; }
      exit := DisposeAs(Publish, ExitedValid);
      ok := env.Call();
      if !ok { exit := Raised; }
    }

    /** A failed search: the report it left, which may be no JSON object, says whether to retry. */
    method ConcludeFailure(s: Scenario) returns (exit: Exit)
      requires s.claim.Job? && CauseOf(s) in {ExitedWithoutRoute, ExitedNonzero}
      requires s.reportStatus in PERMANENT_STATUSES <==> CauseOf(s) == ExitedWithoutRoute
      requires !env.childAlive
      modifies env`raises, env`retryRefused, env`entries
      ensures Disposed(old(env.entries), env.entries, CauseOf(s), exit)
      ensures Raising(exit.Raised?)
    {
      var read := env.Call();
      if !read { return Raised; }
      if s.reportStatus in PERMANENT_STATUSES {
        exit := DisposeAs(Fail, ExitedWithoutRoute);
      } else {
        exit := RetryOrFail(ExitedNonzero);
      }
    }

    /** What both kinds of job share: launch the child and watch it. `None` means that it ended by
        itself, with nothing disposed of yet. */
    method WatchChild(s: Scenario) returns (exit: Option<Exit>)
      requires s.claim.Job? && s.claim.leased && s.claim.kind != OtherKind
      requires !env.childAlive && !env.handleOpen
      modifies env
      ensures exit.Some? ==> Settled(s, exit.value)
      ensures exit.None? ==> ControlCause(s.ticks).None? && s.inputsGood && s.launches
      ensures exit.None? ==> !env.childAlive && !env.handleOpen && env.exitCode == Some(s.exitCode)
      ensures exit.None? ==> env.entries == old(env.entries)
      ensures exit.None? ==> Renewed(s, TurnsDue(s), false)
      ensures Raising(exit.Some? && exit.value.Raised?)
    {
      assert RenewalsUpto(s, 0) == [];
      exit := Prepare(s);
      if exit.Some? { return; }
      var started := env.StartClock();
      if !started { return Some(Raised); }
      var r := Supervise(s);
      exit := match r case Threw => Some(Raised) case Left(status) => Some(Returned(status)) case Ended => None;
    }

    /** `_run_search` */
    method RunSearch(s: Scenario) returns (exit: Exit)
      requires s.claim == Job(Search, true)
      requires !env.childAlive && !env.handleOpen
      modifies env
      ensures Settled(s, exit)
      ensures Raising(exit.Raised?)
    {
      var early := WatchChild(s);
      if early.Some? {
        exit := early.value;
      } else if s.exitCode != 0 {
        exit := ConcludeFailure(s);
      } else {
        exit := Conclude(s);
      }
    }

    /** `_run_replay_verification`: any non-zero exit fails the job at once. */
    method RunReplayVerification(s: Scenario) returns (exit: Exit)
      requires s.claim == Job(ReplayVerification, true)
      requires !env.childAlive && !env.handleOpen
      modifies env
      ensures Settled(s, exit)
      ensures Raising(exit.Raised?)
    {
      var early := WatchChild(s);
      if early.Some? {
        exit := early.value;
      } else if s.exitCode != 0 {
        exit := DisposeAs(Fail, ExitedWithoutRoute);
      } else {
        exit := Conclude(s);
      }
    }

    /** What `run_once` does with a claimed job. */
    method RunJob(s: Scenario) returns (exit: Exit)
      requires s.claim.Job? && !env.childAlive && !env.handleOpen
      modifies env
      ensures Settled(s, exit)
      ensures Raising(exit.Raised?)
    {
      assert RenewalsUpto(s, 0) == [];
      if !s.claim.leased {
        exit := DisposeAs(Quarantine, Unleased);
      } else if s.claim.kind == Search {
        exit := RunSearch(s);
      } else if s.claim.kind == ReplayVerification {
        exit := RunReplayVerification(s);
      } else {
        exit := DisposeAs(Quarantine, UnsupportedKind);
      }
    }

    /** `run_once` */
    method RunOnce(s: Scenario) returns (exit: Exit)
      requires !env.childAlive && !env.handleOpen
      modifies env
      ensures s.claim.NoJob? ==> env.entries == old(env.entries) && (exit.Returned? ==> exit.status == "idle")
      ensures s.claim.Job? ==> Disposed(old(env.entries), env.entries, CauseOf(s), exit)
      ensures s.claim.Job? ==> Answered(s, old(env.entries), env.entries, exit)
      ensures AtRest()
      ensures Renewed(s, TurnsDue(s), exit.Raised?)
      ensures LeaseKept(s, env.sleeps - old(env.sleeps), old(env.heartbeats), env.heartbeats)
      ensures Raising(exit.Raised?)
    {
      assert RenewalsUpto(s, 0) == [];
      var ok := env.Call();
      if !ok {
        exit := Raised;
      } else if s.claim.NoJob? {
        exit := Returned("idle");
      } else {
        exit := RunJob(s);
        DisposedIsAnswered(s, old(env.entries), env.entries, exit);
      }
      RenewingKeepsLease(s, env.sleeps - old(env.sleeps), old(env.heartbeats), env.heartbeats);
    }
  }

  // ----- the supervisor's loop -----

  function JobsAmong(scenarios: seq<Scenario>): (r: seq<Scenario>)
    ensures forall i :: 0 <= i < |r| ==> r[i].claim.Job?
  {
    if |scenarios| == 0 then []
    else
      var front, last := scenarios[..|scenarios| - 1], scenarios[|scenarios| - 1];
      JobsAmong(front) + (if last.claim.Job? then [last] else [])
  }

  /** One sound disposition per job, in order, each one its job's cause allows. */
  ghost predicate Accounts(entries: seq<Entry>, jobs: seq<Scenario>)
    requires forall i :: 0 <= i < |jobs| ==> jobs[i].claim.Job?
  {
    && |entries| == |jobs|
    && forall i :: 0 <= i < |jobs| ==> Sound(entries[i]) && Fits(entries[i], CauseOf(jobs[i]))
  }

  lemma AccountsStep(before: seq<Entry>, middle: seq<Entry>, after: seq<Entry>, jobs: seq<Scenario>, s: Scenario,
                     exit: Exit)
    requires forall i :: 0 <= i < |jobs| ==> jobs[i].claim.Job?
    requires s.claim.Job?
    requires |before| <= |middle| && middle[..|before|] == before && Accounts(middle[|before|..], jobs)
    requires Disposed(middle, after, CauseOf(s), exit) && after != middle
    ensures |before| <= |after| && after[..|before|] == before && Accounts(after[|before|..], jobs + [s])
  {
    assert after[..|middle|][..|before|] == after[..|before|];
    assert after[|before|..] == middle[|before|..] + [after[|middle|]];
  }

  class DesktopWorkerSupervisor {
    const worker: DesktopSearchWorker
    var running: bool
    var failed: bool

    constructor (worker: DesktopSearchWorker)
      ensures this.worker == worker && !running && !failed
    {
      this.worker := worker;
      running, failed := false, false;
    }

    /** `start`: refused while running, otherwise a fresh thread with no failure noted. */
    method Start() returns (ok: bool)
      modifies this
      ensures ok == !old(running)
      ensures running && (ok ==> !failed)
    {
      if running {
        return false;
      }
      running, failed := true, false;
      ok := true;
    }

    /** `_run`: one `run_once` after another until the stop flag is set, which here happens
        after the given scenarios, or until one raises. Over the whole run every claimed job
        got exactly one sound disposition; only the job that raised may have none. */
    method Run(scenarios: seq<Scenario>) returns (handled: nat)
      requires !worker.env.childAlive && !worker.env.handleOpen
      modifies this, worker.env
      ensures handled <= |scenarios| && !running
      ensures failed == (old(failed) || handled < |scenarios|)
      ensures var before, after := old(worker.env.entries), worker.env.entries;
        && |before| <= |after| && after[..|before|] == before
        && (Accounts(after[|before|..], JobsAmong(scenarios[..handled]))
            || (handled < |scenarios| && Accounts(after[|before|..], JobsAmong(scenarios[..handled + 1]))))
      ensures worker.AtRest()
      ensures handled < |scenarios| <==> worker.env.raises > old(worker.env.raises)
    {
      ghost var before := worker.env.entries;
      handled := 0;
      while handled < |scenarios|
        invariant handled <= |scenarios| && failed == old(failed)
        invariant !worker.env.childAlive && !worker.env.handleOpen
        invariant worker.env.failures == old(worker.env.failures)
        invariant worker.env.raises == old(worker.env.raises)
        invariant |before| <= |worker.env.entries| && worker.env.entries[..|before|] == before
        invariant Accounts(worker.env.entries[|before|..], JobsAmong(scenarios[..handled]))
      {
        var s := scenarios[handled];
        TakeOneMore(scenarios, handled);
        ghost var middle := worker.env.entries;
        var exit := worker.RunOnce(s);
        if s.claim.Job? && worker.env.entries != middle {
          AccountsStep(before, middle, worker.env.entries, JobsAmong(scenarios[..handled]), s, exit);
        }
        if exit.Raised? {
          failed, running := true, false;
          return;
        }
        handled := handled + 1;
      }
      running := false;
      assert scenarios[..handled] == scenarios;
    }
  }
}
