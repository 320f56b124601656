/** The fresh-worker retry ledger: `RealCoreFrontierAdapter` of `prototype/frontier.py`.

    Every replay starts worker processes until one returns a document or no retry is left,
    and keeps four pieces of bookkeeping. The functions below say what one replay does to
    them; the class is proved to do exactly that. */
module Frontier {
  import opened Failures
  import opened Wrappers

  /** What the worker's standard output holds after a non-zero exit. */
  datatype Envelope = NoEnvelope | MalformedEnvelope | Proper(failure: FailureRecord)

  /** What reading the worker's document leads to: a frontier, an error that `replay` books as a
      protocol failure, or one it does not catch, such as the OverflowError of an infinite
      `replay_count`. */
  datatype Reading = Usable | Unusable | Uncaught

  /** What happens to one worker process. */
  datatype Outcome =
    | SpawnError
    | TimedOut
    | IpcError
    | BadOutput
    | Produced(reading: Reading)
    | Exited(envelope: Envelope)

  datatype Attempt = Attempt(
    id: string, attemptIndex: nat, invocationIndex: nat, failure: Option<FailureRecord>, quarantined: bool)

  datatype Ledger = Ledger(
    invocations: nat,
    retries: nat,
    attempts: seq<Attempt>,
    quarantined: seq<string>,
    lastReplay: seq<Attempt>,
    lastRetained: bool)

  const EMPTY := Ledger(0, 0, [], [], [], false)

  /** What a replay gives its caller: a document, whose reading then succeeds or raises, or a
      `RealCoreFrontierWorkerError`. */
  datatype Result =
    | Document(reading: Reading)
    | WorkerError(failure: FailureRecord, attempts: seq<Attempt>, retryExhausted: bool)

  function IpcFailure(): FailureRecord {
    FailureRecord("worker_ipc", PathFailure, ReplaceWorker, true, "ipc")
  }

  function ProtocolFailure(): FailureRecord {
    Classify(WorkerProtocol, "worker_protocol", false, "protocol")
  }

  /** `_failure_from_worker_output` */
  function FailureFromOutput(e: Envelope): FailureRecord {
    match e
    case NoEnvelope => Classify(WorkerCrash, "worker_crash", false, "crash")
    case MalformedEnvelope => ProtocolFailure()
    case Proper(failure) => failure
  }

  function FailureOf(o: Outcome): Option<FailureRecord> {
    match o
    case SpawnError => Some(IpcFailure())
    case TimedOut => Some(Classify(WorkerTimeout, "worker_timeout", false, "timeout"))
    case IpcError => Some(IpcFailure())
    case BadOutput => Some(ProtocolFailure())
    case Produced(_) => None
    case Exited(envelope) => Some(FailureFromOutput(envelope))
  }

  // ----- the bookkeeping of one attempt -----

  /** `_append_attempt` */
  function Append(l: Ledger, a: Attempt, retain: bool): Ledger {
    l.(attempts := if retain then l.attempts + [a] else l.attempts,
       lastReplay := l.lastReplay + [a],
       lastRetained := retain,
       quarantined := if a.quarantined then l.quarantined + [a.id] else l.quarantined)
  }

  /** `_mark_last_attempt_failed` */
  function MarkLastFailed(l: Ledger, failure: FailureRecord): Ledger
    requires |l.lastReplay| > 0
    requires l.lastRetained ==> |l.attempts| > 0
  {
    var a := l.lastReplay[|l.lastReplay| - 1].(failure := Some(failure), quarantined := true);
    l.(lastReplay := l.lastReplay[..|l.lastReplay| - 1] + [a],
       attempts := (if l.lastRetained then l.attempts[..|l.attempts| - 1] else l.attempts) + [a],
       lastRetained := true,
       quarantined := if a.id in l.quarantined then l.quarantined else l.quarantined + [a.id])
  }

  // ----- one call of _invoke -----

  function Begin(l: Ledger): Ledger {
    l.(lastReplay := [], lastRetained := false)
  }

  function Record(l: Ledger, id: nat -> string, attempt: nat, o: Outcome): Ledger {
    var invoked := l.(invocations := l.invocations + 1);
    var failure := FailureOf(o);
    Append(invoked, Attempt(id(attempt), attempt, invoked.invocations, failure, failure.Some?),
           failure.Some? || |l.lastReplay| > 0)
  }

  /** The attempt loop from `attempt` on; `outcomes[k]` is what the k-th worker does. */
  function InvokeFrom(l: Ledger, maxRetries: nat, id: nat -> string, outcomes: nat -> Outcome, attempt: nat)
    : (Ledger, Result)
    requires attempt <= maxRetries
    decreases maxRetries - attempt
  {
    var o := outcomes(attempt);
    var next := Record(l, id, attempt, o);
    if o.Produced? then (next, Document(o.reading))
    else
      var failure := FailureOf(o).value;
      if o.BadOutput? then (next, WorkerError(failure, next.lastReplay, false))
      else if attempt < maxRetries && failure.retryable then
        InvokeFrom(next.(retries := next.retries + 1), maxRetries, id, outcomes, attempt + 1)
      else
        (next, WorkerError(failure, next.lastReplay, failure.retryable && |next.lastReplay| == maxRetries + 1))
  }

  /** The arguments of one replay, as far as the ledger sees them. */
  datatype Call = Call(id: nat -> string, outcomes: nat -> Outcome)

  /** From `attempt` on, the loop ends in `spec`. */
  ghost predicate Leads(l: Ledger, maxRetries: nat, call: Call, attempt: nat, spec: (Ledger, Result)) {
    attempt <= maxRetries && InvokeFrom(l, maxRetries, call.id, call.outcomes, attempt) == spec
  }

  /** What one attempt leads to. */
  lemma LeadsOn(l: Ledger, maxRetries: nat, call: Call, attempt: nat, spec: (Ledger, Result))
    requires Leads(l, maxRetries, call, attempt, spec)
    ensures var o := call.outcomes(attempt);
      var next := Record(l, call.id, attempt, o);
      && (o.Produced? ==> spec == (next, Document(o.reading)))
      && (o.BadOutput? ==> spec == (next, WorkerError(FailureOf(o).value, next.lastReplay, false)))
      && (o.Exited? ==>
            var failure := FailureOf(o).value;
            if attempt < maxRetries && failure.retryable then
              Leads(next.(retries := next.retries + 1), maxRetries, call, attempt + 1, spec)
            else
              spec == (next, WorkerError(failure, next.lastReplay,
                                         failure.retryable && |next.lastReplay| == maxRetries + 1)))
  {}

  /** `replay`: an unusable document turns the last attempt into a failure after the fact. */
  function Replay(l: Ledger, maxRetries: nat, id: nat -> string, outcomes: nat -> Outcome): (r: (Ledger, Result)) {
    var (next, result) := InvokeFrom(Begin(l), maxRetries, id, outcomes, 0);
    InvokeShape(Begin(l), maxRetries, id, outcomes, 0);
    if result == Document(Unusable) then
      var marked := MarkLastFailed(next, ProtocolFailure());
      (marked, WorkerError(ProtocolFailure(), marked.lastReplay, false))
    else (next, result)
  }

  // ----- what the attempts of one replay look like -----

  ghost predicate Consecutive(attempts: seq<Attempt>, id: nat -> string, first: nat) {
    forall i :: 0 <= i < |attempts| ==>
      attempts[i].attemptIndex == i && attempts[i].id == id(i) && attempts[i].invocationIndex == first + i
  }

  predicate RetryableFailure(a: Attempt) {
    a.quarantined && a.failure.Some? && a.failure.value.retryable
  }

  ghost predicate FailedRetryably(attempts: seq<Attempt>) {
    forall i :: 0 <= i < |attempts| ==> RetryableFailure(attempts[i])
  }

  function Ids(attempts: seq<Attempt>): (r: seq<string>)
    ensures |r| == |attempts|
  {
    seq(|attempts|, i requires 0 <= i < |attempts| => attempts[i].id)
  }

  lemma {:induction false} InvokeShape(
      l: Ledger, maxRetries: nat, id: nat -> string, outcomes: nat -> Outcome, attempt: nat)
    requires attempt <= maxRetries
    ensures var r := InvokeFrom(l, maxRetries, id, outcomes, attempt);
      && |r.0.lastReplay| > |l.lastReplay|
      && (r.0.lastRetained ==> |r.0.attempts| > 0)
      && r.0.invocations > 0
    decreases maxRetries - attempt
  {
    var o := outcomes(attempt);
    if !o.Produced? && !o.BadOutput? && attempt < maxRetries && FailureOf(o).value.retryable {
      var next := Record(l, id, attempt, o);
      InvokeShape(next.(retries := next.retries + 1), maxRetries, id, outcomes, attempt + 1);
    }
  }

  /** State inside the loop: every attempt so far failed retryably and was kept. */
  ghost predicate Midway(l: Ledger, start: Ledger, id: nat -> string, attempt: nat) {
    && |l.lastReplay| == attempt
    && l.invocations == start.invocations + attempt
    && l.retries == start.retries + attempt
    && l.attempts == start.attempts + l.lastReplay
    && Consecutive(l.lastReplay, id, start.invocations + 1)
    && FailedRetryably(l.lastReplay)
    && l.quarantined == start.quarantined + Ids(l.lastReplay)
  }

  /** State when the loop is left. */
  ghost predicate Finished(l: Ledger, start: Ledger, id: nat -> string, maxRetries: nat) {
    var n := |l.lastReplay|;
    && 1 <= n <= maxRetries + 1
    && l.invocations == start.invocations + n
    && l.retries == start.retries + n - 1
    && Consecutive(l.lastReplay, id, start.invocations + 1)
    && FailedRetryably(l.lastReplay[..n - 1])
  }

  ghost predicate EndedInDocument(l: Ledger, start: Ledger)
    requires |l.lastReplay| > 0
  {
    var last := l.lastReplay[|l.lastReplay| - 1];
    var before := l.lastReplay[..|l.lastReplay| - 1];
    && last.failure.None? && !last.quarantined
    && l.lastRetained == (before != [])
    && l.attempts == start.attempts + Kept(l.lastReplay)
    && l.quarantined == start.quarantined + Ids(before)
  }

  ghost predicate EndedInError(l: Ledger, start: Ledger, e: Result)
    requires |l.lastReplay| > 0
  {
    var last := l.lastReplay[|l.lastReplay| - 1];
    && e.WorkerError? && e.attempts == l.lastReplay
    && last.failure == Some(e.failure) && last.quarantined
    && l.attempts == start.attempts + Kept(l.lastReplay)
    && l.quarantined == start.quarantined + Ids(l.lastReplay)
    && (e.retryExhausted <==> e.failure.retryable)
  }

  /** The attempts of a replay that stay in the global list: none when the first worker
      succeeded, otherwise all of them. */
  function Kept(attempts: seq<Attempt>): seq<Attempt> {
    if |attempts| == 1 && !attempts[0].quarantined then [] else attempts
  }

  lemma IdsSnoc(attempts: seq<Attempt>, a: Attempt)
    ensures Ids(attempts + [a]) == Ids(attempts) + [a.id]
  {
  }

  lemma RecordMidway(l: Ledger, start: Ledger, id: nat -> string, attempt: nat, o: Outcome)
    requires Midway(l, start, id, attempt)
    requires FailureOf(o).Some? && FailureOf(o).value.retryable
    ensures var next := Record(l, id, attempt, o);
      Midway(next.(retries := next.retries + 1), start, id, attempt + 1)
  {
    var next := Record(l, id, attempt, o);
    var a := next.lastReplay[attempt];
    IdsSnoc(l.lastReplay, a);
    assert l.attempts + [a] == start.attempts + (l.lastReplay + [a]);
    assert l.quarantined + [a.id] == start.quarantined + (Ids(l.lastReplay) + [a.id]);
  }

  lemma RecordFinished(l: Ledger, start: Ledger, id: nat -> string, attempt: nat, o: Outcome, maxRetries: nat)
    requires Midway(l, start, id, attempt) && attempt <= maxRetries
    ensures Finished(Record(l, id, attempt, o), start, id, maxRetries)
    ensures Record(l, id, attempt, o).lastReplay[..attempt] == l.lastReplay
  {
    assert Record(l, id, attempt, o).lastReplay[..attempt] == l.lastReplay;
  }

  lemma RecordDocument(l: Ledger, start: Ledger, id: nat -> string, attempt: nat, o: Outcome)
    requires Midway(l, start, id, attempt) && o.Produced?
    ensures EndedInDocument(Record(l, id, attempt, o), start)
  {
    var next := Record(l, id, attempt, o);
    var a := next.lastReplay[attempt];
    assert next.lastReplay == l.lastReplay + [a] && next.lastReplay[..attempt] == l.lastReplay;
    assert l.attempts + [a] == start.attempts + (l.lastReplay + [a]);
    if attempt == 0 {
      assert start.attempts + [] == start.attempts;
      assert start.quarantined + [] == start.quarantined;
    }
  }

  /** An attempt that failed, whether or not the loop goes on. */
  lemma RecordError(l: Ledger, start: Ledger, id: nat -> string, attempt: nat, o: Outcome)
    requires Midway(l, start, id, attempt) && !o.Produced?
    ensures var next := Record(l, id, attempt, o);
      && next.attempts == start.attempts + Kept(next.lastReplay)
      && next.quarantined == start.quarantined + Ids(next.lastReplay)
      && next.lastReplay[attempt].failure == FailureOf(o)
      && next.lastReplay[attempt].quarantined
  {
    var next := Record(l, id, attempt, o);
    var a := next.lastReplay[attempt];
    IdsSnoc(l.lastReplay, a);
    assert next.lastReplay == l.lastReplay + [a];
    assert l.attempts + [a] == start.attempts + (l.lastReplay + [a]);
    assert l.quarantined + [a.id] == start.quarantined + (Ids(l.lastReplay) + [a.id]);
  }

  /** What the loop's end promises. */
  ghost predicate Ended(next: Ledger, result: Result, start: Ledger, id: nat -> string, maxRetries: nat) {
    && Finished(next, start, id, maxRetries)
    && (result.Document? ==> EndedInDocument(next, start))
    && (result.WorkerError? ==> EndedInError(next, start, result))
  }

  lemma EndsHere(l: Ledger, start: Ledger, maxRetries: nat, id: nat -> string, outcomes: nat -> Outcome, attempt: nat)
    requires attempt <= maxRetries && Midway(l, start, id, attempt)
    requires !GoesOn(outcomes(attempt), attempt, maxRetries)
    ensures var (next, result) := InvokeFrom(l, maxRetries, id, outcomes, attempt);
      Ended(next, result, start, id, maxRetries)
  {
    var o := outcomes(attempt);
    RecordFinished(l, start, id, attempt, o, maxRetries);
    if o.Produced? { RecordDocument(l, start, id, attempt, o); } else { RecordError(l, start, id, attempt, o); }
  }

  /** The attempt is followed by another. */
  predicate GoesOn(o: Outcome, attempt: nat, maxRetries: nat) {
    !o.Produced? && !o.BadOutput? && attempt < maxRetries && FailureOf(o).value.retryable
  }

  lemma {:induction false} InvokeOutcome(
      l: Ledger, start: Ledger, maxRetries: nat, id: nat -> string, outcomes: nat -> Outcome, attempt: nat)
    requires attempt <= maxRetries && Midway(l, start, id, attempt)
    ensures var (next, result) := InvokeFrom(l, maxRetries, id, outcomes, attempt);
      Ended(next, result, start, id, maxRetries)
    decreases maxRetries - attempt
  {
    var o := outcomes(attempt);
    if GoesOn(o, attempt, maxRetries) {
      RecordMidway(l, start, id, attempt, o);
      var next := Record(l, id, attempt, o);
      InvokeOutcome(next.(retries := next.retries + 1), start, maxRetries, id, outcomes, attempt + 1);
    } else {
      EndsHere(l, start, maxRetries, id, outcomes, attempt);
    }
  }

  // ----- one replay, and any run of replays -----

  /** The identifiers in a quarantine list, as a set. */
  function Members(ids: seq<string>): set<string> {
    set s | s in ids
  }

  ghost function QuarantinedIds(attempts: seq<Attempt>): set<string> {
    set a | a in attempts && a.quarantined :: a.id
  }

  ghost predicate AllFailed(attempts: seq<Attempt>) {
    forall i :: 0 <= i < |attempts| ==> attempts[i].quarantined
  }

  /** What a replay leaves in the ledger, whatever its result. Its attempts are numbered
      consecutively, all but the last failed retryably, and there are at most
      `maxRetries + 1`. The global list grows by all of them, unless the first worker's
      document was usable. */
  ghost predicate Booked(next: Ledger, l: Ledger, id: nat -> string, maxRetries: nat) {
    && Finished(next, l, id, maxRetries)
    && next.attempts == l.attempts + Kept(next.lastReplay)
    && Members(next.quarantined) == Members(l.quarantined) + QuarantinedIds(next.lastReplay)
  }

  /** A document that is read, or whose reading raises what `replay` does not catch, leaves its attempt
      unquarantined; an error carries quarantined attempts only, names the last one's failure, and
      reports exhaustion exactly for a retryable failure. */
  ghost predicate Reported(result: Result, attempts: seq<Attempt>)
    requires |attempts| > 0
  {
    match result
    case Document(reading) => !reading.Unusable? && !attempts[|attempts| - 1].quarantined
    case WorkerError(failure, reported, retryExhausted) =>
      && reported == attempts
      && AllFailed(attempts)
      && attempts[|attempts| - 1].failure == Some(failure)
      && (retryExhausted <==> failure.retryable)
  }

  lemma ReplayOutcome(l: Ledger, maxRetries: nat, id: nat -> string, outcomes: nat -> Outcome)
    ensures var (next, result) := Replay(l, maxRetries, id, outcomes);
      Booked(next, l, id, maxRetries) && Reported(result, next.lastReplay)
  {
    var start := Begin(l);
    InvokeOutcome(start, start, maxRetries, id, outcomes, 0);
    var (next, result) := InvokeFrom(start, maxRetries, id, outcomes, 0);
    if result.WorkerError? {
      ErrorOutcome(next, l, result, id, maxRetries);
    } else {
      DocumentOutcome(next, l, id, maxRetries);
      if result.reading.Unusable? {
        MarkedShape(next, l, id, maxRetries);
        MarkedKept(next, l);
        MarkedQuarantined(next, l);
      }
    }
  }

  lemma ErrorOutcome(next: Ledger, l: Ledger, result: Result, id: nat -> string, maxRetries: nat)
    requires Finished(next, l, id, maxRetries) && EndedInError(next, l, result)
    ensures Booked(next, l, id, maxRetries) && Reported(result, next.lastReplay)
  {
    forall i | 0 <= i < |next.lastReplay| ensures next.lastReplay[i].quarantined {
      if i < |next.lastReplay| - 1 { assert RetryableFailure(next.lastReplay[..|next.lastReplay| - 1][i]); }
    }
    AllQuarantined(next.lastReplay);
    SplitMembers(l.quarantined, Ids(next.lastReplay));
  }

  lemma DocumentOutcome(next: Ledger, l: Ledger, id: nat -> string, maxRetries: nat)
    requires Finished(next, l, id, maxRetries) && EndedInDocument(next, l)
    ensures Booked(next, l, id, maxRetries)
  {
    var n := |next.lastReplay|;
    var before, last := next.lastReplay[..n - 1], next.lastReplay[n - 1];
    assert next.lastReplay == before + [last];
    AllQuarantined(before);
    SplitMembers(l.quarantined, Ids(before));
    SplitQuarantined(before, [last]);
    assert QuarantinedIds([last]) == {};
  }

  lemma AllQuarantined(attempts: seq<Attempt>)
    requires forall i :: 0 <= i < |attempts| ==> attempts[i].quarantined
    ensures QuarantinedIds(attempts) == Members(Ids(attempts))
  {
    forall s | s in QuarantinedIds(attempts) ensures s in Members(Ids(attempts)) {
      var a :| a in attempts && a.quarantined && a.id == s;
      var i :| 0 <= i < |attempts| && attempts[i] == a;
      assert Ids(attempts)[i] == s;
    }
    forall s | s in Members(Ids(attempts)) ensures s in QuarantinedIds(attempts) {
      var i :| 0 <= i < |attempts| && Ids(attempts)[i] == s;
      assert attempts[i] in attempts;
    }
  }

  lemma SplitMembers(a: seq<string>, b: seq<string>)
    ensures Members(a + b) == Members(a) + Members(b)
  {
    assert forall s :: s in a + b <==> s in a || s in b;
  }

  lemma SplitQuarantined(a: seq<Attempt>, b: seq<Attempt>)
    ensures QuarantinedIds(a + b) == QuarantinedIds(a) + QuarantinedIds(b)
  {
    assert forall x :: x in a + b <==> x in a || x in b;
  }

  /** The correction changes the last attempt of the replay only. */
  lemma MarkedLast(l: Ledger, start: Ledger)
    requires |l.lastReplay| > 0 && EndedInDocument(l, start)
    ensures var n := |l.lastReplay|;
      var attempts := MarkLastFailed(l, ProtocolFailure()).lastReplay;
      && |attempts| == n && attempts[..n - 1] == l.lastReplay[..n - 1]
      && attempts[n - 1] == l.lastReplay[n - 1].(failure := Some(ProtocolFailure()), quarantined := true)
  {
  }

  lemma MarkedShape(l: Ledger, start: Ledger, id: nat -> string, maxRetries: nat)
    requires Finished(l, start, id, maxRetries) && EndedInDocument(l, start)
    ensures var marked := MarkLastFailed(l, ProtocolFailure());
      && Finished(marked, start, id, maxRetries)
      && AllFailed(marked.lastReplay)
      && Reported(WorkerError(ProtocolFailure(), marked.lastReplay, false), marked.lastReplay)
  {
    var n := |l.lastReplay|;
    var attempts := MarkLastFailed(l, ProtocolFailure()).lastReplay;
    MarkedLast(l, start);
    forall i | 0 <= i < n - 1 ensures attempts[i] == l.lastReplay[i] && attempts[i].quarantined {
      assert attempts[..n - 1][i] == l.lastReplay[..n - 1][i];
      assert RetryableFailure(l.lastReplay[..n - 1][i]);
    }
  }

  lemma MarkedKept(l: Ledger, start: Ledger)
    requires |l.lastReplay| > 0 && EndedInDocument(l, start)
    requires AllFailed(MarkLastFailed(l, ProtocolFailure()).lastReplay)
    ensures var marked := MarkLastFailed(l, ProtocolFailure());
      marked.attempts == start.attempts + Kept(marked.lastReplay)
  {
    var marked := MarkLastFailed(l, ProtocolFailure());
    var n := |l.lastReplay|;
    var before, last := l.lastReplay[..n - 1], l.lastReplay[n - 1];
    assert l.lastReplay == before + [last];
    MarkedAttempts(l.attempts, start.attempts, before, last, marked.lastReplay[n - 1], l.lastRetained);
  }

  lemma MarkedQuarantined(l: Ledger, start: Ledger)
    requires |l.lastReplay| > 0 && EndedInDocument(l, start)
    requires Members(l.quarantined) == Members(start.quarantined) + QuarantinedIds(l.lastReplay)
    ensures var marked := MarkLastFailed(l, ProtocolFailure());
      Members(marked.quarantined) == Members(start.quarantined) + QuarantinedIds(marked.lastReplay)
  {
    var marked := MarkLastFailed(l, ProtocolFailure());
    var n := |l.lastReplay|;
    var before, last, a := l.lastReplay[..n - 1], l.lastReplay[n - 1], marked.lastReplay[n - 1];
    assert l.lastReplay == before + [last];
    SplitQuarantined(before, [a]);
    SplitQuarantined(before, [last]);
    SplitMembers(l.quarantined, [a.id]);
    assert QuarantinedIds([last]) == {};
    assert QuarantinedIds([a]) == {a.id} by { assert a in [a]; }
    assert Members([a.id]) == {a.id};
    assert a.id in l.quarantined <==> a.id in Members(l.quarantined);
  }

  lemma MarkedAttempts(all: seq<Attempt>, start: seq<Attempt>, before: seq<Attempt>, last: Attempt, a: Attempt,
                       retained: bool)
    requires all == start + (if retained then before + [last] else [])
    requires !retained ==> before == []
    ensures (if retained then all[..|all| - 1] else all) + [a] == start + (before + [a])
  {
    if retained { assert all[..|all| - 1] == start + before; }
  }

  // ----- one replay, said of the workers alone -----

  ghost predicate IsFailure(f: Option<FailureRecord>, category: string, retryable: bool) {
    && f.Some? && f.value.category == category && f.value.disposition == PathFailure
    && f.value.recovery == ReplaceWorker && f.value.retryable == retryable
  }

  /** How an attempt is booked for what its worker did. */
  ghost predicate BookedAs(f: Option<FailureRecord>, o: Outcome) {
    match o
    case SpawnError => IsFailure(f, "worker_ipc", true)
    case TimedOut => IsFailure(f, "worker_timeout", true)
    case IpcError => IsFailure(f, "worker_ipc", true)
    case BadOutput => IsFailure(f, "worker_protocol", false)
    case Produced(reading) => if reading.Unusable? then IsFailure(f, "worker_protocol", false) else f.None?
    case Exited(NoEnvelope) => IsFailure(f, "worker_crash", true)
    case Exited(MalformedEnvelope) => IsFailure(f, "worker_protocol", false)
    case Exited(Proper(failure)) => f == Some(failure)
  }

  /** The worker failed in a way that asks for another one. */
  ghost predicate AsksAgain(o: Outcome) {
    || o.SpawnError? || o.TimedOut? || o.IpcError? || o == Exited(NoEnvelope)
    || (o.Exited? && o.envelope.Proper? && o.envelope.failure.retryable)
  }

  ghost predicate AttemptOf(a: Attempt, k: nat, l: Ledger, id: nat -> string, o: Outcome) {
    && a.id == id(k) && a.attemptIndex == k && a.invocationIndex == l.invocations + k + 1
    && BookedAs(a.failure, o) && (a.quarantined <==> a.failure.Some?)
  }

  function IdsUpto(id: nat -> string, n: nat): (r: seq<string>)
    ensures |r| == n && forall i :: 0 <= i < n ==> r[i] == id(i)
  {
    if n == 0 then [] else IdsUpto(id, n - 1) + [id(n - 1)]
  }

  /** Workers 0 to n - 1 were started, each because the one before asked for it, and no more were to be. */
  ghost predicate Started(n: nat, maxRetries: nat, outcomes: nat -> Outcome) {
    && 0 < n <= maxRetries + 1
    && (forall k: nat :: k < n - 1 ==> AsksAgain(outcomes(k)))
    && (n == maxRetries + 1 || !AsksAgain(outcomes(n - 1)))
  }

  /** Each worker started is booked as an attempt of the replay; the ledger keeps all of them, or none when
      the first one succeeded; failed attempts are quarantined; and the caller gets the document of the
      last one or its failure, exhausted exactly if another worker would have been asked for. */
  ghost predicate Replayed(l: Ledger, next: Ledger, result: Result, maxRetries: nat, id: nat -> string,
                           outcomes: nat -> Outcome, n: nat) {
    && Started(n, maxRetries, outcomes)
    && |next.lastReplay| == n && (forall k :: 0 <= k < n ==> AttemptOf(next.lastReplay[k], k, l, id, outcomes(k)))
    && next.invocations == l.invocations + n && next.retries == l.retries + n - 1
    && var o := outcomes(n - 1);
      var good := o == Produced(Usable) || o == Produced(Uncaught);
      && next.attempts == l.attempts + (if good && n == 1 then [] else next.lastReplay)
      && next.lastRetained == !(good && n == 1)
      && QuarantinedFor(l, next, id, o, n)
      && AnswerOf(result, next, o, maxRetries)
  }

  ghost predicate QuarantinedFor(l: Ledger, next: Ledger, id: nat -> string, o: Outcome, n: nat)
    requires n > 0
  {
    var before := l.quarantined + IdsUpto(id, n - 1);
    if o == Produced(Usable) || o == Produced(Uncaught) then next.quarantined == before
    else if o == Produced(Unusable) && id(n - 1) in before then next.quarantined == before
    else next.quarantined == before + [id(n - 1)]
  }

  ghost predicate AnswerOf(result: Result, next: Ledger, o: Outcome, maxRetries: nat)
    requires |next.lastReplay| > 0
  {
    if o == Produced(Usable) || o == Produced(Uncaught) then result == Document(o.reading)
    else
      && result.WorkerError? && result.attempts == next.lastReplay
      && next.lastReplay[|next.lastReplay| - 1].failure == Some(result.failure)
      && (result.retryExhausted <==> AsksAgain(o))
  }

  lemma BookedMeaning(o: Outcome)
    ensures !o.Produced? ==> BookedAs(FailureOf(o), o) && FailureOf(o).Some?
    ensures !o.Produced? ==> (AsksAgain(o) <==> FailureOf(o).value.retryable)
    ensures o.Produced? ==> FailureOf(o).None?
    ensures IsFailure(Some(ProtocolFailure()), "worker_protocol", false)
  {
  }

  /** The first `n` workers were started and all asked for another one. */
  ghost predicate AllAsked(start: Ledger, l: Ledger, maxRetries: nat, id: nat -> string, outcomes: nat -> Outcome,
                           n: nat) {
    && n <= maxRetries && (forall k: nat :: k < n ==> AsksAgain(outcomes(k)))
    && |l.lastReplay| == n && (forall k :: 0 <= k < n ==> AttemptOf(l.lastReplay[k], k, start, id, outcomes(k)))
    && l.invocations == start.invocations + n && l.retries == start.retries + n
    && l.attempts == start.attempts + l.lastReplay && l.quarantined == start.quarantined + IdsUpto(id, n)
  }

  /** The ledger after worker `n` as `Record` leaves it. */
  ghost predicate OneMore(start: Ledger, next: Ledger, id: nat -> string, outcomes: nat -> Outcome, n: nat) {
    var o := outcomes(n);
    && |next.lastReplay| == n + 1
    && (forall k :: 0 <= k < n ==> AttemptOf(next.lastReplay[k], k, start, id, outcomes(k)))
    && (if o.Produced? then next.lastReplay[n] == Attempt(id(n), n, start.invocations + n + 1, None, false)
        else AttemptOf(next.lastReplay[n], n, start, id, o) && next.lastReplay[n].failure == FailureOf(o))
    && next.invocations == start.invocations + n + 1 && next.retries == start.retries + n
    && next.attempts == start.attempts + (if o.Produced? && n == 0 then [] else next.lastReplay)
    && next.lastRetained == !(o.Produced? && n == 0)
    && next.quarantined == start.quarantined + (if o.Produced? then IdsUpto(id, n) else IdsUpto(id, n + 1))
  }

  lemma RecordMeaning(start: Ledger, l: Ledger, maxRetries: nat, id: nat -> string, outcomes: nat -> Outcome, n: nat)
    requires AllAsked(start, l, maxRetries, id, outcomes, n)
    ensures OneMore(start, Record(l, id, n, outcomes(n)), id, outcomes, n)
  {
    BookedMeaning(outcomes(n));
    assert start.quarantined + IdsUpto(id, n) + [id(n)] == start.quarantined + (IdsUpto(id, n) + [id(n)]);
  }

  /** How the attempt loop ends, before `replay` looks at the document. */
  ghost predicate Invoked(start: Ledger, next: Ledger, result: Result, maxRetries: nat, id: nat -> string,
                          outcomes: nat -> Outcome, n: nat) {
    && Started(n + 1, maxRetries, outcomes) && OneMore(start, next, id, outcomes, n)
    && (if outcomes(n).Produced? then result == Document(outcomes(n).reading)
        else
          && result.WorkerError? && result.attempts == next.lastReplay
          && Some(result.failure) == FailureOf(outcomes(n)) && (result.retryExhausted <==> AsksAgain(outcomes(n))))
  }

  /** With no reason or no room for another worker, the loop ends here. */
  lemma InvokeStops(start: Ledger, l: Ledger, maxRetries: nat, id: nat -> string, outcomes: nat -> Outcome, n: nat)
    requires AllAsked(start, l, maxRetries, id, outcomes, n) && !(AsksAgain(outcomes(n)) && n < maxRetries)
    ensures var (next, result) := InvokeFrom(l, maxRetries, id, outcomes, n);
      Invoked(start, next, result, maxRetries, id, outcomes, n)
  {
    RecordMeaning(start, l, maxRetries, id, outcomes, n);
    BookedMeaning(outcomes(n));
  }

  lemma InvokeGoesOn(start: Ledger, l: Ledger, maxRetries: nat, id: nat -> string, outcomes: nat -> Outcome, n: nat)
    requires AllAsked(start, l, maxRetries, id, outcomes, n) && AsksAgain(outcomes(n)) && n < maxRetries
    ensures var next := Record(l, id, n, outcomes(n));
      var again := next.(retries := next.retries + 1);
      && AllAsked(start, again, maxRetries, id, outcomes, n + 1)
      && InvokeFrom(l, maxRetries, id, outcomes, n) == InvokeFrom(again, maxRetries, id, outcomes, n + 1)
  {
    RecordMeaning(start, l, maxRetries, id, outcomes, n);
    BookedMeaning(outcomes(n));
  }

  lemma {:induction false} InvokeMeaning(start: Ledger, l: Ledger, maxRetries: nat, id: nat -> string,
                                         outcomes: nat -> Outcome, n: nat)
    returns (last: nat)
    requires AllAsked(start, l, maxRetries, id, outcomes, n)
    ensures var (next, result) := InvokeFrom(l, maxRetries, id, outcomes, n);
      Invoked(start, next, result, maxRetries, id, outcomes, last)
    decreases maxRetries - n
  {
    if AsksAgain(outcomes(n)) && n < maxRetries {
      InvokeGoesOn(start, l, maxRetries, id, outcomes, n);
      var next := Record(l, id, n, outcomes(n));
      last := InvokeMeaning(start, next.(retries := next.retries + 1), maxRetries, id, outcomes, n + 1);
    } else {
      InvokeStops(start, l, maxRetries, id, outcomes, n);
      last := n;
    }
  }

  lemma MarkedMeaning(start: Ledger, next: Ledger, maxRetries: nat, id: nat -> string, outcomes: nat -> Outcome,
                      n: nat)
    requires Invoked(start, next, Document(Unusable), maxRetries, id, outcomes, n)
    ensures next.lastRetained ==> |next.attempts| > 0
    ensures var marked := MarkLastFailed(next, ProtocolFailure());
      Replayed(start, marked, WorkerError(ProtocolFailure(), marked.lastReplay, false), maxRetries, id, outcomes, n + 1)
  {
    var marked := MarkLastFailed(next, ProtocolFailure());
    BookedMeaning(outcomes(n));
    var front := next.lastReplay[..n];
    assert next.lastReplay == front + [next.lastReplay[n]];
    if n > 0 {
      assert next.attempts[..|next.attempts| - 1] == start.attempts + front;
      assert start.attempts + front + [marked.lastReplay[n]] == start.attempts + marked.lastReplay;
    }
  }

  lemma UnmarkedMeaning(start: Ledger, next: Ledger, result: Result, maxRetries: nat, id: nat -> string,
                        outcomes: nat -> Outcome, n: nat)
    requires Invoked(start, next, result, maxRetries, id, outcomes, n) && result != Document(Unusable)
    ensures Replayed(start, next, result, maxRetries, id, outcomes, n + 1)
  {
    BookedMeaning(outcomes(n));
    assert start.quarantined + IdsUpto(id, n) + [id(n)] == start.quarantined + (IdsUpto(id, n) + [id(n)]);
  }

  lemma NothingAsked(l: Ledger, maxRetries: nat, id: nat -> string, outcomes: nat -> Outcome)
    ensures AllAsked(Begin(l), Begin(l), maxRetries, id, outcomes, 0)
  {
    assert Begin(l).attempts + [] == Begin(l).attempts && Begin(l).quarantined + [] == Begin(l).quarantined;
  }

  /** A replay does exactly that. */
  lemma ReplayMeaning(l: Ledger, maxRetries: nat, id: nat -> string, outcomes: nat -> Outcome) returns (n: nat)
    ensures var (next, result) := Replay(l, maxRetries, id, outcomes);
      Replayed(l, next, result, maxRetries, id, outcomes, n)
  {
    NothingAsked(l, maxRetries, id, outcomes);
    var last := InvokeMeaning(Begin(l), Begin(l), maxRetries, id, outcomes, 0);
    var (next, result) := InvokeFrom(Begin(l), maxRetries, id, outcomes, 0);
    if result == Document(Unusable) {
      MarkedMeaning(Begin(l), next, maxRetries, id, outcomes, last);
      SameStart(l, Replay(l, maxRetries, id, outcomes).0, Replay(l, maxRetries, id, outcomes).1, maxRetries, id,
                outcomes, last + 1);
    } else {
      UnmarkedMeaning(Begin(l), next, result, maxRetries, id, outcomes, last);
      SameStart(l, next, result, maxRetries, id, outcomes, last + 1);
    }
    n := last + 1;
  }

  /** What `Begin` clears plays no part. */
  lemma SameStart(l: Ledger, next: Ledger, result: Result, maxRetries: nat, id: nat -> string,
                  outcomes: nat -> Outcome, n: nat)
    requires Replayed(Begin(l), next, result, maxRetries, id, outcomes, n)
    ensures Replayed(l, next, result, maxRetries, id, outcomes, n)
  {
    forall k | 0 <= k < n ensures AttemptOf(next.lastReplay[k], k, l, id, outcomes(k)) {
      assert AttemptOf(next.lastReplay[k], k, Begin(l), id, outcomes(k));
    }
  }

  function Run(l: Ledger, maxRetries: nat, calls: seq<Call>): Ledger
    decreases |calls|
  {
    if |calls| == 0 then l
    else Run(Replay(l, maxRetries, calls[0].id, calls[0].outcomes).0, maxRetries, calls[1..])
  }

  ghost predicate Increasing(attempts: seq<Attempt>, bound: nat) {
    && (forall i, j :: 0 <= i < j < |attempts| ==> attempts[i].invocationIndex < attempts[j].invocationIndex)
    && (forall i :: 0 <= i < |attempts| ==> attempts[i].invocationIndex <= bound)
  }

  /** The ledger invariant after `calls` replays. */
  ghost predicate Consistent(l: Ledger, calls: nat) {
    && l.invocations == l.retries + calls
    && Increasing(l.attempts, l.invocations)
    && Members(l.quarantined) == QuarantinedIds(l.attempts)
  }

  lemma ReplayConsistent(l: Ledger, calls: nat, maxRetries: nat, id: nat -> string, outcomes: nat -> Outcome)
    requires Consistent(l, calls)
    ensures Consistent(Replay(l, maxRetries, id, outcomes).0, calls + 1)
  {
    ReplayOutcome(l, maxRetries, id, outcomes);
    BookedConsistent(Replay(l, maxRetries, id, outcomes).0, l, calls, maxRetries, id);
  }

  lemma BookedConsistent(next: Ledger, l: Ledger, calls: nat, maxRetries: nat, id: nat -> string)
    requires Consistent(l, calls) && Booked(next, l, id, maxRetries)
    ensures Consistent(next, calls + 1)
  {
    var kept := Kept(next.lastReplay);
    SplitQuarantined(l.attempts, kept);
    if kept == [] {
      assert QuarantinedIds(next.lastReplay) == {} by {
        assert forall a :: a in next.lastReplay ==> a == next.lastReplay[0];
      }
      assert QuarantinedIds(kept) == {};
    }
  }

  /** Over any sequence of replays: invocations are retries plus replays, retained attempts
      carry strictly increasing invocation indices, and the quarantined identifiers are
      exactly those of the quarantined retained attempts. */
  lemma {:induction false} RunConsistent(l: Ledger, done: nat, maxRetries: nat, calls: seq<Call>)
    requires Consistent(l, done)
    ensures Consistent(Run(l, maxRetries, calls), done + |calls|)
    decreases |calls|
  {
    if |calls| > 0 {
      ReplayConsistent(l, done, maxRetries, calls[0].id, calls[0].outcomes);
      RunConsistent(Replay(l, maxRetries, calls[0].id, calls[0].outcomes).0, done + 1, maxRetries, calls[1..]);
    }
  }

  lemma FreshAdapterConsistent(maxRetries: nat, calls: seq<Call>)
    ensures Consistent(Run(EMPTY, maxRetries, calls), |calls|)
  {
    assert Consistent(EMPTY, 0);
    RunConsistent(EMPTY, 0, maxRetries, calls);
  }

  // ----- the class -----

  class RealCoreFrontierAdapter {
    const maxRetries: nat
    var workerInvocations: nat
    var workerRetries: nat
    var workerAttempts: seq<Attempt>
    var quarantinedAttemptIds: seq<string>
    var lastReplayAttempts: seq<Attempt>
    var lastAttemptRetained: bool

    ghost function Contents(): Ledger
      reads this
    {
      Ledger(workerInvocations, workerRetries, workerAttempts, quarantinedAttemptIds, lastReplayAttempts,
             lastAttemptRetained)
    }

    constructor (maxRetries: nat)
      ensures this.maxRetries == maxRetries && Contents() == EMPTY
    {
      this.maxRetries := maxRetries;
      workerInvocations, workerRetries := 0, 0;
      workerAttempts, quarantinedAttemptIds, lastReplayAttempts := [], [], [];
      lastAttemptRetained := false;
    }

    method AppendAttempt(record: Attempt, retainGlobal: bool)
      modifies this
      ensures Contents() == Append(old(Contents()), record, retainGlobal)
    {
      if retainGlobal {
        workerAttempts := workerAttempts + [record];
      }
      lastReplayAttempts := lastReplayAttempts + [record];
      lastAttemptRetained := retainGlobal;
      if record.quarantined {
        quarantinedAttemptIds := quarantinedAttemptIds + [record.id];
      }
    }

    method MarkLastAttemptFailed(failure: FailureRecord)
      requires |lastReplayAttempts| > 0
      requires lastAttemptRetained ==> |workerAttempts| > 0
      modifies this
      ensures Contents() == MarkLastFailed(old(Contents()), failure)
    {
      var canonical := lastReplayAttempts[|lastReplayAttempts| - 1].(failure := Some(failure), quarantined := true);
      lastReplayAttempts := lastReplayAttempts[..|lastReplayAttempts| - 1] + [canonical];
      if lastAttemptRetained {
        workerAttempts := workerAttempts[..|workerAttempts| - 1] + [canonical];
      } else {
        workerAttempts := workerAttempts + [canonical];
        lastAttemptRetained := true;
      }
      if canonical.id !in quarantinedAttemptIds {
        quarantinedAttemptIds := quarantinedAttemptIds + [canonical.id];
      }
    }

    /** One attempt: the worker is run and what it did is booked. A first attempt that produces a
        document is not kept in the adapter's own list. */
    method RunWorker(id: nat -> string, attempt: nat, outcome: Outcome) returns (failure: Option<FailureRecord>)
      modifies this
      ensures Contents() == Record(old(Contents()), id, attempt, outcome) && failure == FailureOf(outcome)
    {
      workerInvocations := workerInvocations + 1;
      failure := FailureOf(outcome);
      var record := Attempt(id(attempt), attempt, workerInvocations, failure, failure.Some?);
      AppendAttempt(record, failure.Some? || |lastReplayAttempts| > 0);
    }

    method Invoke(id: nat -> string, outcomes: nat -> Outcome) returns (result: Result)
      modifies this
      ensures (Contents(), result) == InvokeFrom(Begin(old(Contents())), maxRetries, id, outcomes, 0)
    {
      lastReplayAttempts := [];
      lastAttemptRetained := false;
      ghost var spec := InvokeFrom(Contents(), maxRetries, id, outcomes, 0);
      var lastFailure: FailureRecord;
      var attempt := 0;
      while true
        invariant attempt <= maxRetries && Leads(Contents(), maxRetries, Call(id, outcomes), attempt, spec)
        decreases maxRetries - attempt
      {
        LeadsOn(Contents(), maxRetries, Call(id, outcomes), attempt, spec);
        var outcome := outcomes(attempt);
        var failure := RunWorker(id, attempt, outcome);
        if outcome.Produced? {
          return Document(outcome.reading);
        }
        lastFailure := failure.value;
        if outcome.BadOutput? {
          return WorkerError(lastFailure, lastReplayAttempts, false);
        }
        if attempt >= maxRetries || !lastFailure.retryable {
          break;
        }
        workerRetries := workerRetries + 1;
        attempt := attempt + 1;
      }
      var retryExhausted := lastFailure.retryable && |lastReplayAttempts| == maxRetries + 1;
      return WorkerError(lastFailure, lastReplayAttempts, retryExhausted);
    }

    method ReplayPrefix(id: nat -> string, outcomes: nat -> Outcome) returns (result: Result)
      modifies this
      ensures (Contents(), result) == Replay(old(Contents()), maxRetries, id, outcomes)
      ensures exists n :: Replayed(old(Contents()), Contents(), result, maxRetries, id, outcomes, n)
    {
      ghost var n := ReplayMeaning(Contents(), maxRetries, id, outcomes);
      InvokeShape(Begin(Contents()), maxRetries, id, outcomes, 0);
      result := Invoke(id, outcomes);
      if result == Document(Unusable) {
        MarkLastAttemptFailed(ProtocolFailure());
        result := WorkerError(ProtocolFailure(), lastReplayAttempts, false);
      }
    }
  }
}
