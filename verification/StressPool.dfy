/** The parallel stress executor: `_execute_task` and `_execute_plan` of
    `prototype/real_core_stress.py`, and the aggregation they feed
    (`ParallelExecutionPlan.aggregate`).

    Tasks run in a bounded pool and finish in any order; what is reported must not depend
    on that order. */
module StressPool {
  import opened Failures
  import opened Order
  import opened Sequences
  import opened Wrappers

  /** What one worker process returns. A process that succeeds may still hold a malformed
      document; a failed one may come without a classified record. */
  datatype Process =
    | Done(route: string, replay: string, score: real)
    | Malformed
    | Failed(record: Option<FailureRecord>, category: Option<string>, diagnostic: string)

  const RETRYABLE_CATEGORIES := {"callback_error", "worker_crash", "worker_timeout"}

  /** `process.failure_record or _fallback_process_failure(process)` */
  function FailureOf(p: Process): FailureRecord
    requires p.Failed?
  {
    if p.record.Some? then p.record.value
    else
      var category := if p.category.Some? && p.category.value != "" then p.category.value else "worker_protocol";
      var retryable := category in RETRYABLE_CATEGORIES;
      FailureRecord(category, PathFailure, if retryable then ReplaceWorker else StopPath, retryable,
                    if p.diagnostic != "" then p.diagnostic else category)
  }

  datatype TaskResult =
    | Success(attempt: nat, route: string, replay: string, score: real)
    | Failure(attempt: nat, failure: FailureRecord)

  /** A task returns its results, or raises on a malformed document. */
  datatype Execution = Returned(results: seq<TaskResult>) | Crashed

  // ----- one task -----

  function TaskFrom(worker: nat -> Process, maxRetries: nat, attempt: nat): Execution
    requires attempt <= maxRetries
    decreases maxRetries - attempt
  {
    match worker(attempt)
    case Done(route, replay, score) => Returned([Success(attempt, route, replay, score)])
    case Malformed => Crashed
    case Failed(_, _, _) =>
      var failure := FailureOf(worker(attempt));
      if attempt < maxRetries && failure.retryable then
        match TaskFrom(worker, maxRetries, attempt + 1)
        case Crashed => Crashed
        case Returned(rest) => Returned([Failure(attempt, failure)] + rest)
      else Returned([Failure(attempt, failure)])
  }

  function Task(worker: nat -> Process, maxRetries: nat): Execution {
    TaskFrom(worker, maxRetries, 0)
  }

  /** The loop of `_execute_task`. */
  method ExecuteTask(worker: nat -> Process, maxRetries: nat) returns (r: Execution)
    ensures r == Task(worker, maxRetries)
  {
    var results: seq<TaskResult> := [];
    var attempt := 0;
    while attempt < maxRetries + 1
      invariant attempt <= maxRetries + 1
      invariant attempt <= maxRetries ==>
        Task(worker, maxRetries) == match TaskFrom(worker, maxRetries, attempt)
                                    case Crashed => Crashed
                                    case Returned(rest) => Returned(results + rest)
      invariant attempt == maxRetries + 1 ==> Task(worker, maxRetries) == Returned(results)
    {
      match worker(attempt) {
        case Malformed => return Crashed;
        case Done(route, replay, score) =>
          return Returned(results + [Success(attempt, route, replay, score)]);
        case Failed(_, _, _) =>
          var failure := FailureOf(worker(attempt));
          var before := results;
          results := results + [Failure(attempt, failure)];
          if !failure.retryable {
            return Returned(results);
          }
          assert forall rest :: before + ([Failure(attempt, failure)] + rest) == results + rest;
      }
      attempt := attempt + 1;
    }
    return Returned(results);
  }

  predicate RetryableFailure(r: TaskResult) {
    r.Failure? && r.failure.retryable
  }

  /** What the aggregation demands of one task's results: numbered from 0, every one but the
      last a retryable failure, at most `maxRetries + 1`, and no retry left unused. */
  ghost predicate Complete(results: seq<TaskResult>, maxRetries: nat) {
    && 1 <= |results| <= maxRetries + 1
    && (forall i :: 0 <= i < |results| ==> results[i].attempt == i)
    && (forall i :: 0 <= i < |results| - 1 ==> RetryableFailure(results[i]))
    && (RetryableFailure(results[|results| - 1]) ==> |results| == maxRetries + 1)
  }

  lemma {:induction false} TaskFromShape(worker: nat -> Process, maxRetries: nat, attempt: nat)
    requires attempt <= maxRetries
    ensures var t := TaskFrom(worker, maxRetries, attempt);
      t.Returned? ==>
        var rs := t.results;
        && 1 <= |rs| <= maxRetries + 1 - attempt
        && (forall i :: 0 <= i < |rs| ==> rs[i].attempt == attempt + i)
        && (forall i :: 0 <= i < |rs| - 1 ==> RetryableFailure(rs[i]))
        && (RetryableFailure(rs[|rs| - 1]) ==> |rs| == maxRetries + 1 - attempt)
    decreases maxRetries - attempt
  {
    if worker(attempt).Failed? && attempt < maxRetries && FailureOf(worker(attempt)).retryable {
      TaskFromShape(worker, maxRetries, attempt + 1);
    }
  }

  lemma TaskComplete(worker: nat -> Process, maxRetries: nat)
    requires Task(worker, maxRetries).Returned?
    ensures Complete(Task(worker, maxRetries).results, maxRetries)
  {
    TaskFromShape(worker, maxRetries, 0);
  }

  // ----- the pool -----

  datatype Plan = Plan(taskIds: seq<string>, poolSize: nat, maxRetries: nat) {
    ghost predicate Valid() {
      && poolSize > 0
      && forall i, j :: 0 <= i < j < |taskIds| ==> taskIds[i] != taskIds[j]
    }
  }

  function ExperimentFailureIn(results: seq<TaskResult>): Option<FailureRecord> {
    if |results| == 0 then None
    else if results[0].Failure? && results[0].failure.disposition == ExperimentFailure then Some(results[0].failure)
    else ExperimentFailureIn(results[1..])
  }

  /** Collecting this task raises. */
  predicate Raises(e: Execution) {
    e.Crashed? || ExperimentFailureIn(e.results).Some?
  }

  type Tagged = (nat, TaskResult)

  function Tag(task: nat, results: seq<TaskResult>): (r: seq<Tagged>)
    ensures |r| == |results|
  {
    seq(|results|, k requires 0 <= k < |results| => (task, results[k]))
  }

  /** `[x for task in order for x in byTask[task]]` */
  function Flatten(order: seq<nat>, byTask: map<nat, seq<TaskResult>>): seq<Tagged>
    requires forall i :: i in order ==> i in byTask
  {
    if |order| == 0 then [] else Tag(order[0], byTask[order[0]]) + Flatten(order[1..], byTask)
  }

  function Upto(n: nat): (r: seq<nat>)
    ensures |r| == n && forall i :: 0 <= i < n ==> r[i] == i
  {
    seq(n, i requires 0 <= i < n => i)
  }

  function Reversed(n: nat): (r: seq<nat>)
    ensures |r| == n && forall i :: 0 <= i < n ==> r[i] == n - 1 - i
  {
    seq(n, i requires 0 <= i < n => n - 1 - i)
  }

  datatype SemanticRoute = SemanticRoute(taskId: string, route: string, replay: string)

  function RouteKey(r: SemanticRoute): string { r.taskId }

  function Routes(plan: Plan, processes: seq<Tagged>): seq<SemanticRoute>
    requires forall p :: p in processes ==> p.0 < |plan.taskIds|
  {
    if |processes| == 0 then []
    else
      var (task, r) := processes[0];
      (if r.Success? then [SemanticRoute(plan.taskIds[task], r.route, r.replay)] else [])
      + Routes(plan, processes[1..])
  }

  /** Everything `_execute_plan` reports except the completion order. */
  datatype Report = Report(aggregateInput: seq<Tagged>, processes: seq<Tagged>, semanticRoutes: seq<SemanticRoute>)

  lemma {:induction false} FlattenTasks(order: seq<nat>, byTask: map<nat, seq<TaskResult>>, n: nat)
    requires forall i :: i in order ==> i in byTask && i < n
    ensures forall p :: p in Flatten(order, byTask) ==> p.0 < n
  {
    if |order| > 0 {
      forall i | i in order[1..] ensures i in byTask && i < n { assert i in order; }
      FlattenTasks(order[1..], byTask, n);
    }
  }

  function ReportOf(plan: Plan, byTask: map<nat, seq<TaskResult>>, reverse: bool): Report
    requires forall i :: 0 <= i < |plan.taskIds| ==> i in byTask
  {
    var n := |plan.taskIds|;
    var processes := Flatten(Upto(n), byTask);
    FlattenTasks(Upto(n), byTask, n);
    Report(Flatten(if reverse then Reversed(n) else Upto(n), byTask), processes,
           SortBy(RouteKey, Routes(plan, processes)))
  }

  datatype Outcome = Completed(report: Report) | Aborted(failure: FailureRecord) | Broken

  /** What each task does when it runs alone. */
  function Alone(workers: nat -> nat -> Process, maxRetries: nat): nat -> Execution {
    (i: nat) => Task(workers(i), maxRetries)
  }

  ghost predicate SomeTaskRaises(n: nat, run: nat -> Execution) {
    exists i :: 0 <= i < n && Raises(run(i))
  }

  function ResultsAlone(n: nat, run: nat -> Execution): map<nat, seq<TaskResult>>
    requires !SomeTaskRaises(n, run)
  {
    map i | 0 <= i < n :: assert !Raises(run(i)); run(i).results
  }

  ghost predicate AbortedBy(n: nat, run: nat -> Execution, failure: FailureRecord) {
    exists i :: 0 <= i < n && run(i).Returned? && ExperimentFailureIn(run(i).results) == Some(failure)
  }

  // ----- what is reported, said of the workers alone -----

  /** Worker `k` is reached: every earlier one failed retryably. */
  ghost predicate Reached(worker: nat -> Process, maxRetries: nat, k: nat) {
    k <= maxRetries && forall j: nat :: j < k ==> worker(j).Failed? && FailureOf(worker(j)).retryable
  }

  ghost predicate EndsIn(worker: nat -> Process, maxRetries: nat, k: nat, route: string, replay: string) {
    Reached(worker, maxRetries, k) && worker(k).Done? && worker(k).route == route && worker(k).replay == replay
  }

  ghost predicate IsResult(r: TaskResult, p: Process, attempt: nat, last: bool, maxRetries: nat) {
    match p
    case Done(route, replay, score) => last && r == Success(attempt, route, replay, score)
    case Malformed => false
    case Failed(_, _, _) =>
      r == Failure(attempt, FailureOf(p)) && (last && FailureOf(p).retryable ==> attempt == maxRetries)
  }

  /** One result per worker reached; the last is a success, a failure that is final, or the failure of
      the last worker there is. */
  ghost predicate RunsOf(results: seq<TaskResult>, worker: nat -> Process, maxRetries: nat) {
    && |results| > 0 && Reached(worker, maxRetries, |results| - 1)
    && (forall i :: 0 <= i < |results| ==>
          IsResult(results[i], worker(i), i, i == |results| - 1, maxRetries))
  }

  ghost predicate FailedSoFar(before: seq<TaskResult>, worker: nat -> Process) {
    forall i :: 0 <= i < |before| ==> worker(i).Failed? && before[i] == Failure(i, FailureOf(worker(i)))
  }

  lemma RunEnds(worker: nat -> Process, maxRetries: nat, before: seq<TaskResult>, r: TaskResult)
    requires Reached(worker, maxRetries, |before|) && FailedSoFar(before, worker)
    requires IsResult(r, worker(|before|), |before|, true, maxRetries)
    ensures RunsOf(before + [r], worker, maxRetries)
  {
  }

  lemma RunGoesOn(worker: nat -> Process, maxRetries: nat, before: seq<TaskResult>)
    requires Reached(worker, maxRetries, |before|) && FailedSoFar(before, worker) && |before| < maxRetries
    requires worker(|before|).Failed? && FailureOf(worker(|before|)).retryable
    ensures Reached(worker, maxRetries, |before| + 1)
    ensures FailedSoFar(before + [Failure(|before|, FailureOf(worker(|before|)))], worker)
  {
  }

  lemma {:induction false} TaskFromMeaning(
      worker: nat -> Process, maxRetries: nat, attempt: nat, before: seq<TaskResult>)
    requires |before| == attempt && Reached(worker, maxRetries, attempt) && FailedSoFar(before, worker)
    ensures match TaskFrom(worker, maxRetries, attempt)
      case Returned(rest) => RunsOf(before + rest, worker, maxRetries)
      case Crashed => exists k :: Reached(worker, maxRetries, k) && worker(k).Malformed?
    decreases maxRetries - attempt
  {
    var p := worker(attempt);
    if p.Failed? && attempt < maxRetries && FailureOf(p).retryable {
      var failure := Failure(attempt, FailureOf(p));
      RunGoesOn(worker, maxRetries, before);
      TaskFromMeaning(worker, maxRetries, attempt + 1, before + [failure]);
      var t := TaskFrom(worker, maxRetries, attempt + 1);
      if t.Returned? { Reassociate(before, [failure], t.results); }
    } else if !p.Malformed? {
      RunEnds(worker, maxRetries, before, TaskFrom(worker, maxRetries, attempt).results[0]);
    }
  }

  /** What a task returns is one result per worker it reached; it raises only on a malformed document. */
  lemma TaskMeaning(worker: nat -> Process, maxRetries: nat)
    ensures match Task(worker, maxRetries)
      case Returned(results) => RunsOf(results, worker, maxRetries)
      case Crashed => exists k :: Reached(worker, maxRetries, k) && worker(k).Malformed?
  {
    TaskFromMeaning(worker, maxRetries, 0, []);
    if Task(worker, maxRetries).Returned? {
      assert [] + Task(worker, maxRetries).results == Task(worker, maxRetries).results;
    }
  }

  /** The record made up for a failed process without one is acceptable, and asks for a retry exactly
      for three categories. */
  lemma FallbackMeaning(p: Process)
    requires p.Failed? && p.record.None?
    ensures var f := FailureOf(p);
      && f.Valid() && f.disposition == PathFailure
      && (p.category.Some? && p.category.value != "" ==> f.category == p.category.value)
      && (p.category.None? || p.category.value == "" ==> f.category == "worker_protocol")
      && (f.retryable <==> f.category == "callback_error" || f.category == "worker_crash"
                           || f.category == "worker_timeout")
      && (f.recovery == ReplaceWorker <==> f.retryable)
      && f.message == (if p.diagnostic == "" then f.category else p.diagnostic)
  {
  }

  predicate Before(reverse: bool, i: nat, j: nat) {
    if reverse then j < i else i < j
  }

  /** Task by task in the given direction, and each task's results by attempt. */
  ghost predicate Sorted(list: seq<Tagged>, reverse: bool) {
    forall p, q :: 0 <= p < q < |list| ==>
      Before(reverse, list[p].0, list[q].0) || (list[p].0 == list[q].0 && list[p].1.attempt < list[q].1.attempt)
  }

  /** The list holds the results of every task, and nothing else. */
  ghost predicate HoldsAll(list: seq<Tagged>, n: nat, results: map<nat, seq<TaskResult>>) {
    forall x :: x in list <==> x.0 < n && x.0 in results && x.1 in results[x.0]
  }

  ghost predicate IsRoute(x: SemanticRoute, plan: Plan, workers: nat -> nat -> Process) {
    exists t: nat, k: nat :: t < |plan.taskIds| && x.taskId == plan.taskIds[t]
      && EndsIn(workers(t), plan.maxRetries, k, x.route, x.replay)
  }

  /** Every task's results are those of the workers it reached, the lists hold all of them in the stated
      order, and a semantic route is listed, by task identifier, exactly for each task that ends in
      a success. */
  ghost predicate Reports(r: Report, plan: Plan, workers: nat -> nat -> Process, reverse: bool) {
    exists results: map<nat, seq<TaskResult>> ::
      && (forall t: nat :: t in results <==> t < |plan.taskIds|)
      && (forall t :: t in results ==> RunsOf(results[t], workers(t), plan.maxRetries))
      && Sorted(r.processes, false) && HoldsAll(r.processes, |plan.taskIds|, results)
      && Sorted(r.aggregateInput, reverse) && HoldsAll(r.aggregateInput, |plan.taskIds|, results)
      && Ascending(RouteKey, r.semanticRoutes)
      && forall x :: x in r.semanticRoutes <==> IsRoute(x, plan, workers)
  }

  lemma {:induction false} FlattenMembers(order: seq<nat>, byTask: map<nat, seq<TaskResult>>, x: Tagged)
    requires forall i :: i in order ==> i in byTask
    ensures x in Flatten(order, byTask) <==> x.0 in order && x.1 in byTask[x.0]
  {
    if |order| > 0 {
      assert order == [order[0]] + order[1..];
      FlattenMembers(order[1..], byTask, x);
      TagMembers(order[0], byTask[order[0]], x);
    }
  }

  lemma TagMembers(task: nat, results: seq<TaskResult>, x: Tagged)
    ensures x in Tag(task, results) <==> x.0 == task && x.1 in results
  {
    if x.0 == task && x.1 in results {
      var k :| 0 <= k < |results| && results[k] == x.1;
      assert Tag(task, results)[k] == x;
    }
  }

  ghost predicate Numbers(results: seq<TaskResult>) {
    forall i :: 0 <= i < |results| ==> results[i].attempt == i
  }

  lemma {:induction false} FlattenSorted(order: seq<nat>, byTask: map<nat, seq<TaskResult>>, reverse: bool)
    requires forall i :: i in order ==> i in byTask && Numbers(byTask[i])
    requires forall p, q :: 0 <= p < q < |order| ==> Before(reverse, order[p], order[q])
    ensures Sorted(Flatten(order, byTask), reverse)
  {
    if |order| > 0 {
      var task, rest := order[0], order[1..];
      assert order == [task] + rest;
      FlattenSorted(rest, byTask, reverse);
      var head, tail := Tag(task, byTask[task]), Flatten(rest, byTask);
      forall q | 0 <= q < |tail| ensures Before(reverse, task, tail[q].0) {
        FlattenMembers(rest, byTask, tail[q]);
        var k :| 0 <= k < |rest| && rest[k] == tail[q].0;
        assert Before(reverse, order[0], order[k + 1]);
      }
      assert Numbers(byTask[task]);
    }
  }

  lemma {:induction false} RoutesMembers(plan: Plan, processes: seq<Tagged>, x: SemanticRoute)
    requires forall p :: p in processes ==> p.0 < |plan.taskIds|
    ensures x in Routes(plan, processes) <==>
      exists p :: p in processes && p.1.Success? && x == SemanticRoute(plan.taskIds[p.0], p.1.route, p.1.replay)
  {
    if |processes| > 0 {
      assert processes == [processes[0]] + processes[1..];
      RoutesMembers(plan, processes[1..], x);
    }
  }

  /** At most one success per task. */
  ghost predicate OneSuccess(processes: seq<Tagged>) {
    forall p, q :: 0 <= p < q < |processes| && processes[p].1.Success? && processes[q].1.Success? ==>
      processes[p].0 != processes[q].0
  }

  lemma {:induction false} RoutesDistinct(plan: Plan, processes: seq<Tagged>)
    requires plan.Valid() && OneSuccess(processes)
    requires forall p :: p in processes ==> p.0 < |plan.taskIds|
    ensures DistinctKeys(RouteKey, Routes(plan, processes))
  {
    if |processes| > 0 {
      var rest := Routes(plan, processes[1..]);
      RoutesDistinct(plan, processes[1..]);
      if processes[0].1.Success? {
        forall j | 0 <= j < |rest| ensures RouteKey(rest[j]) != plan.taskIds[processes[0].0] {
          RoutesMembers(plan, processes[1..], rest[j]);
          var p :| p in processes[1..] && p.1.Success?
            && rest[j] == SemanticRoute(plan.taskIds[p.0], p.1.route, p.1.replay);
          var q :| 0 <= q < |processes[1..]| && processes[1..][q] == p;
          assert processes[q + 1] == p && processes[0].0 != p.0;
        }
      }
    }
  }

  lemma SortedOneSuccess(processes: seq<Tagged>, n: nat, results: map<nat, seq<TaskResult>>,
                         workers: nat -> nat -> Process, maxRetries: nat)
    requires Sorted(processes, false) && HoldsAll(processes, n, results)
    requires forall t :: t in results ==> RunsOf(results[t], workers(t), maxRetries)
    ensures OneSuccess(processes)
  {
    forall p, q | 0 <= p < q < |processes| && processes[p].1.Success? && processes[q].1.Success?
      ensures processes[p].0 != processes[q].0
    {
      assert processes[p] in processes && processes[q] in processes;
      if processes[p].0 == processes[q].0 {
        OnlyLastSucceeds(results[processes[p].0], workers(processes[p].0), maxRetries, processes[p].1);
        OnlyLastSucceeds(results[processes[p].0], workers(processes[p].0), maxRetries, processes[q].1);
      }
    }
  }

  lemma OnlyLastSucceeds(results: seq<TaskResult>, worker: nat -> Process, maxRetries: nat, r: TaskResult)
    requires RunsOf(results, worker, maxRetries) && r in results && r.Success?
    ensures r.attempt == |results| - 1 && EndsIn(worker, maxRetries, r.attempt, r.route, r.replay)
  {
    var i :| 0 <= i < |results| && results[i] == r;
    assert IsResult(results[i], worker(i), i, i == |results| - 1, maxRetries);
  }

  lemma SuccessListed(results: seq<TaskResult>, worker: nat -> Process, maxRetries: nat, k: nat, route: string,
                      replay: string)
    requires RunsOf(results, worker, maxRetries) && EndsIn(worker, maxRetries, k, route, replay)
    ensures k == |results| - 1 && results[k].Success? && results[k].route == route && results[k].replay == replay
  {
    var last := |results| - 1;
    assert IsResult(results[last], worker(last), last, true, maxRetries);
  }

  lemma RoutesMeaning(plan: Plan, workers: nat -> nat -> Process, processes: seq<Tagged>,
                      results: map<nat, seq<TaskResult>>)
    requires plan.Valid() && Sorted(processes, false) && HoldsAll(processes, |plan.taskIds|, results)
    requires forall t: nat :: t in results <==> t < |plan.taskIds|
    requires forall t :: t in results ==> RunsOf(results[t], workers(t), plan.maxRetries)
    ensures forall p :: p in processes ==> p.0 < |plan.taskIds|
    ensures Ascending(RouteKey, SortBy(RouteKey, Routes(plan, processes)))
    ensures forall x :: x in SortBy(RouteKey, Routes(plan, processes)) <==> IsRoute(x, plan, workers)
  {
    SortedOneSuccess(processes, |plan.taskIds|, results, workers, plan.maxRetries);
    RoutesDistinct(plan, processes);
    SortAscending(RouteKey, Routes(plan, processes));
    forall x ensures x in SortBy(RouteKey, Routes(plan, processes)) <==> IsRoute(x, plan, workers) {
      SortMembers(RouteKey, Routes(plan, processes), x);
      RoutesMembers(plan, processes, x);
      if x in Routes(plan, processes) {
        var p :| p in processes && p.1.Success? && x == SemanticRoute(plan.taskIds[p.0], p.1.route, p.1.replay);
        OnlyLastSucceeds(results[p.0], workers(p.0), plan.maxRetries, p.1);
      }
      if IsRoute(x, plan, workers) {
        var t: nat, k: nat :| t < |plan.taskIds| && x.taskId == plan.taskIds[t]
          && EndsIn(workers(t), plan.maxRetries, k, x.route, x.replay);
        SuccessListed(results[t], workers(t), plan.maxRetries, k, x.route, x.replay);
        assert (t, results[t][k]) in processes;
      }
    }
  }

  /** A worker that is reached returns a malformed document. */
  ghost predicate BreaksAt(worker: nat -> Process, maxRetries: nat, k: nat) {
    Reached(worker, maxRetries, k) && worker(k).Malformed?
  }

  /** A worker that is reached fails the whole experiment, and is the first of its task to do so. */
  ghost predicate AbortsAt(worker: nat -> Process, maxRetries: nat, k: nat, failure: FailureRecord) {
    && Reached(worker, maxRetries, k) && worker(k).Failed? && FailureOf(worker(k)) == failure
    && failure.disposition == ExperimentFailure
    && forall j: nat :: j < k ==> FailureOf(worker(j)).disposition != ExperimentFailure
  }

  /** The plan completes exactly if no task breaks or aborts, and otherwise reports one that does. */
  ghost predicate Justified(outcome: Outcome, n: nat, workers: nat -> nat -> Process, maxRetries: nat) {
    match outcome
    case Completed(_) =>
      && (forall t: nat, k: nat :: t < n ==> !BreaksAt(workers(t), maxRetries, k))
      && (forall t: nat, k: nat, f :: t < n ==> !AbortsAt(workers(t), maxRetries, k, f))
    case Aborted(f) => exists t: nat, k: nat :: t < n && AbortsAt(workers(t), maxRetries, k, f)
    case Broken => exists t: nat, k: nat :: t < n && BreaksAt(workers(t), maxRetries, k)
  }

  lemma {:induction false} FirstExperimentFailure(results: seq<TaskResult>) returns (k: nat)
    requires ExperimentFailureIn(results).Some?
    ensures k < |results| && results[k] == Failure(results[k].attempt, ExperimentFailureIn(results).value)
    ensures ExperimentFailureIn(results).value.disposition == ExperimentFailure
    ensures forall j :: 0 <= j < k ==> results[j].Success? || results[j].failure.disposition != ExperimentFailure
  {
    k := 0;
    if !(results[0].Failure? && results[0].failure.disposition == ExperimentFailure) {
      var rest := FirstExperimentFailure(results[1..]);
      k := rest + 1;
    }
  }

  lemma {:induction false} NoneInside(results: seq<TaskResult>, k: nat)
    requires ExperimentFailureIn(results).None? && k < |results| && results[k].Failure?
    ensures results[k].failure.disposition != ExperimentFailure
  {
    if k > 0 { NoneInside(results[1..], k - 1); }
  }

  lemma AbortMeaning(worker: nat -> Process, maxRetries: nat, results: seq<TaskResult>) returns (k: nat)
    requires RunsOf(results, worker, maxRetries) && ExperimentFailureIn(results).Some?
    ensures AbortsAt(worker, maxRetries, k, ExperimentFailureIn(results).value)
  {
    k := FirstExperimentFailure(results);
    assert IsResult(results[k], worker(k), k, k == |results| - 1, maxRetries);
    forall j: nat | j < k ensures FailureOf(worker(j)).disposition != ExperimentFailure {
      assert IsResult(results[j], worker(j), j, false, maxRetries);
    }
  }

  /** Some task alone ends the plan in this way. */
  ghost predicate RaisedBy(outcome: Outcome, n: nat, run: nat -> Execution) {
    match outcome
    case Completed(_) => false
    case Aborted(failure) => AbortedBy(n, run, failure)
    case Broken => exists i :: 0 <= i < n && run(i).Crashed?
  }

  lemma StoppedMeaning(n: nat, workers: nat -> nat -> Process, maxRetries: nat, outcome: Outcome)
    requires RaisedBy(outcome, n, Alone(workers, maxRetries))
    ensures Justified(outcome, n, workers, maxRetries)
  {
    var run := Alone(workers, maxRetries);
    if outcome.Aborted? {
      var i :| 0 <= i < n && run(i).Returned? && ExperimentFailureIn(run(i).results) == Some(outcome.failure);
      TaskMeaning(workers(i), maxRetries);
      var k := AbortMeaning(workers(i), maxRetries, run(i).results);
    } else {
      var i :| 0 <= i < n && run(i).Crashed?;
      TaskMeaning(workers(i), maxRetries);
      var k :| Reached(workers(i), maxRetries, k) && workers(i)(k).Malformed?;
      assert BreaksAt(workers(i), maxRetries, k);
    }
  }

  /** A worker that is reached has its result in the list. */
  lemma ReachedListed(worker: nat -> Process, maxRetries: nat, results: seq<TaskResult>, k: nat)
    requires RunsOf(results, worker, maxRetries) && Reached(worker, maxRetries, k)
    ensures k < |results| && IsResult(results[k], worker(k), k, k == |results| - 1, maxRetries)
  {
    var last := |results| - 1;
    assert IsResult(results[last], worker(last), last, true, maxRetries);
  }

  lemma NothingStops(n: nat, workers: nat -> nat -> Process, maxRetries: nat)
    requires !SomeTaskRaises(n, Alone(workers, maxRetries))
    ensures forall t: nat, k: nat :: t < n ==> !BreaksAt(workers(t), maxRetries, k)
    ensures forall t: nat, k: nat, f :: t < n ==> !AbortsAt(workers(t), maxRetries, k, f)
  {
    forall t: nat, k: nat | t < n && Reached(workers(t), maxRetries, k)
      ensures !workers(t)(k).Malformed?
      ensures workers(t)(k).Failed? ==> FailureOf(workers(t)(k)).disposition != ExperimentFailure
    {
      assert !Raises(Alone(workers, maxRetries)(t));
      TaskMeaning(workers(t), maxRetries);
      var results := Task(workers(t), maxRetries).results;
      ReachedListed(workers(t), maxRetries, results, k);
      if results[k].Failure? { NoneInside(results, k); }
    }
  }

  lemma ReportMeaning(plan: Plan, workers: nat -> nat -> Process, reverse: bool)
    requires plan.Valid() && !SomeTaskRaises(|plan.taskIds|, Alone(workers, plan.maxRetries))
    ensures var results := ResultsAlone(|plan.taskIds|, Alone(workers, plan.maxRetries));
      Reports(ReportOf(plan, results, reverse), plan, workers, reverse)
  {
    var n, run := |plan.taskIds|, Alone(workers, plan.maxRetries);
    var results := ResultsAlone(n, run);
    var r := ReportOf(plan, results, reverse);
    forall t | t in results ensures RunsOf(results[t], workers(t), plan.maxRetries) && Numbers(results[t]) {
      assert !Raises(run(t));
      TaskMeaning(workers(t), plan.maxRetries);
    }
    ListMeaning(n, results, false);
    ListMeaning(n, results, reverse);
    RoutesMeaning(plan, workers, r.processes, results);
  }

  lemma ListMeaning(n: nat, results: map<nat, seq<TaskResult>>, reverse: bool)
    requires forall t: nat :: t in results <==> t < n
    requires forall t :: t in results ==> Numbers(results[t])
    ensures var list := Flatten(if reverse then Reversed(n) else Upto(n), results);
      Sorted(list, reverse) && HoldsAll(list, n, results)
  {
    var order := if reverse then Reversed(n) else Upto(n);
    forall i: nat ensures i in order <==> i < n {
      if i < n { assert Upto(n)[i] == i && Reversed(n)[n - 1 - i] == i; }
    }
    FlattenSorted(order, results, reverse);
    forall x: Tagged ensures x in Flatten(order, results) <==> x.0 < n && x.0 in results && x.1 in results[x.0] {
      FlattenMembers(order, results, x);
    }
  }

  // ----- the pool's invariant -----

  /** Every submitted task is at exactly one place: running, finished, or collected once. */
  ghost predicate Placed(submitted: nat, running: set<nat>, finished: set<nat>, order: seq<nat>) {
    && (forall i: nat :: i < submitted <==> i in running || i in finished || i in order)
    && (forall i :: i in running ==> i !in finished && i !in order)
    && (forall i :: i in finished ==> i !in order)
    && Distinct(order)
  }

  /** What was collected is what the task alone returns. */
  ghost predicate Faithful(run: nat -> Execution, results: map<nat, seq<TaskResult>>, order: seq<nat>) {
    && (forall i :: i in order <==> i in results)
    && (forall i :: i in results ==> !Raises(run(i)) && results[i] == run(i).results)
  }

  /** A finished task's future holds what the task alone returns. */
  ghost predicate Recorded(run: nat -> Execution, finished: set<nat>, executions: map<nat, Execution>) {
    forall i :: i in finished ==> i in executions && executions[i] == run(i)
  }

  lemma RecordedKeeps(run: nat -> Execution, finished: set<nat>, executions: map<nat, Execution>, i: nat)
    requires Recorded(run, finished, executions)
    ensures Recorded(run, finished + {i}, executions[i := run(i)])
    ensures Recorded(run, finished - {i}, executions)
  {
  }

  lemma SubmitKeeps(submitted: nat, running: set<nat>, finished: set<nat>, order: seq<nat>)
    requires Placed(submitted, running, finished, order)
    ensures Placed(submitted + 1, running + {submitted}, finished, order)
  {
  }

  lemma FinishKeeps(submitted: nat, running: set<nat>, finished: set<nat>, order: seq<nat>, i: nat)
    requires Placed(submitted, running, finished, order) && i in running
    ensures Placed(submitted, running - {i}, finished + {i}, order)
  {
  }

  lemma CollectKeeps(submitted: nat, running: set<nat>, finished: set<nat>, order: seq<nat>, i: nat)
    requires Placed(submitted, running, finished, order) && i in finished
    ensures Placed(submitted, running, finished - {i}, order + [i])
  {
    assert forall x :: x in order + [i] <==> x in order || x == i;
  }

  lemma FaithfulKeeps(run: nat -> Execution, results: map<nat, seq<TaskResult>>, order: seq<nat>, i: nat)
    requires Faithful(run, results, order) && !Raises(run(i))
    ensures Faithful(run, results[i := run(i).results], order + [i])
  {
    assert forall x :: x in order + [i] <==> x in order || x == i;
  }

  /** With a task still to collect the pool can move: it never gets stuck. */
  lemma PoolMoves(n: nat, submitted: nat, running: set<nat>, finished: set<nat>, order: seq<nat>)
    requires Placed(submitted, running, finished, order) && |order| < n
    ensures submitted < n || running != {} || finished != {}
  {
    if submitted >= n && running == {} && finished == {} {
      forall i: nat | i < submitted ensures i in order {}
      CoverLength(order, submitted);
    }
  }

  /** A sequence that contains 0, ..., n - 1 has at least `n` elements. */
  lemma {:induction false} CoverLength(order: seq<nat>, n: nat)
    requires forall i: nat :: i < n ==> i in order
    ensures |order| >= n
    decreases n
  {
    if n > 0 {
      assert n - 1 in order;
      var k :| 0 <= k < |order| && order[k] == n - 1;
      var rest := order[..k] + order[k + 1..];
      forall i: nat | i < n - 1 ensures i in rest {
        assert i in order;
        var m :| 0 <= m < |order| && order[m] == i;
        assert m < k ==> rest[m] == i;
        assert m > k ==> rest[m - 1] == i;
      }
      CoverLength(rest, n - 1);
    }
  }

  ghost predicate Distinct(order: seq<nat>) {
    forall i, j :: 0 <= i < j < |order| ==> order[i] != order[j]
  }

  lemma RemoveAt(order: seq<nat>, k: nat)
    requires Distinct(order) && k < |order|
    ensures var rest := order[..k] + order[k + 1..];
      && Distinct(rest) && |rest| == |order| - 1
      && (forall i :: i in rest ==> i in order && i != order[k])
      && multiset(order) == multiset(rest) + multiset{order[k]}
  {
    var rest := order[..k] + order[k + 1..];
    assert order == order[..k] + [order[k]] + order[k + 1..];
    forall i | i in rest ensures i in order && i != order[k] {
      var m :| 0 <= m < |rest| && rest[m] == i;
      var o := if m < k then m else m + 1;
      assert i == order[o] && o != k;
    }
  }

  /** A sequence of distinct numbers below `n` has at most `n` elements, and if it has that
      many it is a permutation of them. */
  lemma {:induction false} DistinctBelow(order: seq<nat>, n: nat)
    requires Distinct(order)
    requires forall i :: i in order ==> i < n
    ensures |order| <= n
    ensures |order| == n ==> multiset(order) == multiset(Upto(n))
    decreases n
  {
    if n > 0 {
      assert Upto(n) == Upto(n - 1) + [n - 1];
      if n - 1 in order {
        var k :| 0 <= k < |order| && order[k] == n - 1;
        RemoveAt(order, k);
        DistinctBelow(order[..k] + order[k + 1..], n - 1);
      } else {
        DistinctBelow(order, n - 1);
      }
    } else if |order| > 0 {
      Nonempty(order);
      assert false;
    }
  }

  /** Once as many tasks are collected as were planned, they are all collected, none raised,
      and the completion order is a permutation of the tasks. */
  lemma PoolDrained(n: nat, run: nat -> Execution, submitted: nat, running: set<nat>, finished: set<nat>,
                    results: map<nat, seq<TaskResult>>, order: seq<nat>)
    requires submitted <= n <= |order|
    requires Placed(submitted, running, finished, order) && Faithful(run, results, order)
    ensures !SomeTaskRaises(n, run)
    ensures results == ResultsAlone(n, run)
    ensures multiset(order) == multiset(Upto(n))
  {
    DistinctBelow(order, n);
    forall i: nat | i < n ensures i in order {
      assert Upto(n)[i] in Upto(n);
      assert i in multiset(order);
    }
  }

  /** `future.result()` and the scan for an experiment failure: what the plan raises, if it
      raises. */
  function Collect(e: Execution): (r: Option<Outcome>)
    ensures r.Some? <==> Raises(e)
    ensures r.Some? ==> !r.value.Completed?
  {
    match e
    case Crashed => Some(Broken)
    case Returned(results) =>
      var failure := ExperimentFailureIn(results);
      if failure.Some? then Some(Aborted(failure.value)) else None
  }

  lemma RaisedByTask(n: nat, run: nat -> Execution, i: nat)
    requires i < n && Raises(run(i))
    ensures SomeTaskRaises(n, run)
    ensures Collect(run(i)).value.Aborted? ==> AbortedBy(n, run, Collect(run(i)).value.failure)
  {
  }

  /** Some running task finishes. */
  method FinishSome(workers: nat -> nat -> Process, maxRetries: nat, ghost submitted: nat, running: set<nat>,
                    finished: set<nat>, executions: map<nat, Execution>, ghost order: seq<nat>)
    returns (running': set<nat>, finished': set<nat>, executions': map<nat, Execution>)
    requires Placed(submitted, running, finished, order) && running != {}
    requires Recorded(Alone(workers, maxRetries), finished, executions)
    ensures Placed(submitted, running', finished', order) && |running'| < |running|
    ensures Recorded(Alone(workers, maxRetries), finished', executions')
  {
    ghost var run := Alone(workers, maxRetries);
    var i :| i in running;
    FinishKeeps(submitted, running, finished, order, i);
    var execution := ExecuteTask(workers(i), maxRetries);
    assert execution == run(i);
    RecordedKeeps(run, finished, executions, i);
    executions' := executions[i := execution];
    running', finished' := running - {i}, finished + {i};
  }

  /** The main thread collects some finished task; it may raise. */
  method CollectSome(ghost n: nat, ghost run: nat -> Execution, ghost submitted: nat, ghost running: set<nat>,
                     finished: set<nat>, executions: map<nat, Execution>, results: map<nat, seq<TaskResult>>,
                     order: seq<nat>)
    returns (raised: Option<Outcome>, finished': set<nat>, results': map<nat, seq<TaskResult>>, order': seq<nat>)
    requires submitted <= n && finished != {}
    requires Placed(submitted, running, finished, order)
    requires Faithful(run, results, order) && Recorded(run, finished, executions)
    ensures raised.Some? ==> SomeTaskRaises(n, run) && RaisedBy(raised.value, n, run)
    ensures raised.None? ==>
      && Placed(submitted, running, finished', order') && |finished'| < |finished|
      && Faithful(run, results', order') && Recorded(run, finished', executions)
  {
    finished', results', order' := finished, results, order;
    var i :| i in finished;
    raised := Collect(executions[i]);
    if raised.Some? {
      RaisedByTask(n, run, i);
      return;
    }
    CollectKeeps(submitted, running, finished, order, i);
    RecordedKeeps(run, finished, executions, i);
    FaithfulKeeps(run, results, order, i);
    finished' := finished - {i};
    order' := order + [i];
    results' := results[i := executions[i].results];
  }

  /** The loop of `_execute_plan`. Each turn is one step of the pool, picked arbitrarily among those
      possible: an idle worker takes the oldest waiting task, a running task finishes, or the main
      thread collects a finished one. So the contract holds for every interleaving, and every
      interleaving ends. */
  method RunPool(plan: Plan, workers: nat -> nat -> Process)
    returns (raised: Option<Outcome>, resultsByTask: map<nat, seq<TaskResult>>, completionOrder: seq<nat>)
    requires plan.Valid()
    ensures var n, run := |plan.taskIds|, Alone(workers, plan.maxRetries);
      if raised.Some? then SomeTaskRaises(n, run) && RaisedBy(raised.value, n, run)
      else
        && !SomeTaskRaises(n, run) && resultsByTask == ResultsAlone(n, run)
        && multiset(completionOrder) == multiset(Upto(n))
  {
    var n := |plan.taskIds|;
    ghost var run := Alone(workers, plan.maxRetries);
    var submitted := 0;
    var running: set<nat> := {};
    var finished: set<nat> := {};
    var executions: map<nat, Execution> := map[];
    raised, resultsByTask, completionOrder := None, map[], [];
    while |completionOrder| < n
      invariant submitted <= n && |running| <= plan.poolSize
      invariant Placed(submitted, running, finished, completionOrder)
      invariant Faithful(run, resultsByTask, completionOrder)
      invariant Recorded(run, finished, executions)
      invariant raised.None?
      decreases n - submitted, |running|, |finished|
    {
      PoolMoves(n, submitted, running, finished, completionOrder);
      if {
        case submitted < n && |running| < plan.poolSize =>
          SubmitKeeps(submitted, running, finished, completionOrder);
          running, submitted := running + {submitted}, submitted + 1;
        case running != {} =>
          running, finished, executions :=
            FinishSome(workers, plan.maxRetries, submitted, running, finished, executions, completionOrder);
        case finished != {} =>
          raised, finished, resultsByTask, completionOrder :=
            CollectSome(n, run, submitted, running, finished, executions, resultsByTask, completionOrder);
          if raised.Some? {
            return;
          }
      }
    }
    PoolDrained(n, run, submitted, running, finished, resultsByTask, completionOrder);
  }

  /** `_execute_plan`: the pool, then the report. */
  method ExecutePlan(plan: Plan, workers: nat -> nat -> Process, reverse: bool)
    returns (outcome: Outcome, completionOrder: seq<nat>)
    requires plan.Valid()
    ensures outcome.Completed? <==> !SomeTaskRaises(|plan.taskIds|, Alone(workers, plan.maxRetries))
    ensures outcome.Completed? ==>
      && outcome.report == ReportOf(plan, ResultsAlone(|plan.taskIds|, Alone(workers, plan.maxRetries)), reverse)
      && multiset(completionOrder) == multiset(Upto(|plan.taskIds|))
    ensures outcome.Aborted? ==> AbortedBy(|plan.taskIds|, Alone(workers, plan.maxRetries), outcome.failure)
    ensures outcome.Completed? ==> Reports(outcome.report, plan, workers, reverse)
    ensures Justified(outcome, |plan.taskIds|, workers, plan.maxRetries)
  {
    var raised, resultsByTask;
    raised, resultsByTask, completionOrder := RunPool(plan, workers);
    if raised.Some? {
      StoppedMeaning(|plan.taskIds|, workers, plan.maxRetries, raised.value);
      return raised.value, completionOrder;
    }
    outcome := Completed(ReportOf(plan, resultsByTask, reverse));
    ReportMeaning(plan, workers, reverse);
    NothingStops(|plan.taskIds|, workers, plan.maxRetries);
  }
}
