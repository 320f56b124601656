/** The aggregation the stress executor feeds: `ParallelExecutionPlan.aggregate` of
    `engine/search/parallel.py`, up to the per-task view its whole report is computed from. */
module Aggregation {
  import opened Failures
  import opened StressPool
  import opened Wrappers

  datatype Status = PendingInitial | Succeeded | FailedPermanent | PendingRetry | FailedRetryExhausted

  datatype TaskOutcome = TaskOutcome(attempts: seq<TaskResult>, status: Status)

  type Grouped = map<nat, map<nat, TaskResult>>

  predicate ExperimentFailed(r: TaskResult) {
    r.Failure? && r.failure.disposition == ExperimentFailure
  }

  function Put(grouped: Grouped, task: nat, attempt: nat, r: TaskResult): Grouped
    requires task in grouped
  {
    var byAttempt: map<nat, TaskResult> := grouped[task];
    grouped[task := byAttempt[attempt := r]]
  }

  /** The first loop: results go under their task and attempt number. An experiment failure, an attempt
      beyond the policy or a second result for the same attempt raises. */
  function Group(maxRetries: nat, input: seq<Tagged>, grouped: Grouped): Option<Grouped>
    decreases |input|
  {
    if |input| == 0 then Some(grouped)
    else
      var (task, r) := input[0];
      if ExperimentFailed(r) || task !in grouped || r.attempt > maxRetries || r.attempt in grouped[task] then None
      else Group(maxRetries, input[1..], Put(grouped, task, r.attempt, r))
  }

  /** `sorted(attempts)`, which must be 0, 1, 2, ... */
  function Ordered(byAttempt: map<nat, TaskResult>): Option<seq<TaskResult>> {
    if forall k: nat :: k < |byAttempt| ==> k in byAttempt
    then Some(seq(|byAttempt|, k requires 0 <= k < |byAttempt| && k in byAttempt => byAttempt[k]))
    else None
  }

  function StatusOf(attempts: seq<TaskResult>, maxRetries: nat): Status {
    if |attempts| == 0 then PendingInitial
    else
      var last := attempts[|attempts| - 1];
      if last.Success? then Succeeded
      else if !last.failure.retryable then FailedPermanent
      else if last.attempt < maxRetries then PendingRetry
      else FailedRetryExhausted
  }

  /** The second loop, one task. */
  function OutcomeOf(byAttempt: map<nat, TaskResult>, maxRetries: nat): Option<TaskOutcome> {
    var attempts := Ordered(byAttempt);
    if attempts.None? then None
    else if exists i :: 0 <= i < |attempts.value| - 1 && !RetryableFailure(attempts.value[i]) then None
    else Some(TaskOutcome(attempts.value, StatusOf(attempts.value, maxRetries)))
  }

  function Outcomes(grouped: Grouped, n: nat, maxRetries: nat): Option<seq<TaskOutcome>>
    requires forall i: nat :: i < n ==> i in grouped
  {
    if n == 0 then Some([])
    else
      var before, last := Outcomes(grouped, n - 1, maxRetries), OutcomeOf(grouped[n - 1], maxRetries);
      if before.None? || last.None? then None else Some(before.value + [last.value])
  }

  /** `{task.task_id: {} for task in self.tasks}` */
  function NoResults(n: nat): (r: Grouped)
    ensures forall i: nat :: i in r <==> i < n
    ensures forall i :: i in r ==> r[i] == map[]
  {
    if n == 0 then map[] else NoResults(n - 1)[n - 1 := map[]]
  }

  /** `aggregate`: `None` stands for any of the errors it can raise. */
  function Aggregate(n: nat, maxRetries: nat, input: seq<Tagged>): Option<seq<TaskOutcome>> {
    var grouped := Group(maxRetries, input, NoResults(n));
    if grouped.None? then None
    else
      GroupKeys(maxRetries, input, NoResults(n));
      Outcomes(grouped.value, n, maxRetries)
  }

  lemma {:induction false} GroupKeys(maxRetries: nat, input: seq<Tagged>, grouped: Grouped)
    ensures Group(maxRetries, input, grouped).Some? ==> Group(maxRetries, input, grouped).value.Keys == grouped.Keys
    decreases |input|
  {
    if |input| > 0 && input[0].0 in grouped {
      var (task, r) := input[0];
      GroupKeys(maxRetries, input[1..], Put(grouped, task, r.attempt, r));
      assert Put(grouped, task, r.attempt, r).Keys == grouped.Keys;
    }
  }

  // ----- aggregating what the pool produced -----

  function Indexed(results: seq<TaskResult>): (m: map<nat, TaskResult>)
    ensures forall k: nat :: k in m <==> k < |results|
    ensures forall k :: k in m ==> m[k] == results[k]
  {
    map k: nat | 0 <= k < |results| :: results[k]
  }

  lemma {:induction false} IndexedSize(results: seq<TaskResult>)
    ensures |Indexed(results)| == |results|
  {
    if |results| > 0 {
      var front := results[..|results| - 1];
      IndexedSize(front);
      assert Indexed(results) == Indexed(front)[|front| := results[|front|]];
      assert |front| !in Indexed(front);
    }
  }

  ghost predicate Numbered(results: seq<TaskResult>, maxRetries: nat) {
    && |results| <= maxRetries + 1
    && forall k :: 0 <= k < |results| ==> results[k].attempt == k && !ExperimentFailed(results[k])
  }

  lemma {:induction false} GroupTask(
      maxRetries: nat, task: nat, results: seq<TaskResult>, k: nat, rest: seq<Tagged>, grouped: Grouped)
    requires Numbered(results, maxRetries) && k <= |results|
    requires task in grouped && grouped[task] == Indexed(results[..k])
    ensures Group(maxRetries, Tag(task, results)[k..] + rest, grouped)
         == Group(maxRetries, rest, grouped[task := Indexed(results)])
    decreases |results| - k
  {
    var tail := Tag(task, results)[k..];
    if k == |results| {
      assert results[..k] == results && tail + rest == rest;
      assert grouped[task := Indexed(results)] == grouped;
    } else {
      assert (tail + rest)[0] == (task, results[k]);
      assert (tail + rest)[1..] == Tag(task, results)[k + 1..] + rest;
      var next := Put(grouped, task, k, results[k]);
      assert grouped[task][k := results[k]] == Indexed(results[..k + 1]);
      assert next[task := Indexed(results)] == grouped[task := Indexed(results)];
      GroupTask(maxRetries, task, results, k + 1, rest, next);
    }
  }

  ghost predicate Aggregable(byTask: map<nat, seq<TaskResult>>, maxRetries: nat) {
    forall i :: i in byTask ==> Complete(byTask[i], maxRetries) && Numbered(byTask[i], maxRetries)
  }

  /** The grouping after the tasks in `order`. */
  function GroupedAfter(order: seq<nat>, byTask: map<nat, seq<TaskResult>>, grouped: Grouped): Grouped
    requires forall i :: i in order ==> i in byTask
  {
    map i | i in grouped :: if i in order then Indexed(byTask[i]) else grouped[i]
  }

  lemma {:induction false} GroupOrder(
      order: seq<nat>, byTask: map<nat, seq<TaskResult>>, grouped: Grouped, maxRetries: nat)
    requires Distinct(order) && Aggregable(byTask, maxRetries)
    requires forall i :: i in order ==> i in byTask && i in grouped && grouped[i] == map[]
    ensures Group(maxRetries, Flatten(order, byTask), grouped) == Some(GroupedAfter(order, byTask, grouped))
    decreases |order|
  {
    if |order| == 0 {
      assert GroupedAfter(order, byTask, grouped) == grouped;
    } else {
      var task, rest := order[0], order[1..];
      var results := byTask[task];
      assert order == [task] + rest;
      assert task in order;
      assert Numbered(results, maxRetries);
      assert Indexed(results[..0]) == map[];
      assert Tag(task, results)[0..] == Tag(task, results);
      GroupTask(maxRetries, task, results, 0, Flatten(rest, byTask), grouped);
      var next := grouped[task := Indexed(results)];
      TaskIsElsewhere(order);
      GroupOrder(rest, byTask, next, maxRetries);
      GroupedStep(order, byTask, grouped);
    }
  }

  lemma TaskIsElsewhere(order: seq<nat>)
    requires Distinct(order) && |order| > 0
    ensures order[0] !in order[1..] && forall i :: i in order[1..] ==> i in order
  {
  }

  lemma GroupedStep(order: seq<nat>, byTask: map<nat, seq<TaskResult>>, grouped: Grouped)
    requires Distinct(order) && |order| > 0 && forall i :: i in order ==> i in byTask && i in grouped
    ensures GroupedAfter(order[1..], byTask, grouped[order[0] := Indexed(byTask[order[0]])])
         == GroupedAfter(order, byTask, grouped)
  {
    assert order == [order[0]] + order[1..];
    TaskIsElsewhere(order);
  }

  lemma OutcomeOfComplete(results: seq<TaskResult>, maxRetries: nat)
    requires Complete(results, maxRetries)
    ensures OutcomeOf(Indexed(results), maxRetries) == Some(TaskOutcome(results, StatusOf(results, maxRetries)))
    ensures StatusOf(results, maxRetries) in {Succeeded, FailedPermanent, FailedRetryExhausted}
  {
    IndexedSize(results);
    assert Ordered(Indexed(results)).value == results;
  }

  /** What the aggregation should say of a task with these results. */
  function Expected(results: seq<TaskResult>, maxRetries: nat): TaskOutcome {
    TaskOutcome(results, StatusOf(results, maxRetries))
  }

  function ExpectedOutcomes(n: nat, byTask: map<nat, seq<TaskResult>>, maxRetries: nat): (r: seq<TaskOutcome>)
    requires forall i: nat :: i < n ==> i in byTask
    ensures |r| == n && forall i: nat :: i < n ==> r[i] == Expected(byTask[i], maxRetries)
  {
    if n == 0 then [] else ExpectedOutcomes(n - 1, byTask, maxRetries) + [Expected(byTask[n - 1], maxRetries)]
  }

  ghost predicate OutcomeExpected(grouped: Grouped, byTask: map<nat, seq<TaskResult>>, maxRetries: nat, i: nat) {
    i in grouped && i in byTask && OutcomeOf(grouped[i], maxRetries) == Some(Expected(byTask[i], maxRetries))
  }

  lemma {:induction false} OutcomesComplete(
      grouped: Grouped, n: nat, byTask: map<nat, seq<TaskResult>>, maxRetries: nat)
    requires forall i: nat :: i < n ==> OutcomeExpected(grouped, byTask, maxRetries, i)
    ensures forall i: nat :: i < n ==> i in grouped && i in byTask
    ensures Outcomes(grouped, n, maxRetries) == Some(ExpectedOutcomes(n, byTask, maxRetries))
    decreases n
  {
    forall i: nat | i < n ensures i in grouped && i in byTask {
      assert OutcomeExpected(grouped, byTask, maxRetries, i);
    }
    if n > 0 {
      OutcomesComplete(grouped, n - 1, byTask, maxRetries);
      assert OutcomeExpected(grouped, byTask, maxRetries, n - 1);
    }
  }

  lemma {:induction false} NoExperimentFailure(results: seq<TaskResult>)
    requires ExperimentFailureIn(results).None?
    ensures forall k :: 0 <= k < |results| ==> !ExperimentFailed(results[k])
  {
    if |results| > 0 {
      NoExperimentFailure(results[1..]);
      assert forall k :: 0 < k < |results| ==> results[k] == results[1..][k - 1];
    }
  }

  /** Whatever the pool completed is accepted by the aggregation, in whatever task order it is
      handed over, with the same result: every task's attempts in order and a final status,
      never a pending one. */
  lemma AggregateAnyOrder(n: nat, workers: nat -> nat -> Process, maxRetries: nat, order: seq<nat>)
    requires !SomeTaskRaises(n, Alone(workers, maxRetries))
    requires Distinct(order) && forall i: nat :: i in order <==> i < n
    ensures var byTask := ResultsAlone(n, Alone(workers, maxRetries));
      && Aggregate(n, maxRetries, Flatten(order, byTask)) == Some(ExpectedOutcomes(n, byTask, maxRetries))
      && forall i :: 0 <= i < n ==>
           ExpectedOutcomes(n, byTask, maxRetries)[i].status in {Succeeded, FailedPermanent, FailedRetryExhausted}
  {
    var byTask := ResultsAlone(n, Alone(workers, maxRetries));
    AloneAggregable(n, workers, maxRetries);
    var grouped := NoResults(n);
    GroupOrder(order, byTask, grouped, maxRetries);
    forall i: nat | i < n
      ensures OutcomeExpected(GroupedAfter(order, byTask, grouped), byTask, maxRetries, i)
    {
      OutcomeOfComplete(byTask[i], maxRetries);
    }
    OutcomesComplete(GroupedAfter(order, byTask, grouped), n, byTask, maxRetries);
    forall i | 0 <= i < n
      ensures ExpectedOutcomes(n, byTask, maxRetries)[i].status in {Succeeded, FailedPermanent, FailedRetryExhausted}
    {
      OutcomeOfComplete(byTask[i], maxRetries);
    }
  }

  lemma AloneAggregable(n: nat, workers: nat -> nat -> Process, maxRetries: nat)
    requires !SomeTaskRaises(n, Alone(workers, maxRetries))
    ensures Aggregable(ResultsAlone(n, Alone(workers, maxRetries)), maxRetries)
  {
    var run := Alone(workers, maxRetries);
    var byTask := ResultsAlone(n, run);
    forall i | i in byTask ensures Complete(byTask[i], maxRetries) && Numbered(byTask[i], maxRetries) {
      assert !Raises(run(i));
      TaskComplete(workers(i), maxRetries);
      NoExperimentFailure(byTask[i]);
    }
  }

  /** So reversing the aggregation input, as every second run does, changes nothing. */
  lemma ReversingChangesNothing(plan: Plan, workers: nat -> nat -> Process)
    requires !SomeTaskRaises(|plan.taskIds|, Alone(workers, plan.maxRetries))
    ensures var byTask := ResultsAlone(|plan.taskIds|, Alone(workers, plan.maxRetries));
      && Aggregate(|plan.taskIds|, plan.maxRetries, ReportOf(plan, byTask, true).aggregateInput)
         == Aggregate(|plan.taskIds|, plan.maxRetries, ReportOf(plan, byTask, false).aggregateInput)
      && Aggregate(|plan.taskIds|, plan.maxRetries, ReportOf(plan, byTask, true).aggregateInput).Some?
  {
    var n := |plan.taskIds|;
    forall i: nat ensures (i in Upto(n) <==> i < n) && (i in Reversed(n) <==> i < n) {
      if i < n { assert Upto(n)[i] == i && Reversed(n)[n - 1 - i] == i; }
    }
    AggregateAnyOrder(n, workers, plan.maxRetries, Upto(n));
    AggregateAnyOrder(n, workers, plan.maxRetries, Reversed(n));
  }

  // ----- what the aggregation says, of any input -----

  /** Every result is of a task of the plan, within the policy and not an experiment failure, and no two
      are of the same attempt. */
  ghost predicate Acceptable(n: nat, maxRetries: nat, input: seq<Tagged>) {
    && (forall i :: 0 <= i < |input| ==>
          && input[i].0 < n && input[i].1.attempt <= maxRetries
          && !(input[i].1.Failure? && input[i].1.failure.disposition == ExperimentFailure))
    && (forall i, j :: 0 <= i < j < |input| ==> !SameAttempt(input[i], input[j]))
  }

  predicate SameAttempt(x: Tagged, y: Tagged) { x.0 == y.0 && x.1.attempt == y.1.attempt }

  /** Every attempt but a first one follows a retryable failure of the attempt before. */
  ghost predicate Follows(input: seq<Tagged>) {
    forall x :: x in input && x.1.attempt > 0 ==> exists y :: y in input && Before(y, x)
  }

  predicate Before(y: Tagged, x: Tagged) {
    y.0 == x.0 && y.1.attempt + 1 == x.1.attempt && y.1.Failure? && y.1.failure.retryable
  }

  /** The task's results in attempt order, and what the last of them makes of the task. */
  ghost predicate Tells(o: TaskOutcome, task: nat, maxRetries: nat, input: seq<Tagged>) {
    && (forall x :: x in input && x.0 == task ==> x.1.attempt < |o.attempts|)
    && (forall k :: 0 <= k < |o.attempts| ==> o.attempts[k].attempt == k && (task, o.attempts[k]) in input)
    && (if o.attempts == [] then o.status == PendingInitial
        else
          var last := o.attempts[|o.attempts| - 1];
          && (o.status == Succeeded <==> last.Success?)
          && (o.status == FailedPermanent <==> last.Failure? && !last.failure.retryable)
          && (o.status == PendingRetry <==> RetryableFailure(last) && |o.attempts| <= maxRetries)
          && (o.status == FailedRetryExhausted <==> RetryableFailure(last) && |o.attempts| == maxRetries + 1))
  }

  ghost predicate Summarises(
      r: Option<seq<TaskOutcome>>, n: nat, maxRetries: nat, input: seq<Tagged>) {
    && (r.Some? <==> Acceptable(n, maxRetries, input) && Follows(input))
    && (r.Some? ==> |r.value| == n && forall t: nat :: t < n ==> Tells(r.value[t], t, maxRetries, input))
  }

  /** The grouping holds exactly the results seen. */
  ghost predicate Gathered(g: Grouped, n: nat, input: seq<Tagged>) {
    && (forall t: nat :: t in g <==> t < n)
    && (forall t, k :: t in g && k in g[t] ==> g[t][k].attempt == k && (t, g[t][k]) in input)
    && (forall x :: x in input ==> Stored(g, x))
  }

  ghost predicate Stored(g: Grouped, x: Tagged) {
    x.0 in g && x.1.attempt in g[x.0] && g[x.0][x.1.attempt] == x.1
  }

  lemma {:induction false} GroupMeaning(n: nat, maxRetries: nat, input: seq<Tagged>, i: nat, g: Grouped)
    requires i <= |input| && Acceptable(n, maxRetries, input[..i]) && Gathered(g, n, input[..i])
    ensures var r := Group(maxRetries, input[i..], g);
      (r.Some? <==> Acceptable(n, maxRetries, input)) && (r.Some? ==> Gathered(r.value, n, input))
    decreases |input| - i
  {
    if i == |input| {
      assert input[..i] == input;
    } else {
      var (task, r) := input[i];
      assert input[i..][0] == input[i] && input[i..][1..] == input[i + 1..];
      assert input[..i + 1] == input[..i] + [input[i]];
      if ExperimentFailed(r) || task !in g || r.attempt > maxRetries {
        assert !Acceptable(n, maxRetries, input);
      } else if r.attempt in g[task] {
        AttemptAgain(n, input, i, g);
      } else {
        AttemptNew(n, maxRetries, input, i, g);
        GroupMeaning(n, maxRetries, input, i + 1, Put(g, task, r.attempt, r));
      }
    }
  }

  lemma AttemptAgain(n: nat, input: seq<Tagged>, i: nat, g: Grouped)
    requires i < |input| && Gathered(g, n, input[..i]) && input[i].0 in g && input[i].1.attempt in g[input[i].0]
    ensures exists j :: 0 <= j < i && SameAttempt(input[j], input[i])
  {
    var (task, r) := input[i];
    var x := (task, g[task][r.attempt]);
    assert x in input[..i];
    var j :| 0 <= j < i && input[..i][j] == x;
    assert SameAttempt(input[j], input[i]);
  }

  lemma AttemptNew(n: nat, maxRetries: nat, input: seq<Tagged>, i: nat, g: Grouped)
    requires i < |input| && Acceptable(n, maxRetries, input[..i]) && Gathered(g, n, input[..i])
    requires var (task, r) := input[i];
      task in g && r.attempt !in g[task] && r.attempt <= maxRetries && !ExperimentFailed(r)
    ensures var (task, r) := input[i];
      Acceptable(n, maxRetries, input[..i + 1]) && Gathered(Put(g, task, r.attempt, r), n, input[..i + 1])
  {
    var (task, r) := input[i];
    var seen, now := input[..i], input[..i + 1];
    var next := Put(g, task, r.attempt, r);
    assert now == seen + [input[i]];
    forall j | 0 <= j < i ensures !SameAttempt(now[j], now[i]) { assert now[j] in seen; }
    forall x | x in now ensures Stored(next, x) {
      if x in seen { assert Stored(g, x); }
    }
  }

  // ----- attempts without a gap -----

  function FirstNumbers(n: nat): (s: set<nat>)
    ensures |s| == n && forall k: nat :: k in s <==> k < n
  {
    if n == 0 then {} else FirstNumbers(n - 1) + {n - 1}
  }

  lemma {:induction false} Descends(s: set<nat>, x: nat, k: nat)
    requires x in s && k <= x && forall y: nat :: y in s && y > 0 ==> y - 1 in s
    ensures k in s
    decreases x - k
  {
    if k < x { Descends(s, x - 1, k); }
  }

  /** A set of numbers that holds the one before each of its numbers is an initial segment. */
  lemma InitialSegment(s: set<nat>, k: nat)
    requires forall y: nat :: y in s && y > 0 ==> y - 1 in s
    ensures k in s <==> k < |s|
  {
    var first := FirstNumbers(|s|);
    if x :| x in s && x >= |s| {
      forall y | y in FirstNumbers(x + 1) ensures y in s { Descends(s, x, y); }
      Subset(FirstNumbers(x + 1), s);
      assert false;
    }
    assert s <= first;
    SubsetAll(s, first);
  }

  lemma {:induction false} Subset(a: set<nat>, b: set<nat>)
    requires a <= b
    ensures |a| <= |b|
  {
    if x :| x in a { Subset(a - {x}, b - {x}); }
  }

  lemma SubsetAll(a: set<nat>, b: set<nat>)
    requires a <= b && |a| == |b|
    ensures a == b
  {
    if x :| x in b && x !in a { Subset(a, b - {x}); assert false; }
    assert b <= a;
  }

  ghost predicate Chained(m: map<nat, TaskResult>) {
    forall k: nat :: k in m && k > 0 ==> k - 1 in m && RetryableFailure(m[k - 1])
  }

  lemma OutcomeIffChained(m: map<nat, TaskResult>, maxRetries: nat)
    ensures OutcomeOf(m, maxRetries).Some? <==> Chained(m)
    ensures Chained(m) ==> forall k: nat :: k in m <==> k < |m|
  {
    if Chained(m) {
      forall k: nat ensures k in m <==> k < |m| { InitialSegment(m.Keys, k); }
      forall i: nat | i < |m| - 1 ensures RetryableFailure(m[i]) { assert i + 1 in m; }
    } else if Ordered(m).Some? {
      SubsetAll(FirstNumbers(|m|), m.Keys);
      var k: nat :| k in m && k > 0 && !(k - 1 in m && RetryableFailure(m[k - 1]));
      assert k < |m| && !RetryableFailure(Ordered(m).value[k - 1]);
    }
  }

  lemma {:induction false} OutcomesEach(grouped: Grouped, n: nat, maxRetries: nat)
    requires forall i: nat :: i < n ==> i in grouped
    ensures var r := Outcomes(grouped, n, maxRetries);
      && (r.Some? <==> forall i: nat :: i < n ==> OutcomeOf(grouped[i], maxRetries).Some?)
      && (r.Some? ==> |r.value| == n)
      && (r.Some? ==> forall i: nat :: i < n ==> OutcomeOf(grouped[i], maxRetries) == Some(r.value[i]))
  {
    if n > 0 { OutcomesEach(grouped, n - 1, maxRetries); }
  }

  lemma ChainedFollows(g: Grouped, n: nat, input: seq<Tagged>)
    requires Gathered(g, n, input) && forall t: nat :: t < n ==> Chained(g[t])
    ensures Follows(input)
  {
    forall x | x in input && x.1.attempt > 0 ensures exists y :: y in input && Before(y, x) {
      assert Chained(g[x.0]);
      assert Before((x.0, g[x.0][x.1.attempt - 1]), x);
    }
  }

  lemma FollowsStep(g: Grouped, n: nat, input: seq<Tagged>, t: nat, k: nat)
    requires Gathered(g, n, input) && Follows(input) && t in g && k in g[t] && k > 0
    ensures k - 1 in g[t] && RetryableFailure(g[t][k - 1])
  {
    var x := (t, g[t][k]);
    assert x in input;
    var y :| y in input && Before(y, x);
    assert Stored(g, y);
  }

  ghost predicate AllChained(g: Grouped, n: nat) { forall t: nat :: t < n ==> t in g && Chained(g[t]) }

  lemma ChainedIffFollows(g: Grouped, n: nat, input: seq<Tagged>)
    requires Gathered(g, n, input)
    ensures AllChained(g, n) <==> Follows(input)
  {
    if Follows(input) {
      forall t: nat, k: nat | t < n && k in g[t] && k > 0 ensures k - 1 in g[t] && RetryableFailure(g[t][k - 1]) {
        FollowsStep(g, n, input, t, k);
      }
    } else if AllChained(g, n) {
      ChainedFollows(g, n, input);
    }
  }

  lemma TellsOne(g: Grouped, n: nat, maxRetries: nat, input: seq<Tagged>, t: nat)
    requires Acceptable(n, maxRetries, input) && Gathered(g, n, input) && t < n
    requires OutcomeOf(g[t], maxRetries).Some?
    ensures Tells(OutcomeOf(g[t], maxRetries).value, t, maxRetries, input)
  {
    OutcomeIffChained(g[t], maxRetries);
    var o := OutcomeOf(g[t], maxRetries).value;
    if o.attempts != [] {
      var last := o.attempts[|o.attempts| - 1];
      assert (t, last) in input;
    }
  }

  lemma OutcomesMeaning(g: Grouped, n: nat, maxRetries: nat, input: seq<Tagged>)
    requires Acceptable(n, maxRetries, input) && Gathered(g, n, input)
    ensures Summarises(Outcomes(g, n, maxRetries), n, maxRetries, input)
  {
    var r := Outcomes(g, n, maxRetries);
    OutcomesEach(g, n, maxRetries);
    ChainedIffFollows(g, n, input);
    forall t: nat | t < n ensures OutcomeOf(g[t], maxRetries).Some? <==> Chained(g[t]) {
      OutcomeIffChained(g[t], maxRetries);
    }
    if r.Some? {
      forall t: nat | t < n ensures Tells(r.value[t], t, maxRetries, input) { TellsOne(g, n, maxRetries, input, t); }
    }
  }

  /** Aggregating raises exactly on an input that is not acceptable or has a gap, and otherwise tells of
      every task in order. */
  lemma AggregateMeaning(n: nat, maxRetries: nat, input: seq<Tagged>)
    ensures Summarises(Aggregate(n, maxRetries, input), n, maxRetries, input)
  {
    assert input[0..] == input && input[..0] == [];
    GroupMeaning(n, maxRetries, input, 0, NoResults(n));
    var grouped := Group(maxRetries, input, NoResults(n));
    if grouped.Some? { OutcomesMeaning(grouped.value, n, maxRetries, input); }
  }

  // ----- the two loops of `aggregate` -----

  method GroupResults(n: nat, maxRetries: nat, input: seq<Tagged>) returns (r: Option<Grouped>)
    ensures r == Group(maxRetries, input, NoResults(n))
  {
    var grouped := NoResults(n);
    assert input[0..] == input;
    for i := 0 to |input|
      invariant Group(maxRetries, input[i..], grouped) == Group(maxRetries, input, NoResults(n))
    {
      var (task, result) := input[i];
      assert input[i..][0] == input[i] && input[i..][1..] == input[i + 1..];
      if ExperimentFailed(result) || task !in grouped || result.attempt > maxRetries
         || result.attempt in grouped[task] {
        return None;
      }
      grouped := Put(grouped, task, result.attempt, result);
    }
    r := Some(grouped);
  }

  method OutcomeResults(grouped: Grouped, n: nat, maxRetries: nat) returns (r: Option<seq<TaskOutcome>>)
    requires forall i: nat :: i < n ==> i in grouped
    ensures r == Outcomes(grouped, n, maxRetries)
  {
    var outcomes := [];
    OutcomesEach(grouped, n, maxRetries);
    for t := 0 to n
      invariant Outcomes(grouped, t, maxRetries) == Some(outcomes)
    {
      var outcome := OutcomeOf(grouped[t], maxRetries);
      if outcome.None? {
        return None;
      }
      outcomes := outcomes + [outcome.value];
    }
    r := Some(outcomes);
  }

  method AggregateResults(n: nat, maxRetries: nat, input: seq<Tagged>) returns (r: Option<seq<TaskOutcome>>)
    ensures r == Aggregate(n, maxRetries, input)
    ensures Summarises(r, n, maxRetries, input)
  {
    AggregateMeaning(n, maxRetries, input);
    GroupKeys(maxRetries, input, NoResults(n));
    var grouped := GroupResults(n, maxRetries, input);
    if grouped.None? {
      return None;
    }
    r := OutcomeResults(grouped.value, n, maxRetries);
  }
}
