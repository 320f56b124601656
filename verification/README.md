# Verification of ygo-effect-dsl

A Dafny model of the parts of the repository that record, replay and compare card-game search
runs, with proofs of what they promise over whole runs. `dafny verify dfyconfig.toml` checks it.

One module per component:

| module | component |
|---|---|
| `Wrappers`, `Sequences`, `Order` | optional results, facts about sequences, string order and sorting by key, shared by the others |
| `Canonical`, `JsonReader` | canonical JSON and content identifiers, and a reader of the grammar of RFC 8259 the text is judged by |
| `Merge`, `Numerals`, `Markers`, `Spans`, `RuleEngine` | the rule engine: merge algebra, numbers, markers and captures, the patterns they are captured by, rule stages |
| `Failures`, `Frontier` | classified failures and the fresh-worker retry ledger |
| `StressPool`, `Aggregation` | the bounded pool of the parallel stress run and the aggregation it feeds |
| `Lease`, `Worker` | the desktop job worker, its lease and its supervisor |
| `Routes`, `RouteGroups`, `RouteReport` | route normalisation and the comparison report |
| `ScriptedRoute` | scripted replay and the built route |
| `Treatment`, `Lineage` | treatment filter and lineage of the cross-validation |
| `Ydk` | the deck-file parser |
| `Witness` | qualification witnesses and their validator |
| `Governance` | release audit and repair of an issue tracker |
| `Profiles` | the catalog of deck terminal profiles |

The environment is an oracle throughout: child processes, the clock, the catalog, the tracker,
regular expressions, the hash and the evaluator are parameters, or calls that may raise
or fail at any time. A method is proved against a function or a predicate that says what it
promises; beside each main specification stands a predicate that says the same of the inputs and
outputs alone, without its functions, and a lemma, ending in `Meaning`, that joins the two.

Results a reader of the code might not expect:

- The lease is safe from lapsing in the poll loop exactly when its turns are short enough and the loop is
  entered early enough after the claim: with short sleeps, when a turn takes at most 2/9 of the lease and
  a third of the sleep (`Lease.SafeTurnLength`, `Lease.ShortPollSafe`).
- A clock that raises between the launch and the `try` leaves the child running and its handle open
  (`Worker.DesktopSearchWorker.RunOnce`).
- The levels, ranks and links of a card text are read after its numbers were replaced, so "level 4" records
  no level; only digits with letters behind them are found (`Markers.CategoriesOnlyGlued`,
  `Markers.PlainLevelLost`).
- The deep merge is not associative on all dicts. `Merge.MergeAssociative` gives the exact
  condition, `Merge.GroupingMatters` a triple that fails it; `Merge.SameKindsRegroup` shows that
  agreement on kinds suffices.
- A fragment whose text occurs twice in a source gets the captured values of the first
  occurrence (`Markers.OwnSliceExactlyAtFirst`).
- A number that is not the plain decimal of its value, such as "04", does not come back from a
  normalised text (`Markers.NormalizeAligned`, `Markers.LeadingZeroLost`).
- A dict can change order when it is canonicalised a second time, exactly when two of its int keys
  compare otherwise than their texts (`Canonical.CanonicaliseTwice`, `Canonical.IntKeysReorder`);
  and `{1: x}` and `{"1": x}` print alike (`Canonical.CanonicalTextUnambiguous`).
- The stress plan also ends without a report when a successful worker's document is malformed
  (`StressPool.ExecutePlan`, outcome `Broken`).
- In the interrupted treatment only the first specified activation is forced
  (`Treatment.SecondActivationAllowed`).
- A short witness of a route without events is derived but refused by the validator, and the
  validator accepts transitions that do not chain (`Witness.DerivedAccepted`,
  `Witness.GraveBanishAccepted`).
- A profile created again with the same arguments at the same time replaces the first one, even
  an archived one (`Profiles.CreateCollides`).
- A deck code with more digits than the interpreter converts is refused (`Ydk.RoundTrip`).

## Model

| member | source | states |
|---|---|---|
| `Worker.DesktopSearchWorker.RunOnce` | src/ygo_effect_dsl/desktop/lifecycle.py:563-600 | for every scenario and every pattern of raising calls: the run raises exactly when one of its calls does; otherwise a claimed job has had exactly one effective disposition, the one due to its scenario with the child gone, and the outcome is "succeeded" exactly for a publication, "quarantined" for a quarantine, "cancelled", "retrying" or "failed" for that or for a timeout recovered so; a run that raises has had at most one; the handle stays open only if the clock read before the try or the close raised, the child stays running only if that clock, the last look or the last termination did, and when that clock raises both stay; a run that returns has completed every turn before its first cause and sent exactly the renewals due in them, one that raises those of the turns it completed and at most one more; and in turns short enough to be safe no completed turn outlasts the lease as those heartbeats renewed it |
| `Worker.FittingIsDue` | src/ygo_effect_dsl/desktop/lifecycle.py:794-1273 | what is due to a scenario, case by case: a publication exactly for exit code 0 with valid artifacts, a quarantine for bad inputs or an invalid result, a cancel or a recovery for the first turn with that cause, a permanent failure for "configuration_failure", "artifact_failure" and "no_route" and for any failed verification, and a retry, or a failure once that is refused, for everything else |
| `Worker.DisposedIsAnswered` | src/ygo_effect_dsl/desktop/lifecycle.py:563-600 | a disposition that fits its cause is that one, and the outcome texts name it |
| `Worker.DesktopSearchWorker.WatchChild` | src/ygo_effect_dsl/desktop/lifecycle.py:801-934 | what both kinds of job share: either the run is settled, or the child ended by itself with its exit code taken and nothing disposed of |
| `Worker.RenewingHoldsLease` | src/ygo_effect_dsl/desktop/lifecycle.py:843-925 | once the renewals due in the first k turns are sent, and those turns are short enough to be safe, each of them was over before the lease held at its start ran out |
| `Worker.DesktopSearchWorker.RunSearch` | src/ygo_effect_dsl/desktop/lifecycle.py:794-1032 | the same for a search job, its outcome texts included: publish only after exit code 0 and a successful validation, quarantine for bad inputs or an invalid result, retry or fail for a host stop, a launch failure or a retryable exit |
| `Worker.DesktopSearchWorker.RunReplayVerification` | src/ygo_effect_dsl/desktop/lifecycle.py:1034-1273 | the same for a verification job, where any non-zero exit fails the job at once |
| `Worker.DesktopSearchWorker.RetryOrFail` | src/ygo_effect_dsl/desktop/lifecycle.py:679-701 | one effective retry, or one failure and that only after a retry was refused, and a status that names which; an exception leaves at most one |
| `Worker.DesktopSearchWorker.PollLoop` | src/ygo_effect_dsl/desktop/lifecycle.py:845-928 | the first turn with a host stop, cancel or timeout, in that order of precedence, decides the disposition; with none of them the loop ends with the exit code and disposes of nothing; unless a call raises, exactly the turns before that cause are completed and exactly the renewals due in them are sent |
| `Worker.DesktopSearchWorker.TakeTurn` | src/ygo_effect_dsl/desktop/lifecycle.py:845-925 | one turn leaves the loop for its first cause with nothing renewed, or comes to its sleep with the heartbeat sent exactly when due |
| `Worker.DesktopSearchWorker.React` | src/ygo_effect_dsl/desktop/lifecycle.py:847-916 | one turn leaves the loop exactly for its first applicable cause, with that cause's one disposition and the child gone, unless a call raised |
| `Worker.DesktopSearchWorker.RenewIfDue` | src/ygo_effect_dsl/desktop/lifecycle.py:917-925 | a heartbeat is sent exactly when a third of the lease has passed, the time noted is the one read after it, and no sleep is reached without it |
| `Worker.DesktopSearchWorker.Supervise` | src/ygo_effect_dsl/desktop/lifecycle.py:843-934 | on every way out of the try, exceptions of its branches included, the handle is closed unless the close raised and the child is gone unless the last look or the last termination raised; what the loop promises of dispositions and heartbeats still holds |
| `Worker.DesktopSearchWorker.CleanUp` | src/ygo_effect_dsl/desktop/lifecycle.py:929-934 | the finally alone: close is reached whatever the look and the termination do |
| `Worker.DesktopWorkerSupervisor.Run` | src/ygo_effect_dsl/desktop/lifecycle.py:1321-1328 | over a whole run of jobs the catalog holds one sound disposition per claimed job, in order; the run stops early exactly when some call raised, and only the job it happened in may have none |
| `Worker.DesktopWorkerSupervisor.Start` | src/ygo_effect_dsl/desktop/lifecycle.py:1309-1319 | starting is refused while running and otherwise clears the failure |
| `Worker.AccountsStep` | src/ygo_effect_dsl/desktop/lifecycle.py:1321-1328 | one more job's disposition keeps the account of all jobs handled so far |
| `Lease.HeartbeatBounds` | src/ygo_effect_dsl/desktop/lifecycle.py:843-925 | the loop is never more than a third of the lease and one turn past its last heartbeat, which comes at most one turn without its sleep after its stamp |
| `Lease.SinceBounds` | src/ygo_effect_dsl/desktop/lifecycle.py:843-925 | the turns since the last renewal each take between a sleep and d, and so few of them fit that the last began before a third of the lease had passed |
| `Lease.NextRenewalSoon` | src/ygo_effect_dsl/desktop/lifecycle.py:917-925 | from any renewal on, every turn up to the one that completes the next renewal is over within lease/3 + 3d - poll of the renewal's stamp |
| `Lease.NextRenewalWithin` | src/ygo_effect_dsl/desktop/lifecycle.py:917-925 | nor does it take longer than two turns more than sleeps fit into less than a third of the lease |
| `Lease.SafeTurnsKeepLease` | src/ygo_effect_dsl/desktop/lifecycle.py:843-925 | turns that meet the condition never let the lease lapse |
| `Lease.LongTurnsLapse` | src/ygo_effect_dsl/desktop/lifecycle.py:843-925 | for longer turns, however promptly the loop is entered, there is a schedule that lets a later renewal come too late |
| `Lease.LateEntryLapses` | src/ygo_effect_dsl/desktop/lifecycle.py:843-925 | when the loop is entered too late for its turns there is a schedule that lets the lease lapse before the first renewal |
| `Lease.SafeTurnLength` | src/ygo_effect_dsl/desktop/lifecycle.py:843-925 | no schedule of turns of at most d, each with a sleep of at least poll, lets the lease lapse if and only if both the first and every later renewal come in time, for a slow turn after a third of the lease or for as many turns as fit |
| `Lease.ShortPollSafe` | src/ygo_effect_dsl/desktop/lifecycle.py:843-925 | when the sleep is at most a third of d, that is exactly when 9d is at most twice the lease plus three sleeps, and three times the entry delay plus 6d at most twice the lease |
| `Frontier.RealCoreFrontierAdapter.AppendAttempt` | src/ygo_effect_dsl/prototype/frontier.py:458-471 | one attempt enters the replay's list, the adapter's list when it is retained, and the quarantine list when it is quarantined |
| `Frontier.RealCoreFrontierAdapter.MarkLastAttemptFailed` | src/ygo_effect_dsl/prototype/frontier.py:473-492 | the late correction rewrites the last record in both lists, or adds it to the adapter's list if it was not there |
| `Frontier.RealCoreFrontierAdapter.RunWorker` | src/ygo_effect_dsl/prototype/frontier.py:210-397 | one attempt counts one invocation and books what the worker did |
| `Frontier.RealCoreFrontierAdapter.Invoke` | src/ygo_effect_dsl/prototype/frontier.py:210-397 | the attempt loop leaves ledger and result as the specification of one call prescribes |
| `Frontier.RealCoreFrontierAdapter.ReplayPrefix` | src/ygo_effect_dsl/prototype/frontier.py:123-208 | a replay books one attempt per worker it starts, each with the failure its outcome stands for, keeps all of them unless the first succeeded, quarantines the failed ones, and answers with the last document or failure; an unusable document turns the last attempt into a failure, and one whose reading raises anything else leaves it as it was |
| `Frontier.ReplayMeaning` | src/ygo_effect_dsl/prototype/frontier.py:123-397 | the specification of a replay means exactly that, whatever the workers do |
| `Frontier.ReplayOutcome` | src/ygo_effect_dsl/prototype/frontier.py:123-397 | a replay makes 1 to max_retries + 1 consecutively numbered attempts of which all but the last failed retryably; the adapter keeps all of them or, after an immediate success, none; retry_exhausted holds exactly when the last failure is retryable |
| `Frontier.ReplayConsistent` | src/ygo_effect_dsl/prototype/frontier.py:105-492 | one replay keeps the ledger invariant |
| `Frontier.RunConsistent` | src/ygo_effect_dsl/prototype/frontier.py:105-492 | over any sequence of replays: invocations are retries plus replays, retained invocation indices strictly increase, and the quarantined identifiers are those of the quarantined retained attempts |
| `Frontier.FreshAdapterConsistent` | src/ygo_effect_dsl/prototype/frontier.py:105-121 | a new adapter meets that invariant, so every reachable ledger does |
| `StressPool.ExecuteTask` | src/ygo_effect_dsl/prototype/real_core_stress.py:107-184 | the attempt loop returns what the task specification prescribes |
| `StressPool.TaskComplete` | src/ygo_effect_dsl/prototype/real_core_stress.py:107-184 | within a task the attempts are numbered from 0, every one but the last is a retryable failure, there are at most max_retries + 1, and no retry is left unused |
| `StressPool.ExecutePlan` | src/ygo_effect_dsl/prototype/real_core_stress.py:187-272 | for every interleaving of the bounded pool: it completes exactly when no task raises; the report then lists the results of every task in task order, the aggregation input in that order or its reverse, and a semantic route, by task identifier, exactly for each task that ends in a success, with the route and replay of that success; an abort carries the experiment failure of some task; and the completion order is a permutation of the tasks |
| `StressPool.RunPool` | src/ygo_effect_dsl/prototype/real_core_stress.py:187-236 | for every interleaving of the bounded pool: every task is collected exactly once with the results it has alone, or the pool raises what some task raises |
| `StressPool.ReportMeaning` | src/ygo_effect_dsl/prototype/real_core_stress.py:237-272 | the report of the tasks run alone lists exactly these results, inputs and semantic routes |
| `StressPool.TaskMeaning` | src/ygo_effect_dsl/prototype/real_core_stress.py:107-184 | a task returns one result for each worker it reached, numbered from 0, and raises only on a malformed document |
| `StressPool.FallbackMeaning` | src/ygo_effect_dsl/prototype/real_core_stress.py:41-57 | a failed worker without a record gets a path failure of its category, or "worker_protocol", retryable exactly for three categories |
| `StressPool.FinishSome` | src/ygo_effect_dsl/prototype/real_core_stress.py:202-214 | a running task finishing keeps every submitted task at exactly one place |
| `StressPool.CollectSome` | src/ygo_effect_dsl/prototype/real_core_stress.py:215-236 | collecting a finished task keeps that and records the task's own results, or raises only if the task does |
| `StressPool.PoolMoves` | src/ygo_effect_dsl/prototype/real_core_stress.py:202-236 | while a task is uncollected the pool can move |
| `StressPool.PoolDrained` | src/ygo_effect_dsl/prototype/real_core_stress.py:215-252 | once as many tasks are collected as planned, none raised and the results are those of the tasks run alone |
| `StressPool.DistinctBelow` | src/ygo_effect_dsl/prototype/real_core_stress.py:234-236 | n distinct task numbers below n are a permutation of the tasks |
| `Aggregation.AggregateAnyOrder` | src/ygo_effect_dsl/engine/search/parallel.py:662-780 | whatever the pool completed is accepted by the aggregation in any task order, with the same result and no pending status |
| `Aggregation.AggregateMeaning` | src/ygo_effect_dsl/engine/search/parallel.py:662-713 | for any input at all: aggregation raises exactly when a result is of no task, beyond the policy, an experiment failure or a second one of its attempt, or follows no retryable failure of the attempt before; otherwise each task has exactly its results in attempt order, and the status its last one stands for |
| `Aggregation.AggregateResults` | src/ygo_effect_dsl/engine/search/parallel.py:662-713 | the two loops do that |
| `Aggregation.ReversingChangesNothing` | src/ygo_effect_dsl/prototype/real_core_stress.py:240-266 | reversing the aggregation input changes nothing |
| `Aggregation.OutcomeOfComplete` | src/ygo_effect_dsl/engine/search/parallel.py:692-713 | the attempts of one completed task aggregate to themselves and a final status |
| `Canonical.CanonicalTextUnambiguous` | src/ygo_effect_dsl/engine/canonical.py:10-28 | two values that have a canonical text share it exactly when they are equal up to dict order (a tuple counting as a list, a dataclass as a dict, an int key as its decimal text) |
| `JsonReader.CanonicalTextDenotes` | src/ygo_effect_dsl/engine/canonical.py:10-28 | read by the grammar of RFC 8259, canonical text denotes the value it was made of, members in ascending order of their keys, and no text that reads the same is shorter |
| `JsonReader.ReadPrint` | src/ygo_effect_dsl/engine/canonical.py:22-28 | a reader of that grammar gives every printed value back: literals, ints, escapes, arrays and objects |
| `JsonReader.PrintShortest` | src/ygo_effect_dsl/engine/canonical.py:22-28 | no text that reads to a value is shorter than its printed text, so nothing is escaped without need and no blank is written |
| `JsonReader.EscapesLower` | src/ygo_effect_dsl/engine/canonical.py:22-28 | escapes are spelled in lower case |
| `Canonical.DigestUnambiguous` | src/ygo_effect_dsl/engine/canonical.py:31-33 | content identifiers of a collision-free hash inherit that |
| `Canonical.FailsExactly` | src/ygo_effect_dsl/engine/canonical.py:10-28 | serialisation raises exactly when some dict mixes text and int keys or some int, key or not, has more digits than the interpreter writes |
| `Canonical.FailsExactlyOnMixedKeys` | src/ygo_effect_dsl/engine/canonical.py:15-16 | sorting the keys raises exactly when some dict mixes text and int keys |
| `Canonical.LongIntsSeen` | src/ygo_effect_dsl/engine/canonical.py:10-28 | the ints written as keys and as numbers are exactly those the value holds |
| `Canonical.CanonicaliseTwice` | src/ygo_effect_dsl/engine/canonical.py:10-28 | canonicalising twice prints the same text, and gives the same data exactly when, in every dict of the value, two keys are in key order just when their texts are in text order |
| `Canonical.OrderedIffAgree` | src/ygo_effect_dsl/engine/canonical.py:10-20 | exactly that makes the first result stand in text order |
| `Canonical.SortEntriesAscending` | src/ygo_effect_dsl/engine/canonical.py:15-16 | entries are sorted by their keys, ints as numbers and texts as texts |
| `Canonical.TextKeysIdempotent` | src/ygo_effect_dsl/engine/canonical.py:10-20 | with text keys throughout, canonicalising is idempotent |
| `Canonical.IntKeysReorder` | src/ygo_effect_dsl/engine/canonical.py:10-20 | with int keys they may not: a concrete dict whose order changes the second time |
| `Canonical.PrintInjective` | src/ygo_effect_dsl/engine/canonical.py:22-28 | the printed text determines the JSON value |
| `Canonical.EmitPrefix` | src/ygo_effect_dsl/engine/canonical.py:22-28 | no printed value is the beginning of another, whatever follows |
| `Canonical.EscapedPrefix` | src/ygo_effect_dsl/engine/canonical.py:22-28 | the same for the escaped characters of strings |
| `Canonical.SortKeysOrders` | src/ygo_effect_dsl/engine/canonical.py:22-28 | key sorting leaves every object in ascending order without repeated keys |
| `Canonical.CanonicalUniqueKeys` | src/ygo_effect_dsl/engine/canonical.py:10-20 | canonical data of a well-formed value repeats no key |
| `Merge.DeepMergeLoop` | src/ygo_effect_dsl/pattern_rule_engine.py:79-96 | the loop, visiting the patch in any order, computes the merge |
| `Merge.MergeMeaning` | src/ygo_effect_dsl/pattern_rule_engine.py:79-96 | path by path: where both dicts lead to a value, two dicts share their keys, two lists are joined, and of anything else the patch stands if it overwrites or the base is blank; where only one has a key, its value stands |
| `Merge.FoldMeaning` | src/ygo_effect_dsl/pattern_rule_engine.py:16-35 | a fold is one such merge after the other |
| `Merge.MergeAssociative` | src/ygo_effect_dsl/pattern_rule_engine.py:79-96 | the merge is associative on a triple of values exactly when it regroups; the counterexamples are a foreign value between two containers of one kind |
| `Merge.GroupingMatters` | src/ygo_effect_dsl/pattern_rule_engine.py:79-96 | a concrete triple of dicts that merges to two different results: a text between two lists under one key |
| `Merge.AbsorbsExact` | src/ygo_effect_dsl/pattern_rule_engine.py:79-96 | exactly which patches leave a base unchanged |
| `Merge.SameKindsRegroup` | src/ygo_effect_dsl/pattern_rule_engine.py:79-96 | values that agree on the kind at every path regroup |
| `Merge.FoldIsOneMerge` | src/ygo_effect_dsl/pattern_rule_engine.py:16-35 | applying patches one after another equals one merge of the base with the combined patch |
| `Merge.FoldAppend` | src/ygo_effect_dsl/pattern_rule_engine.py:16-35 | folding one list of patches after another equals folding both |
| `Merge.MergePreserves` | src/ygo_effect_dsl/pattern_rule_engine.py:79-96 | every non-empty scalar of the base survives at its path, every list that meets a list stays its prefix, no key is lost |
| `Merge.FoldPreserves` | src/ygo_effect_dsl/pattern_rule_engine.py:16-35 | the same over any run of patches, whatever they are |
| `Merge.OverwritePatchWins` | src/ygo_effect_dsl/pattern_rule_engine.py:79-96 | in overwrite mode every leaf of the patch is in the result and every list of it ends the list found there |
| `RuleEngine.BuildCaptureContext` | src/ygo_effect_dsl/pattern_rule_engine.py:37-46 | captures are resolved in order, each seeing the earlier ones |
| `RuleEngine.ApplyRules` | src/ygo_effect_dsl/pattern_rule_engine.py:16-35 | the emissions of the matching rules, each an instance of its template with the captures that rule found, are merged into the payload one after the other, and the hits are those rules |
| `RuleEngine.ApplyCandidates` | src/ygo_effect_dsl/pipeline/core.py:243-261 | fragment after fragment, each with the captured values it sees: all emissions are merged one after the other, and a fragment is unmatched exactly when no rule hits |
| `RuleEngine.StageMeaning` | src/ygo_effect_dsl/pipeline/core.py:243-261 | what a fragment sees: the values of the markers at its first place in the source, its own whenever as many were captured as the source has markers and the place cuts through none, nothing for a marker it does not hold, and all values if it is not found |
| `RuleEngine.CaptureIsOwn` | src/ygo_effect_dsl/pipeline/core.py:45-64 | so a capture KEY[k] of a rule gets the value captured for the k-th such marker of its own fragment |
| `RuleEngine.StageIsOneMerge` | src/ygo_effect_dsl/pipeline/core.py:243-261 | a stage whose emissions agree on kinds is one merge of the payload with the combined emission |
| `RuleEngine.StagePreserves` | src/ygo_effect_dsl/pipeline/core.py:243-261 | whatever the rules emit, a stage loses no scalar, list prefix or key of the payload |
| `Markers.NormalizeAligned` | src/ygo_effect_dsl/normalize.py:24-99 | normalisation finishes exactly when no run of digits it captures, or reads as a level, rank or link off the marked text, is too long for int; each marker then occurs exactly as often as values were captured for it; and putting the captures back in order restores the lowercased text exactly when every captured run is the plain decimal of its value |
| `Spans.NormalizeMeaning` | src/ygo_effect_dsl/normalize.py:24-99 | against the patterns read as sets of matches: the names are what stands between quotes, leftmost match after leftmost match; the numbers are the values of the digit runs between word boundaries in the text with each name replaced; levels, ranks and links are the values of the digits behind those words in the text with each number replaced, each kept once in order of first occurrence |
| `Markers.NoNumberLeft` | src/ygo_effect_dsl/normalize.py:45-53 | number extraction is complete: its pattern matches nowhere in the text it leaves |
| `Markers.CategoriesOnlyGlued` | src/ygo_effect_dsl/normalize.py:70-99 | a level, rank or link is read only where a letter or another word character follows its digits, because separate numbers were replaced before |
| `Markers.PlainLevelLost` | src/ygo_effect_dsl/normalize.py:45-77 | so the text "level 4" records no level: its 4 is a captured number |
| `Markers.LeadingZeroLost` | src/ygo_effect_dsl/normalize.py:45-53 | the text 04 is not restored: it is kept as 4 |
| `Numerals.ReprintRun` | src/ygo_effect_dsl/normalize.py:48-50 | printing the int of a run of digits gives the run back exactly for ASCII digits without a leading zero |
| `Order.LessMeaning` | src/ygo_effect_dsl/engine/canonical.py:15-16 | a string comes before another exactly when, where they first differ, it ends or has the smaller code point |
| `Markers.MarkersInInputDrift` | src/ygo_effect_dsl/normalize.py:24-53 | without lowercasing the counts drift: a text that already holds a marker |
| `Markers.NamesFillBack` | src/ygo_effect_dsl/normalize.py:35-43 | the same round trip for quoted names alone |
| `Markers.NumbersKeepNames` | src/ygo_effect_dsl/normalize.py:45-53 | extracting numbers neither adds nor hides a name marker |
| `Markers.CountIsOccurrences` | src/ygo_effect_dsl/pipeline/core.py:45-64 | counting without overlap counts every occurrence of these markers |
| `Markers.SliceMatchesMarkers` | src/ygo_effect_dsl/pipeline/core.py:45-64 | a fragment found in the source gets exactly one value per marker it holds |
| `Markers.OwnSliceExactlyAtFirst` | src/ygo_effect_dsl/pipeline/core.py:45-64 | and they are its own values, whatever was captured, exactly when the fragment stands at the first place its text occurs |
| `Routes.MinimumRankingMeaning` | src/ygo_effect_dsl/route_dsl/analysis.py:207-233 | a ranking is unavailable exactly when some route lacks the measure; otherwise its value is the minimum and its winners exactly the routes that reach it |
| `Routes.HighestScoreMeaning` | src/ygo_effect_dsl/route_dsl/analysis.py:236-257 | the routes share a context, the score is their highest and its winners exactly the routes that reach it; or two contexts differ, and all are listed ascending |
| `Routes.DifferencesSpan` | src/ygo_effect_dsl/route_dsl/analysis.py:260-305 | every listed difference carries exactly the actions of the two spans it names |
| `Routes.MinimumRankingSame` | src/ygo_effect_dsl/route_dsl/analysis.py:207-233 | a ranking depends only on the set of routes |
| `Routes.HighestScoreSame` | src/ygo_effect_dsl/route_dsl/analysis.py:236-257 | so does the score ranking |
| `Routes.DiffSteps` | src/ygo_effect_dsl/route_dsl/analysis.py:260-305 | the loop lists one difference per opcode that is not equal |
| `Routes.DifferencesExplain` | src/ygo_effect_dsl/route_dsl/analysis.py:260-305 | applying the listed differences to the representative's actions gives exactly the other route's actions, for any opcodes that meet their partition contract |
| `RouteGroups.GroupReport` | src/ygo_effect_dsl/route_dsl/analysis.py:326-413 | a group report exists exactly when routes of one context agree on their score, and is then the specified one |
| `RouteGroups.GroupMeaning` | src/ygo_effect_dsl/route_dsl/analysis.py:326-413 | everything a group report says: its routes ascending, its rankings, the representative before every alternative, each alternative once in order with its deltas and differences, and the branch points |
| `RouteGroups.RepresentativeIsBest` | src/ygo_effect_dsl/route_dsl/analysis.py:341-349 | the representative has the fewest actions, among those the least measured cost, among those the least identifier, and it is among the group's shortest |
| `RouteGroups.AlternativeDeltas` | src/ygo_effect_dsl/route_dsl/analysis.py:350-381 | for every alternative the action delta is non-negative, a comparable score delta is zero, and the differences explain it completely |
| `RouteReport.GroupByTarget` | src/ygo_effect_dsl/route_dsl/analysis.py:499-501 | every group holds exactly the routes with its target, in input order |
| `RouteReport.ReportGroups` | src/ygo_effect_dsl/route_dsl/analysis.py:502-510 | one report per target in sorted order, until the first group whose scores disagree |
| `RouteReport.NormalizeAndExplain` | src/ygo_effect_dsl/route_dsl/analysis.py:416-534 | the report covers every route once, in groups by ascending target that are each explained, and its cheapest, shortest and highest-scoring routes are those that attain these; or the first of the three things wrong with the documents is named, with the repeated identifiers or the least target whose scores disagree |
| `RouteReport.NormalizeMeaning` | src/ygo_effect_dsl/route_dsl/analysis.py:416-534 | the specification means exactly that |
| `RouteReport.NormalizePermuted` | src/ygo_effect_dsl/route_dsl/analysis.py:416-534 | the report, or the error, is the same for every permutation of the documents |
| `RouteReport.GroupsPartition` | src/ygo_effect_dsl/route_dsl/analysis.py:416-534 | every route is in exactly one group, the one carrying its target, and the groups stand in ascending target order |
| `RouteReport.GroupHolds` | src/ygo_effect_dsl/route_dsl/analysis.py:326-413 | each group holds exactly the routes with its target |
| `RouteReport.ShortestIsARepresentative` | src/ygo_effect_dsl/route_dsl/analysis.py:416-534 | the global shortest value is the minimum over the representatives |
| `RouteReport.NoDuplicatesUnique` | src/ygo_effect_dsl/route_dsl/analysis.py:443-447 | accepted documents have distinct identifiers |
| `ScriptedRoute.ValidateScenario` | src/ygo_effect_dsl/prototype/scripted_core.py:169-214 | the validation loops accept exactly the valid scenarios |
| `ScriptedRoute.ScriptedCoreSession.Apply` | src/ygo_effect_dsl/prototype/scripted_core.py:130-162 | an action is accepted exactly when it answers the pending request with the scripted selection and its one kind; the session then moves one step, and otherwise not at all |
| `ScriptedRoute.ScriptedCoreSession.NextRequest` | src/ygo_effect_dsl/prototype/scripted_core.py:85-128 | the pending request is the one of the current step, and there is none once the script is consumed |
| `ScriptedRoute.Advance` | src/ygo_effect_dsl/prototype/runtime.py:80-163 | one turn records exactly the event and checkpoint its step prescribes, or the step's error; the session never refuses it |
| `ScriptedRoute.RunScript` | src/ygo_effect_dsl/prototype/runtime.py:78-163 | the loop consumes the whole script or stops at the first step that raises |
| `ScriptedRoute.BuildRoute` | src/ygo_effect_dsl/prototype/runtime.py:63-174 | a route is built exactly when the scenario is valid and every step is playable; its events and checkpoints are those of the boards the script passes through; no legal board succeeds where the peak does not, none of equal success scores higher, none of equal score has higher ties, and of equals the peak is the first; otherwise the first step that is not playable is named with what is wrong with it |
| `ScriptedRoute.BuiltMeaning` | src/ygo_effect_dsl/prototype/runtime.py:63-174 | a recorded run and its peak mean exactly that |
| `ScriptedRoute.FindPeak` | src/ygo_effect_dsl/prototype/runtime.py:167-173 | the running comparison finds the maximum of the legal checkpoints, and none exactly when none is legal |
| `ScriptedRoute.BetterTotal` | src/ygo_effect_dsl/prototype/runtime.py:246-263 | the comparison is total on checkpoints of different steps |
| `ScriptedRoute.BetterTransitive` | src/ygo_effect_dsl/prototype/runtime.py:246-263 | and transitive |
| `ScriptedRoute.PeakUnique` | src/ygo_effect_dsl/prototype/runtime.py:246-263 | so there is one peak |
| `ScriptedRoute.HistoryChains` | src/ygo_effect_dsl/prototype/runtime.py:109-146 | the events chain without a gap from the initial state, each announcing the next request |
| `ScriptedRoute.TurnIndicesCount` | src/ygo_effect_dsl/prototype/runtime.py:109-120 | within each known turn the action indices are 0, 1, 2, ... in order |
| `Treatment.BaselineReach` | src/ygo_effect_dsl/experiment/cross_validation.py:49-102 | baseline searches reach exactly the playable prefixes without the specified activation |
| `Treatment.InterruptedReach` | src/ygo_effect_dsl/experiment/cross_validation.py:49-102 | interrupted searches reach exactly the playable prefixes that take the activation the first time it is offered |
| `Treatment.ReplayMeaning` | src/ygo_effect_dsl/experiment/cross_validation.py:76-102 | a legal stop offers nothing; elsewhere the baseline drops the activation from what the core offers and the interrupted treatment offers it alone until it has been taken, in the order of the core |
| `Treatment.NeverPastLegalStop` | src/ygo_effect_dsl/experiment/cross_validation.py:76-102 | no search continues past a legal stop |
| `Treatment.SecondActivationAllowed` | src/ygo_effect_dsl/experiment/cross_validation.py:76-102 | only the first activation is forced: a second one can follow |
| `Lineage.BuildLineage` | src/ygo_effect_dsl/experiment/cross_validation.py:274-415 | construction succeeds exactly on the lineages, and returns the fork and the recovery tail; anything else is refused for its first fault in the order of the checks |
| `Lineage.FaultlessLineage` | src/ygo_effect_dsl/experiment/cross_validation.py:274-415 | two histories are a lineage exactly when none of the thirteen faults is there |
| `Lineage.CheckResponses` | src/ygo_effect_dsl/experiment/cross_validation.py:349-371 | the loop accepts exactly the responses that stand right after the fork in order |
| `Lineage.CommonPrefixIs` | src/ygo_effect_dsl/experiment/cross_validation.py:299-342 | the fork step is the length of the longest common prefix exactly when the histories agree before it and differ at it |
| `Lineage.LineageSplits` | src/ygo_effect_dsl/experiment/cross_validation.py:274-415 | a validated interrupted history is common prefix, one activation, contiguous responses, and a non-empty recovery |
| `Ydk.Parse` | src/ygo_effect_dsl/experiment/scenario.py:106-167 | text, split into its lines, is accepted exactly when no line is wrong where it stands and all three markers occur, and then each section holds exactly the codes of the lines whose last marker is its own, in order; otherwise the first wrong line with what is wrong with it, or the missing sections, are reported |
| `Ydk.LinesMeaning` | src/ygo_effect_dsl/experiment/scenario.py:118-126 | the lines are the text between its breaks, CR LF being one, and each is classified by what is left when the blanks at both ends are taken away |
| `Ydk.ParseLines` | src/ygo_effect_dsl/experiment/scenario.py:118-167 | the same for lines already told apart |
| `Ydk.MeaningUnique` | src/ygo_effect_dsl/experiment/scenario.py:106-167 | a text has one outcome |
| `Ydk.RoundTrip` | src/ygo_effect_dsl/experiment/scenario.py:106-167 | a printed deck is accepted exactly when every code is positive and within the interpreter's digit limit, and reads back as itself |
| `Ydk.SkippedLineChangesNothing` | src/ygo_effect_dsl/experiment/scenario.py:122-125 | an ignored line put anywhere leaves the deck or the error as it was and moves only later line numbers |
| `Ydk.BlankLineChangesNothing` | src/ygo_effect_dsl/experiment/scenario.py:122-125 | the same in text: a blank or "#created by" line between two lines |
| `Ydk.SplitAtBoundary` | src/ygo_effect_dsl/experiment/scenario.py:122-122 | splitting a text into lines distributes over a line boundary |
| `Witness.InitialZoneCounts` | src/ygo_effect_dsl/experiment/qualification.py:196-218 | every count is the number of present cards in the snapshot zones of that player and location |
| `Witness.DeriveTransitions` | src/ygo_effect_dsl/experiment/qualification.py:296-319 | the loops fail exactly on a malformed checkpoint and otherwise record every change |
| `Witness.SlotsSeparate` | src/ygo_effect_dsl/experiment/qualification.py:299-319 | the recorded list holds, for each player and zone, exactly that zone's own changes in order |
| `Witness.TransitionsTelescope` | src/ygo_effect_dsl/experiment/qualification.py:296-319 | for each player and zone every change starts where the one before ended, from the initial to the last count, so the differences add up |
| `Witness.EmptyIffConstant` | src/ygo_effect_dsl/experiment/qualification.py:296-321 | nothing is recorded exactly when no count ever moves |
| `Witness.DeriveProgression` | src/ygo_effect_dsl/experiment/qualification.py:265-274 | the progression loop fails exactly on a malformed checkpoint and otherwise drops immediate repeats |
| `Witness.ProgressionFollows` | src/ygo_effect_dsl/experiment/qualification.py:265-274 | the progression has no immediate repeats and walking through the checkpoints walks through it, staying on a repeat and moving on at a change |
| `Witness.CollapseFixed` | src/ygo_effect_dsl/experiment/qualification.py:265-274 | a progression is its own progression |
| `Witness.DeriveQualificationWitness` | src/ygo_effect_dsl/experiment/qualification.py:236-336 | a witness is derived exactly for qualifying routes, and its document holds, under the names and fixed texts of its kind, the action count and the progression or the transitions of that route |
| `Witness.WitnessMeaning` | src/ygo_effect_dsl/experiment/qualification.py:236-336 | the specified witness is that document |
| `Witness.AcceptsDocuments` | src/ygo_effect_dsl/experiment/qualification.py:569-695 | the validator accepts exactly the documents of the three kinds: at least one action; at least twelve, a checkpoint and a progression; at least one transition |
| `Witness.ValidateWitness` | src/ygo_effect_dsl/experiment/qualification.py:569-695 | the validator loops decide acceptance |
| `Witness.DerivedAccepted` | src/ygo_effect_dsl/experiment/qualification.py:569-695 | every derived witness passes the validator, except the short witness of a route without events |
| `Witness.GraveBanishAccepted` | src/ygo_effect_dsl/experiment/qualification.py:638-695 | the validator accepts a zone witness exactly when the route stopped legally and its transitions are non-empty and each sound by itself |
| `Witness.GapsAccepted` | src/ygo_effect_dsl/experiment/qualification.py:659-693 | so a list of transitions with a gap passes |
| `Governance.TargetKnown` | src/ygo_effect_dsl/release_governance.py:177-187 | a target version is always one of the policy |
| `Governance.ObservedMembers` | src/ygo_effect_dsl/release_governance.py:197-198 | the observed labels are the issue's labels the policy knows, sorted and without repeats |
| `Governance.CleanIffPlaced` | src/ygo_effect_dsl/release_governance.py:190-229 | an issue with a target has no finding but its open state exactly when it carries the one expected version label and milestone |
| `Governance.AuditIssues` | src/ygo_effect_dsl/release_governance.py:232-240 | by ascending number, one finding for each issue that is not compliant and no other, each code standing exactly for what is wrong |
| `Governance.AuditMeaning` | src/ygo_effect_dsl/release_governance.py:190-229 | what the finding of one issue says: the version it belongs to, the known labels it carries, and each code exactly for its fault |
| `Governance.AuditedMeaning` | src/ygo_effect_dsl/release_governance.py:232-240 | an issue has no finding exactly when it is too old to be managed, or stands in its version's milestone with that label alone and is closed if the version is done |
| `Governance.FindingsMeaning` | src/ygo_effect_dsl/release_governance.py:232-240 | there is one finding for each issue that is not compliant and no other |
| `Governance.RepairOne` | src/ygo_effect_dsl/release_governance.py:306-339 | the calls for one finding repair its issue; when one raises, whether or not it took effect, nothing but version labels and milestone of that issue has changed |
| `Governance.ApplyOne` | src/ygo_effect_dsl/release_governance.py:298-339 | a finding without target or listed milestone is refused before any call |
| `Governance.ApplyFindings` | src/ygo_effect_dsl/release_governance.py:281-339 | without a milestone listing nothing is done; otherwise findings are acted on in order until one cannot be; each acted on leaves its issue with the observed labels gone but the expected one, in the expected milestone, and everything else as it was; what was done before and what the last one left is stated for every outcome |
| `Governance.ActedMeaning` | src/ygo_effect_dsl/release_governance.py:281-339 | acting on the first findings is one such repair after the other |
| `Governance.CompletesIffApplicable` | src/ygo_effect_dsl/release_governance.py:281-339 | with a reachable tracker and a current audit it completes exactly when every finding is classified and its milestone listed |
| `Governance.RepairPlaces` | src/ygo_effect_dsl/release_governance.py:303-339 | a repaired issue carries exactly its one expected version label and milestone, and its other labels in their order |
| `Governance.Converges` | src/ygo_effect_dsl/release_governance.py:190-339 | after audit and completed apply every listed issue is settled: all the audit can still say is that it is open in a released or superseded milestone |
| `Governance.AuditApplyAudit` | src/ygo_effect_dsl/release_governance.py:190-339 | auditing again finds only that, and applying again changes no label or milestone |
| `Profiles.DeckTerminalProfileCatalog.Create` | src/ygo_effect_dsl/desktop/service.py:891-923 | a proper name, deck and preference are stored as given in a new active record of revision one under its identifier; otherwise nothing changes; the catalog stays readable |
| `Profiles.DeckTerminalProfileCatalog.Update` | src/ygo_effect_dsl/desktop/service.py:925-960 | an active registered profile gets the new name and preference, the next revision and the time, and keeps identity, deck and creation time; an unknown, archived or invalid one changes nothing |
| `Profiles.DeckTerminalProfileCatalog.Archive` | src/ygo_effect_dsl/desktop/service.py:962-988 | a registered profile is archived once, with everything but state and times as it was; archiving again returns it unchanged |
| `Profiles.Lifecycle` | src/ygo_effect_dsl/desktop/service.py:891-988 | over any run that does not create the identifier again: identity, deck and creation time stay, the revision counts the successful updates, archived is final |
| `Profiles.BornOnce` | src/ygo_effect_dsl/desktop/service.py:891-988 | from its creation on a profile has revision one plus its successful updates |
| `Profiles.CreateCollides` | src/ygo_effect_dsl/desktop/service.py:891-923 | creating meets an existing identifier exactly when an earlier profile was created with the same arguments and time; it then starts that profile over, even if archived |
| `Profiles.IdentifierNamesBirth` | src/ygo_effect_dsl/desktop/service.py:898-909 | with a collision-free hash two creations get the same identifier exactly when their arguments and times are equal |
| `Profiles.IdentifierMeaning` | src/ygo_effect_dsl/desktop/service.py:898-909 | the identifier is "decktermpref_" and the hash of a JSON text that reads as the five named fields |

## Left out

- Floating point: scores, costs and times are reals, so rounding, NaN and the two numeric types of a score are not modelled.
- Text encoding: strings are sequences of code points without lone surrogates; `str.lower`, Unicode normalisation and `str.isspace` are parameters.
- Regular expressions: matching is an oracle, except for the capture and category patterns of normalisation, which are modelled.
- Markers.NormalizeAligned: leaves out the categories of the vocabulary, which only test whether a text occurs in another.
- Lease.HeartbeatBounds: reads the wall clock that stamps a renewal and the monotonic clock on one scale.
- Lease.SafeTurnLength: leaves out the attempt deadline, at which the catalog ends a lease however often it is renewed.
- Merge.DeepMergeLoop: does not state the insertion order of the merged dict, because Python compares dicts without it.
- Worker.DesktopSearchWorker.PollLoop: does not model a loop that never ends; a scenario lists the turns taken until the child exits, any finite number of them.
- Worker.DesktopSearchWorker.Supervise: assumes that a terminate call that returns has ended the process tree; job objects, process groups and signals are not modelled.
- Worker.DesktopWorkerSupervisor.Run: does not model threads; the stop flag takes effect between jobs, after the given scenarios.
- The catalog, the search executor and the route validator are not part of this model; each is a call that may raise.
- StressPool.ExecutePlan: does not model the construction of the plan, nor the clean-up of cancelled futures; worker results are a function of task and attempt.
- Routes.DiffSteps: takes any opcodes that partition both sequences, as `difflib` documents; how it finds them is not modelled.
- RouteReport.NormalizeAndExplain: takes each route's cost, score and target state as given; document validation, resource measurement and the check for unknown cost entries are left out.
- JsonReader.CanonicalTextDenotes: the reader takes no fractions or exponents and no surrogate pairs as escapes; the text of a value without floats holds neither.
- Aggregation.AggregateMeaning: leaves out the identifiers a result repeats from the plan, the merged logs and the best task of the aggregate.
- Canonical.DigestUnambiguous: takes the hash as a collision-free function; SHA-256 is not modelled.
- Frontier.RealCoreFrontierAdapter.Invoke: does not model the process, its pipes or its clean-up, only what each attempt turned out to be; the message texts of the failures made up here are stand-ins.
- ScriptedRoute.BuildRoute: leaves the evaluator, the digests and the remaining document fields to the oracle.
- Lineage.BuildLineage: reduces an event to request, action and everything else that enters its semantics; field-by-field document checks are left out.
- Ydk.Parse: starts from decoded text; reading the file, its encoding and its checksum are left out.
- Governance.ApplyFindings: assumes the tracker compares label names exactly and lists its milestones by their own titles; paging and the 1000-issue limit of the listing are left out.
- Profiles.DeckTerminalProfileCatalog.Create: keeps the records in memory; the JSON file, the lock and the corruption checks of reading are left out.
- The opening hand, structural diagnostics and initial state of a scenario, because they settle each check with one branch.
- The target extraction of action fragments and the target linking of a card, because both depend on the regular expressions that split a fragment.
- `FailureRecord.to_dict` and `from_dict`, the deck catalogs beside the terminal profiles, the coverage and candidate counts, the command line, report writers and atomic file writes, because they would only add easy members.
