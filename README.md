# Job scheduler: dependency gate and deadlock handling

This project models the sequential core of a small job scheduler in which
jobs may depend on other jobs. It covers two parts. The first is the job
record, with its write-once completion flag and its dependency gate
(models/job.py). The second is the deadlock handler (scheduler/deadlock.py):
detection by Kahn's topological sort, and resolution, which clears the
dependencies of every deadlocked job in place.

The project has three modules:

- `Jobs` (jobs.dfy) models the `Job` class, with its fields and methods.
  - `Unmet` is the list comprehension that the gate builds: the
    dependencies not yet completed.
  - `Job.CanExecute` answers whether that list is empty.
- `DependencyGraph` (graph.dfy) is the reference meaning of detection, on
  plain values. A node is a job ID with the IDs it depends on.
  - `Settled(g, k)` holds the IDs that can run after `k` rounds. In each
    round, every job whose dependencies have all settled settles too.
  - `Deadlocked(g)` holds the IDs that have not settled after `|g|` rounds.
  - `Resolved` is the blunt resolution policy applied to such a list.
  - The lemmas here are about this reference: cycles, jobs behind them,
    topological orders, resolution.
- `Deadlock` (deadlock.dfy) models `detect_deadlock` and `resolve_deadlock`
  over `Job` objects.
  - Detection keeps the source's maps and queue. The dependency→dependents
    table is a `map<int, seq<Job>>`. The in-degree table is a
    `map<int, int>`. The FIFO deque is a `seq<Job>`, and the sorted order
    is another.
  - Each loop of the source is a method of its own with its loop
    invariants: the build loop, the seeding loop, the main `while` loop
    and its inner release loop.
  - `DetectDeadlock` is proved to return exactly
    `Deadlocked(Snapshot(jobs))`. `Snapshot` is the value view of the
    jobs' current ID and dependency lists.
  - `ResolveDeadlock` writes `dependencies := []` on the shared `Job`
    objects, under a `modifies` clause.

What detection reports is wider than a cycle. A job is reported when it
lies on a cycle, when it depends on a reported job, or when it depends on an
ID that names no job in the list. This follows the code: a dependency on a
missing ID adds to the in-degree (scheduler/deadlock.py:34-36), but nothing
ever decrements it. The docstring (scheduler/deadlock.py:24) speaks only of
jobs "involved in a deadlock cycle". `DependencyGraph.BlockedBehind` states
the behaviour of the code in one direction. `Deadlock.DetectDeadlock` states
the other: every reported job depends on an ID that names no job or names a
reported job.

Two further points about the code as written:

- **Return type.** `detect_deadlock` is annotated as returning `set[Job]`,
  but it returns a set of job IDs (scheduler/deadlock.py:52). The model
  returns `set<int>`.
- **Self-dependency.** Nothing in the code stops a job from depending on
  its own ID. The model admits self-dependencies, and `CycleIsDeadlocked`
  with a cycle of length one shows that such a job is reported.

## Model

| member | source | states |
|---|---|---|
| Jobs.Unmet | models/job.py:58 | the unmet list holds exactly the dependencies not in the completed set, each as often as in the dependency list; it is empty iff every dependency is completed, and never longer than the dependency list |
| Jobs.UnmetNothingCompleted | models/job.py:58 | with nothing completed, the unmet list is the whole dependency list |
| Jobs.UnmetComplete | scheduler/deadlock.py:46-47 | completing one more job `x` shortens the unmet list by exactly the number of occurrences of `x` in the dependencies: the in-degree decrement of the main loop |
| Jobs.UnmetNarrows | models/job.py:58 | filtering by a larger completed set after a smaller one is the same as filtering by the larger one |
| Jobs.UnmetAgrees | models/job.py:58 | two completed sets that agree on every dependency leave the same unmet list |
| Jobs.UnmetShrinks | models/job.py:58 | as more jobs complete, the unmet list is the earlier unmet list with only the newly completed IDs filtered out, in the same order, so it never grows |
| Jobs.Job.constructor | models/job.py:11-23 | ID and execution time stored as given; `None` or an empty list gives `[]`, any other list is stored as given; a new job is not completed |
| Jobs.Job.Execute | models/job.py:26-35 | fails when the execution time is negative (a negative time makes `time.sleep` raise before the flag is written) and succeeds otherwise; on success the job is completed, on failure the flag keeps its old value; the dependencies are unchanged, ID and execution time are immutable, and only the flag may change |
| Jobs.Job.MarkComplete | models/job.py:38-44 | afterwards the job is completed, whatever the flag was (so a second call changes nothing); the dependencies are unchanged; only the flag may change |
| Jobs.Job.CanExecute | models/job.py:47-63 | true iff every dependency ID is in the completed set; true for a job without dependencies whatever has completed; being a function, it changes nothing |
| Jobs.CanExecuteMonotone | models/job.py:58-63 | a job that may run for some completed set may run for every superset of it |
| Jobs.GateScenario | tests/test_job.py:3-23 | a job depending on job 0 may run once 0 has completed, may not run with nothing completed, and is completed after executing |
| DependencyGraph.GateAgrees | models/job.py:58-63 | the reference readiness test (every dependency done) agrees with the gate's unmet list being empty |
| DependencyGraph.DeadlockedIsUnsettled | scheduler/deadlock.py:51-52 | the deadlocked IDs are the IDs of the list less those that settle |
| DependencyGraph.SettledExactly | scheduler/deadlock.py:42-51 | a topological order of some of the jobs that leaves every other job with an unsorted dependency holds exactly the jobs that settle: what Kahn's loop leaves when the queue runs dry |
| DependencyGraph.TopologicalOrderNoDeadlock | scheduler/deadlock.py:51-57 | jobs that can be listed so that each depends only on jobs listed before it (no cycle, no missing ID) are never reported deadlocked |
| DependencyGraph.ProducerOrderNoDeadlock | scheduler/producer.py:45-48 | a job list built as the producers build it, each job depending only on earlier ones, has no deadlock |
| DependencyGraph.SelfBlockingIsDeadlocked | scheduler/deadlock.py:46-52 | every job of a set in which each job depends on some job of the set is reported |
| DependencyGraph.CycleIsDeadlocked | scheduler/deadlock.py:46-52 | on a cycle of any length, each job depending on the next and the last on the first, every job is reported |
| DependencyGraph.BlockedBehind | scheduler/deadlock.py:34-52 | a job that depends on an ID naming no job, or on a reported job, is itself reported |
| DependencyGraph.AllBlocked | scheduler/deadlock.py:46-52 | when every job belongs to such a self-blocking set, the reported set is exactly that set |
| DependencyGraph.ThreeCycle | tests/test_deadlock.py:4-14 | for a -> b -> c -> a the reported set is exactly {a, b, c} |
| DependencyGraph.FewerDepsSettleSooner | scheduler/deadlock.py:78-80 | removing dependencies never delays a job: every job settled before is settled after, round by round |
| DependencyGraph.ResolveClearsDeadlock | tests/test_deadlock.py:16-29 | after clearing the dependencies of every reported job, nothing is reported |
| Deadlock.AddDependents | scheduler/deadlock.py:34-36 | for one job: its in-degree grows by the length of its dependency list and no other in-degree changes; the job is added to the dependents of `d` once per occurrence of `d`, and no other job is added |
| Deadlock.DegreesAdded | scheduler/deadlock.py:33-36 | after job `i` is processed, jobs `0..i` have in-degree equal to their dependency count and the later jobs still have 0 |
| Deadlock.DependentsAdded | scheduler/deadlock.py:33-36 | after job `i` is processed, the dependents of `d` hold each of jobs `0..i` once per occurrence of `d` in its dependencies, and no job outside the list |
| Deadlock.BuildGraph | scheduler/deadlock.py:33-36 | every job's in-degree is the length of its dependency list, duplicates counted; the dependents of `d` hold each job once per occurrence of `d` in its dependencies, and only jobs of the list |
| Deadlock.SeedReady | scheduler/deadlock.py:38-40 | the ready queue holds exactly the jobs of in-degree 0, each once |
| Deadlock.ReleaseDegree | scheduler/deadlock.py:46-47 | one decrement takes one from the dependent's in-degree, which was still positive, and changes no other job's |
| Deadlock.ReleaseOne | scheduler/deadlock.py:46-49 | one release step keeps the queue within the jobs and duplicate-free with the sorted order, and keeps a job enqueued or sorted exactly when its in-degree is 0 |
| Deadlock.ReleaseDependents | scheduler/deadlock.py:46-49 | each dependent loses one in-degree per occurrence among the dependents; the jobs reaching 0 join the queue, each once; a job is sorted or queued exactly when its in-degree is 0 |
| Deadlock.PopQueue | scheduler/deadlock.py:43-44 | moving the head of the queue to the sorted order keeps every job in at most one place and adds exactly the head's ID to the sorted IDs |
| Deadlock.PopHead | scheduler/deadlock.py:43-44 | moving the head of the queue to the sorted order also keeps the sorted order topological |
| Deadlock.DegreesAfterPop | scheduler/deadlock.py:44-47 | once the head is sorted, each in-degree exceeds the number of unsorted dependencies by the job's occurrences among the head's dependents, which the release then removes |
| Deadlock.PopRound | scheduler/deadlock.py:43-47 | popping the head leaves the release loop its starting state: the extended sorted order is topological and duplicate-free with the rest of the queue, each in-degree is the unsorted-dependency count plus the occurrences among the head's dependents, and a job is sorted or waiting iff its in-degree is 0 |
| Deadlock.StartState | scheduler/deadlock.py:38-42 | before the first round the state of the main loop holds: nothing sorted, the in-degree of each job is its number of unsorted dependencies |
| Deadlock.SortNext | scheduler/deadlock.py:43-49 | one round appends the head of the queue to the sorted order and keeps the state of the main loop |
| Deadlock.EndState | scheduler/deadlock.py:42-51 | when the queue is empty, the sorted order is duplicate-free, within the jobs, at most as long, topological, and all of the jobs exactly when it is as long as the list |
| Deadlock.KahnSort | scheduler/deadlock.py:42-49 | the loop terminates; the sorted order has no repeats, at most as many entries as jobs and is topological; every in-degree is the number of unsorted dependencies, and a job is sorted iff its in-degree is 0 |
| Deadlock.ClosedWhenDry | scheduler/deadlock.py:42-52 | when the queue runs dry, no unsorted job has all its dependencies sorted |
| Deadlock.BlockedAreUnsorted | scheduler/deadlock.py:51-52 | the IDs with positive final in-degree are exactly the IDs of the unsorted jobs |
| Deadlock.SomeBlocked | scheduler/deadlock.py:51-52 | a sorted order shorter than the job list leaves some job with a positive in-degree |
| Deadlock.DetectMatchesReference | scheduler/deadlock.py:51-57 | the reported set equals the reference deadlocked set; it is empty iff every job was sorted, and otherwise it is the set of IDs with positive in-degree, a subset of the input IDs |
| Deadlock.BlockedIds | scheduler/deadlock.py:52 | the IDs of the jobs whose in-degree is still positive: a subset of the input IDs that holds every job with a positive in-degree |
| Deadlock.BlockedWaitOnBlocked | scheduler/deadlock.py:42-52 | once the queue has run dry, every job with a positive in-degree depends on an ID that names no job or names another job with a positive in-degree |
| Deadlock.Report | scheduler/deadlock.py:51-57 | the verdict after the main loop: the reference set of deadlocked IDs, a subset of the input IDs, empty iff every job was sorted, and every reported job depends on a missing or a reported ID |
| Deadlock.DetectDeadlock | scheduler/deadlock.py:15-57 | returns exactly the reference set of deadlocked IDs for the jobs' current dependencies, a subset of the input IDs; every reported job depends on an ID that names no job or names a reported job |
| Deadlock.ResolveDeadlock | scheduler/deadlock.py:60-83 | returns the same list; the new snapshot is the old one with the dependencies of exactly the jobs whose ID is in the set cleared; IDs, order, length and completion flags unchanged; an empty set changes nothing |
| Deadlock.ClearDependencies | scheduler/deadlock.py:78-80 | every job whose ID is in the set has no dependencies; every other job keeps its own; no completion flag changes |
| Deadlock.BreakCycles | scheduler/job_manager.py:62-64 | detection returns the reference set and resolution runs only when it is non-empty; afterwards the reference reports nothing for the jobs' new dependencies, and no completion flag has changed |
| Deadlock.ResolveAndRecheck | tests/test_deadlock.py:22-29 | for any jobs with distinct IDs, resolving what detection found and then detecting again returns the empty set |
| Deadlock.ThreeJobCycle | tests/test_deadlock.py:4-14 | three jobs with distinct IDs, each depending on the next and the last on the first, are all reported |
| Deadlock.NewCycle | tests/test_deadlock.py:5-9 | the test's three new jobs have distinct IDs and the reference reports exactly {1, 2, 3} |
| Deadlock.ThreeCycleScenario | tests/test_deadlock.py:4-29 | detection on 1 -> 2 -> 3 -> 1 returns {1, 2, 3}; after resolution, a second detection returns {} |

## Left out

- Locks and logging in models/job.py and scheduler/deadlock.py decide nothing and are not modelled, and neither is the thread safety the locks give. The wait of `time.sleep` is left out too. Of the exceptions it can raise before the flag is set, the one for a negative time is modelled in `Execute`; the one for a time beyond the runtime's range is not (see `Jobs.Job.Execute` below).
- scheduler/queue.py, scheduler/consumer.py, scheduler/producer.py and the thread orchestration of scheduler/job_manager.py are not part of this model. They are concurrency, a wrapper around the standard library queue, and random job generation. Their one piece of sequential logic, detect and then resolve once, is `BreakCycles`. The producers' dependency shape is `ProducerOrderNoDeadlock`.
- cli/parser.py, utils/logger.py, main.py and setup.py are not part of this model: argument parsing, logging setup, entry point and packaging.
- `Job.__repr__`: formatting only.
- Reading a missing key of a `defaultdict` inserts it. The model reads with a default (`Degree`, `Dependents`) and does not insert. No result of the source depends on the inserted keys.
- Job IDs are `int`, the type the `Job` constructor annotates and the tests use. The producers build string IDs. The reference in `DependencyGraph` is generic over any ID type with equality; the object-level model is not.
- Deadlock.DetectDeadlock: requires distinct job IDs, which the source does not check. With duplicate IDs the source's per-ID in-degrees mix up different jobs, and no meaningful contract holds.
- Deadlock.BreakCycles: requires distinct job IDs, for the same reason.
- Deadlock.ResolveAndRecheck: requires distinct job IDs, for the same reason.
- Jobs.Job.constructor: when a non-empty list is given, the source stores that very list object, so the caller and the job share it. The model stores the sequence value, so later mutation of the caller's list is not modelled.
- Jobs.Job.Execute: the simulated wait of `execution_time` seconds is left out. With a negative time the source's `time.sleep` raises `ValueError` before `is_completed` is set. The model returns `ok == false` for that case and leaves the flag as it was. A time above the range the runtime's `sleep` accepts (a platform-dependent bound, about 9.2 * 10^9 seconds on a 64-bit build) raises `OverflowError`, also before the flag is set; the model treats every non-negative time as success, so for such a time it sets the flag where the source does not. Neither exception's propagation to the caller is modelled (scheduler/consumer.py:43, 48-49 catches it and logs it).
