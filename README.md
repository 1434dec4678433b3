# MapReduce coordinator and worker, modelled in Dafny

This project models the core of a MapReduce lab implementation (`6.824/src/mr`).

A **coordinator** keeps one task table for the map phase and one for the reduce phase. Each task is WAITING, IN_PROGRESS or FINISH, with a lease start time and the locator of the worker holding it. RPC handlers do four things:
- hand out the first task that is WAITING or whose lease is older than ten seconds;
- mark tasks FINISH;
- count down the `MapRemain`/`ReduceRemain` counters;
- answer `Done`.

**Workers** loop over map stages until the coordinator says the map phase is over, then over reduce stages.
- A map stage runs the map function on one input file. It splits the pairs into `nReduce` buckets by `ihash(key) % nReduce` and writes each bucket to the file `mr-<map><bucket>`.
- A reduce stage reads its bucket from every map worker's directory and sorts the pairs by key. It calls the reduce function once per run of equal keys, and renames a temporary file to `mr-out-<reduce>`.

Modules, one per concern of the source:

| file | module | models |
|---|---|---|
| `rpc.dfy` | `Rpc` | task states, tasks, locators, RPC replies |
| `task_table.dfy` | `TaskTable` | the task table as values: lease eligibility, the scan's choice, the handlers' updates, the count the counters track |
| `coordinator.dfy` | `Coordination` | the `Coordinator` class: task tables as arrays, counters as fields, one atomic method per handler |
| `scenarios.dfy` | `Scenarios` | concrete runs of the coordinator |
| `keys.dfy` | `Keys` | key/value pairs, Go's string order, the sort by key, values per key |
| `partition.dfy` | `Partition` | `ihash`, the bucket of a key, the bucketing loop |
| `naming.dfy` | `Naming` | `%d`, intermediate and output file names |
| `grouping.dfy` | `Grouping` | runs of equal keys and the reduce loop over them |
| `stages.dfy` | `Stages` | `MapStage` and `ReduceStage` over an abstract file system |
| `job.dfy` | `Job` | what a reduce task's output means, end to end |
| `worker_loop.dfy` | `WorkerLoop` | the worker's main loop |

Counting tasks correctly needs two guards that this code lacks, and the model follows the code:
- **Idempotent completion reports.** `MapTaskOver` and `ReduceTaskOver` decrement their counter unconditionally. The model proves that the counter stays equal to the number of unfinished tasks exactly when the reported task was not FINISH yet. It exhibits a duplicate report that drives the counter to 0 while a task is still WAITING.
- **A map-completion gate in `AskReduceTask`.** The handler does not look at `MapRemain`. The model shows a reduce task handed out while every map task is unfinished.

Time is an integer number of nanoseconds passed to each handler. The lease test "more than 10.0 seconds" is `now - start > 10_000_000_000`.

## Model

| member | source | states |
|---|---|---|
| `Rpc.TaskState.Code` | 6.824/src/mr/rpc.go:30-34 | the three states are the integers 0, 1, 2, and WAITING is the zero value |
| `Rpc.NoMapTask` | 6.824/src/mr/coordinator.go:38-60 | the map reply without a task: task id -1 and the given "phase over" flag, true when the counter is 0 (lines 38-41) and false when no task is eligible (lines 58-60) |
| `Rpc.NoReduceTask` | 6.824/src/mr/coordinator.go:76-98 | the reduce reply without a task: task id -1, the given "phase over" flag and an empty locator list |
| `TaskTable.FirstEligible` | 6.824/src/mr/coordinator.go:43-57 | the scan picks the lowest index whose task is WAITING or IN_PROGRESS with a lease older than the timeout; -1 exactly when no task is eligible |
| `TaskTable.Eligible` | 6.824/src/mr/coordinator.go:46 | the lease guard: a WAITING task is always eligible, a FINISH task never, an IN_PROGRESS task only once its lease is more than ten seconds old; see `FreshLeaseNotReassigned` and `ExpiredLeaseReassignable` |
| `TaskTable.Leased` | 6.824/src/mr/coordinator.go:47-49 | the leased task becomes IN_PROGRESS for the requester from `now`, and so is not eligible at `now`; every other task is unchanged; see `LeaseKeepsCount` and `LeaseAdvances` |
| `TaskTable.Finished` | 6.824/src/mr/coordinator.go:67 | the reported task becomes FINISH, keeping its worker and start time, and is never eligible again; every other task is unchanged; see `FinishCount` and `FinishAdvances` |
| `TaskTable.NotFinished` | 6.824/src/mr/coordinator.go:19-20 | the number of unfinished tasks, the quantity `MapRemain`/`ReduceRemain` are meant to hold, never exceeds the number of tasks |
| `TaskTable.Machines` | 6.824/src/mr/coordinator.go:88-90 | the locator list has one entry per map task, in task order, each that task's worker |
| `TaskTable.NoneFinishedCount` | 6.824/src/mr/coordinator.go:140-149 | with no task FINISH, the count equals the number of tasks, so the initial counters are exact |
| `TaskTable.NoneLeftIffAllFinished` | 6.824/src/mr/coordinator.go:126-130 | the count is 0 if and only if every task is FINISH |
| `TaskTable.ReplaceCount` | 6.824/src/mr/coordinator.go:47-48 | updating one task changes the count by that task's contribution only |
| `TaskTable.LeaseKeepsCount` | 6.824/src/mr/coordinator.go:46-49 | leasing an eligible task leaves the number of unfinished tasks unchanged |
| `TaskTable.FinishCount` | 6.824/src/mr/coordinator.go:63-70 | a completion report lowers the number of unfinished tasks by one if the task was not FINISH, and leaves it unchanged otherwise |
| `TaskTable.LeaseAdvances` | 6.824/src/mr/coordinator.go:46-49 | a lease never moves a task back in WAITING < IN_PROGRESS < FINISH and touches only the leased index |
| `TaskTable.FinishAdvances` | 6.824/src/mr/coordinator.go:63-70 | a completion report, whatever the task's state (FINISH included), never moves a task back and touches only the reported index |
| `TaskTable.FreshLeaseNotReassigned` | 6.824/src/mr/coordinator.go:44-46 | a task leased at `now` is not picked by any scan up to exactly ten seconds later |
| `TaskTable.ExpiredLeaseReassignable` | 6.824/src/mr/coordinator.go:44-46 | once an IN_PROGRESS lease is older than ten seconds, the scan picks that task or a lower one |
| `TaskTable.DuplicateReportUndercounts` | 6.824/src/mr/coordinator.go:63-70 | two tasks are unfinished before two `Finished` updates of the same task, and one (the WAITING one) after; `Scenarios.DuplicateReport` shows the handler's counter falling to 0 meanwhile |
| `Coordination.LeaseFirst` | 6.824/src/mr/coordinator.go:43-57 | the handler's loop leases exactly the task `FirstEligible` picks, to the requester with start `now`, and changes nothing when none is eligible |
| `Coordination.CollectMachines` | 6.824/src/mr/coordinator.go:88-90 | the appending loop yields every map task's worker locator, in order |
| `Coordination.Coordinator.constructor` | 6.824/src/mr/coordinator.go:135-157 | one WAITING map task per file, `nReduce` WAITING reduce tasks, counters `len(files)` and `nReduce`, both exact |
| `Coordination.Coordinator.AskMapTask` | 6.824/src/mr/coordinator.go:34-61 | phase over when the counter is 0; otherwise the first eligible task is leased and its file, id and `nReduce` returned, or "no task now"; counter exactness is preserved and states only advance |
| `Coordination.Coordinator.MapTaskOver` | 6.824/src/mr/coordinator.go:63-70 | the task becomes FINISH and the counter drops by one; the counter stays exact if and only if the task was not FINISH before |
| `Coordination.Coordinator.AskReduceTask` | 6.824/src/mr/coordinator.go:72-99 | same as AskMapTask on the reduce table, an assignment carrying every map task's locator in order; `MapRemain` plays no part |
| `Coordination.Coordinator.ReduceTaskOver` | 6.824/src/mr/coordinator.go:101-108 | same as MapTaskOver on the reduce table |
| `Coordination.Coordinator.Done` | 6.824/src/mr/coordinator.go:126-130 | true exactly when the reduce counter is 0, which while it is exact means every reduce task is FINISH |
| `Scenarios.TwoByTwoJob` | 6.824/src/mr/coordinator.go:34-130 | two maps and two reduces handed out and reported: `Done` is false before and after the first reduce report and true after the second; reduce replies list the map workers in order |
| `Scenarios.LeaseExpiry` | 6.824/src/mr/coordinator.go:43-56 | a leased task is not reassigned at exactly ten seconds, is reassigned just after, and the renewed lease protects it again |
| `Scenarios.DuplicateReport` | 6.824/src/mr/coordinator.go:63-70 | two reports of map task 0 make the next request hear "map phase over" while map task 1 was never handed out |
| `Scenarios.ReduceBeforeMapsDone` | 6.824/src/mr/coordinator.go:72-99 | a reduce task is handed out while the map task is still unfinished |
| `Scenarios.StaleLocator` | 6.824/src/mr/coordinator.go:81-90 | after a lease moves from /w1 to /w2 and /w1 reports, the reduce reply sends readers to /w2 |
| `Keys.KeyLessIrreflexive` | 6.824/src/mr/worker.go:34 | no key sorts before itself |
| `Keys.KeyLessTransitive` | 6.824/src/mr/worker.go:34 | the key order is transitive |
| `Keys.KeyLessTotal` | 6.824/src/mr/worker.go:34 | any two different keys are ordered one way |
| `Keys.KeyLess` | 6.824/src/mr/worker.go:34 | Go's `<` on keys: a key sorts before only keys whose first character is no smaller; see `KeyLessIsLexicographic`, `KeyLessIrreflexive`, `KeyLessTransitive` and `KeyLessTotal` |
| `Keys.KeyLessIsLexicographic` | 6.824/src/mr/worker.go:34 | the recursive comparison equals the textbook lexicographic order: a proper prefix, or the smaller character at the first difference |
| `Keys.Insert` | 6.824/src/mr/worker.go:117 | inserting into a sorted sequence keeps it sorted and adds exactly the one pair |
| `Keys.SortByKey` | 6.824/src/mr/worker.go:117 | the result is sorted by key and a permutation of the input |
| `Keys.SortKeepsValues` | 6.824/src/mr/worker.go:117 | sorting keeps, for every key, the multiset of its values |
| `Grouping.RunEnd` | 6.824/src/mr/worker.go:125-128 | the inner scan stops at the first pair with a different key: all pairs in between share the run's key |
| `Grouping.RunValues` | 6.824/src/mr/worker.go:129-132 | the values loop collects the run's values in order |
| `Grouping.ReduceRuns` | 6.824/src/mr/worker.go:122-136 | the i/j loop emits one record per maximal run, the run's key with `reducef` of the run's values, in order |
| `Grouping.ReduceAll` | 6.824/src/mr/worker.go:133-134 | one record per group, keyed by the group's key |
| `Grouping.UngroupGroups` | 6.824/src/mr/worker.go:124-136 | expanding the runs gives back the sorted sequence: nothing lost, nothing reordered |
| `Grouping.GroupsAreMaximalRuns` | 6.824/src/mr/worker.go:125-128 | every run is non-empty and neighbouring runs have different keys |
| `Grouping.SortedGroupsIncrease` | 6.824/src/mr/worker.go:117-136 | on sorted input the runs' keys strictly increase, so no key is reduced twice |
| `Grouping.SortedGroupHoldsAllValues` | 6.824/src/mr/worker.go:117-136 | on sorted input a run holds every value of its key |
| `Grouping.EveryKeyHasGroup` | 6.824/src/mr/worker.go:124-136 | every key of the input is the key of some run |
| `Grouping.EveryGroupHasKey` | 6.824/src/mr/worker.go:124-136 | every run's key occurs in the input |
| `Grouping.ReducedOutput` | 6.824/src/mr/worker.go:122-136 | for sorted input the records have strictly increasing keys, each with `reducef` of all its key's values |
| `Partition.IHash` | 6.824/src/mr/worker.go:22-26 | the hash is the FNV-1a sum with bit 31 cleared: below 2^31, equal to the sum or the sum minus 2^31 |
| `Partition.BucketOf` | 6.824/src/mr/worker.go:65 | a key's bucket lies in [0, nReduce) |
| `Partition.Bucket` | 6.824/src/mr/worker.go:63-67 | bucket b holds only pairs whose key hashes to b, and no more pairs than were emitted; see `BucketCount` and `BucketKeepsKey` |
| `Partition.PartitionPairs` | 6.824/src/mr/worker.go:63-67 | the loop yields `nReduce` buckets, bucket b holding the pairs whose key hashes to b, in emission order |
| `Partition.BucketCount` | 6.824/src/mr/worker.go:63-67 | each emitted pair is in its own bucket as often as it was emitted and in no other bucket |
| `Partition.BucketKeepsKey` | 6.824/src/mr/worker.go:63-67 | all values of one key land in that key's bucket, in order, and in no other |
| `Naming.Decimal` | 6.824/src/mr/worker.go:69 | `%d` of a non-negative number is a non-empty digit string without a leading zero, one digit exactly below 10 |
| `Naming.DecimalRoundTrip` | 6.824/src/mr/worker.go:69 | reading the digits back gives the number |
| `Naming.WriteName` | 6.824/src/mr/worker.go:69 | "mr-" followed by digits only: the map id's and then the bucket's, with no separator; see `WriteNameInjective`, `WriteNameCollides` and `ReadFindsWritten` |
| `Naming.ReadName` | 6.824/src/mr/worker.go:103 | the locator's directory, then "/mr-", then digits only; see `ReadFindsWritten` |
| `Naming.OutputName` | 6.824/src/mr/worker.go:137 | the working directory, then "/mr-out-", then the digits of the task id; see `OutputNotIntermediate` |
| `Naming.ReadFindsWritten` | 6.824/src/mr/worker.go:103 | the name a reduce task opens for map task i is the map worker's directory followed by the name that map task wrote |
| `Naming.WriteNameCollides` | 6.824/src/mr/worker.go:69 | map task 1's bucket 12 and map task 11's bucket 2 are both written to "mr-112" |
| `Naming.WriteNameInjective` | 6.824/src/mr/worker.go:69 | when the two map ids have equally many digits (for instance all below 10), equal names mean equal (map, bucket) pairs, and conversely |
| `Naming.WriteNameDistinctBuckets` | 6.824/src/mr/worker.go:68-70 | one map task never writes two buckets under one name |
| `Naming.OutputNotIntermediate` | 6.824/src/mr/worker.go:137 | an output file name never equals an intermediate file name in the same directory |
| `Stages.MapFilesHoldBuckets` | 6.824/src/mr/worker.go:68-80 | every bucket whose file could be created is written, under its own name, with exactly its pairs |
| `Stages.MapFilesOnlyBuckets` | 6.824/src/mr/worker.go:68-80 | a map stage writes no other files |
| `Stages.MapFiles` | 6.824/src/mr/worker.go:68-80 | at most one file per bucket, and exactly one per bucket when every file could be created; see `MapFilesHoldBuckets` and `MapFilesOnlyBuckets` |
| `Stages.MapStage` | 6.824/src/mr/worker.go:36-82 | (-1, false) without a working directory or a reply; (-1, over) for "no task"; a fatal stop when the input is unreadable; the task id exactly when every non-empty bucket could be written, with all buckets' files; otherwise -1 and the files of the buckets before the first unwritable one |
| `Stages.ReduceStage` | 6.824/src/mr/worker.go:84-144 | the task id exactly when every map task's file is found, the temporary file is created and the rename succeeds, publishing "mr-out-<task>" with the reduced records of all gathered pairs; otherwise -1 and nothing published |
| `Stages.Gathered` | 6.824/src/mr/worker.go:102-116 | every gathered pair comes from some map task's file for this reduce task; see `Job.GatheredValues` |
| `Stages.Reduced` | 6.824/src/mr/worker.go:117-136 | the records' keys strictly increase, and each record is `reducef` of all of its key's values in the sorted pairs; see `Job.ReducedMeaning` |
| `Job.ReducedHasKey` | 6.824/src/mr/worker.go:117-136 | the output has a record for a key if and only if the gathered pairs hold a value for it |
| `Job.ReducedMeaning` | 6.824/src/mr/worker.go:117-136 | output keys strictly increase, each key gathered appears exactly once, and each record reduces a reordering of all its key's gathered values |
| `Job.GatheredValues` | 6.824/src/mr/worker.go:102-116 | with every map output in place, reduce task r gathers for a key all values every map task emitted, in map-task order, if the key hashes to r, and none otherwise |
| `Job.ReduceTaskCoversItsKeys` | 6.824/src/mr/worker.go:98-136 | end to end: reduce task r outputs a key if and only if it hashes to r and some map task emitted it, reducing a reordering of all its emitted values |
| `Job.MapFilesWhereReduceLooks` | 6.824/src/mr/worker.go:68-80 | after a successful map stage each bucket's file is where a reduce task looks through that worker's locator, unless the bucket was empty and its file could not be created |
| `WorkerLoop.StepEvents` | 6.824/src/mr/worker.go:157-175 | one iteration attempts one stage of the current phase; a report follows exactly when the stage returned a task id, and it reports that id in the same phase |
| `WorkerLoop.StepAttempts` | 6.824/src/mr/worker.go:156-176 | each iteration consumes exactly one stage result |
| `WorkerLoop.StepPaired` | 6.824/src/mr/worker.go:158-171 | reports stay paired with the attempts they report |
| `WorkerLoop.StepOrdered` | 6.824/src/mr/worker.go:157-166 | no map event follows a reduce event |
| `WorkerLoop.StepSaw` | 6.824/src/mr/worker.go:163-174 | a phase ends exactly at a result that says it is over without a task |
| `WorkerLoop.StepReduceAfter` | 6.824/src/mr/worker.go:157-167 | reduce stages run only after the map phase was reported over |
| `WorkerLoop.StepInPhase` | 6.824/src/mr/worker.go:157-166 | an iteration's attempt is a reduce stage exactly when some earlier map attempt was told the map phase is over |
| `WorkerLoop.StepStops` | 6.824/src/mr/worker.go:156-174 | while the reduce phase has not been reported over, an iteration leaves a "reduce phase over" attempt only as the last event |
| `WorkerLoop.Worker` | 6.824/src/mr/worker.go:147-177 | the attempts are exactly the stage results consumed, in order; every completed task is reported right after its attempt; all map events precede all reduce events; reduce stages start only after "map phase over"; each attempt is a map stage before the first "map phase over" and a reduce stage from then on; nothing follows a "reduce phase over" attempt; the loop stops early only when both phases are over |

## Left out

- The RPC server, the socket, `call` and the `Example` handler are not modelled. A reply is a parameter of a stage, with `None` standing for a failed call.
- The mutex is not modelled. Every handler runs under it, so each handler is one atomic method.
- `time.Now()` is read before the lock is taken; the model takes the time as a parameter of each handler, so every interleaving of clock readings is covered. `Duration.Seconds()` is a float; the model compares exact nanoseconds.
- `os.Getwd` failing is a `None` working directory. In `MakeCoordinator` it would be fatal, and the constructor takes the directory instead. The constructor's per-file `log.Fatal` cannot fire, because `err` is nil there.
- File contents are the decoded key/value pairs. JSON encoding is not modelled. The decoder stops silently at the first undecodable record; that truncation is not modelled.
- The input file's open and read failures are one `MapFatal` outcome.
- `Stages.MapStage`: an `os.Create` error is the parameter `createFails`. Encoding errors other than a failed create, and the half-written or empty file a failing bucket leaves behind, are not modelled.
- `Stages.ReduceStage`: the output records are key/value pairs, not `"%v %v\n"` lines. Ignored `Fprintf` errors are not modelled. A temporary file left behind when the rename fails is not recorded.
- `Keys.SortByKey`: a stable insertion sort stands in for Go's unstable `sort.Sort`. What is proved about the reduce side relies only on sortedness and permutation, and states the values a key is reduced with as a multiset.
- `Partition.IHash`: FNV-1a is a parameter. Masking with `0x7fffffff` is written as the remainder modulo 2^31, which equals it for 32-bit values.
- `Stages.MapStage` requires a positive `nReduce`. The source panics there in `%` only when a pair is emitted, and in `make` when the count is negative. The constructor accepts 0: the job then has no reduce tasks and `Done` holds at once.
- `Coordination.Coordinator.MapTaskOver`: a task id out of range is excluded by `requires`. The source indexes the slice and panics. `ReduceTaskOver` is treated the same way.
- The worker's report retry (`for !call(...) {}`) is one report event. The loop's unbounded run is cut to a finite sequence of stage results.
- `mapf` and `reducef` are uninterpreted function parameters.
