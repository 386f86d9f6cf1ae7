# Verified model of the dtask-scheduler engine

dtask-scheduler hands tasks to workers. Workers report load and tags by
heartbeat; a scheduler node keeps a table of them with an inverted tag index,
answers schedule requests from it, lets requests wait for capacity, marks silent
workers by a timeout scan, copies its table to a standby, and the standby takes
over when the master stops answering. This project models that engine in Dafny
and proves what it promises.

`dafny verify dfyconfig.toml` checks everything.

## Files

- `Types.dfy`: heartbeats, worker records, requests, responses.
- `WorkerStore.dfy`: the table with its index as a value, the effect of every
  operation on it, index exactness, snapshots and the replication round trip.
- `TagIndexes.dfy`, `WaitQueue.dfy`, `State.dfy`: the mutable classes, proved
  against those effects.
- `Selection.dfy`: filtering, sorting, the tied prefix, the pick.
- `Protocol.dfy`: request threads, writers, scans and snapshot loads interleaved
  at critical-section granularity. A channel is the number of broadcasts before
  it was armed.
- `Scheduling.dfy`: `Schedule` with its retry loop on the heap. Wherever other
  goroutines may run it calls `Preempt`, whose contract allows any legal burst of
  their actions. The method returns a ghost run of the protocol that it has
  followed, so the protocol theorems apply to it.
- `Overcommit.dfy`, `SequentialRuns.dfy`, `StatusScan.dfy`: overcommit bound,
  drain and balance, status labels.
- `Replication.dfy`, `Failover.dfy`, `StandbyNode.dfy`: the two-node part.

## Reading notes

- `Coherent` holds in every reachable state. `Exact` (the index is the inverse
  of the table) can be lost only by a snapshot that repeats a worker with
  different tags; `LoadExactIff` gives the exact condition and
  `DuplicateIdsCanBeStale` an input. Wait-queue and overcommit theorems need
  only `Coherent`, so they cover such snapshots too.
- A snapshot is a sequence of optional records, because a JSON null decodes to a
  nil record. `LoadSnapshot` panics at the first one, leaving what it has loaded
  and broadcasting nothing. That defeats the wait queue exactly when a worker
  loaded before the nil record is free: `WakeupsAreSafeIff` proves both
  directions, `UnsafeSnapshot` gives such an input, and `NoLostWakeup` takes
  that condition on each snapshot.
- The index is carried in the state, so "eligible" means what the code's indexed
  query sees; `NoLostWakeup`, `QueriesOverRuns` and `AnswerIsSoundAndComplete`
  restate it for a plain scan of the table.
- `sort.Slice` and `rand.Intn` are used through contracts only (`SortSlice`: some
  sorted permutation; `RandIntn`: some index in range, the pick being a parameter
  of `SelectBestWorker`). Go's map iteration order is an arbitrary choice.
- The ghost run `call` returned by `Schedule` is of the form `CallBounds`,
  `AnswerOverCall`, `NoLostWakeup` and `OvercommitBound` quantify over.
- `wakeups` in `Schedule` says how often the select may take its wakeup branch
  before another branch ends the wait, `canceled` which one does; the theorems
  hold for every value. With wakeups left a call gives up only on an open channel,
  and then, by `UnwokenMeansNobody`, without having missed anybody.
- Where code and documentation differ, the code is followed: suspicious workers
  are excluded from scheduling like offline ones (pkg/scheduler/scheduler.go:131,
  against its comment and docs/api.md), which matters exactly as
  `DocumentedFilterIff` says (`SuspiciousIsDropped` is an input); a load ratio
  leaves the documented range (pkg/types/types.go:73) exactly as
  `RatioInRangeIff` says, which a valid heartbeat can bring about
  (`ValidReportsCanBeOutOfRange`); a master does not refuse a snapshot whose sync
  passed the gate before the promotion (cmd/scheduler/main.go:116-118), see
  `LateLoadIff`; a snapshot load broadcasts whether or not it frees capacity
  (pkg/scheduler/state.go:100-101); a failover threshold below 1 acts like 1
  (pkg/ha/ha.go:257-258).

## Model

| member | source | states |
|---|---|---|
| TagIndexes.SameTags | pkg/scheduler/tagindex.go:104-119 | the two counting loops decide multiset equality, in both directions |
| TagIndexes.NoDeficit | pkg/scheduler/tagindex.go:104-119 | the counting argument: equal lengths and no tag short make two tag lists permutations of each other |
| TagIndexes.TagIndex.Add | pkg/scheduler/tagindex.go:20-29 | the worker joins every given tag's set, missing entries are created, all other entries stay |
| TagIndexes.TagIndex.Remove | pkg/scheduler/tagindex.go:33-44 | the worker leaves every given tag's set, emptied entries disappear, all other entries stay |
| TagIndexes.TagIndex.Update | pkg/scheduler/tagindex.go:48-54 | nothing changes for permuted tags, else the old tags are removed and the new ones added |
| WorkerStore.SkipIsSound | pkg/scheduler/tagindex.go:46-54 | for permuted tags the skipped remove and add would have rebuilt the very same index |
| WorkerStore.UpdatedContents | pkg/scheduler/tagindex.go:46-54 | a retag moves one worker from its old tags to its new ones, touches nobody else and leaves no empty entry |
| TagIndexes.TagIndex.HasAll | pkg/scheduler/tagindex.go:87-98 | true iff the worker is in every required tag's set |
| TagIndexes.TagIndex.Smallest | pkg/scheduler/tagindex.go:64-70 | the intersection starts from a required tag with the fewest workers, unknown tags counting zero |
| TagIndexes.TagIndex.Candidates | pkg/scheduler/tagindex.go:59-84 | exactly the workers under all required tags, without duplicates; nothing for an empty request |
| State.StateManager.UpdateFromHeartbeat | pkg/scheduler/state.go:54-83 | the worker's record holds exactly what the heartbeat reports, its time and Online; every other record stays; the index follows; one broadcast iff it reports free capacity |
| State.StateManager.LoadSnapshot | pkg/scheduler/state.go:88-102 | table and index become those of the records up to the first nil one, last duplicate winning; one broadcast if there is no nil record, else a panic and none |
| State.StateManager.CapacityChanged | pkg/scheduler/state.go:106-108 | the current, still open channel |
| State.StateManager.ListWorkers | pkg/scheduler/state.go:126-137 | every record exactly once, in any order |
| State.StateManager.CandidatesByTags | pkg/scheduler/state.go:143-165 | the records of exactly the indexed matches, once each; all workers for an empty request |
| State.StateManager.CheckTimeouts | pkg/scheduler/state.go:169-183 | every worker stays, and only labels change: Offline past the offline threshold, else Suspicious past the other, else as before |
| State.StateManager.AllocateTask | pkg/scheduler/state.go:203-219 | succeeds iff the worker is known with a free slot and then moves exactly one slot; otherwise changes nothing |
| WorkerStore.BeatCoherent | pkg/scheduler/state.go:54-83 | heartbeats and retags keep the index complete, and exact if it was |
| WorkerStore.AllocateCoherent | pkg/scheduler/state.go:203-219 | allocations keep the index and the answer of every tag query |
| WorkerStore.TimeoutsCoherent | pkg/scheduler/state.go:169-183 | scans keep the index complete, and exact if it was |
| WorkerStore.LoadContents | pkg/scheduler/state.go:88-98 | a loaded table holds each worker's last record, the index the union of the tags of all its records |
| WorkerStore.LoadExactIff | pkg/scheduler/state.go:88-98 | the rebuilt index is exact iff no duplicate record carries a tag the kept record lacks |
| WorkerStore.DistinctIdsAreNotStale | pkg/scheduler/state.go:88-98 | snapshots with distinct worker IDs meet that condition |
| WorkerStore.DuplicateIdsCanBeStale | pkg/scheduler/state.go:88-98 | a two-record snapshot after which a worker is found under a tag it does not carry |
| WorkerStore.IndexOverRuns | pkg/scheduler/tagindex.go:3-9 | over every run of heartbeats, allocations, scans and loads the index misses nobody and has no empty entry; it is exact unless stale duplicates are loaded |
| WorkerStore.TableShowsLastNews | pkg/scheduler/state.go:54-102 | after every run from an empty node a worker is known iff there was news of it, and its record shows the address, tags, limit, metrics and time of the last news, a heartbeat or a snapshot; allocations and scans never touch them |
| WorkerStore.QueriesAgreeIffExact | pkg/scheduler/state.go:143-165 | indexed queries never miss a match, and all of them equal the plain scan iff the index is exact |
| WorkerStore.QueriesOverRuns | pkg/scheduler/state.go:143-165 | from an empty node, after any run, the indexed query returns what a full scan returns |
| WorkerStore.RoundTrip | pkg/ha/ha.go:124-125 | loading any listing of a table rebuilds the table, and the same index iff the listed node's index was exact |
| WorkerStore.ReplicaAgreesIff | pkg/ha/ha.go:124-125 | a replica answers every tag query like the master it was copied from, after every common continuation, iff that master's index was exact |
| WorkerStore.ReplicaBisimilar | pkg/ha/ha.go:124-125 | a replica of a master that has loaded no snapshot with stale duplicates stays the same store, and so answers every tag query alike, after every common continuation |
| Replication.ReplicateOnce | pkg/ha/ha.go:124-150 | one delivered push makes the standby's table the master's, with an exact index, and leaves the master alone |
| WaitQueue.CapacityNotifier.WaitChan | pkg/scheduler/waitqueue.go:24-28 | the channel of the current generation, still open |
| WaitQueue.CapacityNotifier.Broadcast | pkg/scheduler/waitqueue.go:31-36 | closes the current channel, arms a fresh one, and all earlier channels stay closed |
| WorkerStore.RatioIsShare | pkg/types/types.go:73-79 | the load ratio times the limit is the task count; without a limit it is 1 |
| WorkerStore.RatioInRangeIff | pkg/types/types.go:73-79 | a load ratio lies between 0 and 1 iff the limit is 0 or the task count lies between 0 and the limit |
| WorkerStore.ValidatedIff | pkg/types/types.go:36-48 | a heartbeat is valid iff its record names a worker, has a positive limit and shows no more free slots than that |
| WorkerStore.ValidReportsCanBeOutOfRange | pkg/types/types.go:36-48 | a validated heartbeat gives a ratio in range iff it reports no more tasks than its limit; one that does not |
| Selection.FilterAvailable | pkg/scheduler/scheduler.go:128-137 | keeps, in order, exactly the workers that are Online with a free slot |
| Selection.KeptInOrder | pkg/scheduler/scheduler.go:128-137 | filtering a concatenation is concatenating the filtered parts: it judges each worker alone and keeps the order |
| Selection.DocumentedFilterIff | pkg/scheduler/scheduler.go:127-137 | the filter keeps every worker the documentation says it keeps iff no worker with a free slot is Suspicious, and never keeps one the documentation excludes |
| Selection.SuspiciousIsDropped | pkg/scheduler/scheduler.go:127-137 | the input: one suspicious worker with a free slot is filtered out |
| Selection.TiedIsExact | pkg/scheduler/scheduler.go:156-162 | in any sorted order the tied prefix is exactly the workers within the spread of the least loaded |
| Selection.SelectBestWorker | pkg/scheduler/scheduler.go:142-165 | nothing for an empty list, else the worker at the picked index among those within 1/20 of the least ratio, in some sorted order; the input array is not modified |
| Selection.SelectableExactly | pkg/scheduler/scheduler.go:142-165 | over all sorts and picks the reachable results are exactly the workers whose ratio is within 1/20 of every other |
| Selection.SelectionIsOrderIndependent | pkg/scheduler/scheduler.go:128-165 | filter and select reach exactly the eligible workers within 1/20 of the eligible minimum, from every map iteration order |
| Selection.ChoicesExist | pkg/scheduler/scheduler.go:103-112 | selection never fails on a nonempty list |
| Scheduling.Scheduler.FindWorker | pkg/scheduler/scheduler.go:96-112 | nobody iff no candidate is eligible, else a record that may be chosen |
| Scheduling.Scheduler.ScheduleOnce | pkg/scheduler/scheduler.go:96-125 | the attempt is a protocol run in which others act, this thread reads, and (if it chose) others act and it commits; its answer is an error iff nobody was eligible in the very table it read, else a choice of that table with its address |
| Scheduling.AnswerIsSoundAndComplete | pkg/scheduler/scheduler.go:96-125 | such an answer in terms of a plain scan of the table: an error iff nobody is Online, free and carries all tags, else such a worker, with its address, whose ratio is within 1/20 of every other such |
| Scheduling.Scheduler.TakeSlot | pkg/scheduler/scheduler.go:114-124 | the worker is returned whether or not its allocation still succeeds |
| Scheduling.Scheduler.Schedule | pkg/scheduler/scheduler.go:53-93 | every call follows a protocol run from its submission to exactly its response, arms its timer with the clamped wait in nanoseconds, is refused as invalid iff the task ID is empty, and times out or is canceled only after all its wakeups or on a channel still open |
| Scheduling.Scheduler.WaitForCapacity | pkg/scheduler/scheduler.go:74-92 | the retry loop ends with a worker, or by the deadline or cancellation after all its wakeups or on a channel still open, along a protocol run |
| Scheduling.Scheduler.FetchChannelFirst | pkg/scheduler/scheduler.go:75-77 | the channel waited on is the one current before the retry reads the table |
| Scheduling.Scheduler.Select | pkg/scheduler/scheduler.go:84-91 | the call retries iff it may and its channel was closed meanwhile; if it may it gives up only on an open channel |
| Scheduling.Scheduler.Heartbeat | pkg/scheduler/state.go:54-83 | a heartbeat on the heap is the protocol's write, and its broadcast iff capacity was reported |
| Scheduling.Scheduler.Sync | pkg/scheduler/state.go:88-102 | a snapshot load on the heap is the protocol's write, and its broadcast unless it panicked |
| Scheduling.Scheduler.Scan | pkg/scheduler/state.go:169-183 | a timeout scan on the heap is the protocol's scan |
| Scheduling.TimerIsExact | pkg/scheduler/scheduler.go:63-71 | the clamped wait in milliseconds times 1,000,000 is exact in 64-bit nanoseconds for every positive wait |
| Protocol.NextInv | pkg/scheduler/scheduler.go:74-92 | every step of every thread and writer keeps the index complete and the counts of every call within bounds |
| Protocol.NextLosesNobody | pkg/scheduler/scheduler.go:74-92 | no step, a snapshot with a nil record and a free worker excepted, leaves a parked request waiting in vain |
| Protocol.NobodyFreed | pkg/scheduler/state.go:79-82 | no step that leaves no broadcast due makes anyone eligible |
| Protocol.NoLostWakeup | pkg/scheduler/scheduler.go:74-92 | in every interleaving with safe snapshots, a request parked on an unclosed channel with no broadcast due has no eligible worker, by index and by scan |
| Protocol.UnwokenMeansNobody | pkg/scheduler/scheduler.go:74-92 | in every interleaving with safe snapshots, a call that gives up on an open channel with no broadcast due leaves no worker that is Online, free and carries its tags |
| Protocol.WakeupsAreSafeIff | pkg/scheduler/state.go:88-102 | a snapshot can lose a wakeup in some run iff it has a nil record after which a loaded worker is free |
| Protocol.UnsafeSnapshot | pkg/scheduler/state.go:88-102 | the input: a free worker followed by a nil record is unsafe |
| Protocol.BroadcastWakesAll | pkg/scheduler/waitqueue.go:30-36 | one broadcast enables every parked request to wake |
| Protocol.CallBounds | pkg/scheduler/scheduler.go:53-93 | one call scans at most 2 + (broadcasts during it) times, takes at most one slot, and none if it is refused |
| Protocol.AnswerOverCall | pkg/scheduler/scheduler.go:53-93 | an assignment was a choice, under that address, in a table the call read; a refusal, timeouts and cancellations included, follows a last read with nobody eligible |
| Protocol.AddressIsReported | pkg/scheduler/scheduler.go:121-124 | in every interleaving the address a call answers with is the one in that worker's last heartbeat before the call's read, or in a snapshot loaded since |
| Protocol.TableIsRun | pkg/scheduler/state.go:54-102 | the table after any interleaving is the run of its heartbeats, loads, scans and allocations in order, so the run theorems of the table apply |
| Overcommit.GrantBound | pkg/scheduler/state.go:203-219 | without a reset of a worker, its successful allocations use up exactly its capacity |
| Overcommit.MissBound | pkg/scheduler/scheduler.go:114-119 | without a reset, responses naming it without a slot are bounded by those in flight, or N - 1 while it has capacity |
| Overcommit.OvercommitBound | pkg/scheduler/scheduler.go:96-125 | between two resets: at most max(0, Available) slots given and at most N, or N - 1, responses without a slot |
| Overcommit.OvercommitBoundIsMet | pkg/scheduler/scheduler.go:96-125 | from any state where one worker is the only choice and has free slots, for every N, a run without a reset of it gives out all its slots and has N - 1 responses without one |
| Overcommit.OvercommitBoundIsMetWhenFull | pkg/scheduler/scheduler.go:96-125 | from any such state, for every N, a reset without capacity can be followed, before any further reset, by N responses without a slot |
| Overcommit.OvercommitIsReached | pkg/scheduler/scheduler.go:96-125 | from an empty node, for every N and every positive capacity: a heartbeat with that capacity, then a run without a reset with all slots given and N - 1 responses without one |
| Overcommit.OvercommitIsReachedWhenFull | pkg/scheduler/scheduler.go:96-125 | from an empty node, for every N: a run to a reset without capacity, then N responses without a slot before any other reset |
| SequentialRuns.SuccessTakesOne | pkg/scheduler/scheduler.go:96-125 | alone, a success takes exactly one slot of the matching pool and its allocation does not fail |
| SequentialRuns.RunsAreCalls | pkg/scheduler/scheduler.go:53-61 | the sequences of attempts of `ExactDrain` and `BalancedOverRuns` are exactly the protocol runs of one thread making fail-fast calls alone, with the same end state |
| SequentialRuns.ExactDrain | pkg/scheduler/scheduler.go:96-137 | k attempts succeed exactly min(k, A) times and leave A minus the successes |
| SequentialRuns.StaysBalanced | pkg/scheduler/scheduler.go:139-165 | one schedule keeps every matching worker within 1/20 + 1/MaxTasks of the minimum |
| SequentialRuns.BalancedOverRuns | pkg/scheduler/scheduler.go:128-165 | so does any sequence of schedules, also after workers fill up |
| StatusScan.ScanClassifies | pkg/scheduler/state.go:169-183 | on every node, whatever snapshots it has loaded, right after a scan each label classifies the age of a heartbeat of that worker in the run, which is the last one there if the last news there was a heartbeat |
| StatusScan.RecordsGoBack | pkg/scheduler/state.go:54-102 | every record on every node, in whatever snapshots it travelled, shows what one heartbeat of that worker in the run reported, and when |
| StatusScan.StatusOnlyWorsensIff | pkg/scheduler/state.go:169-200 | a worker's label at a node never improves iff no heartbeat finds it worse than Online and no loaded snapshot omits it or labels it better |
| StatusScan.StatusOnlyWorsensInRuns | pkg/scheduler/state.go:169-200 | the same after every run from the start; so between its heartbeats, without loads, a status only moves from Online to Suspicious to Offline |
| StatusScan.OnlineIsFresh | pkg/scheduler/state.go:169-200 | a worker labelled Online goes back to a heartbeat that was no older than either threshold at every scan of its table, so now at most a threshold plus the time since the last scan |
| Replication.StandbyIsPastMaster | pkg/ha/ha.go:124-150 | however late, reordered or lost the syncs, the standby's record of a worker is one the master had at a definite earlier point |
| Replication.MasterMovesByGrants | pkg/scheduler/state.go:203-219 | between heartbeats the master's record moves by its grants alone, within the capacity at the start |
| Replication.LagIsUnseen | pkg/ha/ha.go:124-150 | where that point is not before the worker's last heartbeat, the two nodes' counts differ exactly by the master's allocations since it |
| Replication.BasisAtOnce | pkg/ha/ha.go:124-150 | in every run where each sync arrives at once and each heartbeat reaches both nodes, that point is the later of the last sync and the worker's last heartbeat |
| Replication.LagAtOnce | pkg/ha/ha.go:124-150 | in every such run the two nodes' counts differ exactly by the master's allocations since the later of the last sync and the worker's last heartbeat |
| Replication.FailoverOvercommit | pkg/ha/ha.go:243-265 | over a failover both nodes together give out at most the slots the worker last reported free, plus those the standby shows, plus those shown by each snapshot loaded late; instead of the standby's slots only the lag if its record is not older than that report |
| Replication.StepConserved | pkg/scheduler/state.go:69-98 | every operation on a node and every snapshot taken or delivered keeps conservation |
| Replication.ConservedOverRuns | pkg/scheduler/state.go:203-219 | on all nodes and in all snapshots in transit Available = MaxTasks - CurrentTasks, CurrentTasks = last report + allocations since, at most max(MaxTasks, last report), all within int64 |
| Failover.FailoverMonitor.Start | pkg/ha/ha.go:243-265 | promotes at index i iff i is the first end of a run of max(1, threshold) failures before any cancellation, exactly once |
| Failover.FailoverMonitor.Tick | pkg/ha/ha.go:254-262 | one tick resets or raises the failure count and promotes iff a failure brings it to the threshold |
| StandbyNode.StandbyNode.MonitorTick | cmd/scheduler/main.go:149-154 | a tick of the running monitor is one poll of the life machine, and leaves the table alone |
| StandbyNode.StandbyNode.SyncRequest | cmd/scheduler/main.go:63 | a sync is admitted iff the node is standby, as the life machine allows, and loads nothing yet |
| StandbyNode.StandbyNode.RunSync | pkg/ha/ha.go:183-204 | an admitted sync replaces the table by its snapshot up to a nil record, whatever the role has become; one without a decodable snapshot is dropped and leaves the table alone |
| StandbyNode.StandbyNode.GateSchedule | cmd/scheduler/main.go:61 | a schedule request is admitted iff the node is master, as the life machine allows |
| Failover.RoleFollowsPolls | pkg/ha/ha.go:243-265 | over a standby's life its role is master iff the polls seen end in a full failure run |
| Failover.MasterForever | cmd/scheduler/main.go:150-153 | the role history is standby then master, with no way back |
| Failover.SchedulesFollowFailover | cmd/scheduler/main.go:116-131 | a started-as-standby node admits a schedule only after the monitor's promotion |
| Failover.GatesFollowPolls | cmd/scheduler/main.go:116-131 | a schedule request is admitted iff a full failure run has been seen by then, a sync iff none has; so after the promotion no schedule request is rejected |
| Failover.LoadsComeFromStandby | cmd/scheduler/main.go:63 | every snapshot loaded comes from a sync admitted while the node was a standby, and no admission is loaded twice |
| Failover.OnlyPending | cmd/scheduler/main.go:116-131 | from the promotion on only the syncs pending then can be loaded |
| Failover.LateLoadIff | cmd/scheduler/main.go:116-131 | a master can load no snapshot ever again iff no sync is pending, that is admitted and neither loaded nor dropped |
| Failover.LateLoadIsPossible | cmd/scheduler/main.go:119-131 | a life in which a sync admitted before the promotion is loaded after schedules have been admitted |

## Left out

- HTTP handlers, JSON, status codes, signals, flags and server wiring: library behaviour; JSON is taken as a lossless copy; a panicking request ends without further effect.
- pkg/client, pkg/worker, pkg/middleware, pkg/observability: plumbing and counters; a worker's heartbeat is an input.
- Float rounding: load ratios and the 0.05 threshold are exact rationals, so a pair of workers exactly at the threshold may be treated differently by float64.
- Pointers inside the table: records are values in a map field; every record the source hands out is a copy, so no alias of a table entry escapes.
- Real clocks, tickers and goroutine fairness: instants are parameters, scans happen at any time, interleaving is arbitrary; the status theorems are about nodes on one clock.
- Overflow for unvalidated input: heartbeats that skip validation, or snapshots made elsewhere, may hold counts whose difference leaves int64; `Replication.ConservedOverRuns` covers validated ones.
- Config defaults and validation: thresholds are taken as positive where a theorem needs it, and their order is not assumed.
- A standby without a peer URL, which has no monitor and never promotes: the role theorems are about a node with one.
- RunTimeoutChecker and Replicator.Start: tick loops around one call.
- Replication.LagIsUnseen: a heartbeat that reaches only the standby is not an operation of `PairOp`; where the standby's record is older than the worker's last heartbeat, `Replication.StandbyIsPastMaster` says which past record it is, and no number of allocations separates the two.
- Statistical fairness of the random pick.
