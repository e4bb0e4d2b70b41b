# go-jobs: verified models of its in-memory machinery

go-jobs is a distributed job scheduler written in Go. This project models the parts of it that keep state in
memory and have a simple specification which fast or concurrent code must meet, and proves that they meet it.

| files | component |
|---|---|
| WheelPlan, WheelRuns, WheelTiming, WheelClock, WheelCoupling, TimeWheel | the hierarchical timing wheel |
| ContainerHeap, DueQueue, JobRegistry, JobStore, WriteBehind, FlushProgress, RemovedRows, StepOrder | the job store: Go's container/heap, the heap with back-pointers, the table, the write-behind loop |
| RunProtocol, RunOutcomes, RunLimits, Idempotency, RunningJobs | the executor's run and drain protocol, the idempotency table, the running set and the runner |
| LogBuffer, LogFates, LogWriter | the log write buffer |
| TokenBucket, FixedWindow, Limiters | rate limits, quotas and their registry |
| Routers, RedisLock | three routers; the Redis lock with handleTask as its client |
| Histogram, IdList | Prometheus histograms; comma-separated ID lists |
| Basics | an Option type and two stock lemmas |

How the pieces fit:

- **The wheel** is described twice. WheelPlan is flat: each live task carries the number of the tick at which its
  slot will be drained. WheelRuns proves what every run of that agenda keeps, and WheelTiming when a task fires, in
  closed form; WheelClock turns the wheel's time into the wall time of its ticks. TimeWheel is the real thing, with
  cursors, slot lists, an overflow heap and an index, and every method is proved to do what the agenda does.
- **The job store** is a class over entries that know their heap position; each method is tied to an operation on
  a plain registry. WriteBehind runs those same operations interleaved with draining and saving, one step per access
  to an entry's flag or job.
- **The executor** is a state machine with one step per lock region or atomic access, any number of Run and Stop
  calls, kills and garbage collections. RunOutcomes proves what its records say about their handlers, RunLimits exactly
  when what it does not promise fails. The classes perform those steps.
- **The log buffer** is a state machine with one step per channel operation, bulk insert and publication; LogWriter
  is the flusher's loops over the callers' records.
- Everything nondeterministic (which request comes next, clocks, answers of the database, timeouts) is an event or
  a parameter of the model.

Where the code and its documentation disagree, the model follows the code:

- go-jobs/internal/scheduler/scheduler.go:12-13 says callbacks fire at the exact moment. A slot is chosen from the delay
  alone, ignoring how far the lower cursors have turned. With exact ticks a task fires at that moment only under the condition
  OnTime of OnTimeOrLate. Otherwise it is late: by up to one slot width of its first level within the wheel's span, by
  up to one of level 2 (16.384 s) if it came from the overflow heap, and by exactly that under the condition Latest. A
  whole-millisecond delay below 256 ms is always 1 ms late.
- go-jobs/pkg/timewheel/timewheel.go:6 says the wheel spans about 11.6 days; maxWheelSpan is 64 slots of 1048.576 s, about
  18.6 hours.
- cascadeOverflow pops a task that is due exactly at the horizon, but place sends it back to the overflow heap whose
  mutex cascadeOverflow holds: the wheel goroutine stops there for good. AddSticksExactly says for which tasks.
- Runner.Stop is said to return only after every goroutine has ended; the result of its second waitDone is not looked
  at. The guarantee is stated for a waitDone that returned true, and StopOutlastsExactly says when it holds without one.
- LoadAll says existing entries are replaced; with an existing ID it counts twice, and leaves an orphan in the heap
  if that job was queued.
- UpdateStatus with a status other than the two known ones leaves a queued job in the heap, to be dropped by the first
  PopDue or PeekDue whose deadline has come to its time and that gets to it before the limit is met.
- RunningJobSet.remove deletes the map entry under its lock and calls wg.Done after it, so the WaitGroup count can
  exceed the map's size.

## Model

| member | source | states |
|---|---|---|
| WheelRuns.BoundedLateness | go-jobs/pkg/timewheel/timewheel.go:257-401 | From any cursor position and through every chain of cascades, an undisturbed task fires exactly once, not before FireAt, and at most one slot width of its first level late (plus what dropped ticks let the clock gain) |
| WheelRuns.ExactLateness | go-jobs/pkg/timewheel/timewheel.go:257-401 | With ticks exactly 1 ms apart and 0 < delay < maxWheelSpan: it fires once, at T with FireAt <= T <= FireAt + the tick of the level place first chose |
| WheelClock.LatenessOnTheWall | go-jobs/pkg/timewheel/timewheel.go:257-401 | The same read off the wall clock of the ticks: started once, less than 1 ms before FireAt at the earliest and not before it within the span, less than one slot width of the first level and 1 ms after it (plus what dropped ticks gain), and started by then |
| WheelClock.ExactLatenessOnTheWall | go-jobs/pkg/timewheel/timewheel.go:257-401 | With a tick every millisecond: started at a wall time W with FireAt <= W < FireAt + coarseness of its delay + 1 ms, the coarseness being 1 ms below 256 ms and never more than the delay above |
| WheelClock.NeverEarlyOnTheWall | go-jobs/pkg/timewheel/timewheel.go:174-293 | From New on, with ticks at least 1 ms apart, no task starts before the wall time FireAt rounded down to the millisecond |
| WheelClock.DueStartsAtOnce | go-jobs/pkg/timewheel/timewheel.go:354-359 | A task due when it is added starts then, and never again |
| WheelClock.StartedWithin | go-jobs/pkg/timewheel/timewheel.go:297-308 | A task is started exactly if the wheel records it, once, at a wall time within the millisecond it records |
| WheelClock.RunStaysInStep | go-jobs/pkg/timewheel/timewheel.go:272-272 | After every run the wheel's time is the wall time of its last tick rounded down to the millisecond |
| WheelTiming.FiresExactlyAt | go-jobs/pkg/timewheel/timewheel.go:257-401 | With ticks exactly 1 ms apart, whatever cascades and overflow do, an undisturbed task fires once, at one moment that its delay and the tick count at insertion determine: after its first slot, or after one more if delay is left then |
| WheelTiming.OnTimeOrLate | go-jobs/pkg/timewheel/timewheel.go:257-401 | In such a run, whatever the delay: it fires at FireAt if and only if OnTime (within the span: first level not the lowest, its cursor off a slot boundary, FireAt a boundary; beyond: exactly maxWheelSpan ahead, added on a level-3 boundary); otherwise late by at most MostLate, attained if and only if Latest |
| WheelTiming.OverflowLateness | go-jobs/pkg/timewheel/timewheel.go:322-400 | A task from the overflow heap is never early and at most 16.384 s late, with the exact arithmetic of both extremes |
| WheelTiming.StuckNeverFires | go-jobs/pkg/timewheel/timewheel.go:322-336 | A task more than the span away at a whole millisecond never fires: no run reaches the tick that would place it |
| WheelTiming.OnTimeExactly | go-jobs/pkg/timewheel/timewheel.go:354-400 | The arithmetic of being on time, for every delay within the span and every cursor position |
| WheelTiming.LatestExactly | go-jobs/pkg/timewheel/timewheel.go:354-400 | The arithmetic of the lateness bound being attained; on level 0 that is every whole-millisecond delay |
| WheelTiming.SecondDrain | go-jobs/pkg/timewheel/timewheel.go:312-319 | A task with delay left after its first slot goes to a strictly lower level, into a slot drained strictly after FireAt: it is never placed a third time |
| WheelTiming.FirstDrainBounds | go-jobs/pkg/timewheel/timewheel.go:354-400 | The first slot, overflow included, is drained less than its width before FireAt and at most its width after |
| WheelRuns.NeverEarly | go-jobs/pkg/timewheel/timewheel.go:272-293 | In every run whose ticks are at least 1 ms apart, dropped ticks and jumps included, nothing is fired before its FireAt truncated to the millisecond |
| WheelRuns.SpacedTicksArePaced | go-jobs/pkg/timewheel/timewheel.go:272-272 | Wall times at least 1 ms apart stay so after truncation, which is the hypothesis NeverEarly needs |
| WheelRuns.FromTheStart | go-jobs/pkg/timewheel/timewheel.go:174-293 | The same from New on: every task ever added fires at most once and never early |
| WheelRuns.RunConserves | go-jobs/pkg/timewheel/timewheel.go:297-411 | In every run, whatever the clock does: a live task is indexed, uncancelled, unfired and in one spot of its level's window; index and live tasks agree; no task fires twice |
| WheelRuns.OneLiveTaskPerId | go-jobs/pkg/timewheel/timewheel.go:340-351 | No two live tasks share an ID, because insert cancels the one it replaces |
| WheelRuns.SealedFate | go-jobs/pkg/timewheel/timewheel.go:297-308 | A fired, cancelled, replaced or refused task never fires later |
| WheelRuns.CancelledNeverFires | go-jobs/pkg/timewheel/timewheel.go:341-411 | Once a cancel has been processed, by ID or handle, or an add under the same ID, the waiting task never fires |
| WheelRuns.MidTickCancel | go-jobs/pkg/timewheel/timewheel.go:76-76 | A handle cancelled between two stages of a tick: the same as before the whole tick if the task is still live then, and as after it otherwise |
| WheelRuns.InitialConserved | go-jobs/pkg/timewheel/timewheel.go:174-192 | The wheel New returns satisfies the conservation invariant |
| WheelRuns.StageConserves | go-jobs/pkg/timewheel/timewheel.go:297-336 | Each stage of a tick (overflow cascade, level 0, each cascade) keeps conservation, with the cursors not yet advanced still stale |
| WheelRuns.TickConserves | go-jobs/pkg/timewheel/timewheel.go:258-294 | A whole tick keeps it |
| WheelRuns.InsertConserves | go-jobs/pkg/timewheel/timewheel.go:341-351 | insert keeps it, immediate firing, replacement and a full slot included |
| WheelRuns.PlaceInWindow | go-jobs/pkg/timewheel/timewheel.go:354-400 | Where place puts a task is strictly ahead of its level's cursor and at most one turn away, so no slot holds tasks of two turns |
| WheelRuns.PlaceBounds | go-jobs/pkg/timewheel/timewheel.go:354-400 | The slot place picks is drained no earlier than FireAt minus one slot width and no later than FireAt plus one |
| WheelRuns.CascadeTracks | go-jobs/pkg/timewheel/timewheel.go:312-319 | A cascade moves a task to a strictly lower level or fires it, keeping the lateness promise |
| WheelRuns.AlignedOverflowSticks | go-jobs/pkg/timewheel/timewheel.go:322-336 | With exact ticks, no run gets past the tick at which a live overflow task at a whole millisecond is exactly maxWheelSpan away: place takes the mutex cascadeOverflow holds |
| WheelRuns.UnalignedNeverSticks | go-jobs/pkg/timewheel/timewheel.go:322-336 | If nobody adds a task more than the span away at a whole millisecond, no tick of a run can hang |
| WheelRuns.AddSticksExactly | go-jobs/pkg/timewheel/timewheel.go:322-336 | Adding a task makes the wheel hang, if left alone with exact ticks, if and only if its FireAt is a whole millisecond more than maxWheelSpan away |
| TimeWheels.TimeWheel.constructor | go-jobs/pkg/timewheel/timewheel.go:174-192 | The wheel of four slot arrays starts as the empty agenda, at startTime rounded down to the millisecond |
| TimeWheels.TimeWheel.Insert | go-jobs/pkg/timewheel/timewheel.go:341-351 | On cursors, slots, heap and index, insert does what the flat agenda's insert does; only a slot holding maxSlotLen tasks loses one |
| TimeWheels.TimeWheel.Place | go-jobs/pkg/timewheel/timewheel.go:354-401 | The switch on the remaining delay puts the task in the slot of the agenda's due tick, or in the heap |
| TimeWheels.TimeWheel.DoCancel | go-jobs/pkg/timewheel/timewheel.go:404-411 | doCancel on the index and the flag is the agenda's cancel |
| TimeWheels.TimeWheel.CancelTask | go-jobs/pkg/timewheel/timewheel.go:76-76 | Cancelling by handle leaves the index entry and makes the task dead |
| TimeWheels.TimeWheel.FireTasks | go-jobs/pkg/timewheel/timewheel.go:297-308 | Draining the level-0 slot fires exactly the live tasks due at this tick |
| TimeWheels.TimeWheel.Cascade | go-jobs/pkg/timewheel/timewheel.go:312-319 | Draining a higher slot re-places exactly the live tasks due at its tick |
| TimeWheels.TimeWheel.CascadeOverflow | go-jobs/pkg/timewheel/timewheel.go:322-336 | Terminates with every remaining overflow task beyond the horizon, or hangs exactly when a live one is due at the horizon |
| TimeWheels.TimeWheel.Tick | go-jobs/pkg/timewheel/timewheel.go:258-294 | One tick of the real odometer equals the agenda's tick, hangs if and only if the agenda says so, and otherwise leaves the clock a whole millisecond with now <= wall < now + 1 ms |
| WheelCoupling.AddCouples | go-jobs/pkg/timewheel/timewheel.go:88-96 | Appending to a slot list keeps slots and agenda in step |
| WheelCoupling.DrainTakesTheDue | go-jobs/pkg/timewheel/timewheel.go:99-105 | The slot under an advanced cursor holds exactly the level's tasks due now |
| WheelCoupling.PopCouples | go-jobs/pkg/timewheel/timewheel.go:326-335 | Popping the overflow heap keeps heap and agenda in step |
| WheelCoupling.Carry | go-jobs/pkg/timewheel/timewheel.go:282-292 | A cursor is back at 0 exactly when the level above must advance: the cursors are a mixed-radix odometer |
| ContainerHeap.PushHeap | go-jobs/pkg/jobstore/jobstore.go:73-77 | heap.Push keeps heap order and adds exactly one entry |
| ContainerHeap.PopHeap | go-jobs/pkg/jobstore/jobstore.go:78-86 | heap.Pop removes an entry with the least key and keeps heap order |
| ContainerHeap.RemoveHeap | go-jobs/pkg/jobstore/jobstore.go:319-326 | heap.Remove takes out exactly the entry at that position and keeps heap order |
| ContainerHeap.FixHeap | go-jobs/pkg/jobstore/jobstore.go:155-164 | heap.Fix restores heap order after any change of one key in place |
| ContainerHeap.RootIsMin | go-jobs/pkg/jobstore/jobstore.go:196-203 | In heap order the root has the least key |
| ContainerHeap.UpRestores | go-jobs/pkg/jobstore/jobstore.go:68-77 | Sifting up from the only misplaced entry ends in heap order |
| ContainerHeap.DownRestores | go-jobs/pkg/jobstore/jobstore.go:68-86 | Sifting down from the only misplaced entry ends in heap order |
| DueQueue.PopDueRefinesSort | go-jobs/pkg/jobstore/jobstore.go:232-249 | Popping what is due gives the times that filtering, sorting and cutting at the limit gives |
| DueQueue.PopDueConserves | go-jobs/pkg/jobstore/jobstore.go:232-249 | Nothing is lost: popped, dropped and remaining entries are the old ones, and the rest is a heap |
| DueQueue.PopDueOrders | go-jobs/pkg/jobstore/jobstore.go:232-249 | Taken entries are due and current, dropped ones due and stale, what remains is no earlier, and nothing due remains below the limit |
| DueQueue.PopDueAscends | go-jobs/pkg/jobstore/jobstore.go:229-232 | What is popped comes in ascending trigger order |
| DueQueue.PopDueLimit | go-jobs/pkg/jobstore/jobstore.go:237-237 | Never more than the limit is taken |
| JobStores.JobHeap.Swap | go-jobs/pkg/jobstore/jobstore.go:68-72 | Swapping keeps every heapIdx equal to the position |
| JobStores.JobHeap.Push | go-jobs/pkg/jobstore/jobstore.go:73-77 | Push is the heap function on the entries, and sets heapIdx |
| JobStores.JobHeap.Pop | go-jobs/pkg/jobstore/jobstore.go:78-86 | Pop takes the root, sets its heapIdx to -1, and leaves the heap function's rest |
| JobStores.JobHeap.Remove | go-jobs/pkg/jobstore/jobstore.go:319-326 | Remove by position, with the back-pointers right and -1 for the removed entry |
| JobStores.JobHeap.Fix | go-jobs/pkg/jobstore/jobstore.go:155-162 | After the key of one entry was changed in place, the heap is in order again with the back-pointers right |
| JobStores.JobHeap.PopDue | go-jobs/pkg/jobstore/jobstore.go:236-248 | The loop hands out the copies and leaves the heap that the pop function describes |
| JobStores.JobHeap.Insert | go-jobs/pkg/jobstore/jobstore.go:311-317 | addToHeap: in heap order, a no-op if present |
| JobStores.JobHeap.Delete | go-jobs/pkg/jobstore/jobstore.go:319-326 | removeFromHeap: in heap order, a no-op if absent |
| JobStores.Store.constructor | go-jobs/pkg/jobstore/jobstore.go:105-109 | An empty sound store |
| JobStores.Store.Add | go-jobs/pkg/jobstore/jobstore.go:114-128 | Insert or full replacement: the replaced entry leaves the heap, the job is dirty, queued exactly if runnable, and the count is the number of entries |
| JobStores.Store.Remove | go-jobs/pkg/jobstore/jobstore.go:131-136 | The job leaves table, heap and dirty set; a missing ID changes nothing |
| JobStores.Store.Get | go-jobs/pkg/jobstore/jobstore.go:139-144 | The stored job, or nothing |
| JobStores.Store.UpdateNextTrigger | go-jobs/pkg/jobstore/jobstore.go:148-167 | A known job has the two times and is dirty; a running one is queued, popped before or not; every other job, its flag and its place are as they were; a missing ID is reported |
| JobStores.Store.UpdateStatus | go-jobs/pkg/jobstore/jobstore.go:171-189 | A known job has the status and is dirty; stopping takes it out of the queue, running queues it if it has a time, any other status leaves the queue; every other job is as it was; a missing ID is reported |
| JobStores.Store.PopDue | go-jobs/pkg/jobstore/jobstore.go:232-249 | Takes only due running jobs, drops only due jobs that no longer run, leaves none due earlier than one taken, and below the limit none due at all; returns copies of what it takes |
| JobStores.Store.PeekDue | go-jobs/pkg/jobstore/jobstore.go:196-227 | Returns the same list as PopDue from the same state and leaves the queue unchanged but for stale entries |
| JobStores.DueJobs | go-jobs/pkg/jobstore/jobstore.go:193-249 | What the caller gets: runnable due jobs, earliest first, within the limit, nothing earlier left, nothing due left below the limit |
| JobStores.PopsRight | go-jobs/pkg/jobstore/jobstore.go:232-249 | Popping the heap meets that description on the table: which jobs may be taken or dropped, and which must be |
| JobStores.Store.MarkDirty | go-jobs/pkg/jobstore/jobstore.go:287-291 | Marks an existing job, nothing else |
| JobStores.Store.DrainEntry | go-jobs/pkg/jobstore/jobstore.go:275-281 | One entry of the Range: flag cleared and copy taken exactly if it was dirty |
| JobStores.Store.DrainDirty | go-jobs/pkg/jobstore/jobstore.go:273-283 | Every dirty job exactly once, in whatever order the map gives, and no flag left |
| JobStores.Store.Flush | go-jobs/pkg/jobstore/jobstore.go:370-381 | Rows of the dirty jobs whose FlushJob succeeds are saved, no other row changes, the failed ones are dirty again |
| JobStores.Store.LoadAll | go-jobs/pkg/jobstore/jobstore.go:297-307 | The table and the overcount; the store is sound afterwards if and only if every loaded ID was new, and the heap keeps an entry the map has lost if and only if some row had the ID of a queued job |
| JobRegistry.LoadedSize | go-jobs/pkg/jobstore/jobstore.go:297-307 | The table grows by the number of rows exactly if all IDs are new |
| JobRegistry.LoadedMeans | go-jobs/pkg/jobstore/jobstore.go:297-307 | Of rows with one ID the one read last is in the table, clean, and queued exactly if it runs and has a time; IDs not read are as they were |
| JobRegistry.CoversIds | go-jobs/pkg/jobstore/jobstore.go:273-283 | A drained list that covers a set of IDs has exactly those IDs |
| WriteBehind.NothingLost | go-jobs/pkg/jobstore/jobstore.go:148-381 | Over every interleaving of updates with draining and saving, step by step, each job is dirty or about to be flagged, or claimed with its copy to come, or unchanged in the flush list, or equal to its row, unless someone has deleted that row |
| WriteBehind.UpdateIsWhole | go-jobs/pkg/jobstore/jobstore.go:148-189 | With nothing in between, the two steps of an update are the update of the table the class is tied to |
| WriteBehind.RowsMoveForward | go-jobs/pkg/jobstore/jobstore.go:370-381 | A row only ever moves to a later version of its job, also across deletions of the row |
| WriteBehind.FinalFlush | go-jobs/pkg/jobstore/jobstore.go:353-381 | The flush before exit, undisturbed and without failures, leaves nothing dirty and every job equal to its row; a row deleted before is missing only if its job was clean |
| FlushProgress.FlushFinishes | go-jobs/pkg/jobstore/jobstore.go:370-381 | No state of the table keeps a flush from ending: left alone it gets through Range, list and saves |
| FlushProgress.MarkedComesBack | go-jobs/pkg/jobstore/jobstore.go:285-291 | After MarkDirty such a flush leaves the job's row equal to the job, although somebody had deleted it while the job was clean |
| FlushProgress.RowAfter | go-jobs/pkg/jobstore/jobstore.go:370-381 | A row changes by a FlushJob of its own copy or by a deletion, and by no other step |
| WriteBehind.LoadKeepsSafe | go-jobs/pkg/jobstore/jobstore.go:275-276 | An entry the Range hands out is not in the flush list yet |
| WriteBehind.ClaimKeepsSafe | go-jobs/pkg/jobstore/jobstore.go:277-277 | Swapping the flag of the entry handed out, in the table or detached since, keeps the job accounted for: its copy is to come |
| WriteBehind.TakeKeepsSafe | go-jobs/pkg/jobstore/jobstore.go:278-278 | The copy is the newest version if the entry is still in the table, and otherwise one no older than the row while its successor is dirty |
| StepOrder.CopyFirstLosesUpdates | go-jobs/pkg/jobstore/jobstore.go:275-281 | In a drain that copied first and cleared the flag afterwards, an update in between would never reach the database, in any later run that neither updates the job again nor fails to save it |
| StepOrder.FlagFirstLosesUpdates | go-jobs/pkg/jobstore/jobstore.go:155-159 | Nor would one that set the flag before it wrote the fields |
| WriteBehind.SaveKeepsSafe | go-jobs/pkg/jobstore/jobstore.go:372-379 | So do a successful FlushJob and a failed one whose flag is still to be restored, whether or not it had written |
| RemovedRows.RemovedRowStays | go-jobs/pkg/jobstore/jobstore.go:131-136 | A removed job's row is left alone in every run that does not add the job again, unless a copy of it is in the flush list or still to come from an entry the drain has loaded |
| RemovedRows.RemovedRowReturns | go-jobs/pkg/jobstore/jobstore.go:273-381 | In that case, wherever the drain stands, the flush can be completed: the list is saved and the row is that copy, over whatever it was or although it was deleted |
| RemovedRows.OneCopyDue | go-jobs/pkg/jobstore/jobstore.go:273-283 | There is at most one such copy, and one exactly in that case |
| RemovedRows.RemovedRowExactly | go-jobs/pkg/jobstore/jobstore.go:131-381 | The deleted row of a removed job comes back in some run if and only if a copy is held or to come |
| WriteBehind.NoJobForgotten | go-jobs/pkg/jobstore/jobstore.go:114-249 | In every run a runnable job is queued, or was popped and awaits its next time, never both; queued jobs have a time |
| WriteBehind.RescheduledFiresAgain | go-jobs/pkg/jobstore/jobstore.go:148-249 | A running job, popped or not, that is given its next time is returned by the first PopDue past that time with room for it, whatever happens to other jobs in between; one without room takes only jobs due no later |
| WriteBehind.InitialSafe | go-jobs/pkg/jobstore/jobstore.go:295-307 | A table in which every job is clean and equal to its row is sound |
| WriteBehind.BootedIsInitial | go-jobs/pkg/jobstore/jobstore.go:297-307 | Loading rows, in one page or several, into an empty table gives such a table, in which exactly the runnable jobs are queued |
| WriteBehind.InitialScheduled | go-jobs/pkg/jobstore/jobstore.go:303-305 | Such a table meets the invariant of NoJobForgotten |
| WriteBehind.StaleOnlyByUnknownStatus | go-jobs/pkg/jobstore/jobstore.go:181-186 | One event leaves all queued jobs in JobRun status if and only if it is not an UpdateStatus of a queued job to a status other than the two known ones |
| WriteBehind.NeverStaleExactly | go-jobs/pkg/jobstore/jobstore.go:171-189 | Over a whole run they stay so if and only if no event is such an update |
| RunProtocol.DrainSafety | go-jobs/internal/executor/job_runner.go:164-315 | From a new runner, over any history of Run and Stop calls: once a waitDone has returned true, the count is zero, no handler runs and none starts, for good |
| RunProtocol.CleanMeansSilent | go-jobs/internal/executor/job_runner.go:164-315 | Once a waitDone has returned true no handler is running and none ever starts, whatever runs had passed the stopped check |
| RunProtocol.ClosedNeverRises | go-jobs/internal/executor/executor.go:117-151 | Once close has run, the WaitGroup count never rises and no run joins those it counts |
| RunProtocol.RunCounted | go-jobs/internal/executor/executor.go:117-140 | The WaitGroup count is always the number of runs between a successful add and wg.Done |
| RunProtocol.OneRunPerRecord | go-jobs/internal/executor/job_runner.go:238-312 | A record is Running exactly when one run is between its TryAcquire and its Complete, refused runs included |
| RunProtocol.AtMostOnce | go-jobs/pkg/idempotency/idempotency.go:203-221 | While a LogID's record is not deleted its handler starts at most once, over every interleaving of Run and Stop calls |
| RunOutcomes.RecordTellsOutcome | go-jobs/internal/executor/job_runner.go:286-298 | In every run a completed record belongs to the run granted last, and is Success if and only if that run's handler answered without an error; Failed also after a refused add |
| RunOutcomes.CompleteRecordsAnswer | go-jobs/pkg/idempotency/idempotency.go:229-253 | Complete turns the Running record into Success exactly if the handler answered ok, the rollback into Failed |
| RunOutcomes.CompletedStays | go-jobs/pkg/idempotency/idempotency.go:203-221 | The outcome stays until the record is deleted, and until then every later run of the LogID is turned away without a handler |
| RunProtocol.ForceDeleteExactly | go-jobs/pkg/idempotency/idempotency.go:264-268 | Deleting by force keeps that invariant if and only if the record is not Running |
| RunProtocol.Accounting | go-jobs/internal/executor/executor.go:117-207 | With no deletion inside the Complete-remove window: one map entry per run, wg is the map's size plus the runs on the way to wg.Done, and isIdle is exact |
| RunProtocol.KillAllReachesAll | go-jobs/internal/executor/executor.go:162-168 | killAll comes after close, so every job still in the map is cancelled from then on |
| RunProtocol.KillReachesRun | go-jobs/internal/executor/executor.go:187-196 | Kill cancels the run listed under the LogID, for good, and no other |
| RunProtocol.EndedRunsReleased | go-jobs/internal/executor/job_runner.go:275-287 | Whatever happens, a run that got its record has cancelled its context by its end |
| RunProtocol.OneStopper | go-jobs/internal/executor/job_runner.go:164-168 | Of all calls of Stop at most one passes the compare-and-swap; every other returns at once |
| RunProtocol.InitialGood | go-jobs/internal/executor/executor.go:110-112 | The invariants hold of a new runner |
| RunLimits.StopOutlastsExactly | go-jobs/internal/executor/job_runner.go:183-206 | Stop's comment promises to outlast every goroutine; it does in every continuation if and only if nothing is in flight when close runs, because the second waitDone is ignored |
| RunLimits.StopMayReturnEarly | go-jobs/internal/executor/job_runner.go:183-206 | An instance from a new runner: Stop has returned and a handler runs |
| RunLimits.UncleanStopCancelsAll | go-jobs/internal/executor/job_runner.go:183-206 | A Stop that returns without having seen the count at zero has cancelled every run that is still listed |
| RunLimits.ClosedIsInTime | go-jobs/internal/executor/executor.go:145-151 | Every Stop is in the position that UncleanStopCancelsAll starts from when its close has run |
| RunLimits.GcInWindowHidesRun | go-jobs/internal/executor/job_runner.go:286-298 | From every sound state with a run in the window, while the runner takes new runs, deleting the record lets a second run of the LogID lose its map entry: isIdle says yes while its handler runs |
| RunLimits.GcInWindowExactly | go-jobs/internal/executor/job_runner.go:225-298 | Such a deletion can hide a run of the LogID if and only if one can still be added: not drained, and not stopped either unless a run of it has passed the check |
| RunLimits.WindowIsReached | go-jobs/internal/executor/job_runner.go:286-298 | The window is reached from a new runner, so these statements are about real states |
| RunLimits.AccountingOnceDrained | go-jobs/internal/executor/executor.go:117-207 | Once drained, map, count and isIdle agree in every run, whichever records are deleted and when |
| RunningJobs.RunningJobSet.Add | go-jobs/internal/executor/executor.go:117-131 | add is the protocol's step: refused exactly when drained, else counted and listed |
| RunningJobs.RunningJobSet.Remove | go-jobs/internal/executor/executor.go:135-140 | remove is the deletion followed by wg.Done |
| RunningJobs.RunningJobSet.Close | go-jobs/internal/executor/executor.go:145-151 | close drains and reports the number of listed jobs |
| RunningJobs.RunningJobSet.KillAll | go-jobs/internal/executor/executor.go:162-168 | Every listed context is cancelled, no other changes |
| RunningJobs.RunningJobSet.Kill | go-jobs/internal/executor/executor.go:187-196 | Cancels the listed run of that LogID and no other, and reports whether there was one |
| RunningJobs.RunningJobSet.IsIdle | go-jobs/internal/executor/executor.go:198-207 | The scan answers whether no listed job has the ID |
| RunningJobs.Runner.Run | go-jobs/internal/executor/job_runner.go:225-284 | Run uninterrupted is the protocol's sequence of steps; a LogID that has failed is answered with the error its record keeps |
| RunningJobs.Runner.RunAnswers | go-jobs/internal/executor/job_runner.go:225-284 | The answer and the effect of Run for a stopped runner, each record state, a drained runner, and otherwise |
| RunningJobs.Runner.Launch | go-jobs/internal/executor/job_runner.go:275-284 | add, and on refusal cancel and complete the record |
| RunningJobs.Runner.Work | go-jobs/internal/executor/job_runner.go:286-312 | The goroutine is start, finish, Complete, deletion, wg.Done, in that order; its record is then a success exactly if the handler reported no error, and keeps the error otherwise |
| RunningJobs.Runner.Stop | go-jobs/internal/executor/job_runner.go:164-206 | Stop is CAS, close, waits and killAll as the protocol orders them: it cancels everything listed if it does not wait or waits in vain, and nothing otherwise; a second Stop does nothing |
| IdempotencyTable.Table.TryAcquire | go-jobs/pkg/idempotency/idempotency.go:203-221 | Granted exactly when there is no record; otherwise the existing record, unchanged |
| IdempotencyTable.Table.Complete | go-jobs/pkg/idempotency/idempotency.go:229-253 | Only a Running record gets its outcome and expiry; a missing or completed one is left alone |
| IdempotencyTable.Table.Gc | go-jobs/pkg/idempotency/idempotency.go:323-333 | Removes exactly the records completed more than the TTL ago, never a Running one, and changes no other |
| IdempotencyTable.Table.ForceDelete | go-jobs/pkg/idempotency/idempotency.go:264-268 | Removes the record whatever its state |
| IdempotencyTable.Table.Stats | go-jobs/pkg/idempotency/idempotency.go:278-294 | Counts per state are exact and add up to the number of records |
| LogBuffer.BufferedEqualsDirect | go-jobs/pkg/logbuffer/logbuffer.go:157-331 | Between batches the table holds, under distinct positive IDs, one row per successfully written record, in ring order, and one per record a stopping Create inserted itself; each has its row's ID, and every written record exactly one signal |
| LogBuffer.BatchBound | go-jobs/pkg/logbuffer/logbuffer.go:157-202 | No batch exceeds batchSize, with 0 acting as 1 |
| LogFates.FlushesWhenFull | go-jobs/pkg/logbuffer/logbuffer.go:192-196 | Receiving a record starts a flush exactly when it completes a full batch |
| LogBuffer.TickDelivers | go-jobs/pkg/logbuffer/logbuffer.go:198-199 | No record waits for its batch to fill: the next tick writes what there is, and every caller gets one signal with the outcome and, on success, its row's ID |
| LogBuffer.DrainedOnExit | go-jobs/pkg/logbuffer/logbuffer.go:175-190 | When the flusher has exited, everything it received is written and signalled |
| LogBuffer.ResolvesToRow | go-jobs/pkg/logbuffer/logbuffer.go:281-292 | A delivered record's temporary ID resolves to its row until it has been used |
| LogFates.MapHoldsTheUnused | go-jobs/pkg/logbuffer/logbuffer.go:256-362 | The map's keys are at every moment exactly the temporary IDs of the written records that have not been used |
| LogFates.GivenUpForGood | go-jobs/pkg/logbuffer/logbuffer.go:321-331 | A Create that was cancelled, or whose own insert failed, leaves a record without an ID that never enters the ring, is never written or signalled, and has no row |
| LogBuffer.NextLined | go-jobs/pkg/logbuffer/logbuffer.go:173-201 | Every step keeps ring order: arrived = received + ring, received = written + batch |
| LogBuffer.NextDistinct | go-jobs/pkg/logbuffer/logbuffer.go:310-321 | Temporary IDs are distinct and negative, and a record enters the ring once |
| LogBuffer.PublishKeepsSettled | go-jobs/pkg/logbuffer/logbuffer.go:252-269 | Back-fill, mapping and signal keep every delivered record delivered |
| LogBuffer.InsertKeepsSettled | go-jobs/pkg/logbuffer/logbuffer.go:229-233 | An atomic CreateBatch adds one row per record of the batch, or none |
| LogBuffer.ResolvedAt | go-jobs/pkg/logbuffer/logbuffer.go:256-263 | After the mapping loop each temporary ID of the batch leads to its own real ID and others are untouched |
| LogBuffer.LateRecordStays | go-jobs/pkg/logbuffer/logbuffer.go:321-331 | A record enqueued after the flusher has exited is never written |
| LogWriter.Buffer.TakeTmpIDs | go-jobs/pkg/logbuffer/logbuffer.go:216-222 | The snapshot of temporary IDs, and 0 in every record |
| LogWriter.Buffer.WriteBatch | go-jobs/pkg/logbuffer/logbuffer.go:208-275 | On success IDs and map are filled in, on failure IDs stay 0, every caller is signalled once either way |
| LogWriter.Buffer.InsertBatch | go-jobs/pkg/logbuffer/logbuffer.go:208-275 | One call of CreateBatch; every caller is told success exactly if it succeeded, and exactly then there are the rows |
| LogWriter.ToldOn | go-jobs/pkg/logbuffer/logbuffer.go:192-196 | A flushed batch continues the cut: entry i of the line is answered by call i / batchSize |
| LogWriter.Buffer.Receive | go-jobs/pkg/logbuffer/logbuffer.go:192-196 | Appending flushes if and only if that fills the batch, and what is flushed is told how its call went |
| LogWriter.Buffer.Drain | go-jobs/pkg/logbuffer/logbuffer.go:175-190 | The drain cuts batch and ring into batches of the batch size, one call each; every entry is told once how its batch's call went, and the rows are those direct inserts in that order would leave |
| LogWriter.Buffer.UpdateResult | go-jobs/pkg/logbuffer/logbuffer.go:350-362 | Works on the resolved row and forgets the temporary ID it used |
| TokenBuckets.LevelExactly | go-jobs/pkg/ratelimit/ratelimit.go:90-104 | The bucket is exactly its bounds: a call is admitted if and only if every stretch ending in it stays within capacity plus refill |
| TokenBuckets.GrantedBound | go-jobs/pkg/ratelimit/ratelimit.go:90-104 | Tokens admitted between two calls total at most capacity + rate * (tj - ti) |
| TokenBuckets.DrawnBound | go-jobs/pkg/ratelimit/ratelimit.go:90-104 | The same with time counted in tokens |
| TokenBuckets.StepsInRange | go-jobs/pkg/ratelimit/ratelimit.go:90-104 | Tokens stay between 0 and the capacity |
| TokenBuckets.ExtraRefill | go-jobs/pkg/ratelimit/ratelimit.go:107-113 | Extra refill points, refused calls and Available never change a later decision |
| TokenBuckets.TokenBucket.constructor | go-jobs/pkg/ratelimit/ratelimit.go:71-81 | Full at the start; a capacity of 0 or less means the rate |
| TokenBuckets.TokenBucket.AllowN | go-jobs/pkg/ratelimit/ratelimit.go:90-104 | The fields follow the meter: refill, then admit if enough |
| TokenBuckets.TokenBucket.Available | go-jobs/pkg/ratelimit/ratelimit.go:107-113 | What the next call would find, without consuming |
| FixedWindows.AllowsExactly | go-jobs/pkg/ratelimit/ratelimit.go:158-172 | A call passes if and only if fewer than limit calls of its window have |
| FixedWindows.WindowBound | go-jobs/pkg/ratelimit/ratelimit.go:158-172 | At most limit per aligned window |
| FixedWindows.IntervalBound | go-jobs/pkg/ratelimit/ratelimit.go:158-172 | At most limit * (L / w + 2) in any interval of length L |
| FixedWindows.CountIsPassed | go-jobs/pkg/ratelimit/ratelimit.go:141-142 | The counter is the number let through in the current window |
| FixedWindows.FixedWindowQuota.Allow | go-jobs/pkg/ratelimit/ratelimit.go:158-172 | The fields follow the window function, reset included |
| FixedWindows.FixedWindowQuota.Remaining | go-jobs/pkg/ratelimit/ratelimit.go:185-191 | Positive exactly when a call would pass |
| Limiters.EveryCallCounted | go-jobs/pkg/ratelimit/ratelimit.go:244-259 | allowed + rejected is the number of calls, allowed those let through |
| Limiters.RateBoundInSeconds | go-jobs/pkg/ratelimit/ratelimit.go:244-259 | In any stretch i..j of a run a limiter with a bucket obeys capacity + rate * (tj - ti), whatever its quota does |
| Limiters.QuotaBound | go-jobs/pkg/ratelimit/ratelimit.go:244-259 | In any stretch i..j of a run a limiter with a quota obeys limit * (L / w + 2), whatever its bucket does |
| Limiters.StaysSane | go-jobs/pkg/ratelimit/ratelimit.go:244-259 | Calls at nondecreasing times keep a limiter sane: levels and counts in range, no clock ahead |
| Limiters.ChecksStaySane | go-jobs/pkg/ratelimit/ratelimit.go:363-381 | So do checks, for every limiter of the registry |
| Limiters.AppSeesOneRun | go-jobs/pkg/ratelimit/ratelimit.go:369-381 | Across any mix of jobs, in every stretch of checks an app's admissions are exactly what its own limiter let through, over the checks that passed their job's limiter |
| Limiters.AppRateBound | go-jobs/pkg/ratelimit/ratelimit.go:369-381 | So in any stretch an app's admissions obey its bucket |
| Limiters.AppRateBoundInSeconds | go-jobs/pkg/ratelimit/ratelimit.go:90-104 | In seconds: at most capacity + rate * (tj - ti) |
| Limiters.AppQuotaBound | go-jobs/pkg/ratelimit/ratelimit.go:369-381 | And its quota |
| Limiters.JobSeesOneRun | go-jobs/pkg/ratelimit/ratelimit.go:369-374 | Across any mix of apps, a job's limiter is asked by every check of that job and by no other; those that get past the job level are exactly those it let through, and it has counted each once |
| Limiters.JobRateBound | go-jobs/pkg/ratelimit/ratelimit.go:369-374 | So in any stretch the checks of a job that get past the job level obey its bucket: capacity plus what its clock earns |
| Limiters.JobRateBoundInSeconds | go-jobs/pkg/ratelimit/ratelimit.go:90-104 | In seconds: at most capacity + rate * (tj - ti) |
| Limiters.JobQuotaBound | go-jobs/pkg/ratelimit/ratelimit.go:369-374 | And its quota: limit * (L / w + 2) |
| Limiters.AllowedExactly | go-jobs/pkg/ratelimit/ratelimit.go:363-381 | A check is allowed exactly if neither of the two limiters, where registered, refuses it |
| Limiters.JobRefusalSparesApps | go-jobs/pkg/ratelimit/ratelimit.go:363-374 | A refusal at the job level leaves every app limiter unchanged |
| Limiters.KeysDiffer | go-jobs/pkg/ratelimit/ratelimit.go:404-407 | App and job keys never collide, nor do those of different apps or jobs |
| Limiters.Limiter.constructor | go-jobs/pkg/ratelimit/ratelimit.go:231-240 | Each layer exists exactly if its settings are positive |
| Limiters.Limiter.Allow | go-jobs/pkg/ratelimit/ratelimit.go:244-259 | Bucket first, then quota, with the counters |
| Limiters.LimiterRegistry.CheckJob | go-jobs/pkg/ratelimit/ratelimit.go:369-381 | On the limiter objects: job limiter, then app limiter, each charged as asked; unregistered keys pass |
| Routers.RoundRobinRotates | go-jobs/internal/scheduler/route_strategy.go:80-90 | From a fresh state call i goes to address i mod n |
| Routers.LfuRotates | go-jobs/internal/scheduler/route_strategy.go:127-144 | Least frequently used: the same |
| Routers.LruRotates | go-jobs/internal/scheduler/route_strategy.go:155-172 | Least recently used, with strictly increasing times: the same |
| Routers.FairShare | go-jobs/internal/scheduler/route_strategy.go:73-172 | In rotation every address is chosen floor(m/n) or ceil(m/n) times |
| Routers.Least | go-jobs/internal/scheduler/route_strategy.go:134-141 | The scan finds the first address with the least value |
| Routers.RoundRobinRouter.Route | go-jobs/internal/scheduler/route_strategy.go:80-90 | Address by counter, counter plus one; an empty list is an error and changes nothing |
| Routers.LfuRouter.Route | go-jobs/internal/scheduler/route_strategy.go:127-144 | The first least-used address, its count plus one; an empty list is an error |
| Routers.LruRouter.Route | go-jobs/internal/scheduler/route_strategy.go:155-172 | The first least-recently-used address, its time set; an empty list is an error |
| RedisLock.OneHolder | go-jobs/internal/scheduler/scheduler.go:392-412 | With a TTL no shorter than the context's timeout (both 30 s), or none, two runs for one job are never both between TryLock and the earlier of release and deadline |
| RedisLock.ShortTtlBreaks | go-jobs/internal/scheduler/scheduler.go:48-48 | With any shorter positive TTL they can be |
| RedisLock.ExcludesExactly | go-jobs/internal/scheduler/scheduler.go:392-412 | So the lock excludes in all runs if and only if its TTL is 0 (no expiry) or not shorter than the timeout |
| RedisLock.StaleTokenIsHarmless | go-jobs/pkg/redis/redis.go:107-147 | A run that has lost its job's lock never has it again, and whatever it sends later, however late, changes no key |
| RedisLock.LockBelongsToOwner | go-jobs/pkg/redis/redis.go:107-147 | Over every run in which the owner neither releases nor extends, the lock's entry is unchanged until it expires |
| RedisLock.GrantedExactlyIfFree | go-jobs/pkg/redis/redis.go:116-119 | A run's TryLock is granted exactly if nobody has the job's lock, and then it is its own for the TTL |
| RedisLock.ReleaseFrees | go-jobs/pkg/redis/redis.go:107-132 | The holder's release frees the lock of its job at once and of no other |
| RedisLock.FreeUntilAsked | go-jobs/internal/scheduler/scheduler.go:392-412 | A free lock stays free until somebody asks for it, and the first run of the job that does is granted it |
| RedisLock.ExtendedLives | go-jobs/pkg/redis/redis.go:135-147 | An owner that extends has the lock until now + TTL, over every run in which it neither releases nor extends again |
| RedisLock.LockKeyInjective | go-jobs/internal/scheduler/scheduler.go:397-397 | Different jobs have different lock keys |
| RedisLock.Server.TryLock | go-jobs/pkg/redis/redis.go:116-119 | SET NX PX: granted exactly when the key is absent or expired |
| RedisLock.Server.ReleaseLock | go-jobs/pkg/redis/redis.go:107-132 | If the value is the caller's, the key is gone and every other key as before; otherwise no key changes |
| RedisLock.Server.ExtendLock | go-jobs/pkg/redis/redis.go:135-147 | If the value is the caller's, the key expires at now + TTL (and is gone if the TTL is not positive) and every other key is as before; otherwise no key changes |
| Histogram.BuildBounds | go-jobs/pkg/metrics/prometheus_provider.go:228-251 | Sorted, deduped and topped by the sentinel: the same set of bounds, strictly ascending if and only if all buckets are below the sentinel |
| Histogram.InsertionSort | go-jobs/pkg/metrics/prometheus_provider.go:232-236 | The insertion sort sorts and keeps the bag of values |
| Histogram.Sink | go-jobs/pkg/metrics/prometheus_provider.go:233-235 | Its inner loop moves one entry to its place |
| Histogram.Dedupe | go-jobs/pkg/metrics/prometheus_provider.go:237-242 | Deduping into the same array gives the same set, strictly ascending, although it overwrites what it compares with |
| Histogram.PromHistogram.constructor | go-jobs/pkg/metrics/prometheus_provider.go:228-251 | An empty histogram over those bounds |
| Histogram.PromHistogram.Observe | go-jobs/pkg/metrics/prometheus_provider.go:254-268 | The observation goes to the first bucket that bounds it, or the last; sum and total follow |
| Histogram.PromHistogram.WriteTo | go-jobs/pkg/metrics/prometheus_provider.go:275-302 | Each finite bound's line is the number of observations at most that bound, if the bounds ascend strictly; the +Inf line equals _count for all bounds; _sum is the sum of the observations |
| Histogram.UpToIsAtMost | go-jobs/pkg/metrics/prometheus_provider.go:254-264 | Being in the first i buckets is being at most bound i |
| Histogram.RunningSum | go-jobs/pkg/metrics/prometheus_provider.go:287-290 | The running sum counts the observations of this and earlier buckets |
| Histogram.CountedOnce | go-jobs/pkg/metrics/prometheus_provider.go:254-268 | Wherever it stands among the observations, each adds its value to the sum and one to the lines of the bounds not below it |
| IdLists.RoundTrip | go-jobs/pkg/utils/utils.go:62-85 | Parsing a printed list gives it back, for every list of int64 values |
| IdLists.ParseSpaced | go-jobs/pkg/utils/utils.go:50-85 | So does parsing one with any white space around its elements |
| IdLists.TrimIs | go-jobs/pkg/utils/utils.go:53-53 | Trimming takes off exactly the white space around a string |
| IdLists.TrimmedByPart | go-jobs/pkg/utils/utils.go:52-57 | Each part is trimmed, and dropped if empty, whatever stands before and after it |
| IdLists.OnePart | go-jobs/pkg/utils/utils.go:52-83 | What one part contributes: itself trimmed or nothing, its number or nothing |
| IdLists.ParsedByPart | go-jobs/pkg/utils/utils.go:78-83 | What does not parse is dropped, whatever stands before and after it |
| IdLists.PrintParseIdempotent | go-jobs/pkg/utils/utils.go:62-85 | Printing what was parsed is a normal form, on every string |
| IdLists.ParseFormat | go-jobs/pkg/utils/utils.go:66-79 | ParseInt reads back FormatInt for every int64 |
| IdLists.FormatBack | go-jobs/pkg/utils/utils.go:66-79 | What parses is its number's printed form exactly if it has no plus sign and no leading zero |
| IdLists.ValueExactly | go-jobs/pkg/utils/utils.go:79-79 | Digits, and only digits, have a value |
| IdLists.FormatInjective | go-jobs/pkg/utils/utils.go:66-66 | Different numbers print differently |
| IdLists.SplitJoin | go-jobs/pkg/utils/utils.go:51-68 | Splitting a join gives the parts back if and only if no separator begins inside a part, for every non-empty separator |
| IdLists.JoinSplit | go-jobs/pkg/utils/utils.go:51-68 | Joining what was split gives the string back, for every separator |
| IdLists.SplitAndTrim | go-jobs/pkg/utils/utils.go:50-60 | The non-empty trimmed parts, in order, for every separator |
| IdLists.Int64SliceToString | go-jobs/pkg/utils/utils.go:63-69 | The loop prints the list |
| IdLists.StringToInt64Slice | go-jobs/pkg/utils/utils.go:72-85 | The loop parses the list, skipping what does not parse |
| IdLists.ParseIDList | go-jobs/internal/service/child_job_service.go:75-89 | Exactly the positive elements of StringToInt64Slice, in order |
| IdLists.PositivesByPart | go-jobs/internal/service/child_job_service.go:84-86 | Each number is kept or dropped on its own, and kept exactly if it is positive |

## Left out

- HTTP handlers, the web front end, DAOs, MySQL, Elasticsearch and etcd clients, configuration, logging, JWT: plumbing
  around libraries that are not shown. The database is a map with an atomic bulk insert, Redis a map with expiry times.
- The cron parser, text templates and script execution: foreign code.
- int64 and uint64 wrap-around of counters, identifiers and durations: integers are unbounded except in the ID lists,
  where the int64 range decides what parses.
- Floating-point rounding and NaN: bucket levels, histogram bounds and observations are exact reals.
- WheelRuns.BoundedLateness: speaks of tasks that no full slot refuses; a slot holding maxSlotLen tasks drops the next
  one silently, which the model has as an outcome (`refused`) and shows possible only when that many tasks exist.
- TimeWheels.TimeWheel.Insert: adds and cancels are taken in the order in which the wheel goroutine processes them; the
  order between the two channels is not the order of the calls.
- TimeWheels.TimeWheel.CancelTask: the task's atomic flag is membership in a set of the wheel. A handle cancelled during
  a tick is covered by MidTickCancel, not by the class. Firing is taken to happen at the isCancelled check: a Cancel that
  lands between go-jobs/pkg/timewheel/timewheel.go:300 and :306 returns before the task's function starts.
- JobStores.Store.Add: each public method of the class is one atomic step; the gap between the map's swap and the heap
  update is not modelled. Draining, saving, and an update's write and flag are separate steps in WriteBehind; there an
  update finds its entry and locks the heap in one step, its fields are written, and copied, as a whole, and MarkDirty
  finds and flags its entry in one step.
- JobStores.Store.DrainEntry: the uninterrupted turn of the Range; its steps apart are Load, Claim and Take in WriteBehind.
- WriteBehind.NothingLost: others may delete rows, but an update of a row by the admin server is not an event; the next
  flush of that job overwrites it.
- RedisLock.ExcludesExactly: for a TTL of 0 or more; a negative one is an option of the client library or an error.
- WriteBehind.FinalFlush: the flush with concurrent updates is covered by NothingLost, not by this lemma.
- RunProtocol.Accounting: assumes no gc or forced delete of a record inside the window between Complete and remove;
  GcInWindowExactly says when that matters.
- RunProtocol.OneRunPerRecord: assumes no forced delete of a Running record; ForceDeleteExactly shows why.
- RunningJobs.Runner.Run, RunningJobs.Runner.Work and RunningJobs.Runner.Stop are the uninterrupted sequences of steps; what
  interleaving does to them is proved in RunProtocol. The methods of RunningJobSet and Table, of which they consist, are
  single steps from any state.
- Handler panics, and a negative batchSize (the flusher's first allocation panics): not modelled.
- The log buffer's sequential fallback when the DAO has no bulk insert: a partial failure there breaks the all-or-nothing
  batch the guarantees rest on.
- LogBuffer.DrainedOnExit: covers what the flusher received; a record enqueued after it has exited stays unanswered, as
  LateRecordStays says.
- LogWriter.Buffer.Drain: a select over channels with a timer is an event order in LogBuffer; here the ring is a list.
- FixedWindows.IntervalBound: for times since 1970, where Go's truncating division is the floor.
- Limiters.LimiterRegistry.CheckJob: the registry's map is not changed while a check runs, and one check is one step;
  the source looks up and asks the two limiters under separate locks.
- Routers.RoundRobinRotates: on one address list; lists whose hashes collide share a counter in the source.
- Routers.LruRotates: needs strictly increasing times; equal timestamps are resolved by list order.
- First, last, random, consistent-hash and failover routing, job templates, executor store, alarm, statistics and retry
  services, misfire and blocking strategies, counters and gauges: single-branch facts that would only add easy members.
