# Bounded job queue with priority aging and expiry — a Dafny model

This project models the core of a small job-submission queue written in Python:

- **`QueueManagement`** (queue_management.py): `QueueManager`, a fixed-capacity circular
  buffer of optional job slots with `head`, `tail` and `size`. It supports `enqueue_job`
  (raises `OverflowError` when full), `dequeue_job` (`None` when empty) and `show_status`.
  The class keeps the slots in an `array<Option<Job>>`. A ghost sequence `Contents` holds the
  jobs oldest first. `Valid()` is the ring invariant: the `size` slots from `head` hold
  `Contents` in order, every other slot is empty, and the slot after `tail` is the next free one.
- **`PriorityAging`** (priority_aging.py): `apply_priority_aging`, which the source writes as a
  function of a `QueueManager` (`self`), so here it takes the `QueueManager` as its first
  argument. It ages each job, stable-sorts the jobs by `(-priority, -waiting_time)` and
  rebuilds the ring from slot 0. It then writes back each job's waiting time, which
  `enqueue_job` had reset to 0. The sort is an in-place insertion sort on an array. It is
  proved equal to a reference function `SortJobs`, and that function is proved sorted, a
  permutation and stable.
- **`EventSimulation`** (event_simulation.py): `ConcurrentQueueManager` and `EventSimulator`.
  - The manager has a job counter and ids formatted as `JOB-%04d`. Its `enqueue`/`dequeue`
    never block, and `enqueue` can reinsert an existing job. It also gives a status record.
  - The standard-library `Queue(maxsize=capacity)` becomes a sequence of jobs. Its `full()`
    is `0 < maxsize <= qsize()`, so a capacity of 0 or less means unbounded, as in the library.
  - `EventSimulator.tick` takes the clock reading as a parameter `now`. It drains the queue,
    refreshes waiting times and ages jobs to `min(priority + 1, 10)`. Then it drops the jobs
    whose waiting time reached the expiry time and puts the rest back in drained order.

Threads and locks are left out: every call runs to completion before the next one starts.

Where the design description and the code differ, the model follows the code:

- `tick` puts the surviving jobs back in their drained order and does NOT sort them
  (event_simulation.py:155-157). Only `apply_priority_aging` sorts (priority_aging.py:19).
- The tick's aging has no `priority < max` guard. It computes `min(priority + 1, 10)` with a
  literal 10 (event_simulation.py:143-145). So an aged job whose priority is above 10 is
  brought down to 10. `AgeOnTick` states this.
- `enqueue_job` first advances `tail` and then stores there (queue_management.py:32-33).
  So `tail` is the newest occupied slot, and it is -1 before the first insertion.
- A `QueueManager` of capacity 0 is handled. `is_full` is checked before the `% capacity`, so
  it always overflows on enqueue and returns `None` on dequeue. A `ConcurrentQueueManager`
  of capacity 0 or less is unbounded.
- Fresh ids: `enqueue` holds `self.lock` and then calls `generate_job_id`, which takes the same
  non-reentrant lock (event_simulation.py:35, 30, 45). As written, a fresh submission would
  block forever. This is a deliberate abstraction: the model gives the evidently intended
  effect. The counter goes up once, and then the new job is inserted.

## Model

| member | source | states |
|---|---|---|
| `QueueManagement.QueueManager.constructor` | queue_management.py:16-21 | a new ring has `capacity` empty slots, `head` 0, `tail` -1, `size` 0 and no contents |
| `QueueManagement.QueueManager.IsEmpty` | queue_management.py:23-24 | empty exactly when the ring holds no job |
| `QueueManagement.QueueManager.IsFull` | queue_management.py:26-27 | full exactly when the ring holds `capacity` jobs |
| `QueueManagement.SlotIsMod` | queue_management.py:29-43 | the linear slot position `Slot(h, i, c)` is the source's circular index `(h + i) % c` |
| `QueueManagement.QueueManager.TailIsLastSlot` | queue_management.py:29-43 | under the ring invariant, `(tail+1) % capacity == (head+size) % capacity`, and `tail == (head+size-1) % capacity` once a job was stored |
| `QueueManagement.QueueManager.EnqueueJob` | queue_management.py:29-34 | full ring: `OverflowError` and nothing changes; otherwise the new job (waiting time 0) is stored at `(tail+1) % capacity`, only that slot changes, `size` grows by 1, and the job is appended to the FIFO contents; the ring invariant is kept |
| `QueueManagement.QueueManager.DequeueJob` | queue_management.py:36-43 | empty ring: `None` and nothing changes; otherwise returns the job at `head`, which is the oldest, clears that slot, advances `head` modulo `capacity`, shrinks `size`, and removes the front of the contents |
| `QueueManagement.QueueManager.ShowStatus` | queue_management.py:45-54 | returns exactly the `size` occupied slots read from `head` in circular order, which is the FIFO contents (`[]` when empty), without changing anything |
| `PriorityAging.AgeJob` | priority_aging.py:11-13 | priority rises by exactly 1 iff waiting time >= interval and priority < max, otherwise it is unchanged; never lifted above max; a job at or above max is untouched; id, submitter and waiting time are kept |
| `PriorityAging.SortJobsSorted` | priority_aging.py:19 | the reference sort orders jobs by non-increasing priority, and within equal priority by non-increasing waiting time |
| `PriorityAging.SortJobsPermutes` | priority_aging.py:19 | the sort is a permutation: same multiset of jobs, same length |
| `PriorityAging.SortJobsStable` | priority_aging.py:19 | the sort is stable: for every key `(priority, waiting time)`, the jobs with that key keep their earlier relative order |
| `PriorityAging.AgingPassIsSortedPermutation` | priority_aging.py:6-19 | the pass's result is sorted, is a permutation of the aged jobs, and keeps the queue order of tied jobs |
| `PriorityAging.AgingPassKeepsIdentities` | priority_aging.py:26-29 | every (submitter, job id, waiting time) present before the pass is present after it, as often as before |
| `PriorityAging.AgingPassJobs` | priority_aging.py:8-15 | every job after the pass is the aged version of a job before it; if all priorities were <= max, they still are |
| `PriorityAging.SortByPriorityThenWait` | priority_aging.py:19 | the in-place sort leaves the array equal to the reference sort of its old contents |
| `PriorityAging.ExtractAged` | priority_aging.py:5-16 | the ring walk from `head` collects the contents in queue order, each one aged |
| `PriorityAging.Rebuild` | priority_aging.py:21-29 | the fresh ring holds the given jobs from slot 0, with their waiting times restored; `head` 0, `tail` `size-1`, later slots empty |
| `PriorityAging.ApplyPriorityAging` | priority_aging.py:1-29 | an empty ring is left alone; otherwise the contents become the aged jobs in stable sorted order, `size` is unchanged, `head == 0`, `tail == size-1`, slots from `size` on are `None`, and the ring invariant holds |
| `EventSimulation.FormatJobId` | event_simulation.py:32 | the id is `JOB-` followed by at least four decimal digits |
| `EventSimulation.JobIdRoundTrip` | event_simulation.py:32 | the counter value can be read back from the formatted id |
| `EventSimulation.JobIdInjective` | event_simulation.py:29-32 | different counter values give different ids |
| `EventSimulation.ConcurrentQueueManager.constructor` | event_simulation.py:23-27 | an empty queue with the given `maxsize` and counter 0 |
| `EventSimulation.ConcurrentQueueManager.Full` | event_simulation.py:36 | full exactly when the queue is bounded and holds `capacity` jobs |
| `EventSimulation.ConcurrentQueueManager.GenerateJobId` | event_simulation.py:29-32 | the counter goes up by exactly 1 and the id encodes the new value |
| `EventSimulation.ConcurrentQueueManager.Enqueue` | event_simulation.py:34-50 | full: `None`, queue and counter unchanged; with `job_obj`: that job is appended unchanged, no new id; otherwise a new job (given submitter and priority, next id, timestamp `now`, waiting 0) is appended and returned |
| `EventSimulation.ConcurrentQueueManager.Dequeue` | event_simulation.py:52-56 | `None` on empty; otherwise returns and removes the oldest job |
| `EventSimulation.ConcurrentQueueManager.ProcessSimultaneousSubmissions` | event_simulation.py:58-74 | submitted one after another: exactly `min(N, free slots)` submissions get a job (all N when unbounded), the first ones; they get consecutive, pairwise distinct ids; the counter and the queue grow by exactly those jobs |
| `EventSimulation.IssuedIdsDistinct` | event_simulation.py:58-74 | jobs issued with consecutive counter values have pairwise distinct ids |
| `EventSimulation.ConcurrentQueueManager.GetQueueStatus` | event_simulation.py:76-83 | reports the queue's size and capacity, `is_empty` iff size 0, and `is_full` iff bounded with size equal to capacity; nothing changes |
| `EventSimulation.Refresh` | event_simulation.py:137 | the waiting time becomes `now - timestamp` and nothing else changes |
| `EventSimulation.AgeOnTick` | event_simulation.py:143-145 | only the priority changes, and only when waiting time >= interval: +1 below 10, 10 otherwise (a priority above 10 is lowered to 10) |
| `EventSimulation.TickKeepsUnexpiredInOrder` | event_simulation.py:140-157 | a tick keeps exactly the jobs with `now - timestamp < expiry`, refreshed and aged, in their pre-tick FIFO order |
| `EventSimulation.TickSurvivorsUnexpired` | event_simulation.py:149-153 | after a tick no job has waited `expiry` or longer, every job carries its refreshed waiting time, and the queue has not grown |
| `EventSimulation.RunTicksShrinks` | event_simulation.py:162-165 | a run of ticks never grows the queue, and after it no job is expired at the last clock reading |
| `EventSimulation.EventSimulator.constructor` | event_simulation.py:111-124 | the simulator keeps its manager, expiry time and aging interval, with tick count 0 |
| `EventSimulation.EventSimulator.Drain` | event_simulation.py:131-138 | the queue is emptied oldest first, and each drained job gets waiting time `now - timestamp` |
| `EventSimulation.EventSimulator.AgeAndExpire` | event_simulation.py:140-153 | the drained jobs are aged, and exactly the unexpired ones are kept, in drained order |
| `EventSimulation.EventSimulator.Reinsert` | event_simulation.py:155-157 | the survivors are put back unchanged and in order; none is refused for lack of room |
| `EventSimulation.EventSimulator.Tick` | event_simulation.py:126-160 | tick count +1; the queue becomes the unexpired jobs, refreshed and aged, in pre-tick order; the id counter is unchanged; the capacity bound holds |
| `EventSimulation.EventSimulator.Simulate` | event_simulation.py:162-165 | one tick per clock reading, in order; the tick count grows by the number of ticks; the id counter is unchanged |

## Left out

- Job objects are modelled as values, not shared references. Two aliasing effects are lost:
  a caller holding a job object would see a tick's or aging pass's in-place mutation, and
  the same job object could be enqueued twice through `job_obj` and then aged twice in one tick.
- Threads and locks (event_simulation.py:25, 30, 35, 53, 77) are left out: all calls are
  sequential. `process_simultaneous_submissions` runs its submissions in input order and
  returns results in that order. With threads, the order of the results list depends on
  scheduling.
- The lock re-entry between `enqueue` and `generate_job_id` is also left out. As written it
  blocks every fresh submission forever; the model gives the intended effect instead.
- The unlocked `queue.empty()` poll in `tick` (event_simulation.py:134) is left out, because
  it matters only under concurrency.
- `queue.Queue` internals (blocking `put`/`get`, condition variables) are foreign library code.
  The model keeps only the `full()`/`empty()` checks that the code performs before each call.
- Wall-clock time (`time.time()`, `time.sleep`) is left out. Clock readings are parameters:
  `now` for `Enqueue`/`Tick`, a list of readings for `Simulate`. Timestamps and waiting times
  are integers, not floats. `tick_duration` is not modelled.
- `ProcessSimultaneousSubmissions` gives all submissions of one call the same clock reading.
  The source reads the clock once per thread.
- Console output is left out: the aging and expiry log lines, the "queue is empty" message,
  `QueueVisualizer.display_queue_status`, the status display at the end of `tick`, and
  visualization_reporting.py. `Job.__repr__` is also left out.
- The empty stubs `PriorityQueue` and `JobExpiryManager` and the demo `run_task5_demo`
  (with its random priorities) are left out. The expiry time is a plain field of
  `EventSimulator`.
- `QueueManager` with a negative capacity (Python builds an empty list and then fails on
  indexing) is not modelled: capacity is a natural number.
- `apply_priority_aging`'s default `max_priority=10` is not modelled: callers pass the bound.
- The default arguments `QueueManager(capacity=10)` (queue_management.py:16) and
  `EventSimulator(aging_interval=5)` (event_simulation.py:116) are not modelled: Dafny has no
  default parameters, so callers pass these values.
- concurentjob Sbmission.py, an earlier copy of the manager, is not part of this model.
