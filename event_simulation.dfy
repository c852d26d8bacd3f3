/**
 * The bounded job manager and the tick simulator of event_simulation.py.
 * The standard-library `Queue(maxsize=capacity)` is a sequence of jobs,
 * oldest first; clock readings are passed in as `now`; calls are sequential.
 */
module EventSimulation {
  import opened Options

  /** A job record; the waiting time is refreshed from `timestamp` on every tick. */
  datatype Job = Job(userId: string, jobId: string, priority: int, timestamp: int, waitingTime: int)

  /** The dictionary returned by `get_queue_status`. */
  datatype QueueStatus = QueueStatus(size: nat, isEmpty: bool, isFull: bool, capacity: int)

  // ---------------------------------------------------------------------------
  // Job ids: `f"JOB-{counter:04d}"`

  predicate IsDigit(c: char)
  {
    '0' as int <= c as int <= '9' as int
  }

  function DigitChar(d: int): (c: char)
    requires 0 <= d < 10
    ensures IsDigit(c) && c as int - '0' as int == d
  {
    ('0' as int + d) as char
  }

  /** The decimal numeral of `n`, without leading zeros. */
  function Decimal(n: nat): (s: string)
    ensures |s| >= 1 && forall i :: 0 <= i < |s| ==> IsDigit(s[i])
  {
    if n < 10 then [DigitChar(n)] else Decimal(n / 10) + [DigitChar(n % 10)]
  }

  /** `%0<width>d`: zeros are put in front until the numeral is `width` long. */
  function ZeroPad(s: string, width: nat): (r: string)
    ensures |r| == if |s| >= width then |s| else width
    ensures (forall i :: 0 <= i < |s| ==> IsDigit(s[i])) ==> forall i :: 0 <= i < |r| ==> IsDigit(r[i])
    decreases width - |s|
  {
    if |s| >= width then s else ZeroPad(['0'] + s, width)
  }

  /** The job id for counter value `n`. */
  function FormatJobId(n: nat): (id: string)
    ensures |id| >= 8 && id[..4] == "JOB-"
    ensures forall i :: 4 <= i < |id| ==> IsDigit(id[i])
  {
    "JOB-" + ZeroPad(Decimal(n), 4)
  }

  /** The number a string of decimal digits stands for. */
  function DigitsValue(s: string): nat
    requires forall i :: 0 <= i < |s| ==> IsDigit(s[i])
  {
    if s == [] then 0
    else
      var d := s[|s| - 1];
      assert IsDigit(d);
      DigitsValue(s[..|s| - 1]) * 10 + (d as int - '0' as int)
  }

  /** Reads a counter value back from an id of the form `JOB-<digits>`. */
  function ParseJobId(id: string): Option<nat>
  {
    if |id| > 4 && id[..4] == "JOB-" && forall i :: 4 <= i < |id| ==> IsDigit(id[i]) then
      Some(DigitsValue(id[4..]))
    else
      None
  }

  lemma {:induction false} DecimalValue(n: nat)
    ensures DigitsValue(Decimal(n)) == n
  {
    if n >= 10 {
      DecimalValue(n / 10);
      var s := Decimal(n / 10) + [DigitChar(n % 10)];
      assert s[..|s| - 1] == Decimal(n / 10);
    }
  }

  lemma {:induction false} LeadingZeroValue(s: string)
    requires forall i :: 0 <= i < |s| ==> IsDigit(s[i])
    ensures DigitsValue(['0'] + s) == DigitsValue(s)
  {
    if s != [] {
      LeadingZeroValue(s[..|s| - 1]);
      assert (['0'] + s)[..|s|] == ['0'] + s[..|s| - 1];
    }
  }

  lemma {:induction false} ZeroPadValue(s: string, width: nat)
    requires forall i :: 0 <= i < |s| ==> IsDigit(s[i])
    ensures DigitsValue(ZeroPad(s, width)) == DigitsValue(s)
    decreases width - |s|
  {
    if |s| < width {
      LeadingZeroValue(s);
      ZeroPadValue(['0'] + s, width);
    }
  }

  /** Formatting an id loses nothing: the counter value can be read back. */
  lemma JobIdRoundTrip(n: nat)
    ensures ParseJobId(FormatJobId(n)) == Some(n)
  {
    var id := FormatJobId(n);
    assert id[4..] == ZeroPad(Decimal(n), 4);
    DecimalValue(n);
    ZeroPadValue(Decimal(n), 4);
  }

  /** Different counter values give different ids. */
  lemma JobIdInjective(m: nat, n: nat)
    requires m != n
    ensures FormatJobId(m) != FormatJobId(n)
  {
    JobIdRoundTrip(m);
    JobIdRoundTrip(n);
  }

  // ---------------------------------------------------------------------------
  // The manager

  /** How many of the results hold a job. */
  function Issued(results: seq<Option<Job>>): nat
  {
    if results == [] then 0
    else Issued(results[..|results| - 1]) + (if results[|results| - 1].Some? then 1 else 0)
  }

  /** The jobs of the results that hold one, in order. */
  function IssuedJobs(results: seq<Option<Job>>): (jobs: seq<Job>)
    ensures |jobs| == Issued(results)
  {
    if results == [] then []
    else
      IssuedJobs(results[..|results| - 1])
        + (match results[|results| - 1] case Some(j) => [j] case None => [])
  }

  lemma IssuedAppend(results: seq<Option<Job>>, r: Option<Job>)
    ensures Issued(results + [r]) == Issued(results) + (if r.Some? then 1 else 0)
    ensures IssuedJobs(results + [r]) == IssuedJobs(results) + (match r case Some(j) => [j] case None => [])
  {
    assert (results + [r])[..|results|] == results;
  }

  /** Jobs issued with consecutive counter values have pairwise different ids. */
  lemma IssuedIdsDistinct(results: seq<Option<Job>>, submissions: seq<(string, int)>, counter: nat, now: int)
    requires |results| == |submissions|
    requires forall i :: 0 <= i < |results| && results[i].Some? ==>
      results[i].value == Job(submissions[i].0, FormatJobId(counter + i + 1), submissions[i].1, now, 0)
    ensures forall i, j :: 0 <= i < j < |results| && results[i].Some? && results[j].Some? ==>
      results[i].value.jobId != results[j].value.jobId
  {
    forall i, j | 0 <= i < j < |results| && results[i].Some? && results[j].Some?
      ensures results[i].value.jobId != results[j].value.jobId
    {
      JobIdInjective(counter + i + 1, counter + j + 1);
    }
  }

  function Min(a: int, b: int): int
  {
    if a <= b then a else b
  }

  class ConcurrentQueueManager {
    /** `maxsize` of the underlying queue; 0 or less means unbounded. */
    const capacity: int
    /** The queue's contents, oldest first. */
    var queue: seq<Job>
    var jobCounter: nat

    ghost predicate Valid()
      reads this
    {
      capacity > 0 ==> |queue| <= capacity
    }

    /** `Queue.full()`: only a bounded queue is ever full. */
    predicate Full()
      reads this
      requires Valid()
      ensures Full() <==> capacity > 0 && |queue| == capacity
    {
      0 < capacity <= |queue|
    }

    constructor (capacity: int)
      ensures Valid()
      ensures this.capacity == capacity && queue == [] && jobCounter == 0
    {
      this.capacity := capacity;
      queue := [];
      jobCounter := 0;
    }

    /** `generate_job_id`: advances the counter by one and formats the new value. */
    method GenerateJobId() returns (id: string)
      modifies this
      ensures jobCounter == old(jobCounter) + 1 && queue == old(queue)
      ensures ParseJobId(id) == Some(jobCounter)
      ensures id == FormatJobId(jobCounter)
    {
      jobCounter := jobCounter + 1;
      id := FormatJobId(jobCounter);
      JobIdRoundTrip(jobCounter);
    }

    /**
     * `enqueue`: `None` and no change when the queue is full; an existing job
     * object is appended as it is; otherwise a new job with a fresh id,
     * timestamp `now` and waiting time 0 is appended and returned.
     */
    method Enqueue(userId: string, priority: int, jobObj: Option<Job>, now: int) returns (r: Option<Job>)
      requires Valid()
      modifies this
      ensures Valid()
      ensures old(Full()) ==> r == None && queue == old(queue) && jobCounter == old(jobCounter)
      ensures !old(Full()) && jobObj.Some? ==>
        r == jobObj && queue == old(queue) + [jobObj.value] && jobCounter == old(jobCounter)
      ensures !old(Full()) && jobObj.None? ==>
        && jobCounter == old(jobCounter) + 1
        && r == Some(Job(userId, FormatJobId(jobCounter), priority, now, 0))
        && queue == old(queue) + [r.value]
    {
      if Full() {
        return None;
      }
      if jobObj.Some? {
        queue := queue + [jobObj.value];
        return jobObj;
      }
      var id := GenerateJobId();
      var job := Job(userId, id, priority, now, 0);
      queue := queue + [job];
      return Some(job);
    }

    /** `dequeue`: `None` on an empty queue, otherwise the oldest job, removed. */
    method Dequeue() returns (r: Option<Job>)
      requires Valid()
      modifies this
      ensures Valid() && jobCounter == old(jobCounter)
      ensures r == None <==> old(queue) == []
      ensures r.Some? ==> r.value == old(queue)[0] && queue == old(queue)[1..]
      ensures r == None ==> queue == old(queue)
    {
      if queue == [] {
        return None;
      }
      r := Some(queue[0]);
      queue := queue[1..];
    }

    /**
     * `process_simultaneous_submissions`, one submission after another: the
     * first submissions fill the free slots and get consecutive new ids, the
     * rest get `None`.
     */
    method ProcessSimultaneousSubmissions(submissions: seq<(string, int)>, now: int)
      returns (results: seq<Option<Job>>)
      requires Valid()
      modifies this
      ensures Valid()
      ensures |results| == |submissions|
      ensures forall i :: 0 <= i < |results| ==>
        (results[i].Some? <==> capacity <= 0 || |old(queue)| + i < capacity)
      ensures forall i :: 0 <= i < |results| && results[i].Some? ==>
        results[i].value == Job(submissions[i].0, FormatJobId(old(jobCounter) + i + 1), submissions[i].1, now, 0)
      ensures Issued(results) == if capacity > 0 then Min(|submissions|, capacity - |old(queue)|) else |submissions|
      ensures forall i, j :: 0 <= i < j < |results| && results[i].Some? && results[j].Some? ==>
        results[i].value.jobId != results[j].value.jobId
      ensures jobCounter == old(jobCounter) + Issued(results)
      ensures queue == old(queue) + IssuedJobs(results)
    {
      results := [];
      for i := 0 to |submissions|
        invariant Valid()
        invariant |results| == i
        invariant forall k :: 0 <= k < i ==>
          (results[k].Some? <==> capacity <= 0 || |old(queue)| + k < capacity)
        invariant forall k :: 0 <= k < i && results[k].Some? ==>
          results[k].value == Job(submissions[k].0, FormatJobId(old(jobCounter) + k + 1), submissions[k].1, now, 0)
        invariant Issued(results) == if capacity > 0 then Min(i, capacity - |old(queue)|) else i
        invariant jobCounter == old(jobCounter) + Issued(results)
        invariant queue == old(queue) + IssuedJobs(results)
      {
        var (userId, priority) := submissions[i];
        assert Full() <==> !(capacity <= 0 || |old(queue)| + i < capacity);
        assert !Full() ==> jobCounter == old(jobCounter) + i;
        var job := Enqueue(userId, priority, None, now);
        IssuedAppend(results, job);
        results := results + [job];
      }
      IssuedIdsDistinct(results, submissions, old(jobCounter), now);
    }

    /** `get_queue_status`: a snapshot of the queue's size and bounds. */
    function GetQueueStatus(): (status: QueueStatus)
      reads this
      requires Valid()
      ensures status.size == |queue| && status.capacity == capacity
      ensures status.isEmpty <==> status.size == 0
      ensures status.isFull <==> status.capacity > 0 && status.size == status.capacity
    {
      QueueStatus(|queue|, queue == [], Full(), capacity)
    }
  }

  // ---------------------------------------------------------------------------
  // What one tick does to the queue

  /** The waiting time recomputed from the clock reading `now`. */
  function Refresh(job: Job, now: int): (r: Job)
    ensures r.waitingTime == now - job.timestamp
    ensures r.(waitingTime := job.waitingTime) == job
  {
    job.(waitingTime := now - job.timestamp)
  }

  /**
   * The tick's aging step, `min(priority + 1, 10)` for a job that waited at
   * least `agingInterval`: a job below 10 goes up by one, a job at 10 stays,
   * and a job above 10 is brought down to 10.
   */
  function AgeOnTick(job: Job, agingInterval: int): (r: Job)
    ensures r.(priority := job.priority) == job
    ensures job.waitingTime < agingInterval ==> r == job
    ensures job.waitingTime >= agingInterval && job.priority < 10 ==> r.priority == job.priority + 1
    ensures job.waitingTime >= agingInterval && job.priority >= 10 ==> r.priority == 10
  {
    if job.waitingTime >= agingInterval then job.(priority := Min(job.priority + 1, 10)) else job
  }

  /** A drained job after its waiting time is refreshed and it is aged. */
  function Processed(job: Job, now: int, agingInterval: int): Job
  {
    AgeOnTick(Refresh(job, now), agingInterval)
  }

  /**
   * The queue after one tick at `now`: every job processed, those that
   * waited at least `expiryTime` dropped, the rest kept in their order.
   */
  function TickSurvivors(queue: seq<Job>, now: int, agingInterval: int, expiryTime: int): seq<Job>
  {
    if queue == [] then []
    else
      var job := Processed(queue[|queue| - 1], now, agingInterval);
      TickSurvivors(queue[..|queue| - 1], now, agingInterval, expiryTime)
        + (if job.waitingTime < expiryTime then [job] else [])
  }

  /** The positions of the jobs of `queue` that a tick at `now` keeps, in order. */
  function Kept(queue: seq<Job>, now: int, expiryTime: int): seq<int>
  {
    if queue == [] then []
    else
      Kept(queue[..|queue| - 1], now, expiryTime)
        + (if now - queue[|queue| - 1].timestamp < expiryTime then [|queue| - 1] else [])
  }

  /**
   * A tick keeps exactly the jobs whose refreshed waiting time is below
   * `expiryTime`, processed, in their pre-tick order.
   */
  lemma {:induction false} TickKeepsUnexpiredInOrder(queue: seq<Job>, now: int, agingInterval: int, expiryTime: int)
    ensures |TickSurvivors(queue, now, agingInterval, expiryTime)| == |Kept(queue, now, expiryTime)|
    ensures forall k :: 0 <= k < |Kept(queue, now, expiryTime)| ==>
      && 0 <= Kept(queue, now, expiryTime)[k] < |queue|
      && TickSurvivors(queue, now, agingInterval, expiryTime)[k]
         == Processed(queue[Kept(queue, now, expiryTime)[k]], now, agingInterval)
    ensures forall k, l :: 0 <= k < l < |Kept(queue, now, expiryTime)| ==>
      Kept(queue, now, expiryTime)[k] < Kept(queue, now, expiryTime)[l]
    ensures forall i :: 0 <= i < |queue| ==>
      (i in Kept(queue, now, expiryTime) <==> now - queue[i].timestamp < expiryTime)
  {
    if queue != [] {
      var init := queue[..|queue| - 1];
      var last := queue[|queue| - 1];
      var job := Processed(last, now, agingInterval);
      TickKeepsUnexpiredInOrder(init, now, agingInterval, expiryTime);
      assert forall i :: 0 <= i < |init| ==> init[i] == queue[i];
      assert job.waitingTime == now - last.timestamp;
      assert Kept(queue, now, expiryTime)
        == Kept(init, now, expiryTime) + (if now - last.timestamp < expiryTime then [|queue| - 1] else []);
      assert TickSurvivors(queue, now, agingInterval, expiryTime)
        == TickSurvivors(init, now, agingInterval, expiryTime) + (if job.waitingTime < expiryTime then [job] else []);
    }
  }

  /**
   * Every job left after a tick carries its refreshed waiting time, which is
   * below `expiryTime`, and a tick never adds jobs.
   */
  lemma {:induction false} TickSurvivorsUnexpired(queue: seq<Job>, now: int, agingInterval: int, expiryTime: int)
    ensures |TickSurvivors(queue, now, agingInterval, expiryTime)| <= |queue|
    ensures forall j :: j in TickSurvivors(queue, now, agingInterval, expiryTime) ==>
      j.waitingTime == now - j.timestamp && j.waitingTime < expiryTime
  {
    if queue != [] {
      TickSurvivorsUnexpired(queue[..|queue| - 1], now, agingInterval, expiryTime);
    }
  }

  /** The queue after a run of ticks at the clock readings `nows`, in order. */
  function RunTicks(queue: seq<Job>, nows: seq<int>, agingInterval: int, expiryTime: int): seq<Job>
  {
    if nows == [] then queue
    else TickSurvivors(RunTicks(queue, nows[..|nows| - 1], agingInterval, expiryTime), nows[|nows| - 1], agingInterval, expiryTime)
  }

  /**
   * A simulation never grows the queue, and after at least one tick every job
   * left is unexpired at the last clock reading.
   */
  lemma {:induction false} RunTicksShrinks(queue: seq<Job>, nows: seq<int>, agingInterval: int, expiryTime: int)
    ensures |RunTicks(queue, nows, agingInterval, expiryTime)| <= |queue|
    ensures nows != [] ==> forall j :: j in RunTicks(queue, nows, agingInterval, expiryTime) ==>
      nows[|nows| - 1] - j.timestamp < expiryTime
  {
    if nows != [] {
      RunTicksShrinks(queue, nows[..|nows| - 1], agingInterval, expiryTime);
      TickSurvivorsUnexpired(RunTicks(queue, nows[..|nows| - 1], agingInterval, expiryTime), nows[|nows| - 1], agingInterval, expiryTime);
    }
  }

  // ---------------------------------------------------------------------------
  // The simulator

  class EventSimulator {
    const queueManager: ConcurrentQueueManager
    /** `expiry_manager.expiry_time`. */
    const expiryTime: int
    const agingInterval: int
    var tickCount: nat

    constructor (queueManager: ConcurrentQueueManager, expiryTime: int, agingInterval: int)
      ensures this.queueManager == queueManager && this.expiryTime == expiryTime
      ensures this.agingInterval == agingInterval && tickCount == 0
    {
      this.queueManager := queueManager;
      this.expiryTime := expiryTime;
      this.agingInterval := agingInterval;
      tickCount := 0;
    }

    /**
     * The drain loop of `tick`: empties the queue, oldest job first, and
     * gives each drained job its waiting time at `now`.
     */
    method Drain(now: int) returns (jobs: seq<Job>)
      requires queueManager.Valid()
      modifies queueManager
      ensures queueManager.Valid() && queueManager.queue == []
      ensures queueManager.jobCounter == old(queueManager.jobCounter)
      ensures |jobs| == |old(queueManager.queue)|
      ensures forall k :: 0 <= k < |jobs| ==> jobs[k] == Refresh(old(queueManager.queue)[k], now)
    {
      ghost var before := queueManager.queue;
      jobs := [];
      while queueManager.queue != []
        invariant queueManager.Valid() && queueManager.jobCounter == old(queueManager.jobCounter)
        invariant |jobs| + |queueManager.queue| == |before|
        invariant queueManager.queue == before[|jobs|..]
        invariant forall k :: 0 <= k < |jobs| ==> jobs[k] == Refresh(before[k], now)
        decreases |queueManager.queue|
      {
        var job := queueManager.Dequeue();
        if job.Some? {
          jobs := jobs + [job.value.(waitingTime := now - job.value.timestamp)];
        }
      }
    }

    /**
     * The aging and expiry loop of `tick` over the drained jobs: each job
     * that waited at least `agingInterval` is aged; the ones that waited
     * less than `expiryTime` are kept, in order.
     */
    method AgeAndExpire(jobs: seq<Job>, ghost drained: seq<Job>, now: int) returns (active: seq<Job>)
      requires |jobs| == |drained|
      requires forall k :: 0 <= k < |jobs| ==> jobs[k] == Refresh(drained[k], now)
      ensures active == TickSurvivors(drained, now, agingInterval, expiryTime)
    {
      active := [];
      for i := 0 to |jobs|
        invariant active == TickSurvivors(drained[..i], now, agingInterval, expiryTime)
      {
        var job := jobs[i];
        if job.waitingTime >= agingInterval {
          job := job.(priority := Min(job.priority + 1, 10));
        }
        // A job that waited at least `expiryTime` is dropped here.
        if job.waitingTime < expiryTime {
          active := active + [job];
        }
        assert drained[..i + 1][..i] == drained[..i];
      }
      assert drained[..|jobs|] == drained;
    }

    /** The reinsertion loop of `tick`: every survivor is enqueued as it is. */
    method Reinsert(active: seq<Job>, now: int)
      requires queueManager.Valid() && queueManager.queue == []
      requires queueManager.capacity > 0 ==> |active| <= queueManager.capacity
      modifies queueManager
      ensures queueManager.Valid() && queueManager.queue == active
      ensures queueManager.jobCounter == old(queueManager.jobCounter)
    {
      for i := 0 to |active|
        invariant queueManager.Valid() && queueManager.jobCounter == old(queueManager.jobCounter)
        invariant queueManager.queue == active[..i]
      {
        var _ := queueManager.Enqueue(active[i].userId, active[i].priority, Some(active[i]), now);
        assert active[..i + 1] == active[..i] + [active[i]];
      }
      assert active[..|active|] == active;
    }

    /**
     * `tick` at clock reading `now`: drain the queue, refresh and age every
     * job, drop the expired ones and put the rest back in drained order.
     */
    method Tick(now: int)
      requires queueManager.Valid()
      modifies this, queueManager
      ensures queueManager.Valid()
      ensures tickCount == old(tickCount) + 1
      ensures queueManager.queue == TickSurvivors(old(queueManager.queue), now, agingInterval, expiryTime)
      ensures queueManager.jobCounter == old(queueManager.jobCounter)
    {
      tickCount := tickCount + 1;
      ghost var before := queueManager.queue;
      var jobs := Drain(now);
      var active := AgeAndExpire(jobs, before, now);
      TickSurvivorsUnexpired(before, now, agingInterval, expiryTime);
      Reinsert(active, now);
    }

    /** `simulate`: one tick per clock reading in `nows`, in order. */
    method Simulate(nows: seq<int>)
      requires queueManager.Valid()
      modifies this, queueManager
      ensures queueManager.Valid()
      ensures tickCount == old(tickCount) + |nows|
      ensures queueManager.queue == RunTicks(old(queueManager.queue), nows, agingInterval, expiryTime)
      ensures queueManager.jobCounter == old(queueManager.jobCounter)
    {
      for i := 0 to |nows|
        invariant queueManager.Valid()
        invariant tickCount == old(tickCount) + i
        invariant queueManager.jobCounter == old(queueManager.jobCounter)
        invariant queueManager.queue == RunTicks(old(queueManager.queue), nows[..i], agingInterval, expiryTime)
      {
        Tick(nows[i]);
        assert nows[..i + 1][..i] == nows[..i];
      }
      assert nows[..|nows|] == nows;
    }
  }
}
