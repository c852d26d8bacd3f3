/**
 * The priority-aging pass of priority_aging.py, run on a QueueManager ring:
 * age the jobs that waited long enough, sort them by priority and waiting
 * time (stably), and rebuild the ring from slot 0.
 */
module PriorityAging {
  import opened Options
  import opened QueueManagement

  /**
   * One job's aging step: the priority goes up by exactly one when the job
   * waited at least `agingInterval` and is still below `maxPriority`.
   */
  function AgeJob(job: Job, agingInterval: int, maxPriority: int): (r: Job)
    ensures r.userId == job.userId && r.jobId == job.jobId && r.waitingTime == job.waitingTime
    ensures r.priority == job.priority || r.priority == job.priority + 1
    ensures r.priority > job.priority <==> job.waitingTime >= agingInterval && job.priority < maxPriority
    ensures job.priority <= maxPriority ==> r.priority <= maxPriority
    ensures job.priority >= maxPriority ==> r == job
  {
    if job.waitingTime >= agingInterval && job.priority < maxPriority then
      job.(priority := job.priority + 1)
    else
      job
  }

  /** The aging step applied to every job, in queue order. */
  function AgeAll(jobs: seq<Job>, agingInterval: int, maxPriority: int): seq<Job>
  {
    seq(|jobs|, i requires 0 <= i < |jobs| => AgeJob(jobs[i], agingInterval, maxPriority))
  }

  /**
   * `a` may stay ahead of `b` under the sort key `(-priority, -waiting_time)`:
   * higher priority first, then longer waiting.
   */
  predicate Precedes(a: Job, b: Job)
  {
    a.priority > b.priority || (a.priority == b.priority && a.waitingTime >= b.waitingTime)
  }

  ghost predicate Sorted(s: seq<Job>)
  {
    forall i, j :: 0 <= i < j < |s| ==> Precedes(s[i], s[j])
  }

  /**
   * Inserts `x` behind the last job it does not outrank, scanning from the
   * back; a job with an equal key stays ahead of `x`, which makes the sort
   * stable.
   */
  function Insert(t: seq<Job>, x: Job): seq<Job>
  {
    if t == [] || Precedes(t[|t| - 1], x) then t + [x]
    else Insert(t[..|t| - 1], x) + [t[|t| - 1]]
  }

  /** Stable insertion sort by `Precedes`, the reference for `jobs.sort`. */
  function SortJobs(s: seq<Job>): seq<Job>
  {
    if s == [] then [] else Insert(SortJobs(s[..|s| - 1]), s[|s| - 1])
  }

  /** What one aging pass does to the ring's contents. */
  function AgingPass(jobs: seq<Job>, agingInterval: int, maxPriority: int): seq<Job>
  {
    SortJobs(AgeAll(jobs, agingInterval, maxPriority))
  }

  /** The jobs of `s` whose sort key is exactly `(priority, waitingTime)`, in order. */
  function WithKey(s: seq<Job>, priority: int, waitingTime: int): seq<Job>
  {
    if s == [] then []
    else
      var last := s[|s| - 1];
      WithKey(s[..|s| - 1], priority, waitingTime)
        + (if last.priority == priority && last.waitingTime == waitingTime then [last] else [])
  }

  /** The fields an aging pass must not change: submitter, job id, waiting time. */
  function Identity(job: Job): (string, string, int)
  {
    (job.userId, job.jobId, job.waitingTime)
  }

  function Identities(s: seq<Job>): seq<(string, string, int)>
  {
    seq(|s|, i requires 0 <= i < |s| => Identity(s[i]))
  }

  // ---------------------------------------------------------------------------
  // Insertion

  lemma {:induction false} InsertSorted(t: seq<Job>, x: Job)
    requires Sorted(t)
    ensures Sorted(Insert(t, x))
  {
    if t == [] || Precedes(t[|t| - 1], x) {
    } else {
      var init, last := t[..|t| - 1], t[|t| - 1];
      InsertSorted(init, x);
      InsertMembers(init, x);
      var r := Insert(init, x);
      assert Insert(t, x) == r + [last];
      forall i, j | 0 <= i < j < |r| + 1
        ensures Precedes((r + [last])[i], (r + [last])[j])
      {
        if j == |r| {
          var y := r[i];
          assert y in multiset(r);
          if y != x {
            assert y in multiset(init);
            var k :| 0 <= k < |init| && init[k] == y;
            assert Precedes(t[k], t[|t| - 1]);
          }
        }
      }
    }
  }

  lemma {:induction false} InsertMembers(t: seq<Job>, x: Job)
    ensures multiset(Insert(t, x)) == multiset(t) + multiset{x}
    ensures |Insert(t, x)| == |t| + 1
  {
    if t == [] || Precedes(t[|t| - 1], x) {
    } else {
      var init, last := t[..|t| - 1], t[|t| - 1];
      InsertMembers(init, x);
      assert t == init + [last];
    }
  }

  lemma {:induction false} InsertIdentities(t: seq<Job>, x: Job)
    ensures multiset(Identities(Insert(t, x))) == multiset(Identities(t)) + multiset{Identity(x)}
  {
    if t == [] || Precedes(t[|t| - 1], x) {
      assert Identities(t + [x]) == Identities(t) + [Identity(x)];
    } else {
      var init, last := t[..|t| - 1], t[|t| - 1];
      InsertIdentities(init, x);
      assert Identities(Insert(init, x) + [last]) == Identities(Insert(init, x)) + [Identity(last)];
      assert Identities(t) == Identities(init) + [Identity(last)];
    }
  }

  lemma WithKeyAppend(s: seq<Job>, x: Job, priority: int, waitingTime: int)
    ensures WithKey(s + [x], priority, waitingTime)
      == WithKey(s, priority, waitingTime) + WithKey([x], priority, waitingTime)
  {
    assert (s + [x])[..|s|] == s;
  }

  lemma {:induction false} InsertStable(t: seq<Job>, x: Job, priority: int, waitingTime: int)
    ensures WithKey(Insert(t, x), priority, waitingTime)
      == WithKey(t, priority, waitingTime) + WithKey([x], priority, waitingTime)
  {
    if t == [] || Precedes(t[|t| - 1], x) {
      WithKeyAppend(t, x, priority, waitingTime);
    } else {
      var init, last := t[..|t| - 1], t[|t| - 1];
      InsertStable(init, x, priority, waitingTime);
      WithKeyAppend(Insert(init, x), last, priority, waitingTime);
      WithKeyAppend(init, last, priority, waitingTime);
      assert t == init + [last];
      assert WithKey([x], priority, waitingTime) == [] || WithKey([last], priority, waitingTime) == [] by {
        assert WithKey([x], priority, waitingTime) == (if x.priority == priority && x.waitingTime == waitingTime then [x] else []);
        assert WithKey([last], priority, waitingTime) == (if last.priority == priority && last.waitingTime == waitingTime then [last] else []);
      }
    }
  }

  // ---------------------------------------------------------------------------
  // The sort

  /** `jobs.sort(key=...)` leaves the jobs ordered highest priority, then longest wait, first. */
  lemma {:induction false} SortJobsSorted(s: seq<Job>)
    ensures Sorted(SortJobs(s))
  {
    if s != [] {
      SortJobsSorted(s[..|s| - 1]);
      InsertSorted(SortJobs(s[..|s| - 1]), s[|s| - 1]);
    }
  }

  /** The sort neither drops nor adds a job. */
  lemma {:induction false} SortJobsPermutes(s: seq<Job>)
    ensures multiset(SortJobs(s)) == multiset(s)
    ensures |SortJobs(s)| == |s|
  {
    if s != [] {
      SortJobsPermutes(s[..|s| - 1]);
      InsertMembers(SortJobs(s[..|s| - 1]), s[|s| - 1]);
      assert s == s[..|s| - 1] + [s[|s| - 1]];
    }
  }

  /** The sort is stable: jobs tied on both keys keep their earlier order. */
  lemma {:induction false} SortJobsStable(s: seq<Job>, priority: int, waitingTime: int)
    ensures WithKey(SortJobs(s), priority, waitingTime) == WithKey(s, priority, waitingTime)
  {
    if s != [] {
      var init, last := s[..|s| - 1], s[|s| - 1];
      SortJobsStable(init, priority, waitingTime);
      InsertStable(SortJobs(init), last, priority, waitingTime);
      WithKeyAppend(init, last, priority, waitingTime);
      assert s == init + [last];
    }
  }

  lemma {:induction false} SortJobsIdentities(s: seq<Job>)
    ensures multiset(Identities(SortJobs(s))) == multiset(Identities(s))
  {
    if s != [] {
      var init, last := s[..|s| - 1], s[|s| - 1];
      SortJobsIdentities(init);
      InsertIdentities(SortJobs(init), last);
      assert Identities(s) == Identities(init) + [Identity(last)];
    }
  }

  // ---------------------------------------------------------------------------
  // The whole pass

  /**
   * After a pass the jobs are the aged jobs, none dropped or added, ordered by
   * priority then waiting time, with ties in their earlier queue order.
   */
  lemma AgingPassIsSortedPermutation(jobs: seq<Job>, agingInterval: int, maxPriority: int)
    ensures |AgingPass(jobs, agingInterval, maxPriority)| == |jobs|
    ensures multiset(AgingPass(jobs, agingInterval, maxPriority)) == multiset(AgeAll(jobs, agingInterval, maxPriority))
    ensures Sorted(AgingPass(jobs, agingInterval, maxPriority))
    ensures forall p, w :: WithKey(AgingPass(jobs, agingInterval, maxPriority), p, w)
                         == WithKey(AgeAll(jobs, agingInterval, maxPriority), p, w)
  {
    var aged := AgeAll(jobs, agingInterval, maxPriority);
    SortJobsPermutes(aged);
    SortJobsSorted(aged);
    forall p, w ensures WithKey(SortJobs(aged), p, w) == WithKey(aged, p, w) {
      SortJobsStable(aged, p, w);
    }
  }

  /**
   * Every submitter, job id and waiting time present before the pass is
   * present after it, as often as before.
   */
  lemma AgingPassKeepsIdentities(jobs: seq<Job>, agingInterval: int, maxPriority: int)
    ensures multiset(Identities(AgingPass(jobs, agingInterval, maxPriority))) == multiset(Identities(jobs))
  {
    var aged := AgeAll(jobs, agingInterval, maxPriority);
    assert Identities(aged) == Identities(jobs);
    SortJobsIdentities(aged);
  }

  /**
   * Each job after the pass is one job before it, aged; so no priority is
   * lifted past `maxPriority` and a job at or above it is left alone.
   */
  lemma AgingPassJobs(jobs: seq<Job>, agingInterval: int, maxPriority: int, x: Job)
    requires x in AgingPass(jobs, agingInterval, maxPriority)
    ensures exists i :: 0 <= i < |jobs| && x == AgeJob(jobs[i], agingInterval, maxPriority)
    ensures (forall j :: j in jobs ==> j.priority <= maxPriority) ==> x.priority <= maxPriority
  {
    var aged := AgeAll(jobs, agingInterval, maxPriority);
    SortJobsPermutes(aged);
    assert x in multiset(SortJobs(aged));
    assert x in aged;
    var i :| 0 <= i < |aged| && aged[i] == x;
    assert jobs[i] in jobs;
  }

  // ---------------------------------------------------------------------------
  // The in-place code

  /**
   * One step of the in-place sort: `a[i]` is moved left past every job of
   * the sorted prefix `a[..i]` that it outranks.
   */
  method InsertAt(a: array<Job>, i: nat)
    requires i < a.Length
    modifies a
    ensures a[..i + 1] == Insert(old(a[..i]), old(a[i]))
    ensures a[i + 1..] == old(a[i + 1..])
  {
    var x := a[i];
    ghost var t := a[..i];
    var j := i;
    while j > 0 && !Precedes(a[j - 1], x)
      invariant 0 <= j <= i
      invariant a[..j] == t[..j]
      invariant a[j + 1..i + 1] == t[j..]
      invariant a[i + 1..] == old(a[i + 1..])
      invariant Insert(t, x) == Insert(t[..j], x) + t[j..]
    {
      assert t[..j][..j - 1] == t[..j - 1];
      assert t[j - 1..] == [t[j - 1]] + t[j..];
      a[j] := a[j - 1];
      j := j - 1;
    }
    a[j] := x;
    assert a[..i + 1] == t[..j] + [x] + t[j..];
  }

  /** `jobs.sort(key=lambda j: (-j.priority, -j.waiting_time))`, in place. */
  method SortByPriorityThenWait(a: array<Job>)
    modifies a
    ensures a[..] == SortJobs(old(a[..]))
  {
    ghost var input := a[..];
    for i := 0 to a.Length
      invariant a[..i] == SortJobs(input[..i])
      invariant a[i..] == input[i..]
    {
      InsertAt(a, i);
      assert input[..i + 1][..i] == input[..i];
      assert input[i] == old(a[..])[i];
    }
    assert a[..] == a[..a.Length];
    assert input == input[..a.Length];
  }

  /**
   * The extraction loop of `apply_priority_aging`: walks the ring from `head`
   * and collects its jobs in queue order, aging each one on the way.
   */
  method ExtractAged(q: QueueManager, agingInterval: int, maxPriority: int) returns (jobs: seq<Job>)
    requires q.Valid()
    ensures jobs == AgeAll(q.Contents, agingInterval, maxPriority)
  {
    jobs := [];
    if q.size == 0 {
      return;
    }
    var index := q.head;
    for i := 0 to q.size
      invariant index == Slot(q.head, i, q.capacity)
      invariant jobs == AgeAll(q.Contents[..i], agingInterval, maxPriority)
    {
      var slot := q.queue[index];
      if slot.Some? {
        var job := slot.value;
        if job.waitingTime >= agingInterval && job.priority < maxPriority {
          job := job.(priority := job.priority + 1);
        }
        jobs := jobs + [job];
      }
      RingMod(index + 1, q.capacity);
      index := (index + 1) % q.capacity;
    }
    assert q.Contents[..q.size] == q.Contents;
  }

  /**
   * The rebuild loop of `apply_priority_aging`: a fresh empty ring refilled
   * from slot 0 by `enqueue_job`, each stored job then given back the
   * waiting time of the job it copies.
   */
  method Rebuild(q: QueueManager, sorted: array<Job>)
    requires q.Valid() && sorted.Length <= q.capacity
    modifies q
    ensures q.Valid() && fresh(q.queue)
    ensures q.Contents == sorted[..]
    ensures q.head == 0 && q.size == sorted.Length && q.tail == q.size - 1
    ensures forall k :: q.size <= k < q.capacity ==> q.queue[k] == None
  {
    q.queue := new Option<Job>[q.capacity](_ => None);
    q.head, q.tail, q.size := 0, -1, 0;
    q.Contents := [];
    for i := 0 to sorted.Length
      invariant q.Valid() && fresh(q.queue)
      invariant q.head == 0 && q.size == i && q.tail == i - 1
      invariant q.Contents == sorted[..i]
      invariant forall k :: i <= k < q.capacity ==> q.queue[k] == None
    {
      var job := sorted[i];
      var outcome := q.EnqueueJob(job.userId, job.jobId, job.priority);
      // Restore the waiting time, which the enqueue reset to 0.
      q.queue[q.tail] := Some(q.queue[q.tail].value.(waitingTime := job.waitingTime));
      q.Contents := q.Contents[..i] + [job];
      assert sorted[..i + 1] == sorted[..i] + [job];
    }
    assert sorted[..] == sorted[..sorted.Length];
  }

  /**
   * `apply_priority_aging(self, aging_interval, max_priority)`: an empty ring
   * is left alone; otherwise the ring is rebuilt from slot 0 holding the aged
   * jobs in sorted order, each with the waiting time it had before, even
   * though `enqueue_job` creates the stored job with waiting time 0.
   */
  method ApplyPriorityAging(q: QueueManager, agingInterval: int, maxPriority: int)
    requires q.Valid()
    modifies q
    ensures q.Valid()
    ensures old(q.size) == 0 ==>
      q.queue == old(q.queue) && q.head == old(q.head) && q.tail == old(q.tail) && q.size == 0
    ensures old(q.size) > 0 ==>
      && fresh(q.queue)
      && q.Contents == AgingPass(old(q.Contents), agingInterval, maxPriority)
      && q.head == 0 && q.size == old(q.size) && q.tail == q.size - 1
      && (forall k :: q.size <= k < q.capacity ==> q.queue[k] == None)
  {
    if q.IsEmpty() {
      return;
    }
    var jobs := ExtractAged(q, agingInterval, maxPriority);
    var sorted := new Job[|jobs|](i requires 0 <= i < |jobs| => jobs[i]);
    assert sorted[..] == jobs;
    SortByPriorityThenWait(sorted);
    SortJobsPermutes(jobs);
    Rebuild(q, sorted);
  }
}
