/**
 * The circular job buffer of queue_management.py: a fixed-capacity ring of
 * optional job slots with `head`, `tail` and `size` indices.
 */
module QueueManagement {
  import opened Options

  /** One submitted job. A freshly built job has waiting time 0. */
  datatype Job = Job(userId: string, jobId: string, priority: int, waitingTime: int)

  /** `enqueue_job` either stores the job or raises `OverflowError`. */
  datatype EnqueueResult = Enqueued | OverflowError

  /**
   * Position of the `i`-th occupied slot of a ring of capacity `c` that
   * starts at `h`, written without `%` so that the proofs stay linear.
   */
  function Slot(h: int, i: int, c: int): (k: int)
    requires 0 <= h < c && 0 <= i <= c
    ensures 0 <= k < c
  {
    if h + i < c then h + i else h + i - c
  }

  /** `Slot` is the source's `(h + i) % c`. */
  lemma SlotIsMod(h: int, i: int, c: int)
    requires 0 <= h < c && 0 <= i <= c
    ensures Slot(h, i, c) == (h + i) % c
  {
    RingMod(h + i, c);
  }

  /** Euclidean `%` on the small range the ring indices can reach. */
  lemma RingMod(x: int, c: int)
    requires c > 0 && -c <= x < 2 * c
    ensures x % c == if x < 0 then x + c else if x < c then x else x - c
  {
  }

  class QueueManager {
    const capacity: nat
    var queue: array<Option<Job>>
    var head: int
    var tail: int
    var size: nat

    /** The jobs in the ring, oldest first. */
    ghost var Contents: seq<Job>

    /**
     * The ring invariant: `size` slots starting at `head` hold the contents in
     * order, every other slot is empty, and `tail` is the last occupied slot
     * (or -1 before the first insertion).
     */
    ghost predicate Valid()
      reads this, queue
    {
      && queue.Length == capacity
      && size == |Contents| <= capacity
      && -1 <= tail < capacity
      && (tail == -1 ==> head == 0 && size == 0)
      && (capacity == 0 ==> head == 0 && tail == -1)
      && (capacity > 0 ==> 0 <= head < capacity)
      && (tail != -1 ==> Slot(tail, 1, capacity) == Slot(head, size, capacity))
      && (forall i :: 0 <= i < size ==> queue[Slot(head, i, capacity)] == Some(Contents[i]))
      && (forall i :: size <= i < capacity ==> queue[Slot(head, i, capacity)] == None)
    }

    /** `QueueManager(capacity)`: every slot empty, `head` 0, `tail` -1. */
    constructor (capacity: nat)
      ensures Valid() && fresh(queue)
      ensures this.capacity == capacity && head == 0 && tail == -1 && size == 0
      ensures Contents == []
      ensures forall k :: 0 <= k < capacity ==> queue[k] == None
    {
      this.capacity := capacity;
      queue := new Option<Job>[capacity](_ => None);
      head, tail, size := 0, -1, 0;
      Contents := [];
    }

    /**
     * The source's tail bookkeeping: the slot after `tail` is the next free
     * one, and once a job has been stored `tail` is the slot of the newest.
     */
    lemma TailIsLastSlot()
      requires Valid()
      ensures capacity > 0 ==> (tail + 1) % capacity == (head + size) % capacity
      ensures tail != -1 ==> tail == (head + size - 1) % capacity
    {
      if tail != -1 {
        SlotIsMod(tail, 1, capacity);
        SlotIsMod(head, size, capacity);
        RingMod(head + size - 1, capacity);
      }
    }

    predicate IsEmpty()
      requires Valid()
      reads this, queue
      ensures IsEmpty() <==> Contents == []
    {
      size == 0
    }

    predicate IsFull()
      requires Valid()
      reads this, queue
      ensures IsFull() <==> |Contents| == capacity
    {
      size == capacity
    }

    /**
     * `enqueue_job`: on a full ring nothing changes and `OverflowError` is
     * reported; otherwise a new job with waiting time 0 is written at the slot
     * after `tail` and appended to the contents.
     */
    method EnqueueJob(userId: string, jobId: string, priority: int) returns (r: EnqueueResult)
      requires Valid()
      modifies this, queue
      ensures Valid() && queue == old(queue)
      ensures r == OverflowError <==> old(size) == capacity
      ensures r == OverflowError ==>
        head == old(head) && tail == old(tail) && size == old(size) &&
        queue[..] == old(queue[..]) && Contents == old(Contents)
      ensures r == Enqueued ==>
        && tail == (old(tail) + 1) % capacity
        && queue[tail] == Some(Job(userId, jobId, priority, 0))
        && (forall k :: 0 <= k < capacity && k != tail ==> queue[k] == old(queue[k]))
        && head == old(head) && size == old(size) + 1
        && Contents == old(Contents) + [Job(userId, jobId, priority, 0)]
    {
      if IsFull() {
        return OverflowError;
      }
      RingMod(tail + 1, capacity);
      tail := (tail + 1) % capacity;
      assert tail == Slot(head, size, capacity);
      queue[tail] := Some(Job(userId, jobId, priority, 0));
      size := size + 1;
      Contents := Contents + [Job(userId, jobId, priority, 0)];
      forall i | 0 <= i < size
        ensures queue[Slot(head, i, capacity)] == Some(Contents[i])
      {
        if i < size - 1 { assert Slot(head, i, capacity) != tail; }
      }
      r := Enqueued;
    }

    /**
     * `dequeue_job`: `None` on an empty ring; otherwise the job at `head` is
     * returned, its slot cleared and `head` advanced, which removes the
     * oldest job from the contents.
     */
    method DequeueJob() returns (r: Option<Job>)
      requires Valid()
      modifies this, queue
      ensures Valid() && queue == old(queue) && tail == old(tail)
      ensures r == None <==> old(size) == 0
      ensures r == None ==> head == old(head) && size == old(size) && queue[..] == old(queue[..])
      ensures r.Some? ==>
        && r == old(queue[head])
        && queue[old(head)] == None
        && (forall k :: 0 <= k < capacity && k != old(head) ==> queue[k] == old(queue[k]))
        && head == (old(head) + 1) % capacity && size == old(size) - 1
      ensures Contents == if r == None then old(Contents) else old(Contents)[1..]
      ensures r.Some? ==> r.value == old(Contents)[0]
    {
      if IsEmpty() {
        return None;
      }
      assert head == Slot(head, 0, capacity);
      r := queue[head];
      queue[head] := None;
      ghost var h := head;
      RingMod(head + 1, capacity);
      head := (head + 1) % capacity;
      size := size - 1;
      Contents := Contents[1..];
      forall i | 0 <= i < size
        ensures queue[Slot(head, i, capacity)] == Some(Contents[i])
      {
        assert Slot(head, i, capacity) == Slot(h, i + 1, capacity);
      }
      forall i | size <= i < capacity
        ensures queue[Slot(head, i, capacity)] == None
      {
        if i < capacity - 1 {
          assert Slot(head, i, capacity) == Slot(h, i + 1, capacity);
        } else {
          assert Slot(head, i, capacity) == h;
        }
      }
    }

    /**
     * `show_status`: the occupied slots read from `head` in circular order,
     * that is, the contents oldest first; nothing is changed.
     */
    method ShowStatus() returns (jobs: seq<Job>)
      requires Valid()
      ensures jobs == Contents
      ensures |jobs| == size
    {
      if IsEmpty() {
        return [];
      }
      jobs := [];
      var index := head;
      for i := 0 to size
        invariant 0 <= index < capacity
        invariant index == Slot(head, i, capacity)
        invariant jobs == Contents[..i]
      {
        jobs := jobs + [queue[index].value];
        RingMod(index + 1, capacity);
        index := (index + 1) % capacity;
      }
    }
  }
}
