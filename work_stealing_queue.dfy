/** `WorkStealingQueue`, the per-worker double-ended task queue. The owning
    worker pushes and pops at the front (most recent first); thieves take from
    the back (oldest first). Every call holds the queue's mutex for its whole
    duration, so it is modelled as one atomic step over the `_queue` deque.
    The pool's copy nested in `ThreadPool` is the same code and is modelled by
    this one class. */
module WorkStealing {
  import opened Wrappers

  class WorkStealingQueue<T> {
    /** `_queue`: index 0 is the front, where the owner works. */
    var queue: seq<T>

    /** Every element ever enqueued, and every element ever handed out by
        `Dequeue` or `Steal`. */
    ghost var Enqueued: multiset<T>
    ghost var Taken: multiset<T>

    /** An element is handed out at most once: what was taken plus what is
        still queued is what was enqueued. */
    ghost predicate Valid()
      reads this
    {
      Taken + multiset(queue) == Enqueued
    }

    constructor ()
      ensures Valid() && queue == [] && Enqueued == multiset{} && Taken == multiset{}
    {
      queue, Enqueued, Taken := [], multiset{}, multiset{};
    }

    /** The move constructor: a fresh, empty queue swaps contents with `other`,
        so it takes everything `other` held and leaves `other` empty. */
    constructor MoveFrom(other: WorkStealingQueue<T>)
      requires other.Valid()
      modifies other
      ensures Valid() && other.Valid()
      ensures queue == old(other.queue) && other.queue == []
      ensures Enqueued == old(other.Enqueued) && Taken == old(other.Taken)
      ensures other.Enqueued == multiset{} && other.Taken == multiset{}
    {
      queue, Enqueued, Taken := other.queue, other.Enqueued, other.Taken;
      new;
      other.queue, other.Enqueued, other.Taken := [], multiset{}, multiset{};
    }

    /** Move assignment: `std::swap` of the two deques; each side leaves with
        the other's old contents (and then on a self-move nothing changes). */
    method MoveAssign(other: WorkStealingQueue<T>)
      requires Valid() && other.Valid()
      modifies this, other
      ensures Valid() && other.Valid()
      ensures queue == old(other.queue) && other.queue == old(queue)
      ensures Enqueued == old(other.Enqueued) && other.Enqueued == old(Enqueued)
      ensures Taken == old(other.Taken) && other.Taken == old(Taken)
    {
      queue, other.queue := other.queue, queue;
      Enqueued, other.Enqueued := other.Enqueued, Enqueued;
      Taken, other.Taken := other.Taken, Taken;
    }

    /** `enqueue`: push at the front and return true; if the deque cannot
        allocate (`allocFails`, the `catch` branch) return false and change
        nothing. */
    method Enqueue(element: T, allocFails: bool) returns (ok: bool)
      requires Valid()
      modifies this
      ensures Valid()
      ensures ok == !allocFails
      ensures ok ==> queue == [element] + old(queue) && Enqueued == old(Enqueued) + multiset{element}
      ensures !ok ==> queue == old(queue) && Enqueued == old(Enqueued)
      ensures Taken == old(Taken)
    {
      if allocFails {
        return false;
      }
      queue := [element] + queue;
      Enqueued := Enqueued + multiset{element};
      ok := true;
    }

    /** `dequeue`, the owner's side: none on an empty deque, which is left as
        it is; otherwise remove and return the front, the most recently
        enqueued element. */
    method Dequeue() returns (r: Option<T>)
      requires Valid()
      modifies this
      ensures Valid()
      ensures r.None? <==> old(queue) == []
      ensures r.Some? ==> && r.value == old(queue)[0]
                          && queue == old(queue)[1..]
                          && Taken == old(Taken) + multiset{r.value}
      ensures r.None? ==> queue == old(queue) && Taken == old(Taken)
      ensures Enqueued == old(Enqueued)
    {
      if queue == [] {
        return None;
      }
      var front := queue[0];
      assert queue == [front] + queue[1..];
      queue := queue[1..];
      Taken := Taken + multiset{front};
      r := Some(front);
    }

    /** `steal`, the thief's side: none on an empty deque, which is left as it
        is; otherwise remove and return the back, the oldest element. */
    method Steal() returns (r: Option<T>)
      requires Valid()
      modifies this
      ensures Valid()
      ensures r.None? <==> old(queue) == []
      ensures r.Some? ==> && r.value == old(queue)[|old(queue)| - 1]
                          && queue == old(queue)[..|old(queue)| - 1]
                          && Taken == old(Taken) + multiset{r.value}
      ensures r.None? ==> queue == old(queue) && Taken == old(Taken)
      ensures Enqueued == old(Enqueued)
    {
      if queue == [] {
        return None;
      }
      var back := queue[|queue| - 1];
      assert queue == queue[..|queue| - 1] + [back];
      queue := queue[..|queue| - 1];
      Taken := Taken + multiset{back};
      r := Some(back);
    }
  }

  /** After enqueuing 1, 2 and 3, the owner gets the newest (3), a thief the
      oldest (1), the owner then 2, and both sides then find the deque empty. */
  method OwnerLifoThiefFifo() returns (a: Option<int>, b: Option<int>, c: Option<int>, d: Option<int>, e: Option<int>)
    ensures a == Some(3) && b == Some(1) && c == Some(2) && d == None && e == None
  {
    var q := NewOneTwoThree();
    a := q.Dequeue();
    assert q.queue == [2, 1];
    b := q.Steal();
    assert q.queue == [2];
    c := q.Dequeue();
    d := q.Dequeue();
    e := q.Steal();
  }

  /** A fresh deque after enqueuing 1, 2 and 3: 3 is at the front. */
  method NewOneTwoThree() returns (q: WorkStealingQueue<int>)
    ensures fresh(q) && q.Valid() && q.queue == [3, 2, 1]
  {
    q := new WorkStealingQueue<int>();
    var ok := q.Enqueue(1, false);
    ok := q.Enqueue(2, false);
    ok := q.Enqueue(3, false);
  }

  /** One step of a sequential history of a deque. */
  datatype Op = OwnerPush | OwnerPop | Thief

  /** Any interleaving of owner pushes of 0, 1, 2, ..., owner pops and steals:
      each value handed out was enqueued, none is handed out twice, and
      together with what is left they are exactly the values enqueued; each
      successful take shortens the deque by one. */
  method RunSchedule(schedule: seq<Op>) returns (taken: seq<int>, left: seq<int>, pushed: nat)
    ensures multiset(taken) + multiset(left) == multiset(seq(pushed, v => v))
    ensures |taken| + |left| == pushed
  {
    var q := new WorkStealingQueue<int>();
    taken, pushed := [], 0;
    var k := 0;
    while k < |schedule|
      invariant 0 <= k <= |schedule|
      invariant q.Valid() && q.Taken == multiset(taken)
      invariant q.Enqueued == multiset(seq(pushed, v => v))
      invariant |taken| + |q.queue| == pushed
    {
      var r: Option<int> := None;
      match schedule[k] {
        case OwnerPush =>
          var ok := q.Enqueue(pushed, false);
          assert seq(pushed + 1, v => v) == seq(pushed, v => v) + [pushed];
          pushed := pushed + 1;
        case OwnerPop =>
          r := q.Dequeue();
        case Thief =>
          r := q.Steal();
      }
      if r.Some? {
        taken := taken + [r.value];
      }
      k := k + 1;
    }
    left := q.queue;
  }
}
