/** `ConcurrentQueue<T>`, the lock-protected FIFO the thread pool uses as its
    global queue. Each call holds the queue's mutex for its whole duration, so
    it is modelled as one atomic step over the `_queue` deque. */
module LockedFifo {
  import opened Wrappers

  class ConcurrentQueue<T> {
    /** `_queue`, front first. */
    var queue: seq<T>

    /** Every element ever pushed, and every element ever popped, in order. */
    ghost var Pushed: seq<T>
    ghost var Popped: seq<T>

    /** What was popped, followed by what is still queued, is what was pushed:
        each pushed element leaves the queue once, in push order. */
    ghost predicate Valid()
      reads this
    {
      Popped + queue == Pushed
    }

    constructor ()
      ensures Valid() && queue == [] && Pushed == [] && Popped == []
    {
      queue, Pushed, Popped := [], [], [];
    }

    /** `push`: append at the back and return true; if the deque cannot
        allocate (`allocFails`, the `catch` branch) return false and change
        nothing. */
    method Push(element: T, allocFails: bool) returns (ok: bool)
      requires Valid()
      modifies this
      ensures Valid()
      ensures ok == !allocFails
      ensures ok ==> queue == old(queue) + [element] && Pushed == old(Pushed) + [element]
      ensures !ok ==> queue == old(queue) && Pushed == old(Pushed)
      ensures Popped == old(Popped)
    {
      if allocFails {
        return false;
      }
      queue := queue + [element];
      Pushed := Pushed + [element];
      ok := true;
    }

    /** `pop`: none on an empty queue, which is left as it is; otherwise remove
        and return the front element. */
    method Pop() returns (r: Option<T>)
      requires Valid()
      modifies this
      ensures Valid()
      ensures r.None? <==> old(queue) == []
      ensures r.Some? ==> && r.value == old(queue)[0]
                          && queue == old(queue)[1..]
                          && Popped == old(Popped) + [r.value]
      ensures r.None? ==> queue == old(queue) && Popped == old(Popped)
      ensures Pushed == old(Pushed)
    {
      if queue == [] {
        return None;
      }
      var front := queue[0];
      queue := queue[1..];
      Popped := Popped + [front];
      r := Some(front);
    }
  }

  /** Pushing 42 and then 11 gives back 42, then 11, then nothing. */
  method FifoOrder() returns (first: Option<int>, second: Option<int>, third: Option<int>)
    ensures first == Some(42) && second == Some(11) && third == None
  {
    var q := new ConcurrentQueue<int>();
    var ok := q.Push(42, false);
    ok := q.Push(11, false);
    first := q.Pop();
    second := q.Pop();
    third := q.Pop();
  }

  /** Any interleaving of pushes of 0, 1, 2, ... (`true`) and pops (`false`):
      the values popped, followed by those left in the queue, are exactly the
      values pushed, in order, so no value is lost or popped twice. */
  method RunSchedule(schedule: seq<bool>) returns (popped: seq<int>, left: seq<int>, pushed: nat)
    ensures pushed == |set k | 0 <= k < |schedule| && schedule[k]|
    ensures popped + left == seq(pushed, v => v)
  {
    var q := new ConcurrentQueue<int>();
    popped, pushed := [], 0;
    var k := 0;
    while k < |schedule|
      invariant 0 <= k <= |schedule|
      invariant q.Valid() && q.Popped == popped
      invariant q.Pushed == seq(pushed, v => v)
      invariant pushed == |set j | 0 <= j < k && schedule[j]|
    {
      if schedule[k] {
        var ok := q.Push(pushed, false);
        PushedCount(schedule, k, true);
        pushed := pushed + 1;
      } else {
        var r := q.Pop();
        if r.Some? {
          popped := popped + [r.value];
        }
        PushedCount(schedule, k, false);
      }
      k := k + 1;
    }
    left := q.queue;
  }

  /** Counting the push steps of a schedule prefix one step further. */
  lemma PushedCount(schedule: seq<bool>, k: nat, step: bool)
    requires k < |schedule| && schedule[k] == step
    ensures |set j | 0 <= j < k + 1 && schedule[j]|
            == |set j | 0 <= j < k && schedule[j]| + (if step then 1 else 0)
  {
    var before := set j | 0 <= j < k && schedule[j];
    var after := set j | 0 <= j < k + 1 && schedule[j];
    if step {
      assert after == before + {k};
    } else {
      assert after == before;
    }
  }
}
