/** `ThreadPool`: one global `ConcurrentQueue` of tasks and one
    `WorkStealingQueue` per worker. The per-thread identity that the C++ code
    keeps in two `thread_local` variables is passed explicitly as a
    `ThreadCtx`. Every queue operation is one atomic step, and running a task
    appends its id to `executed`. Each operation is proved to act on the
    queues exactly as the functions of module `Scheduling` say, so what is
    proved there (conservation, routing, work conservation) holds of the pool. */
module Pool {
  import opened Wrappers
  import opened Scheduling
  import opened LockedFifo
  import opened WorkStealing

  /** `_this_thread_idx` and `_this_thread_local_tasks` of one thread; `local`
      is null on every thread that is not a worker. */
  datatype ThreadCtx = ThreadCtx(idx: nat, local: WorkStealingQueue?<Task>)

  /** A thread that is not a pool worker: both thread-locals keep their
      initial values, index 0 and a null pointer. */
  const External: ThreadCtx := ThreadCtx(0, null)

  function CallerOf(ctx: ThreadCtx): Caller
  {
    Caller(ctx.idx, ctx.local != null)
  }

  /** The contents of a sequence of deques. */
  ghost function Contents(qs: seq<WorkStealingQueue<Task>>): (r: seq<seq<Task>>)
    reads qs
    ensures |r| == |qs| && forall i :: 0 <= i < |qs| ==> r[i] == qs[i].queue
  {
    seq(|qs|, i reads qs requires 0 <= i < |qs| => qs[i].queue)
  }

  class ThreadPool {
    /** `_done`, set by the destructor. */
    var done: bool
    /** `_global_tasks`. */
    const global: ConcurrentQueue<Task>
    /** `_local_tasks_queues`, one deque per worker index. */
    const locals: seq<WorkStealingQueue<Task>>
    /** The ids of the tasks run so far, in the order they were run. */
    var executed: seq<Task>

    /** Every queue keeps its own invariant, and no two workers share a deque. */
    ghost predicate Valid()
      reads global, locals
    {
      && global.Valid()
      && (forall i :: 0 <= i < |locals| ==> locals[i].Valid())
      && (forall i, j :: 0 <= i < j < |locals| ==> locals[i] != locals[j])
    }

    /** The pool's queues as a value. */
    ghost function State(): Queues
      reads global, locals
    {
      Queues(global.queue, Contents(locals))
    }

    /** The identities a thread can have with respect to this pool: outside
        the pool, or worker i as `WorkerFunc(i)` sets it up. */
    ghost predicate IsContext(ctx: ThreadCtx)
    {
      || ctx == External
      || (ctx.idx < |locals| && ctx.local == locals[ctx.idx])
    }

    /** The worker count is clamped to the hardware concurrency, and one empty
        deque is created per worker index 0..n-1. Spawning the worker threads
        is not modelled; each worker is `WorkerFunc(i)`. */
    constructor (numberOfThreads: nat, hardwareConcurrency: nat)
      ensures Valid()
      ensures |locals| == if numberOfThreads > hardwareConcurrency then hardwareConcurrency else numberOfThreads
      ensures State() == Queues([], seq(|locals|, _ => []))
      ensures !done && executed == []
      ensures fresh(global) && forall i :: 0 <= i < |locals| ==> fresh(locals[i])
    {
      var n := numberOfThreads;
      if n > hardwareConcurrency {
        n := hardwareConcurrency;
      }
      var qs: seq<WorkStealingQueue<Task>> := [];
      var i := 0;
      while i < n
        invariant 0 <= i <= n && |qs| == i
        invariant forall k :: 0 <= k < i ==> fresh(qs[k]) && qs[k].Valid() && qs[k].queue == []
        invariant forall k, l :: 0 <= k < l < i ==> qs[k] != qs[l]
      {
        var q := new WorkStealingQueue<Task>();
        qs := qs + [q];
        i := i + 1;
      }
      global := new ConcurrentQueue<Task>();
      locals := qs;
      done := false;
      executed := [];
    }

    /** The destructor's own body: it sets `_done`. What follows it, the
        members' destruction (joining every worker thread, then dropping the
        queues and the tasks still in them), is not part of this step. */
    method Destroy()
      requires Valid()
      modifies this
      ensures Valid() && done
      ensures State() == old(State()) && executed == old(executed)
    {
      done := true;
    }

    /** `isCurrentThreadAPoolThread`: the thread's local deque pointer is set,
        which for a thread of this pool means it is the worker that owns
        deque `ctx.idx`. */
    function IsCurrentThreadAPoolThread(ctx: ThreadCtx): (r: bool)
      requires IsContext(ctx)
      ensures r <==> ctx.idx < |locals| && ctx.local == locals[ctx.idx]
    {
      ctx.local != null
    }

    /** One `dequeue` on deque j, in terms of the pool's queues. */
    method DequeueLocal(j: nat) returns (t: Option<Task>)
      requires Valid() && j < |locals|
      modifies locals[j]
      ensures Valid()
      ensures t.None? <==> old(State()).locals[j] == []
      ensures t.Some? ==> Step(t, State()) == TakeLocal(old(State()), j)
      ensures t.None? ==> State() == old(State())
    {
      ghost var before := Contents(locals);
      t := locals[j].Dequeue();
      assert forall k :: 0 <= k < |locals| && k != j ==> locals[k] != locals[j];
      assert Contents(locals) == before[j := locals[j].queue];
    }

    /** One `enqueue` on deque j, in terms of the pool's queues. */
    method EnqueueLocal(j: nat, task: Task, allocFails: bool) returns (ok: bool)
      requires Valid() && j < |locals|
      modifies locals[j]
      ensures Valid()
      ensures ok == !allocFails
      ensures ok ==> State() == old(State()).(locals := old(State()).locals[j := [task] + old(State()).locals[j]])
      ensures !ok ==> State() == old(State())
    {
      ghost var before := Contents(locals);
      ok := locals[j].Enqueue(task, allocFails);
      assert forall k :: 0 <= k < |locals| && k != j ==> locals[k] != locals[j];
      assert Contents(locals) == before[j := locals[j].queue];
    }

    /** One `push` on the global queue, in terms of the pool's queues. */
    method PushGlobal(task: Task, allocFails: bool) returns (ok: bool)
      requires Valid()
      modifies global
      ensures Valid()
      ensures ok == !allocFails
      ensures ok ==> State() == old(State()).(global := old(State()).global + [task])
      ensures !ok ==> State() == old(State())
    {
      ok := global.Push(task, allocFails);
    }

    /** One `pop` on the global queue, in terms of the pool's queues. */
    method PopGlobal() returns (t: Option<Task>)
      requires Valid()
      modifies global
      ensures Valid()
      ensures t.None? <==> old(State()).global == []
      ensures t.Some? ==> t.value == old(State()).global[0] && State() == old(State()).(global := old(State()).global[1..])
      ensures t.None? ==> State() == old(State())
    {
      t := global.Pop();
    }

    /** `submit`: from a worker, push onto the front of its own deque; from
        any other thread, onto the back of the global queue. If that push
        fails there is no future. */
    method Submit(ctx: ThreadCtx, task: Task, allocFails: bool) returns (future: Option<Task>)
      requires Valid() && IsContext(ctx)
      modifies global, locals
      ensures Valid()
      ensures Step(future, State()) == Scheduling.Submit(old(State()), CallerOf(ctx), task, allocFails)
    {
      var ok: bool;
      if IsCurrentThreadAPoolThread(ctx) {
        ok := EnqueueLocal(ctx.idx, task, allocFails);
      } else {
        ok := PushGlobal(task, allocFails);
      }
      future := if ok then Some(task) else None;
    }

    /** `stealTasksFromOtherThreads`: visit the deques in the order
        `(idx + i) % n` for i = 0..n-1, starting at the caller's own index,
        and take the FRONT (`dequeue`) of the first non-empty one. */
    method StealTasksFromOtherThreads(ctx: ThreadCtx) returns (task: Option<Task>)
      requires Valid()
      modifies locals
      ensures Valid()
      ensures Step(task, State()) == StealScan(old(State()), ctx.idx)
    {
      ghost var q0 := State();
      var n := |locals|;
      var i := 0;
      while i < n
        invariant 0 <= i <= n
        invariant Valid() && State() == q0 && |q0.locals| == n
        invariant forall s :: 0 <= s < i ==> q0.locals[Visit(ctx.idx, s, n)] == []
      {
        var index := Visit(ctx.idx, i, n);
        var t := DequeueLocal(index);
        if t.Some? {
          FirstNonEmptyStepIs(q0.locals, ctx.idx, 0, i);
          return t;
        }
        i := i + 1;
      }
      return None;
    }

    /** The three sources `runPendingTask` tries, in order. */
    method TakePending(ctx: ThreadCtx) returns (task: Option<Task>)
      requires Valid() && IsContext(ctx)
      modifies global, locals
      ensures Valid()
      ensures Step(task, State()) == RunPending(old(State()), CallerOf(ctx))
    {
      task := None;
      if ctx.local != null {
        task := DequeueLocal(ctx.idx);
      }
      if task.None? {
        task := PopGlobal();
      }
      if task.None? {
        task := StealTasksFromOtherThreads(ctx);
      }
    }

    /** `runPendingTask`: take a task from the caller's own deque (workers
        only), else from the global queue, else by the steal scan, and run it;
        with nothing anywhere, yield (a no-op here) and change nothing. */
    method RunPendingTask(ctx: ThreadCtx) returns (ran: Option<Task>)
      requires Valid() && IsContext(ctx)
      modifies this, global, locals
      ensures Valid()
      ensures Step(ran, State()) == RunPending(old(State()), CallerOf(ctx))
      ensures executed == old(executed) + Ran(ran)
      ensures done == old(done)
    {
      ran := TakePending(ctx);
      executed := executed + Ran(ran);
    }

    /** `workerFunc(i)`: set the thread's identity to worker i, then call
        `runPendingTask` for as long as `_done` is clear. Only the first
        `rounds` iterations are modelled; once `_done` is set, no further
        task is run. */
    method WorkerFunc(i: nat, rounds: nat) returns (ctx: ThreadCtx, calls: nat)
      requires Valid() && i < |locals|
      modifies this, global, locals
      ensures Valid() && done == old(done)
      ensures ctx == ThreadCtx(i, locals[i]) && IsCurrentThreadAPoolThread(ctx)
      ensures calls == if old(done) then 0 else rounds
      ensures executed == old(executed) + RunRounds(old(State()), Caller(i, true), calls).0
      ensures State() == RunRounds(old(State()), Caller(i, true), calls).1
    {
      ctx := ThreadCtx(i, locals[i]);
      ghost var q0 := State();
      ghost var e0 := executed;
      ghost var ran: seq<Task> := [];
      calls := 0;
      while !done && calls < rounds
        invariant Valid() && done == old(done)
        invariant calls <= rounds && (done ==> calls == 0)
        invariant executed == e0 + ran
        invariant RunRounds(q0, Caller(i, true), calls) == (ran, State())
      {
        ghost var mid, ran0, calls0 := State(), ran, calls;
        var t := RunPendingTask(ctx);
        SeqAssoc(e0, ran, Ran(t));
        ran := ran + Ran(t);
        calls := calls + 1;
        RoundsNext(q0, Caller(i, true), calls0, calls, ran0, mid, t, State());
      }
    }
  }

  lemma SeqAssoc(a: seq<Task>, b: seq<Task>, c: seq<Task>)
    ensures (a + b) + c == a + (b + c)
  {
  }

  /** The scan's first non-empty step from j is i when every step in [j, i)
      is empty and step i is not. */
  lemma {:induction false} FirstNonEmptyStepIs(locals: seq<seq<Task>>, idx: nat, j: nat, i: nat)
    requires j <= i < |locals| && locals[Visit(idx, i, |locals|)] != []
    requires forall s :: j <= s < i ==> locals[Visit(idx, s, |locals|)] == []
    ensures FirstNonEmptyStep(locals, idx, j) == Some(i)
    decreases i - j
  {
    if j < i {
      FirstNonEmptyStepIs(locals, idx, j + 1, i);
    }
  }

  /** The pool's own unit test, on the objects: an outer task submitted from
      outside goes to the global queue and is picked up by worker 0; the inner
      task it submits goes to worker 0's deque and is what worker 0 runs next. */
  method OuterThenInnerSubmitOnPool(hardwareConcurrency: nat)
    returns (outer: Option<Task>, firstRun: Option<Task>, inner: Option<Task>, secondRun: Option<Task>, idle: Option<Task>)
    requires hardwareConcurrency >= 1
    ensures outer == Some(1) && firstRun == Some(1)
    ensures inner == Some(2) && secondRun == Some(2)
    ensures idle == None
  {
    var pool := new ThreadPool(hardwareConcurrency, hardwareConcurrency);
    ghost var n := |pool.locals|;
    ghost var q0 := Queues([], seq(n, _ => []));
    ghost var ext, w := Caller(0, false), Caller(0, true);
    OuterThenInnerSubmit(n, 0, 1, 2);
    ghost var s1 := Scheduling.Submit(q0, ext, 1, false);
    ghost var r1 := RunPending(s1.after, w);
    ghost var s2 := Scheduling.Submit(r1.after, w, 2, false);
    ghost var r2 := RunPending(s2.after, w);
    outer := pool.Submit(External, 1, false);
    assert Step(outer, pool.State()) == s1;
    var worker := ThreadCtx(0, pool.locals[0]);
    assert CallerOf(worker) == w;
    firstRun := pool.RunPendingTask(worker);
    assert Step(firstRun, pool.State()) == r1;
    inner := pool.Submit(worker, 2, false);
    assert Step(inner, pool.State()) == s2;
    secondRun := pool.RunPendingTask(worker);
    assert Step(secondRun, pool.State()) == r2 && r2.after == q0;
    idle := pool.RunPendingTask(worker);
  }
}
