/** The scheduling rules of `ThreadPool`, stated on values: one global FIFO
    queue and n per-worker deques (front = index 0), observed between atomic
    steps. The pool class is proved to behave as these functions say. */
module Scheduling {
  import opened Wrappers
  import Bits

  /** A task is an abstract id; running a task records its id. */
  type Task = nat

  /** The pool's queues at one instant. */
  datatype Queues = Queues(global: seq<Task>, locals: seq<seq<Task>>)

  /** What the calling thread knows about itself: `_this_thread_idx`, and
      whether `_this_thread_local_tasks` is set (it is only on workers). */
  datatype Caller = Caller(idx: nat, isWorker: bool)

  /** The result of one step: the task taken (or the future handed out) and
      the queues afterwards. */
  datatype Step = Step(task: Option<Task>, after: Queues)

  ghost predicate CallerFits(q: Queues, c: Caller)
  {
    c.isWorker ==> c.idx < |q.locals|
  }

  /** The queue the steal scan visits at rotation step i: `(idx + i) % n`. */
  function Visit(idx: nat, i: nat, n: nat): (j: nat)
    requires n > 0
    ensures j < n
  {
    (idx + i) % n
  }

  /** The i-th rotation step of every scan reaches queue j at step `(j - idx) % n`. */
  lemma RotationReachesEvery(idx: nat, j: nat, n: nat)
    requires j < n
    ensures (j - idx) % n < n && Visit(idx, (j - idx) % n, n) == j
  {
    var s := (j - idx) % n;
    var t := (j - idx) / n;
    assert j - idx == n * t + s;
    assert idx + s == n * (-t) + j;
    Bits.ModUnique(idx + s, n, -t, j);
  }

  /** Different steps within one round visit different queues. */
  lemma RotationVisitsOnce(idx: nat, i: nat, i': nat, n: nat)
    requires i < i' < n
    ensures Visit(idx, i, n) != Visit(idx, i', n)
  {
    Bits.DistinctResidues(idx, i, i', n);
  }

  /** `stealTasksFromOtherThreads`, from loop step i on: the first step s >= i
      whose queue `(idx + s) % n` is non-empty, or none. */
  function FirstNonEmptyStep(locals: seq<seq<Task>>, idx: nat, i: nat): (r: Option<nat>)
    decreases |locals| - i
    ensures r.Some? ==> && i <= r.value < |locals|
                        && locals[Visit(idx, r.value, |locals|)] != []
                        && forall s :: i <= s < r.value ==> locals[Visit(idx, s, |locals|)] == []
    ensures r.None? <==> forall s :: i <= s < |locals| ==> locals[Visit(idx, s, |locals|)] == []
  {
    if i >= |locals| then None
    else if locals[Visit(idx, i, |locals|)] != [] then Some(i)
    else FirstNonEmptyStep(locals, idx, i + 1)
  }

  /** The scan finds nothing exactly when every local deque is empty: the
      rotation from any start visits every deque. */
  lemma {:induction false} ScanNoneIffAllEmpty(locals: seq<seq<Task>>, idx: nat)
    ensures FirstNonEmptyStep(locals, idx, 0).None? <==> forall j :: 0 <= j < |locals| ==> locals[j] == []
  {
    if FirstNonEmptyStep(locals, idx, 0).None? {
      forall j | 0 <= j < |locals|
        ensures locals[j] == []
      {
        RotationReachesEvery(idx, j, |locals|);
      }
    }
  }

  /** Removing the front of queue j. */
  function TakeLocal(q: Queues, j: nat): (s: Step)
    requires j < |q.locals| && q.locals[j] != []
    ensures s.task == Some(q.locals[j][0])
    ensures s.after.global == q.global && |s.after.locals| == |q.locals|
    ensures s.after.locals[j] == q.locals[j][1..]
    ensures forall k :: 0 <= k < |q.locals| && k != j ==> s.after.locals[k] == q.locals[k]
  {
    Step(Some(q.locals[j][0]), q.(locals := q.locals[j := q.locals[j][1..]]))
  }

  /** The steal scan as a step: from the first non-empty deque in the rotation
      starting at the caller's own index, take the FRONT (`dequeue`, not
      `steal`); if none, the queues stay as they are. */
  function StealScan(q: Queues, idx: nat): (s: Step)
    ensures s.after.global == q.global && |s.after.locals| == |q.locals|
    ensures s.task.None? <==> forall j :: 0 <= j < |q.locals| ==> q.locals[j] == []
    ensures s.task.None? ==> s.after == q
  {
    ScanNoneIffAllEmpty(q.locals, idx);
    match FirstNonEmptyStep(q.locals, idx, 0)
    case None => Step(None, q)
    case Some(s) => TakeLocal(q, Visit(idx, s, |q.locals|))
  }

  /** `runPendingTask`: the caller's own deque front if it is a worker, else
      the global front, else the steal scan. */
  function RunPending(q: Queues, c: Caller): (s: Step)
    requires CallerFits(q, c)
    ensures |s.after.locals| == |q.locals|
    ensures c.isWorker && q.locals[c.idx] != [] ==>
              s.task == Some(q.locals[c.idx][0]) && s.after.global == q.global
    ensures (!c.isWorker || q.locals[c.idx] == []) && q.global != [] ==>
              s.task == Some(q.global[0]) && s.after.locals == q.locals
    ensures (!c.isWorker || q.locals[c.idx] == []) && q.global == [] ==> s.after.global == []
  {
    if c.isWorker && q.locals[c.idx] != [] then TakeLocal(q, c.idx)
    else if q.global != [] then Step(Some(q.global[0]), q.(global := q.global[1..]))
    else StealScan(q, c.idx)
  }

  /** `submit`: a worker pushes onto the front of its own deque, any other
      thread onto the back of the global queue; when that push fails there is
      no future and nothing changes. */
  function Submit(q: Queues, c: Caller, task: Task, allocFails: bool): (s: Step)
    requires CallerFits(q, c)
    ensures s.task.None? <==> allocFails
    ensures allocFails ==> s.after == q
    ensures CallerFits(s.after, c) && |s.after.locals| == |q.locals|
  {
    if allocFails then Step(None, q)
    else if c.isWorker then Step(Some(task), q.(locals := q.locals[c.idx := [task] + q.locals[c.idx]]))
    else Step(Some(task), q.(global := q.global + [task]))
  }

  /** All tasks waiting in the local deques. */
  function LocalPending(locals: seq<seq<Task>>): multiset<Task>
  {
    if locals == [] then multiset{}
    else LocalPending(locals[..|locals| - 1]) + multiset(locals[|locals| - 1])
  }

  /** All tasks waiting anywhere in the pool. */
  function Pending(q: Queues): multiset<Task>
  {
    multiset(q.global) + LocalPending(q.locals)
  }

  function TaskSet(t: Option<Task>): multiset<Task>
  {
    if t.Some? then multiset{t.value} else multiset{}
  }

  /** The tasks one step ran, in order: none or one. */
  function Ran(t: Option<Task>): (r: seq<Task>)
    ensures multiset(r) == TaskSet(t) && |r| <= 1
  {
    if t.Some? then [t.value] else []
  }

  lemma {:induction false} LocalPendingUpdate(locals: seq<seq<Task>>, j: nat, s: seq<Task>)
    requires j < |locals|
    ensures LocalPending(locals[j := s]) + multiset(locals[j]) == LocalPending(locals) + multiset(s)
    decreases |locals|
  {
    var n := |locals|;
    var u := locals[j := s];
    if j == n - 1 {
      assert u[..n - 1] == locals[..n - 1];
    } else {
      var init := locals[..n - 1];
      assert u[..n - 1] == init[j := s];
      assert init[j] == locals[j] && u[n - 1] == locals[n - 1];
      LocalPendingUpdate(init, j, s);
      calc {
        LocalPending(u) + multiset(locals[j]);
        LocalPending(init[j := s]) + multiset(locals[n - 1]) + multiset(init[j]);
        LocalPending(init) + multiset(s) + multiset(locals[n - 1]);
        LocalPending(locals) + multiset(s);
      }
    }
  }

  lemma {:induction false} LocalPendingEmpty(locals: seq<seq<Task>>)
    ensures LocalPending(locals) == multiset{} <==> forall j :: 0 <= j < |locals| ==> locals[j] == []
    decreases |locals|
  {
    if locals != [] {
      var init := locals[..|locals| - 1];
      LocalPendingEmpty(init);
      LocalPendingEmptyStep(locals, init, locals[|locals| - 1]);
    }
  }

  lemma LocalPendingEmptyStep(locals: seq<seq<Task>>, init: seq<seq<Task>>, last: seq<Task>)
    requires locals == init + [last]
    requires LocalPending(init) == multiset{} <==> forall j :: 0 <= j < |init| ==> init[j] == []
    ensures LocalPending(locals) == multiset{} <==> forall j :: 0 <= j < |locals| ==> locals[j] == []
  {
    assert locals[..|locals| - 1] == init;
    assert LocalPending(locals) == LocalPending(init) + multiset(last);
    if last != [] {
      assert last[0] in multiset(last);
    }
  }

  lemma MultisetCancel(a: multiset<Task>, b: multiset<Task>, c: multiset<Task>)
    requires a + c == b + c
    ensures a == b
  {
    forall x
      ensures a[x] == b[x]
    {
      assert (a + c)[x] == (b + c)[x];
    }
  }

  /** Taking the front of deque j removes exactly that task from the pool. */
  lemma TakeLocalConserves(q: Queues, j: nat)
    requires j < |q.locals| && q.locals[j] != []
    ensures Pending(q) == Pending(TakeLocal(q, j).after) + multiset{q.locals[j][0]}
  {
    var rest := q.locals[j][1..];
    var after := q.locals[j := rest];
    LocalPendingUpdate(q.locals, j, rest);
    assert q.locals[j] == [q.locals[j][0]] + rest;
    assert LocalPending(q.locals) + multiset(rest)
        == LocalPending(after) + multiset{q.locals[j][0]} + multiset(rest);
    MultisetCancel(LocalPending(q.locals), LocalPending(after) + multiset{q.locals[j][0]}, multiset(rest));
  }

  /** `runPendingTask` removes exactly the task it runs from exactly one queue
      and loses nothing; the number of local deques never changes. */
  lemma RunPendingConserves(q: Queues, c: Caller)
    requires CallerFits(q, c)
    ensures Pending(q) == Pending(RunPending(q, c).after) + TaskSet(RunPending(q, c).task)
    ensures |RunPending(q, c).after.locals| == |q.locals|
  {
    if c.isWorker && q.locals[c.idx] != [] {
      TakeLocalConserves(q, c.idx);
    } else if q.global != [] {
      GlobalPopConserves(q);
    } else {
      StealScanConserves(q, c.idx);
    }
  }

  /** Popping the global front removes exactly that task from the pool. */
  lemma GlobalPopConserves(q: Queues)
    requires q.global != []
    ensures Pending(q) == Pending(q.(global := q.global[1..])) + multiset{q.global[0]}
  {
    assert q.global == [q.global[0]] + q.global[1..];
  }

  /** The steal scan removes exactly the task it finds, if any. */
  lemma StealScanConserves(q: Queues, idx: nat)
    ensures Pending(q) == Pending(StealScan(q, idx).after) + TaskSet(StealScan(q, idx).task)
    ensures |StealScan(q, idx).after.locals| == |q.locals|
  {
    var r := FirstNonEmptyStep(q.locals, idx, 0);
    if r.Some? {
      TakeLocalConserves(q, Visit(idx, r.value, |q.locals|));
    }
  }

  /** `runPendingTask` runs nothing exactly when every queue is empty, and then
      it changes nothing. */
  lemma RunPendingIdleIffAllEmpty(q: Queues, c: Caller)
    requires CallerFits(q, c)
    ensures RunPending(q, c).task.None? <==> Pending(q) == multiset{}
    ensures RunPending(q, c).task.None? ==> RunPending(q, c).after == q
  {
    ScanNoneIffAllEmpty(q.locals, c.idx);
    LocalPendingEmpty(q.locals);
  }

  /** A successful `submit` adds exactly its task to the pool; a failed one
      adds nothing. A worker's submit leaves the global queue alone and every
      other deque alone; an outside thread's submit leaves every deque alone. */
  lemma SubmitRouting(q: Queues, c: Caller, task: Task, allocFails: bool)
    requires CallerFits(q, c)
    ensures Submit(q, c, task, allocFails).task == (if allocFails then None else Some(task))
    ensures Pending(Submit(q, c, task, allocFails).after) == Pending(q) + TaskSet(Submit(q, c, task, allocFails).task)
    ensures c.isWorker ==> && Submit(q, c, task, allocFails).after.global == q.global
                           && |Submit(q, c, task, allocFails).after.locals| == |q.locals|
                           && forall k :: 0 <= k < |q.locals| && k != c.idx ==>
                                Submit(q, c, task, allocFails).after.locals[k] == q.locals[k]
    ensures !c.isWorker ==> Submit(q, c, task, allocFails).after.locals == q.locals
  {
    if !allocFails && c.isWorker {
      var old_ := q.locals[c.idx];
      var after := q.locals[c.idx := [task] + old_];
      LocalPendingUpdate(q.locals, c.idx, [task] + old_);
      assert LocalPending(after) + multiset(old_)
          == LocalPending(q.locals) + multiset{task} + multiset(old_);
      MultisetCancel(LocalPending(after), LocalPending(q.locals) + multiset{task}, multiset(old_));
    }
  }

  /** For a worker whose own deque is empty, checking its own deque again at
      scan step 0 finds nothing, so in a sequential history the scan in effect
      starts at the next worker's deque, as the code's comment intends. */
  lemma WorkerScanStartsAtNext(q: Queues, c: Caller)
    requires c.isWorker && c.idx < |q.locals| && q.locals[c.idx] == []
    ensures FirstNonEmptyStep(q.locals, c.idx, 0) == FirstNonEmptyStep(q.locals, c.idx, 1)
  {
    assert Visit(c.idx, 0, |q.locals|) == c.idx;
  }

  /** k consecutive `runPendingTask` calls by one caller: the tasks run, in
      order, and the queues afterwards. */
  function RunRounds(q: Queues, c: Caller, k: nat): (r: (seq<Task>, Queues))
    requires CallerFits(q, c)
    ensures |r.1.locals| == |q.locals|
    decreases k
  {
    if k == 0 then ([], q)
    else
      var r := RunRounds(q, c, k - 1);
      var st := RunPending(r.1, c);
      RunPendingConserves(r.1, c);
      (r.0 + Ran(st.task), st.after)
  }

  /** One more round after k rounds. */
  lemma RoundsNext(q: Queues, c: Caller, j: nat, k: nat, ran: seq<Task>, mid: Queues, t: Option<Task>, after: Queues)
    requires CallerFits(q, c) && k == j + 1 && RunRounds(q, c, j) == (ran, mid)
    requires Step(t, after) == RunPending(mid, c)
    ensures RunRounds(q, c, k) == (ran + Ran(t), after)
  {
    assert RunRounds(q, c, j + 1) == (ran + Ran(t), after);
  }

  /** Over any number of rounds every task is either run or still pending,
      and each round that finds a task shrinks the pool by exactly one, so
      the pool shrinks by one per round until it is empty. */
  lemma {:induction false} RoundsConserve(q: Queues, c: Caller, k: nat)
    requires CallerFits(q, c)
    ensures Pending(q) == multiset(RunRounds(q, c, k).0) + Pending(RunRounds(q, c, k).1)
    ensures |Pending(RunRounds(q, c, k).1)| == if k <= |Pending(q)| then |Pending(q)| - k else 0
    decreases k
  {
    if k > 0 {
      var j: nat := k - 1;
      RoundsConserve(q, c, j);
      var r := RunRounds(q, c, j);
      var st := RunPending(r.1, c);
      RoundsNext(q, c, j, k, r.0, r.1, st.task, st.after);
      RoundStep(Pending(q), r.0, r.1, c, j);
    }
  }

  /** The inductive step of RoundsConserve, on abstract values: if j rounds
      ran `ran` and left `mid`, one more round keeps the balance and takes
      one more task off the pool while any is left. */
  lemma RoundStep(p: multiset<Task>, ran: seq<Task>, mid: Queues, c: Caller, j: nat)
    requires CallerFits(mid, c)
    requires p == multiset(ran) + Pending(mid)
    requires |Pending(mid)| == if j <= |p| then |p| - j else 0
    ensures p == multiset(ran + Ran(RunPending(mid, c).task)) + Pending(RunPending(mid, c).after)
    ensures |Pending(RunPending(mid, c).after)| == if j + 1 <= |p| then |p| - (j + 1) else 0
  {
    var st := RunPending(mid, c);
    RunPendingConserves(mid, c);
    RunPendingIdleIffAllEmpty(mid, c);
    MultisetRegroup(p, multiset(ran), Pending(mid), Pending(st.after), TaskSet(st.task));
  }

  /** p = a + b and b = b' + t give p = (a + t) + b', and |b'| = |b| - |t|. */
  lemma MultisetRegroup(p: multiset<Task>, a: multiset<Task>, b: multiset<Task>, b': multiset<Task>, t: multiset<Task>)
    requires p == a + b && b == b' + t
    ensures p == (a + t) + b' && |b'| == |b| - |t|
  {
    forall x
      ensures p[x] == ((a + t) + b')[x]
    {
      assert p[x] == a[x] + b[x];
      assert b[x] == b'[x] + t[x];
    }
  }

  /** Work conservation: one caller calling `runPendingTask` as many times as
      there are pending tasks runs every pending task exactly once (even if
      all of them sit in another worker's deque) and leaves every queue empty. */
  lemma DrainRunsEveryTaskOnce(q: Queues, c: Caller)
    requires CallerFits(q, c)
    ensures multiset(RunRounds(q, c, |Pending(q)|).0) == Pending(q)
    ensures Pending(RunRounds(q, c, |Pending(q)|).1) == multiset{}
  {
    RoundsConserve(q, c, |Pending(q)|);
  }

  /** An outer submit from an outside thread lands in the global queue; the
      worker that picks it up submits an inner task, which lands in its own
      deque, and its next `runPendingTask` runs that inner task; after that
      there is nothing left to run. */
  lemma OuterThenInnerSubmit(n: nat, w: nat, outer: Task, inner: Task)
    requires w < n
    ensures var q0 := Queues([], seq(n, _ => []));
            var s1 := Submit(q0, Caller(0, false), outer, false);
            var r1 := RunPending(s1.after, Caller(w, true));
            var s2 := Submit(r1.after, Caller(w, true), inner, false);
            var r2 := RunPending(s2.after, Caller(w, true));
            && s1.after.global == [outer]
            && s1.after.locals == q0.locals
            && r1.task == Some(outer)
            && s2.after.global == [] && s2.after.locals[w] == [inner]
            && r2.task == Some(inner)
            && r2.after == q0
            && RunPending(q0, Caller(w, true)) == Step(None, q0)
  {
    var q0 := Queues([], seq(n, _ => []));
    var s1 := Submit(q0, Caller(0, false), outer, false);
    var r1 := RunPending(s1.after, Caller(w, true));
    assert r1.after == q0;
    var s2 := Submit(r1.after, Caller(w, true), inner, false);
    assert s2.after.locals[w] == [inner];
    var r2 := RunPending(s2.after, Caller(w, true));
    assert r2.after.locals == q0.locals;
    LocalPendingEmpty(q0.locals);
    RunPendingIdleIffAllEmpty(q0, Caller(w, true));
  }
}
