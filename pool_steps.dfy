/** The bookkeeping of MuldeR's thread pool as a state machine of atomic steps.
    Each step is one critical section of the pool's mutex together with the
    semaphore operation around it; the two counting semaphores are plain
    counters, and a blocking semaphore wait is the precondition that the
    counter is positive. Thread creation, blocking and wakeup themselves are
    not modelled. */
module PoolSteps {

  /** `nThreads` is a `uint32_t`. */
  const MaxThreads: nat := 0xFFFF_FFFF

  /** An `ITask*` as the queue stores it. `schedule` accepts any pointer, NULL
      included; the worker loop treats a NULL it pops as "no task". */
  datatype TaskPtr = Null | Task(id: nat)

  /** The fields of one pool, plus the `task` local of each worker thread. */
  datatype PoolState = PoolState(
    nThreads: nat,         // m_nThreads, fixed at construction
    queue: seq<TaskPtr>,   // m_taskQueue, front first
    free: nat,             // value of the semaphore m_semFree
    used: nat,             // value of the semaphore m_semUsed
    running: nat,          // m_runningTasks
    stop: bool,            // m_bStopFlag
    held: seq<TaskPtr>)    // held[w]: the task worker w has fetched and not yet finalized

  /** Number of workers that hold a task; zero exactly when every worker
      holds nothing. */
  function Busy(held: seq<TaskPtr>): (n: nat)
    ensures n <= |held|
    ensures n == 0 <==> forall w :: 0 <= w < |held| ==> held[w] == Null
  {
    if held == [] then 0
    else
      assert forall w :: 1 <= w < |held| ==> held[w] == held[1..][w - 1];
      (if held[0].Task? then 1 else 0) + Busy(held[1..])
  }

  /** Replacing what one worker holds changes the busy count by the difference. */
  lemma {:induction false} BusyUpdate(held: seq<TaskPtr>, w: nat, t: TaskPtr)
    requires w < |held|
    ensures Busy(held[w := t]) + (if held[w].Task? then 1 else 0)
         == Busy(held) + (if t.Task? then 1 else 0)
  {
    if w > 0 {
      assert held[w := t][1..] == held[1..][w - 1 := t];
      BusyUpdate(held[1..], w - 1, t);
    } else {
      assert held[w := t][1..] == held[1..];
    }
  }

  /** What the pool maintains between its critical sections:
      - the free units and the queued tasks together are always `nThreads`,
        so the queue never holds more than `nThreads` tasks;
      - every queued task has a used unit posted for it, and until the stop
        request there is no other used unit, so a worker woken by the used
        semaphore always finds a task;
      - the running counter is the number of workers holding a task. */
  ghost predicate Inv(p: PoolState)
  {
    && p.nThreads <= MaxThreads
    && |p.held| == p.nThreads
    && p.free + |p.queue| == p.nThreads
    && |p.queue| <= p.used
    && (!p.stop ==> p.used == |p.queue|)
    && p.running == Busy(p.held)
  }

  /** The condition `wait()` loops on: no task is queued and none is running.
      A drained pool offers no task to fetch and no task to finalize. */
  predicate Drained(p: PoolState): (d: bool)
    ensures d <==> |p.queue| + p.running == 0
  {
    p.queue == [] && p.running == 0
  }

  /** The constructor: empty queue, nothing running, no stop request,
      `nThreads` free units and no used unit; every worker starts idle. */
  function Init(n: nat): (p: PoolState)
    requires n <= MaxThreads
    ensures Inv(p) && Drained(p) && !p.stop
    ensures p.nThreads == n && p.free == n && p.used == 0
  {
    PoolState(n, [], n, 0, 0, false, seq(n, _ => Null))
  }

  /** `schedule`, once its wait on the free semaphore has succeeded: the task
      goes to the back of the queue and one used unit is posted. */
  function Schedule(p: PoolState, t: TaskPtr): (r: PoolState)
    requires p.free > 0
    ensures r.queue == p.queue + [t]
    ensures r.free == p.free - 1 && r.used == p.used + 1
    ensures r.running == p.running && r.stop == p.stop && r.held == p.held && r.nThreads == p.nThreads
    ensures Inv(p) ==> Inv(r)
  {
    p.(queue := p.queue + [t], free := p.free - 1, used := p.used + 1)
  }

  /** `trySchedule`: a non-blocking wait on the free semaphore; with no free
      unit it reports false and changes nothing. Under the invariant it fails
      exactly when `nThreads` tasks are queued. */
  function TrySchedule(p: PoolState, t: TaskPtr): (r: (PoolState, bool))
    ensures r.1 <==> p.free > 0
    ensures r.1 ==> r.0 == Schedule(p, t)
    ensures !r.1 ==> r.0 == p
    ensures Inv(p) ==> Inv(r.0) && (r.1 <==> |p.queue| < p.nThreads)
  {
    if p.free > 0 then (Schedule(p, t), true) else (p, false)
  }

  /** The fetch part of the worker loop, for worker `w`, once its wait on the
      used semaphore has succeeded: pop the front of the queue if there is one
      and give its free unit back, and count the worker as running if what it
      popped is a task. The second component is the worker's `task`. */
  function Fetch(p: PoolState, w: nat): (r: (PoolState, TaskPtr))
    requires w < |p.held| && p.held[w] == Null && p.used > 0
    ensures p.queue == [] ==> r.1 == Null && r.0 == p.(used := p.used - 1)
    ensures p.queue != [] ==> r.1 == p.queue[0] && r.0.queue == p.queue[1..] && r.0.free == p.free + 1
    ensures r.0.used == p.used - 1
    ensures r.0.running == p.running + (if r.1.Task? then 1 else 0)
    ensures r.0.held == p.held[w := r.1]
    ensures r.0.stop == p.stop && r.0.nThreads == p.nThreads
    ensures Inv(p) ==> Inv(r.0)
  {
    var task := if p.queue != [] then p.queue[0] else Null;
    var q := if p.queue != [] then p.(queue := p.queue[1..], free := p.free + 1) else p;
    BusyUpdate(p.held, w, task);
    if task.Task? then
      (q.(used := p.used - 1, running := p.running + 1, held := p.held[w := task]), task)
    else
      (q.(used := p.used - 1), task)
  }

  /** The execute part of the worker loop: worker `w` runs its task only if
      it holds one and the stop flag is still clear. */
  predicate Runs(p: PoolState, w: nat): (b: bool)
    requires w < |p.held|
    ensures b ==> p.held[w] != Null
    ensures p.stop ==> !b
  {
    p.held[w].Task? && !p.stop
  }

  /** The finalize part of the worker loop: a worker holding a task is counted
      out of running, whether or not the task ran; the done condition is
      broadcast exactly when the counter reaches 0. A worker holding nothing
      leaves everything as it is. */
  function Finish(p: PoolState, w: nat): (r: (PoolState, bool))
    requires w < |p.held| && (p.held[w].Task? ==> p.running > 0)
    ensures p.held[w] == Null ==> r == (p, false)
    ensures p.held[w].Task? ==> r.0 == p.(running := p.running - 1, held := p.held[w := Null])
    ensures r.1 <==> p.held[w].Task? && r.0.running == 0
    ensures Inv(p) ==> Inv(r.0)
  {
    if p.held[w].Task? then
      BusyUpdate(p.held, w, Null);
      var q := p.(running := p.running - 1, held := p.held[w := Null]);
      (q, q.running == 0)
    else
      (p, false)
  }

  /** The destructor's stop request: set the stop flag and post `nThreads`
      used units, so that every worker parked on the used semaphore wakes. */
  function Stop(p: PoolState): (r: PoolState)
    ensures r.stop && r.used == p.used + p.nThreads
    ensures r.queue == p.queue && r.free == p.free && r.running == p.running
    ensures r.held == p.held && r.nThreads == p.nThreads
    ensures Inv(p) ==> Inv(r)
  {
    p.(stop := true, used := p.used + p.nThreads)
  }

  /** One pass of the worker loop by worker `w` that finds a task queued:
      fetch, execute (a no-op here), finalize. The second component is the
      task the worker took. */
  function Cycle(p: PoolState, w: nat): (r: (PoolState, TaskPtr))
    requires w < |p.held| && p.held[w] == Null && p.used > 0 && p.queue != []
    ensures r.1 == p.queue[0] && r.0.queue == p.queue[1..]
    ensures r.0.free == p.free + 1 && r.0.used == p.used - 1
    ensures r.0.running == p.running && r.0.held == p.held
    ensures r.0.stop == p.stop && r.0.nThreads == p.nThreads
    ensures Inv(p) ==> Inv(r.0)
  {
    var (q, task) := Fetch(p, w);
    assert p.held[w := Null] == p.held;
    (Finish(q, w).0, task)
  }

  /** Worker `w` alone making k passes of its loop. The second component is
      the tasks it took, in order: the first k tasks of the queue (FIFO). */
  function Worker(p: PoolState, w: nat, k: nat): (r: (PoolState, seq<TaskPtr>))
    requires w < |p.held| && p.held[w] == Null
    requires k <= |p.queue| <= p.used
    ensures r.1 == p.queue[..k] && r.0.queue == p.queue[k..]
    ensures r.0.free == p.free + k && r.0.used == p.used - k
    ensures r.0.running == p.running && r.0.held == p.held
    ensures r.0.stop == p.stop && r.0.nThreads == p.nThreads
    ensures Inv(p) ==> Inv(r.0)
    decreases k
  {
    if k == 0 then
      (p, [])
    else
      var (q, task) := Cycle(p, w);
      var (s, tasks) := Worker(q, w, k - 1);
      assert p.queue[..k] == [task] + q.queue[..k - 1];
      assert q.queue[k - 1..] == p.queue[k..];
      (s, [task] + tasks)
  }

  /** The pool never holds more than `nThreads` queued tasks, nor more than
      `nThreads` running ones. */
  lemma Bounds(p: PoolState)
    requires Inv(p)
    ensures |p.queue| <= p.nThreads && p.free <= p.nThreads && p.running <= p.nThreads
  {
  }

  /** Before the stop request, a worker whose wait on the used semaphore
      succeeds always obtains the front of the queue. */
  lemma WokenWorkerFindsTask(p: PoolState, w: nat)
    requires Inv(p) && !p.stop && p.used > 0
    requires w < p.nThreads && p.held[w] == Null
    ensures p.queue != [] && Fetch(p, w).1 == p.queue[0]
  {
  }

  /** Under the invariant, `wait()`'s condition holds exactly when all
      `nThreads` free units are back and no worker holds a task. */
  lemma DrainedIff(p: PoolState)
    requires Inv(p)
    ensures Drained(p) <==> p.free == p.nThreads && forall w :: 0 <= w < |p.held| ==> p.held[w] == Null
  {
  }

  /** Completion: with nothing running, one worker taking every queued task in
      turn takes them in queue order and leaves the pool drained, with every
      free unit back. */
  lemma WorkerDrains(p: PoolState, w: nat)
    requires Inv(p) && p.running == 0
    requires w < p.nThreads && p.held[w] == Null
    ensures var (r, tasks) := Worker(p, w, |p.queue|);
      tasks == p.queue && Drained(r) && r.free == r.nThreads && Inv(r)
  {
    assert p.queue[..|p.queue|] == p.queue;
  }

  /** A finishing worker that drains the pool always broadcasts, so a caller
      parked in `wait()` is woken. */
  lemma FinishWakesWaiter(p: PoolState, w: nat)
    requires Inv(p) && w < p.nThreads
    requires !Drained(p) && Drained(Finish(p, w).0)
    ensures Finish(p, w).1
  {
  }

  /** Fetching can drain the pool without any broadcast only when what is
      popped is a NULL pointer: the worker skips the finalize step for it. */
  lemma FetchDrainsOnlyOnNull(p: PoolState, w: nat)
    requires Inv(p) && w < p.nThreads && p.held[w] == Null && p.used > 0
    requires !Drained(p) && Drained(Fetch(p, w).0)
    ensures Fetch(p, w).1 == Null
  {
  }

  /** Admitting a task never leaves the pool drained, so `schedule` and a
      successful `trySchedule` need not broadcast. */
  lemma ScheduleNeverDrains(p: PoolState, t: TaskPtr)
    requires p.free > 0
    ensures !Drained(Schedule(p, t))
    ensures TrySchedule(p, t).1 ==> !Drained(TrySchedule(p, t).0)
  {
  }

  /** The stop request leaves `wait()`'s condition as it was. */
  lemma StopKeepsDrained(p: PoolState)
    ensures Drained(Stop(p)) <==> Drained(p)
  {
  }

  /** A NULL pointer scheduled into an idle one-thread pool is popped without a
      broadcast, leaving the pool drained: a caller that entered `wait()`
      while it was queued stays parked. */
  lemma NullTaskLeavesWaiterParked()
    ensures var p := Schedule(Init(1), Null);
      !Drained(p) && Drained(Fetch(p, 0).0) && Fetch(p, 0).1 == Null && !Finish(Fetch(p, 0).0, 0).1
  {
  }

  /** After the stop request every one of the `nThreads` workers can pass
      its wait on the used semaphore, and a task fetched then is not run but
      is still counted out of running by the finalize step. */
  lemma StoppedWorkerSkipsTask(p: PoolState, w: nat)
    requires Inv(p) && w < p.nThreads && p.held[w] == Null
    ensures Stop(p).used >= p.nThreads + |p.queue|
    ensures var (q, task) := Fetch(Stop(p), w);
      !Runs(q, w) && Finish(q, w).0.running == p.running && (task.Task? ==> Finish(q, w).1 == (p.running == 0))
  {
  }

  /** Backpressure with one thread: a second task is refused while the first
      is queued, admitted once a worker has taken the first, and a third is
      refused again. */
  lemma OneThreadBackpressure(a: TaskPtr, b: TaskPtr, c: TaskPtr)
    requires a.Task?
    ensures var p1 := TrySchedule(Init(1), a);
      var p2 := TrySchedule(p1.0, b);
      var f := Fetch(p1.0, 0);
      var p3 := TrySchedule(f.0, b);
      var p4 := TrySchedule(p3.0, c);
      p1.1 && !p2.1 && p2.0 == p1.0 && f.1 == a && p3.1 && !p4.1 && p4.0.queue == [b]
  {
  }
}
