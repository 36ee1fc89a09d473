/** The `ThreadPool` class: its fields updated in place by each operation, one
    critical section per method. Every method is proved to perform exactly the
    corresponding step of `PoolSteps` and to keep the pool's invariant. */
module MThreadPool {
  import opened PoolSteps

  class ThreadPool {
    const nThreads: nat
    var taskQueue: seq<TaskPtr>
    var semFree: nat
    var semUsed: nat
    var runningTasks: nat
    var stopFlag: bool
    /** The `task` local of each worker thread's loop. */
    ghost var workerTask: seq<TaskPtr>

    /** The pool as a value of the state machine. */
    ghost function State(): PoolState
      reads this
    {
      PoolState(nThreads, taskQueue, semFree, semUsed, runningTasks, stopFlag, workerTask)
    }

    ghost predicate Valid()
      reads this
    {
      Inv(State())
    }

    /** The constructor: nothing queued or running, no stop request, the free
        semaphore at `n` and the used semaphore at 0. */
    constructor (n: nat)
      requires n <= MaxThreads
      ensures Valid() && State() == Init(n)
    {
      nThreads := n;
      stopFlag := false;
      runningTasks := 0;
      semFree := n;
      semUsed := 0;
      taskQueue := [];
      workerTask := seq(n, _ => Null);
    }

    /** `schedule`: the wait on the free semaphore blocks until a unit is free,
        which is the precondition here; the task is then pushed unconditionally
        and a used unit posted. */
    method Schedule(task: TaskPtr) returns (ok: bool)
      requires Valid() && semFree > 0
      modifies this
      ensures Valid() && ok
      ensures State() == PoolSteps.Schedule(old(State()), task)
    {
      semFree := semFree - 1;
      taskQueue := taskQueue + [task];
      semUsed := semUsed + 1;
      ok := true;
    }

    /** `trySchedule`: like `schedule`, but with no free unit it returns false
        at once and changes nothing. */
    method TrySchedule(task: TaskPtr) returns (ok: bool)
      requires Valid()
      modifies this
      ensures Valid()
      ensures (State(), ok) == PoolSteps.TrySchedule(old(State()), task)
    {
      if semFree > 0 {
        semFree := semFree - 1;
        taskQueue := taskQueue + [task];
        semUsed := semUsed + 1;
        ok := true;
      } else {
        ok := false;
      }
    }

    /** `wait()`: one evaluation of the condition of its loop. True means
        `wait()` returns; false means the caller parks on the done condition
        until a finalize step broadcasts it, then evaluates again. */
    method Wait() returns (drained: bool)
      requires Valid()
      ensures drained <==> taskQueue == [] && runningTasks == 0
      ensures drained ==> semFree == nThreads
    {
      drained := taskQueue == [] && runningTasks == 0;
    }

    /** Fetch part of the loop of worker `w`, once its wait on the used
        semaphore has succeeded: pop the front task if any, returning its free
        unit, and count the worker as running if it obtained a task. */
    method FetchNext(w: nat) returns (task: TaskPtr)
      requires Valid() && w < nThreads && workerTask[w] == Null && semUsed > 0
      modifies this
      ensures Valid()
      ensures (State(), task) == Fetch(old(State()), w)
    {
      semUsed := semUsed - 1;
      task := Null;
      if taskQueue != [] {
        task := taskQueue[0];
        taskQueue := taskQueue[1..];
        semFree := semFree + 1;
      }
      if task.Task? {
        runningTasks := runningTasks + 1;
      }
      workerTask := workerTask[w := task];
      BusyUpdate(old(workerTask), w, task);
    }

    /** Execute part of the loop of worker `w`: the task is run only if there
        is one and the stop flag is clear. The task body is opaque here. */
    method Execute(w: nat, task: TaskPtr) returns (ran: bool)
      requires Valid() && w < nThreads && task == workerTask[w]
      ensures ran == Runs(State(), w)
      ensures ran ==> task.Task? && !stopFlag
    {
      ran := task.Task? && !stopFlag;
    }

    /** Finalize part of the loop of worker `w`: a worker that obtained a task
        counts it out of running and broadcasts the done condition when the
        counter reaches 0. */
    method FinishTask(w: nat, task: TaskPtr) returns (broadcast: bool)
      requires Valid() && w < nThreads && task == workerTask[w]
      modifies this
      ensures Valid()
      ensures (State(), broadcast) == Finish(old(State()), w)
    {
      broadcast := false;
      if task.Task? {
        BusyUpdate(workerTask, w, Null);
        runningTasks := runningTasks - 1;
        workerTask := workerTask[w := Null];
        if runningTasks == 0 {
          broadcast := true;
        }
      }
    }

    /** The destructor's stop request. It warns (returns true) when tasks are
        still queued or running, then sets the stop flag and posts `nThreads`
        used units to wake every worker. */
    method RequestStop() returns (warning: bool)
      requires Valid()
      modifies this
      ensures Valid()
      ensures warning == !Drained(old(State()))
      ensures State() == Stop(old(State()))
    {
      warning := taskQueue != [] || runningTasks > 0;
      stopFlag := true;
      semUsed := semUsed + nThreads;
    }
  }

  /** A producer scheduling two tasks into a fresh two-thread pool, and two
      workers each taking one: they take them in scheduling order, and the
      second to finish broadcasts, after which `wait()` returns. */
  method FifoScenario(a: TaskPtr, b: TaskPtr)
    requires a.Task? && b.Task?
  {
    var pool := new ThreadPool(2);
    var ok := pool.Schedule(a);
    ok := pool.Schedule(b);
    var full := pool.TrySchedule(Task(7));
    assert !full;
    var t0 := pool.FetchNext(0);
    var t1 := pool.FetchNext(1);
    assert t0 == a && t1 == b;
    var ran := pool.Execute(0, t0);
    assert ran;
    var done := pool.FinishTask(0, t0);
    assert !done;
    done := pool.FinishTask(1, t1);
    assert done;
    var drained := pool.Wait();
    assert drained;
  }
}
