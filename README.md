# MThreadPool bookkeeping in Dafny

MThreadPool is a fixed-size worker-thread pool. A producer hands it tasks
(`ITask*`) with `schedule`, which blocks while the pool is full, or with
`trySchedule`, which fails instead. Worker threads take tasks from a FIFO
queue, run them and count them out again. `wait()` blocks until nothing is
queued and nothing is running. The destructor stops the workers.

The pool's coordination rests on two counting semaphores and a mutex:

- `m_semFree` counts free queue slots and starts at `nThreads`;
- `m_semUsed` counts queued entries a worker may take and starts at 0;
- `m_lock` protects the queue and the running counter.

This project models that bookkeeping as a state machine of atomic steps, one
step per critical section. A semaphore is a counter, and a blocking wait on
it is the precondition that the counter is positive. It also models
`getNumberOfProcessors`, the helper that counts the processors a process
may run on.

- `PoolSteps` (`pool_steps.dfy`) holds the state, the steps and the lemmas.
  - The state is a `PoolState` value: the queue, the two semaphore values,
    the running counter, the stop flag, `nThreads`, and the `task` local
    variable of each worker thread (`held`).
  - The steps are `Init`, `Schedule`, `TrySchedule`, `Fetch`, `Runs`,
    `Finish` and `Stop`, plus `Cycle` and `Worker` for whole passes of the
    worker loop.
  - `Inv` is the invariant the pool keeps without saying so. Free units plus
    queue length always equal `nThreads`, so the queue's capacity is
    `nThreads`. Every queued entry has a used unit, and before the stop
    request there are no other used units. The running counter equals the
    number of workers holding a task.
- `MThreadPool` (`thread_pool.dfy`) holds the class `ThreadPool`. Its fields
  are updated in place, and each method is proved to perform exactly one
  step of `PoolSteps` and to keep `Inv`.
- `PlatformSupport` (`platform_support.dfy`) models the Windows bit-counting
  loop over a 64-bit affinity mask, the Linux count, the fallback to 1 when
  the query fails, and the clamp to at least 1.

Tasks are opaque pointers (`TaskPtr`), and `Null` is one of them.
`schedule` pushes whatever it is given. The worker treats a NULL it pops as
"no task": it does not count it as running and skips the finalize step, so
it broadcasts nothing. `NullTaskLeavesWaiterParked` shows the consequence.
If popping a NULL empties an idle pool, a caller already parked in `wait()`
is not woken. This is the only way the pool becomes drained without a
broadcast: `FinishWakesWaiter` covers the finalize step, `FetchDrainsOnlyOnNull`
the fetch step, `ScheduleNeverDrains` both admissions (a refused `trySchedule`
changes nothing), and `StopKeepsDrained` the stop request.

MThreadPool has no per-task wait, no listeners, no duplicate detection and no
separate maximum queue length. `schedule` pushes unconditionally
(ThreadPool.cpp:94), and the queue's capacity is `nThreads`.

## Model

| member | source | states |
|---|---|---|
| PoolSteps.Busy | MThreadPoolAPI/src/ThreadPool.cpp:206-209 | the number of workers holding a task is at most the number of workers, and is zero exactly when every worker holds nothing |
| PoolSteps.BusyUpdate | MThreadPoolAPI/src/ThreadPool.cpp:206-209 | changing what one worker holds changes the busy count by one exactly when a task is gained or given up |
| PoolSteps.Init | MThreadPoolAPI/src/ThreadPool.cpp:19-34 | a new pool has an empty queue, nothing running, no stop request, `nThreads` free units and no used unit, and satisfies the invariant |
| PoolSteps.Schedule | MThreadPoolAPI/src/ThreadPool.cpp:91-99 | once a free unit is taken, the task is appended at the back of the queue, one free unit is gone, one used unit is added, and the invariant is kept |
| PoolSteps.TrySchedule | MThreadPoolAPI/src/ThreadPool.cpp:117-131 | succeeds exactly when a free unit exists, which under the invariant means fewer than `nThreads` tasks are queued; on success it is `Schedule`, and on failure nothing changes |
| PoolSteps.Drained | MThreadPoolAPI/src/ThreadPool.cpp:156 | `wait()`'s loop exits exactly when the queue length plus the running count is zero, so no task is left to fetch |
| PoolSteps.Runs | MThreadPoolAPI/src/ThreadPool.cpp:217 | a worker runs its task only if it holds a non-NULL task, and never once the stop flag is set |
| PoolSteps.ScheduleNeverDrains | MThreadPoolAPI/src/ThreadPool.cpp:91-99 | admitting a task, by `schedule` or a successful `trySchedule`, never leaves the pool drained, so neither needs to broadcast |
| PoolSteps.StopKeepsDrained | MThreadPoolAPI/src/ThreadPool.cpp:56-57 | the stop request neither drains the pool nor undrains it |
| PoolSteps.Fetch | MThreadPoolAPI/src/ThreadPool.cpp:196-211 | consumes one used unit; pops the front of the queue and returns its free unit if the queue is non-empty, else changes nothing more; running grows by one exactly when a task was obtained; keeps the invariant |
| PoolSteps.Finish | MThreadPoolAPI/src/ThreadPool.cpp:233-244 | only a worker holding a task decrements running and lets go of the task; the done condition is broadcast exactly when running reaches 0; keeps the invariant |
| PoolSteps.Stop | MThreadPoolAPI/src/ThreadPool.cpp:56-57 | sets the stop flag, posts `nThreads` used units, changes nothing else, and keeps the invariant |
| PoolSteps.Cycle | MThreadPoolAPI/src/ThreadPool.cpp:188-245 | one pass of the worker loop over a non-empty queue takes the front task, gives its free unit back, and leaves the running counter and worker state as before |
| PoolSteps.Worker | MThreadPoolAPI/src/ThreadPool.cpp:188-245 | k passes of one worker's loop take exactly the first k queued tasks in queue order (FIFO) and give back k free units |
| PoolSteps.Bounds | MThreadPoolAPI/src/ThreadPool.cpp:91-94 | under the invariant, at most `nThreads` tasks are queued and at most `nThreads` are running |
| PoolSteps.WokenWorkerFindsTask | MThreadPoolAPI/src/ThreadPool.cpp:196-204 | before the stop request, a worker whose wait on the used semaphore succeeds always finds the queue non-empty and obtains its front |
| PoolSteps.DrainedIff | MThreadPoolAPI/src/ThreadPool.cpp:156 | `wait()`'s exit condition holds exactly when all free units are back and no worker holds a task |
| PoolSteps.WorkerDrains | MThreadPoolAPI/src/ThreadPool.cpp:188-245 | with nothing running, one worker working through the whole queue takes every queued task in order and leaves the pool drained with all free units back |
| PoolSteps.FinishWakesWaiter | MThreadPoolAPI/src/ThreadPool.cpp:237-241 | a finalize step that makes the pool drained always broadcasts the done condition |
| PoolSteps.FetchDrainsOnlyOnNull | MThreadPoolAPI/src/ThreadPool.cpp:199-209 | a fetch makes the pool drained only by popping a NULL pointer |
| PoolSteps.NullTaskLeavesWaiterParked | MThreadPoolAPI/src/ThreadPool.cpp:206-244 | a scheduled NULL popped from an idle one-thread pool drains it with no broadcast, so a parked `wait()` is not woken |
| PoolSteps.StoppedWorkerSkipsTask | MThreadPoolAPI/src/ThreadPool.cpp:217-237 | after the stop request every worker can pass its used-semaphore wait, and a task fetched then is not run but is still counted out of running |
| PoolSteps.OneThreadBackpressure | MThreadPoolAPI/src/ThreadPool.cpp:117-131 | with one thread, a second `trySchedule` fails while the first task is queued, succeeds once a worker has taken it, and a third then fails |
| MThreadPool.ThreadPool.constructor | MThreadPoolAPI/src/ThreadPool.cpp:19-34 | the constructed object is in the state `Init(n)` and satisfies the invariant |
| MThreadPool.ThreadPool.Schedule | MThreadPoolAPI/src/ThreadPool.cpp:87-99 | with a free unit available, updates the fields exactly as `Schedule` does, keeps the invariant, and returns true |
| MThreadPool.ThreadPool.TrySchedule | MThreadPoolAPI/src/ThreadPool.cpp:113-131 | the new fields and the result are exactly those of `TrySchedule`, and the invariant is kept |
| MThreadPool.ThreadPool.Wait | MThreadPoolAPI/src/ThreadPool.cpp:150-163 | the loop condition of `wait()` is false exactly when the queue is empty and nothing is running, and then all free units are back |
| MThreadPool.ThreadPool.FetchNext | MThreadPoolAPI/src/ThreadPool.cpp:196-211 | updates the fields and returns the task exactly as `Fetch` does, and keeps the invariant |
| MThreadPool.ThreadPool.Execute | MThreadPoolAPI/src/ThreadPool.cpp:217-227 | the task is run exactly when the worker holds one and the stop flag is clear |
| MThreadPool.ThreadPool.FinishTask | MThreadPoolAPI/src/ThreadPool.cpp:233-244 | updates the fields and decides the broadcast exactly as `Finish` does, and keeps the invariant |
| MThreadPool.ThreadPool.RequestStop | MThreadPoolAPI/src/ThreadPool.cpp:47-57 | warns exactly when tasks are still queued or running, then performs `Stop` and keeps the invariant |
| PlatformSupport.CountBelow | MThreadPoolAPI/src/PlatformSupport.cpp:32-35 | counting the set bits among the first k positions gives at most k |
| PlatformSupport.CountBelowZero | MThreadPoolAPI/src/PlatformSupport.cpp:32-35 | no set bit is counted below position k exactly when the mask has no bit set below k |
| PlatformSupport.PopCountZero | MThreadPoolAPI/src/PlatformSupport.cpp:44-47 | the count of set bits is 0 exactly when the mask is 0, so the clamp to 1 only applies to an empty mask |
| PlatformSupport.CountBelowFull | MThreadPoolAPI/src/PlatformSupport.cpp:32-35 | a mask with every bit set counts every position, so the count can reach the word width |
| PlatformSupport.CountAffinityBits | MThreadPoolAPI/src/PlatformSupport.cpp:32-35 | the loop whose test bit shifts left until it overflows to zero returns the number of set bits of the mask |
| PlatformSupport.NumberOfProcessorsWindows | MThreadPoolAPI/src/PlatformSupport.cpp:24-50 | the result is between 1 and 64; it is 1 when the query fails or the mask is 0, and otherwise the number of set bits of the process affinity mask |
| PlatformSupport.NumberOfProcessorsLinux | MThreadPoolAPI/src/PlatformSupport.cpp:70-94 | the result is at least 1; it is 1 when the query fails, and otherwise the reported count raised to 1 if it is 0 |

## Left out

- Threads themselves are not modelled. This covers thread creation in the constructor (ThreadPool.cpp:37-42), the join in the destructor (ThreadPool.cpp:60-63), and the blocking and wakeup of `sem_wait` and `pthread_cond_wait`. The model is sequential, so each step is one atomic transition and interleavings appear only as orders of steps.
- A blocking semaphore wait (in `schedule` and at the top of the worker loop) is modelled as the precondition that the counter is positive, not as a thread that sleeps.
- `wait()` is modelled as one evaluation of its loop condition, because the loop only waits for other threads.
- The worker loop's unlocked check of the volatile stop flag (ThreadPool.cpp:188) is not a step of its own. A worker may fetch whether or not the flag is set, which is what happens when the flag is set while the worker waits on the used semaphore.
- After the join, the destructor destroys the semaphores, the condition variable and the mutex, and discards queued tasks (ThreadPool.cpp:65-80). The pool no longer exists after that, so the model ends at the stop request.
- Logging is left out; it is stderr output only.
- The model assumes the pthread and semaphore wrappers in ThreadUtils.h never fail. Each of them throws when its call returns non-zero (ThreadUtils.h:85-122), for example `sem_post` at `SEM_VALUE_MAX`. The catch blocks that turn such a throw into `false` are therefore not modelled: in `schedule` (ThreadPool.cpp:101-110), `trySchedule` (ThreadPool.cpp:133-142), `wait()` (ThreadPool.cpp:165-174) and the worker loop (ThreadPool.cpp:247-254, which ends that worker thread). Consequences the model does not capture: `Schedule` and `TrySchedule` never return false for an internal failure, and `Wait` never reports one. If the post of the used unit at ThreadPool.cpp:97 or :124 throws, the task has already been pushed but has no used unit, so the invariant that each queued task has a used unit no longer holds.
- Exceptions thrown by a task's own `run` are caught and logged at ThreadPool.cpp:223-226. The worker then goes on to the finalize step, which is the only path the model has, since `ITask::run` is caller code and the execute step only decides whether it would be called.
- Semaphore counters are unbounded; the model does not capture `SEM_VALUE_MAX`.
- PlatformSupport.NumberOfProcessorsWindows: models a 64-bit `DWORD_PTR`. A 32-bit build runs the same loop over 32 positions.
- The operating-system queries are parameters: `GetProcessAffinityMask` gives success and the process mask, and `sched_getaffinity` with `CPU_COUNT_S` gives success and the count.
- `allocatePool`, `destroyPool` and `getVersionInfo` (MThreadPoolAPI.cpp) are left out: the first is a stub returning NULL and the others have no logic to verify. The command-line demo is left out as well.
