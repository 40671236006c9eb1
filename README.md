# Process and thread manager: the bookkeeping core

This project models, in Dafny, the three pieces of state-keeping logic in a
small C++ process and thread manager, and proves properties of them.

- **ThreadPool** (`thread_pool.dfy`). A fixed set of worker threads shares one
  FIFO task queue and a `stopping` flag. Every access to them happens under
  the pool's mutex, so each locked section is one atomic transition:
  `submit`, the locked part of `shutdown`, one pass of a worker through the
  locked part of its loop, and a task returning. `PoolState` is the pool's
  state. It holds the queue, the flag and each worker's place in its loop
  (`Idle`, `Running(t)` or `Exited`). It also holds three history variables:
  all tasks submitted, all tasks taken, and how many tasks had been
  submitted when `stopping` was set. `Apply` and `Run` give the effect of
  one action and of a schedule of actions. `Inv` is the pool invariant:
  taken followed by the queue equals submitted, and a worker exits only
  after `stopping` is set and every task submitted before that has been
  taken. The `ThreadPool` class keeps the source's fields. Its methods are
  proved against `Apply`.
- **ThreadManager** (`thread_manager.dfy`). A table of `{tid, name, state}`
  records. `createThread` appends to it. `joinThread` marks the first
  matching entry COMPLETED. `joinAll` marks every RUNNING entry COMPLETED if
  its join succeeds. The codes returned by `pthread_create` and
  `pthread_join` are inputs.
- **ProcessManager** (`process_manager.dfy`). A table of
  `{pid, command, state}` records. The parent side of `createProcess`
  appends to it. `updateProcessStates` refreshes each entry from
  `waitpid(pid, &status, WNOHANG)`. The fork result and the per-entry
  waitpid results are inputs. Under POSIX.1-2017, `waitpid` with `WNOHANG`
  returns 0 when no status is available yet.

Where the pool's design specification and the code differ, the model
follows the code:

- The specification says `submit` after the pool has stopped must report an
  error. The code queues the task without checking `stopping`. The model
  does the same. `LateSubmitIsStranded` shows the result: once every worker
  has exited, a submitted task stays queued. `ExitedPoolTakesNothing` shows
  it is never taken.
- The specification says a task's failure must be contained by the worker.
  The code calls the task with no handler. Task bodies are not modelled.
- The specification asks for at least one worker. The code accepts zero.
  The model allows `numThreads = 0`. Such a pool never takes a task.

## Model

| member | source | states |
|---|---|---|
| `ThreadPool.InitSatisfiesInv` | src/thread_pool.cpp:4-15 | a new pool has `numThreads` idle workers, an empty queue and `stopping` false, and it satisfies the pool invariant |
| `ThreadPool.SubmitAppends` | src/thread_pool.cpp:23-28 | submit puts the task at the back of the queue and changes neither `stopping` nor any worker |
| `ThreadPool.PassBranches` | src/thread_pool.cpp:55-65 | a worker's pass waits iff the queue is empty and `stopping` is false, exits iff the queue is empty and `stopping` is true, and otherwise takes the front task |
| `ThreadPool.WaitIsStutter` | src/thread_pool.cpp:55-57 | a worker's pass leaves the state unchanged exactly when it must wait |
| `ThreadPool.TakeRemovesFront` | src/thread_pool.cpp:64-65 | a take removes exactly the front task and gives it to that worker; no other worker and not the flag changes |
| `ThreadPool.ExitOnlyWhenDrained` | src/thread_pool.cpp:59-62 | a worker becomes Exited only through its own pass, and only when `stopping` is true and the queue is empty |
| `ThreadPool.ShutdownIdempotent` | src/thread_pool.cpp:30-38 | shutdown always leaves `stopping` true; when `stopping` was already true it changes nothing; calling it twice equals calling it once; it changes nothing besides the flag |
| `ThreadPool.StoppingStep` | src/thread_pool.cpp:30-38 | no action clears `stopping`, and only shutdown sets it |
| `ThreadPool.WorkerCountStep` | src/thread_pool.cpp:8 | no action changes the number of workers |
| `ThreadPool.ApplyPreservesInv` | src/thread_pool.cpp:23-69 | every action keeps the pool invariant (taken followed by the queue equals submitted; a worker exits only after everything submitted before shutdown was taken) |
| `ThreadPool.RunPreservesInv` | src/thread_pool.cpp:23-69 | every schedule of actions keeps the pool invariant |
| `ThreadPool.StoppingMonotone` | src/thread_pool.cpp:30-38 | once `stopping` is true, it is still true after any schedule |
| `ThreadPool.WorkerCountConstant` | src/thread_pool.cpp:8-14 | the worker collection keeps the size it had at construction through any schedule |
| `ThreadPool.TakenGrows` | src/thread_pool.cpp:64-65 | the tasks taken so far are a prefix of the tasks taken after any further schedule |
| `ThreadPool.FifoOrder` | src/thread_pool.cpp:23-66 | after any schedule from construction, the tasks taken followed by the queue are exactly the tasks submitted, so tasks are taken in submission order |
| `ThreadPool.NoLostTasks` | src/thread_pool.cpp:36-62 | once any worker has exited, `stopping` is true and every task submitted before it was set has been taken, at its own position in submission order |
| `ThreadPool.QueueEmptyAtLastExit` | src/thread_pool.cpp:59-62 | when the last worker exits, `stopping` is true and the queue is empty |
| `ThreadPool.ExitedPoolTakesNothing` | src/thread_pool.cpp:51-71 | once every worker has exited, no schedule takes another task, and the queue never shrinks |
| `ThreadPool.LateSubmitIsStranded` | src/thread_pool.cpp:23-28 | with one worker, shutdown, that worker's exit, then a submit: every worker has exited and the task is still queued |
| `ThreadPool.ShutdownCanDrain` | src/thread_pool.cpp:36-42 | after shutdown, if one worker has not exited, some schedule runs every queued task and then exits every worker; all submitted tasks are then taken |
| `ThreadPool.ThreadPool.constructor` | src/thread_pool.cpp:4-15 | the object starts in the initial pool state with `numThreads` workers |
| `ThreadPool.ThreadPool.Submit` | src/thread_pool.cpp:23-28 | the new state is `Apply` of a submit: the queue gains the task at its back; the flag and workers are unchanged; the invariant holds |
| `ThreadPool.ThreadPool.Shutdown` | src/thread_pool.cpp:30-38 | `stopping` is true afterwards; a repeated call changes nothing; queue and workers are unchanged |
| `ThreadPool.ThreadPool.WorkerIteration` | src/thread_pool.cpp:53-66 | returns Wait, Exit or Take(front task) exactly under the guards of lines 55 and 59; a take pops the front and the worker runs that task |
| `ThreadPool.ThreadPool.TaskCompleted` | src/thread_pool.cpp:68-70 | a running worker goes back to the top of its loop; queue and flag are unchanged |
| `ThreadManager.FindFirst` | thread_manager.cpp:24-25 | returns the index of the first entry whose tid matches, or None exactly when no entry matches |
| `ThreadManager.Created` | thread_manager.cpp:6-20 | a nonzero create code leaves the table unchanged; code 0 appends exactly one entry `{tid, name, RUNNING}` after the unchanged old entries |
| `ThreadManager.Joined` | thread_manager.cpp:23-37 | joinThread keeps the table's length and every tid and name; only the first matching entry can change; it becomes COMPLETED iff a match exists and the join code is 0; otherwise the table is unchanged |
| `ThreadManager.JoinedAll` | thread_manager.cpp:39-48 | joinAll keeps length, tids and names; an entry is COMPLETED afterwards iff it was COMPLETED or its join code is 0 |
| `ThreadManager.JoinAllIgnoresCompleted` | thread_manager.cpp:40-41 | joinAll's result does not depend on the join codes of COMPLETED entries, which it never joins |
| `ThreadManager.JoinTwice` | thread_manager.cpp:23-33 | after a successful join, joining the same tid again finds the same entry and leaves the table as it is |
| `ThreadManager.ThreadManager.constructor` | thread_manager.cpp:4 | the table starts empty |
| `ThreadManager.ThreadManager.CreateThread` | thread_manager.cpp:6-21 | the table becomes `Created(...)`; returns 0 on a nonzero create code and the new tid otherwise |
| `ThreadManager.ThreadManager.JoinThread` | thread_manager.cpp:23-37 | the loop leaves the table as `Joined(...)`; returns true iff a matching entry exists and its join code is 0 |
| `ThreadManager.ThreadManager.JoinAll` | thread_manager.cpp:39-48 | the loop leaves the table as `JoinedAll(...)` |
| `ProcessManager.SpawnResult` | src/process_manager.cpp:10-43 | createProcess returns -1 when fork fails and the child's pid when fork succeeds in the parent |
| `ProcessManager.Spawned` | src/process_manager.cpp:34-42 | a non-positive fork result leaves the table unchanged; a positive one appends exactly one entry `{pid, args[0], RUNNING}` after the unchanged old entries |
| `ProcessManager.Refreshed` | src/process_manager.cpp:59-71 | updateProcessStates keeps the table's length and every pid and command; each entry's new state comes from its own waitpid result |
| `ProcessManager.RefreshStateCases` | src/process_manager.cpp:62-69 | an entry ends RUNNING iff waitpid returned 0, or returned an error and it was RUNNING; it ends TERMINATED iff waitpid returned its pid, or returned an error and it was TERMINATED; it is never made STOPPED |
| `ProcessManager.OperationsKeepWellFormed` | src/process_manager.cpp:35-70 | neither operation records STOPPED or a non-positive pid, so a table without them never gets one |
| `ProcessManager.RefreshAfterReap` | src/process_manager.cpp:59-71 | polling again, when each child reaped in the first round now reports an error, changes nothing more |
| `ProcessManager.ProcessManager.constructor` | src/process_manager.cpp:7 | the table starts empty and well formed |
| `ProcessManager.ProcessManager.CreateProcess` | src/process_manager.cpp:10-43 | the table becomes `Spawned(...)`; in the parent the result is -1 on fork failure and the pid otherwise; the table stays free of STOPPED |
| `ProcessManager.ProcessManager.UpdateProcessStates` | src/process_manager.cpp:59-71 | the loop rewrites states in place and leaves the table as `Refreshed(...)`; the table stays free of STOPPED |

## Left out

- Threads, the mutex, the condition variable and the difference between signal and broadcast are not modelled. Each locked section is one atomic action in a schedule.
- The blocking `pthread_join` loop in `shutdown` (src/thread_pool.cpp:40-42) is not modelled as a step. `ShutdownCanDrain` shows instead that the workers can all exit after shutdown.
- The destructor (src/thread_pool.cpp:17-21) calls `shutdown` and then destroys the mutex and condition variable. It adds nothing beyond `Shutdown`.
- `workerEntry` (src/thread_pool.cpp:45-49) only forwards to `workerLoop`. It is not modelled.
- Task bodies are not modelled. Tasks are opaque ids. The source runs them with no exception handler, so a throwing task's effect is C++ runtime behaviour.
- A failed `pthread_create` in the pool constructor (src/thread_pool.cpp:10-13) is not modelled. The model assumes every worker starts. The source would later join an uninitialised handle.
- ThreadManager: the thread function and its argument are only passed on to `pthread_create`, so they are not modelled. Error messages and `printThreadTable` are console output.
- ThreadManager.ThreadManager.JoinAll: the join results are a sequence with one code per table entry, in table order. The code for an entry that is not RUNNING is never used. This sequence stands in for calls to `pthread_join`.
- ProcessManager.ProcessManager.UpdateProcessStates: the waitpid results are a sequence with one result per table entry, in table order. This stands in for the calls to `waitpid`. It lets two entries with the same pid get different answers, as they can in the source.
- ProcessManager.ProcessManager.CreateProcess: the child branch (fork result 0, src/process_manager.cpp:18-32) is not modelled. It calls `execvp` or `exit` and never returns. The model leaves the table unchanged there and returns 0, a value the source never returns.
- ProcessManager.ProcessManager.CreateProcess: a successful fork requires `args` to be non-empty, because the source reads `args[0]`.
- `terminateProcess` only calls `kill`. `printProcessTable` is console output. Neither is modelled.
- `src/ipc_manager.cpp`, `ipc_manager.h` and `Include/ipc_manager.h` are thin wrappers over pipe, FIFO and shared-memory system calls. They are not part of this model. Neither is the demo driver `main.cpp`.
- `pid_t` and `pthread_t` are unbounded integers in the model. The source does no arithmetic on them, so their width does not matter.
