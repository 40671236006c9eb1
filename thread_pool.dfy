/*
 * The worker pool of src/thread_pool.cpp as a state machine.
 *
 * Every read or write of the pool's shared state (the task queue, the
 * stopping flag) happens while the pool's mutex is held, so each locked
 * section is one atomic transition here. Threads, the mutex, the condition
 * variable and pthread_join are not modelled; tasks are opaque ids.
 *
 * Besides the source's own state, a PoolState carries three history
 * variables that nothing in the source reads: every task ever submitted,
 * every task ever dequeued, and how many tasks had been submitted when the
 * stopping flag was set. They exist only so that "FIFO" and "no queued task
 * is lost" can be stated.
 */
module ThreadPool {

  /** A task is opaque: only its identity matters to the pool. */
  type TaskId = nat

  /** Where a worker thread is in workerLoop. */
  datatype WorkerStatus =
    | Idle                   // at the top of the loop: locking, or blocked in the wait
    | Running(task: TaskId)  // executing a dequeued task outside the lock
    | Exited                 // left the loop; the thread has returned

  datatype PoolState = PoolState(
    taskQueue: seq<TaskId>,
    stopping: bool,
    workers: seq<WorkerStatus>,
    submitted: seq<TaskId>,   // history: every task ever pushed, in order
    taken: seq<TaskId>,       // history: every task ever popped, in order
    queuedAtShutdown: nat)    // history: |submitted| when stopping became true

  /** One atomic step of some thread. */
  datatype Action =
    | SubmitTask(task: TaskId)  // a producer's call of submit
    | RequestShutdown           // the locked section of shutdown
    | Iterate(worker: nat)      // one pass of a worker through the locked section of its loop
    | Complete(worker: nat)     // a worker's task returns and the worker loops back

  /** The result of one pass of a worker through its locked section. */
  datatype Outcome = Wait | Exit | Take(task: TaskId)

  /** The pool right after construction: every worker starts idle. */
  function Init(numThreads: nat): PoolState {
    PoolState([], false, seq(numThreads, _ => Idle), [], [], 0)
  }

  /** The guard of the inner wait loop. */
  predicate MustWait(s: PoolState) {
    |s.taskQueue| == 0 && !s.stopping
  }

  /** The guard of the exit branch. */
  predicate MustExit(s: PoolState) {
    s.stopping && |s.taskQueue| == 0
  }

  predicate IsIdle(s: PoolState, w: nat) {
    w < |s.workers| && s.workers[w] == Idle
  }

  predicate AllExited(s: PoolState) {
    forall w | 0 <= w < |s.workers| :: s.workers[w] == Exited
  }

  predicate SomeExited(s: PoolState) {
    exists w | 0 <= w < |s.workers| :: s.workers[w] == Exited
  }

  /** What a worker's pass through the locked section does, branch by branch. */
  function PassOutcome(s: PoolState): Outcome {
    if MustWait(s) then Wait
    else if MustExit(s) then Exit
    else Take(s.taskQueue[0])
  }

  function Enqueue(s: PoolState, t: TaskId): PoolState {
    s.(taskQueue := s.taskQueue + [t], submitted := s.submitted + [t])
  }

  function Stop(s: PoolState): PoolState {
    if s.stopping then s
    else s.(stopping := true, queuedAtShutdown := |s.submitted|)
  }

  function Pass(s: PoolState, w: nat): PoolState
    requires IsIdle(s, w)
  {
    match PassOutcome(s)
    case Wait => s
    case Exit => s.(workers := s.workers[w := Exited])
    case Take(t) =>
      s.(taskQueue := s.taskQueue[1..],
         workers := s.workers[w := Running(t)],
         taken := s.taken + [t])
  }

  /** The effect of an action; an action its thread cannot take in s leaves s as it is. */
  function Apply(s: PoolState, a: Action): PoolState {
    match a
    case SubmitTask(t) => Enqueue(s, t)
    case RequestShutdown => Stop(s)
    case Iterate(w) => if IsIdle(s, w) then Pass(s, w) else s
    case Complete(w) =>
      if w < |s.workers| && s.workers[w].Running? then s.(workers := s.workers[w := Idle]) else s
  }

  /** The state after a schedule of actions, taken left to right. */
  function Run(s: PoolState, acts: seq<Action>): PoolState
    decreases |acts|
  {
    if acts == [] then s else Run(Apply(s, acts[0]), acts[1..])
  }

  /**
   * The pool invariant: the tasks taken so far followed by the queue are
   * exactly the tasks submitted so far, and a worker has exited only after
   * stopping was set and every task submitted before that was taken.
   */
  predicate Inv(s: PoolState) {
    && s.submitted == s.taken + s.taskQueue
    && (s.stopping ==> s.queuedAtShutdown <= |s.submitted|)
    && (forall w | 0 <= w < |s.workers| ::
          s.workers[w] == Exited ==> s.stopping && s.queuedAtShutdown <= |s.taken|)
  }

  // ---------------------------------------------------------------------
  // Single steps
  // ---------------------------------------------------------------------

  lemma InitSatisfiesInv(n: nat)
    ensures Inv(Init(n))
    ensures |Init(n).workers| == n && !Init(n).stopping && Init(n).taskQueue == []
    ensures forall w | 0 <= w < n :: IsIdle(Init(n), w)
  {
  }

  /** submit pushes the task at the back and changes neither the flag nor any worker. */
  lemma SubmitAppends(s: PoolState, t: TaskId)
    ensures Apply(s, SubmitTask(t)).taskQueue == s.taskQueue + [t]
    ensures Apply(s, SubmitTask(t)).taskQueue[|s.taskQueue|] == t
    ensures Apply(s, SubmitTask(t)).stopping == s.stopping
    ensures Apply(s, SubmitTask(t)).workers == s.workers
  {
  }

  /**
   * The three branches of a worker's pass are exclusive and exhaustive:
   * it waits exactly when the queue is empty and stopping is false, exits
   * exactly when stopping is true and the queue is empty, and otherwise
   * takes the task at the front.
   */
  lemma PassBranches(s: PoolState)
    ensures PassOutcome(s) == Wait <==> |s.taskQueue| == 0 && !s.stopping
    ensures PassOutcome(s) == Exit <==> |s.taskQueue| == 0 && s.stopping
    ensures PassOutcome(s).Take? <==> |s.taskQueue| > 0
    ensures PassOutcome(s).Take? ==> PassOutcome(s).task == s.taskQueue[0]
  {
  }

  /** A waiting pass is the only pass that changes nothing. */
  lemma WaitIsStutter(s: PoolState, w: nat)
    requires IsIdle(s, w)
    ensures Apply(s, Iterate(w)) == s <==> MustWait(s)
  {
  }

  /** A take removes exactly the front task and hands it to the worker; nobody else moves. */
  lemma TakeRemovesFront(s: PoolState, w: nat)
    requires IsIdle(s, w) && |s.taskQueue| > 0
    ensures Apply(s, Iterate(w)).taskQueue == s.taskQueue[1..]
    ensures Apply(s, Iterate(w)).workers[w] == Running(s.taskQueue[0])
    ensures Apply(s, Iterate(w)).taken == s.taken + [s.taskQueue[0]]
    ensures forall v | 0 <= v < |s.workers| && v != w :: Apply(s, Iterate(w)).workers[v] == s.workers[v]
    ensures Apply(s, Iterate(w)).stopping == s.stopping
  {
  }

  /** A worker becomes Exited only when stopping is set and the queue is empty. */
  lemma ExitOnlyWhenDrained(s: PoolState, a: Action, w: nat)
    requires w < |s.workers| && s.workers[w] != Exited
    requires Apply(s, a).workers[w] == Exited
    ensures s.stopping && s.taskQueue == []
    ensures a == Iterate(w)
  {
  }

  /** The first shutdown sets stopping; any later call changes nothing. */
  lemma ShutdownIdempotent(s: PoolState)
    ensures Apply(s, RequestShutdown).stopping
    ensures s.stopping ==> Apply(s, RequestShutdown) == s
    ensures Apply(Apply(s, RequestShutdown), RequestShutdown) == Apply(s, RequestShutdown)
    ensures Apply(s, RequestShutdown).(stopping := s.stopping, queuedAtShutdown := s.queuedAtShutdown) == s
  {
  }

  /** Only a shutdown sets stopping, and no action clears it. */
  lemma StoppingStep(s: PoolState, a: Action)
    ensures s.stopping ==> Apply(s, a).stopping
    ensures !s.stopping && Apply(s, a).stopping ==> a == RequestShutdown
  {
  }

  /** No action changes the number of workers. */
  lemma WorkerCountStep(s: PoolState, a: Action)
    ensures |Apply(s, a).workers| == |s.workers|
  {
  }

  /** Every action keeps the invariant. */
  lemma ApplyPreservesInv(s: PoolState, a: Action)
    requires Inv(s)
    ensures Inv(Apply(s, a))
  {
  }

  // ---------------------------------------------------------------------
  // Whole schedules
  // ---------------------------------------------------------------------

  lemma {:induction false} RunPreservesInv(s: PoolState, acts: seq<Action>)
    requires Inv(s)
    ensures Inv(Run(s, acts))
    decreases |acts|
  {
    if acts != [] {
      ApplyPreservesInv(s, acts[0]);
      RunPreservesInv(Apply(s, acts[0]), acts[1..]);
    }
  }

  /** stopping is never reset once it is true. */
  lemma {:induction false} StoppingMonotone(s: PoolState, acts: seq<Action>)
    requires s.stopping
    ensures Run(s, acts).stopping
    decreases |acts|
  {
    if acts != [] {
      StoppingStep(s, acts[0]);
      StoppingMonotone(Apply(s, acts[0]), acts[1..]);
    }
  }

  /** The worker collection keeps its size through any schedule. */
  lemma {:induction false} WorkerCountConstant(s: PoolState, acts: seq<Action>)
    ensures |Run(s, acts).workers| == |s.workers|
    decreases |acts|
  {
    if acts != [] {
      WorkerCountStep(s, acts[0]);
      WorkerCountConstant(Apply(s, acts[0]), acts[1..]);
    }
  }

  /** The history of takes only grows. */
  lemma {:induction false} TakenGrows(s: PoolState, acts: seq<Action>)
    ensures s.taken <= Run(s, acts).taken
    decreases |acts|
  {
    if acts != [] {
      var s' := Apply(s, acts[0]);
      assert s.taken <= s'.taken;
      TakenGrows(s', acts[1..]);
    }
  }

  /**
   * From construction on, tasks are dequeued in submission order: the tasks
   * taken so far are a prefix of the tasks submitted so far, and the queue
   * holds the rest in order.
   */
  lemma FifoOrder(n: nat, acts: seq<Action>)
    ensures Run(Init(n), acts).taken + Run(Init(n), acts).taskQueue == Run(Init(n), acts).submitted
    ensures Run(Init(n), acts).taken <= Run(Init(n), acts).submitted
  {
    InitSatisfiesInv(n);
    RunPreservesInv(Init(n), acts);
  }

  /**
   * No task queued before shutdown is lost: once any worker has exited,
   * every task submitted before stopping was set has been taken, in
   * submission order.
   */
  lemma NoLostTasks(n: nat, acts: seq<Action>)
    requires SomeExited(Run(Init(n), acts))
    ensures Run(Init(n), acts).stopping
    ensures Run(Init(n), acts).queuedAtShutdown <= |Run(Init(n), acts).taken| <= |Run(Init(n), acts).submitted|
    ensures forall i | 0 <= i < Run(Init(n), acts).queuedAtShutdown ::
              Run(Init(n), acts).taken[i] == Run(Init(n), acts).submitted[i]
  {
    var s := Run(Init(n), acts);
    InitSatisfiesInv(n);
    RunPreservesInv(Init(n), acts);
    var w :| 0 <= w < |s.workers| && s.workers[w] == Exited;
  }

  /** When the last worker exits, the queue is empty. */
  lemma QueueEmptyAtLastExit(s: PoolState, a: Action)
    requires |s.workers| > 0 && !AllExited(s) && AllExited(Apply(s, a))
    ensures s.stopping && s.taskQueue == [] && Apply(s, a).taskQueue == []
  {
    var w :| 0 <= w < |s.workers| && s.workers[w] != Exited;
    WorkerCountStep(s, a);
    ExitOnlyWhenDrained(s, a, w);
  }

  /** Once every worker has exited, no schedule takes another task. */
  lemma {:induction false} ExitedPoolTakesNothing(s: PoolState, acts: seq<Action>)
    requires AllExited(s)
    ensures AllExited(Run(s, acts)) && Run(s, acts).taken == s.taken
    ensures |s.taskQueue| <= |Run(s, acts).taskQueue|
    decreases |acts|
  {
    if acts != [] {
      var s' := Apply(s, acts[0]);
      WorkerCountStep(s, acts[0]);
      assert AllExited(s') && s'.taken == s.taken && |s.taskQueue| <= |s'.taskQueue|;
      ExitedPoolTakesNothing(s', acts[1..]);
    }
  }

  /**
   * submit does not check stopping: a task submitted after every worker has
   * exited is queued and, by ExitedPoolTakesNothing, never taken.
   */
  lemma LateSubmitIsStranded()
    ensures AllExited(Run(Init(1), [RequestShutdown, Iterate(0), SubmitTask(7)]))
    ensures Run(Init(1), [RequestShutdown, Iterate(0), SubmitTask(7)]).taskQueue == [7]
  {
  }

  // ---------------------------------------------------------------------
  // Draining after shutdown
  // ---------------------------------------------------------------------

  lemma {:induction false} RunConcat(s: PoolState, a: seq<Action>, b: seq<Action>)
    ensures Run(s, a + b) == Run(Run(s, a), b)
    decreases |a|
  {
    if a != [] {
      assert (a + b)[0] == a[0];
      assert (a + b)[1..] == a[1..] + b;
      RunConcat(Apply(s, a[0]), a[1..], b);
    } else {
      assert a + b == b;
    }
  }

  lemma RunTwo(s: PoolState, a: Action, b: Action)
    ensures Run(s, [a, b]) == Apply(Apply(s, a), b)
  {
    assert [a, b][1..] == [b];
    assert Run(s, [a, b]) == Run(Apply(s, a), [b]);
    assert [b][1..] == [];
    assert Run(Apply(s, a), [b]) == Run(Apply(Apply(s, a), b), []);
  }

  /** Every worker below n lets its current task return, in index order. */
  function CompleteAll(n: nat): seq<Action>
  {
    if n == 0 then [] else CompleteAll(n - 1) + [Complete(n - 1)]
  }

  /** Every worker below n makes one pass through its locked section, in index order. */
  function IterateAll(n: nat): seq<Action>
  {
    if n == 0 then [] else IterateAll(n - 1) + [Iterate(n - 1)]
  }

  /** Worker w takes and runs n tasks, one after the other. */
  function TakeAndRun(w: nat, n: nat): seq<Action>
  {
    if n == 0 then [] else [Iterate(w), Complete(w)] + TakeAndRun(w, n - 1)
  }

  lemma {:induction false} CompleteAllEffect(s: PoolState, n: nat)
    requires n <= |s.workers|
    ensures Run(s, CompleteAll(n)).(workers := s.workers) == s
    ensures |Run(s, CompleteAll(n)).workers| == |s.workers|
    ensures forall v | 0 <= v < |s.workers| ::
              Run(s, CompleteAll(n)).workers[v] == if v < n && s.workers[v].Running? then Idle else s.workers[v]
    decreases n
  {
    if n > 0 {
      CompleteAllEffect(s, n - 1);
      RunConcat(s, CompleteAll(n - 1), [Complete(n - 1)]);
    }
  }

  lemma {:induction false} IterateAllEffect(s: PoolState, n: nat)
    requires n <= |s.workers| && MustExit(s)
    requires forall v | 0 <= v < |s.workers| :: !s.workers[v].Running?
    ensures Run(s, IterateAll(n)).(workers := s.workers) == s
    ensures |Run(s, IterateAll(n)).workers| == |s.workers|
    ensures forall v | 0 <= v < |s.workers| ::
              Run(s, IterateAll(n)).workers[v] == if v < n then Exited else s.workers[v]
    decreases n
  {
    if n > 0 {
      IterateAllEffect(s, n - 1);
      RunConcat(s, IterateAll(n - 1), [Iterate(n - 1)]);
    }
  }

  lemma {:induction false} TakeAndRunEffect(s: PoolState, w: nat, n: nat)
    requires IsIdle(s, w) && n <= |s.taskQueue|
    ensures Run(s, TakeAndRun(w, n)) ==
            s.(taskQueue := s.taskQueue[n..], taken := s.taken + s.taskQueue[..n])
    decreases n
  {
    if n > 0 {
      var q := s.taskQueue;
      var s1 := Apply(s, Iterate(w));
      assert s1 == s.(taskQueue := q[1..], workers := s.workers[w := Running(q[0])], taken := s.taken + [q[0]]);
      var s2 := Apply(s1, Complete(w));
      assert s2.workers == s.workers;
      assert s2 == s.(taskQueue := q[1..], taken := s.taken + [q[0]]);
      RunConcat(s, [Iterate(w), Complete(w)], TakeAndRun(w, n - 1));
      RunTwo(s, Iterate(w), Complete(w));
      TakeAndRunEffect(s2, w, n - 1);
      assert q[1..][n - 1..] == q[n..];
      assert s.taken + [q[0]] + q[1..][..n - 1] == s.taken + q[..n];
    }
  }

  /** A schedule that finishes the running tasks, lets worker w take every queued task, then exits everyone. */
  function DrainSchedule(s: PoolState, w: nat): seq<Action> {
    CompleteAll(|s.workers|) + TakeAndRun(w, |s.taskQueue|) + IterateAll(|s.workers|)
  }

  /**
   * After shutdown, as long as one worker has not exited, the workers can
   * run every queued task and then all exit: the join in shutdown can
   * return, and when it does every task ever submitted has been taken.
   */
  lemma ShutdownCanDrain(s: PoolState, w: nat)
    requires Inv(s) && s.stopping && w < |s.workers| && s.workers[w] != Exited
    ensures AllExited(Run(s, DrainSchedule(s, w)))
    ensures Run(s, DrainSchedule(s, w)).taskQueue == []
    ensures Run(s, DrainSchedule(s, w)).taken == s.submitted
  {
    var n := |s.workers|;
    var s1 := Run(s, CompleteAll(n));
    CompleteAllEffect(s, n);
    TakeAndRunEffect(s1, w, |s1.taskQueue|);
    var s2 := Run(s1, TakeAndRun(w, |s.taskQueue|));
    assert s2.taskQueue == [] && s2.taken == s.submitted;
    IterateAllEffect(s2, n);
    RunConcat(s, CompleteAll(n), TakeAndRun(w, |s.taskQueue|));
    RunConcat(s, CompleteAll(n) + TakeAndRun(w, |s.taskQueue|), IterateAll(n));
  }

  // ---------------------------------------------------------------------
  // The pool object
  // ---------------------------------------------------------------------

  /**
   * ThreadPool with the fields of src/thread_pool.h. The worker handles are
   * fixed at construction, so only their number is kept, together with the
   * position of each worker thread in its loop (ghost: that is the thread's
   * program counter, not a field of the source) and the history variables.
   */
  class ThreadPool {
    const numThreads: nat
    var taskQueue: seq<TaskId>
    var stopping: bool
    ghost var workers: seq<WorkerStatus>
    ghost var submitted: seq<TaskId>
    ghost var taken: seq<TaskId>
    ghost var queuedAtShutdown: nat

    ghost function State(): PoolState
      reads this
    {
      PoolState(taskQueue, stopping, workers, submitted, taken, queuedAtShutdown)
    }

    ghost predicate Valid()
      reads this
    {
      Inv(State()) && |workers| == numThreads
    }

    /** Starts numThreads workers, every one idle, with an empty queue and stopping false. */
    constructor (numThreads: nat)
      ensures Valid()
      ensures this.numThreads == numThreads
      ensures State() == Init(numThreads)
    {
      this.numThreads := numThreads;
      taskQueue := [];
      stopping := false;
      workers := seq(numThreads, _ => Idle);
      submitted := [];
      taken := [];
      queuedAtShutdown := 0;
    }

    method Submit(task: TaskId)
      requires Valid()
      modifies this
      ensures Valid()
      ensures State() == Apply(old(State()), SubmitTask(task))
      ensures taskQueue == old(taskQueue) + [task]
      ensures stopping == old(stopping) && workers == old(workers)
    {
      ApplyPreservesInv(State(), SubmitTask(task));
      taskQueue := taskQueue + [task];
      submitted := submitted + [task];
    }

    /** The locked section of shutdown; the join of every worker that follows it is not modelled. */
    method Shutdown()
      requires Valid()
      modifies this
      ensures Valid()
      ensures State() == Apply(old(State()), RequestShutdown)
      ensures stopping
      ensures old(stopping) ==> State() == old(State())
      ensures taskQueue == old(taskQueue) && workers == old(workers)
    {
      ApplyPreservesInv(State(), RequestShutdown);
      if stopping {
        return;
      }
      stopping := true;
      queuedAtShutdown := |submitted|;
    }

    /**
     * One pass of worker w through the locked section of workerLoop: it
     * waits while the queue is empty and stopping is false, exits when
     * stopping is set and the queue is empty, and otherwise pops the front
     * task and goes on to run it.
     */
    method WorkerIteration(w: nat) returns (outcome: Outcome)
      requires Valid() && IsIdle(State(), w)
      modifies this
      ensures Valid()
      ensures State() == Apply(old(State()), Iterate(w))
      ensures outcome == PassOutcome(old(State()))
      ensures outcome == Wait <==> old(|taskQueue| == 0 && !stopping)
      ensures outcome == Exit <==> old(stopping && |taskQueue| == 0)
      ensures outcome.Take? ==> outcome.task == old(taskQueue[0]) && taskQueue == old(taskQueue[1..])
      ensures outcome.Take? ==> workers[w] == Running(outcome.task)
      ensures stopping == old(stopping)
    {
      ApplyPreservesInv(State(), Iterate(w));
      if |taskQueue| == 0 && !stopping {
        return Wait;
      }
      if stopping && |taskQueue| == 0 {
        workers := workers[w := Exited];
        return Exit;
      }
      var task := taskQueue[0];
      taskQueue := taskQueue[1..];
      workers := workers[w := Running(task)];
      taken := taken + [task];
      return Take(task);
    }

    /** Worker w's task returns and the worker goes back to the top of its loop. */
    method TaskCompleted(w: nat)
      requires Valid() && w < numThreads && workers[w].Running?
      modifies this
      ensures Valid()
      ensures State() == Apply(old(State()), Complete(w))
      ensures workers == old(workers)[w := Idle]
      ensures taskQueue == old(taskQueue) && stopping == old(stopping)
    {
      ApplyPreservesInv(State(), Complete(w));
      workers := workers[w := Idle];
    }
  }
}
