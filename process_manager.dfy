/*
 * The process table of src/process_manager.cpp: a table of ProcessInfo
 * records that grows when fork succeeds in the parent and whose states are
 * refreshed from waitpid(pid, &status, WNOHANG).
 *
 * fork and waitpid are calls into the operating system; their results are
 * inputs here. As POSIX.1-2017 specifies waitpid, with WNOHANG it returns 0
 * when the child has not changed state, the child's pid when it reports a
 * status, and -1 on error.
 */
module ProcessManager {

  /** A pid_t. */
  type Pid = int

  datatype ProcessState = Running | Stopped | Terminated

  datatype ProcessInfo = ProcessInfo(pid: Pid, command: string, state: ProcessState)

  /** What createProcess returns to its caller: the child's pid, or -1 when fork failed. */
  function SpawnResult(forkResult: Pid): (r: Pid)
    ensures forkResult < 0 ==> r == -1
    ensures forkResult > 0 ==> r == forkResult
  {
    if forkResult < 0 then -1 else forkResult
  }

  /**
   * The table after createProcess(args) in the calling process, given what
   * fork returned there. Only a positive result (the parent side of a
   * successful fork) adds an entry, and it records args[0] as the command.
   */
  function Spawned(table: seq<ProcessInfo>, args: seq<string>, forkResult: Pid): (r: seq<ProcessInfo>)
    requires forkResult > 0 ==> |args| > 0
    ensures forkResult <= 0 ==> r == table
    ensures forkResult > 0 ==> |r| == |table| + 1 && r[..|table|] == table
    ensures forkResult > 0 ==> r[|table|] == ProcessInfo(forkResult, args[0], Running)
  {
    if forkResult <= 0 then table else table + [ProcessInfo(forkResult, args[0], Running)]
  }

  /**
   * One entry's new state from its waitpid result: 0 means the child is
   * still running, its own pid means it has terminated, anything else
   * (an error) leaves the recorded state as it was.
   */
  function RefreshState(p: ProcessInfo, waitResult: Pid): ProcessState {
    if waitResult == 0 then Running
    else if waitResult == p.pid then Terminated
    else p.state
  }

  /** The table after updateProcessStates, given each entry's waitpid result, in table order. */
  function Refreshed(table: seq<ProcessInfo>, waitResults: seq<Pid>): (r: seq<ProcessInfo>)
    requires |waitResults| == |table|
    ensures |r| == |table|
    ensures forall k | 0 <= k < |r| :: r[k].pid == table[k].pid && r[k].command == table[k].command
    ensures forall k | 0 <= k < |r| :: r[k].state == RefreshState(table[k], waitResults[k])
    decreases |table|
  {
    if table == [] then []
    else [table[0].(state := RefreshState(table[0], waitResults[0]))]
         + Refreshed(table[1..], waitResults[1..])
  }

  /**
   * The state an entry ends with after a refresh: RUNNING exactly when
   * waitpid reported no change, or reported an error for an entry that was
   * RUNNING; TERMINATED exactly when waitpid returned the entry's own pid,
   * or reported an error for an entry that was TERMINATED.
   */
  lemma RefreshStateCases(table: seq<ProcessInfo>, waitResults: seq<Pid>, k: nat)
    requires |waitResults| == |table| && k < |table| && table[k].pid > 0
    ensures Refreshed(table, waitResults)[k].state == Running <==>
              waitResults[k] == 0 || (waitResults[k] != table[k].pid && table[k].state == Running)
    ensures Refreshed(table, waitResults)[k].state == Terminated <==>
              waitResults[k] == table[k].pid || (waitResults[k] != 0 && table[k].state == Terminated)
    ensures Refreshed(table, waitResults)[k].state == Stopped ==> table[k].state == Stopped
  {
  }

  /** A table no entry of which is STOPPED and every pid of which is a real child's. */
  predicate WellFormed(table: seq<ProcessInfo>) {
    forall k | 0 <= k < |table| :: table[k].pid > 0 && table[k].state != Stopped
  }

  /** Neither operation ever records STOPPED or a non-positive pid. */
  lemma OperationsKeepWellFormed(table: seq<ProcessInfo>, args: seq<string>, forkResult: Pid, waitResults: seq<Pid>)
    requires WellFormed(table)
    requires forkResult > 0 ==> |args| > 0
    requires |waitResults| == |table|
    ensures WellFormed(Spawned(table, args, forkResult))
    ensures WellFormed(Refreshed(table, waitResults))
  {
  }

  /**
   * Refreshing with the results of a second round in which every child that
   * was reaped now reports an error changes nothing more.
   */
  lemma RefreshAfterReap(table: seq<ProcessInfo>, first: seq<Pid>, second: seq<Pid>)
    requires |first| == |table| && |second| == |table|
    requires forall k | 0 <= k < |table| :: second[k] == if first[k] == table[k].pid then -1 else first[k]
    requires forall k | 0 <= k < |table| :: table[k].pid > 0
    ensures Refreshed(Refreshed(table, first), second) == Refreshed(table, first)
  {
  }

  /** The process table of src/process_manager.cpp. */
  class ProcessManager {
    var processes: seq<ProcessInfo>

    ghost predicate Valid()
      reads this
    {
      WellFormed(processes)
    }

    constructor ()
      ensures Valid() && processes == []
    {
      processes := [];
    }

    /**
     * The parent side of createProcess: forkResult is what fork returned in
     * this process. A negative result returns -1 and changes nothing; a
     * positive one appends {pid, args[0], RUNNING} and returns the pid.
     */
    method CreateProcess(args: seq<string>, forkResult: Pid) returns (pid: Pid)
      requires Valid()
      requires forkResult > 0 ==> |args| > 0
      modifies this
      ensures Valid()
      ensures processes == Spawned(old(processes), args, forkResult)
      ensures forkResult != 0 ==> pid == SpawnResult(forkResult)
    {
      if forkResult < 0 {
        return -1;
      }
      if forkResult == 0 {
        // The child branch: execvp replaces the process image or the child
        // exits, so control never returns from here in the source.
        return 0;
      }
      var info := ProcessInfo(forkResult, args[0], Running);
      processes := processes + [info];
      return forkResult;
    }

    /** updateProcessStates: polls every entry in order and rewrites its state in place. */
    method UpdateProcessStates(waitResults: seq<Pid>)
      requires Valid()
      requires |waitResults| == |processes|
      modifies this
      ensures Valid()
      ensures processes == Refreshed(old(processes), waitResults)
    {
      var i := 0;
      while i < |processes|
        invariant 0 <= i <= |processes| == |old(processes)|
        invariant forall k | 0 <= k < i ::
                    processes[k] == old(processes)[k].(state := RefreshState(old(processes)[k], waitResults[k]))
        invariant processes[i..] == old(processes)[i..]
      {
        var result := waitResults[i];
        if result == 0 {
          processes := processes[i := processes[i].(state := Running)];
        } else if result == processes[i].pid {
          processes := processes[i := processes[i].(state := Terminated)];
        }
        i := i + 1;
      }
    }
  }
}
