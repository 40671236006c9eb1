/*
 * The thread registry of thread_manager.cpp: a table of ThreadInfo records
 * that grows when a thread is created and whose entries are marked
 * COMPLETED when they are joined.
 *
 * pthread_create and pthread_join are calls into the operating system;
 * their return codes (and the id pthread_create writes back) are inputs
 * here. Console messages are not modelled.
 */
module ThreadManager {

  /** A pthread_t, compared with pthread_equal; 0 is what createThread returns on failure. */
  type Tid = nat

  datatype ThreadState = Running | Completed

  datatype ThreadInfo = ThreadInfo(tid: Tid, name: string, state: ThreadState)

  /** The index of the first entry whose tid is tid, if there is one. */
  function FindFirst(table: seq<ThreadInfo>, tid: Tid): (r: Option<nat>)
    ensures r.Some? ==> r.value < |table| && table[r.value].tid == tid
    ensures r.Some? ==> forall k | 0 <= k < r.value :: table[k].tid != tid
    ensures r.None? ==> forall k | 0 <= k < |table| :: table[k].tid != tid
    decreases |table|
  {
    if table == [] then None
    else if table[0].tid == tid then Some(0)
    else match FindFirst(table[1..], tid)
      case None => None
      case Some(i) => Some(i + 1)
  }

  datatype Option<T> = None | Some(value: T)

  /** The table after createThread, given pthread_create's return code and the id it produced. */
  function Created(table: seq<ThreadInfo>, createCode: int, newTid: Tid, name: string): (r: seq<ThreadInfo>)
    ensures createCode != 0 ==> r == table
    ensures createCode == 0 ==> |r| == |table| + 1 && r[..|table|] == table
    ensures createCode == 0 ==> r[|table|] == ThreadInfo(newTid, name, Running)
  {
    if createCode != 0 then table else table + [ThreadInfo(newTid, name, Running)]
  }

  /** True exactly when joinThread returns true. */
  predicate JoinSucceeds(table: seq<ThreadInfo>, tid: Tid, joinCode: int) {
    FindFirst(table, tid).Some? && joinCode == 0
  }

  /**
   * The table after joinThread(tid), given what pthread_join returns for
   * tid: the first entry with that tid becomes COMPLETED when the join
   * succeeds, and nothing else changes.
   */
  function Joined(table: seq<ThreadInfo>, tid: Tid, joinCode: int): (r: seq<ThreadInfo>)
    ensures |r| == |table|
    ensures forall k | 0 <= k < |r| :: r[k].tid == table[k].tid && r[k].name == table[k].name
    ensures forall k | 0 <= k < |r| && FindFirst(table, tid) != Some(k) :: r[k] == table[k]
    ensures JoinSucceeds(table, tid, joinCode) ==> r[FindFirst(table, tid).value].state == Completed
    ensures !JoinSucceeds(table, tid, joinCode) ==> r == table
  {
    match FindFirst(table, tid)
    case None => table
    case Some(i) =>
      if joinCode != 0 then table else table[i := table[i].(state := Completed)]
  }

  /**
   * The table after joinAll, given for each entry what pthread_join would
   * return for it: a RUNNING entry becomes COMPLETED exactly when its join
   * returns 0; a COMPLETED entry is not joined and does not change.
   */
  function JoinedAll(table: seq<ThreadInfo>, joinCodes: seq<int>): (r: seq<ThreadInfo>)
    requires |joinCodes| == |table|
    ensures |r| == |table|
    ensures forall k | 0 <= k < |r| :: r[k].tid == table[k].tid && r[k].name == table[k].name
    ensures forall k | 0 <= k < |r| ::
              r[k].state == Completed <==> table[k].state == Completed || joinCodes[k] == 0
    decreases |table|
  {
    if table == [] then []
    else
      var head := if table[0].state == Running && joinCodes[0] == 0
                  then table[0].(state := Completed) else table[0];
      [head] + JoinedAll(table[1..], joinCodes[1..])
  }

  /** joinAll never consults the join code of an entry that is already COMPLETED. */
  lemma JoinAllIgnoresCompleted(table: seq<ThreadInfo>, codes1: seq<int>, codes2: seq<int>)
    requires |codes1| == |table| && |codes2| == |table|
    requires forall k | 0 <= k < |table| && table[k].state == Running :: codes1[k] == codes2[k]
    ensures JoinedAll(table, codes1) == JoinedAll(table, codes2)
  {
  }

  /**
   * Joining the same tid again after a successful join finds the same entry
   * and leaves the table as it is, whatever the second join returns.
   */
  lemma JoinTwice(table: seq<ThreadInfo>, tid: Tid, joinCode: int)
    requires JoinSucceeds(table, tid, 0)
    ensures FindFirst(Joined(table, tid, 0), tid) == FindFirst(table, tid)
    ensures Joined(Joined(table, tid, 0), tid, joinCode) == Joined(table, tid, 0)
  {
  }

  /** The registry of thread_manager.cpp. */
  class ThreadManager {
    var threads: seq<ThreadInfo>

    constructor ()
      ensures threads == []
    {
      threads := [];
    }

    /**
     * createThread: on a nonzero pthread_create code, returns 0 and leaves
     * the table alone; otherwise appends {tid, name, RUNNING} and returns tid.
     */
    method CreateThread(name: string, createCode: int, newTid: Tid) returns (tid: Tid)
      modifies this
      ensures threads == Created(old(threads), createCode, newTid, name)
      ensures tid == if createCode != 0 then 0 else newTid
    {
      if createCode != 0 {
        return 0;
      }
      var info := ThreadInfo(newTid, name, Running);
      threads := threads + [info];
      return newTid;
    }

    /**
     * joinThread: scans for the first entry with this tid; joins it, and
     * marks it COMPLETED when the join returns 0.
     */
    method JoinThread(tid: Tid, joinCode: int) returns (ok: bool)
      modifies this
      ensures threads == Joined(old(threads), tid, joinCode)
      ensures ok == JoinSucceeds(old(threads), tid, joinCode)
    {
      var i := 0;
      while i < |threads|
        invariant 0 <= i <= |threads|
        invariant threads == old(threads)
        invariant forall k | 0 <= k < i :: threads[k].tid != tid
      {
        if threads[i].tid == tid {
          assert FindFirst(threads, tid) == Some(i);
          if joinCode != 0 {
            return false;
          }
          threads := threads[i := threads[i].(state := Completed)];
          return true;
        }
        i := i + 1;
      }
      return false;
    }

    /** joinAll: joins every RUNNING entry in order and marks COMPLETED those whose join returns 0. */
    method JoinAll(joinCodes: seq<int>)
      requires |joinCodes| == |threads|
      modifies this
      ensures threads == JoinedAll(old(threads), joinCodes)
    {
      var i := 0;
      while i < |threads|
        invariant 0 <= i <= |threads| == |old(threads)|
        invariant forall k | 0 <= k < i ::
                    threads[k] == if old(threads)[k].state == Running && joinCodes[k] == 0
                                  then old(threads)[k].(state := Completed) else old(threads)[k]
        invariant threads[i..] == old(threads)[i..]
      {
        if threads[i].state == Running {
          var rc := joinCodes[i];
          if rc == 0 {
            threads := threads[i := threads[i].(state := Completed)];
          }
        }
        i := i + 1;
      }
    }
  }
}
