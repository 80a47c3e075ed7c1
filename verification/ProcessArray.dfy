/** The process table as the code keeps it: an array of pointers closed up in place, and pids written
    through them. */
module ProcessArray {
  import opened Words
  import opened Sequences
  import opened ProcessTable

  class Process {
    ghost const id: Id
    var pid: nat

    constructor (ghost id: Id, pid: nat)
      ensures this.id == id && this.pid == pid
    {
      this.id := id;
      this.pid := pid;
    }
  }

  /** `all` are the records ever allocated, `pids` their pid fields, and `list` those in the array. */
  class Manager {
    const processes: array<Process?>
    var processCount: nat
    var currentProcess: Process?
    ghost var all: seq<Process>
    ghost var pids: seq<nat>
    ghost var list: seq<Id>

    /** The fields show the model state, but for `pending` records that are counted already. */
    ghost predicate Shown(pending: nat)
      reads this, processes, all
    {
      && processes.Length == MAX_PROCESSES && processCount == |list| + pending <= MAX_PROCESSES && |all| == |pids|
      && (forall i {:trigger all[i]} :: 0 <= i < |all| ==> all[i].id == i && all[i].pid == pids[i])
      && (forall k {:trigger list[k]} :: 0 <= k < |list| ==> list[k] < |all| && processes[k] == all[list[k]])
      && (currentProcess != null ==> currentProcess.id < |all| && all[currentProcess.id] == currentProcess)
    }

    ghost function Abs(): Table
      reads this, processes, all
    {
      Table(pids, list, if currentProcess == null then None else Some(currentProcess.id))
    }

    ghost predicate Valid()
      reads this, processes, all
    {
      Shown(0) && Sound(Abs())
    }

    constructor ()
      ensures Valid() && Abs() == Empty && fresh(processes)
    {
      processes := new Process?[MAX_PROCESSES](_ => null);
      processCount, currentProcess := 0, null;
      all, pids, list := [], [], [];
    }

    method Create(stack: bool) returns (process: Process?)
      requires Valid()
      modifies this, processes
      ensures Valid() && old(all) <= all && fresh(all[|old(all)|..])
      ensures Abs() == ProcessTable.Create(old(Abs()), stack).0
      ensures ProcessTable.Create(old(Abs()), stack).1 == if process == null then None else Some(process.id)
    {
      StepKeepsSound(Abs(), DoCreate(stack));
      process := NewEntry(stack);
    }

    /** Its body, for which only the fields matter. */
    method NewEntry(stack: bool) returns (process: Process?)
      requires Shown(0)
      modifies this, processes
      ensures Shown(0) && old(all) <= all && fresh(all[|old(all)|..])
      ensures Abs() == ProcessTable.Create(old(Abs()), stack).0
      ensures ProcessTable.Create(old(Abs()), stack).1 == if process == null then None else Some(process.id)
    {
      if processCount >= MAX_PROCESSES { return null; }
      process := Allocate();
      processCount := processCount + 1;
      if !stack {
        processCount := processCount - 1;
        return null;
      }
      Enter(process);
    }

    /** The record that is counted goes into its place of the array. */
    method Enter(process: Process)
      requires Shown(1) && process.pid == |list| && process.id < |all| && all[process.id] == process
      modifies processes, `list
      ensures Shown(0) && list == old(list) + [process.id]
    {
      processes[process.pid] := process;
      list := list + [process.id];
    }

    /** A new record, numbered but not in the array yet. */
    method Allocate() returns (process: Process)
      requires Shown(0)
      modifies `all, `pids
      ensures Shown(0) && fresh(process) && process.id == |old(all)| && process.pid == processCount
      ensures all == old(all) + [process] && pids == old(pids) + [processCount]
    {
      process := new Process(|all|, processCount);
      all, pids := all + [process], pids + [processCount];
    }

    method Destroy(process: Process)
      requires Valid() && process in all
      modifies this, processes, all
      ensures Valid() && all == old(all)
      ensures Abs() == ProcessTable.Destroy(old(Abs()), process.id)
    {
      DestroyKeepsSound(Abs(), process.id);
      var i := 0;
      while i < processCount
        invariant 0 <= i <= processCount && unchanged(this) && unchanged(processes) && unchanged(all)
        invariant process.id !in list[..i]
      {
        assert processes[i] == all[list[i]];
        if processes[i] == process { break; }
        i := i + 1;
      }
      IndexIs(list, process.id, i);
      assert i < processCount ==> processes[i] == all[list[i]];
      Remove(i, process);
    }

    method Remove(i: nat, process: Process)
      requires Shown(0) && Distinct(list) && process in all && i == IndexOf(list, process.id)
      modifies this, processes, all
      ensures Shown(0) && all == old(all)
      ensures Abs() == ProcessTable.Destroy(old(Abs()), process.id)
    {
      if i < processCount { CloseGap(i); }
      if currentProcess == process { currentProcess := null; }
    }

    method CloseGap(i: nat)
      requires Shown(0) && i < processCount && Distinct(list)
      modifies `processCount, `list, `pids, processes, all
      ensures Shown(0) && all == old(all) && currentProcess == old(currentProcess)
      ensures list == old(list[..i] + list[i + 1..]) && pids == Renumber(old(pids), list, i)
    {
      ghost var rest: seq<Id> := list[..i] + list[i + 1..];
      assert forall k {:trigger rest[k]} :: 0 <= k < |rest| ==> rest[k] == list[if k < i then k else k + 1] < |pids|;
      ShiftAndNumber(i, rest);
      processCount := processCount - 1;
      list, pids := rest, Renumber(pids, rest, i);
    }

    /** The inner loop: everything behind place i moves one place forward and is renumbered. */
    method ShiftAndNumber(i: nat, ghost rest: seq<Id>)
      requires Shown(0) && i < processCount && rest == list[..i] + list[i + 1..]
      requires forall k {:trigger rest[k]} :: 0 <= k < |rest| ==> rest[k] == list[if k < i then k else k + 1] < |pids|
      modifies processes, all
      ensures forall k :: 0 <= k < |rest| ==> processes[k] == all[rest[k]]
      ensures forall k {:trigger all[k]} :: 0 <= k < |all| ==> all[k].pid == Renumber(pids, rest, i)[k]
    {
      ghost var done: seq<nat> := pids;
      var j := i;
      while j < processCount - 1
        invariant i <= j <= |rest|
        invariant |done| == |all| && forall k {:trigger all[k]} :: 0 <= k < |all| ==> all[k].pid == done[k]
        invariant forall k :: 0 <= k < j ==> processes[k] == all[rest[k]]
        invariant forall k :: j <= k < |list| ==> processes[k] == all[list[k]]
        invariant Renumber(pids, rest, i) == Renumber(done, rest, j)
      {
        assert list[j + 1] == rest[j] < |all|;
        MoveForward(j, all[rest[j]]);
        done := done[rest[j] := j];
        j := j + 1;
      }
    }

    method MoveForward(j: nat, ghost process: Process)
      requires j + 1 < processes.Length && processes[j + 1] == process
      modifies processes, process
      ensures processes[j] == process && process.pid == j
      ensures forall k :: 0 <= k < processes.Length && k != j ==> processes[k] == old(processes[k])
    {
      processes[j] := processes[j + 1];
      processes[j].pid := j;
    }

    method Schedule()
      requires Valid()
      modifies `currentProcess
      ensures Valid() && Abs() == ProcessTable.Schedule(old(Abs()))
    {
      StepKeepsSound(Abs(), DoSchedule);
      if processCount == 0 { return; }
      if currentProcess == null {
        assert list[0] < |all|;
        currentProcess := processes[0];
      } else {
        assert currentProcess.pid == pids[currentProcess.id];
        var next := After(currentProcess.pid, processCount);
        assert list[next] < |all|;
        currentProcess := processes[next];
      }
    }
  }

  lemma {:induction false} IndexIs(list: seq<Id>, p: Id, i: nat)
    requires i <= |list| && p !in list[..i] && (i < |list| ==> list[i] == p)
    ensures IndexOf(list, p) == i
  {
    if i > 0 {
      assert list[0] in list[..i] && list[1..][..i - 1] == list[..i][1..];
      IndexIs(list[1..], p, i - 1);
    }
  }
}
