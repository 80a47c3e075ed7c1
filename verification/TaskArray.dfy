/** The scheduler as the code keeps it: process records updated through pointers, and a fixed array
    of pointers sorted and shifted in place. */
module TaskArray {
  import opened Words
  import opened Scheduler
  import opened Sequences

  class Process {
    const id: Pid
    var priority: u8
    var quantum: u32
    var runtime: u32
    var lastRun: u32
    var state: RunState

    constructor (id: Pid)
      ensures this.id == id && Shows(Task(1, QUANTUM, 0, 0, Ready))
    {
      this.id := id;
      priority, quantum, runtime, lastRun, state := 1, QUANTUM, 0, 0, Ready;
    }

    ghost predicate Shows(t: Task)
      reads this
    {
      t == Task(priority, quantum, runtime, lastRun, state)
    }
  }

  /** One comparison of the bubble pass lengthens the part that is done by one. */
  lemma BubbleStep(procs: seq<Task>, before: seq<Pid>, ids: seq<Pid>, i: nat, swapped: seq<Pid>)
    requires |before| == |ids| && 0 < i < |ids|
    requires ids[..i] == before[..i] && ids[i..] == Pass(procs, before[i..])
    requires swapped == ids[i := ids[i - 1]][i - 1 := ids[i]]
    ensures var r := if Priority(procs, ids[i]) > Priority(procs, ids[i - 1]) then swapped else ids;
            r[..i - 1] == before[..i - 1] && r[i - 1..] == Pass(procs, before[i - 1..])
  {
    assert before[i - 1..][1..] == before[i..];
    var t := ids[i..];
    assert ids[i - 1] == ids[..i][i - 1] == before[i - 1];
    assert swapped[i - 1..] == [t[0], before[i - 1]] + t[1..];
    assert ids[i - 1..] == [before[i - 1]] + t;
    assert swapped[..i - 1] == ids[..i][..i - 1];
  }

  /** `all` are the processes there are, `procs` what they hold, and `ids` those in the array. */
  class TaskScheduler {
    const tasks: array<Process?>
    var taskCount: u32
    var currentProcess: Process?
    const idleProcess: Process
    var totalSwitches: u32
    ghost var all: seq<Process>
    ghost var procs: seq<Task>
    ghost var ids: seq<Pid>

    ghost predicate Valid()
      reads this, tasks, all
    {
      && tasks.Length == MAX_TASKS && taskCount == |ids| <= MAX_TASKS && |all| == |procs|
      && (forall i {:trigger all[i]} :: 0 <= i < |all| ==> all[i].id == i && all[i].Shows(procs[i]))
      && (forall k {:trigger ids[k]} :: 0 <= k < |ids| ==> ids[k] < |all| && tasks[k] == all[ids[k]])
      && idleProcess.id < |all| && all[idleProcess.id] == idleProcess
      && (currentProcess != null ==> currentProcess.id < |all| && all[currentProcess.id] == currentProcess)
    }

    ghost function Abs(): (s: State)
      reads this, tasks, all
      requires Valid()
      ensures WellFormed(s)
    {
      State(procs, ids, if currentProcess == null then None else Some(currentProcess.id), idleProcess.id, totalSwitches)
    }

    /** The scheduler after `scheduler_init`, with the idle process it creates. */
    constructor ()
      ensures Valid() && fresh(tasks) && fresh(all)
      ensures Abs() == State([Task(0, QUANTUM, 0, 0, Ready)], [], None, 0, 0)
    {
      tasks := new Process?[MAX_TASKS](_ => null);
      var idle := new Process(0);
      idleProcess := idle;
      taskCount, currentProcess, totalSwitches := 0, null, 0;
      all, ids := [idle], [];
      procs := [Task(0, QUANTUM, 0, 0, Ready)];
      new;
      idleProcess.priority := 0;
    }

    method AddTask(process: Process, priority: u8, now: u32) returns (ok: bool)
      requires Valid() && process in all
      modifies this, tasks, process
      ensures Valid() && all == old(all)
      ensures (Abs(), ok) == Scheduler.AddTask(old(Abs()), process.id, priority, now)
    {
      if taskCount >= MAX_TASKS { return false; }
      Reset(process, priority, now);
      Append(process);
      BubblePass();
      return true;
    }

    method Reset(process: Process, priority: u8, now: u32)
      requires Valid() && process in all
      modifies `procs, process
      ensures Valid() && procs == old(procs)[process.id := Task(priority, QUANTUM, 0, now, Ready)]
    {
      process.quantum := QUANTUM;
      process.runtime := 0;
      process.lastRun := now;
      process.priority := priority;
      process.state := Ready;
      procs := procs[process.id := Task(priority, QUANTUM, 0, now, Ready)];
    }

    method Append(process: Process)
      requires Valid() && process in all && taskCount < MAX_TASKS
      modifies tasks, `taskCount, `ids
      ensures Valid() && ids == old(ids) + [process.id]
    {
      tasks[taskCount] := process;
      taskCount := taskCount + 1;
      ids := ids + [process.id];
    }

    /** The loop that carries the task added last towards the front. */
    method BubblePass()
      requires Valid() && taskCount > 0
      modifies tasks, `ids
      ensures Valid() && ids == Pass(procs, old(ids))
    {
      var i := taskCount - 1;
      ghost var before := ids;
      assert before[i..] == [before[i]];
      while i > 0
        invariant 0 <= i < taskCount == |ids| && |before| == |ids|
        invariant Valid()
        invariant ids[..i] == before[..i] && ids[i..] == Pass(procs, before[i..])
      {
        var right, left := tasks[i], tasks[i - 1];
        assert right == all[ids[i]] && left == all[ids[i - 1]];
        ghost var swapped := ids[i := ids[i - 1]][i - 1 := ids[i]];
        BubbleStep(procs, before, ids, i, swapped);
        if right.priority > left.priority { Exchange(i, swapped); }
        i := i - 1;
      }
      assert ids == ids[0..] && before == before[0..];
    }

    method Exchange(i: nat, ghost swapped: seq<Pid>)
      requires Valid() && 0 < i < taskCount
      requires swapped == ids[i := ids[i - 1]][i - 1 := ids[i]]
      modifies tasks, `ids
      ensures Valid() && ids == swapped
    {
      assert ids[i] < |all| && ids[i - 1] < |all|;
      tasks[i], tasks[i - 1] := tasks[i - 1], tasks[i];
      ids := swapped;
    }

    method RemoveTask(process: Process)
      requires Valid() && process in all
      modifies this, tasks
      ensures Valid() && all == old(all)
      ensures Abs() == Scheduler.RemoveTask(old(Abs()), process.id)
    {
      var i := 0;
      while i < taskCount
        invariant 0 <= i <= taskCount && unchanged(this) && unchanged(tasks)
        invariant process.id !in ids[..i]
      {
        assert tasks[i] == all[ids[i]];
        if tasks[i] == process {
          WithoutFirst<Pid>(ids[..i], process.id, ids[i..]);
          assert ids == ids[..i] + ids[i..] && ids[i..][1..] == ids[i + 1..];
          RemoveAt(i);
          return;
        }
        i := i + 1;
      }
      WithoutFirst<Pid>(ids[..i], process.id, []);
      assert ids == ids[..i] == ids[..i] + [];
    }

    method RemoveAt(i: nat)
      requires Valid() && i < taskCount
      modifies tasks, `taskCount, `ids
      ensures Valid() && ids == old(ids[..i] + ids[i + 1..])
    {
      Shift(i);
      taskCount := taskCount - 1;
      ids := ids[..i] + ids[i + 1..];
    }

    /** Moves everything behind place i one place forward. */
    method Shift(i: nat)
      requires Valid() && i < taskCount
      modifies tasks
      ensures forall k :: 0 <= k < i ==> tasks[k] == old(tasks[k])
      ensures forall k :: i <= k < taskCount - 1 ==> tasks[k] == old(tasks[k + 1])
    {
      var j := i;
      while j < taskCount - 1
        invariant i <= j <= taskCount - 1
        invariant forall k :: 0 <= k < i ==> tasks[k] == old(tasks[k])
        invariant forall k :: i <= k < j ==> tasks[k] == old(tasks[k + 1])
        invariant forall k :: j <= k < taskCount ==> tasks[k] == old(tasks[k])
      {
        tasks[j] := tasks[j + 1];
        j := j + 1;
      }
    }

    /** The search loop: the first ready task, or null. */
    method FindReady() returns (next: Process?)
      requires Valid()
      ensures match FirstReady(procs, ids)
              case None => next == null
              case Some(p) => next == all[p]
    {
      var i := 0;
      while i < taskCount
        invariant 0 <= i <= taskCount && FirstReady(procs, ids) == FirstReady(procs, ids[i..])
      {
        assert ids[i..][0] == ids[i] && ids[i..][1..] == ids[i + 1..];
        var task := tasks[i];
        assert task == all[ids[i]];
        if task.state == Ready { return task; }
        i := i + 1;
      }
      return null;
    }

    method SwitchTask(now: u32)
      requires Valid()
      modifies this, all
      ensures Valid() && all == old(all)
      ensures Abs() == Switch(old(Abs()), now)
    {
      if taskCount == 0 { return; }
      Charge(now);
      var next := FindReady();
      if next == null { next := idleProcess; }
      Dispatch(next, now);
    }

    method Dispatch(next: Process, now: u32)
      requires Valid() && next.id < |all| && all[next.id] == next
      modifies `procs, `currentProcess, `totalSwitches, next
      ensures Valid() && Abs() == Dispatched(old(Abs()), next.id, now)
    {
      next.quantum := QUANTUM;
      next.state := Running;
      next.lastRun := now;
      procs := procs[next.id := Task(next.priority, next.quantum, next.runtime, next.lastRun, next.state)];
      currentProcess := next;
      totalSwitches := Wrap32(totalSwitches + 1);
    }

    /** The statistics of the process that gives up the processor, if there is one. */
    method Charge(now: u32)
      requires Valid()
      modifies `procs, if currentProcess == null then {} else {currentProcess}
      ensures Valid() && Abs() == old(Abs()).(procs := Charged(old(Abs()), now))
    {
      if currentProcess == null { return; }
      var c := currentProcess;
      c.runtime := Wrap32(c.runtime + Wrap32(now - c.lastRun));
      c.lastRun := now;
      c.state := Ready;
      procs := procs[c.id := Task(c.priority, c.quantum, c.runtime, c.lastRun, c.state)];
    }

    method TimerCallback(now: u32)
      requires Valid()
      modifies this, all
      ensures Valid() && all == old(all)
      ensures Abs() == Tick(old(Abs()), now)
    {
      if currentProcess == null { return; }
      var c := currentProcess;
      if c.quantum > 0 { c.quantum := c.quantum - 1; }
      procs := procs[c.id := Task(c.priority, c.quantum, c.runtime, c.lastRun, c.state)];
      if c.quantum == 0 { SwitchTask(now); }
    }
  }
}
