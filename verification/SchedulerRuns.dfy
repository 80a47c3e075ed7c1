/** What every run of the scheduler keeps: array order, a single running process, quanta, and time. */
module SchedulerRuns {
  import opened Sequences
  import opened Words
  import opened Scheduler

  /** Everything that happens to the scheduler. `Yield` is a call of `scheduler_switch_task`, `Timer`
      a timer interrupt, and `Store` any other kernel code that sets a process's state. */
  datatype Step =
    | Create
    | Add(p: Pid, priority: u8, now: u32)
    | Remove(p: Pid)
    | Yield(now: u32)
    | Timer(now: u32)
    | Store(p: Pid, state: RunState)

  /** The scheduler with the history the accounts refer to: the time of the first switch, and the
      time that adding a process again took out of the accounts. */
  datatype Run = Run(s: State, first: u32, dropped: int)

  const Idle := Task(0, QUANTUM, 0, 0, Ready)
  const Created := Task(1, QUANTUM, 0, 0, Ready)

  const Start := Run(State([Idle], [], None, 0, 0), 0, 0)

  function Dropped(s: State, p: Pid, now: u32): int
    requires p < |s.procs|
  {
    s.procs[p].runtime + if s.current == Some(p) then now - s.procs[p].lastRun else 0
  }

  /** A step on a process that does not exist is no step. */
  function Apply(r: Run, a: Step): Run
    requires WellFormed(r.s)
  {
    match a
    case Create => r.(s := r.s.(procs := r.s.procs + [Created]))
    case Add(p, priority, now) =>
      if p >= |r.s.procs| then r
      else
        var (s, ok) := AddTask(r.s, p, priority, now);
        r.(s := s, dropped := r.dropped + if ok then Dropped(r.s, p, now) else 0)
    case Remove(p) => r.(s := RemoveTask(r.s, p))
    case Yield(now) => r.(s := Switch(r.s, now), first := if r.s.current.None? then now else r.first)
    case Timer(now) => r.(s := Tick(r.s, now))
    case Store(p, state) =>
      if p >= |r.s.procs| || state == Running then r
      else r.(s := r.s.(procs := r.s.procs[p := r.s.procs[p].(state := state)]))
  }

  // ----- the state invariants

  ghost predicate OneRuns(s: State) {
    forall p :: 0 <= p < |s.procs| && s.procs[p].state == Running ==> s.current == Some(p)
  }

  ghost predicate QuantaBounded(s: State) {
    forall p :: 0 <= p < |s.procs| ==> s.procs[p].quantum <= QUANTUM
  }

  ghost predicate Sane(s: State) {
    WellFormed(s) && OneRuns(s) && QuantaBounded(s)
  }

  lemma {:induction false} PassLists(procs: seq<Task>, s: seq<Pid>, n: nat)
    requires forall i :: 0 <= i < |s| ==> s[i] < n
    ensures forall i :: 0 <= i < |s| ==> Pass(procs, s)[i] < n
  {
    if |s| > 1 { PassLists(procs, s[1..], n); }
  }

  lemma {:induction false} WithoutLists(s: seq<Pid>, p: Pid, n: nat)
    requires forall i :: 0 <= i < |s| ==> s[i] < n
    ensures |Without<Pid>(s, p)| <= |s| && forall i :: 0 <= i < |Without<Pid>(s, p)| ==> Without<Pid>(s, p)[i] < n
  {
    if s != [] { WithoutLists(s[1..], p, n); }
  }

  lemma SwitchKeepsSane(s: State, now: u32)
    requires Sane(s)
    ensures Sane(Switch(s, now))
  {
  }

  /** Whatever happens, at most one process is running, and it is the current one. */
  lemma StepKeepsSane(r: Run, a: Step)
    requires Sane(r.s)
    ensures Sane(Apply(r, a).s)
  {
    match a
    case Add(p, priority, now) =>
      if p < |r.s.procs| && |r.s.tasks| < MAX_TASKS {
        PassLists(r.s.procs[p := Task(priority, QUANTUM, 0, now, Ready)], r.s.tasks + [p], |r.s.procs|);
      }
    case Remove(p) => WithoutLists(r.s.tasks, p, |r.s.procs|);
    case Yield(now) => SwitchKeepsSane(r.s, now);
    case Timer(now) =>
    case Create =>
    case Store(p, state) =>
  }

  // ----- time

  function Total(procs: seq<Task>): nat {
    if procs == [] then 0 else Total(procs[..|procs| - 1]) + procs[|procs| - 1].runtime
  }

  lemma {:induction false} TotalUpdated(procs: seq<Task>, p: Pid, t: Task)
    requires p < |procs|
    ensures Total(procs[p := t]) == Total(procs) - procs[p].runtime + t.runtime
    ensures procs[p].runtime <= Total(procs)
  {
    var n := |procs| - 1;
    if p == n {
      assert procs[p := t][..n] == procs[..n];
    } else {
      TotalUpdated(procs[..n], p, t);
      assert procs[p := t][..n] == procs[..n][p := t];
    }
  }

  /** Equal as 32-bit registers see it. */
  predicate Same32(x: int, y: int) {
    Wrap32(x) == Wrap32(y)
  }

  lemma WrapAbsorbs(x: int, y: int, z: int)
    ensures Same32(x + Wrap32(y + Wrap32(z)), x + y + z)
  {
  }

  lemma SameAfter(x: int, y: int, d: int)
    requires Same32(x, y)
    ensures Same32(x + d, y + d)
  {
    WrapAbsorbs(d, 0, x);
    WrapAbsorbs(d, 0, y);
  }

  /** Before the first switch nothing has been charged; from then on, what all processes were charged
      is the time from the first switch to the last, but for what was dropped. */
  ghost predicate Accounted(r: Run)
    requires WellFormed(r.s)
  {
    match r.s.current
    case None => r.dropped == 0 && Total(r.s.procs) == 0
    case Some(c) => Same32(Total(r.s.procs) + r.dropped, r.s.procs[c].lastRun - r.first)
  }

  /** Dispatch itself charges nobody. */
  lemma SwitchTotals(s: State, now: u32)
    requires WellFormed(s) && s.tasks != []
    ensures var t := Switch(s, now);
            && t.current.Some? && t.current.value < |t.procs| && t.procs[t.current.value].lastRun == now
            && Total(t.procs) == Total(Charged(s, now))
  {
    var procs, t := Charged(s, now), Switch(s, now);
    var next := t.current.value;
    TotalUpdated(procs, next, t.procs[next]);
    assert t.procs == procs[next := t.procs[next]];
  }

  lemma SwitchKeepsAccounts(r: Run, now: u32)
    requires Sane(r.s) && Accounted(r)
    ensures Sane(Switch(r.s, now))
    ensures Accounted(Run(Switch(r.s, now), if r.s.current.None? then now else r.first, r.dropped))
  {
    SwitchKeepsSane(r.s, now);
    if r.s.tasks != [] {
      ChargingCatchesUp(r, now);
      SwitchTotals(r.s, now);
    }
  }

  /** Once the running process is charged, the accounts reach up to the present. */
  lemma ChargingCatchesUp(r: Run, now: u32)
    requires Sane(r.s) && Accounted(r)
    ensures Same32(Total(Charged(r.s, now)) + r.dropped, if r.s.current.Some? then now - r.first else 0)
  {
    match r.s.current
    case None =>
    case Some(c) =>
      var t := r.s.procs[c];
      TotalUpdated(r.s.procs, c, Charged(r.s, now)[c]);
      WrapAbsorbs(Total(r.s.procs) - t.runtime + r.dropped, t.runtime, now - t.lastRun);
      SameAfter(Total(r.s.procs) + r.dropped, t.lastRun - r.first, now - t.lastRun);
  }

  lemma TickKeepsAccounts(r: Run, now: u32)
    requires Sane(r.s) && Accounted(r)
    ensures Sane(Tick(r.s, now)) && Accounted(r.(s := Tick(r.s, now)))
  {
    if r.s.current.Some? {
      var c := r.s.current.value;
      var t := r.s.procs[c];
      var left: int := if t.quantum > 0 then t.quantum - 1 else 0;
      var ticked := r.(s := r.s.(procs := r.s.procs[c := t.(quantum := left)]));
      TotalUpdated(r.s.procs, c, t.(quantum := left));
      if left == 0 { SwitchKeepsAccounts(ticked, now); }
    }
  }

  /** What adding does to the accounts: only a running process that is added again moves them. */
  lemma AddTotals(r: Run, p: Pid, priority: u8, now: u32)
    requires WellFormed(r.s) && p < |r.s.procs| && |r.s.tasks| < MAX_TASKS
    ensures var after := Apply(r, Add(p, priority, now));
            && after.s.current == r.s.current && after.first == r.first && |after.s.procs| == |r.s.procs|
            && Total(after.s.procs) + after.dropped == Total(r.s.procs) + r.dropped +
                 (if r.s.current == Some(p) then now - r.s.procs[p].lastRun else 0)
            && after.s.procs[p].lastRun == now
            && (forall q :: 0 <= q < |r.s.procs| && q != p ==> after.s.procs[q] == r.s.procs[q])
            && (r.dropped == 0 && Total(r.s.procs) == 0 && r.s.current.None? ==> after.dropped == 0)
  {
    TotalUpdated(r.s.procs, p, Task(priority, QUANTUM, 0, now, Ready));
  }

  lemma AddKeepsAccounts(r: Run, p: Pid, priority: u8, now: u32)
    requires Sane(r.s) && Accounted(r) && p < |r.s.procs|
    requires Sane(Apply(r, Add(p, priority, now)).s)
    ensures Accounted(Apply(r, Add(p, priority, now)))
  {
    if |r.s.tasks| < MAX_TASKS {
      AddTotals(r, p, priority, now);
      if r.s.current == Some(p) {
        var last := r.s.procs[p].lastRun;
        SameAfter(Total(r.s.procs) + r.dropped, last - r.first, now - last);
      }
    }
  }

  lemma OthersKeepAccounts(r: Run, a: Step)
    requires Sane(r.s) && Accounted(r) && (a.Create? || a.Remove? || a.Store?)
    ensures WellFormed(Apply(r, a).s) ==> Accounted(Apply(r, a))
  {
    match a
    case Create => assert (r.s.procs + [Created])[..|r.s.procs|] == r.s.procs;
    case Store(p, state) => if p < |r.s.procs| { TotalUpdated(r.s.procs, p, r.s.procs[p].(state := state)); }
    case _ =>
  }

  lemma StepKeepsAccounts(r: Run, a: Step)
    requires Sane(r.s) && Accounted(r)
    ensures Sane(Apply(r, a).s) && Accounted(Apply(r, a))
  {
    StepKeepsSane(r, a);
    match a
    case Add(p, priority, now) => if p < |r.s.procs| { AddKeepsAccounts(r, p, priority, now); }
    case Yield(now) => SwitchKeepsAccounts(r, now);
    case Timer(now) => TickKeepsAccounts(r, now);
    case _ => OthersKeepAccounts(r, a);
  }

  /** Every interleaving of creation, adding, removing, yielding, timer interrupts and state changes:
      one process runs at most, and it is the current one. */
  function Exec(steps: seq<Step>): (r: Run)
    ensures Sane(r.s)
  {
    if steps == [] then Start
    else
      var before, last := Exec(steps[..|steps| - 1]), steps[|steps| - 1];
      StepKeepsSane(before, last);
      Apply(before, last)
  }

  lemma {:induction false} EveryRunIsAccounted(steps: seq<Step>)
    ensures Accounted(Exec(steps))
  {
    if steps != [] {
      EveryRunIsAccounted(steps[..|steps| - 1]);
      StepKeepsAccounts(Exec(steps[..|steps| - 1]), steps[|steps| - 1]);
    }
  }

  /** The process to be added has never been charged and is not running. */
  predicate Unused(s: State, a: Step)
    requires WellFormed(s)
  {
    a.Add? && a.p < |s.procs| ==> s.procs[a.p].runtime == 0 && s.current != Some(a.p)
  }

  predicate AddedOnce(steps: seq<Step>) {
    steps == [] ||
    (AddedOnce(steps[..|steps| - 1]) && Unused(Exec(steps[..|steps| - 1]).s, steps[|steps| - 1]))
  }

  lemma UnusedDropsNothing(r: Run, a: Step)
    requires Sane(r.s) && Unused(r.s, a)
    ensures Apply(r, a).dropped == r.dropped
  {
  }

  lemma {:induction false} NothingDropped(steps: seq<Step>)
    requires AddedOnce(steps)
    ensures Exec(steps).dropped == 0
  {
    if steps != [] {
      NothingDropped(steps[..|steps| - 1]);
      UnusedDropsNothing(Exec(steps[..|steps| - 1]), steps[|steps| - 1]);
    }
  }

  /** The run times of all processes add up to the ticks from the first switch to the last. */
  predicate TicksShared(r: Run)
    requires WellFormed(r.s)
  {
    r.s.current.Some? ==> Same32(Total(r.s.procs), r.s.procs[r.s.current.value].lastRun - r.first)
  }

  lemma SharedIffNothingDropped(r: Run)
    requires Sane(r.s) && Accounted(r)
    ensures TicksShared(r) <==> Same32(r.dropped, 0)
  {
    if r.s.current.Some? {
      SharedWithout(Total(r.s.procs), r.dropped, r.s.procs[r.s.current.value].lastRun - r.first);
    }
  }

  lemma SharedWithout(total: int, dropped: int, elapsed: int)
    requires Same32(total + dropped, elapsed)
    ensures Same32(total, elapsed) <==> Same32(dropped, 0)
  {
    if Same32(dropped, 0) { SameAfter(dropped, 0, total); }
    if Same32(total, elapsed) {
      SameAfter(total, elapsed, -total);
      SameAfter(total + dropped, elapsed, -total);
    }
  }

  /** In every run they do exactly when adding processes again has dropped nothing, modulo 2^32. */
  lemma TicksAreShared(steps: seq<Step>)
    ensures TicksShared(Exec(steps)) <==> Same32(Exec(steps).dropped, 0)
    ensures AddedOnce(steps) ==> TicksShared(Exec(steps))
  {
    EveryRunIsAccounted(steps);
    SharedIffNothingDropped(Exec(steps));
    if AddedOnce(steps) { NothingDropped(steps); }
  }

  // ----- quanta

  /** The current process has some of its quantum left. */
  predicate HasTime(s: State)
    requires WellFormed(s)
  {
    s.current.Some? ==> 1 <= s.procs[s.current.value].quantum <= QUANTUM
  }

  /** It keeps between 1 and 10 ticks, until a tick uses up the last one while there is no task to
      switch to; the next tick or yield that finds a task makes it good. */
  lemma StepKeepsTime(r: Run, a: Step)
    requires Sane(r.s)
    ensures HasTime(r.s) ==>
              (Sane(Apply(r, a).s) && HasTime(Apply(r, a).s) <==>
               !Exhausts(r.s, a))
    ensures (a.Timer? || a.Yield?) && r.s.tasks != [] && r.s.current.Some? ==> HasTime(Apply(r, a).s)
  {
    StepKeepsSane(r, a);
  }

  /** No tick uses up the current process's last while no task is listed. */
  predicate NeverExhausted(steps: seq<Step>) {
    steps == [] || (NeverExhausted(steps[..|steps| - 1]) && !Exhausts(Exec(steps[..|steps| - 1]).s, steps[|steps| - 1]))
  }

  predicate Exhausts(s: State, a: Step)
    requires WellFormed(s)
  {
    a.Timer? && s.tasks == [] && s.current.Some? && s.procs[s.current.value].quantum == 1
  }

  predicate AlwaysHasTime(steps: seq<Step>) {
    HasTime(Exec(steps).s) && (steps == [] || AlwaysHasTime(steps[..|steps| - 1]))
  }

  /** Over a whole run the current process has time left throughout exactly when no such tick occurs. */
  lemma {:induction false} TimeOverRuns(steps: seq<Step>)
    ensures AlwaysHasTime(steps) <==> NeverExhausted(steps)
  {
    if steps != [] {
      TimeOverRuns(steps[..|steps| - 1]);
      StepKeepsTime(Exec(steps[..|steps| - 1]), steps[|steps| - 1]);
    }
  }

  // ----- runs that fail

  lemma ExecSnoc(steps: seq<Step>, a: Step)
    ensures Exec(steps + [a]) == Apply(Exec(steps), a)
  {
    assert (steps + [a])[..|steps|] == steps;
  }

  /** One task, created, added and dispatched at time 0. */
  function OneTask(priority: u8): seq<Step> {
    [Create, Add(1, priority, 0), Yield(0)]
  }

  lemma OneTaskRuns(priority: u8, steps: seq<Step>)
    requires steps == OneTask(priority)
    ensures Exec(steps) == Run(State([Idle, Task(priority, QUANTUM, 0, 0, Running)], [1], Some(1), 0, 1), 0, 0)
  {
    var none: seq<Step> := [];
    ExecSnoc(none, Create);
    ExecSnoc(none + [Create], Add(1, priority, 0));
    ExecSnoc(none + [Create] + [Add(1, priority, 0)], Yield(0));
    assert none + [Create] + [Add(1, priority, 0)] + [Yield(0)] == steps;
    var created := Exec(none + [Create]).s;
    assert created.procs == [Idle, Created];
    var added := AddTask(created, 1, priority, 0).0;
    assert added.procs == [Idle, Task(priority, QUANTUM, 0, 0, Ready)] && added.tasks == [1];
    assert Charged(added, 0) == added.procs;
    assert Switch(added, 0).procs == [Idle, Task(priority, QUANTUM, 0, 0, Running)];
  }

  /** A process charged for d ticks and then added again: the run times no longer add up. */
  lemma ReaddingLosesTicks(priority: u8, d: u32, steps: seq<Step>)
    requires d > 0 && steps == OneTask(priority)
    ensures TicksShared(Exec(steps + [Yield(d)])) && !TicksShared(Exec(steps + [Yield(d)] + [Add(1, priority, d)]))
  {
    OneTaskRuns(priority, steps);
    ExecSnoc(steps, Yield(d));
    ExecSnoc(steps + [Yield(d)], Add(1, priority, d));
    ChargeIsDropped(Exec(steps), priority, d);
    TicksAreShared(steps + [Yield(d)]);
    TicksAreShared(steps + [Yield(d)] + [Add(1, priority, d)]);
  }

  lemma ChargeIsDropped(r: Run, priority: u8, d: u32)
    requires r == Run(State([Idle, Task(priority, QUANTUM, 0, 0, Running)], [1], Some(1), 0, 1), 0, 0)
    ensures Apply(r, Yield(d)).dropped == 0 && Sane(Apply(r, Yield(d)).s)
    ensures Apply(Apply(r, Yield(d)), Add(1, priority, d)).dropped == d
  {
    assert Charged(r.s, d) == [Idle, Task(priority, QUANTUM, d, d, Ready)];
    var y := Apply(r, Yield(d));
    assert y.s.procs == [Idle, Task(priority, QUANTUM, d, d, Running)] && y.s.current == Some(1) && y.s.tasks == [1];
  }

  function Ticks(n: nat): seq<Step> {
    if n == 0 then [] else Ticks(n - 1) + [Timer(0)]
  }

  predicate RunsDown(s: State, left: nat) {
    s.tasks == [] && s.current == Some(1) && |s.procs| > 1 && s.procs[1].quantum == left
  }

  lemma {:induction false} TicksCountDown(steps: seq<Step>, n: nat, all: seq<Step>)
    requires RunsDown(Exec(steps).s, QUANTUM) && n <= QUANTUM && all == steps + Ticks(n)
    ensures RunsDown(Exec(all).s, QUANTUM - n)
  {
    if n == 0 {
      assert all == steps;
    } else {
      var before := steps + Ticks(n - 1);
      assert all == before + [Timer(0)];
      TicksCountDown(steps, n - 1, before);
      TickRunsDown(before, QUANTUM - (n - 1));
    }
  }

  lemma TickRunsDown(before: seq<Step>, left: nat)
    requires RunsDown(Exec(before).s, left) && left > 0
    ensures RunsDown(Exec(before + [Timer(0)]).s, left - 1)
  {
    ExecSnoc(before, Timer(0));
  }

  /** The only task is taken off the list while it runs; ten ticks later its quantum is gone. */
  lemma QuantumCanRunOut(priority: u8, steps: seq<Step>)
    requires steps == OneTask(priority) + [Remove(1)] + Ticks(QUANTUM)
    ensures !HasTime(Exec(steps).s)
  {
    OneTaskRuns(priority, OneTask(priority));
    ExecSnoc(OneTask(priority), Remove(1));
    TicksCountDown(OneTask(priority) + [Remove(1)], QUANTUM, steps);
  }
}
