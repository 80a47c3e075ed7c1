/** When the scheduler switches, what one switch and one addition do, and whose time is charged, in
    every run. */
module SchedulerTicks {
  import opened Sequences
  import opened Words
  import opened Scheduler
  import opened SchedulerRuns
  import opened SchedulerOrder

  // ----- one switch

  /** Ready once the running process has been put back. */
  predicate CanRun(s: State, p: Pid) {
    s.current == Some(p) || (p < |s.procs| && s.procs[p].state == Ready)
  }

  /** The first listed process that can run, or the idle process when there is none. */
  ghost predicate IsNext(s: State, next: Pid) {
    || (next == s.idle && forall i :: 0 <= i < |s.tasks| ==> !CanRun(s, s.tasks[i]))
    || exists i :: 0 <= i < |s.tasks| && s.tasks[i] == next && CanRun(s, next) && forall j :: 0 <= j < i ==> !CanRun(s, s.tasks[j])
  }

  ghost predicate SwitchesTask(was: Task, after: Task, stops: bool, starts: bool, now: u32) {
    && after.priority == was.priority
    && after.runtime == (if stops then Wrap32(was.runtime + (now - was.lastRun)) else was.runtime)
    && after.lastRun == (if stops || starts then now else was.lastRun)
    && after.quantum == (if starts then 10 else was.quantum)
    && after.state == (if starts then Running else if stops then Ready else was.state)
  }

  /** Exactly one switch: the process that was running is charged and ready, the next one runs with a
      fresh quantum, and nothing else changes. With no task listed there is no switch. */
  ghost predicate Switches(s: State, t: State, now: u32) {
    if s.tasks == [] then t == s
    else
      && t.tasks == s.tasks && t.idle == s.idle && |t.procs| == |s.procs|
      && t.switches == Wrap32(s.switches + 1)
      && t.current.Some? && IsNext(s, t.current.value)
      && forall p :: 0 <= p < |s.procs| ==>
           SwitchesTask(s.procs[p], t.procs[p], s.current == Some(p), t.current == Some(p), now)
  }

  lemma {:induction false} FirstReadyAt(procs: seq<Task>, tasks: seq<Pid>) returns (i: nat)
    requires forall i :: 0 <= i < |tasks| ==> tasks[i] < |procs|
    ensures i <= |tasks| && forall j :: 0 <= j < i ==> procs[tasks[j]].state != Ready
    ensures FirstReady(procs, tasks) == if i < |tasks| then Some(tasks[i]) else None
    ensures i < |tasks| ==> procs[tasks[i]].state == Ready
  {
    if tasks == [] || procs[tasks[0]].state == Ready {
      i := 0;
    } else {
      var k := FirstReadyAt(procs, tasks[1..]);
      i := k + 1;
      assert forall j :: 1 <= j < i ==> tasks[j] == tasks[1..][j - 1];
    }
  }

  lemma SwitchFindsNext(s: State, now: u32)
    requires WellFormed(s) && s.tasks != []
    ensures IsNext(s, Switch(s, now).current.value)
  {
    var procs := Charged(s, now);
    var i := FirstReadyAt(procs, s.tasks);
    assert forall p :: 0 <= p < |s.procs| ==> (procs[p].state == Ready <==> CanRun(s, p));
  }

  lemma SwitchSwitches(s: State, now: u32)
    requires WellFormed(s)
    ensures Switches(s, Switch(s, now), now)
  {
    if s.tasks != [] {
      SwitchFindsNext(s, now);
      if s.current.Some? { ChargeIsOneSum(s, now); }
    }
  }

  lemma ChargeIsOneSum(s: State, now: u32)
    requires WellFormed(s) && s.current.Some?
    ensures var t := s.procs[s.current.value];
            Charged(s, now)[s.current.value].runtime == Wrap32(t.runtime + (now - t.lastRun))
  {
  }

  /** A yield switches once. */
  lemma YieldInRun(steps: seq<Step>, now: u32)
    ensures Switches(Exec(steps).s, Exec(steps + [Yield(now)]).s, now)
  {
    ExecSnoc(steps, Yield(now));
    SwitchSwitches(Exec(steps).s, now);
  }

  // ----- ticks

  /** The state in which process c has this much of its quantum left. */
  function WithQuantum(s: State, c: Pid, left: u32): State
    requires c < |s.procs|
  {
    s.(procs := s.procs[c := s.procs[c].(quantum := left)])
  }

  /** A tick before there is a current process does nothing, one that leaves some of the quantum takes
      one off it, and one that does not switches once. */
  ghost predicate Ticks(s: State, t: State, now: u32)
    requires WellFormed(s)
  {
    match s.current
    case None => t == s
    case Some(c) =>
      if s.procs[c].quantum > 1 then t == WithQuantum(s, c, s.procs[c].quantum - 1)
      else Switches(WithQuantum(s, c, 0), t, now)
  }

  lemma TickTicks(s: State, now: u32)
    requires WellFormed(s)
    ensures Ticks(s, Tick(s, now), now)
  {
    if s.current.Some? && s.procs[s.current.value].quantum <= 1 {
      SwitchSwitches(WithQuantum(s, s.current.value, 0), now);
    }
  }

  lemma TimerInRun(steps: seq<Step>, now: u32)
    ensures Ticks(Exec(steps).s, Exec(steps + [Timer(now)]).s, now)
  {
    ExecSnoc(steps, Timer(now));
    TickTicks(Exec(steps).s, now);
  }

  /** The run that goes on with timer interrupts at these times. */
  function Timed(steps: seq<Step>, times: seq<u32>): seq<Step> {
    if times == [] then steps else Timed(steps, times[..|times| - 1]) + [Timer(times[|times| - 1])]
  }

  lemma CountTwice(s: State, c: Pid, a: u32, b: u32)
    requires c < |s.procs|
    ensures WithQuantum(WithQuantum(s, c, a), c, b) == WithQuantum(s, c, b)
  {
    assert s.procs[c := s.procs[c].(quantum := a)][c := s.procs[c].(quantum := b)] == s.procs[c := s.procs[c].(quantum := b)];
  }

  /** A tick in the state that is s but for the quantum of its current process. */
  lemma TickWithQuantum(s: State, u: State, t: State, c: Pid, left: u32, now: u32)
    requires WellFormed(s) && s.current == Some(c) && u == WithQuantum(s, c, left) && Ticks(u, t, now)
    ensures if left > 1 then t == WithQuantum(s, c, left - 1) else Switches(WithQuantum(s, c, 0), t, now)
  {
    CountTwice(s, c, left, if left > 1 then left - 1 else 0);
  }

  lemma TickInRun(before: seq<Step>, s: State, c: Pid, left: u32, now: u32)
    requires WellFormed(s) && s.current == Some(c) && Exec(before).s == WithQuantum(s, c, left)
    ensures var t := Exec(before + [Timer(now)]).s;
            if left > 1 then t == WithQuantum(s, c, left - 1) else Switches(WithQuantum(s, c, 0), t, now)
  {
    TimerInRun(before, now);
    TickWithQuantum(s, Exec(before).s, Exec(before + [Timer(now)]).s, c, left, now);
  }

  lemma TickCounts(before: seq<Step>, all: seq<Step>, s: State, c: Pid, left: u32, now: u32)
    requires WellFormed(s) && s.current == Some(c) && Exec(before).s == WithQuantum(s, c, left) && left > 1
    requires all == before + [Timer(now)]
    ensures Exec(all).s == WithQuantum(s, c, left - 1)
  {
    TickInRun(before, s, c, left, now);
  }

  lemma SameQuantum(s: State, c: Pid)
    requires c < |s.procs|
    ensures WithQuantum(s, c, s.procs[c].quantum) == s
  {
    assert s.procs[c := s.procs[c].(quantum := s.procs[c].quantum)] == s.procs;
  }

  lemma TimedBefore(steps: seq<Step>, times: seq<u32>, all: seq<Step>) returns (before: seq<Step>)
    requires times != [] && all == Timed(steps, times)
    ensures before == Timed(steps, times[..|times| - 1]) && all == before + [Timer(times[|times| - 1])]
  {
    before := Timed(steps, times[..|times| - 1]);
  }

  lemma {:induction false} TicksOnlyCount(steps: seq<Step>, times: seq<u32>, all: seq<Step>, s: State, c: Pid, left: u32)
    requires WellFormed(s) && s.current == Some(c) && s.procs[c].quantum == left && |times| < left
    requires s == Exec(steps).s && all == Timed(steps, times)
    ensures Exec(all).s == WithQuantum(s, c, left - |times|)
  {
    if times == [] {
      SameQuantum(s, c);
    } else {
      var n := |times| - 1;
      var before := TimedBefore(steps, times, all);
      TicksOnlyCount(steps, times[..n], before, s, c, left);
      TickCounts(before, all, s, c, left - n, times[n]);
    }
  }

  lemma SwitchStarts(s: State, t: State, now: u32)
    requires WellFormed(s) && s.tasks != [] && Switches(s, t, now)
    ensures t.current.Some? && t.current.value < |t.procs| && t.procs[t.current.value].quantum == 10
  {
    assert IsNext(s, t.current.value);
  }

  lemma DispatchStarts(steps: seq<Step>, now: u32)
    requires Exec(steps).s.tasks != []
    ensures var s := Exec(steps + [Yield(now)]).s; s.current.Some? && s.procs[s.current.value].quantum == 10
  {
    YieldInRun(steps, now);
    SwitchStarts(Exec(steps).s, Exec(steps + [Yield(now)]).s, now);
  }

  /** From a dispatch on, up to nine timer interrupts only count the quantum down. */
  lemma NineTicksOnlyCount(steps: seq<Step>, now: u32, s: State, times: seq<u32>)
    requires Exec(steps).s.tasks != [] && s == Exec(steps + [Yield(now)]).s && |times| <= 9
    ensures s.current.Some? && Exec(Timed(steps + [Yield(now)], times)).s == WithQuantum(s, s.current.value, 10 - |times|)
  {
    DispatchStarts(steps, now);
    TicksOnlyCount(steps + [Yield(now)], times, Timed(steps + [Yield(now)], times), s, s.current.value, 10);
  }

  /** And the tenth switches exactly once. */
  lemma TenthTickSwitches(steps: seq<Step>, now: u32, s: State, times: seq<u32>, nine: seq<Step>, last: u32)
    requires Exec(steps).s.tasks != [] && s == Exec(steps + [Yield(now)]).s
    requires |times| == 9 && nine == Timed(steps + [Yield(now)], times)
    ensures s.current.Some? && Switches(WithQuantum(s, s.current.value, 0), Exec(nine + [Timer(last)]).s, last)
  {
    NineTicksOnlyCount(steps, now, s, times);
    TickInRun(nine, s, s.current.value, 1, last);
  }

  // ----- additions and removals

  lemma {:induction false} PassBringsHighest(procs: seq<Task>, s: seq<Pid>)
    requires s != []
    ensures multiset(Pass(procs, s)) == multiset(s)
    ensures forall p :: p in s ==> Priority(procs, p) <= Priority(procs, Pass(procs, s)[0])
  {
    if |s| > 1 {
      var t := Pass(procs, s[1..]);
      PassBringsHighest(procs, s[1..]);
      assert s == [s[0]] + s[1..] && t == [t[0]] + t[1..];
    } else {
      assert s == [s[0]];
    }
  }

  /** An addition resets the record and lists the process once more, whether it is listed or not, with
      a task of the highest priority in front; a full array refuses it. */
  ghost predicate Adds(s: State, t: State, p: Pid, priority: u8, now: u32) {
    if p >= |s.procs| || |s.tasks| >= 256 then t == s
    else
      && t == s.(procs := s.procs[p := Task(priority, 10, 0, now, Ready)], tasks := t.tasks)
      && multiset(t.tasks) == multiset(s.tasks + [p])
      && forall q :: q in t.tasks ==> Priority(t.procs, q) <= Priority(t.procs, t.tasks[0])
  }

  lemma AddAdds(r: Run, p: Pid, priority: u8, now: u32)
    requires WellFormed(r.s)
    ensures Adds(r.s, Apply(r, Add(p, priority, now)).s, p, priority, now)
  {
    var s, t := r.s, Apply(r, Add(p, priority, now)).s;
    if p < |s.procs| && |s.tasks| < 256 {
      PassBringsHighest(t.procs, s.tasks + [p]);
      assert forall q :: q in t.tasks ==> q in multiset(t.tasks);
      assert forall q :: q in s.tasks + [p] <==> q in multiset(s.tasks + [p]);
    }
  }

  lemma AddInRun(steps: seq<Step>, p: Pid, priority: u8, now: u32)
    ensures Adds(Exec(steps).s, Exec(steps + [Add(p, priority, now)]).s, p, priority, now)
  {
    ExecSnoc(steps, Add(p, priority, now));
    AddAdds(Exec(steps), p, priority, now);
  }

  /** A removal takes out the first entry for the process and nothing else. */
  lemma RemoveInRun(steps: seq<Step>, p: Pid)
    ensures var s, t := Exec(steps).s, Exec(steps + [Remove(p)]).s;
            && t == s.(tasks := t.tasks)
            && (p !in s.tasks ==> t.tasks == s.tasks)
            && (p in s.tasks ==>
                  exists n :: 0 <= n < |s.tasks| && s.tasks[n] == p && p !in s.tasks[..n] && t.tasks == s.tasks[..n] + s.tasks[n + 1..])
  {
    ExecSnoc(steps, Remove(p));
    WithoutIsFirst(Exec(steps).s.tasks, p);
  }

  lemma WithoutIsFirst(s: seq<Pid>, p: Pid)
    ensures p !in s ==> Without<Pid>(s, p) == s
    ensures p in s ==>
              exists n :: 0 <= n < |s| && s[n] == p && p !in s[..n] && Without<Pid>(s, p) == s[..n] + s[n + 1..]
  {
    var n := FirstAt(s, p);
    var a: seq<Pid>, t: seq<Pid> := s[..n], s[n..];
    WithoutFirst<Pid>(a, p, t);
    assert a + t == s;
    if n < |s| { assert t[1..] == s[n + 1..]; } else { assert a == s; }
  }

  lemma {:induction false} FirstAt(s: seq<Pid>, p: Pid) returns (n: nat)
    ensures n <= |s| && p !in s[..n] && (n < |s| ==> s[n] == p)
  {
    n := 0;
    while n < |s| && s[n] != p
      invariant n <= |s| && p !in s[..n]
    {
      n := n + 1;
    }
  }

  // ----- whose time it was

  predicate HasSwitched(steps: seq<Step>)
    requires steps != []
  {
    Exec(steps).s.switches != Exec(steps[..|steps| - 1]).s.switches
  }

  function Now(a: Step): u32 {
    if a.Yield? || a.Timer? || a.Add? then a.now else 0
  }

  /** The time of the last switch, or of a later addition of the current process. */
  function Since(steps: seq<Step>): u32 {
    if steps == [] then 0
    else
      var before, last := steps[..|steps| - 1], steps[|steps| - 1];
      var s := Exec(before).s;
      if HasSwitched(steps) || (Accepted(s, last) && s.current == Some(last.p)) then Now(last) else Since(before)
  }

  /** The time for which p has been the current process since it was last added, up to the last switch. */
  function TimeCurrent(steps: seq<Step>, p: Pid): int {
    if steps == [] then 0
    else
      var before, last := steps[..|steps| - 1], steps[|steps| - 1];
      var s := Exec(before).s;
      if HasSwitched(steps) && s.current == Some(p) then TimeCurrent(before, p) + (Now(last) - Since(before))
      else if Accepted(s, last) && last.p == p then 0
      else TimeCurrent(before, p)
  }

  /** The state shows these times for process p. */
  ghost predicate Charges(s: State, since: u32, p: Pid, time: int) {
    && (s.current.Some? ==> s.current.value < |s.procs| && s.procs[s.current.value].lastRun == since)
    && (if p < |s.procs| then s.procs[p].runtime == Wrap32(time) else time == 0)
  }

  lemma SwitchCharges(s: State, t: State, now: u32, since: u32, p: Pid, time: int)
    requires WellFormed(s) && Charges(s, since, p, time) && s.tasks != [] && Switches(s, t, now)
    ensures t.switches != s.switches
    ensures Charges(t, now, p, if s.current == Some(p) then time + (now - since) else time)
  {
    if s.current == Some(p) { WrapAbsorbs(now - since, 0, time); }
    assert IsNext(s, t.current.value) && t.current.value < |s.procs|;
  }

  function SinceAfter(s: State, t: State, a: Step, since: u32): u32 {
    if t.switches != s.switches || (Accepted(s, a) && s.current == Some(a.p)) then Now(a) else since
  }

  function TimeAfter(s: State, t: State, a: Step, since: u32, p: Pid, time: int): int {
    if t.switches != s.switches && s.current == Some(p) then time + (Now(a) - since)
    else if Accepted(s, a) && a.p == p then 0
    else time
  }

  lemma TimesOfStep(before: seq<Step>, last: Step, p: Pid)
    ensures var s, t := Exec(before).s, Exec(before + [last]).s;
            && Since(before + [last]) == SinceAfter(s, t, last, Since(before))
            && TimeCurrent(before + [last], p) == TimeAfter(s, t, last, Since(before), p, TimeCurrent(before, p))
  {
    var steps := before + [last];
    assert steps[..|steps| - 1] == before;
  }

  /** One step charges its process for the time since then, if it switches, and clears a process that
      it adds. */
  ghost predicate ChargesStep(s: State, t: State, a: Step, since: u32, p: Pid, time: int) {
    Charges(t, SinceAfter(s, t, a, since), p, TimeAfter(s, t, a, since, p, time))
  }

  lemma YieldCharges(s: State, t: State, now: u32, since: u32, p: Pid, time: int)
    requires WellFormed(s) && Charges(s, since, p, time) && Switches(s, t, now)
    ensures ChargesStep(s, t, Yield(now), since, p, time)
  {
    if s.tasks != [] { SwitchCharges(s, t, now, since, p, time); }
  }

  lemma TimerCharges(s: State, t: State, now: u32, since: u32, p: Pid, time: int)
    requires WellFormed(s) && Charges(s, since, p, time) && Ticks(s, t, now)
    ensures ChargesStep(s, t, Timer(now), since, p, time)
  {
    if s.current.Some? && s.procs[s.current.value].quantum <= 1 && s.tasks != [] {
      SwitchCharges(WithQuantum(s, s.current.value, 0), t, now, since, p, time);
    }
  }

  lemma AddCharges(s: State, t: State, a: Step, since: u32, p: Pid, time: int)
    requires a.Add? && WellFormed(s) && Charges(s, since, p, time) && Adds(s, t, a.p, a.priority, a.now)
    ensures ChargesStep(s, t, a, since, p, time)
  {
  }

  lemma OthersCharge(r: Run, a: Step, since: u32, p: Pid, time: int)
    requires WellFormed(r.s) && Charges(r.s, since, p, time) && (a.Create? || a.Remove? || a.Store?)
    ensures ChargesStep(r.s, Apply(r, a).s, a, since, p, time)
  {
  }

  /** What one step does to the times, whichever it is. */
  lemma StepCharges(before: seq<Step>, a: Step, since: u32, p: Pid, time: int)
    requires Charges(Exec(before).s, since, p, time)
    ensures ChargesStep(Exec(before).s, Exec(before + [a]).s, a, since, p, time)
  {
    match a
    case Yield(now) =>
      YieldInRun(before, now);
      YieldCharges(Exec(before).s, Exec(before + [a]).s, now, since, p, time);
    case Timer(now) =>
      TimerInRun(before, now);
      TimerCharges(Exec(before).s, Exec(before + [a]).s, now, since, p, time);
    case Add(q, priority, now) =>
      AddInRun(before, q, priority, now);
      AddCharges(Exec(before).s, Exec(before + [a]).s, a, since, p, time);
    case _ =>
      ExecSnoc(before, a);
      OthersCharge(Exec(before), a, since, p, time);
  }

  lemma ChargedAfterStep(before: seq<Step>, last: Step, p: Pid)
    requires Charges(Exec(before).s, Since(before), p, TimeCurrent(before, p))
    ensures Charges(Exec(before + [last]).s, Since(before + [last]), p, TimeCurrent(before + [last], p))
  {
    TimesOfStep(before, last, p);
    StepCharges(before, last, Since(before), p, TimeCurrent(before, p));
  }

  /** Every process has been charged exactly the time for which it was current. */
  lemma {:induction false} RunTimesAreTimesCurrent(steps: seq<Step>, p: Pid)
    ensures Charges(Exec(steps).s, Since(steps), p, TimeCurrent(steps, p))
  {
    if steps != [] {
      RunTimesAreTimesCurrent(steps[..|steps| - 1], p);
      ChargedAfterStep(steps[..|steps| - 1], steps[|steps| - 1], p);
      assert steps[..|steps| - 1] + [steps[|steps| - 1]] == steps;
    }
  }
}
