/** The priority scheduler: a task array kept in order by one bubble pass for each added task,
    dispatch of the first ready task, quanta, and the accounting of run time. */
module Scheduler {
  import opened Sequences
  import opened Words

  const MAX_TASKS := 256
  const QUANTUM := 10

  /** A process is named by its place in the order of creation. */
  type Pid = nat

  datatype RunState = Ready | Running | Blocked | Terminated

  datatype Task = Task(priority: u8, quantum: u32, runtime: u32, lastRun: u32, state: RunState)

  datatype State = State(procs: seq<Task>, tasks: seq<Pid>, current: Option<Pid>, idle: Pid, switches: u32)

  ghost predicate WellFormed(s: State) {
    && s.idle < |s.procs| && (s.current.Some? ==> s.current.value < |s.procs|)
    && (forall i :: 0 <= i < |s.tasks| ==> s.tasks[i] < |s.procs|)
    && |s.tasks| <= MAX_TASKS
  }

  function Priority(procs: seq<Task>, p: Pid): u8 {
    if p < |procs| then procs[p].priority else 0
  }

  // ----- the bubble pass

  /** One pass from the right end to the left, exchanging neighbours where the right one has the
      higher priority. */
  function Pass(procs: seq<Task>, s: seq<Pid>): (r: seq<Pid>)
    ensures |r| == |s|
  {
    if |s| <= 1 then s
    else
      var t := Pass(procs, s[1..]);
      if Priority(procs, t[0]) > Priority(procs, s[0]) then [t[0], s[0]] + t[1..] else [s[0]] + t
  }

  /** Descending priority. */
  ghost predicate Ranked(procs: seq<Task>, s: seq<Pid>) {
    |s| <= 1 || (Priority(procs, s[0]) >= Priority(procs, s[1]) && Ranked(procs, s[1..]))
  }

  lemma {:induction false} RankedMeans(procs: seq<Task>, s: seq<Pid>)
    ensures Ranked(procs, s) <==> forall i, j :: 0 <= i < j < |s| ==> Priority(procs, s[i]) >= Priority(procs, s[j])
  {
    if |s| > 1 {
      RankedMeans(procs, s[1..]);
      if forall i, j :: 0 <= i < j < |s| ==> Priority(procs, s[i]) >= Priority(procs, s[j]) {
        assert forall i, j :: 0 <= i < j < |s[1..]| ==> Priority(procs, s[1..][i]) >= Priority(procs, s[1..][j]);
      }
      if Ranked(procs, s) {
        forall i, j | 0 <= i < j < |s|
          ensures Priority(procs, s[i]) >= Priority(procs, s[j])
        {
          assert s[j] == s[1..][j - 1];
          if i > 0 { assert s[i] == s[1..][i - 1]; } else if j > 1 { assert s[1] == s[1..][0]; }
        }
      }
    }
  }

  /** How many of these have a higher priority than `level`. */
  function Above(procs: seq<Task>, s: seq<Pid>, level: u8): nat {
    if s == [] then 0 else (if Priority(procs, s[0]) > level then 1 else 0) + Above(procs, s[1..], level)
  }

  /** No task is outranked by two of the tasks behind it. */
  ghost predicate NearlyRanked(procs: seq<Task>, s: seq<Pid>) {
    s == [] || (Above(procs, s[1..], Priority(procs, s[0])) <= 1 && NearlyRanked(procs, s[1..]))
  }

  /** The tasks of one priority, in list order. */
  function Level(procs: seq<Task>, s: seq<Pid>, level: u8): (r: seq<Pid>)
    ensures forall i :: 0 <= i < |r| ==> r[i] in s
  {
    if s == [] then []
    else (if Priority(procs, s[0]) == level then [s[0]] else []) + Level(procs, s[1..], level)
  }

  /** A pass reorders tasks of different priority only. */
  lemma {:induction false} PassIsStable(procs: seq<Task>, s: seq<Pid>, level: u8)
    ensures Level(procs, Pass(procs, s), level) == Level(procs, s, level)
  {
    if |s| > 1 {
      PassIsStable(procs, s[1..], level);
      var t := Pass(procs, s[1..]);
      LevelOfTwo(procs, s[0], t, level);
      LevelOfTwo(procs, t[0], [s[0]] + t[1..], level);
      LevelOfTwo(procs, s[0], t[1..], level);
      LevelOfTwo(procs, t[0], t[1..], level);
      assert [t[0]] + t[1..] == t && [t[0], s[0]] + t[1..] == [t[0]] + ([s[0]] + t[1..]);
    }
  }

  lemma LevelOfTwo(procs: seq<Task>, p: Pid, s: seq<Pid>, level: u8)
    ensures Level(procs, [p] + s, level) == (if Priority(procs, p) == level then [p] else []) + Level(procs, s, level)
    ensures Above(procs, [p] + s, level) == (if Priority(procs, p) > level then 1 else 0) + Above(procs, s, level)
    ensures Ranked(procs, [p] + s) <==> s == [] || (Priority(procs, p) >= Priority(procs, s[0]) && Ranked(procs, s))
  {
    assert ([p] + s)[1..] == s;
  }

  lemma {:induction false} PassKeepsAbove(procs: seq<Task>, s: seq<Pid>, level: u8)
    ensures Above(procs, Pass(procs, s), level) == Above(procs, s, level)
  {
    if |s| > 1 {
      PassKeepsAbove(procs, s[1..], level);
      var t := Pass(procs, s[1..]);
      LevelOfTwo(procs, s[0], t, level);
      LevelOfTwo(procs, t[0], [s[0]] + t[1..], level);
      LevelOfTwo(procs, s[0], t[1..], level);
      assert [t[0], s[0]] + t[1..] == [t[0]] + ([s[0]] + t[1..]);
    }
  }

  lemma {:induction false} NoneAbove(procs: seq<Task>, s: seq<Pid>, level: u8)
    requires Ranked(procs, s)
    ensures Above(procs, s, level) == 0 <==> s == [] || Priority(procs, s[0]) <= level
  {
    if |s| > 1 { NoneAbove(procs, s[1..], level); }
  }

  /** Exactly when the single pass is enough to put the array in order. */
  lemma {:induction false} PassRanks(procs: seq<Task>, s: seq<Pid>)
    ensures Ranked(procs, Pass(procs, s)) <==> NearlyRanked(procs, s)
  {
    if |s| > 1 {
      var x, t := s[0], Pass(procs, s[1..]);
      PassRanks(procs, s[1..]);
      PassKeepsAbove(procs, s[1..], Priority(procs, x));
      LevelOfTwo(procs, x, t, 0);
      LevelOfTwo(procs, x, t[1..], 0);
      LevelOfTwo(procs, t[0], [x] + t[1..], 0);
      assert [t[0], x] + t[1..] == [t[0]] + ([x] + t[1..]);
      if Ranked(procs, t) { NoneAbove(procs, t, Priority(procs, x)); }
      if Ranked(procs, t[1..]) { NoneAbove(procs, t[1..], Priority(procs, x)); }
    }
  }

  lemma {:induction false} AppendedIsNearlyRanked(procs: seq<Task>, s: seq<Pid>, p: Pid)
    requires Ranked(procs, s)
    ensures NearlyRanked(procs, s + [p])
  {
    if s == [] {
      assert s + [p] == [p];
    } else {
      AppendedIsNearlyRanked(procs, s[1..], p);
      assert (s + [p])[1..] == s[1..] + [p];
      NoneAbove(procs, s[1..], Priority(procs, s[0]));
      AboveAppended(procs, s[1..], p, Priority(procs, s[0]));
    }
  }

  lemma {:induction false} AboveAppended(procs: seq<Task>, s: seq<Pid>, p: Pid, level: u8)
    ensures Above(procs, s + [p], level) == Above(procs, s, level) + if Priority(procs, p) > level then 1 else 0
  {
    if s == [] {
      assert s + [p] == [p];
    } else {
      AboveAppended(procs, s[1..], p, level);
      assert (s + [p])[1..] == s[1..] + [p];
    }
  }

  /** Priorities of processes that are not listed do not matter. */
  lemma {:induction false} OnlyListedMatter(procs: seq<Task>, other: seq<Task>, s: seq<Pid>)
    requires forall i :: 0 <= i < |s| ==> Priority(procs, s[i]) == Priority(other, s[i])
    ensures Ranked(procs, s) <==> Ranked(other, s)
  {
    if |s| > 1 { OnlyListedMatter(procs, other, s[1..]); }
  }

  // ----- the operations

  /** `scheduler_add_task`, at a time the timer counts as `now`. */
  function AddTask(s: State, p: Pid, priority: u8, now: u32): (State, bool)
    requires p < |s.procs|
  {
    if |s.tasks| >= MAX_TASKS then (s, false)
    else
      var procs := s.procs[p := Task(priority, QUANTUM, 0, now, Ready)];
      (s.(procs := procs, tasks := Pass(procs, s.tasks + [p])), true)
  }

  /** `scheduler_remove_task`: the first entry for the process goes, if there is one. */
  function RemoveTask(s: State, p: Pid): State {
    s.(tasks := Without<Pid>(s.tasks, p))
  }

  /** The running process gives up the processor: its time is charged and it is ready again. */
  function Charged(s: State, now: u32): (procs: seq<Task>)
    requires WellFormed(s)
    ensures |procs| == |s.procs|
  {
    match s.current
    case None => s.procs
    case Some(c) =>
      var t := s.procs[c];
      s.procs[c := t.(runtime := Wrap32(t.runtime + Wrap32(now - t.lastRun)), lastRun := now, state := Ready)]
  }

  /** The first ready task of the list. */
  function FirstReady(procs: seq<Task>, tasks: seq<Pid>): (r: Option<Pid>)
    requires forall i :: 0 <= i < |tasks| ==> tasks[i] < |procs|
    ensures r.Some? ==> r.value in tasks && procs[r.value].state == Ready
    ensures r.None? ==> forall p :: p in tasks ==> procs[p].state != Ready
  {
    if tasks == [] then None
    else if procs[tasks[0]].state == Ready then Some(tasks[0])
    else FirstReady(procs, tasks[1..])
  }

  /** The processor goes to this process, with a fresh quantum. */
  function Dispatched(s: State, next: Pid, now: u32): State
    requires next < |s.procs|
  {
    s.(procs := s.procs[next := s.procs[next].(quantum := QUANTUM, state := Running, lastRun := now)],
       current := Some(next),
       switches := Wrap32(s.switches + 1))
  }

  /** `scheduler_switch_task`. */
  function Switch(s: State, now: u32): State
    requires WellFormed(s)
  {
    if s.tasks == [] then s
    else
      var charged := s.(procs := Charged(s, now));
      Dispatched(charged, match FirstReady(charged.procs, s.tasks) case Some(p) => p case None => s.idle, now)
  }

  /** `scheduler_timer_callback`. */
  function Tick(s: State, now: u32): State
    requires WellFormed(s)
  {
    match s.current
    case None => s
    case Some(c) =>
      var t := s.procs[c];
      var left: int := if t.quantum > 0 then t.quantum - 1 else 0;
      var ticked := s.(procs := s.procs[c := t.(quantum := left)]);
      if left == 0 then Switch(ticked, now) else ticked
  }

  // ----- order and dispatch

  /** Adding keeps the order exactly when one pass can: always for a process that is not listed
      yet, but a listed one that is added again with another priority may need more. */
  lemma AddKeepsOrder(s: State, p: Pid, priority: u8, now: u32)
    requires WellFormed(s) && p < |s.procs| && |s.tasks| < MAX_TASKS && Ranked(s.procs, s.tasks)
    ensures var r := AddTask(s, p, priority, now).0;
            && (Ranked(r.procs, r.tasks) <==> NearlyRanked(r.procs, s.tasks + [p]))
            && (p !in s.tasks || Priority(s.procs, p) == priority ==> Ranked(r.procs, r.tasks))
  {
    var r := AddTask(s, p, priority, now).0;
    PassRanks(r.procs, s.tasks + [p]);
    if p !in s.tasks || Priority(s.procs, p) == priority {
      OnlyListedMatter(s.procs, r.procs, s.tasks);
      AppendedIsNearlyRanked(r.procs, s.tasks, p);
    }
  }

  lemma {:induction false} LevelAppended(procs: seq<Task>, s: seq<Pid>, p: Pid, level: u8)
    ensures Level(procs, s + [p], level) == Level(procs, s, level) + if Priority(procs, p) == level then [p] else []
  {
    if s == [] {
      assert s + [p] == [p];
    } else {
      LevelAppended(procs, s[1..], p, level);
      assert (s + [p])[1..] == s[1..] + [p];
    }
  }

  lemma {:induction false} OnlyListedAreLevelled(procs: seq<Task>, other: seq<Task>, s: seq<Pid>, level: u8)
    requires forall i :: 0 <= i < |s| ==> Priority(procs, s[i]) == Priority(other, s[i])
    ensures Level(procs, s, level) == Level(other, s, level)
  {
    if s != [] { OnlyListedAreLevelled(procs, other, s[1..], level); }
  }

  /** A process that is not listed yet, or has that priority already, goes behind all tasks of its
      priority, and no two others of one priority change places. */
  lemma AddIsStable(s: State, p: Pid, priority: u8, now: u32, level: u8)
    requires WellFormed(s) && p < |s.procs| && |s.tasks| < MAX_TASKS
    requires p !in s.tasks || Priority(s.procs, p) == priority
    ensures var r := AddTask(s, p, priority, now).0;
            Level(r.procs, r.tasks, level) == Level(s.procs, s.tasks, level) + if priority == level then [p] else []
  {
    var r := AddTask(s, p, priority, now).0;
    PassIsStable(r.procs, s.tasks + [p], level);
    LevelAppended(r.procs, s.tasks, p, level);
    OnlyListedAreLevelled(s.procs, r.procs, s.tasks, level);
  }
}
