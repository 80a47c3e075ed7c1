/** Strict priority: when the task array stays in order over a run, and what dispatch makes of it. */
module SchedulerOrder {
  import opened Sequences
  import opened Words
  import opened Scheduler
  import opened SchedulerRuns

  lemma {:induction false} WithoutKeepsRanked(procs: seq<Task>, s: seq<Pid>, p: Pid)
    requires Ranked(procs, s)
    ensures Ranked(procs, Without<Pid>(s, p))
    ensures Without<Pid>(s, p) != [] ==> Priority(procs, Without<Pid>(s, p)[0]) <= Priority(procs, s[0])
  {
    if |s| > 1 {
      WithoutKeepsRanked(procs, s[1..], p);
      LevelOfTwo(procs, s[0], Without<Pid>(s[1..], p), 0);
    }
  }

  /** What a caller of `scheduler_add_task` would have to check. */
  ghost predicate OnePassSuffices(s: State, a: Step) {
    a.Add? && a.p < |s.procs| && |s.tasks| < MAX_TASKS ==>
      NearlyRanked(s.procs[a.p := Task(a.priority, QUANTUM, 0, a.now, Ready)], s.tasks + [a.p])
  }

  lemma SwitchKeepsPriorities(s: State, now: u32)
    requires Sane(s)
    ensures Switch(s, now).tasks == s.tasks && Tick(s, now).tasks == s.tasks
    ensures forall p :: Priority(Switch(s, now).procs, p) == Priority(s.procs, p)
    ensures forall p :: Priority(Tick(s, now).procs, p) == Priority(s.procs, p)
  {
  }

  /** From an array in order every step leads to an array in order, but for an addition that needs
      more than one pass. */
  lemma StepKeepsOrder(r: Run, a: Step)
    requires Sane(r.s) && Ranked(r.s.procs, r.s.tasks)
    ensures Ranked(Apply(r, a).s.procs, Apply(r, a).s.tasks) <==> OnePassSuffices(r.s, a)
  {
    match a
    case Add(p, priority, now) =>
      if p < |r.s.procs| && |r.s.tasks| < MAX_TASKS { AddKeepsOrder(r.s, p, priority, now); }
    case Remove(p) => WithoutKeepsRanked(r.s.procs, r.s.tasks, p);
    case _ =>
      match a { case Yield(now) => SwitchKeepsPriorities(r.s, now); case Timer(now) => SwitchKeepsPriorities(r.s, now); case _ => }
      OnlyListedMatter(r.s.procs, Apply(r, a).s.procs, r.s.tasks);
  }

  ghost predicate AlwaysInOrder(steps: seq<Step>) {
    var s := Exec(steps).s;
    Ranked(s.procs, s.tasks) && (steps == [] || AlwaysInOrder(steps[..|steps| - 1]))
  }

  ghost predicate OnePassAlwaysSuffices(steps: seq<Step>) {
    steps == [] ||
    (OnePassAlwaysSuffices(steps[..|steps| - 1]) && OnePassSuffices(Exec(steps[..|steps| - 1]).s, steps[|steps| - 1]))
  }

  lemma {:induction false} OrderOverRuns(steps: seq<Step>)
    ensures AlwaysInOrder(steps) <==> OnePassAlwaysSuffices(steps)
  {
    if steps != [] {
      var before := steps[..|steps| - 1];
      OrderOverRuns(before);
      if AlwaysInOrder(before) { StepKeepsOrder(Exec(before), steps[|steps| - 1]); }
    }
  }

  predicate Accepted(s: State, a: Step) {
    a.Add? && a.p < |s.procs| && |s.tasks| < MAX_TASKS
  }

  /** A listed process is added with another priority than it has. */
  predicate Reranks(s: State, a: Step) {
    Accepted(s, a) && a.p in s.tasks && Priority(s.procs, a.p) != a.priority
  }

  predicate NeverReranks(steps: seq<Step>) {
    steps == [] ||
    (NeverReranks(steps[..|steps| - 1]) && !Reranks(Exec(steps[..|steps| - 1]).s, steps[|steps| - 1]))
  }

  lemma {:induction false} OrderedUnlessReranked(steps: seq<Step>)
    requires NeverReranks(steps)
    ensures AlwaysInOrder(steps)
  {
    if steps != [] {
      var before, last := steps[..|steps| - 1], steps[|steps| - 1];
      OrderedUnlessReranked(before);
      var s := Exec(before).s;
      if Accepted(s, last) { AddKeepsOrder(s, last.p, last.priority, last.now); }
      StepKeepsOrder(Exec(before), last);
    }
  }

  /** Adding a listed task again above a task it stands behind always leaves the array out of order. */
  lemma RaisingBreaksOrder(s: State, i: nat, j: nat, priority: u8, now: u32)
    requires WellFormed(s) && i < j < |s.tasks| < MAX_TASKS && Ranked(s.procs, s.tasks)
    requires s.tasks[i] != s.tasks[j] && Priority(s.procs, s.tasks[i]) < priority
    ensures var r := AddTask(s, s.tasks[j], priority, now).0; !Ranked(r.procs, r.tasks)
  {
    var r := AddTask(s, s.tasks[j], priority, now).0;
    AddKeepsOrder(s, s.tasks[j], priority, now);
    TwoAbove(r.procs, s.tasks + [s.tasks[j]], i, j, |s.tasks|);
  }

  lemma {:induction false} TwoAbove(procs: seq<Task>, s: seq<Pid>, i: nat, j: nat, k: nat)
    requires i < j < k < |s|
    requires Priority(procs, s[j]) > Priority(procs, s[i]) && Priority(procs, s[k]) > Priority(procs, s[i])
    ensures !NearlyRanked(procs, s)
  {
    if i > 0 {
      TwoAbove(procs, s[1..], i - 1, j - 1, k - 1);
    } else {
      var t := s[1..];
      AboveSplit(procs, t[..j], t[j..], Priority(procs, s[0]));
      AboveCounts(procs, t[..j], j - 1, Priority(procs, s[0]));
      AboveCounts(procs, t[j..], k - 1 - j, Priority(procs, s[0]));
      assert t[..j] + t[j..] == t;
    }
  }

  lemma {:induction false} AboveSplit(procs: seq<Task>, a: seq<Pid>, b: seq<Pid>, level: u8)
    ensures Above(procs, a + b, level) == Above(procs, a, level) + Above(procs, b, level)
  {
    if a == [] {
      assert a + b == b;
    } else {
      AboveSplit(procs, a[1..], b, level);
      assert (a + b)[1..] == a[1..] + b;
    }
  }

  lemma {:induction false} AboveCounts(procs: seq<Task>, s: seq<Pid>, k: nat, level: u8)
    requires k < |s| && Priority(procs, s[k]) > level
    ensures Above(procs, s, level) >= 1
  {
    if k > 0 { AboveCounts(procs, s[1..], k - 1, level); }
  }

  lemma PassOfTwo(procs: seq<Task>, p: Pid, q: Pid)
    requires Priority(procs, p) >= Priority(procs, q)
    ensures Pass(procs, [p]) == [p] && Pass(procs, [p, q]) == [p, q]
  {
    assert [p, q][1..] == [q];
  }

  lemma TwoAdded(procs: seq<Task>, high: u8, low: u8, now: u32)
    requires low < high && procs == [Idle, Created, Created]
    ensures var s0 := State(procs, [], None, 0, 0);
            var s1 := AddTask(s0, 1, high, now).0;
            var s2 := AddTask(s1, 2, low, now).0;
            && Sane(s2) && s2.tasks == [1, 2] && |s2.procs| == 3
            && Priority(s2.procs, 1) == high && Priority(s2.procs, 2) == low
  {
    var s1 := AddTask(State(procs, [], None, 0, 0), 1, high, now).0;
    PassOfTwo(s1.procs, 1, 1);
    var s2 := AddTask(s1, 2, low, now).0;
    PassOfTwo(s2.procs, 1, 2);
    assert [] + [1] == [1] && [1] + [2] == [1, 2];
  }

  lemma RerankedIsSeen(steps: seq<Step>, a: Step)
    requires Reranks(Exec(steps).s, a)
    ensures !AlwaysInArrivalOrder(steps + [a])
  {
    assert (steps + [a])[..|steps + [a]| - 1] == steps;
    StableOverRuns(steps + [a]);
  }

  /** Two tasks in order, and the second added again above the first. */
  lemma ReaddingCanBreakOrder(added: seq<Step>, high: u8, low: u8, top: u8, now: u32)
    requires low < high < top && added == [Create, Create, Add(1, high, now), Add(2, low, now)]
    ensures Exec(added).s.tasks == [1, 2]
    ensures !AlwaysInOrder(added + [Add(2, top, now)]) && !AlwaysInArrivalOrder(added + [Add(2, top, now)])
  {
    var none: seq<Step> := [];
    ExecSnoc(none, Create);
    ExecSnoc(none + [Create], Create);
    var created := none + [Create] + [Create];
    assert Exec(created).s == State([Idle, Created, Created], [], None, 0, 0);
    ExecSnoc(created, Add(1, high, now));
    ExecSnoc(created + [Add(1, high, now)], Add(2, low, now));
    assert created + [Add(1, high, now)] + [Add(2, low, now)] == added;
    TwoAdded(Exec(created).s.procs, high, low, now);
    ExecSnoc(added, Add(2, top, now));
    RaisingBreaksOrder(Exec(added).s, 0, 1, top, now);
    RerankedIsSeen(added, Add(2, top, now));
  }

  // ----- stability over runs

  lemma {:induction false} LevelWithout(procs: seq<Task>, s: seq<Pid>, p: Pid, level: u8)
    ensures Level(procs, Without<Pid>(s, p), level) == Without<Pid>(Level(procs, s, level), p)
  {
    if s != [] {
      var rest := s[1..];
      var q := Level(procs, rest, level);
      LevelWithout(procs, rest, p, level);
      assert Level(procs, s, level) == if Priority(procs, s[0]) == level then [s[0]] + q else q;
      assert ([s[0]] + q)[1..] == q;
      if s[0] == p {
        NotLevelled(procs, rest, p, level);
      } else {
        LevelOfTwo(procs, s[0], Without<Pid>(rest, p), level);
      }
    }
  }

  lemma {:induction false} NotLevelled(procs: seq<Task>, s: seq<Pid>, p: Pid, level: u8)
    ensures Priority(procs, p) != level ==> Without<Pid>(Level(procs, s, level), p) == Level(procs, s, level)
  {
    if s != [] && Priority(procs, p) != level {
      NotLevelled(procs, s[1..], p, level);
      var q := Level(procs, s[1..], level);
      assert Level(procs, s, level) == if Priority(procs, s[0]) == level then [s[0]] + q else q;
      assert ([s[0]] + q)[1..] == q;
    }
  }

  /** The processes added with a priority and not removed since, in the order they were added. */
  function Arrivals(steps: seq<Step>, level: u8): seq<Pid> {
    if steps == [] then []
    else
      var before, last := steps[..|steps| - 1], steps[|steps| - 1];
      var q := Arrivals(before, level);
      if Accepted(Exec(before).s, last) && last.priority == level then q + [last.p]
      else if last.Remove? then Without<Pid>(q, last.p)
      else q
  }

  lemma StepIsStable(r: Run, a: Step, level: u8)
    requires Sane(r.s) && !Reranks(r.s, a)
    ensures var q, t := Level(r.s.procs, r.s.tasks, level), Apply(r, a).s;
            Level(t.procs, t.tasks, level) ==
              if Accepted(r.s, a) && a.priority == level then q + [a.p]
              else if a.Remove? then Without<Pid>(q, a.p)
              else q
  {
    match a
    case Add(p, priority, now) => if Accepted(r.s, a) { AddIsStable(r.s, p, priority, now, level); }
    case Remove(p) => LevelWithout(r.s.procs, r.s.tasks, p, level);
    case _ =>
      match a { case Yield(now) => SwitchKeepsPriorities(r.s, now); case Timer(now) => SwitchKeepsPriorities(r.s, now); case _ => }
      OnlyListedAreLevelled(r.s.procs, Apply(r, a).s.procs, r.s.tasks, level);
  }

  lemma {:induction false} LevelMeans(procs: seq<Task>, s: seq<Pid>, level: u8, p: Pid)
    ensures p in Level(procs, s, level) <==> p in s && Priority(procs, p) == level
  {
    if s != [] { LevelMeans(procs, s[1..], level, p); }
  }

  /** The tasks of one priority stand in the array in the order in which they were added. */
  ghost predicate InArrivalOrder(steps: seq<Step>, level: u8) {
    Level(Exec(steps).s.procs, Exec(steps).s.tasks, level) == Arrivals(steps, level)
  }

  ghost predicate AlwaysInArrivalOrder(steps: seq<Step>) {
    (forall level: u8 :: InArrivalOrder(steps, level)) && (steps == [] || AlwaysInArrivalOrder(steps[..|steps| - 1]))
  }

  /** A process that is ranked anew leaves the level in which it arrived. */
  lemma RerankedLeavesLevel(r: Run, a: Step)
    requires Sane(r.s) && Reranks(r.s, a)
    ensures var level := Priority(r.s.procs, a.p);
            && a.p in Level(r.s.procs, r.s.tasks, level)
            && a.p !in Level(Apply(r, a).s.procs, Apply(r, a).s.tasks, level)
  {
    var level := Priority(r.s.procs, a.p);
    LevelMeans(r.s.procs, r.s.tasks, level, a.p);
    LevelMeans(Apply(r, a).s.procs, Apply(r, a).s.tasks, level, a.p);
  }

  /** Equals keep their order of arrival throughout a run exactly when no listed process is ever
      added with another priority. */
  lemma {:induction false} StableOverRuns(steps: seq<Step>)
    ensures AlwaysInArrivalOrder(steps) <==> NeverReranks(steps)
  {
    if steps != [] {
      var before, last := steps[..|steps| - 1], steps[|steps| - 1];
      var r := Exec(before);
      StableOverRuns(before);
      if AlwaysInArrivalOrder(before) && !Reranks(r.s, last) {
        forall level: u8 ensures InArrivalOrder(steps, level) {
          assert InArrivalOrder(before, level);
          StepIsStable(r, last, level);
        }
      } else if AlwaysInArrivalOrder(before) {
        RerankedLeavesLevel(r, last);
        assert InArrivalOrder(before, Priority(r.s.procs, last.p));
        assert !InArrivalOrder(steps, Priority(r.s.procs, last.p));
      }
    }
  }

  // ----- dispatch

  lemma {:induction false} FirstReadyIsHighest(procs: seq<Task>, tasks: seq<Pid>)
    requires forall i :: 0 <= i < |tasks| ==> tasks[i] < |procs|
    requires Ranked(procs, tasks) && FirstReady(procs, tasks).Some?
    ensures var next := FirstReady(procs, tasks).value;
            && (forall p :: p in tasks && procs[p].state == Ready ==> Priority(procs, p) <= Priority(procs, next))
            && FirstReady(procs, Level(procs, tasks, Priority(procs, next))) == Some(next)
  {
    var level := Priority(procs, FirstReady(procs, tasks).value);
    var rest := Level(procs, tasks[1..], level);
    if procs[tasks[0]].state == Ready {
      RankedMeans(procs, tasks);
      assert Level(procs, tasks, level)[0] == tasks[0];
    } else {
      FirstReadyIsHighest(procs, tasks[1..]);
      assert Level(procs, tasks, level) == if Priority(procs, tasks[0]) == level then [tasks[0]] + rest else rest;
      assert ([tasks[0]] + rest)[1..] == rest;
    }
  }

  /** Dispatch serves the highest priority that has a ready task, the running process being ready
      again, and within it the first task of the list; the idle process only if there is none. */
  lemma DispatchServesHighest(s: State, now: u32)
    requires Sane(s) && s.tasks != [] && Ranked(s.procs, s.tasks)
    ensures var procs, next := Charged(s, now), Switch(s, now).current.value;
            if exists p :: p in s.tasks && procs[p].state == Ready then
              && next in s.tasks && procs[next].state == Ready
              && (forall p :: p in s.tasks && procs[p].state == Ready ==> Priority(procs, p) <= Priority(procs, next))
              && FirstReady(procs, Level(procs, s.tasks, Priority(procs, next))) == Some(next)
            else next == s.idle
  {
    var procs := Charged(s, now);
    OnlyListedMatter(s.procs, procs, s.tasks);
    if FirstReady(procs, s.tasks).Some? { FirstReadyIsHighest(procs, s.tasks); }
  }

  /** Quanta do not share the processor among equals: the first task of the array, once it runs,
      keeps it through every timer interrupt and every yield. */
  lemma FirstTaskKeepsProcessor(r: Run, a: Step)
    requires Sane(r.s) && (a.Timer? || a.Yield?)
    requires r.s.tasks != [] && r.s.current == Some(r.s.tasks[0])
    ensures Sane(Apply(r, a).s) && Apply(r, a).s.tasks == r.s.tasks && Apply(r, a).s.current == r.s.current
  {
    StepKeepsSane(r, a);
  }
}
