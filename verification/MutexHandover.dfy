/** Who gets the mutex: what every step does in every run, in which order processes wait, and that a
    mutex which is given back reaches everyone who waits. */
module MutexHandover {
  import opened Words
  import opened Sequences
  import opened WaiterQueue
  import opened Mutex

  lemma ExecSnoc(steps: seq<Step>, a: Step)
    ensures Exec(steps + [a]) == Apply(Exec(steps), a)
  {
    assert (steps + [a])[..|steps|] == steps;
  }

  /** p comes to own the mutex, and for the other processes nothing changes. */
  ghost predicate Enters(s: System, t: System, p: Pid) {
    && t.m.locked == 1 && t.m.owner == Some(p)
    && Depth(t, p) == Depth(s, p) + 1 && (forall q: Pid :: q != p ==> Depth(t, q) == Depth(s, q))
    && t.waiting == s.waiting - {p}
  }

  /** The list after the waiter at some place has been unlinked. */
  ghost predicate Unlinked(before: seq<Pid>, after: seq<Pid>, p: Pid) {
    exists n :: 0 <= n < |before| && before[n] == p && after == before[..n] + before[n + 1..]
  }

  /** `mutex_lock` by a process that is not waiting: it enters a free mutex, returns as if it had
      entered from its own, and otherwise goes to the end of the waiters. */
  lemma LockInRun(steps: seq<Step>, p: Pid)
    requires p !in Exec(steps).waiting
    ensures var s, t := Exec(steps), Exec(steps + [Lock(p)]);
            if s.m.owner.None? then Enters(s, t, p) && t.m.waiters == s.m.waiters
            else if s.m.owner == Some(p) then Enters(s, t, p) && t.m == s.m
            else t.m == s.m.(waiters := s.m.waiters + [p]) && t.depth == s.depth && t.waiting == s.waiting + {p}
  {
    EveryRunIsSound(steps);
    ExecSnoc(steps, Lock(p));
  }

  /** A pass of the wait loop: a waiter enters a mutex that nobody owns and leaves the list, whose
      others keep their order; from an owned mutex it gets nothing. */
  lemma RetryInRun(steps: seq<Step>, p: Pid)
    requires p in Exec(steps).waiting
    ensures var s, t := Exec(steps), Exec(steps + [Retry(p)]);
            if s.m.owner.None? then Enters(s, t, p) && Unlinked(s.m.waiters, t.m.waiters, p)
            else t == s
  {
    EveryRunIsSound(steps);
    ExecSnoc(steps, Retry(p));
    var ws := Exec(steps).m.waiters;
    var n :| 0 <= n < |ws| && ws[n] == p;
    WithoutCuts(ws, n);
  }

  lemma TryLockInRun(steps: seq<Step>, p: Pid)
    requires p !in Exec(steps).waiting
    ensures var s, t := Exec(steps), Exec(steps + [TryLock(p)]);
            if s.m.owner.None? then Enters(s, t, p) && t.m.waiters == s.m.waiters else t == s
  {
    EveryRunIsSound(steps);
    ExecSnoc(steps, TryLock(p));
  }

  /** An unlock frees the mutex exactly when the owner makes it; the waiters stay. */
  lemma ReleaseInRun(steps: seq<Step>, p: Pid)
    requires p !in Exec(steps).waiting
    ensures var s, t := Exec(steps), Exec(steps + [Release(p)]);
            && t.m == (if s.m.owner == Some(p) then Value(0, None, s.m.waiters) else s.m)
            && t.waiting == s.waiting
            && Depth(t, p) == (if Depth(s, p) == 0 then 0 else Depth(s, p) - 1)
            && forall q: Pid :: q != p ==> Depth(t, q) == Depth(s, q)
  {
    EveryRunIsSound(steps);
    ExecSnoc(steps, Release(p));
  }

  // ----- the order of waiting

  /** Who is waiting, in the order in which they began to. */
  function Line(steps: seq<Step>): seq<Pid> {
    if steps == [] then []
    else
      var before, p := steps[..|steps| - 1], steps[|steps| - 1].p;
      var waited, waits := p in Exec(before).waiting, p in Exec(steps).waiting;
      if !waited && waits then Line(before) + [p] else if waited && !waits then Without<Pid>(Line(before), p) else Line(before)
  }

  lemma {:induction false} WaitersStandInLine(steps: seq<Step>)
    ensures Exec(steps).m.waiters == Line(steps)
  {
    if steps != [] {
      var before := steps[..|steps| - 1];
      WaitersStandInLine(before);
      EveryRunIsSound(before);
    }
  }

  /** An unlock by the owner wakes the process that has waited longest, and no other unlock wakes
      anybody. */
  lemma LongestWaitingIsWoken(steps: seq<Step>, p: Pid)
    ensures Woken(Exec(steps).m, p) ==
              if Exec(steps).m.owner == Some(p) && Line(steps) != [] then Some(Line(steps)[0]) else None
  {
    WaitersStandInLine(steps);
  }

  // ----- everyone gets in

  /** The run in which, after these steps, each in turn makes a pass of its wait loop and gives the
      mutex back. */
  function Handover(steps: seq<Step>, ws: seq<Pid>): seq<Step> {
    if ws == [] then steps
    else
      var n := |ws| - 1;
      Handover(steps, ws[..n]) + [Retry(ws[n])] + [Release(ws[n])]
  }

  lemma DisciplinedSnoc(steps: seq<Step>, a: Step)
    ensures Disciplined(steps + [a]) <==> Disciplined(steps) && !Recursive(Exec(steps), a)
  {
    var all := steps + [a];
    assert all[..|all| - 1] == steps && all[|all| - 1] == a;
  }

  lemma OneHandover(steps: seq<Step>, p: Pid, rest: seq<Pid>)
    requires Disciplined(steps) && Exec(steps).m.owner == None && Exec(steps).m.waiters == [p] + rest
    ensures Exec(steps + [Retry(p)]).m == Value(1, Some(p), rest)
    ensures Disciplined(steps + [Retry(p)] + [Release(p)])
    ensures Exec(steps + [Retry(p)] + [Release(p)]).m == Value(0, None, rest)
  {
    var won := steps + [Retry(p)];
    EveryRunIsSound(steps);
    assert p in Exec(steps).m.waiters;
    ExecSnoc(steps, Retry(p));
    assert ([p] + rest)[1..] == rest;
    ExecSnoc(won, Release(p));
    DisciplinedSnoc(steps, Retry(p));
    DisciplinedSnoc(won, Release(p));
  }

  lemma {:induction false} HandoverServes(steps: seq<Step>, ws: seq<Pid>, k: nat)
    requires Disciplined(steps) && Exec(steps).m.owner == None && Exec(steps).m.waiters == ws && k <= |ws|
    ensures Disciplined(Handover(steps, ws[..k])) && Exec(Handover(steps, ws[..k])).m == Value(0, None, ws[k..])
    ensures k < |ws| ==> Exec(Handover(steps, ws[..k]) + [Retry(ws[k])]).m.owner == Some(ws[k])
  {
    if k == 0 {
      EveryRunIsSound(steps);
    } else {
      HandoverServes(steps, ws, k - 1);
      HandoverSnoc(steps, ws, k);
      OneHandover(Handover(steps, ws[..k - 1]), ws[k - 1], ws[k..]);
    }
    if k < |ws| {
      assert ws[k..] == [ws[k]] + ws[k + 1..];
      OneHandover(Handover(steps, ws[..k]), ws[k], ws[k + 1..]);
    }
  }

  lemma HandoverSnoc(steps: seq<Step>, ws: seq<Pid>, k: nat)
    requires 0 < k <= |ws|
    ensures Handover(steps, ws[..k]) == Handover(steps, ws[..k - 1]) + [Retry(ws[k - 1])] + [Release(ws[k - 1])]
    ensures ws[k - 1..] == [ws[k - 1]] + ws[k..]
  {
    assert ws[..k][..k - 1] == ws[..k - 1];
  }

  /** From every disciplined state the owner's unlock, and each waiter's next pass and unlock in the
      order of waiting, let every one of them own the mutex, and leave it free with nobody inside or
      waiting. */
  lemma EveryoneGetsIn(steps: seq<Step>)
    requires Disciplined(steps)
    ensures var s := Exec(steps);
            var freed := if s.m.owner.Some? then steps + [Release(s.m.owner.value)] else steps;
            var t := Exec(Handover(freed, s.m.waiters));
            && t.m == Value(0, None, []) && t.waiting == {} && (forall p: Pid :: Depth(t, p) == 0)
            && forall k :: 0 <= k < |s.m.waiters| ==>
                 Exec(Handover(freed, s.m.waiters[..k]) + [Retry(s.m.waiters[k])]).m.owner == Some(s.m.waiters[k])
  {
    var s := Exec(steps);
    var ws := s.m.waiters;
    var freed := if s.m.owner.Some? then steps + [Release(s.m.owner.value)] else steps;
    EveryRunIsSound(steps);
    if s.m.owner.Some? {
      ReleaseInRun(steps, s.m.owner.value);
      DisciplinedSnoc(steps, Release(s.m.owner.value));
    }
    forall k | 0 <= k < |ws|
      ensures Exec(Handover(freed, ws[..k]) + [Retry(ws[k])]).m.owner == Some(ws[k])
    {
      HandoverServes(freed, ws, k);
    }
    assert ws[..|ws|] == ws;
    HandoverServes(freed, ws, |ws|);
    DisciplinedRunsExclude(Handover(freed, ws));
    EveryRunIsSound(Handover(freed, ws));
  }
}
