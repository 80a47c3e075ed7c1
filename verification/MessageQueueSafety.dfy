/** No lost wake-ups, and what a close leaves behind, in every interleaving. */
module MessageQueueSafety {
  import opened Words
  import opened Sequences
  import opened WaiterQueue
  import opened MessageQueue

  // ----- waiters and wake-ups

  ghost predicate Listed(s: System) {
    && Distinct(s.q.notFull) && Distinct(s.q.notEmpty)
    && (forall p :: p in s.q.notFull <==> At(s, p).Sending? && At(s, p).phase == Blocked)
    && (forall p :: p in s.q.notEmpty <==> At(s, p).Receiving? && At(s, p).phase == Blocked)
  }

  predicate WokenAs(pc: Pc, receiving: bool) {
    if receiving then pc.Receiving? && pc.phase == Woken else pc.Sending? && pc.phase == Woken
  }

  /** Who has been signalled but has not run again: the receivers, or else the senders. */
  ghost function WokenProcesses(pc: map<Pid, Pc>, receiving: bool): set<Pid> {
    set p | p in pc && WokenAs(pc[p], receiving)
  }

  /** While a receiver waits on an open queue, every message is matched by a receiver already woken. */
  ghost predicate NoLostMessage(s: System) {
    s.q.notEmpty == [] || s.q.closed || |s.q.msgs| <= |WokenProcesses(s.pc, true)|
  }

  /** While a sender waits on an open queue, every free place is matched by a sender already woken. */
  ghost predicate NoLostPlace(s: System) {
    s.q.notFull == [] || s.q.closed || s.limits.maxMessages - |s.q.msgs| <= |WokenProcesses(s.pc, false)|
  }

  lemma RestKeepsDistinct(s: seq<Pid>)
    requires Distinct(s)
    ensures Distinct(Rest(s)) && (s != [] ==> s[0] !in Rest(s)) && (forall p :: p in s <==> Some(p) == First(s) || p in Rest(s))
  {
    if s != [] {
      RemoveKeepsDistinct(s, 0);
      assert s[..0] + s[1..] == s[1..];
      assert s == [s[0]] + s[1..];
    }
  }

  lemma FinishAt(s: System, p: Pid, r: Section)
    ensures At(Finish(s, p, r), p) == After(At(s, p), r.ending)
    ensures forall x :: x != p && r.woken != Some(x) ==> At(Finish(s, p, r), x) == At(s, x)
    ensures forall x :: x != p && r.woken == Some(x) && (At(s, x).Sending? || At(s, x).Receiving?)
                        ==> At(Finish(s, p, r), x) == At(s, x).(phase := Woken)
  {
  }

  lemma SendWaitKeepsListed(s: System, p: Pid, r: Section)
    requires Listed(s) && At(s, p).Sending? && At(s, p).phase != Blocked
    requires r.ending == Waiting && r.woken == None && r.q.notFull == s.q.notFull + [p] && r.q.notEmpty == s.q.notEmpty
    ensures Listed(Finish(s, p, r))
  {
    FinishAt(s, p, r);
    AppendKeepsDistinct<Pid>(s.q.notFull, p);
  }

  lemma ReceiveWaitKeepsListed(s: System, p: Pid, r: Section)
    requires Listed(s) && At(s, p).Receiving? && At(s, p).phase != Blocked
    requires r.ending == Waiting && r.woken == None && r.q.notEmpty == s.q.notEmpty + [p] && r.q.notFull == s.q.notFull
    ensures Listed(Finish(s, p, r))
  {
    FinishAt(s, p, r);
    AppendKeepsDistinct<Pid>(s.q.notEmpty, p);
  }

  lemma SignalEmptyKeepsListed(s: System, p: Pid, r: Section)
    requires Listed(s) && Runnable(At(s, p))
    requires r.ending != Waiting && r.woken == First(s.q.notEmpty) && r.q.notEmpty == Rest(s.q.notEmpty) && r.q.notFull == s.q.notFull
    ensures Listed(Finish(s, p, r))
  {
    FinishAt(s, p, r);
    RestKeepsDistinct(s.q.notEmpty);
  }

  lemma SignalFullKeepsListed(s: System, p: Pid, r: Section)
    requires Listed(s) && Runnable(At(s, p))
    requires r.ending != Waiting && r.woken == First(s.q.notFull) && r.q.notFull == Rest(s.q.notFull) && r.q.notEmpty == s.q.notEmpty
    ensures Listed(Finish(s, p, r))
  {
    FinishAt(s, p, r);
    RestKeepsDistinct(s.q.notFull);
  }

  lemma ReturnKeepsListed(s: System, p: Pid, r: Section)
    requires Listed(s) && Runnable(At(s, p))
    requires r.ending != Waiting && r.woken == None && r.q.notFull == s.q.notFull && r.q.notEmpty == s.q.notEmpty
    ensures Listed(Finish(s, p, r))
  {
    FinishAt(s, p, r);
  }

  lemma SectionKeepsListed(s: System, p: Pid)
    requires Listed(s) && Runnable(At(s, p))
    ensures Listed(Finish(s, p, SectionOf(s, p)))
  {
    var r := SectionOf(s, p);
    if r.ending == Waiting {
      if At(s, p).Sending? { SendWaitKeepsListed(s, p, r); } else { ReceiveWaitKeepsListed(s, p, r); }
    } else if r.ending == Done {
      if r.entered != [] { SignalEmptyKeepsListed(s, p, r); } else { SignalFullKeepsListed(s, p, r); }
    } else {
      ReturnKeepsListed(s, p, r);
    }
  }

  lemma CallKeepsListed(s: System, p: Pid, pc: Pc, accepted: bool)
    requires Listed(s) && ((pc.Sending? || pc.Receiving?) ==> pc.phase == Ready)
    ensures Listed(Call(s, p, pc, accepted))
  {
    assert forall x :: x != p ==> At(Call(s, p, pc, accepted), x) == At(s, x);
  }

  lemma CloseKeepsListed(s: System, a: Step)
    requires Listed(s) && (a.CallClose? || (a.Run? && (At(s, a.p).ClosingFull? || At(s, a.p).ClosingEmpty?)))
    ensures Listed(Apply(s, a))
  {
    var t := Apply(s, a);
    if a.CallClose? {
      assert forall x :: x != a.p ==> At(t, x) == At(s, x);
    } else {
      var woken := if At(s, a.p).ClosingFull? then s.q.notFull else s.q.notEmpty;
      assert forall x :: x != a.p && x !in woken ==> At(t, x) == At(s, x);
      assert forall x :: x in woken && x != a.p ==> At(t, x) == At(s, x).(phase := Woken);
      assert a.p !in woken;
    }
  }

  lemma StepKeepsListed(s: System, a: Step)
    requires Listed(s)
    ensures Listed(Apply(s, a))
  {
    match a
    case CallSend(p, data) => CallKeepsListed(s, p, Sending(data, Ready), Acceptable(s, data));
    case CallReceive(p, capacity) => CallKeepsListed(s, p, Receiving(capacity, Ready), !s.q.closed);
    case CallTrySend(p, data) => CallKeepsListed(s, p, TrySending(data), Acceptable(s, data));
    case CallTryReceive(p, capacity) => CallKeepsListed(s, p, TryReceiving(capacity), !s.q.closed);
    case CallClose(p) => CloseKeepsListed(s, a);
    case Run(p) =>
      if Runnable(At(s, p)) { SectionKeepsListed(s, p); }
      else if At(s, p).ClosingFull? || At(s, p).ClosingEmpty? { CloseKeepsListed(s, a); }
  }

  // ----- counting woken processes

  /** A section takes its own process out of the woken ones and adds the one it signals. */
  lemma FinishWoken(s: System, p: Pid, r: Section, receiving: bool, x: Pid)
    requires r.woken.Some? ==> r.woken.value != p && (At(s, r.woken.value).Sending? || At(s, r.woken.value).Receiving?)
    ensures x in WokenProcesses(Finish(s, p, r).pc, receiving) <==>
            || (x in WokenProcesses(s.pc, receiving) && x != p)
            || (r.woken == Some(x) && At(s, x).Receiving? == receiving)
  {
    FinishAt(s, p, r);
    assert x in WokenProcesses(s.pc, receiving) <==> WokenAs(At(s, x), receiving);
    assert x in WokenProcesses(Finish(s, p, r).pc, receiving) <==> WokenAs(At(Finish(s, p, r), x), receiving);
  }

  lemma FinishCounts(s: System, p: Pid, r: Section, receiving: bool)
    requires r.woken.Some? ==> r.woken.value != p && (At(s, r.woken.value).Sending? || At(s, r.woken.value).Receiving?)
                               && At(s, r.woken.value).phase == Blocked
    ensures |WokenProcesses(Finish(s, p, r).pc, receiving)|
            == |WokenProcesses(s.pc, receiving)| - (if WokenAs(At(s, p), receiving) then 1 else 0)
               + (if r.woken.Some? && At(s, r.woken.value).Receiving? == receiving then 1 else 0)
  {
    var before, after := WokenProcesses(s.pc, receiving), WokenProcesses(Finish(s, p, r).pc, receiving);
    var added := if r.woken.Some? && At(s, r.woken.value).Receiving? == receiving then {r.woken.value} else {};
    forall x
      ensures x in after <==> x in (before - {p}) + added
    {
      FinishWoken(s, p, r, receiving, x);
    }
    assert after == (before - {p}) + added;
    assert p in before <==> WokenAs(At(s, p), receiving);
    assert added != {} ==> r.woken.value !in before;
  }

  lemma SectionWakesWaiter(s: System, p: Pid)
    requires Listed(s) && Runnable(At(s, p))
    ensures var w := SectionOf(s, p).woken;
            w.Some? ==> w.value != p && (At(s, w.value).Sending? || At(s, w.value).Receiving?) && At(s, w.value).phase == Blocked
    ensures var r := SectionOf(s, p);
            r.woken.Some? ==> At(s, r.woken.value).Receiving? == (r.entered != [])
  {
    assert s.q.notEmpty != [] ==> s.q.notEmpty[0] in s.q.notEmpty;
    assert s.q.notFull != [] ==> s.q.notFull[0] in s.q.notFull;
  }

  lemma SectionKeepsWakeups(s: System, p: Pid)
    requires Listed(s) && Runnable(At(s, p))
    ensures NoLostMessage(s) ==> NoLostMessage(Finish(s, p, SectionOf(s, p)))
    ensures NoLostPlace(s) && SectionOf(s, p).ending != TooShort ==> NoLostPlace(Finish(s, p, SectionOf(s, p)))
    ensures SectionOf(s, p).ending == TooShort ==>
              (NoLostPlace(Finish(s, p, SectionOf(s, p)))
               <==> s.q.notFull == [] || s.q.closed || s.limits.maxMessages - |s.q.msgs| + 1 <= |WokenProcesses(s.pc, false)|)
  {
    SectionWakesWaiter(s, p);
    FinishCounts(s, p, SectionOf(s, p), true);
    FinishCounts(s, p, SectionOf(s, p), false);
  }

  lemma CallKeepsWakeups(s: System, p: Pid, pc: Pc, accepted: bool)
    requires (pc.Sending? || pc.Receiving?) ==> pc.phase == Ready
    ensures NoLostMessage(s) ==> NoLostMessage(Call(s, p, pc, accepted))
    ensures NoLostPlace(s) ==> NoLostPlace(Call(s, p, pc, accepted))
  {
    var t := Call(s, p, pc, accepted);
    assert WokenProcesses(t.pc, true) == WokenProcesses(s.pc, true);
    assert WokenProcesses(t.pc, false) == WokenProcesses(s.pc, false);
  }

  /** A receive whose buffer is too short, run by process p. */
  predicate LosesMessage(s: System, a: Step) {
    a.Run? && Runnable(At(s, a.p)) && SectionOf(s, a.p).ending == TooShort
  }

  /** Such a receive frees a place that nobody is woken for: every woken sender already has a free
      place to itself, and another sender is listed. */
  ghost predicate LosesPlace(s: System, a: Step) {
    LosesMessage(s, a) && !s.q.closed && s.q.notFull != []
    && s.limits.maxMessages - |s.q.msgs| == |WokenProcesses(s.pc, false)|
  }

  /** The bound for messages survives every step, the one for places every step but such a receive. */
  lemma StepKeepsWakeups(s: System, a: Step)
    requires Listed(s)
    requires s.q.closed || (!At(s, a.p).ClosingFull? && !At(s, a.p).ClosingEmpty?)
    ensures NoLostMessage(s) ==> NoLostMessage(Apply(s, a))
    ensures NoLostPlace(s) ==> (NoLostPlace(Apply(s, a)) <==> !LosesPlace(s, a))
  {
    match a
    case CallSend(p, data) => CallKeepsWakeups(s, p, Sending(data, Ready), Acceptable(s, data));
    case CallReceive(p, capacity) => CallKeepsWakeups(s, p, Receiving(capacity, Ready), !s.q.closed);
    case CallTrySend(p, data) => CallKeepsWakeups(s, p, TrySending(data), Acceptable(s, data));
    case CallTryReceive(p, capacity) => CallKeepsWakeups(s, p, TryReceiving(capacity), !s.q.closed);
    case CallClose(p) =>
    case Run(p) => if Runnable(At(s, p)) { SectionKeepsWakeups(s, p); }
  }

  // ----- closing

  ghost predicate NobodyAt(s: System, pc: Pc) {
    forall p :: p in s.pc ==> s.pc[p] != pc
  }

  /** Broadcasts only follow a close, and once every close has returned nobody is left waiting. */
  ghost predicate Drained(s: System) {
    && (!s.q.closed ==> NobodyAt(s, ClosingFull) && NobodyAt(s, ClosingEmpty))
    && (s.q.closed && NobodyAt(s, ClosingFull) ==> s.q.notFull == [])
    && (s.q.closed && NobodyAt(s, ClosingFull) && NobodyAt(s, ClosingEmpty) ==> s.q.notEmpty == [])
  }

  lemma SectionKeepsDrained(s: System, p: Pid)
    requires Drained(s) && Runnable(At(s, p))
    ensures Drained(Finish(s, p, SectionOf(s, p)))
  {
    var r := SectionOf(s, p);
    var t := Finish(s, p, r);
    FinishAt(s, p, r);
    assert t.q.closed == s.q.closed && (s.q.closed ==> t.q.notFull == s.q.notFull || t.q.notFull == Rest(s.q.notFull))
           && (s.q.closed ==> t.q.notEmpty == s.q.notEmpty || t.q.notEmpty == Rest(s.q.notEmpty));
    SameCloser(s, t, p, ClosingFull);
    SameCloser(s, t, p, ClosingEmpty);
  }

  lemma SameCloser(s: System, t: System, p: Pid, pc: Pc)
    requires pc == ClosingFull || pc == ClosingEmpty
    requires At(s, p) != pc && At(t, p) != pc
    requires forall x :: x != p ==> (At(t, x) == pc <==> At(s, x) == pc)
    ensures NobodyAt(t, pc) <==> NobodyAt(s, pc)
  {
    assert forall x :: (x in s.pc && s.pc[x] == pc) <==> At(s, x) == pc;
    assert forall x :: (x in t.pc && t.pc[x] == pc) <==> At(t, x) == pc;
  }

  lemma StepKeepsDrained(s: System, a: Step)
    requires Drained(s) && Listed(s)
    ensures Drained(Apply(s, a))
  {
    var t := Apply(s, a);
    var p := a.p;
    if a.Run? && Runnable(At(s, p)) {
      SectionKeepsDrained(s, p);
    } else if a.Run? && At(s, p).ClosingEmpty? {
      assert s.q.closed;
      assert forall x :: x != p ==> (At(t, x) == ClosingFull <==> At(s, x) == ClosingFull);
      SameCloser(s, t, p, ClosingFull);
    } else if (a.Run? && At(s, p).ClosingFull?) || (a.CallClose? && At(s, p) == Idle) {
      assert s.q.closed || a.CallClose?;
      assert p in t.pc && t.pc[p] == if a.CallClose? then ClosingFull else ClosingEmpty;
    } else if !a.Run? && At(s, p) == Idle {
      assert forall x :: x != p ==> At(t, x) == At(s, x);
      SameCloser(s, t, p, ClosingFull);
      SameCloser(s, t, p, ClosingEmpty);
    }
  }

  ghost predicate Monitored(s: System) {
    Fifo(s) && Listed(s) && NoLostMessage(s) && Drained(s)
  }

  /** No wake-up for a message is ever lost, in any interleaving of sends, receives, tries and
      closes; and after a close has run its course nobody is left on a waiter list. */
  lemma {:induction false} EveryRunIsMonitored(limits: Limits, steps: seq<Step>)
    ensures Monitored(Exec(limits, steps))
  {
    if steps != [] {
      var s := Exec(limits, steps[..|steps| - 1]);
      var a := steps[|steps| - 1];
      EveryRunIsMonitored(limits, steps[..|steps| - 1]);
      StepKeepsFifo(s, a);
      StepKeepsListed(s, a);
      assert s.q.closed || (!At(s, a.p).ClosingFull? && !At(s, a.p).ClosingEmpty?);
      StepKeepsWakeups(s, a);
      StepKeepsDrained(s, a);
    }
  }

  /** Whenever a receiver is still listed, the queue is open and a message lies in it, some receiver
      has been woken and has yet to run. */
  lemma WaitingReceiverImpliesWokenOne(limits: Limits, steps: seq<Step>, p: Pid)
    requires var s := Exec(limits, steps);
             At(s, p).Receiving? && At(s, p).phase == Blocked && !s.q.closed && s.q.msgs != []
    ensures exists q :: q in Exec(limits, steps).pc && WokenAs(Exec(limits, steps).pc[q], true)
  {
    EveryRunIsMonitored(limits, steps);
    var s := Exec(limits, steps);
    assert p in s.q.notEmpty;
    var q :| q in WokenProcesses(s.pc, true);
  }

  ghost predicate AlwaysPlaced(limits: Limits, steps: seq<Step>) {
    NoLostPlace(Exec(limits, steps)) && (steps == [] || AlwaysPlaced(limits, steps[..|steps| - 1]))
  }

  ghost predicate NeverLosesPlace(limits: Limits, steps: seq<Step>) {
    steps == [] ||
    (NeverLosesPlace(limits, steps[..|steps| - 1]) && !LosesPlace(Exec(limits, steps[..|steps| - 1]), steps[|steps| - 1]))
  }

  /** Over a whole run, places freed for waiting senders are matched by woken ones throughout exactly
      when no such receive occurs. */
  lemma {:induction false} PlacesOverRuns(limits: Limits, steps: seq<Step>)
    ensures AlwaysPlaced(limits, steps) <==> NeverLosesPlace(limits, steps)
  {
    if steps != [] {
      var s := Exec(limits, steps[..|steps| - 1]);
      PlacesOverRuns(limits, steps[..|steps| - 1]);
      EveryRunIsMonitored(limits, steps[..|steps| - 1]);
      StepKeepsWakeups(s, steps[|steps| - 1]);
    }
  }

  /** In particular in every run in which no buffer is too short. */
  ghost predicate LongBuffers(limits: Limits, steps: seq<Step>) {
    steps == [] ||
    (LongBuffers(limits, steps[..|steps| - 1]) && !LosesMessage(Exec(limits, steps[..|steps| - 1]), steps[|steps| - 1]))
  }

  lemma {:induction false} LongBuffersLoseNoPlace(limits: Limits, steps: seq<Step>)
    requires LongBuffers(limits, steps)
    ensures AlwaysPlaced(limits, steps)
  {
    LongIsNeverLosing(limits, steps);
    PlacesOverRuns(limits, steps);
  }

  lemma {:induction false} LongIsNeverLosing(limits: Limits, steps: seq<Step>)
    requires LongBuffers(limits, steps)
    ensures NeverLosesPlace(limits, steps)
  {
    if steps != [] { LongIsNeverLosing(limits, steps[..|steps| - 1]); }
  }

  lemma ExecSnoc(limits: Limits, steps: seq<Step>, a: Step)
    ensures Exec(limits, steps + [a]) == Apply(Exec(limits, steps), a)
  {
    assert (steps + [a])[..|steps|] == steps;
  }

  /** One short buffer does lose a place: the queue is empty, a sender still waits, nobody was woken. */
  lemma ShortBufferLosesPlace(limits: Limits, a: Message, b: Message)
    requires limits.maxMessages == 1 && 2 <= |a| <= limits.maxSize && 1 <= |b| <= limits.maxSize
    ensures var steps := [CallSend(1, a)] + [Run(1)] + [CallSend(2, b)] + [Run(2)] + [CallReceive(3, 1)] + [Run(3)];
            !NoLostPlace(Exec(limits, steps)) && Exec(limits, steps).q.msgs == []
  {
    var s0 := Start(limits);
    var s1 := Apply(s0, CallSend(1, a));
    assert At(s1, 1) == Sending(a, Ready);
    var s2 := Apply(s1, Run(1));
    assert s2.q == Queue([a], false, [], []);
    var s3 := Apply(s2, CallSend(2, b));
    var s4 := Apply(s3, Run(2));
    assert s4.q == Queue([a], false, [2], []) && At(s4, 2) == Sending(b, Blocked);
    var s5 := Apply(s4, CallReceive(3, 1));
    var s6 := Apply(s5, Run(3));
    assert s6.q == Queue([], false, [2], []);
    assert WokenProcesses(s6.pc, false) == {};
    ExecSnoc(limits, [], CallSend(1, a));
    assert [] + [CallSend(1, a)] == [CallSend(1, a)];
    ExecSnoc(limits, [CallSend(1, a)], Run(1));
    ExecSnoc(limits, [CallSend(1, a)] + [Run(1)], CallSend(2, b));
    ExecSnoc(limits, [CallSend(1, a)] + [Run(1)] + [CallSend(2, b)], Run(2));
    ExecSnoc(limits, [CallSend(1, a)] + [Run(1)] + [CallSend(2, b)] + [Run(2)], CallReceive(3, 1));
    ExecSnoc(limits, [CallSend(1, a)] + [Run(1)] + [CallSend(2, b)] + [Run(2)] + [CallReceive(3, 1)], Run(3));
  }

  // ----- messages after a close

  /** Exactly which steps still enqueue on a closed queue: a `try_send` that passed its unlocked test
      before the close, when there is room. A plain send looks again under the lock. */
  lemma OnlyTrySendIsLate(s: System, a: Step)
    requires s.q.closed
    ensures Apply(s, a).sent != s.sent <==> a.Run? && At(s, a.p).TrySending? && |s.q.msgs| < s.limits.maxMessages
    ensures Apply(s, a).q.closed
  {
    if a.Run? && Runnable(At(s, a.p)) {
      var r := SectionOf(s, a.p);
      assert |s.sent + r.entered| == |s.sent| + |r.entered|;
    }
  }

  ghost function TrySenders(pc: map<Pid, Pc>): set<Pid> {
    set p | p in pc && pc[p].TrySending?
  }

  lemma LateStepsUseUpTrySenders(s: System, a: Step)
    requires s.q.closed && (forall p :: p in s.q.notEmpty ==> !At(s, p).TrySending?)
    ensures |Apply(s, a).sent| + |TrySenders(Apply(s, a).pc)| <= |s.sent| + |TrySenders(s.pc)|
  {
    var t := Apply(s, a);
    var before, after := TrySenders(s.pc), TrySenders(t.pc);
    if a.Run? && At(s, a.p).TrySending? {
      FinishAt(s, a.p, SectionOf(s, a.p));
      assert after <= before - {a.p};
      assert |after| <= |before - {a.p}| by { Subset(after, before - {a.p}); }
    } else {
      OnlyTrySendIsLate(s, a);
      assert after <= before;
      Subset(after, before);
    }
  }

  lemma {:induction false} Subset(a: set<Pid>, b: set<Pid>)
    requires a <= b
    ensures |a| <= |b|
  {
    if a != {} {
      var x :| x in a;
      Subset(a - {x}, b - {x});
    }
  }

  /** After a close, at most as many messages enter as there were `try_send` calls in flight. */
  lemma {:induction false} LateMessagesAreBounded(limits: Limits, steps: seq<Step>, more: seq<Step>)
    requires Exec(limits, steps).q.closed
    ensures var s, t := Exec(limits, steps), Exec(limits, steps + more);
            t.q.closed && |t.sent| + |TrySenders(t.pc)| <= |s.sent| + |TrySenders(s.pc)|
  {
    if more == [] {
      assert steps + more == steps;
    } else {
      var init, a := more[..|more| - 1], more[|more| - 1];
      LateMessagesAreBounded(limits, steps, init);
      assert steps + more == steps + init + [a];
      ExecSnoc(limits, steps + init, a);
      var s := Exec(limits, steps + init);
      EveryRunIsMonitored(limits, steps + init);
      OnlyTrySendIsLate(s, a);
      LateStepsUseUpTrySenders(s, a);
    }
  }

  /** And such a call can indeed be late. */
  lemma TrySendCanBeLate(limits: Limits, data: Message)
    requires limits.maxMessages >= 1 && 0 < |data| <= limits.maxSize
    ensures var steps := [CallTrySend(1, data)] + [CallClose(2)];
            var s, t := Exec(limits, steps), Exec(limits, steps + [Run(1)]);
            s.q.closed && s.sent == [] && t.sent == [data]
  {
    ExecSnoc(limits, [], CallTrySend(1, data));
    assert [] + [CallTrySend(1, data)] == [CallTrySend(1, data)];
    ExecSnoc(limits, [CallTrySend(1, data)], CallClose(2));
    ExecSnoc(limits, [CallTrySend(1, data)] + [CallClose(2)], Run(1));
    var s1 := Apply(Start(limits), CallTrySend(1, data));
    var s2 := Apply(s1, CallClose(2));
    assert At(s2, 1) == TrySending(data);
  }
}
