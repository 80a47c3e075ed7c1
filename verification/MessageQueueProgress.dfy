/** When messages move: what each call and each section does in every run, and that whatever is queued
    can be received. */
module MessageQueueProgress {
  import opened Words
  import opened WaiterQueue
  import opened MessageQueue
  import opened MessageQueueSafety

  // ----- calls

  /** Process p, and nothing else, is now here. */
  ghost predicate OnlyMoves(s: System, t: System, p: Pid, pc: Pc) {
    t == s.(pc := t.pc) && At(t, p) == pc && forall x: Pid :: x != p ==> At(t, x) == At(s, x)
  }

  /** The unlocked tests of the four calls: a message that is not empty and not too long, and an open
      queue. */
  lemma CallsInRun(limits: Limits, steps: seq<Step>, p: Pid, data: Message, capacity: nat)
    requires At(Exec(limits, steps), p) == Idle
    ensures var s := Exec(limits, steps);
            var sendable := 1 <= |data| <= limits.maxSize && !s.q.closed;
            && OnlyMoves(s, Exec(limits, steps + [CallSend(p, data)]), p, if sendable then Sending(data, Ready) else Idle)
            && OnlyMoves(s, Exec(limits, steps + [CallTrySend(p, data)]), p, if sendable then TrySending(data) else Idle)
            && OnlyMoves(s, Exec(limits, steps + [CallReceive(p, capacity)]), p, if s.q.closed then Idle else Receiving(capacity, Ready))
            && OnlyMoves(s, Exec(limits, steps + [CallTryReceive(p, capacity)]), p, if s.q.closed then Idle else TryReceiving(capacity))
  {
    EveryRunIsFifo(limits, steps);
    ExecSnoc(limits, steps, CallSend(p, data));
    ExecSnoc(limits, steps, CallTrySend(p, data));
    ExecSnoc(limits, steps, CallReceive(p, capacity));
    ExecSnoc(limits, steps, CallTryReceive(p, capacity));
  }

  // ----- sections

  /** The first of these waiters, if there is one, is taken off its list and will run again. */
  ghost predicate Signals(s: System, t: System, p: Pid, before: seq<Pid>, after: seq<Pid>) {
    if before == [] then after == [] && forall x: Pid :: x != p ==> At(t, x) == At(s, x)
    else
      && after == before[1..] && before[0] != p
      && (forall x: Pid :: x != p && x != before[0] ==> At(t, x) == At(s, x))
      && match At(s, before[0])
         case Sending(data, phase) => phase == Blocked && At(t, before[0]) == Sending(data, Woken)
         case Receiving(capacity, phase) => phase == Blocked && At(t, before[0]) == Receiving(capacity, Woken)
         case _ => false
  }

  /** The call returns with nothing moved. */
  ghost predicate Refuses(s: System, t: System, p: Pid) {
    OnlyMoves(s, t, p, Idle)
  }

  ghost predicate Enters(s: System, t: System, p: Pid, data: Message) {
    && t.sent == s.sent + [data] && t.received == s.received
    && t.q == s.q.(msgs := s.q.msgs + [data], notEmpty := t.q.notEmpty)
    && At(t, p) == Idle && Signals(s, t, p, s.q.notEmpty, t.q.notEmpty)
  }

  /** The first message leaves; a sender is signalled only if it was copied. */
  ghost predicate Leaves(s: System, t: System, p: Pid, copied: bool) {
    && s.q.msgs != [] && t.received == s.received + [s.q.msgs[0]] && t.sent == s.sent
    && t.q == s.q.(msgs := s.q.msgs[1..], notFull := t.q.notFull)
    && At(t, p) == Idle
    && if copied then Signals(s, t, p, s.q.notFull, t.q.notFull)
       else t.q.notFull == s.q.notFull && forall x: Pid :: x != p ==> At(t, x) == At(s, x)
  }

  lemma SendMoves(s: System, p: Pid)
    requires Monitored(s) && At(s, p).Sending? && At(s, p).phase != Blocked
    ensures Sends(s, Apply(s, Run(p)), p)
  {
    FinishAt(s, p, SectionOf(s, p));
    SectionWakesWaiter(s, p);
  }

  /** A sending process that runs: on a closed queue it fails, on a full one it waits at the end of the
      list, and otherwise its message enters. */
  ghost predicate Sends(s: System, t: System, p: Pid)
    requires At(s, p).Sending? && At(s, p).phase != Blocked
  {
    var data, ending := At(s, p).data, SectionOf(s, p).ending;
    if s.q.closed then ending == Failed && Refuses(s, t, p)
    else if |s.q.msgs| >= s.limits.maxMessages then
      ending == Waiting && OnlyMoves(s.(q := s.q.(notFull := s.q.notFull + [p])), t, p, Sending(data, Blocked))
    else ending == Done && Enters(s, t, p, data)
  }

  lemma SendInRun(limits: Limits, steps: seq<Step>, p: Pid)
    requires At(Exec(limits, steps), p).Sending? && At(Exec(limits, steps), p).phase != Blocked
    ensures Sends(Exec(limits, steps), Exec(limits, steps + [Run(p)]), p)
  {
    EveryRunIsMonitored(limits, steps);
    ExecSnoc(limits, steps, Run(p));
    SendMoves(Exec(limits, steps), p);
  }

  lemma TrySendMoves(s: System, p: Pid)
    requires Monitored(s) && At(s, p).TrySending?
    ensures TrySends(s, Apply(s, Run(p)), p)
  {
    FinishAt(s, p, SectionOf(s, p));
    SectionWakesWaiter(s, p);
  }

  /** A process that runs a try: on a full queue it fails, otherwise its message enters. */
  ghost predicate TrySends(s: System, t: System, p: Pid)
    requires At(s, p).TrySending?
  {
    var data, ending := At(s, p).data, SectionOf(s, p).ending;
    if |s.q.msgs| >= s.limits.maxMessages then ending == Failed && Refuses(s, t, p)
    else ending == Done && Enters(s, t, p, data)
  }

  lemma TrySendInRun(limits: Limits, steps: seq<Step>, p: Pid)
    requires At(Exec(limits, steps), p).TrySending?
    ensures TrySends(Exec(limits, steps), Exec(limits, steps + [Run(p)]), p)
  {
    EveryRunIsMonitored(limits, steps);
    ExecSnoc(limits, steps, Run(p));
    TrySendMoves(Exec(limits, steps), p);
  }

  lemma ReceiveMoves(s: System, p: Pid)
    requires Monitored(s) && At(s, p).Receiving? && At(s, p).phase != Blocked
    ensures Receives(s, Apply(s, Run(p)), p)
  {
    FinishAt(s, p, SectionOf(s, p));
    SectionWakesWaiter(s, p);
  }

  /** A receiving process that runs: from a queue with messages, closed or not, the first one leaves,
      copied exactly if it fits; on an empty queue it fails when that is closed, and waits when not. */
  ghost predicate Receives(s: System, t: System, p: Pid)
    requires At(s, p).Receiving? && At(s, p).phase != Blocked
  {
    var capacity, ending := At(s, p).capacity, SectionOf(s, p).ending;
    if s.q.msgs != [] then
      && ending == (if |s.q.msgs[0]| <= capacity then Done else TooShort)
      && Leaves(s, t, p, |s.q.msgs[0]| <= capacity)
    else if s.q.closed then ending == Failed && Refuses(s, t, p)
    else ending == Waiting && OnlyMoves(s.(q := s.q.(notEmpty := s.q.notEmpty + [p])), t, p, Receiving(capacity, Blocked))
  }

  lemma ReceiveInRun(limits: Limits, steps: seq<Step>, p: Pid)
    requires At(Exec(limits, steps), p).Receiving? && At(Exec(limits, steps), p).phase != Blocked
    ensures Receives(Exec(limits, steps), Exec(limits, steps + [Run(p)]), p)
  {
    EveryRunIsMonitored(limits, steps);
    ExecSnoc(limits, steps, Run(p));
    ReceiveMoves(Exec(limits, steps), p);
  }

  lemma TryReceiveMoves(s: System, p: Pid)
    requires Monitored(s) && At(s, p).TryReceiving?
    ensures TryReceives(s, Apply(s, Run(p)), p)
  {
    FinishAt(s, p, SectionOf(s, p));
    SectionWakesWaiter(s, p);
  }

  /** A receiving try that runs: the same, but on an empty queue it always fails. */
  ghost predicate TryReceives(s: System, t: System, p: Pid)
    requires At(s, p).TryReceiving?
  {
    var capacity, ending := At(s, p).capacity, SectionOf(s, p).ending;
    if s.q.msgs != [] then
      && ending == (if |s.q.msgs[0]| <= capacity then Done else TooShort)
      && Leaves(s, t, p, |s.q.msgs[0]| <= capacity)
    else ending == Failed && Refuses(s, t, p)
  }

  lemma TryReceiveInRun(limits: Limits, steps: seq<Step>, p: Pid)
    requires At(Exec(limits, steps), p).TryReceiving?
    ensures TryReceives(Exec(limits, steps), Exec(limits, steps + [Run(p)]), p)
  {
    EveryRunIsMonitored(limits, steps);
    ExecSnoc(limits, steps, Run(p));
    TryReceiveMoves(Exec(limits, steps), p);
  }

  /** A blocked process does not run by itself. */
  lemma BlockedStays(limits: Limits, steps: seq<Step>, p: Pid)
    requires var pc := At(Exec(limits, steps), p); (pc.Sending? || pc.Receiving?) && pc.phase == Blocked
    ensures Exec(limits, steps + [Run(p)]) == Exec(limits, steps)
  {
    ExecSnoc(limits, steps, Run(p));
  }

  /** A close marks the queue, then wakes every sender and then every receiver that is listed. */
  lemma CloseInRun(limits: Limits, steps: seq<Step>, p: Pid)
    ensures var s := Exec(limits, steps);
            var closed, t := Exec(limits, steps + [CallClose(p)]), Exec(limits, steps + [Run(p)]);
            && (At(s, p) == Idle ==> OnlyMoves(s.(q := s.q.(closed := true)), closed, p, ClosingFull))
            && (At(s, p) == ClosingFull ==>
                  && t == s.(q := s.q.(notFull := []), pc := t.pc) && At(t, p) == ClosingEmpty
                  && (forall x: Pid :: x in s.q.notFull ==> At(s, x).Sending? && At(t, x) == Sending(At(s, x).data, Woken))
                  && (forall x: Pid :: x !in s.q.notFull && x != p ==> At(t, x) == At(s, x)))
            && (At(s, p) == ClosingEmpty ==>
                  && t == s.(q := s.q.(notEmpty := []), pc := t.pc) && At(t, p) == Idle
                  && (forall x: Pid :: x in s.q.notEmpty ==> At(s, x).Receiving? && At(t, x) == Receiving(At(s, x).capacity, Woken))
                  && (forall x: Pid :: x !in s.q.notEmpty && x != p ==> At(t, x) == At(s, x)))
  {
    EveryRunIsMonitored(limits, steps);
    ExecSnoc(limits, steps, CallClose(p));
    ExecSnoc(limits, steps, Run(p));
  }

  // ----- whatever is queued can be received

  /** The run in which, after these steps, p tries to receive n times, with room for any message. */
  function Drain(limits: Limits, steps: seq<Step>, p: Pid, n: nat): seq<Step> {
    if n == 0 then steps else Drain(limits, steps, p, n - 1) + [CallTryReceive(p, limits.maxSize)] + [Run(p)]
  }

  /** In between, p received these messages and nothing else happened. */
  ghost predicate Received(s: System, t: System, p: Pid, got: seq<Message>) {
    && At(t, p) == Idle && !t.q.closed && t.sent == s.sent && t.received == s.received + got && s.q.msgs == got + t.q.msgs
  }

  lemma OneReceived(s: System, u: System, t: System, p: Pid)
    requires Fifo(s) && !s.q.closed && s.q.msgs != []
    requires OnlyMoves(s, u, p, TryReceiving(s.limits.maxSize)) && TryReceives(u, t, p)
    ensures Received(s, t, p, [s.q.msgs[0]])
  {
    assert s.q.msgs[0] in s.q.msgs;
    assert s.q.msgs == [s.q.msgs[0]] + s.q.msgs[1..];
  }

  lemma OneDrained(limits: Limits, steps: seq<Step>, p: Pid)
    requires var s := Exec(limits, steps); At(s, p) == Idle && !s.q.closed && s.q.msgs != []
    ensures Received(Exec(limits, steps), Exec(limits, steps + [CallTryReceive(p, limits.maxSize)] + [Run(p)]), p,
                     [Exec(limits, steps).q.msgs[0]])
  {
    var asked := steps + [CallTryReceive(p, limits.maxSize)];
    EveryRunIsFifo(limits, steps);
    CallsInRun(limits, steps, p, [], limits.maxSize);
    TryReceiveInRun(limits, asked, p);
    OneReceived(Exec(limits, steps), Exec(limits, asked), Exec(limits, asked + [Run(p)]), p);
  }

  lemma ReceivedBoth(s: System, u: System, t: System, p: Pid, n: nat)
    requires n < |s.q.msgs| && Received(s, u, p, s.q.msgs[..n])
    requires u.q.msgs != [] && Received(u, t, p, [u.q.msgs[0]])
    ensures Received(s, t, p, s.q.msgs[..n + 1])
  {
    var msgs := s.q.msgs;
    assert u.q.msgs[0] == msgs[n] && msgs[..n + 1] == msgs[..n] + [msgs[n]];
  }

  lemma {:induction false} DrainReceives(limits: Limits, steps: seq<Step>, p: Pid, n: nat)
    requires At(Exec(limits, steps), p) == Idle && !Exec(limits, steps).q.closed && n <= |Exec(limits, steps).q.msgs|
    ensures Received(Exec(limits, steps), Exec(limits, Drain(limits, steps, p, n)), p, Exec(limits, steps).q.msgs[..n])
  {
    if n > 0 {
      var before := Drain(limits, steps, p, n - 1);
      DrainReceives(limits, steps, p, n - 1);
      OneDrained(limits, before, p);
      ReceivedBoth(Exec(limits, steps), Exec(limits, before), Exec(limits, Drain(limits, steps, p, n)), p, n - 1);
    }
  }

  /** From any state of an open queue an idle process can receive everything that was sent, in order. */
  lemma EverythingSentIsReceived(limits: Limits, steps: seq<Step>, p: Pid)
    requires At(Exec(limits, steps), p) == Idle && !Exec(limits, steps).q.closed
    ensures var s := Exec(limits, steps);
            var t := Exec(limits, Drain(limits, steps, p, |s.q.msgs|));
            t.sent == s.sent == t.received && t.q.msgs == [] && At(t, p) == Idle
  {
    var msgs := Exec(limits, steps).q.msgs;
    EveryRunIsFifo(limits, steps);
    DrainReceives(limits, steps, p, |msgs|);
    assert msgs[..|msgs|] == msgs;
  }
}
