/** The bounded message queue: what each critical section does to the queue and its two condition
    variables, and what every interleaving of sections keeps.

    A section runs from `mutex_lock` to the `mutex_unlock` or `condition_wait` that ends it and is
    one step; closing is three, since its broadcasts come after the unlock. */
module MessageQueue {
  import opened Words
  import opened WaiterQueue

  type Message = seq<u8>

  datatype Limits = Limits(maxMessages: nat, maxSize: nat)

  datatype Queue = Queue(msgs: seq<Message>, closed: bool, notFull: seq<Pid>, notEmpty: seq<Pid>)

  /** How a section ends: the call returns, or the process is now a waiter. */
  datatype Ending = Done | Failed | TooShort | Waiting

  /** The queue afterwards, how the call goes on, who was signalled, and the messages that entered
      and left. */
  datatype Section = Section(q: Queue, ending: Ending, woken: Option<Pid>, entered: seq<Message>, left: seq<Message>)

  function First(waiters: seq<Pid>): Option<Pid> {
    if waiters == [] then None else Some(waiters[0])
  }

  function Rest(waiters: seq<Pid>): seq<Pid> {
    if waiters == [] then [] else waiters[1..]
  }

  function Enqueue(q: Queue, data: Message): Section {
    Section(q.(msgs := q.msgs + [data], notEmpty := Rest(q.notEmpty)), Done, First(q.notEmpty), [data], [])
  }

  /** Takes the first message. A buffer too short for it loses the message and signals nobody. */
  function Dequeue(q: Queue, capacity: nat): Section
    requires q.msgs != []
  {
    if capacity < |q.msgs[0]| then Section(q.(msgs := q.msgs[1..]), TooShort, None, [], q.msgs[..1])
    else Section(q.(msgs := q.msgs[1..], notFull := Rest(q.notFull)), Done, First(q.notFull), [], q.msgs[..1])
  }

  function Send(q: Queue, limits: Limits, p: Pid, data: Message): Section {
    if |q.msgs| >= limits.maxMessages && !q.closed then Section(q.(notFull := q.notFull + [p]), Waiting, None, [], [])
    else if q.closed then Section(q, Failed, None, [], [])
    else Enqueue(q, data)
  }

  function Receive(q: Queue, p: Pid, capacity: nat): Section {
    if q.msgs == [] && !q.closed then Section(q.(notEmpty := q.notEmpty + [p]), Waiting, None, [], [])
    else if q.msgs == [] then Section(q, Failed, None, [], [])
    else Dequeue(q, capacity)
  }

  /** Unlike `Send`, this section does not look at `closed` again. */
  function TrySend(q: Queue, limits: Limits, data: Message): Section {
    if |q.msgs| >= limits.maxMessages then Section(q, Failed, None, [], []) else Enqueue(q, data)
  }

  function TryReceive(q: Queue, capacity: nat): Section {
    if q.msgs == [] then Section(q, Failed, None, [], []) else Dequeue(q, capacity)
  }

  // ----- processes

  /** Ready: past the unlocked checks of the call. Blocked: on a waiter list. Woken: taken off it,
      and due to run its section again. */
  datatype Phase = Ready | Blocked | Woken

  datatype Pc =
    | Idle
    | Sending(data: Message, phase: Phase)
    | Receiving(capacity: nat, phase: Phase)
    | TrySending(data: Message)
    | TryReceiving(capacity: nat)
    | ClosingFull
    | ClosingEmpty

  /** `sent` and `received` record every message that entered and left the queue. */
  datatype System = System(limits: Limits, q: Queue, pc: map<Pid, Pc>, sent: seq<Message>, received: seq<Message>)

  datatype Step = CallSend(p: Pid, data: Message) | CallReceive(p: Pid, capacity: nat)
                | CallTrySend(p: Pid, data: Message) | CallTryReceive(p: Pid, capacity: nat)
                | CallClose(p: Pid) | Run(p: Pid)

  function At(s: System, p: Pid): Pc {
    if p in s.pc then s.pc[p] else Idle
  }

  function Wake(pc: map<Pid, Pc>, woken: seq<Pid>): map<Pid, Pc> {
    map p | p in pc :: if p in woken && (pc[p].Sending? || pc[p].Receiving?) then pc[p].(phase := Woken) else pc[p]
  }

  function AsSeq(p: Option<Pid>): seq<Pid> {
    if p.None? then [] else [p.value]
  }

  function After(pc: Pc, ending: Ending): Pc {
    if ending == Waiting && (pc.Sending? || pc.Receiving?) then pc.(phase := Blocked) else Idle
  }

  /** A process about to run a queue section, for the first time or again. */
  predicate Runnable(pc: Pc) {
    pc.TrySending? || pc.TryReceiving? || ((pc.Sending? || pc.Receiving?) && pc.phase != Blocked)
  }

  function SectionOf(s: System, p: Pid): Section
    requires Runnable(At(s, p))
  {
    match At(s, p)
    case Sending(data, _) => Send(s.q, s.limits, p, data)
    case Receiving(capacity, _) => Receive(s.q, p, capacity)
    case TrySending(data) => TrySend(s.q, s.limits, data)
    case TryReceiving(capacity) => TryReceive(s.q, capacity)
  }

  /** The system after process p has run a section. */
  function Finish(s: System, p: Pid, r: Section): System {
    s.(q := r.q, pc := Wake(s.pc, AsSeq(r.woken))[p := After(At(s, p), r.ending)],
       sent := s.sent + r.entered, received := s.received + r.left)
  }

  predicate Acceptable(s: System, data: Message) {
    0 < |data| <= s.limits.maxSize && !s.q.closed
  }

  function Call(s: System, p: Pid, pc: Pc, accepted: bool): System {
    if At(s, p) == Idle && accepted then s.(pc := s.pc[p := pc]) else s
  }

  function Apply(s: System, a: Step): System {
    match a
    case CallSend(p, data) => Call(s, p, Sending(data, Ready), Acceptable(s, data))
    case CallReceive(p, capacity) => Call(s, p, Receiving(capacity, Ready), !s.q.closed)
    case CallTrySend(p, data) => Call(s, p, TrySending(data), Acceptable(s, data))
    case CallTryReceive(p, capacity) => Call(s, p, TryReceiving(capacity), !s.q.closed)
    case CallClose(p) =>
      if At(s, p) == Idle then s.(q := s.q.(closed := true), pc := s.pc[p := ClosingFull]) else s
    case Run(p) =>
      match At(s, p)
      case ClosingFull => s.(q := s.q.(notFull := []), pc := Wake(s.pc, s.q.notFull)[p := ClosingEmpty])
      case ClosingEmpty => s.(q := s.q.(notEmpty := []), pc := Wake(s.pc, s.q.notEmpty)[p := Idle])
      case _ => if Runnable(At(s, p)) then Finish(s, p, SectionOf(s, p)) else s
  }

  function Start(limits: Limits): System {
    System(limits, Queue([], false, [], []), map[], [], [])
  }

  function Exec(limits: Limits, steps: seq<Step>): System {
    if steps == [] then Start(limits)
    else Apply(Exec(limits, steps[..|steps| - 1]), steps[|steps| - 1])
  }

  // ----- FIFO

  ghost predicate Fifo(s: System) {
    && s.sent == s.received + s.q.msgs
    && |s.q.msgs| <= s.limits.maxMessages
    && (forall m :: m in s.q.msgs ==> 0 < |m| <= s.limits.maxSize)
    && (forall p :: p in s.pc && (s.pc[p].Sending? || s.pc[p].TrySending?) ==> 0 < |s.pc[p].data| <= s.limits.maxSize)
  }

  /** Messages pass through a section in order and within the limit. */
  ghost predicate Conserves(q: Queue, limits: Limits, r: Section) {
    && q.msgs + r.entered == r.left + r.q.msgs
    && |r.q.msgs| <= limits.maxMessages
    && (forall m :: m in r.q.msgs ==> m in q.msgs || m in r.entered)
  }

  lemma SectionConserves(s: System, p: Pid)
    requires Fifo(s) && Runnable(At(s, p))
    ensures Conserves(s.q, s.limits, SectionOf(s, p))
    ensures forall m :: m in SectionOf(s, p).entered ==> 0 < |m| <= s.limits.maxSize
  {
    assert s.q.msgs != [] ==> s.q.msgs == s.q.msgs[..1] + s.q.msgs[1..];
  }

  lemma FinishKeepsFifo(s: System, p: Pid, r: Section)
    requires Fifo(s) && Conserves(s.q, s.limits, r)
    requires forall m :: m in r.entered ==> 0 < |m| <= s.limits.maxSize
    ensures Fifo(Finish(s, p, r))
  {
    assert s.sent + r.entered == s.received + (s.q.msgs + r.entered);
    assert s.received + (r.left + r.q.msgs) == (s.received + r.left) + r.q.msgs;
  }

  lemma StepKeepsFifo(s: System, a: Step)
    requires Fifo(s)
    ensures Fifo(Apply(s, a)) && Apply(s, a).limits == s.limits
  {
    if a.Run? && Runnable(At(s, a.p)) {
      SectionConserves(s, a.p);
      FinishKeepsFifo(s, a.p, SectionOf(s, a.p));
    }
  }

  /** The queue is a bounded FIFO in every interleaving: what has left it, followed by what is in
      it, is what has entered it, in order and unaltered, and it never holds more than it may. */
  lemma {:induction false} EveryRunIsFifo(limits: Limits, steps: seq<Step>)
    ensures Fifo(Exec(limits, steps)) && Exec(limits, steps).limits == limits
  {
    if steps != [] {
      EveryRunIsFifo(limits, steps[..|steps| - 1]);
      StepKeepsFifo(Exec(limits, steps[..|steps| - 1]), steps[|steps| - 1]);
    }
  }
}
