/** The sections of the message queue between `mutex_lock` and the unlock or wait that ends them, run on
    the linked list, the count, the closed flag and the two condition variables. */
module MessageSections {
  import opened Words
  import opened WaiterQueue
  import opened MessageList
  import opened MessageQueue

  /** Enlisting on one condition variable leaves another alone. */
  method EnlistOn(condition: Condition, other: Condition, current: Pid)
    requires condition.waiters.Valid() && other.waiters.Valid() && condition.waiters != other.waiters
    requires forall w :: w in condition.waiters.nodes ==> w !in other.waiters.nodes
    modifies condition.waiters, condition.waiters.nodes
    ensures condition.waiters.Valid() && condition.waiters.pids == old(condition.waiters.pids) + [current]
    ensures other.waiters.Valid() && other.waiters.pids == old(other.waiters.pids)
    ensures forall w :: w in condition.waiters.nodes ==> w !in other.waiters.nodes
  {
    ghost var nodes := other.waiters.nodes;
    assert forall w {:trigger w.next} :: w in nodes ==> w !in condition.waiters.nodes;
    condition.Enlist(current);
    assert forall w {:trigger w.next} :: w in nodes ==> w.next == old(w.next);
  }

  class KernelQueue {
    const limits: Limits
    const messages: Messages
    const notFull: Condition
    const notEmpty: Condition
    var closed: bool

    ghost predicate Valid()
      reads this, messages, messages.nodes
      reads notFull.waiters, notFull.waiters.nodes, notEmpty.waiters, notEmpty.waiters.nodes
    {
      && messages.Valid() && notFull.waiters.Valid() && notEmpty.waiters.Valid()
      && notFull.waiters != notEmpty.waiters
      && (forall w :: w in notFull.waiters.nodes ==> w !in notEmpty.waiters.nodes)
    }

    ghost function Abs(): Queue
      reads this, messages, notFull.waiters, notEmpty.waiters
    {
      Queue(messages.msgs, closed, notFull.waiters.pids, notEmpty.waiters.pids)
    }

    constructor (limits: Limits)
      ensures Valid() && Abs() == Queue([], false, [], []) && this.limits == limits
    {
      this.limits := limits;
      messages := new Messages();
      notFull := new Condition();
      notEmpty := new Condition();
      closed := false;
    }

    method SendSection(current: Pid, data: array<u8>, size: nat) returns (ending: Ending, woken: Option<Pid>)
      requires Valid() && size <= data.Length
      modifies messages, messages.nodes, notFull.waiters, notFull.waiters.nodes, notEmpty.waiters
      ensures Valid()
      ensures var r := Send(old(Abs()), limits, current, data[..size]);
              Abs() == r.q && ending == r.ending && woken == r.woken
    {
      if messages.count >= limits.maxMessages && !closed {
        EnlistOn(notFull, notEmpty, current);
        return Waiting, None;
      }
      if closed { return Failed, None; }
      woken := Add(data, size);
      ending := Done;
    }

    /** What a send and a try do once there is room. */
    method Add(data: array<u8>, size: nat) returns (woken: Option<Pid>)
      requires Valid() && size <= data.Length
      modifies messages, messages.nodes, notEmpty.waiters
      ensures Valid() && Abs() == Enqueue(old(Abs()), data[..size]).q && woken == Enqueue(old(Abs()), data[..size]).woken
    {
      messages.Append(data, size);
      woken := notEmpty.Signal();
    }

    method TrySendSection(data: array<u8>, size: nat) returns (ending: Ending, woken: Option<Pid>)
      requires Valid() && size <= data.Length
      modifies messages, messages.nodes, notEmpty.waiters
      ensures Valid()
      ensures var r := TrySend(old(Abs()), limits, data[..size]);
              Abs() == r.q && ending == r.ending && woken == r.woken
    {
      if messages.count >= limits.maxMessages { return Failed, None; }
      woken := Add(data, size);
      ending := Done;
    }

    /** `size` is what the caller is told: the message's size, whether or not it was copied. */
    method ReceiveSection(current: Pid, buffer: array<u8>, capacity: nat)
      returns (ending: Ending, woken: Option<Pid>, size: nat)
      requires Valid() && capacity <= buffer.Length
      modifies messages, buffer, notFull.waiters, notEmpty.waiters, notEmpty.waiters.nodes
      ensures Valid()
      ensures var r := Receive(old(Abs()), current, capacity);
              && Abs() == r.q && ending == r.ending && woken == r.woken
              && (r.left != [] ==> size == |r.left[0]|)
              && buffer[..] == if ending == Done then r.left[0] + old(buffer[..])[size..] else old(buffer[..])
    {
      if messages.count == 0 && !closed {
        EnlistOn(notEmpty, notFull, current);
        return Waiting, None, 0;
      }
      if messages.count == 0 { return Failed, None, 0; }
      ending, woken, size := Remove(buffer, capacity);
    }

    /** What a receive and a try do once there is a message. */
    method Remove(buffer: array<u8>, capacity: nat) returns (ending: Ending, woken: Option<Pid>, size: nat)
      requires Valid() && messages.msgs != [] && capacity <= buffer.Length
      modifies messages, buffer, notFull.waiters
      ensures Valid()
      ensures var r := Dequeue(old(Abs()), capacity);
              && Abs() == r.q && ending == r.ending && woken == r.woken && size == |r.left[0]|
              && buffer[..] == if ending == Done then r.left[0] + old(buffer[..])[size..] else old(buffer[..])
    {
      var copied: bool;
      copied, size := messages.TakeFirst(buffer, capacity);
      if !copied { return TooShort, None, size; }
      woken := notFull.Signal();
      ending := Done;
    }

    method TryReceiveSection(buffer: array<u8>, capacity: nat) returns (ending: Ending, woken: Option<Pid>, size: nat)
      requires Valid() && capacity <= buffer.Length
      modifies messages, buffer, notFull.waiters
      ensures Valid()
      ensures var r := TryReceive(old(Abs()), capacity);
              && Abs() == r.q && ending == r.ending && woken == r.woken
              && (r.left != [] ==> size == |r.left[0]|)
              && buffer[..] == if ending == Done then r.left[0] + old(buffer[..])[size..] else old(buffer[..])
    {
      if messages.count == 0 { return Failed, None, 0; }
      ending, woken, size := Remove(buffer, capacity);
    }

    /** The locked part of a close, and the two broadcasts that follow it. */
    method CloseSection()
      requires Valid()
      modifies `closed
      ensures Valid() && Abs() == old(Abs()).(closed := true)
    {
      closed := true;
    }

    method WakeSenders() returns (woken: seq<Pid>)
      requires Valid()
      modifies notFull.waiters
      ensures Valid() && Abs() == old(Abs()).(notFull := []) && woken == old(Abs()).notFull
    {
      woken := notFull.Broadcast();
    }

    method WakeReceivers() returns (woken: seq<Pid>)
      requires Valid()
      modifies notEmpty.waiters
      ensures Valid() && Abs() == old(Abs()).(notEmpty := []) && woken == old(Abs()).notEmpty
    {
      woken := notEmpty.Broadcast();
    }
  }
}
