/** The message list and the condition variable in the code's own form. */
module MessageList {
  import opened Words
  import opened Sequences
  import opened WaiterQueue
  import Bytes
  import MessageQueue

  class MessageNode {
    const data: seq<u8>
    var next: MessageNode?

    constructor (data: seq<u8>)
      ensures this.data == data && next == null
    {
      this.data := data;
      next := null;
    }
  }

  /** The linked list from `first` to `last`, whose contents are `msgs`. */
  class Messages {
    var first: MessageNode?
    var last: MessageNode?
    var count: nat
    ghost var nodes: seq<MessageNode>
    ghost var msgs: seq<MessageQueue.Message>

    ghost predicate Valid()
      reads this, nodes
    {
      && |msgs| == |nodes| == count
      && first == Node(0)
      && last == (if |nodes| == 0 then null else nodes[|nodes| - 1])
      && (forall i {:trigger nodes[i].next} :: 0 <= i < |nodes| ==> nodes[i].next == Node(i + 1))
      && (forall i {:trigger nodes[i].data} {:trigger msgs[i]} :: 0 <= i < |nodes| ==> nodes[i].data == msgs[i])
      && Distinct(nodes)
    }

    ghost function Node(i: nat): MessageNode?
      reads this
    {
      if i < |nodes| then nodes[i] else null
    }

    constructor ()
      ensures Valid() && msgs == []
    {
      first, last, count := null, null, 0;
      nodes, msgs := [], [];
    }

    method Append(data: array<u8>, size: nat)
      requires Valid() && size <= data.Length
      modifies this, nodes
      ensures Valid() && msgs == old(msgs) + [data[..size]] && count == old(count) + 1
    {
      var msg := new MessageNode(data[..size]);
      ghost var was := nodes;
      InsertKeepsDistinct(nodes, |nodes|, msg);
      assert was[..|was|] + [msg] + was[|was|..] == was + [msg];
      if first == null {
        first := msg;
        last := msg;
      } else {
        OthersDiffer(was, |was| - 1);
        last.next := msg;
        last := msg;
      }
      count := count + 1;
      nodes := nodes + [msg];
      msgs := msgs + [data[..size]];
      assert forall i :: 0 <= i < |was| ==> nodes[i] == was[i];
    }

    method UnlinkFirst() returns (msg: MessageNode)
      requires Valid() && msgs != []
      modifies this
      ensures Valid() && msg.data == old(msgs)[0] && msgs == old(msgs)[1..] && count == old(count) - 1
    {
      msg := first;
      ghost var was := nodes;
      assert msg.data == msgs[0];
      assert Distinct(was[1..]) by {
        RemoveKeepsDistinct(was, 0);
        assert was[..0] + was[1..] == was[1..];
      }
      first := msg.next;
      if first == null { last := null; }
      count := count - 1;
      nodes := was[1..];
      msgs := msgs[1..];
      assert forall i :: 0 <= i < |nodes| ==> nodes[i] == was[i + 1];
    }

    /** Unlinks the first message and, when the caller's buffer is long enough, copies it there.
        Either way the caller learns the message's size. */
    method TakeFirst(buffer: array<u8>, capacity: nat) returns (copied: bool, size: nat)
      requires Valid() && msgs != [] && capacity <= buffer.Length
      modifies this, buffer
      ensures Valid() && msgs == old(msgs)[1..] && count == old(count) - 1
      ensures size == |old(msgs)[0]| && copied == (size <= capacity)
      ensures buffer[..] == if copied then old(msgs)[0] + old(buffer[..])[size..] else old(buffer[..])
    {
      var msg := UnlinkFirst();
      size := |msg.data|;
      if capacity < size { return false, size; }
      Bytes.Copy(buffer, 0, msg.data);
      assert buffer[..] == msg.data + old(buffer[..])[size..];
      copied := true;
    }
  }

  class Condition {
    const waiters: Waiters

    constructor ()
      ensures waiters.Valid() && waiters.pids == [] && fresh(waiters)
    {
      waiters := new Waiters();
    }

    /** The part of `condition_wait` before the mutex is given up. */
    method Enlist(current: Pid)
      requires waiters.Valid()
      modifies waiters, waiters.nodes
      ensures waiters.Valid() && waiters.pids == old(waiters.pids) + [current]
      ensures forall w :: w in waiters.nodes ==> w in old(waiters.nodes) || fresh(w)
    {
      var _ := waiters.Append(current);
    }

    method Signal() returns (woken: Option<Pid>)
      requires waiters.Valid()
      modifies waiters
      ensures waiters.Valid() && waiters.pids == MessageQueue.Rest(old(waiters.pids))
      ensures woken == MessageQueue.First(old(waiters.pids))
      ensures forall w :: w in waiters.nodes ==> w in old(waiters.nodes)
    {
      woken := waiters.PopFront();
    }

    method Broadcast() returns (woken: seq<Pid>)
      requires waiters.Valid()
      modifies waiters
      ensures waiters.Valid() && waiters.pids == [] && woken == old(waiters.pids)
      ensures forall w :: w in waiters.nodes ==> w in old(waiters.nodes)
    {
      woken := [];
      while waiters.head != null
        invariant waiters.Valid() && woken + waiters.pids == old(waiters.pids)
        invariant forall w :: w in waiters.nodes ==> w in old(waiters.nodes)
        decreases |waiters.pids|
      {
        ghost var pids := waiters.pids;
        var next := waiters.PopFront();
        assert pids == [pids[0]] + pids[1..];
        woken := woken + [next.value];
      }
    }
  }
}
