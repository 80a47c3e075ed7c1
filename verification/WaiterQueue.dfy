/** The singly linked waiter list that mutexes and condition variables share: append by walking to
    the tail, take the front, and unlink a given entry by walking to its predecessor. */
module WaiterQueue {
  import opened Words
  import opened Sequences

  type Pid = nat

  class Waiter {
    const process: Pid
    var next: Waiter?

    constructor (process: Pid)
      ensures this.process == process && next == null
    {
      this.process := process;
      next := null;
    }
  }

  class Waiters {
    var head: Waiter?
    ghost var nodes: seq<Waiter>
    ghost var pids: seq<Pid>

    ghost predicate Valid()
      reads this, nodes
    {
      && |pids| == |nodes|
      && head == Node(0)
      && (forall i {:trigger nodes[i].next} :: 0 <= i < |nodes| ==> nodes[i].next == Node(i + 1))
      && (forall i {:trigger nodes[i].process} {:trigger pids[i]} :: 0 <= i < |nodes| ==> nodes[i].process == pids[i])
      && Distinct(nodes)
    }

    ghost function Node(i: nat): Waiter?
      reads this
    {
      if i < |nodes| then nodes[i] else null
    }

    constructor ()
      ensures Valid() && pids == []
    {
      head := null;
      nodes := [];
      pids := [];
    }

    method Append(process: Pid) returns (waiter: Waiter)
      requires Valid()
      modifies this, nodes
      ensures Valid() && fresh(waiter)
      ensures nodes == old(nodes) + [waiter] && pids == old(pids) + [process]
    {
      waiter := new Waiter(process);
      ghost var was := nodes;
      InsertKeepsDistinct(nodes, |nodes|, waiter);
      assert was[..|was|] + [waiter] + was[|was|..] == was + [waiter];
      if head == null {
        head := waiter;
      } else {
        var last := head;
        ghost var n := 0;
        while last.next != null
          invariant 0 <= n < |nodes| && last == nodes[n]
          decreases |nodes| - n
        {
          last := last.next;
          n := n + 1;
        }
        OthersDiffer(was, n);
        last.next := waiter;
      }
      nodes := nodes + [waiter];
      pids := pids + [process];
      assert forall i :: 0 <= i < |was| ==> nodes[i] == was[i];
    }

    method PopFront() returns (process: Option<Pid>)
      requires Valid()
      modifies this
      ensures Valid()
      ensures old(pids) == [] ==> process == None && pids == []
      ensures old(pids) != [] ==> process == Some(old(pids)[0]) && pids == old(pids)[1..]
      ensures forall w :: w in nodes ==> w in old(nodes)
    {
      if head == null { return None; }
      process := Some(head.process);
      ghost var was := nodes;
      assert Distinct(was[1..]) by {
        RemoveKeepsDistinct(was, 0);
        assert was[..0] + was[1..] == was[1..];
      }
      head := head.next;
      nodes := nodes[1..];
      pids := pids[1..];
      assert forall i :: 0 <= i < |nodes| ==> nodes[i] == was[i + 1];
    }

    /** Unlinks an entry that is on the list; the walk to its predecessor cannot run off the end. */
    method Unlink(waiter: Waiter, ghost n: int)
      requires Valid() && 0 <= n < |nodes| && nodes[n] == waiter
      modifies this, nodes
      ensures Valid()
      ensures nodes == old(nodes)[..n] + old(nodes)[n + 1..] && pids == old(pids)[..n] + old(pids)[n + 1..]
    {
      ghost var was, before := nodes, pids;
      OthersDiffer(was, n);
      RemoveKeepsDistinct(was, n);
      if head == waiter {
        head := waiter.next;
      } else {
        var prev := head;
        ghost var m := 0;
        assert nodes[n - 1].next == waiter;
        while prev.next != waiter
          invariant 0 <= m < n && prev == nodes[m]
          decreases n - m
        {
          assert m != n - 1;
          prev := prev.next;
          m := m + 1;
        }
        assert m == n - 1 by { assert nodes[m].next == Node(m + 1); }
        OthersDiffer(was, n - 1);
        assert waiter.next == Node(n + 1);
        prev.next := waiter.next;
      }
      nodes := was[..n] + was[n + 1..];
      pids := before[..n] + before[n + 1..];
      assert forall i :: 0 <= i < n ==> nodes[i] == was[i];
      assert forall i :: n <= i < |nodes| ==> nodes[i] == was[i + 1] && pids[i] == before[i + 1];
    }
  }
}
