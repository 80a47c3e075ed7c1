/** The heap as the code keeps it: descriptors linked through `next` and updated in place. */
module HeapList {
  import opened Words
  import opened Heap
  import opened Sequences

  class MemoryBlock {
    const addr: int
    var start: int
    var size: int
    var used: bool
    var next: MemoryBlock?

    constructor (addr: int, start: int, size: int, next: MemoryBlock?)
      ensures Shows(Block(addr, start, size, false)) && this.next == next
    {
      this.addr := addr;
      this.start := start;
      this.size := size;
      this.used := false;
      this.next := next;
    }

    ghost predicate Shows(b: Block)
      reads this
    {
      addr == b.addr && start == b.start && size == b.size && used == b.used
    }
  }

  /** The list from `heapBlocks` is `nodes`, whose contents are `blocks`. */
  class Allocator {
    const layout: Layout
    var heapBlocks: MemoryBlock?
    var usedMemory: u32
    ghost var nodes: seq<MemoryBlock>
    ghost var blocks: seq<Block>

    ghost predicate Valid()
      reads this, nodes
    {
      && |blocks| == |nodes|
      && heapBlocks == Node(0)
      && (forall i {:trigger nodes[i].next} :: 0 <= i < |nodes| ==> nodes[i].next == Node(i + 1))
      && (forall i {:trigger nodes[i].Shows(blocks[i])} {:trigger blocks[i]} :: 0 <= i < |nodes| ==> nodes[i].Shows(blocks[i]))
      && Distinct(nodes)
    }

    ghost function Node(i: nat): MemoryBlock?
      reads this
    {
      if i < |nodes| then nodes[i] else null
    }

    ghost function Abs(): State
      reads this
    {
      State(blocks, usedMemory)
    }

    constructor (layout: Layout)
      ensures Valid() && nodes == [] && this.layout == layout && usedMemory == 0
    {
      this.layout := layout;
      heapBlocks := null;
      usedMemory := 0;
      nodes := [];
      blocks := [];
    }

    method HeapInit()
      requires Valid() && usedMemory == 0
      modifies this
      ensures Valid()
      ensures Abs() == if old(nodes) == [] then Heap.Init() else old(Abs())
    {
      if heapBlocks != null { return; }
      heapBlocks := new MemoryBlock(HEAP_START, HEAP_START + HEADER, HEAP_END - HEAP_START - HEADER, null);
      nodes := [heapBlocks];
      blocks := Heap.Init().blocks;
    }

    /** The search loop: a pointer to the best fitting free block, or null. */
    method FindBestFit(size: u32) returns (best: MemoryBlock?, ghost k: int)
      requires Valid()
      requires forall i :: 0 <= i < |blocks| ==> blocks[i].size < 0xFFFF_FFFF
      ensures k == BestFit(blocks, size)
      ensures best == if k == -1 then null else nodes[k]
      ensures best == null <==> forall i :: 0 <= i < |blocks| ==> !Fits(blocks[i], size)
    {
      var block := heapBlocks;
      var bestSize: int := 0xFFFF_FFFF;
      best, k := null, -1;
      ghost var n: nat := 0;
      while block != null
        invariant n <= |nodes| && block == Node(n)
        invariant k == BestFit(blocks[..n], size)
        invariant if k == -1 then best == null && bestSize == 0xFFFF_FFFF else best == nodes[k] && bestSize == best.size
        decreases |nodes| - n
      {
        assert blocks[..n + 1][..n] == blocks[..n];
        assert block.Shows(blocks[n]);
        if !block.used && block.size >= size {
          if block.size < bestSize {
            best := block;
            bestSize := block.size;
            k := n;
          }
        }
        block := block.next;
        n := n + 1;
      }
      assert blocks[..n] == blocks;
    }

    /** Cuts `size` bytes off the front of `best` and links a descriptor for the rest behind it. */
    method SplitBlock(best: MemoryBlock, ghost k: int, size: u32) returns (rest: MemoryBlock)
      requires Valid() && 0 <= k < |nodes| && nodes[k] == best
      modifies this`nodes, this`blocks, best
      ensures Valid() && fresh(rest)
      ensures nodes == old(nodes)[..k + 1] + [rest] + old(nodes)[k + 1..]
      ensures blocks == Cut(layout, old(blocks), k, size)
    {
      ghost var was, bs := nodes, blocks;
      assert best.Shows(bs[k]) && best.next == Node(k + 1);
      rest := new MemoryBlock(best.start + size, best.start + size + Gap(layout), best.size - size - HEADER, best.next);
      OthersDiffer(was, k);
      best.size := size;
      best.next := rest;
      nodes := was[..k + 1] + [rest] + was[k + 1..];
      blocks := Cut(layout, bs, k, size);
      assert Distinct(nodes) by { InsertKeepsDistinct(was, k + 1, rest); }
      forall i | 0 <= i < |nodes|
        ensures nodes[i].next == Node(i + 1) && nodes[i].Shows(blocks[i])
      {
        if i < k {
          assert nodes[i] == was[i] && was[i].next == Node(i + 1) && was[i].Shows(bs[i]);
        } else if i > k + 1 {
          assert nodes[i] == was[i - 1] && was[i - 1].next == Node(i + 1) && was[i - 1].Shows(bs[i - 1]);
        }
      }
    }

    /** Takes the block found: splits off the rest when it is worth it and marks the block used. */
    method TakeBlock(best: MemoryBlock, ghost k: int, size: u32)
      requires Valid() && 0 <= k < |nodes| && nodes[k] == best
      modifies this`nodes, this`blocks, this`usedMemory, best
      ensures Valid()
      ensures var bs := Take(layout, old(blocks), k, size);
              Abs() == State(bs, Wrap32(old(usedMemory) + bs[k].size)) && best.start == bs[k].start
    {
      assert best.Shows(blocks[k]);
      if best.size > size + HEADER + 4 {
        var _ := SplitBlock(best, k, size);
      }
      OthersDiffer(nodes, k);
      best.used := true;
      blocks := blocks[k := blocks[k].(used := true)];
      assert best.Shows(blocks[k]);
      usedMemory := Wrap32(usedMemory + best.size);
    }

    method Kmalloc(request: u32) returns (ptr: int)
      requires Valid()
      requires forall i :: 0 <= i < |blocks| ==> blocks[i].size < 0xFFFF_FFFF
      modifies this, nodes
      ensures Valid()
      ensures Abs() == Heap.Kmalloc(layout, old(Abs()), request).heap
      ensures ptr == Heap.Kmalloc(layout, old(Abs()), request).ptr
    {
      if request == 0 { return 0; }
      var size := Round4(request);
      var best, k := FindBestFit(size);
      if best == null { return 0; }
      TakeBlock(best, k, size);
      return best.start;
    }

    /** Unlinks the block behind `block` and adds its descriptor and payload to `block`. */
    method Absorb(block: MemoryBlock, ghost n: nat)
      requires Valid() && n + 1 < |nodes| && nodes[n] == block
      modifies this`nodes, this`blocks, block
      ensures Valid() && nodes == old(nodes)[..n + 1] + old(nodes)[n + 2..]
      ensures blocks == Merge(old(blocks), n)
    {
      ghost var was, bs := nodes, blocks;
      assert was[n + 1].Shows(bs[n + 1]) && block.next == was[n + 1] && was[n + 1].next == Node(n + 2);
      OthersDiffer(was, n);
      block.size := block.size + block.next.size + HEADER;
      block.next := block.next.next;
      nodes := was[..n + 1] + was[n + 2..];
      blocks := Merge(bs, n);
      assert Distinct(nodes) by { RemoveKeepsDistinct(was, n + 1); }
      forall i | 0 <= i < |nodes|
        ensures nodes[i].next == Node(i + 1) && nodes[i].Shows(blocks[i])
      {
        if i < n {
          assert nodes[i] == was[i] && was[i].next == Node(i + 1) && was[i].Shows(bs[i]);
        } else if i > n {
          assert nodes[i] == was[i + 1] && was[i + 1].next == Node(i + 1) && was[i + 1].Shows(bs[i + 1]);
        }
      }
    }

    method FindStart(ptr: int) returns (block: MemoryBlock?, ghost n: int)
      requires Valid()
      ensures n == Find(blocks, ptr)
      ensures block == if n == -1 then null else nodes[n]
      ensures block == null <==> forall i :: 0 <= i < |blocks| ==> blocks[i].start != ptr
    {
      block, n := heapBlocks, 0;
      while block != null && block.start != ptr
        invariant 0 <= n <= |nodes| && block == Node(n)
        invariant forall i :: 0 <= i < n ==> blocks[i].start != ptr
        decreases |nodes| - n
      {
        block := block.next;
        n := n + 1;
      }
      if block == null { n := -1; } else { assert block.Shows(blocks[n]); }
    }

    /** The walk for the block whose `next` is `block`; null when `block` heads the list. */
    method FindPrevious(block: MemoryBlock, ghost n: nat) returns (prev: MemoryBlock?)
      requires Valid() && n < |nodes| && nodes[n] == block
      ensures prev == if n == 0 then null else nodes[n - 1]
    {
      prev := heapBlocks;
      ghost var m: nat := 0;
      OthersDiffer(nodes, n);
      assert n > 0 ==> nodes[n - 1].next == block;
      while prev != null && prev.next != block
        invariant m <= |nodes| && prev == Node(m)
        invariant n > 0 ==> m < n
        decreases |nodes| - m
      {
        prev := prev.next;
        m := m + 1;
      }
    }

    method Kfree(ptr: int)
      requires Valid()
      modifies this, nodes
      ensures Valid()
      ensures Abs() == Heap.Kfree(old(Abs()), ptr)
    {
      if ptr == 0 { return; }
      var block, n := FindStart(ptr);
      if block == null { return; }
      FreeInSteps(Abs(), ptr, n);
      MarkFree(block, n);
      Unite(block, n);
    }

    /** `kfree` of a block's start is to mark it, to correct the counter, and to coalesce. */
    lemma FreeInSteps(h: State, ptr: int, n: int)
      requires ptr != 0 && n == Find(h.blocks, ptr) && n != -1
      ensures Heap.Kfree(h, ptr) ==
                State(Coalesce(h.blocks[n := h.blocks[n].(used := false)], n), Wrap32(h.usedMemory - h.blocks[n].size))
    {
    }

    method MarkFree(block: MemoryBlock, ghost n: nat)
      requires Valid() && n < |nodes| && nodes[n] == block
      modifies this`blocks, this`usedMemory, block
      ensures Valid() && blocks == old(blocks)[n := old(blocks)[n].(used := false)]
      ensures usedMemory == Wrap32(old(usedMemory) - old(blocks)[n].size)
    {
      assert block.Shows(blocks[n]);
      OthersDiffer(nodes, n);
      block.used := false;
      usedMemory := Wrap32(usedMemory - block.size);
      blocks := blocks[n := blocks[n].(used := false)];
    }

    /** Merges a freed block with its free neighbours, the next one first. */
    method Unite(block: MemoryBlock, ghost n: nat)
      requires Valid() && n < |nodes| && nodes[n] == block
      modifies this`nodes, this`blocks, nodes
      ensures Valid() && blocks == Coalesce(old(blocks), n)
    {
      assert n + 1 < |nodes| ==> nodes[n + 1].Shows(blocks[n + 1]);
      if block.next != null && !block.next.used {
        Absorb(block, n);
      }
      var prev := FindPrevious(block, n);
      assert n > 0 ==> nodes[n - 1].Shows(blocks[n - 1]);
      if prev != null && !prev.used {
        Absorb(prev, n - 1);
      }
    }
  }
}
