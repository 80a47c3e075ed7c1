/** The kernel heap as a value: the block descriptors in list order and the usage counter.

    Two layouts are kept apart. `HeaderFirst` puts a split block's payload behind its own
    descriptor, as `heap_init` does for the first block. `AsWritten` is the assignment that
    `kmalloc` literally makes, which starts the payload at the descriptor itself. */
module Heap {
  import opened Words

  const HEAP_START := 0xD000_0000
  const HEAP_END := 0xE000_0000
  const HEADER := 16

  datatype Layout = HeaderFirst | AsWritten

  /** One descriptor: its own address, the payload it describes, and whether it is taken. */
  datatype Block = Block(addr: int, start: int, size: int, used: bool)

  datatype State = State(blocks: seq<Block>, usedMemory: u32)

  function Gap(layout: Layout): int {
    if layout == HeaderFirst then HEADER else 0
  }

  function End(b: Block): int {
    b.start + b.size
  }

  function Init(): State {
    State([Block(HEAP_START, HEAP_START + HEADER, HEAP_END - HEAP_START - HEADER, false)], 0)
  }

  /** `(size + 3) & ~3` on 32 bits: the largest three requests wrap to zero. */
  function Round4(size: u32): u32 {
    Wrap32(size + 3) / 4 * 4
  }

  // ----- kmalloc

  predicate Fits(b: Block, size: u32) {
    !b.used && b.size >= size
  }

  /** What the search loop promises: the first among the smallest free blocks that fit, or -1. */
  ghost predicate IsBestFit(bs: seq<Block>, size: u32, k: int) {
    && -1 <= k < |bs|
    && (k == -1 ==> forall i :: 0 <= i < |bs| ==> !Fits(bs[i], size))
    && (k >= 0 ==>
        && Fits(bs[k], size)
        && (forall i :: 0 <= i < |bs| && Fits(bs[i], size) ==> bs[k].size <= bs[i].size)
        && (forall i :: 0 <= i < k && Fits(bs[i], size) ==> bs[k].size < bs[i].size))
  }

  function BestFit(bs: seq<Block>, size: u32): (k: int)
    ensures IsBestFit(bs, size, k)
  {
    if bs == [] then -1
    else
      var n := |bs| - 1;
      var b := BestFit(bs[..n], size);
      if Fits(bs[n], size) && (b == -1 || bs[n].size < bs[b].size) then n else b
  }

  /** Block k keeps its first `size` bytes; a new free block describes the rest. */
  function Cut(layout: Layout, bs: seq<Block>, k: int, size: u32): seq<Block>
    requires 0 <= k < |bs|
  {
    var b := bs[k];
    var rest := Block(b.start + size, b.start + size + Gap(layout), b.size - size - HEADER, false);
    bs[..k] + [b.(size := size), rest] + bs[k + 1..]
  }

  /** Takes block k for a request of `size` bytes, splitting off the rest when it is worth it. */
  function Take(layout: Layout, bs: seq<Block>, k: int, size: u32): (ts: seq<Block>)
    requires 0 <= k < |bs|
    ensures k < |ts|
  {
    var cs := if bs[k].size > size + HEADER + 4 then Cut(layout, bs, k, size) else bs;
    cs[k := cs[k].(used := true)]
  }

  datatype Allocation = Allocation(heap: State, ptr: int)

  function Kmalloc(layout: Layout, h: State, size: u32): Allocation {
    var k := BestFit(h.blocks, Round4(size));
    if size == 0 || k == -1 then Allocation(h, 0)
    else
      var bs := Take(layout, h.blocks, k, Round4(size));
      Allocation(State(bs, Wrap32(h.usedMemory + bs[k].size)), bs[k].start)
  }

  // ----- kfree

  /** Block i swallows the descriptor and payload of block i + 1. */
  function Merge(bs: seq<Block>, i: int): seq<Block>
    requires 0 <= i < |bs| - 1
  {
    bs[..i] + [bs[i].(size := bs[i].size + bs[i + 1].size + HEADER)] + bs[i + 2..]
  }

  function Coalesce(bs: seq<Block>, i: int): seq<Block>
    requires 0 <= i < |bs|
  {
    var bs := if i + 1 < |bs| && !bs[i + 1].used then Merge(bs, i) else bs;
    if i > 0 && !bs[i - 1].used then Merge(bs, i - 1) else bs
  }

  /** The first block whose payload starts at `ptr`, or -1. */
  function Find(bs: seq<Block>, ptr: int): (i: int)
    ensures -1 <= i < |bs|
    ensures i >= 0 ==> bs[i].start == ptr
    ensures forall j :: 0 <= j < |bs| && bs[j].start == ptr ==> 0 <= i <= j
  {
    if bs == [] then -1
    else if bs[0].start == ptr then 0
    else
      var i := Find(bs[1..], ptr);
      assert forall j :: 1 <= j < |bs| ==> bs[j] == bs[1..][j - 1];
      if i == -1 then -1 else i + 1
  }

  function Release(bs: seq<Block>, i: int): seq<Block>
    requires 0 <= i < |bs|
  {
    Coalesce(bs[i := bs[i].(used := false)], i)
  }

  function Kfree(h: State, ptr: int): State {
    var i := Find(h.blocks, ptr);
    if ptr == 0 || i == -1 then h
    else State(Release(h.blocks, i), Wrap32(h.usedMemory - h.blocks[i].size))
  }

  // ----- runs

  datatype Call = Malloc(size: u32) | Free(ptr: int)

  /** The heap together with what its clients hold: live pointers and the sizes they asked for.
      `reused` records that some pointer was handed out while a client still held it. */
  datatype Run = Run(heap: State, live: map<int, u32>, reused: bool)

  function Apply(layout: Layout, r: Run, c: Call): Run {
    match c
    case Malloc(size) =>
      var a := Kmalloc(layout, r.heap, size);
      if a.ptr == 0 then r.(heap := a.heap)
      else Run(a.heap, r.live[a.ptr := size], r.reused || a.ptr in r.live)
    case Free(ptr) =>
      Run(Kfree(r.heap, ptr), r.live - {ptr}, r.reused)
  }

  function Exec(layout: Layout, calls: seq<Call>): Run {
    if calls == [] then Run(Init(), map[], false)
    else Apply(layout, Exec(layout, calls[..|calls| - 1]), calls[|calls| - 1])
  }

  // ----- tiling

  /** Every block's payload follows its descriptor, and every descriptor follows the payload
      before it, from one end of the heap to the other. */
  ghost predicate Tiled(bs: seq<Block>) {
    && |bs| > 0
    && bs[0].addr == HEAP_START
    && End(bs[|bs| - 1]) == HEAP_END
    && (forall i :: 0 <= i < |bs| ==> WellFormed(bs[i]))
    && (forall i {:trigger End(bs[i])} :: 0 <= i < |bs| - 1 ==> bs[i + 1].addr == End(bs[i]))
  }

  ghost predicate WellFormed(b: Block) {
    b.start == b.addr + HEADER && b.size >= 0 && b.addr % 4 == 0 && b.size % 4 == 0
  }

  ghost predicate NoFreeNeighbours(bs: seq<Block>) {
    forall i {:trigger bs[i]} :: 0 <= i < |bs| - 1 ==> bs[i].used || bs[i + 1].used
  }

  lemma {:induction false} InOrder(bs: seq<Block>, i: int, j: int)
    requires Tiled(bs) && 0 <= i < j < |bs|
    ensures End(bs[i]) <= bs[j].addr && End(bs[i]) < bs[j].start
  {
    if i + 1 < j {
      InOrder(bs, i, j - 1);
      assert bs[j].addr == End(bs[j - 1]);
    } else {
      assert bs[i + 1].addr == End(bs[i]);
    }
  }

  lemma Inside(bs: seq<Block>, i: int)
    requires Tiled(bs) && 0 <= i < |bs|
    ensures HEAP_START + HEADER <= bs[i].start <= End(bs[i]) <= HEAP_END
  {
    if i > 0 { InOrder(bs, 0, i); }
    if i < |bs| - 1 { InOrder(bs, i, |bs| - 1); }
  }

  lemma CutIsWellFormed(b: Block, size: u32)
    requires WellFormed(b) && b.size > size + HEADER && size % 4 == 0
    ensures WellFormed(Block(b.start + size, b.start + size + HEADER, b.size - size - HEADER, false))
  {
    assert (b.start + size) % 4 == 0 && (b.size - size - HEADER) % 4 == 0;
  }

  lemma CutKeepsTiled(bs: seq<Block>, k: int, size: u32)
    requires Tiled(bs) && 0 <= k < |bs| && bs[k].size > size + HEADER && size % 4 == 0
    ensures Tiled(Cut(HeaderFirst, bs, k, size))
  {
    var ts := Cut(HeaderFirst, bs, k, size);
    CutIsWellFormed(bs[k], size);
    forall i {:trigger End(ts[i])} | 0 <= i < |ts| - 1
      ensures ts[i + 1].addr == End(ts[i])
    {
      if i < k { assert bs[i + 1].addr == End(bs[i]); }
      else if i > k { assert bs[i].addr == End(bs[i - 1]); }
    }
    assert forall i :: k + 1 < i < |ts| ==> ts[i] == bs[i - 1];
  }

  lemma MarkKeepsTiled(bs: seq<Block>, k: int, used: bool)
    requires Tiled(bs) && 0 <= k < |bs|
    ensures Tiled(bs[k := bs[k].(used := used)])
  {
    var ts := bs[k := bs[k].(used := used)];
    forall i {:trigger End(ts[i])} | 0 <= i < |ts| - 1
      ensures ts[i + 1].addr == End(ts[i])
    {
      assert bs[i + 1].addr == End(bs[i]);
    }
  }

  lemma TakeKeepsTiled(bs: seq<Block>, k: int, size: u32)
    requires Tiled(bs) && 0 <= k < |bs| && bs[k].size >= size && size % 4 == 0
    ensures Tiled(Take(HeaderFirst, bs, k, size))
  {
    var cs := bs;
    if bs[k].size > size + HEADER + 4 {
      CutKeepsTiled(bs, k, size);
      cs := Cut(HeaderFirst, bs, k, size);
    }
    MarkKeepsTiled(cs, k, true);
  }

  lemma MergeKeepsTiled(bs: seq<Block>, i: int)
    requires Tiled(bs) && 0 <= i < |bs| - 1
    ensures Tiled(Merge(bs, i))
  {
    var ts := Merge(bs, i);
    assert bs[i + 1].addr == End(bs[i]) && WellFormed(ts[i]);
    forall j {:trigger End(ts[j])} | 0 <= j < |ts| - 1
      ensures ts[j + 1].addr == End(ts[j])
    {
      if j < i { assert bs[j + 1].addr == End(bs[j]); }
      else { assert bs[j + 2].addr == End(bs[j + 1]); }
    }
  }

  lemma ReleaseKeepsTiled(bs: seq<Block>, i: int)
    requires Tiled(bs) && 0 <= i < |bs|
    ensures Tiled(Release(bs, i))
  {
    var b0 := bs[i := bs[i].(used := false)];
    MarkKeepsTiled(bs, i, false);
    var b1 := b0;
    if i + 1 < |b0| && !b0[i + 1].used {
      MergeKeepsTiled(b0, i);
      b1 := Merge(b0, i);
    }
    if i > 0 && !b1[i - 1].used {
      MergeKeepsTiled(b1, i - 1);
    }
  }
}
