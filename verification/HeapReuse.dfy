/** What requests take and what frees give back. */
module HeapReuse {
  import opened Words
  import opened Heap
  import opened HeapSafety
  import opened HeapAsWritten
  import opened HeapOverlap

  // ----- whole words

  lemma MergeKeepsWorded(bs: seq<Block>, i: int)
    requires 0 <= i < |bs| - 1 && Worded(bs)
    ensures Worded(Merge(bs, i))
  {
    WordsAdded(bs[i].size, bs[i + 1].size / 4);
    WordsAdded(bs[i].size + bs[i + 1].size, HEADER / 4);
  }

  lemma ReleaseKeepsWorded(bs: seq<Block>, i: int)
    requires 0 <= i < |bs| && Worded(bs)
    ensures Worded(Release(bs, i))
  {
    var b0 := bs[i := bs[i].(used := false)];
    var b1 := b0;
    if i + 1 < |b0| && !b0[i + 1].used {
      MergeKeepsWorded(b0, i);
      b1 := Merge(b0, i);
    }
    if i > 0 && !b1[i - 1].used { MergeKeepsWorded(b1, i - 1); }
  }

  lemma RoundedIsWords(size: u32)
    ensures Round4(size) % 4 == 0
  {
  }

  lemma KmallocKeepsWorded(layout: Layout, h: State, size: u32)
    requires Worded(h.blocks)
    ensures Worded(Kmalloc(layout, h, size).heap.blocks)
  {
    var k := BestFit(h.blocks, Round4(size));
    RoundedIsWords(size);
    if size != 0 && k != -1 { TakeKeepsWorded(layout, h.blocks, k, Round4(size)); }
  }

  lemma KfreeKeepsWorded(h: State, ptr: int)
    requires Worded(h.blocks)
    ensures Worded(Kfree(h, ptr).blocks)
  {
    if ptr != 0 && Find(h.blocks, ptr) != -1 { ReleaseKeepsWorded(h.blocks, Find(h.blocks, ptr)); }
  }

  lemma CallKeepsWorded(layout: Layout, r: Run, c: Call)
    requires Worded(r.heap.blocks)
    ensures Worded(Apply(layout, r, c).heap.blocks)
  {
    match c
    case Malloc(size) => KmallocKeepsWorded(layout, r.heap, size);
    case Free(ptr) => KfreeKeepsWorded(r.heap, ptr);
  }

  /** In either layout, whatever is requested and freed, all sizes are whole words. */
  lemma {:induction false} SizesAreWords(layout: Layout, calls: seq<Call>)
    ensures Worded(Exec(layout, calls).heap.blocks)
  {
    if calls != [] {
      SizesAreWords(layout, calls[..|calls| - 1]);
      CallKeepsWorded(layout, Exec(layout, calls[..|calls| - 1]), calls[|calls| - 1]);
    }
  }

  // ----- what a request takes

  /** The block that a request of n bytes, rounded up to words, gets: at most 20 bytes more than that,
      and exactly that if a block was split for it, whose other part is free and has 8 bytes or more. */
  ghost predicate TakesLittle(bs: seq<Block>, ts: seq<Block>, ptr: int, n: int) {
    exists k :: 0 <= k < |bs| && k < |ts| && !bs[k].used && bs[k].start == ptr == ts[k].start && ts[k].used
                && n <= ts[k].size <= n + 20
                && if |ts| == |bs| then ts == bs[k := bs[k].(used := true)]
                   else |ts| == |bs| + 1 && ts[k].size == n && !ts[k + 1].used && ts[k + 1].size >= 8
                        && ts[k].size + 16 + ts[k + 1].size == bs[k].size
                        && ts[..k] == bs[..k] && ts[k + 2..] == bs[k + 1..]
  }

  lemma TakeTakesLittle(layout: Layout, bs: seq<Block>, k: int, n: u32)
    requires 0 <= k < |bs| && !bs[k].used && bs[k].size >= n && bs[k].size % 4 == 0 && n % 4 == 0
    ensures TakesLittle(bs, Take(layout, bs, k, n), bs[k].start, n)
  {
    var ts := Take(layout, bs, k, n);
    if bs[k].size > n + HEADER + 4 {
      WordsBetween(bs[k].size, n);
      assert ts[..k] == bs[..k] && ts[k + 2..] == bs[k + 1..];
    }
  }

  lemma WordsBetween(x: int, n: int)
    requires x % 4 == 0 && n % 4 == 0 && x > n + 20
    ensures x >= n + 24
  {
  }

  /** The size rounded up to words. */
  function Words4(size: u32): (n: int)
    ensures n % 4 == 0 && size <= n < size + 4
  {
    (size + 3) / 4 * 4
  }

  /** After any run, in either layout, a request that is granted and rounds up without wrapping wastes at
      most 20 bytes, and never leaves a free block of less than 8. */
  lemma RequestTakesLittle(layout: Layout, calls: seq<Call>, size: u32)
    requires 0 < size <= 0xFFFF_FFFC && Kmalloc(layout, Exec(layout, calls).heap, size).ptr != 0
    ensures var h := Exec(layout, calls).heap;
            var a := Kmalloc(layout, h, size);
            TakesLittle(h.blocks, a.heap.blocks, a.ptr, Words4(size))
  {
    var bs := Exec(layout, calls).heap.blocks;
    SizesAreWords(layout, calls);
    RoundsUp(size);
    TakeTakesLittle(layout, bs, BestFit(bs, Round4(size)), Round4(size));
    TakeKeepsStart(layout, bs, BestFit(bs, Round4(size)), Round4(size));
  }

  lemma RoundsUp(size: u32)
    requires size <= 0xFFFF_FFFC
    ensures Round4(size) == Words4(size)
  {
  }

  lemma TakeKeepsStart(layout: Layout, bs: seq<Block>, k: int, n: u32)
    requires 0 <= k < |bs|
    ensures Take(layout, bs, k, n)[k].start == bs[k].start
  {
  }

  /** A request of no bytes gets null and takes nothing; freeing null, or what is no block's start, frees
      nothing. */
  lemma NothingForNothing(layout: Layout, h: State, ptr: int)
    requires ptr == 0 || forall i :: 0 <= i < |h.blocks| ==> h.blocks[i].start != ptr
    ensures Kmalloc(layout, h, 0) == Allocation(h, 0) && Kfree(h, ptr) == h
  {
  }

  // ----- what frees give back

  /** The first block of the list is always the one the heap began with. */
  ghost predicate Rooted(bs: seq<Block>) {
    bs != [] && bs[0].addr == 0xD000_0000 && bs[0].start == 0xD000_0010
  }

  lemma {:induction false} FirstBlockStays(layout: Layout, calls: seq<Call>)
    ensures Rooted(Exec(layout, calls).heap.blocks)
  {
    if calls != [] {
      var before, last := calls[..|calls| - 1], calls[|calls| - 1];
      var bs := Exec(layout, before).heap.blocks;
      FirstBlockStays(layout, before);
      match last
      case Malloc(size) =>
        if size != 0 && BestFit(bs, Round4(size)) != -1 { TakeKeepsRooted(layout, bs, BestFit(bs, Round4(size)), Round4(size)); }
      case Free(ptr) =>
        if ptr != 0 && Find(bs, ptr) != -1 { ReleaseKeepsRooted(bs, Find(bs, ptr)); }
    }
  }

  lemma TakeKeepsRooted(layout: Layout, bs: seq<Block>, k: int, n: u32)
    requires 0 <= k < |bs| && Rooted(bs)
    ensures Rooted(Take(layout, bs, k, n))
  {
  }

  lemma ReleaseKeepsRooted(bs: seq<Block>, i: int)
    requires 0 <= i < |bs| && Rooted(bs)
    ensures Rooted(Release(bs, i))
  {
  }

  lemma TiledFreeKeepsHeld(r: Run, ptr: int)
    requires Safe(r) && Held(r) && Worded(r.heap.blocks)
    ensures Held(Apply(HeaderFirst, r, Free(ptr)))
  {
    var bs := r.heap.blocks;
    forall i | 0 <= i < |bs| ensures bs[i].start > 0 { Inside(bs, i); }
    forall i, j | 0 <= i < j < |bs|
      ensures bs[i].start != bs[j].start
    {
      InOrder(bs, i, j);
    }
    FreeKeepsHeld(HeaderFirst, r, ptr);
  }

  /** In the descriptor-first layout every used block of every run is one that a client holds. */
  lemma {:induction false} EveryRunIsHeld(calls: seq<Call>)
    ensures Held(Exec(HeaderFirst, calls))
  {
    if calls != [] {
      var before, last := calls[..|calls| - 1], calls[|calls| - 1];
      var r := Exec(HeaderFirst, before);
      EveryRunIsHeld(before);
      EveryRunIsSafe(before);
      SizesAreWords(HeaderFirst, before);
      StartsArePositive(HeaderFirst, before);
      match last
      case Malloc(size) => MallocKeepsHeld(HeaderFirst, r, size);
      case Free(ptr) => TiledFreeKeepsHeld(r, ptr);
    }
  }

  lemma FreeHeapIsOne(bs: seq<Block>)
    requires NoFreeNeighbours(bs)
    ensures |bs| <= 1 || bs[0].used || bs[1].used
  {
  }

  /** A heap of free blocks only is the heap at the start: one block with all the bytes. */
  lemma AllFreeIsInitial(h: State)
    requires Balanced(h) && Rooted(h.blocks) && forall i :: 0 <= i < |h.blocks| ==> !h.blocks[i].used
    ensures h.blocks == [Block(0xD000_0000, 0xD000_0010, 0x0FFF_FFF0, false)]
    ensures UsedTotal(h.blocks) == 0
  {
    FreeHeapIsOne(h.blocks);
    assert h.blocks == [h.blocks[0]];
    SumsOfPair(h.blocks[0], h.blocks[0]);
  }

  /** Once every pointer handed out has been given back, the heap is as it was at the start: nothing is
      lost and nothing stays in pieces; and if nothing was freed twice the usage counter is 0. */
  lemma EverythingComesBack(calls: seq<Call>)
    requires Exec(HeaderFirst, calls).live == map[]
    ensures Exec(HeaderFirst, calls).heap.blocks == [Block(0xD000_0000, 0xD000_0010, 0x0FFF_FFF0, false)]
    ensures FreesOnce(HeaderFirst, calls) ==> Exec(HeaderFirst, calls).heap.usedMemory == 0
  {
    EveryRunIsHeld(calls);
    FirstBlockStays(HeaderFirst, calls);
    EveryRunBalances(HeaderFirst, calls);
    AllFreeIsInitial(Exec(HeaderFirst, calls).heap);
    RunsThatFreeOnceCount(HeaderFirst, calls);
  }

  /** In the layout as written too, in a run whose frees all had room. */
  lemma EverythingComesBackWithRoom(layout: Layout, calls: seq<Call>)
    requires OrdinaryRun(layout, calls) && Exec(layout, calls).live == map[]
    ensures Exec(layout, calls).heap.blocks == [Block(0xD000_0000, 0xD000_0010, 0x0FFF_FFF0, false)]
  {
    OrdinaryRunsAreHeld(layout, calls);
    FirstBlockStays(layout, calls);
    EveryRunBalances(layout, calls);
    AllFreeIsInitial(Exec(layout, calls).heap);
  }
}
