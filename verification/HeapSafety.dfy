/** What every run of `kmalloc` and `kfree` keeps. */
module HeapSafety {
  import opened Words
  import opened Heap

  // ----- safety of live allocations (descriptor-before-payload layout)

  /** The bytes a successful request for `size` can count on: all of them unless rounding wrapped. */
  function Promised(size: u32): u32 {
    if size <= 0xFFFF_FFFC then size else 0
  }

  ghost predicate Holds(bs: seq<Block>, ptr: int, n: int) {
    exists i :: 0 <= i < |bs| && bs[i].used && bs[i].start == ptr && bs[i].size >= n
  }

  ghost predicate Safe(r: Run) {
    && Tiled(r.heap.blocks)
    && (forall p :: p in r.live ==> Holds(r.heap.blocks, p, Promised(r.live[p])))
    && !r.reused
  }

  lemma TakeKeepsHolds(layout: Layout, bs: seq<Block>, k: int, size: u32, ptr: int, n: int)
    requires 0 <= k < |bs| && !bs[k].used && Holds(bs, ptr, n)
    ensures Holds(Take(layout, bs, k, size), ptr, n)
  {
    var i :| 0 <= i < |bs| && bs[i].used && bs[i].start == ptr && bs[i].size >= n;
    var ts := Take(layout, bs, k, size);
    assert ts[if i < k || |ts| == |bs| then i else i + 1] == bs[i];
  }

  lemma MergeKeepsHolds(bs: seq<Block>, k: int, ptr: int, n: int)
    requires 0 <= k < |bs| - 1 && !bs[k].used && !bs[k + 1].used && Holds(bs, ptr, n)
    ensures Holds(Merge(bs, k), ptr, n)
  {
    var i :| 0 <= i < |bs| && bs[i].used && bs[i].start == ptr && bs[i].size >= n;
    assert Merge(bs, k)[if i < k then i else i - 1] == bs[i];
  }

  lemma ReleaseKeepsHolds(bs: seq<Block>, i: int, ptr: int, n: int)
    requires 0 <= i < |bs| && bs[i].start != ptr && Holds(bs, ptr, n)
    ensures Holds(Release(bs, i), ptr, n)
  {
    var b0 := bs[i := bs[i].(used := false)];
    assert Holds(b0, ptr, n) by {
      var j :| 0 <= j < |bs| && bs[j].used && bs[j].start == ptr && bs[j].size >= n;
      assert b0[j] == bs[j];
    }
    var b1 := b0;
    if i + 1 < |b0| && !b0[i + 1].used {
      MergeKeepsHolds(b0, i, ptr, n);
      b1 := Merge(b0, i);
    }
    if i > 0 && !b1[i - 1].used {
      MergeKeepsHolds(b1, i - 1, ptr, n);
    }
  }

  /** The block a successful request gets is as large as asked exactly when rounding up did not wrap. */
  lemma KmallocHonoursSize(layout: Layout, h: State, size: u32)
    requires size > 0
    requires forall i :: 0 <= i < |h.blocks| ==> h.blocks[i].size < 0xFFFF_FFFD
    requires Kmalloc(layout, h, size).ptr != 0
    ensures Holds(Kmalloc(layout, h, size).heap.blocks, Kmalloc(layout, h, size).ptr, Promised(size))
    ensures size <= 0xFFFF_FFFC <==>
              var k := BestFit(h.blocks, Round4(size));
              Take(layout, h.blocks, k, Round4(size))[k].size >= size
  {
    var k := BestFit(h.blocks, Round4(size));
    var ts := Take(layout, h.blocks, k, Round4(size));
    assert ts[k].used && ts[k].start == h.blocks[k].start;
  }

  /** A free block is nobody's: no pointer a client holds starts it. */
  lemma FreeBlockIsUnheld(r: Run, k: int)
    requires Safe(r) && 0 <= k < |r.heap.blocks| && !r.heap.blocks[k].used
    ensures r.heap.blocks[k].start !in r.live
  {
    var bs := r.heap.blocks;
    if bs[k].start in r.live {
      var i :| 0 <= i < |bs| && bs[i].used && bs[i].start == bs[k].start;
      if i < k { InOrder(bs, i, k); } else { InOrder(bs, k, i); }
    }
  }

  lemma MallocKeepsSafe(r: Run, size: u32)
    requires Safe(r)
    ensures Safe(Apply(HeaderFirst, r, Malloc(size)))
  {
    var bs := r.heap.blocks;
    var after := Apply(HeaderFirst, r, Malloc(size));
    var k := BestFit(bs, Round4(size));
    if size != 0 && k != -1 {
      forall i | 0 <= i < |bs| ensures bs[i].size < 0xFFFF_FFFD { Inside(bs, i); }
      Inside(bs, k);
      TakeKeepsTiled(bs, k, Round4(size));
      KmallocHonoursSize(HeaderFirst, r.heap, size);
      FreeBlockIsUnheld(r, k);
      forall p | p in after.live
        ensures Holds(after.heap.blocks, p, Promised(after.live[p]))
      {
        if p != bs[k].start {
          TakeKeepsHolds(HeaderFirst, bs, k, Round4(size), p, Promised(r.live[p]));
        }
      }
    }
  }

  lemma FreeKeepsSafe(r: Run, ptr: int)
    requires Safe(r)
    ensures Safe(Apply(HeaderFirst, r, Free(ptr)))
  {
    var bs := r.heap.blocks;
    var i := Find(bs, ptr);
    if ptr != 0 && i != -1 {
      ReleaseKeepsTiled(bs, i);
      forall p | p in r.live - {ptr}
        ensures Holds(Release(bs, i), p, Promised(r.live[p]))
      {
        ReleaseKeepsHolds(bs, i, p, Promised(r.live[p]));
      }
    }
  }

  lemma CallKeepsSafe(r: Run, c: Call)
    requires Safe(r)
    ensures Safe(Apply(HeaderFirst, r, c))
  {
    match c
    case Malloc(size) => MallocKeepsSafe(r, size);
    case Free(ptr) => FreeKeepsSafe(r, ptr);
  }

  lemma {:induction false} EveryRunIsSafe(calls: seq<Call>)
    ensures Safe(Exec(HeaderFirst, calls))
  {
    if calls != [] {
      EveryRunIsSafe(calls[..|calls| - 1]);
      CallKeepsSafe(Exec(HeaderFirst, calls[..|calls| - 1]), calls[|calls| - 1]);
    }
  }

  lemma SafeRegionIsInside(r: Run, p: int)
    requires Safe(r) && p in r.live
    ensures p % 4 == 0 && HEAP_START + HEADER <= p && p + Promised(r.live[p]) <= HEAP_END
  {
    var bs := r.heap.blocks;
    var i :| 0 <= i < |bs| && bs[i].used && bs[i].start == p && bs[i].size >= Promised(r.live[p]);
    Inside(bs, i);
  }

  lemma SafeRegionsAreDisjoint(r: Run, p: int, q: int)
    requires Safe(r) && p in r.live && q in r.live && p != q
    ensures p + Promised(r.live[p]) < q || q + Promised(r.live[q]) < p
  {
    var bs := r.heap.blocks;
    var i :| 0 <= i < |bs| && bs[i].used && bs[i].start == p && bs[i].size >= Promised(r.live[p]);
    var j :| 0 <= j < |bs| && bs[j].used && bs[j].start == q && bs[j].size >= Promised(r.live[q]);
    if i < j { InOrder(bs, i, j); } else { InOrder(bs, j, i); }
  }

  /** The allocator's promise: after any calls whatever, repeated and unknown frees included, the
      regions clients hold are word aligned, inside the heap, and apart from one another; and no
      pointer was handed out while a client held it, so that each of them has one holder. */
  lemma LiveRegionsAreDisjoint(calls: seq<Call>)
    ensures var r := Exec(HeaderFirst, calls);
            && !r.reused
            && (forall p :: p in r.live ==> p % 4 == 0 && HEAP_START + HEADER <= p && p + Promised(r.live[p]) <= HEAP_END)
            && (forall p, q :: p in r.live && q in r.live && p != q ==>
                  p + Promised(r.live[p]) < q || q + Promised(r.live[q]) < p)
  {
    var r := Exec(HeaderFirst, calls);
    EveryRunIsSafe(calls);
    forall p | p in r.live
      ensures p % 4 == 0 && HEAP_START + HEADER <= p && p + Promised(r.live[p]) <= HEAP_END
    {
      SafeRegionIsInside(r, p);
    }
    forall p, q | p in r.live && q in r.live && p != q
      ensures p + Promised(r.live[p]) < q || q + Promised(r.live[q]) < p
    {
      SafeRegionsAreDisjoint(r, p, q);
    }
  }

  /** What the next request is given overlaps nothing a client holds, its very address included. */
  lemma NextRegionIsFree(calls: seq<Call>, size: u32, q: int)
    requires Kmalloc(HeaderFirst, Exec(HeaderFirst, calls).heap, size).ptr != 0
    ensures var p, live := Kmalloc(HeaderFirst, Exec(HeaderFirst, calls).heap, size).ptr, Exec(HeaderFirst, calls).live;
            && p !in live
            && (q in live ==> p + Promised(size) < q || q + Promised(live[q]) < p)
  {
    var r := Exec(HeaderFirst, calls);
    EveryRunIsSafe(calls);
    FreeBlockIsUnheld(r, BestFit(r.heap.blocks, Round4(size)));
    MallocKeepsSafe(r, size);
    if q in r.live {
      SafeRegionsAreDisjoint(Apply(HeaderFirst, r, Malloc(size)), Kmalloc(HeaderFirst, r.heap, size).ptr, q);
    }
  }

  /** No byte of the heap window is lost and none is claimed twice. */
  lemma {:induction false} EveryByteHasOneBlock(bs: seq<Block>, x: int)
    requires Tiled(bs) && HEAP_START <= x < HEAP_END
    ensures exists i :: 0 <= i < |bs| && bs[i].addr <= x < End(bs[i])
    ensures forall i, j :: 0 <= i < |bs| && 0 <= j < |bs| && bs[i].addr <= x < End(bs[i]) && bs[j].addr <= x < End(bs[j]) ==> i == j
  {
    forall i, j | 0 <= i < j < |bs|
      ensures End(bs[i]) <= bs[j].addr
    {
      InOrder(bs, i, j);
    }
    var i := 0;
    while i + 1 < |bs| && bs[i + 1].addr <= x
      invariant 0 <= i < |bs| && bs[i].addr <= x
    {
      i := i + 1;
    }
    assert i + 1 < |bs| ==> bs[i + 1].addr == End(bs[i]);
  }

  // ----- bookkeeping (both layouts)

  /** Payload sizes plus one descriptor per block. */
  function Footprint(bs: seq<Block>): int {
    if bs == [] then 0 else Footprint(bs[..|bs| - 1]) + bs[|bs| - 1].size + HEADER
  }

  function UsedTotal(bs: seq<Block>): int {
    if bs == [] then 0
    else UsedTotal(bs[..|bs| - 1]) + if bs[|bs| - 1].used then bs[|bs| - 1].size else 0
  }

  lemma {:induction false} SumsSplit(xs: seq<Block>, ys: seq<Block>)
    ensures Footprint(xs + ys) == Footprint(xs) + Footprint(ys)
    ensures UsedTotal(xs + ys) == UsedTotal(xs) + UsedTotal(ys)
  {
    if ys == [] {
      assert xs + ys == xs;
    } else {
      assert (xs + ys)[..|xs + ys| - 1] == xs + ys[..|ys| - 1];
      SumsSplit(xs, ys[..|ys| - 1]);
    }
  }

  lemma SumsAround(xs: seq<Block>, ys: seq<Block>, zs: seq<Block>)
    ensures Footprint(xs + ys + zs) == Footprint(xs) + Footprint(ys) + Footprint(zs)
    ensures UsedTotal(xs + ys + zs) == UsedTotal(xs) + UsedTotal(ys) + UsedTotal(zs)
  {
    SumsSplit(xs + ys, zs);
    SumsSplit(xs, ys);
  }

  lemma SwapMiddle(xs: seq<Block>, ys: seq<Block>, ws: seq<Block>, zs: seq<Block>)
    requires Footprint(ys) == Footprint(ws)
    ensures Footprint(xs + ys + zs) == Footprint(xs + ws + zs)
    ensures UsedTotal(xs + ys + zs) - UsedTotal(ys) == UsedTotal(xs + ws + zs) - UsedTotal(ws)
  {
    SumsAround(xs, ys, zs);
    SumsAround(xs, ws, zs);
  }

  lemma SumsOfPair(b: Block, c: Block)
    ensures Footprint([b]) == b.size + HEADER && UsedTotal([b]) == if b.used then b.size else 0
    ensures Footprint([b, c]) == Footprint([b]) + Footprint([c]) && UsedTotal([b, c]) == UsedTotal([b]) + UsedTotal([c])
  {
    assert [b] + [c] == [b, c];
    SumsSplit([b], [c]);
    assert [b][..0] == [];
  }

  lemma SumsAfterMarking(bs: seq<Block>, i: int, used: bool)
    requires 0 <= i < |bs|
    ensures Footprint(bs[i := bs[i].(used := used)]) == Footprint(bs)
    ensures UsedTotal(bs[i := bs[i].(used := used)])
            == UsedTotal(bs) - (if bs[i].used then bs[i].size else 0) + if used then bs[i].size else 0
  {
    var f := bs[i].(used := used);
    SumsOfPair(bs[i], f);
    SumsOfPair(f, f);
    SwapMiddle(bs[..i], [bs[i]], [f], bs[i + 1..]);
    assert bs == bs[..i] + [bs[i]] + bs[i + 1..];
    assert bs[i := f] == bs[..i] + [f] + bs[i + 1..];
  }

  lemma SumsOfCut(b: Block, c: Block, rest: Block)
    requires !b.used && !c.used && !rest.used && b.size == c.size + HEADER + rest.size
    ensures Footprint([b]) == Footprint([c, rest]) && UsedTotal([b]) == UsedTotal([c, rest])
  {
    SumsOfPair(b, b);
    SumsOfPair(c, rest);
    SumsOfPair(rest, c);
  }

  lemma SumsAfterCut(layout: Layout, bs: seq<Block>, k: int, size: u32)
    requires 0 <= k < |bs| && !bs[k].used
    ensures Footprint(Cut(layout, bs, k, size)) == Footprint(bs)
    ensures UsedTotal(Cut(layout, bs, k, size)) == UsedTotal(bs)
  {
    var cs := Cut(layout, bs, k, size);
    var xs, zs := bs[..k], bs[k + 1..];
    SumsOfCut(bs[k], cs[k], cs[k + 1]);
    SwapMiddle(xs, [bs[k]], [cs[k], cs[k + 1]], zs);
    assert bs == xs + [bs[k]] + zs;
    assert cs == xs + [cs[k], cs[k + 1]] + zs;
  }

  lemma SumsAfterTake(layout: Layout, bs: seq<Block>, k: int, size: u32)
    requires 0 <= k < |bs| && !bs[k].used
    ensures Footprint(Take(layout, bs, k, size)) == Footprint(bs)
    ensures UsedTotal(Take(layout, bs, k, size)) == UsedTotal(bs) + Take(layout, bs, k, size)[k].size
  {
    var cs := bs;
    if bs[k].size > size + HEADER + 4 {
      SumsAfterCut(layout, bs, k, size);
      cs := Cut(layout, bs, k, size);
    }
    SumsAfterMarking(cs, k, true);
  }

  lemma SumsAfterMerge(bs: seq<Block>, i: int)
    requires 0 <= i < |bs| - 1 && !bs[i].used && !bs[i + 1].used
    ensures Footprint(Merge(bs, i)) == Footprint(bs)
    ensures UsedTotal(Merge(bs, i)) == UsedTotal(bs)
  {
    var m := Merge(bs, i)[i];
    SumsOfCut(m, bs[i], bs[i + 1]);
    SwapMiddle(bs[..i], [m], [bs[i], bs[i + 1]], bs[i + 2..]);
    assert bs == bs[..i] + [bs[i], bs[i + 1]] + bs[i + 2..];
  }

  lemma SumsAfterCoalesce(bs: seq<Block>, i: int)
    requires 0 <= i < |bs| && !bs[i].used
    ensures Footprint(Coalesce(bs, i)) == Footprint(bs)
    ensures UsedTotal(Coalesce(bs, i)) == UsedTotal(bs)
  {
    var b1 := bs;
    if i + 1 < |bs| && !bs[i + 1].used {
      SumsAfterMerge(bs, i);
      b1 := Merge(bs, i);
    }
    if i > 0 && !b1[i - 1].used {
      SumsAfterMerge(b1, i - 1);
    }
  }

  lemma SumsAfterRelease(bs: seq<Block>, i: int)
    requires 0 <= i < |bs|
    ensures Footprint(Release(bs, i)) == Footprint(bs)
    ensures UsedTotal(Release(bs, i)) == UsedTotal(bs) - if bs[i].used then bs[i].size else 0
  {
    SumsAfterMarking(bs, i, false);
    SumsAfterCoalesce(bs[i := bs[i].(used := false)], i);
  }

  lemma {:induction false} UsedWithinFootprint(bs: seq<Block>)
    requires forall i :: 0 <= i < |bs| ==> bs[i].size >= 0
    ensures 0 <= UsedTotal(bs) <= Footprint(bs)
  {
    if bs != [] { UsedWithinFootprint(bs[..|bs| - 1]); }
  }

  lemma {:induction false} BlockWithinFootprint(bs: seq<Block>, i: int)
    requires (forall i :: 0 <= i < |bs| ==> bs[i].size >= 0) && 0 <= i < |bs|
    ensures bs[i].size <= Footprint(bs)
  {
    UsedWithinFootprint(bs[..|bs| - 1]);
    if i < |bs| - 1 { BlockWithinFootprint(bs[..|bs| - 1], i); }
  }

  ghost predicate Balanced(h: State) {
    && (forall i :: 0 <= i < |h.blocks| ==> h.blocks[i].size >= 0)
    && NoFreeNeighbours(h.blocks)
    && Footprint(h.blocks) == HEAP_END - HEAP_START
  }

  /** No block is as large as the value the search starts from as its best size so far, which is what
      `HeapList` asks of the list it searches. */
  lemma SizesFitTheSearch(h: State)
    requires Balanced(h)
    ensures forall i :: 0 <= i < |h.blocks| ==> h.blocks[i].size < 0xFFFF_FFFF
  {
    forall i | 0 <= i < |h.blocks|
      ensures h.blocks[i].size < 0xFFFF_FFFF
    {
      BlockWithinFootprint(h.blocks, i);
    }
  }

  ghost predicate Counted(h: State) {
    h.usedMemory == UsedTotal(h.blocks)
  }

  /** A free that the counter cannot account for: it hits a non-empty block that is already free. */
  ghost predicate IsDoubleFree(h: State, c: Call) {
    c.Free? && c.ptr != 0 &&
    var i := Find(h.blocks, c.ptr);
    i != -1 && !h.blocks[i].used && h.blocks[i].size > 0
  }

  lemma MergeLeavesNoFreePair(bs: seq<Block>, i: int)
    requires 0 <= i < |bs| - 1 && !bs[i].used
    requires forall j {:trigger bs[j]} :: 0 <= j < |bs| - 1 && j != i && j != i + 1 ==> bs[j].used || bs[j + 1].used
    requires i + 2 < |bs| ==> bs[i + 2].used
    ensures NoFreeNeighbours(Merge(bs, i))
  {
    var ms := Merge(bs, i);
    forall j {:trigger ms[j]} | 0 <= j < |ms| - 1
      ensures ms[j].used || ms[j + 1].used
    {
      if j < i { assert bs[j].used || bs[j + 1].used; }
      else if j > i { assert bs[j + 1].used || bs[j + 2].used; }
    }
  }

  lemma CoalesceSeparatesFree(bs: seq<Block>, i: int)
    requires 0 <= i < |bs| && !bs[i].used
    requires forall j {:trigger bs[j]} :: 0 <= j < |bs| - 1 && j != i && j != i - 1 ==> bs[j].used || bs[j + 1].used
    requires i + 2 < |bs| ==> bs[i + 1].used || bs[i + 2].used
    requires i >= 2 ==> bs[i - 2].used || bs[i - 1].used
    ensures NoFreeNeighbours(Coalesce(bs, i))
  {
    var b1 := if i + 1 < |bs| && !bs[i + 1].used then Merge(bs, i) else bs;
    assert forall j {:trigger b1[j]} :: 0 <= j < i ==> b1[j] == bs[j];
    assert i + 1 < |b1| ==> b1[i + 1].used;
    forall j {:trigger b1[j]} | 0 <= j < |b1| - 1 && j != i - 1
      ensures b1[j].used || b1[j + 1].used
    {
      if j < i { assert bs[j].used || bs[j + 1].used; }
      else if j > i {
        var d := |bs| - |b1|;
        assert b1[j] == bs[j + d] && b1[j + 1] == bs[j + d + 1];
        assert bs[j + d].used || bs[j + d + 1].used;
      }
    }
    if i > 0 && !b1[i - 1].used {
      MergeLeavesNoFreePair(b1, i - 1);
    }
  }

  lemma ReleaseLeavesNoFreePair(bs: seq<Block>, i: int)
    requires NoFreeNeighbours(bs) && 0 <= i < |bs|
    ensures NoFreeNeighbours(Release(bs, i))
  {
    var b0 := bs[i := bs[i].(used := false)];
    assert i + 2 < |b0| ==> bs[i + 1].used || bs[i + 2].used;
    assert i >= 2 ==> bs[i - 2].used || bs[i - 1].used;
    forall j {:trigger b0[j]} | 0 <= j < |b0| - 1 && j != i && j != i - 1
      ensures b0[j].used || b0[j + 1].used
    {
      assert bs[j].used || bs[j + 1].used;
    }
    CoalesceSeparatesFree(b0, i);
  }

  lemma ReleaseKeepsSizes(bs: seq<Block>, i: int)
    requires 0 <= i < |bs| && (forall j :: 0 <= j < |bs| ==> bs[j].size >= 0)
    ensures forall j :: 0 <= j < |Release(bs, i)| ==> Release(bs, i)[j].size >= 0
  {
    var b0 := bs[i := bs[i].(used := false)];
    var b1 := if i + 1 < |b0| && !b0[i + 1].used then Merge(b0, i) else b0;
    assert forall j :: 0 <= j < |b1| ==> b1[j].size >= 0;
  }

  lemma ReleaseKeepsBalanced(h: State, i: int)
    requires Balanced(h) && 0 <= i < |h.blocks|
    ensures Balanced(State(Release(h.blocks, i), h.usedMemory))
  {
    SumsAfterRelease(h.blocks, i);
    ReleaseKeepsSizes(h.blocks, i);
    ReleaseLeavesNoFreePair(h.blocks, i);
  }

  lemma TakeLeavesNoFreePair(layout: Layout, bs: seq<Block>, k: int, size: u32)
    requires NoFreeNeighbours(bs) && 0 <= k < |bs| && !bs[k].used
    ensures NoFreeNeighbours(Take(layout, bs, k, size))
  {
    var ts := Take(layout, bs, k, size);
    var d := |ts| - |bs|;
    forall i {:trigger ts[i]} | 0 <= i < |ts| - 1
      ensures ts[i].used || ts[i + 1].used
    {
      if i + 1 < k {
        assert ts[i] == bs[i] && ts[i + 1] == bs[i + 1];
      } else if i > k {
        assert i == k + 1 ==> bs[k].used || bs[k + 1].used;
        assert bs[i - d].used || bs[i - d + 1].used;
        assert ts[i + 1] == bs[i + 1 - d];
      }
    }
  }

  lemma TakeKeepsSizes(layout: Layout, bs: seq<Block>, k: int, size: u32)
    requires 0 <= k < |bs| && (forall j :: 0 <= j < |bs| ==> bs[j].size >= 0)
    ensures forall j :: 0 <= j < |Take(layout, bs, k, size)| ==> Take(layout, bs, k, size)[j].size >= 0
  {
    var cs := Cut(layout, bs, k, size);
    assert bs[k].size > size + HEADER ==> forall j :: 0 <= j < |cs| ==> cs[j].size >= 0;
  }

  lemma TakeKeepsBooks(layout: Layout, h: State, k: int, size: u32, counter: u32)
    requires Balanced(h) && 0 <= k < |h.blocks| && !h.blocks[k].used
    requires counter == Wrap32(h.usedMemory + Take(layout, h.blocks, k, size)[k].size)
    ensures Balanced(State(Take(layout, h.blocks, k, size), counter))
    ensures Counted(h) ==> Counted(State(Take(layout, h.blocks, k, size), counter))
  {
    SumsAfterTake(layout, h.blocks, k, size);
    TakeLeavesNoFreePair(layout, h.blocks, k, size);
    TakeKeepsSizes(layout, h.blocks, k, size);
    UsedWithinFootprint(Take(layout, h.blocks, k, size));
  }

  lemma KmallocKeepsBooks(layout: Layout, h: State, size: u32)
    requires Balanced(h)
    ensures Balanced(Kmalloc(layout, h, size).heap)
    ensures Counted(h) ==> Counted(Kmalloc(layout, h, size).heap)
  {
    if size != 0 && BestFit(h.blocks, Round4(size)) != -1 {
      TakeKeepsBooks(layout, h, BestFit(h.blocks, Round4(size)), Round4(size), Kmalloc(layout, h, size).heap.usedMemory);
    }
  }

  lemma CounterAfterFree(total: int, size: int, used: bool)
    requires 0 <= size <= HEAP_END && 0 <= total <= HEAP_END && (used ==> size <= total)
    ensures Wrap32(total - size) == total - (if used then size else 0) <==> used || size == 0
  {
    assert total - size < 0 ==> Wrap32(total - size) == total - size + 0x1_0000_0000;
  }

  lemma KfreeKeepsBooks(h: State, ptr: int)
    requires Balanced(h)
    ensures Balanced(Kfree(h, ptr))
    ensures Counted(h) ==> (Counted(Kfree(h, ptr)) <==> !IsDoubleFree(h, Free(ptr)))
  {
    var bs := h.blocks;
    var i := Find(bs, ptr);
    if ptr != 0 && i != -1 {
      ReleaseKeepsBalanced(h, i);
      assert UsedTotal(Release(bs, i)) == UsedTotal(bs) - (if bs[i].used then bs[i].size else 0)
             && 0 <= UsedTotal(Release(bs, i)) && UsedTotal(bs) <= Footprint(bs) && bs[i].size <= Footprint(bs) by {
        SumsAfterRelease(bs, i);
        ReleaseKeepsSizes(bs, i);
        UsedWithinFootprint(bs);
        UsedWithinFootprint(Release(bs, i));
        BlockWithinFootprint(bs, i);
      }
      CounterAfterFree(UsedTotal(bs), bs[i].size, bs[i].used);
    }
  }

  /** Whatever the layout, a call loses no byte, leaves no two free neighbours, and keeps the usage
      counter right exactly when it is not a double free. */
  lemma CallKeepsBooks(layout: Layout, r: Run, c: Call)
    requires Balanced(r.heap)
    ensures Balanced(Apply(layout, r, c).heap)
    ensures Counted(r.heap) ==> (Counted(Apply(layout, r, c).heap) <==> !IsDoubleFree(r.heap, c))
  {
    match c
    case Malloc(size) => KmallocKeepsBooks(layout, r.heap, size);
    case Free(ptr) => KfreeKeepsBooks(r.heap, ptr);
  }

  lemma InitIsBalanced()
    ensures Balanced(Init()) && Counted(Init()) && Tiled(Init().blocks)
  {
    SumsOfPair(Init().blocks[0], Init().blocks[0]);
  }

  lemma {:induction false} EveryRunBalances(layout: Layout, calls: seq<Call>)
    ensures Balanced(Exec(layout, calls).heap)
  {
    if calls == [] {
      InitIsBalanced();
    } else {
      EveryRunBalances(layout, calls[..|calls| - 1]);
      CallKeepsBooks(layout, Exec(layout, calls[..|calls| - 1]), calls[|calls| - 1]);
    }
  }

  ghost predicate FreesOnce(layout: Layout, calls: seq<Call>) {
    calls == [] ||
    (var before := calls[..|calls| - 1];
     FreesOnce(layout, before) && !IsDoubleFree(Exec(layout, before).heap, calls[|calls| - 1]))
  }

  ghost predicate AlwaysCounted(layout: Layout, calls: seq<Call>) {
    Counted(Exec(layout, calls).heap) && (calls == [] || AlwaysCounted(layout, calls[..|calls| - 1]))
  }

  /** Over a whole run the usage counter is right throughout exactly when nothing was freed twice. */
  lemma {:induction false} RunsThatFreeOnceCount(layout: Layout, calls: seq<Call>)
    ensures AlwaysCounted(layout, calls) <==> FreesOnce(layout, calls)
  {
    if calls == [] {
      InitIsBalanced();
    } else {
      var before := calls[..|calls| - 1];
      RunsThatFreeOnceCount(layout, before);
      EveryRunBalances(layout, before);
      if AlwaysCounted(layout, before) { CallKeepsBooks(layout, Exec(layout, before), calls[|calls| - 1]); }
    }
  }

  lemma ExecSnoc(layout: Layout, calls: seq<Call>, c: Call)
    ensures Exec(layout, calls + [c]) == Apply(layout, Exec(layout, calls), c)
  {
    assert (calls + [c])[..|calls|] == calls;
  }

  /** In either layout every payload starts above address 0, so that null is never a block. */
  lemma {:induction false} StartsArePositive(layout: Layout, calls: seq<Call>)
    ensures forall i :: 0 <= i < |Exec(layout, calls).heap.blocks| ==> Exec(layout, calls).heap.blocks[i].start > 0
  {
    if calls != [] {
      var before, last := calls[..|calls| - 1], calls[|calls| - 1];
      var bs := Exec(layout, before).heap.blocks;
      StartsArePositive(layout, before);
      EveryRunBalances(layout, before);
      match last
      case Malloc(size) =>
        var k := BestFit(bs, Round4(size));
        if size != 0 && k != -1 { TakeKeepsPositive(layout, bs, k, Round4(size)); }
      case Free(ptr) =>
        if ptr != 0 && Find(bs, ptr) != -1 { ReleaseKeepsStarts(bs, Find(bs, ptr)); }
    }
  }

  lemma TakeKeepsPositive(layout: Layout, bs: seq<Block>, k: int, size: u32)
    requires 0 <= k < |bs| && forall i :: 0 <= i < |bs| ==> bs[i].start > 0
    ensures forall i :: 0 <= i < |Take(layout, bs, k, size)| ==> Take(layout, bs, k, size)[i].start > 0
  {
    var cs := Cut(layout, bs, k, size);
    assert forall i :: 0 <= i < |cs| ==> cs[i].start > 0;
  }

  lemma ReleaseKeepsStarts(bs: seq<Block>, i: int)
    requires 0 <= i < |bs| && forall j :: 0 <= j < |bs| ==> bs[j].start > 0
    ensures forall j :: 0 <= j < |Release(bs, i)| ==> Release(bs, i)[j].start > 0
  {
    var b0 := bs[i := bs[i].(used := false)];
    var b1 := if i + 1 < |b0| && !b0[i + 1].used then Merge(b0, i) else b0;
    assert forall j :: 0 <= j < |b1| ==> b1[j].start > 0;
  }

  /** After any run, in either layout: a request fails exactly when no free block fits, changing
      nothing, and is otherwise served from the first of the smallest that do. */
  lemma KmallocServesSmallestFit(layout: Layout, calls: seq<Call>, size: u32)
    requires size > 0
    ensures var h := Exec(layout, calls).heap;
            var a := Kmalloc(layout, h, size);
            && (a.ptr == 0 <==> forall i :: 0 <= i < |h.blocks| ==> !Fits(h.blocks[i], Round4(size)))
            && (a.ptr == 0 ==> a.heap == h)
            && (a.ptr != 0 ==> exists k :: 0 <= k < |h.blocks| && IsBestFit(h.blocks, Round4(size), k) && a.ptr == h.blocks[k].start)
  {
    StartsArePositive(layout, calls);
    ServedIsSmallestFit(layout, Exec(layout, calls).heap, size);
  }

  lemma ServedIsSmallestFit(layout: Layout, h: State, size: u32)
    requires size > 0 && forall i :: 0 <= i < |h.blocks| ==> h.blocks[i].start > 0
    ensures var a, k := Kmalloc(layout, h, size), BestFit(h.blocks, Round4(size));
            && IsBestFit(h.blocks, Round4(size), k)
            && (if k == -1 then a == Allocation(h, 0) else a.ptr == h.blocks[k].start > 0)
  {
    var k := BestFit(h.blocks, Round4(size));
    if k != -1 { assert Take(layout, h.blocks, k, Round4(size))[k].start == h.blocks[k].start; }
  }

  // ----- runs that fail

  /** Two blocks, the first of them freed and then freed again. */
  lemma DoubleFreeMiscounts(layout: Layout, n: u32, first: int)
    requires 4 <= n <= 0x1000 && first == HEAP_START + HEADER
    ensures !AlwaysCounted(layout, [Malloc(n)] + [Malloc(n)] + [Free(first)] + [Free(first)])
  {
    var none: seq<Call> := [];
    ExecSnoc(layout, none, Malloc(n));
    ExecSnoc(layout, [Malloc(n)], Malloc(n));
    ExecSnoc(layout, [Malloc(n)] + [Malloc(n)], Free(first));
    var three := [Malloc(n)] + [Malloc(n)] + [Free(first)];
    assert none + [Malloc(n)] == [Malloc(n)];
    SecondFreeIsDouble(layout, n, Exec(layout, none), first);
    RunsThatFreeOnceCount(layout, three + [Free(first)]);
    assert (three + [Free(first)])[..3] == three;
  }

  lemma FirstOfTwo(layout: Layout, r: Run, n: u32, b: Block)
    requires 4 <= n <= 0x1000 && r.heap.blocks == [b] && !b.used && 0x10000 < b.size < 0xFFFF_FFFF
    ensures var after := Apply(layout, r, Malloc(n)).heap.blocks;
            |after| == 2 && after[0] == b.(size := Round4(n), used := true) && !after[1].used
            && after[1].size == b.size - Round4(n) - HEADER
  {
    assert BestFit([b], Round4(n)) == 0 by { assert [b][..0] == []; }
  }

  lemma SecondOfTwo(layout: Layout, r: Run, n: u32, b: Block, c: Block)
    requires 4 <= n <= 0x1000 && r.heap.blocks == [b, c] && b.used && !c.used && 0x8000 < c.size < 0xFFFF_FFFF
    ensures var after := Apply(layout, r, Malloc(n)).heap.blocks;
            |after| == 3 && after[0] == b && after[1].used
  {
    assert Fits(c, Round4(n));
    assert [b, c][1] == c;
    assert BestFit([b, c], Round4(n)) == 1;
  }

  lemma SecondFreeIsDouble(layout: Layout, n: u32, r: Run, first: int)
    requires 4 <= n <= 0x1000 && r.heap == Init() && first == HEAP_START + HEADER
    ensures var m := Malloc(n);
            IsDoubleFree(Apply(layout, Apply(layout, Apply(layout, r, m), m), Free(first)).heap, Free(first))
  {
    var b := Init().blocks[0];
    FirstOfTwo(layout, r, n, b);
    var one := Apply(layout, r, Malloc(n));
    SecondOfTwo(layout, one, n, one.heap.blocks[0], one.heap.blocks[1]);
    var two := Apply(layout, one, Malloc(n));
    assert Find(two.heap.blocks, first) == 0;
    var freed := Release(two.heap.blocks, 0);
    assert freed == two.heap.blocks[0 := two.heap.blocks[0].(used := false)];
    assert Find(freed, first) == 0;
  }

  /** A request within three bytes of 2^32 is granted, and nothing is reserved for it. */
  lemma HugeRequestGetsNothing(layout: Layout, size: u32)
    requires size > 0xFFFF_FFFC
    ensures var a := Kmalloc(layout, Init(), size);
            a.ptr == HEAP_START + HEADER && a.heap.blocks[0].start == a.ptr && a.heap.blocks[0].used && a.heap.blocks[0].size == 0
  {
    var b := Init().blocks[0];
    assert BestFit([b], 0) == 0 by { assert [b][..0] == []; }
  }
}
