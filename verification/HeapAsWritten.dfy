/** The layout that `kmalloc` literally makes: when it keeps payloads apart, and a run in which it
    does not. What is said of this layout is about payloads only: every split-off descriptor lies
    under its own payload, and the model keeps descriptors out of reach of the bytes clients write. */
module HeapAsWritten {
  import opened Words
  import opened Heap
  import opened HeapSafety

  /** Payloads in list order do not run into one another. */
  ghost predicate Separated(bs: seq<Block>) {
    forall i {:trigger End(bs[i])} :: 0 <= i < |bs| - 1 ==> End(bs[i]) <= bs[i + 1].start
  }

  /** Spare bytes between a block's payload and the payload of the next. */
  function Slack(bs: seq<Block>, i: int): int
    requires 0 <= i < |bs| - 1
  {
    bs[i + 1].start - End(bs[i])
  }

  lemma TakeKeepsSeparated(layout: Layout, bs: seq<Block>, k: int, size: u32)
    requires Separated(bs) && 0 <= k < |bs| && bs[k].size >= size
    ensures Separated(Take(layout, bs, k, size))
    ensures |Take(layout, bs, k, size)| > |bs| ==> Slack(Take(layout, bs, k, size), k) == Gap(layout)
  {
    var ts := Take(layout, bs, k, size);
    forall i {:trigger End(ts[i])} | 0 <= i < |ts| - 1
      ensures End(ts[i]) <= ts[i + 1].start
    {
      var d := |ts| - |bs|;
      if i < k { assert End(bs[i]) <= bs[i + 1].start; }
      else if i > k || d == 0 { assert End(bs[i - d]) <= bs[i - d + 1].start; }
    }
  }

  /** Coalescing credits a descriptor's bytes to the payload. Payloads stay apart exactly when the
      gaps around the swallowed block hold those bytes, or nothing follows it. */
  lemma MergeStaysSeparated(bs: seq<Block>, i: int)
    requires Separated(bs) && 0 <= i < |bs| - 1
    ensures Separated(Merge(bs, i)) <==> i + 2 == |bs| || Slack(bs, i) + Slack(bs, i + 1) >= HEADER
  {
    var ms := Merge(bs, i);
    if i + 2 < |bs| { assert End(ms[i]) <= ms[i + 1].start <==> Slack(bs, i) + Slack(bs, i + 1) >= HEADER; }
    forall j {:trigger End(ms[j])} | 0 <= j < |ms| - 1 && j != i
      ensures End(ms[j]) <= ms[j + 1].start
    {
      if j < i { assert End(bs[j]) <= bs[j + 1].start; } else { assert End(bs[j + 1]) <= bs[j + 2].start; }
    }
  }

  /** In the intended layout the gap is always one descriptor, so coalescing never overlaps. */
  lemma TiledIsSeparated(bs: seq<Block>)
    requires Tiled(bs)
    ensures Separated(bs)
    ensures forall i {:trigger Slack(bs, i)} :: 0 <= i < |bs| - 1 ==> Slack(bs, i) == HEADER
  {
    forall i {:trigger End(bs[i])} | 0 <= i < |bs| - 1
      ensures bs[i + 1].start - End(bs[i]) == HEADER
    {
      assert bs[i + 1].addr == End(bs[i]);
    }
  }

  // ----- frees

  /** The free blocks that freeing block i joins, from the first to the last. */
  function First(bs: seq<Block>, i: int): (lo: int)
    requires 0 <= i < |bs|
    ensures 0 <= lo <= i
  {
    if i > 0 && !bs[i - 1].used then i - 1 else i
  }

  function Last(bs: seq<Block>, i: int): (hi: int)
    requires 0 <= i < |bs|
    ensures i <= hi < |bs|
  {
    if i + 1 < |bs| && !bs[i + 1].used then i + 1 else i
  }

  /** Spare bytes in the gaps from behind block lo to behind block hi. */
  function SlackOver(bs: seq<Block>, lo: int, hi: int): int
    requires 0 <= lo <= hi < |bs| - 1
    decreases hi - lo
  {
    Slack(bs, hi) + if lo == hi then 0 else SlackOver(bs, lo, hi - 1)
  }

  /** What a free needs: nothing behind the blocks it joins, or one descriptor's worth of spare bytes
      in and behind them for every merge. */
  predicate HasRoom(bs: seq<Block>, i: int)
    requires 0 <= i < |bs|
  {
    var lo, hi := First(bs, i), Last(bs, i);
    hi == |bs| - 1 || SlackOver(bs, lo, hi) >= HEADER * (hi - lo)
  }

  function SizeOver(bs: seq<Block>, lo: int, hi: int): int
    requires 0 <= lo <= hi < |bs|
    decreases hi - lo
  {
    bs[hi].size + if lo == hi then 0 else SizeOver(bs, lo, hi - 1)
  }

  lemma {:induction false} Telescopes(bs: seq<Block>, lo: int, hi: int)
    requires 0 <= lo <= hi < |bs| - 1
    ensures SizeOver(bs, lo, hi) + SlackOver(bs, lo, hi) == bs[hi + 1].start - bs[lo].start
    decreases hi - lo
  {
    if lo < hi { Telescopes(bs, lo, hi - 1); }
  }

  /** The one block that takes the place of those a free joins. */
  function Joined(bs: seq<Block>, i: int): Block
    requires 0 <= i < |bs|
  {
    var lo, hi := First(bs, i), Last(bs, i);
    bs[lo].(size := SizeOver(bs, lo, hi) + HEADER * (hi - lo), used := false)
  }

  lemma MergeIsOneBlock(b: seq<Block>, i: int, a: seq<Block>, m: Block, n: Block, z: seq<Block>)
    requires b == a + [m, n] + z && i == |a|
    ensures Merge(b, i) == a + [m.(size := m.size + n.size + HEADER)] + z
  {
    assert b[..i] == a && b[i + 2..] == z;
  }

  /** The block being freed, after the merge with the one behind it. */
  function Grown(bs: seq<Block>, i: int): Block
    requires 0 <= i < |bs|
  {
    bs[i].(size := bs[i].size + (if Last(bs, i) > i then bs[i + 1].size + HEADER else 0), used := false)
  }

  lemma FirstMerge(bs: seq<Block>, i: int)
    requires 0 <= i < |bs|
    ensures var b0 := bs[i := bs[i].(used := false)];
            (if i + 1 < |b0| && !b0[i + 1].used then Merge(b0, i) else b0) == bs[..i] + [Grown(bs, i)] + bs[Last(bs, i) + 1..]
  {
    var m := bs[i].(used := false);
    var b0 := bs[i := m];
    if Last(bs, i) > i {
      assert b0 == bs[..i] + [m, bs[i + 1]] + bs[i + 2..];
      MergeIsOneBlock(b0, i, bs[..i], m, bs[i + 1], bs[i + 2..]);
    }
  }

  lemma SecondMerge(bs: seq<Block>, i: int, a: seq<Block>, z: seq<Block>, b1: seq<Block>)
    requires 0 <= i < |bs| && a == bs[..First(bs, i)] && b1 == bs[..i] + [Grown(bs, i)] + z
    ensures (if i > 0 && !b1[i - 1].used then Merge(b1, i - 1) else b1) == a + [Joined(bs, i)] + z
  {
    var lo, g := First(bs, i), Grown(bs, i);
    JoinedInSteps(bs, i);
    if i > 0 { assert b1[i - 1] == bs[i - 1]; }
    if lo < i {
      assert b1 == a + [bs[lo], g] + z;
      MergeIsOneBlock(b1, lo, a, bs[lo], g, z);
    }
  }

  /** `kfree`'s two merges come to one replacement. */
  lemma ReleaseJoins(bs: seq<Block>, i: int)
    requires 0 <= i < |bs|
    ensures Release(bs, i) == bs[..First(bs, i)] + [Joined(bs, i)] + bs[Last(bs, i) + 1..]
  {
    var z := bs[Last(bs, i) + 1..];
    FirstMerge(bs, i);
    SecondMerge(bs, i, bs[..First(bs, i)], z, bs[..i] + [Grown(bs, i)] + z);
  }

  lemma JoinedInSteps(bs: seq<Block>, i: int)
    requires 0 <= i < |bs|
    ensures var lo, g := First(bs, i), Grown(bs, i);
            Joined(bs, i) == if lo < i then bs[lo].(size := bs[lo].size + g.size + HEADER) else g
  {
    var lo, hi := First(bs, i), Last(bs, i);
    assert hi > i ==> SizeOver(bs, lo, hi) == bs[hi].size + SizeOver(bs, lo, i);
    assert lo < i ==> SizeOver(bs, lo, i) == bs[i].size + SizeOver(bs, lo, lo);
  }

  /** Freeing keeps payloads apart exactly when it has that room. */
  lemma ReleaseStaysSeparated(bs: seq<Block>, i: int)
    requires Separated(bs) && 0 <= i < |bs|
    ensures Separated(Release(bs, i)) <==> HasRoom(bs, i)
  {
    ReleaseJoins(bs, i);
    if Last(bs, i) < |bs| - 1 { Telescopes(bs, First(bs, i), Last(bs, i)); }
    ReplacementSeparates(bs, First(bs, i), Last(bs, i), Joined(bs, i));
  }

  lemma ReplacementSeparates(bs: seq<Block>, lo: int, hi: int, m: Block)
    requires Separated(bs) && 0 <= lo <= hi < |bs| && m.start == bs[lo].start
    ensures Separated(bs[..lo] + [m] + bs[hi + 1..]) <==> hi == |bs| - 1 || End(m) <= bs[hi + 1].start
  {
    var r := bs[..lo] + [m] + bs[hi + 1..];
    if hi < |bs| - 1 { assert End(r[lo]) <= r[lo + 1].start <==> End(m) <= bs[hi + 1].start; }
    forall j {:trigger End(r[j])} | 0 <= j < |r| - 1 && j != lo
      ensures End(r[j]) <= r[j + 1].start
    {
      if j < lo { assert End(bs[j]) <= bs[j + 1].start; }
      else { assert End(bs[j + (hi - lo)]) <= bs[j + (hi - lo) + 1].start; }
    }
  }

  // ----- runs

  /** What a caller of `kfree` would have to check. */
  predicate FreeHasRoom(h: State, c: Call) {
    c.Free? && c.ptr != 0 && Find(h.blocks, c.ptr) != -1 ==> HasRoom(h.blocks, Find(h.blocks, c.ptr))
  }

  lemma CallStaysSeparated(layout: Layout, r: Run, c: Call)
    requires Separated(r.heap.blocks)
    ensures Separated(Apply(layout, r, c).heap.blocks) <==> FreeHasRoom(r.heap, c)
  {
    var bs := r.heap.blocks;
    match c
    case Malloc(size) =>
      var k := BestFit(bs, Round4(size));
      if size != 0 && k != -1 { TakeKeepsSeparated(layout, bs, k, Round4(size)); }
    case Free(ptr) =>
      if ptr != 0 && Find(bs, ptr) != -1 { ReleaseStaysSeparated(bs, Find(bs, ptr)); }
  }

  ghost predicate AlwaysSeparated(layout: Layout, calls: seq<Call>) {
    Separated(Exec(layout, calls).heap.blocks) && (calls == [] || AlwaysSeparated(layout, calls[..|calls| - 1]))
  }

  ghost predicate EveryFreeHasRoom(layout: Layout, calls: seq<Call>) {
    calls == [] ||
    (EveryFreeHasRoom(layout, calls[..|calls| - 1])
     && FreeHasRoom(Exec(layout, calls[..|calls| - 1]).heap, calls[|calls| - 1]))
  }

  /** Over a whole run payloads stay apart throughout exactly when every free had room. */
  lemma {:induction false} SeparationOverRuns(layout: Layout, calls: seq<Call>)
    ensures AlwaysSeparated(layout, calls) <==> EveryFreeHasRoom(layout, calls)
  {
    if calls != [] {
      var before := calls[..|calls| - 1];
      SeparationOverRuns(layout, before);
      if AlwaysSeparated(layout, before) { CallStaysSeparated(layout, Exec(layout, before), calls[|calls| - 1]); }
    }
  }

  /** In the layout that was meant every free has room. */
  lemma HeaderFirstAlwaysHasRoom(calls: seq<Call>)
    ensures EveryFreeHasRoom(HeaderFirst, calls)
    decreases |calls|
  {
    SeparationOverRuns(HeaderFirst, calls);
    if calls != [] {
      var before := calls[..|calls| - 1];
      HeaderFirstAlwaysHasRoom(before);
      SeparationOverRuns(HeaderFirst, before);
      EveryRunIsSafe(before);
      EveryRunIsSafe(calls);
      TiledIsSeparated(Exec(HeaderFirst, calls).heap.blocks);
      TiledIsSeparated(Exec(HeaderFirst, before).heap.blocks);
      CallStaysSeparated(HeaderFirst, Exec(HeaderFirst, before), calls[|calls| - 1]);
    }
  }

  // ----- what separation gives clients

  ghost predicate Apart(r: Run) {
    && Separated(r.heap.blocks) && Balanced(r.heap)
    && (forall i :: 0 <= i < |r.heap.blocks| ==> r.heap.blocks[i].size > 0)
    && (forall p :: p in r.live ==> Holds(r.heap.blocks, p, Promised(r.live[p])))
    && !r.reused
  }

  lemma {:induction false} PayloadsInOrder(bs: seq<Block>, i: int, j: int)
    requires Separated(bs) && 0 <= i < j < |bs| && forall k :: 0 <= k < |bs| ==> bs[k].size > 0
    ensures End(bs[i]) <= bs[j].start && bs[i].start < bs[j].start
  {
    if i + 1 < j {
      PayloadsInOrder(bs, i, j - 1);
      assert End(bs[j - 1]) <= bs[j].start;
    } else {
      assert End(bs[i]) <= bs[i + 1].start;
    }
  }

  /** A request that rounds up without wrapping. */
  predicate Ordinary(c: Call) {
    c.Malloc? ==> c.size <= 0xFFFF_FFFC
  }

  lemma FreeStartIsUnheld(r: Run, k: int, p: int)
    requires Apart(r) && 0 <= k < |r.heap.blocks| && !r.heap.blocks[k].used && p in r.live
    ensures p != r.heap.blocks[k].start
  {
    var bs := r.heap.blocks;
    var i :| 0 <= i < |bs| && bs[i].used && bs[i].start == p && bs[i].size >= Promised(r.live[p]);
    if i < k { PayloadsInOrder(bs, i, k); } else { PayloadsInOrder(bs, k, i); }
  }

  lemma TakeKeepsLive(layout: Layout, r: Run, k: int, size: u32)
    requires Apart(r) && 0 <= k < |r.heap.blocks| && !r.heap.blocks[k].used
    ensures forall p :: p in r.live ==>
              p != r.heap.blocks[k].start && Holds(Take(layout, r.heap.blocks, k, size), p, Promised(r.live[p]))
  {
    forall p | p in r.live
      ensures p != r.heap.blocks[k].start && Holds(Take(layout, r.heap.blocks, k, size), p, Promised(r.live[p]))
    {
      FreeStartIsUnheld(r, k, p);
      TakeKeepsHolds(layout, r.heap.blocks, k, size, p, Promised(r.live[p]));
    }
  }

  lemma MallocKeepsApart(layout: Layout, r: Run, size: u32)
    requires Apart(r) && Ordinary(Malloc(size))
    ensures Apart(Apply(layout, r, Malloc(size)))
  {
    var bs := r.heap.blocks;
    var k := BestFit(bs, Round4(size));
    CallKeepsBooks(layout, r, Malloc(size));
    if size != 0 && k != -1 {
      TakeKeepsSeparated(layout, bs, k, Round4(size));
      HonoursOrdinary(layout, r.heap, size);
      TakeKeepsLive(layout, r, k, Round4(size));
    }
  }

  lemma HonoursOrdinary(layout: Layout, h: State, size: u32)
    requires 0 < size <= 0xFFFF_FFFC && BestFit(h.blocks, Round4(size)) != -1
    requires forall i :: 0 <= i < |h.blocks| ==> h.blocks[i].size > 0
    ensures var a := Kmalloc(layout, h, size);
            && Holds(a.heap.blocks, a.ptr, size)
            && a.ptr == h.blocks[BestFit(h.blocks, Round4(size))].start
            && forall i :: 0 <= i < |a.heap.blocks| ==> a.heap.blocks[i].size > 0
  {
    var k := BestFit(h.blocks, Round4(size));
    var ts := Take(layout, h.blocks, k, Round4(size));
    assert Round4(size) >= size;
    assert ts[k].used && ts[k].start == h.blocks[k].start && ts[k].size >= size;
  }

  lemma FreeKeepsApart(layout: Layout, r: Run, ptr: int)
    requires Apart(r) && FreeHasRoom(r.heap, Free(ptr))
    ensures Apart(Apply(layout, r, Free(ptr)))
  {
    var bs, i := r.heap.blocks, Find(r.heap.blocks, ptr);
    CallKeepsBooks(layout, r, Free(ptr));
    CallStaysSeparated(layout, r, Free(ptr));
    if ptr != 0 && i != -1 {
      ReleaseKeepsPositive(bs, i);
      forall p | p in r.live - {ptr}
        ensures Holds(Release(bs, i), p, Promised(r.live[p]))
      {
        ReleaseKeepsHolds(bs, i, p, Promised(r.live[p]));
      }
    }
  }

  lemma ReleaseKeepsPositive(bs: seq<Block>, i: int)
    requires 0 <= i < |bs| && forall j :: 0 <= j < |bs| ==> bs[j].size > 0
    ensures forall j :: 0 <= j < |Release(bs, i)| ==> Release(bs, i)[j].size > 0
  {
    var b0 := bs[i := bs[i].(used := false)];
    var b1 := if i + 1 < |b0| && !b0[i + 1].used then Merge(b0, i) else b0;
    assert forall j :: 0 <= j < |b1| ==> b1[j].size > 0;
  }

  lemma {:induction false} SeparatedRunsAreApart(layout: Layout, calls: seq<Call>)
    requires EveryFreeHasRoom(layout, calls) && forall i :: 0 <= i < |calls| ==> Ordinary(calls[i])
    ensures Apart(Exec(layout, calls))
  {
    if calls == [] {
      InitIsBalanced();
    } else {
      var before := calls[..|calls| - 1];
      assert forall i :: 0 <= i < |before| ==> before[i] == calls[i];
      SeparatedRunsAreApart(layout, before);
      match calls[|calls| - 1]
      case Malloc(size) => MallocKeepsApart(layout, Exec(layout, before), size);
      case Free(ptr) => FreeKeepsApart(layout, Exec(layout, before), ptr);
    }
  }

  /** When the code as written is safe: in a run whose frees all have room, and whose requests round up
      without wrapping, the regions clients hold are as large as asked and apart, and each pointer has
      one holder. */
  lemma RunsWithRoomAreSafe(layout: Layout, calls: seq<Call>)
    requires EveryFreeHasRoom(layout, calls) && forall i :: 0 <= i < |calls| ==> Ordinary(calls[i])
    ensures var r := Exec(layout, calls);
            && !r.reused
            && (forall p :: p in r.live ==> Holds(r.heap.blocks, p, Promised(r.live[p])))
            && (forall p, q :: p in r.live && q in r.live && p != q ==>
                  p + Promised(r.live[p]) <= q || q + Promised(r.live[q]) <= p)
  {
    var r := Exec(layout, calls);
    SeparatedRunsAreApart(layout, calls);
    forall p, q | p in r.live && q in r.live && p != q
      ensures p + Promised(r.live[p]) <= q || q + Promised(r.live[q]) <= p
    {
      ApartRegionsAreDisjoint(r, p, q);
    }
  }

  lemma ApartRegionsAreDisjoint(r: Run, p: int, q: int)
    requires Apart(r) && p in r.live && q in r.live && p != q
    ensures p + Promised(r.live[p]) <= q || q + Promised(r.live[q]) <= p
  {
    var bs := r.heap.blocks;
    var i :| 0 <= i < |bs| && bs[i].used && bs[i].start == p && bs[i].size >= Promised(r.live[p]);
    var j :| 0 <= j < |bs| && bs[j].used && bs[j].start == q && bs[j].size >= Promised(r.live[q]);
    if i < j { PayloadsInOrder(bs, i, j); } else { PayloadsInOrder(bs, j, i); }
  }

  // ----- a run without room

  function Overlapping(): seq<Call> {
    [Malloc(16), Malloc(16), Malloc(16), Free(HEAP_START + 32), Free(HEAP_START + 16), Malloc(48)]
  }

  /** The n-th 16-byte block of the witness run, and the free rest behind it. */
  function Piece(n: int, used: bool): Block {
    var at := HEAP_START + 16 + 16 * n;
    Block(if n == 0 then HEAP_START else at, at, 16, used)
  }

  function Rest(n: int): Block {
    var at := HEAP_START + 16 + 16 * n;
    Block(if n == 0 then HEAP_START else at, at, HEAP_END - HEAP_START - HEADER - 32 * n, false)
  }

  lemma CarveOne(r: Run, n: int)
    requires 0 <= n < 3 && |r.heap.blocks| == n + 1 && r.heap.blocks[n] == Rest(n)
    requires forall i :: 0 <= i < n ==> r.heap.blocks[i].used
    ensures var a := Apply(AsWritten, r, Malloc(16));
            && a.heap.blocks == r.heap.blocks[..n] + [Piece(n, true), Rest(n + 1)]
            && Rest(n).start in a.live && a.live[Rest(n).start] == 16
  {
    var bs := r.heap.blocks;
    assert Round4(16) == 16 && Fits(bs[n], 16);
    assert BestFit(bs, 16) == n;
    var cs := Cut(AsWritten, bs, n, 16);
    assert cs[n] == Piece(n, false) && cs[n + 1] == Rest(n + 1);
    assert Take(AsWritten, bs, n, 16) == cs[n := Piece(n, true)];
    assert cs[n := Piece(n, true)] == bs[..n] + [Piece(n, true), Rest(n + 1)];
  }

  lemma FreeTwo(r: Run)
    requires r.heap.blocks == [Piece(0, true), Piece(1, true), Piece(2, true), Rest(3)]
    ensures var a := Apply(AsWritten, Apply(AsWritten, r, Free(HEAP_START + 32)), Free(HEAP_START + 16));
            && a.heap.blocks == [Piece(0, false).(size := 48), Piece(2, true), Rest(3)]
            && (HEAP_START + 48 in r.live ==> HEAP_START + 48 in a.live && a.live[HEAP_START + 48] == r.live[HEAP_START + 48])
  {
    var b := [Piece(0, true), Piece(1, false), Piece(2, true), Rest(3)];
    assert Find(r.heap.blocks, HEAP_START + 32) == 1;
    assert r.heap.blocks[1 := Piece(1, false)] == b;
    assert Release(r.heap.blocks, 1) == b;
    assert Find(b, HEAP_START + 16) == 0;
    assert b[0 := Piece(0, false)] == [Piece(0, false), Piece(1, false), Piece(2, true), Rest(3)];
    assert Merge([Piece(0, false), Piece(1, false), Piece(2, true), Rest(3)], 0) == [Piece(0, false).(size := 48), Piece(2, true), Rest(3)];
  }

  function Pieces(n: nat): seq<Block> {
    if n == 0 then [] else Pieces(n - 1) + [Piece(n - 1, true)]
  }

  /** n used pieces, the last of which a client holds, and the rest. */
  ghost predicate Carved(r: Run, n: nat) {
    r.heap.blocks == Pieces(n) + [Rest(n)]
    && (n > 0 ==> Rest(n - 1).start in r.live && r.live[Rest(n - 1).start] == 16)
  }

  lemma {:induction false} PiecesAreUsed(n: nat)
    ensures |Pieces(n)| == n && forall i :: 0 <= i < n ==> Pieces(n)[i].used
  {
    if n > 0 { PiecesAreUsed(n - 1); }
  }

  lemma CarveNext(r: Run, n: nat)
    requires n < 3 && Carved(r, n)
    ensures Carved(Apply(AsWritten, r, Malloc(16)), n + 1)
  {
    PiecesAreUsed(n);
    CarveOne(r, n);
    assert r.heap.blocks[..n] == Pieces(n);
    assert Pieces(n) + [Piece(n, true), Rest(n + 1)] == Pieces(n) + [Piece(n, true)] + [Rest(n + 1)];
  }

  lemma ThreePieces(r: Run)
    requires Carved(r, 3)
    ensures r.heap.blocks == [Piece(0, true), Piece(1, true), Piece(2, true), Rest(3)]
    ensures HEAP_START + 48 in r.live && r.live[HEAP_START + 48] == 16
  {
    assert Pieces(1) == [Piece(0, true)] && Pieces(2) == [Piece(0, true), Piece(1, true)];
  }

  lemma ServeAgain(r: Run)
    requires r.heap.blocks == [Piece(0, false).(size := 48), Piece(2, true), Rest(3)]
    ensures Apply(AsWritten, r, Malloc(48)).live == r.live[HEAP_START + 16 := 48]
  {
    var bs := r.heap.blocks;
    assert Fits(bs[0], 48) && bs[2].size > bs[0].size && !Fits(bs[1], 48);
    assert BestFit(bs, 48) == 0;
  }

  lemma LastThree(r: Run)
    requires r.heap.blocks == [Piece(0, true), Piece(1, true), Piece(2, true), Rest(3)]
    requires HEAP_START + 48 in r.live && r.live[HEAP_START + 48] == 16
    ensures var live := Apply(AsWritten, Apply(AsWritten, Apply(AsWritten, r, Free(HEAP_START + 32)), Free(HEAP_START + 16)), Malloc(48)).live;
            && HEAP_START + 16 in live && live[HEAP_START + 16] == 48
            && HEAP_START + 48 in live && live[HEAP_START + 48] == 16
  {
    FreeTwo(r);
    ServeAgain(Apply(AsWritten, Apply(AsWritten, r, Free(HEAP_START + 32)), Free(HEAP_START + 16)));
  }

  lemma ExecThreeMore(layout: Layout, calls: seq<Call>, c: Call, d: Call, e: Call)
    ensures Exec(layout, calls + [c] + [d] + [e]) == Apply(layout, Apply(layout, Apply(layout, Exec(layout, calls), c), d), e)
  {
    ExecSnoc(layout, calls, c);
    ExecSnoc(layout, calls + [c], d);
    ExecSnoc(layout, calls + [c] + [d], e);
  }

  /** With the assignment as written, A, B, C, free B, free A, and a request that A's merged block
      serves: the new payload covers the start of C, which is still held. */
  lemma AsWrittenOverlaps(calls: seq<Call>)
    requires calls == Overlapping()
    ensures var live := Exec(AsWritten, calls).live;
            var a := HEAP_START + 16;
            var c := HEAP_START + 48;
            a in live && c in live && live[a] == 48 && live[c] == 16 && a < c < a + 48
  {
    var three := calls[..3];
    assert three == [] + [calls[0]] + [calls[1]] + [calls[2]] && calls == three + [calls[3]] + [calls[4]] + [calls[5]];
    ExecThreeMore(AsWritten, [], calls[0], calls[1], calls[2]);
    ExecThreeMore(AsWritten, three, calls[3], calls[4], calls[5]);
    var r := Exec(AsWritten, []);
    assert Carved(r, 0);
    CarveNext(r, 0);
    CarveNext(Apply(AsWritten, r, calls[0]), 1);
    CarveNext(Apply(AsWritten, Apply(AsWritten, r, calls[0]), calls[1]), 2);
    ThreePieces(Exec(AsWritten, three));
    LastThree(Exec(AsWritten, three));
  }
}
