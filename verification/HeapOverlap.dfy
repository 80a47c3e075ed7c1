/** A free without room is never harmless: requests alone then make two clients' regions overlap. */
module HeapOverlap {
  import opened Words
  import opened Heap
  import opened HeapSafety
  import opened HeapAsWritten

  /** Every used block is one that a client holds. */
  ghost predicate Held(r: Run) {
    forall i :: 0 <= i < |r.heap.blocks| && r.heap.blocks[i].used ==> r.heap.blocks[i].start in r.live
  }

  /** Every used block is held, and by none that holds `ptr`. */
  ghost predicate HeldBut(bs: seq<Block>, live: map<int, u32>, ptr: int) {
    forall j :: 0 <= j < |bs| && bs[j].used ==> bs[j].start in live && bs[j].start != ptr
  }

  ghost predicate Worded(bs: seq<Block>) {
    forall i :: 0 <= i < |bs| ==> bs[i].size % 4 == 0
  }

  ghost predicate OrdinaryRun(layout: Layout, calls: seq<Call>) {
    EveryFreeHasRoom(layout, calls) && forall i :: 0 <= i < |calls| ==> Ordinary(calls[i])
  }

  lemma OrdinarySnoc(layout: Layout, calls: seq<Call>, c: Call)
    ensures OrdinaryRun(layout, calls + [c]) <==> OrdinaryRun(layout, calls) && FreeHasRoom(Exec(layout, calls).heap, c) && Ordinary(c)
  {
    var all := calls + [c];
    assert all[..|all| - 1] == calls && all[|calls|] == c;
    if OrdinaryRun(layout, all) {
      assert forall i :: 0 <= i < |calls| ==> calls[i] == all[i];
    }
  }

  lemma MallocKeepsHeld(layout: Layout, r: Run, size: u32)
    requires Held(r) && Worded(r.heap.blocks) && forall i :: 0 <= i < |r.heap.blocks| ==> r.heap.blocks[i].start > 0
    ensures Held(Apply(layout, r, Malloc(size))) && Worded(Apply(layout, r, Malloc(size)).heap.blocks)
  {
    var bs, k := r.heap.blocks, BestFit(r.heap.blocks, Round4(size));
    if size != 0 && k != -1 {
      var ts := Take(layout, bs, k, Round4(size));
      var d := |ts| - |bs|;
      assert ts[k].start == bs[k].start > 0;
      forall i | 0 <= i < |ts| && ts[i].used
        ensures ts[i].start in r.live || i == k
      {
        if i != k { assert ts[i] == bs[if i < k then i else i - d]; }
      }
      TakeKeepsWorded(layout, bs, k, Round4(size));
    }
  }

  lemma TakeKeepsWorded(layout: Layout, bs: seq<Block>, k: int, size: u32)
    requires 0 <= k < |bs| && Worded(bs) && size % 4 == 0
    ensures Worded(Take(layout, bs, k, size))
  {
    assert Worded(Cut(layout, bs, k, size)) by {
      assert (bs[k].size - size - HEADER) % 4 == 0;
    }
  }

  lemma {:induction false} SizesOverWorded(bs: seq<Block>, lo: int, hi: int)
    requires 0 <= lo <= hi < |bs| && Worded(bs)
    ensures SizeOver(bs, lo, hi) % 4 == 0
    decreases hi - lo
  {
    if lo < hi { SizesOverWorded(bs, lo, hi - 1); }
  }

  lemma JoinedItself(bs: seq<Block>, i: int)
    requires 0 <= i < |bs|
    ensures First(bs, i) < |Release(bs, i)| && Release(bs, i)[First(bs, i)] == Joined(bs, i)
  {
    ReleaseJoins(bs, i);
  }

  lemma StartsDiffer(bs: seq<Block>, i: int, k: int)
    requires Separated(bs) && 0 <= i < |bs| && 0 <= k < |bs| && k != i && forall j :: 0 <= j < |bs| ==> bs[j].size > 0
    ensures bs[i].start != bs[k].start
  {
    if k < i { PayloadsInOrder(bs, k, i); } else { PayloadsInOrder(bs, i, k); }
  }

  lemma JoinedIsWorded(bs: seq<Block>, i: int)
    requires 0 <= i < |bs| && Worded(bs)
    ensures Joined(bs, i).size % 4 == 0
  {
    var n := Last(bs, i) - First(bs, i);
    SizesOverWorded(bs, First(bs, i), Last(bs, i));
    WordsAdded(SizeOver(bs, First(bs, i), Last(bs, i)), 4 * n);
  }

  lemma WordsAdded(x: int, n: int)
    requires x % 4 == 0
    ensures (x + 4 * n) % 4 == 0
  {
  }

  /** A free block in place of those around block i, whose holder is gone. */
  lemma ReplacementKeepsHeld(bs: seq<Block>, i: int, lo: int, hi: int, m: Block, ts: seq<Block>, live: map<int, u32>)
    requires 0 <= lo <= i <= hi < |bs| && Worded(bs) && forall j :: 0 <= j < |bs| && j != i ==> bs[j].start != bs[i].start
    requires ts == bs[..lo] + [m] + bs[hi + 1..] && !m.used && m.size % 4 == 0
    requires forall j :: 0 <= j < |bs| && bs[j].used ==> bs[j].start in live
    ensures Worded(ts) && HeldBut(ts, live, bs[i].start)
  {
    forall j | 0 <= j < |ts| && j != lo
      ensures ts[j].size % 4 == 0
      ensures ts[j].used ==> ts[j].start in live && ts[j].start != bs[i].start
    {
      var k := if j < lo then j else j + (hi - lo);
      assert ts[j] == bs[k] && k != i;
    }
  }

  lemma FreeKeepsHeld(layout: Layout, r: Run, ptr: int)
    requires forall i, j :: 0 <= i < j < |r.heap.blocks| ==> r.heap.blocks[i].start != r.heap.blocks[j].start
    requires Held(r) && Worded(r.heap.blocks) && forall i :: 0 <= i < |r.heap.blocks| ==> r.heap.blocks[i].start > 0
    ensures Held(Apply(layout, r, Free(ptr))) && Worded(Apply(layout, r, Free(ptr)).heap.blocks)
  {
    var bs := r.heap.blocks;
    var i := Find(bs, ptr);
    if i != -1 {
      var lo, hi := First(bs, i), Last(bs, i);
      var ts := bs[..lo] + [Joined(bs, i)] + bs[hi + 1..];
      JoinedIsWorded(bs, i);
      ReplacementKeepsHeld(bs, i, lo, hi, Joined(bs, i), ts, r.live);
      HeldAfter(layout, r, i, ts);
    }
  }

  lemma ApartFreeKeepsHeld(layout: Layout, r: Run, ptr: int)
    requires Apart(r) && Held(r) && Worded(r.heap.blocks) && forall i :: 0 <= i < |r.heap.blocks| ==> r.heap.blocks[i].start > 0
    ensures Held(Apply(layout, r, Free(ptr))) && Worded(Apply(layout, r, Free(ptr)).heap.blocks)
  {
    var bs := r.heap.blocks;
    forall i, j | 0 <= i < j < |bs|
      ensures bs[i].start != bs[j].start
    {
      StartsDiffer(bs, i, j);
    }
    FreeKeepsHeld(layout, r, ptr);
  }

  lemma HeldAfter(layout: Layout, r: Run, i: int, ts: seq<Block>)
    requires 0 <= i < |r.heap.blocks| && i == Find(r.heap.blocks, r.heap.blocks[i].start) && r.heap.blocks[i].start > 0
    requires ts == r.heap.blocks[..First(r.heap.blocks, i)] + [Joined(r.heap.blocks, i)] + r.heap.blocks[Last(r.heap.blocks, i) + 1..]
    requires Worded(ts) && HeldBut(ts, r.live, r.heap.blocks[i].start)
    ensures var a := Apply(layout, r, Free(r.heap.blocks[i].start)); Held(a) && Worded(a.heap.blocks)
  {
    ReleaseJoins(r.heap.blocks, i);
    var a := Apply(layout, r, Free(r.heap.blocks[i].start));
    assert a.heap.blocks == ts && a.live == r.live - {r.heap.blocks[i].start};
  }

  lemma {:induction false} OrdinaryRunsAreHeld(layout: Layout, calls: seq<Call>)
    requires OrdinaryRun(layout, calls)
    ensures Held(Exec(layout, calls)) && Worded(Exec(layout, calls).heap.blocks)
  {
    if calls != [] {
      var before, last := calls[..|calls| - 1], calls[|calls| - 1];
      assert before + [last] == calls;
      OrdinarySnoc(layout, before, last);
      OrdinaryRunsAreHeld(layout, before);
      SeparatedRunsAreApart(layout, before);
      StartsArePositive(layout, before);
      match last
      case Malloc(size) => MallocKeepsHeld(layout, Exec(layout, before), size);
      case Free(ptr) => ApartFreeKeepsHeld(layout, Exec(layout, before), ptr);
    }
  }

  // ----- the block that a free without room leaves behind

  /** Block lo is free, and a client holds a pointer into its payload. */
  ghost predicate Covers(r: Run, lo: int, q: int) {
    var bs := r.heap.blocks;
    && 0 <= lo < |bs| && !bs[lo].used && bs[lo].start < q < End(bs[lo])
    && 0 < bs[lo].size <= 0xFFFF_FFFC && bs[lo].size % 4 == 0
    && q in r.live && forall i :: 0 <= i < |bs| ==> bs[i].start > 0
  }

  lemma FreeWithoutRoomCovers(layout: Layout, r: Run, ptr: int)
    requires Apart(r) && Held(r) && Worded(r.heap.blocks) && forall i :: 0 <= i < |r.heap.blocks| ==> r.heap.blocks[i].start > 0
    requires !FreeHasRoom(r.heap, Free(ptr))
    ensures exists lo, q :: Covers(Apply(layout, r, Free(ptr)), lo, q)
  {
    var bs := r.heap.blocks;
    var i := Find(bs, ptr);
    var lo, q, a := First(bs, i), bs[Last(bs, i) + 1].start, Apply(layout, r, Free(ptr));
    JoinedItself(bs, i);
    JoinedOutgrows(r.heap, i);
    NextIsHeld(r, i, ptr);
    ReleaseKeepsStarts(bs, i);
    assert a.heap.blocks[lo] == Joined(bs, i) && q in a.live;
    assert Covers(a, lo, q);
  }

  /** To have room is to end before the next payload. */
  lemma RoomMeans(bs: seq<Block>, i: int)
    requires 0 <= i < |bs| && Last(bs, i) < |bs| - 1
    ensures HasRoom(bs, i) <==> End(Joined(bs, i)) <= bs[Last(bs, i) + 1].start
  {
    Telescopes(bs, First(bs, i), Last(bs, i));
  }

  /** Without room, what takes the place of the joined blocks reaches into the next payload. */
  lemma JoinedOutgrows(h: State, i: int)
    requires Separated(h.blocks) && Balanced(h) && Worded(h.blocks)
    requires (forall j :: 0 <= j < |h.blocks| ==> h.blocks[j].size > 0) && 0 <= i < |h.blocks| && !HasRoom(h.blocks, i)
    ensures var bs, m := h.blocks, Joined(h.blocks, i);
            && m.start < bs[Last(bs, i) + 1].start < End(m)
            && 0 < m.size <= 0xFFFF_FFFC && m.size % 4 == 0
  {
    var bs := h.blocks;
    RoomMeans(bs, i);
    JoinedIsWorded(bs, i);
    PayloadsInOrder(bs, First(bs, i), Last(bs, i) + 1);
    JoinedFits(h, i);
  }

  lemma JoinedFits(h: State, i: int)
    requires Balanced(h) && 0 <= i < |h.blocks|
    ensures Joined(h.blocks, i).size <= HEAP_END - HEAP_START
  {
    ReleaseKeepsBalanced(h, i);
    JoinedItself(h.blocks, i);
    BlockWithinFootprint(Release(h.blocks, i), First(h.blocks, i));
  }

  /** Behind the blocks that a free joins comes one that another client holds. */
  lemma NextIsHeld(r: Run, i: int, ptr: int)
    requires Apart(r) && Held(r) && 0 <= i < |r.heap.blocks| && r.heap.blocks[i].start == ptr
    requires Last(r.heap.blocks, i) < |r.heap.blocks| - 1
    ensures var q := r.heap.blocks[Last(r.heap.blocks, i) + 1].start; q in r.live && q != ptr
  {
    var bs, hi := r.heap.blocks, Last(r.heap.blocks, i);
    assert bs[hi].used || bs[hi + 1].used;
    PayloadsInOrder(bs, i, hi + 1);
  }

  // ----- requests of exactly its size

  /** No region that a client holds runs into another. */
  ghost predicate NoOverlap(live: map<int, u32>) {
    forall p, q :: p in live && q in live && p != q ==> p + Promised(live[p]) <= q || q + Promised(live[q]) <= p
  }

  predicate OnlyRequests(calls: seq<Call>) {
    forall i :: 0 <= i < |calls| ==> calls[i].Malloc? && Ordinary(calls[i])
  }

  /** One request of the covering block's size goes to that block, or to one of the same size before
      it. */
  lemma ExactRequest(layout: Layout, r: Run, lo: int, q: int)
    requires Covers(r, lo, q)
    ensures var bs, s := r.heap.blocks, r.heap.blocks[lo].size;
            var k, a := BestFit(bs, s), Apply(layout, r, Malloc(s));
            && 0 <= k <= lo && a.heap.blocks == bs[k := bs[k].(used := true)]
            && a.live == r.live[bs[k].start := s]
  {
    var bs, s := r.heap.blocks, r.heap.blocks[lo].size;
    assert Round4(s) == s && Fits(bs[lo], s);
    assert Take(layout, bs, BestFit(bs, s), s)[BestFit(bs, s)].start == bs[BestFit(bs, s)].start;
  }

  lemma NextExactIsLater(bs: seq<Block>, s: u32, lo: int)
    requires 0 <= lo < |bs| && !bs[lo].used && bs[lo].size == s && BestFit(bs, s) < lo
    ensures var k := BestFit(bs, s); 0 <= k < BestFit(bs[k := bs[k].(used := true)], s) <= lo
  {
    var k := BestFit(bs, s);
    var ts := bs[k := bs[k].(used := true)];
    assert Fits(bs[lo], s) && Fits(ts[lo], s);
    var n := BestFit(ts, s);
    assert ts[n] == bs[n];
  }

  /** When the covering block is served, its region reaches over the pointer. */
  lemma ServedOverlaps(layout: Layout, r: Run, lo: int, q: int)
    requires Covers(r, lo, q) && BestFit(r.heap.blocks, r.heap.blocks[lo].size) == lo
    ensures !NoOverlap(Apply(layout, r, Malloc(r.heap.blocks[lo].size)).live)
  {
    var p, s := r.heap.blocks[lo].start, r.heap.blocks[lo].size;
    ExactRequest(layout, r, lo, q);
    var live := r.live[p := s];
    assert p in live && q in live && Promised(live[p]) == s;
  }

  lemma NextStillCovers(layout: Layout, r: Run, lo: int, q: int)
    requires Covers(r, lo, q) && BestFit(r.heap.blocks, r.heap.blocks[lo].size) != lo
    ensures var s := r.heap.blocks[lo].size;
            var a := Apply(layout, r, Malloc(s));
            && Covers(a, lo, q) && a.heap.blocks[lo].size == s
            && BestFit(r.heap.blocks, s) < BestFit(a.heap.blocks, s) <= lo
  {
    ExactRequest(layout, r, lo, q);
    NextExactIsLater(r.heap.blocks, r.heap.blocks[lo].size, lo);
  }

  lemma OneRequest(layout: Layout, calls: seq<Call>, r: Run, lo: int, q: int, m: Call) returns (next: Run)
    requires r == Exec(layout, calls) && Covers(r, lo, q) && m == Malloc(r.heap.blocks[lo].size)
    ensures next == Exec(layout, calls + [m])
    ensures if BestFit(r.heap.blocks, m.size) == lo then !NoOverlap(next.live)
            else Covers(next, lo, q) && next.heap.blocks[lo].size == m.size
                 && BestFit(r.heap.blocks, m.size) < BestFit(next.heap.blocks, m.size) <= lo
  {
    ExecSnoc(layout, calls, m);
    next := Apply(layout, r, m);
    if BestFit(r.heap.blocks, m.size) == lo { ServedOverlaps(layout, r, lo, q); } else { NextStillCovers(layout, r, lo, q); }
  }

  lemma Regroup(calls: seq<Call>, m: Call, more: seq<Call>)
    ensures calls + [m] + more == calls + ([m] + more)
    ensures OnlyRequests(more) && m.Malloc? && Ordinary(m) ==> OnlyRequests([m] + more)
  {
  }

  /** The region that will reach over the pointer is handed out after some requests of its size. */
  lemma {:induction false} RequestsOverlap(layout: Layout, calls: seq<Call>, r: Run, lo: int, q: int, m: Call)
    returns (more: seq<Call>, all: seq<Call>, end: Run)
    requires r == Exec(layout, calls) && Covers(r, lo, q) && m == Malloc(r.heap.blocks[lo].size)
    ensures OnlyRequests(more) && all == calls + more && end == Exec(layout, all) && !NoOverlap(end.live)
    decreases lo - BestFit(r.heap.blocks, m.size)
  {
    var next := OneRequest(layout, calls, r, lo, q, m);
    if BestFit(r.heap.blocks, m.size) == lo {
      more, all, end := [m], calls + [m], next;
    } else {
      more, all, end := RequestsOverlap(layout, calls + [m], next, lo, q, m);
      Regroup(calls, m, more);
      more := [m] + more;
    }
  }

  // ----- the exact condition

  lemma {:induction false} RequestsKeepOrdinary(layout: Layout, calls: seq<Call>, more: seq<Call>)
    requires OrdinaryRun(layout, calls) && OnlyRequests(more)
    ensures OrdinaryRun(layout, calls + more)
  {
    if more == [] {
      assert calls + more == calls;
    } else {
      var n := |more| - 1;
      RequestsKeepOrdinary(layout, calls, more[..n]);
      OrdinarySnoc(layout, calls + more[..n], more[n]);
      assert calls + more[..n] + [more[n]] == calls + more;
    }
  }

  /** A free is safe, whatever is requested after it, exactly when it has room: without room there
      are requests after which the regions of two clients overlap. */
  lemma FreeIsSafeIffRoom(layout: Layout, calls: seq<Call>, ptr: int)
    requires OrdinaryRun(layout, calls)
    ensures FreeHasRoom(Exec(layout, calls).heap, Free(ptr)) <==>
              forall more :: OnlyRequests(more) ==> NoOverlap(Exec(layout, calls + [Free(ptr)] + more).live)
  {
    var freed := calls + [Free(ptr)];
    if FreeHasRoom(Exec(layout, calls).heap, Free(ptr)) {
      OrdinarySnoc(layout, calls, Free(ptr));
      forall more | OnlyRequests(more)
        ensures NoOverlap(Exec(layout, freed + more).live)
      {
        RequestsKeepOrdinary(layout, freed, more);
        RunsWithRoomAreSafe(layout, freed + more);
      }
    } else {
      var lo, q, after := CoveredAfter(layout, calls, ptr);
      var more, all, end := RequestsOverlap(layout, freed, after, lo, q, Malloc(after.heap.blocks[lo].size));
      assert OnlyRequests(more) && !NoOverlap(Exec(layout, freed + more).live);
    }
  }

  lemma CoveredAfter(layout: Layout, calls: seq<Call>, ptr: int) returns (lo: int, q: int, after: Run)
    requires OrdinaryRun(layout, calls) && !FreeHasRoom(Exec(layout, calls).heap, Free(ptr))
    ensures after == Exec(layout, calls + [Free(ptr)]) && Covers(after, lo, q)
  {
    ExecSnoc(layout, calls, Free(ptr));
    SeparatedRunsAreApart(layout, calls);
    OrdinaryRunsAreHeld(layout, calls);
    StartsArePositive(layout, calls);
    FreeWithoutRoomCovers(layout, Exec(layout, calls), ptr);
    after := Exec(layout, calls + [Free(ptr)]);
    lo, q :| Covers(after, lo, q);
  }
}
