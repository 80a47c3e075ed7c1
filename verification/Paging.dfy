/** The two-level x86 page table and the flat page map it stands for. */
module Paging {
  import opened Words

  const PAGE := 0x1000
  const ENTRIES := 1024
  const PAGES := 0x10_0000

  /** The number of the page (or frame) an address lies in; `x & 0xFFFFF000` is that many pages. */
  function PageNumber(x: u32): (n: int)
    ensures 0 <= n < PAGES && n * PAGE <= x < n * PAGE + PAGE
  {
    x / PAGE
  }

  function OffsetOf(x: u32): (k: int)
    ensures 0 <= k < PAGE && x == PageNumber(x) * PAGE + k
  {
    x % PAGE
  }

  /** Bit 0 of a table word; `| 3` on a page-aligned word sets it. */
  predicate Present(word: u32) {
    word % 2 == 1
  }

  function Entry(frame: int): (word: u32)
    requires 0 <= frame < PAGES
    ensures Present(word) && PageNumber(word) == frame && word % PAGE == 3
  {
    frame * PAGE + 3
  }

  function DirectoryIndex(v: u32): (d: int)
    ensures d == PageNumber(v) / ENTRIES && 0 <= d < ENTRIES
  {
    v / 0x40_0000
  }

  function TableIndex(v: u32): (t: int)
    ensures t == PageNumber(v) % ENTRIES && 0 <= t < ENTRIES
  {
    v / PAGE % ENTRIES
  }

  // ----- the structure and the map it stands for

  /** `tables` is physical memory as far as page tables go: the words in each frame that holds one.
      Present entries lead to tables, and no two entries share one. */
  ghost predicate WellFormed(directory: seq<u32>, tables: map<int, seq<u32>>) {
    && |directory| == ENTRIES
    && (forall a :: a in tables ==> |tables[a]| == ENTRIES)
    && (forall i :: 0 <= i < ENTRIES && Present(directory[i]) ==> PageNumber(directory[i]) in tables)
    && (forall i, j :: 0 <= i < j < ENTRIES && Present(directory[i]) && Present(directory[j]) ==> PageNumber(directory[i]) != PageNumber(directory[j]))
  }

  /** The frame that a walk for directory index d and table index t finds, if it gets that far. */
  ghost function Walk(directory: seq<u32>, tables: map<int, seq<u32>>, d: int, t: int): Option<int>
    requires WellFormed(directory, tables) && 0 <= d < ENTRIES && 0 <= t < ENTRIES
  {
    if !Present(directory[d]) then None
    else
      var word := tables[PageNumber(directory[d])][t];
      if Present(word) then Some(PageNumber(word)) else None
  }

  class Mmu {
    var directory: seq<u32>
    var tables: map<int, seq<u32>>
    var initialized: bool

    ghost predicate Valid()
      reads this
    {
      WellFormed(directory, tables)
    }

    /** The flat map: the frame that page n is mapped to, if any. */
    ghost function Frame(n: int): Option<int>
      reads this
      requires Valid() && 0 <= n < PAGES
    {
      Walk(directory, tables, n / ENTRIES, n % ENTRIES)
    }

    /** The flat map as a whole. */
    ghost function Frames(): (f: seq<Option<int>>)
      reads this
      requires Valid()
      ensures |f| == PAGES && forall n :: 0 <= n < PAGES ==> f[n] == Frame(n)
    {
      seq(PAGES, n reads this requires Valid() && 0 <= n < PAGES => Frame(n))
    }

    /** `supply` is the frame the aligned page allocator answers with if it is asked for a table. */
    method PageMap(v: u32, p: u32, supply: Option<int>) returns (ok: bool)
      requires Valid()
      requires supply.Some? ==> 0 <= supply.value < PAGES && supply.value !in tables
      modifies this`directory, this`tables
      ensures Valid()
      ensures forall a :: a in tables ==> a in old(tables) || supply == Some(a)
      ensures ok == (initialized && (old(Present(directory[DirectoryIndex(v)])) || supply.Some?))
      ensures !ok ==> directory == old(directory) && tables == old(tables)
      ensures forall d :: 0 <= d < ENTRIES ==>
                (Present(directory[d]) <==> old(Present(directory[d])) || (ok && d == DirectoryIndex(v)))
      ensures ok ==> Frame(PageNumber(v)) == Some(PageNumber(p))
      ensures forall n :: 0 <= n < PAGES && n != PageNumber(v) ==> Frame(n) == old(Frame(n))
      // The words written say present and writable, and nothing more.
      ensures ok ==> tables[PageNumber(directory[DirectoryIndex(v)])][TableIndex(v)] == p - p % 0x1000 + 3
      ensures ok && !old(Present(directory[DirectoryIndex(v)])) ==> directory[DirectoryIndex(v)] == supply.value * 0x1000 + 3
    {
      if !initialized { return false; }
      var pd, pt := DirectoryIndex(v), TableIndex(v);
      var table: int;
      if !Present(directory[pd]) {
        if supply.None? { return false; }
        table := supply.value;
        tables := tables[table := seq(ENTRIES, _ => 0)];
        directory := directory[pd := Entry(table)];
      } else {
        table := PageNumber(directory[pd]);
      }
      var words: seq<u32> := tables[table];
      var entry: u32 := Entry(PageNumber(p));
      words := words[pt := entry];
      tables := tables[table := words];
      forall n | 0 <= n < PAGES && n != PageNumber(v)
        ensures Frame(n) == old(Frame(n))
      {
        var d, t := n / ENTRIES, n % ENTRIES;
        assert d != pd || t != pt;
      }
      return true;
    }

    /** Reads below 4 MB bypass the tables; elsewhere the walk decides, and 0 means unmapped. */
    method GetPhysical(v: u32) returns (p: u32)
      requires Valid()
      ensures v < 0x40_0000 ==> p == v
      ensures v >= 0x40_0000 ==> p == match Frame(PageNumber(v)) case Some(f) => f * PAGE + OffsetOf(v) case None => 0
    {
      if v < 0x40_0000 { return v; }
      var pd, pt := DirectoryIndex(v), TableIndex(v);
      if !Present(directory[pd]) { return 0; }
      var table := tables[PageNumber(directory[pd])];
      if !Present(table[pt]) { return 0; }
      return PageNumber(table[pt]) * PAGE + OffsetOf(v);
    }

    /** The identity mapping of the first 4 MB is asked for while the MMU is still marked off, so
        every one of the 1024 requests is refused and the directory goes live empty. `available` tells
        whether a page for the directory could be allocated. */
    method VmmInit(available: bool) returns (ok: bool)
      requires forall a :: a in tables ==> |tables[a]| == ENTRIES
      modifies this
      ensures ok == (old(initialized) || available) && tables == old(tables)
      ensures old(initialized) || !available ==> directory == old(directory) && initialized == old(initialized)
      ensures !old(initialized) && available ==>
                initialized && Valid() && forall n :: 0 <= n < PAGES ==> Frame(n) == None
    {
      if initialized { return true; }
      if !available { return false; }
      directory := seq(ENTRIES, _ => 0);
      var i := 0;
      while i < 1024
        invariant 0 <= i <= 1024 && !initialized && Valid()
        invariant directory == seq(ENTRIES, _ => 0) && tables == old(tables)
      {
        var _ := PageMap(i * PAGE, i * PAGE, None);
        i := i + 1;
      }
      initialized := true;
      return true;
    }

    /** One call of the region loop. */
    method MapNth(phys: u32, virt: u32, i: int, supply: Option<int>) returns (ok: bool)
      requires Valid() && 0 <= i < PAGES
      requires supply.Some? ==> 0 <= supply.value < PAGES && supply.value !in tables
      modifies this`directory, this`tables
      ensures Valid()
      ensures forall a :: a in tables ==> a in old(tables) || supply == Some(a)
      ensures ok == (initialized && (old(Present(directory[EntryOf(NthPage(virt, i))])) || supply.Some?))
      ensures Presence(directory) ==
                if ok then Presence(old(directory))[EntryOf(NthPage(virt, i)) := true] else Presence(old(directory))
      ensures Frames() == if ok then old(Frames())[NthPage(virt, i) := Some(NthPage(phys, i))] else old(Frames())
    {
      StepIsNthPage(virt, i);
      StepIsNthPage(phys, i);
      ok := PageMap(Wrap32(PageNumber(virt) * PAGE + i * 0x1000), Wrap32(PageNumber(phys) * PAGE + i * 0x1000), supply);
    }

    /** Maps as many consecutive pages as a region of `size` bytes fills. `supplies` holds one
        answer of the page allocator per page, in case that page needs a table; pages for which there
        is no table are passed over, and the caller is not told. */
    method MapRegion(phys: u32, virt: u32, size: u32, supplies: seq<Option<int>>)
      requires Valid() && |supplies| >= PageCount(size) && Unused(supplies)
      modifies this`directory, this`tables
      ensures Valid()
      ensures forall i :: 0 <= i < PageCount(size) ==>
                Frame(NthPage(virt, i)) ==
                  if initialized && Reached(old(directory), virt, supplies, i) then Some(NthPage(phys, i))
                  else old(Frame(NthPage(virt, i)))
      ensures forall n :: 0 <= n < PAGES && (forall i :: 0 <= i < PageCount(size) ==> n != NthPage(virt, i)) ==> Frame(n) == old(Frame(n))
    {
      MappedMeans(Frames(), directory, phys, virt, supplies, PageCount(size));
      MapPages(phys, virt, Wrap32(size + 0xFFF) / 0x1000, supplies);
    }

    /** Pages of their own that are no tables yet. */
    ghost predicate Unused(supplies: seq<Option<int>>)
      reads this
    {
      && (forall i :: 0 <= i < |supplies| && supplies[i].Some? ==> 0 <= supplies[i].value < PAGES && supplies[i].value !in tables)
      && (forall i, j :: 0 <= i < j < |supplies| && supplies[i].Some? ==> supplies[i] != supplies[j])
    }

    /** The loop of the region call. */
    method MapPages(phys: u32, virt: u32, count: nat, supplies: seq<Option<int>>)
      requires Valid() && count <= |supplies| && count < PAGES && Unused(supplies)
      modifies this`directory, this`tables
      ensures Valid()
      ensures Frames() == if initialized then Mapped(old(Frames()), old(directory), phys, virt, supplies, count) else old(Frames())
    {
      var i := 0;
      while i < count
        invariant 0 <= i <= count && Valid()
        invariant forall k :: i <= k < |supplies| && supplies[k].Some? ==> supplies[k].value !in tables
        invariant Presence(directory) == if initialized then Filled(Presence(old(directory)), virt, supplies, i) else Presence(old(directory))
        invariant Frames() == if initialized then Mapped(old(Frames()), old(directory), phys, virt, supplies, i) else old(Frames())
      {
        var _ := MapNth(phys, virt, i, supplies[i]);
        i := i + 1;
      }
    }
  }

  // ----- what a region call covers

  function PageCount(size: u32): (n: int)
    ensures 0 <= n < PAGES
  {
    Wrap32(size + 0xFFF) / 0x1000
  }

  /** The pages that `size` bytes fill, if they start a page; a size within a page of 2^32 wraps to none. */
  lemma PageCountIsCeiling(size: u32)
    ensures if size > 0xFFFF_F000 then PageCount(size) == 0
            else PageCount(size) * 0x1000 >= size && (size > 0 ==> (PageCount(size) - 1) * 0x1000 < size) && (size == 0 ==> PageCount(size) == 0)
  {
  }

  /** The i-th page from an address on, wrapping at the top of the address space. */
  function NthPage(base: u32, i: int): (n: int)
    ensures 0 <= n < PAGES
  {
    (PageNumber(base) + i) % PAGES
  }

  /** The directory entry that page n lies under. */
  function EntryOf(n: int): (d: int)
    requires 0 <= n < PAGES
    ensures 0 <= d < ENTRIES
  {
    n / ENTRIES
  }

  /** Which entries of the directory are present. */
  function Presence(directory: seq<u32>): (p: seq<bool>)
    ensures |p| == |directory| && forall d :: 0 <= d < |p| ==> p[d] == Present(directory[d])
  {
    seq(|directory|, d requires 0 <= d < |directory| => Present(directory[d]))
  }

  /** Which are after the first i pages of a region call. */
  function Filled(was: seq<bool>, virt: u32, supplies: seq<Option<int>>, i: nat): (p: seq<bool>)
    requires |was| == ENTRIES && i <= |supplies|
    ensures |p| == ENTRIES
  {
    if i == 0 then was
    else
      var p := Filled(was, virt, supplies, i - 1);
      if supplies[i - 1].Some? then p[EntryOf(NthPage(virt, i - 1)) := true] else p
  }

  lemma {:induction false} FilledMeans(was: seq<bool>, virt: u32, supplies: seq<Option<int>>, i: nat, d: int)
    requires |was| == ENTRIES && i <= |supplies| && 0 <= d < ENTRIES
    ensures Filled(was, virt, supplies, i)[d] <==>
              was[d] || exists k :: 0 <= k < i && supplies[k].Some? && EntryOf(NthPage(virt, k)) == d
  {
    if i > 0 { FilledMeans(was, virt, supplies, i - 1, d); }
  }

  /** Whether the i-th page of a region call finds its table: it is there from before, or the page
      allocator gave one to this page or to an earlier one of the call under the same entry. */
  ghost predicate Reached(directory: seq<u32>, virt: u32, supplies: seq<Option<int>>, i: nat)
    requires |directory| == ENTRIES && i < |supplies|
  {
    || Present(directory[EntryOf(NthPage(virt, i))])
    || exists k :: 0 <= k <= i && supplies[k].Some? && EntryOf(NthPage(virt, k)) == EntryOf(NthPage(virt, i))
  }

  /** The same, step by step. */
  ghost predicate HasTable(directory: seq<u32>, virt: u32, supplies: seq<Option<int>>, i: nat)
    requires |directory| == ENTRIES && i < |supplies|
  {
    Filled(Presence(directory), virt, supplies, i)[EntryOf(NthPage(virt, i))] || supplies[i].Some?
  }

  lemma ReachedMeans(directory: seq<u32>, virt: u32, supplies: seq<Option<int>>, i: nat)
    requires |directory| == ENTRIES && i < |supplies|
    ensures Reached(directory, virt, supplies, i) <==> HasTable(directory, virt, supplies, i)
  {
    FilledMeans(Presence(directory), virt, supplies, i, EntryOf(NthPage(virt, i)));
  }

  /** The flat map after the first i pages of a region call. */
  ghost function Mapped(was: seq<Option<int>>, directory: seq<u32>, phys: u32, virt: u32, supplies: seq<Option<int>>, i: nat): (f: seq<Option<int>>)
    requires |was| == PAGES && |directory| == ENTRIES && i <= |supplies|
    ensures |f| == PAGES
  {
    if i == 0 then was
    else
      var f := Mapped(was, directory, phys, virt, supplies, i - 1);
      if HasTable(directory, virt, supplies, i - 1) then f[NthPage(virt, i - 1) := Some(NthPage(phys, i - 1))] else f
  }

  lemma {:induction false} MappedMeans(was: seq<Option<int>>, directory: seq<u32>, phys: u32, virt: u32, supplies: seq<Option<int>>, i: nat)
    requires |was| == PAGES && |directory| == ENTRIES && i <= |supplies| && i < PAGES
    ensures var f := Mapped(was, directory, phys, virt, supplies, i);
            && (forall k :: 0 <= k < i ==>
                  f[NthPage(virt, k)] == if Reached(directory, virt, supplies, k) then Some(NthPage(phys, k)) else was[NthPage(virt, k)])
            && (forall n :: 0 <= n < PAGES && (forall k :: 0 <= k < i ==> n != NthPage(virt, k)) ==> f[n] == was[n])
  {
    if i > 0 {
      MappedMeans(was, directory, phys, virt, supplies, i - 1);
      PagesDiffer(virt, i - 1);
      ReachedMeans(directory, virt, supplies, i - 1);
    }
  }

  lemma StepIsNthPage(base: u32, i: int)
    requires 0 <= i < PAGES
    ensures PageNumber(Wrap32(PageNumber(base) * PAGE + i * 0x1000)) == NthPage(base, i)
  {
    var m := PageNumber(base) + i;
    assert PageNumber(base) * PAGE + i * 0x1000 == m * PAGE;
    assert Wrap32(m * PAGE) == if m < PAGES then m * PAGE else (m - PAGES) * PAGE;
  }

  lemma PagesDiffer(base: u32, i: int)
    requires 0 <= i < PAGES
    ensures forall k :: 0 <= k < i ==> NthPage(base, k) != NthPage(base, i)
  {
    forall k | 0 <= k < i
      ensures NthPage(base, k) != NthPage(base, i)
    {
      var a, b := PageNumber(base) + k, PageNumber(base) + i;
      assert a % PAGES == (if a < PAGES then a else a - PAGES) && b % PAGES == if b < PAGES then b else b - PAGES;
    }
  }

  ghost predicate Covers(virt: u32, size: u32, v: u32) {
    exists i :: 0 <= i < PageCount(size) && NthPage(virt, i) == PageNumber(v)
  }

  /** A region call reaches every byte of the region exactly when the bytes, counted from the start
      of their first page, fit the number of pages mapped. An unaligned start can miss the last
      page, and a size within a page of 2^32 wraps to no page at all. */
  lemma RegionIsCovered(virt: u32, size: u32)
    requires 0 < size && virt + size <= 0x1_0000_0000
    ensures (forall v: u32 :: virt <= v < virt + size ==> Covers(virt, size, v)) <==> OffsetOf(virt) + size <= PageCount(size) * PAGE
  {
    var n := PageCount(size);
    if OffsetOf(virt) + size <= n * PAGE {
      forall v: u32 | virt <= v < virt + size
        ensures Covers(virt, size, v)
      {
        var i := PageNumber(v) - PageNumber(virt);
        assert 0 <= i < n && NthPage(virt, i) == PageNumber(v);
      }
    } else {
      var v: u32 := virt + size - 1;
      var last := PageNumber(v) - PageNumber(virt);
      assert last >= n && NthPage(virt, last) == PageNumber(v);
      PagesDiffer(virt, last);
      assert !Covers(virt, size, v);
    }
  }

  /** Two bytes, the first of them the last of its page: one page is mapped, and the second byte is not
      on it. */
  lemma UnalignedRegionMissesPage(virt: u32)
    requires OffsetOf(virt) == 0xFFF && virt < 0xFFFF_F000
    ensures PageCount(2) == 1 && Covers(virt, 2, virt) && !Covers(virt, 2, virt + 1)
  {
    assert NthPage(virt, 0) == PageNumber(virt);
    assert PageNumber(virt + 1) == PageNumber(virt) + 1;
  }

  /** Once mapped page by page, an address keeps its distance from the region's start exactly when
      both starts lie equally deep in their pages. */
  lemma RegionKeepsOffsets(virt: u32, phys: u32, v: u32)
    requires virt <= v && PageNumber(phys) + PageNumber(v) - PageNumber(virt) < PAGES
    ensures NthPage(phys, PageNumber(v) - PageNumber(virt)) * PAGE + OffsetOf(v) == phys + (v - virt) <==> OffsetOf(virt) == OffsetOf(phys)
  {
    assert PageNumber(virt) <= PageNumber(v);
  }
}
