/** Reading an ext2 file through direct and singly indirect block pointers. */
module Ext2 {
  import opened Words
  import opened Arithmetic
  import Bytes

  const NDIR := 12
  const IND := 12

  datatype Inode = Inode(size: u32, block: seq<u32>)

  /** A mounted volume: the block size and the blocks that can be read. `stale` is what a fresh
      buffer holds when reading the indirect block fails, which the lookup does not notice. */
  datatype Volume = Volume(blockSize: nat, disk: map<u32, seq<u8>>, stale: seq<u8>)

  ghost predicate Mounted(v: Volume) {
    && v.blockSize >= 1024 && v.blockSize % 1024 == 0 && |v.stale| == v.blockSize
    && forall b :: b in v.disk ==> |v.disk[b]| == v.blockSize
  }

  ghost predicate WellFormed(inode: Inode) {
    |inode.block| == 15
  }

  function WordAt(s: seq<u8>, k: nat): u32
    requires 4 * k + 4 <= |s|
  {
    var a: int, b: int, c: int, d: int := s[4 * k], s[4 * k + 1], s[4 * k + 2], s[4 * k + 3];
    a + b * 0x100 + c * 0x1_0000 + d * 0x100_0000
  }

  /** A table as it lies on disk, each pointer low octet first. */
  function Stored(words: seq<u32>): (s: seq<u8>)
    ensures |s| == 4 * |words|
  {
    if words == [] then []
    else
      var w := words[0];
      [w % 0x100, w / 0x100 % 0x100, w / 0x1_0000 % 0x100, w / 0x100_0000] + Stored(words[1..])
  }

  lemma WordOfOctets(w: u32, s: seq<u8>)
    requires |s| >= 4 && s[0] == w % 0x100 && s[1] == w / 0x100 % 0x100 && s[2] == w / 0x1_0000 % 0x100 && s[3] == w / 0x100_0000
    ensures WordAt(s, 0) == w
  {
    OctetsAddUp(w % 0x1_0000, w / 0x1_0000);
  }

  lemma OctetsAddUp(low: int, high: int)
    requires 0 <= low < 0x1_0000 && 0 <= high < 0x1_0000
    ensures var w := low + 0x1_0000 * high;
            w % 0x100 == low % 0x100 && w / 0x100 % 0x100 == low / 0x100
            && w / 0x1_0000 % 0x100 == high % 0x100 && w / 0x100_0000 == high / 0x100
  {
  }

  lemma WordBehind(first: seq<u8>, rest: seq<u8>, k: nat)
    requires |first| == 4 && 4 * k + 4 <= |rest|
    ensures WordAt(first + rest, k + 1) == WordAt(rest, k)
  {
    var s, n := first + rest, 4 * k;
    assert s[n + 4] == rest[n] && s[n + 5] == rest[n + 1] && s[n + 6] == rest[n + 2] && s[n + 7] == rest[n + 3];
  }

  /** The pointers of a table are read back as they were stored. */
  lemma {:induction false} TableReadsBack(words: seq<u32>, k: nat)
    requires k < |words|
    ensures WordAt(Stored(words), k) == words[k]
  {
    var s := Stored(words);
    if k == 0 {
      WordOfOctets(words[0], s);
    } else {
      TableReadsBack(words[1..], k - 1);
      WordBehind(s[..4], Stored(words[1..]), k - 1);
      assert s == s[..4] + Stored(words[1..]);
    }
  }

  function Pointers(v: Volume): nat {
    v.blockSize / 4
  }

  function IndirectBlock(v: Volume, inode: Inode): seq<u8>
    requires WellFormed(inode)
  {
    if inode.block[IND] in v.disk then v.disk[inode.block[IND]] else v.stale
  }

  /** `ext2_get_block_from_inode`: 0 stands for a hole, and for every block past the single
      indirection. */
  function BlockOf(v: Volume, inode: Inode, n: nat): u32
    requires Mounted(v) && WellFormed(inode)
  {
    if n < NDIR then inode.block[n]
    else if n < NDIR + Pointers(v) then WordAt(IndirectBlock(v, inode), n - NDIR)
    else 0
  }

  // ----- what the pointers of the inode stand for -----

  /** The block list of the inode: the direct pointers, then as many holes when there is no pointer
      table, else the words of the table. A table that cannot be read leaves its entries unknown. */
  function Flat(v: Volume, inode: Inode): (r: seq<Option<u32>>)
    requires Mounted(v) && WellFormed(inode)
    ensures |r| == NDIR + Pointers(v)
  {
    var table := inode.block[IND];
    seq(NDIR, k requires 0 <= k < NDIR => Some(inode.block[k]))
    + seq(Pointers(v), k requires 0 <= k < Pointers(v) =>
        if table == 0 then Some(0) else if table in v.disk then Some(WordAt(v.disk[table], k)) else None)
  }

  /** The two readings of block n: the one the lookup makes and the one the inode means. */
  datatype View = AsLookedUp | AsMeant

  function Lookup(v: Volume, inode: Inode, view: View, n: nat): Option<u32>
    requires Mounted(v) && WellFormed(inode)
  {
    match view
    case AsLookedUp => Some(BlockOf(v, inode, n))
    case AsMeant => if n < |Flat(v, inode)| then Flat(v, inode)[n] else Some(0)
  }

  ghost predicate Agrees(v: Volume, inode: Inode, n: nat)
    requires Mounted(v) && WellFormed(inode)
  {
    Lookup(v, inode, AsLookedUp, n) == Lookup(v, inode, AsMeant, n)
  }

  /** Block n is reached without the pointer table, or the table is there and can be read. */
  predicate Dependable(v: Volume, inode: Inode, n: nat)
    requires WellFormed(inode)
  {
    n < NDIR || n >= NDIR + Pointers(v) || (inode.block[IND] != 0 && inode.block[IND] in v.disk)
  }

  /** The lookup finds the block the inode means, except that a missing or unreadable table is not
      noticed: then it does so only where there is no table and the word used instead is zero. */
  lemma LookupIsFlat(v: Volume, inode: Inode, n: nat)
    requires Mounted(v) && WellFormed(inode)
    ensures Agrees(v, inode, n) <==>
              Dependable(v, inode, n) || (inode.block[IND] == 0 && WordAt(IndirectBlock(v, inode), n - NDIR) == 0)
  {
  }

  /** Volumes that differ only in block 0 and in what fresh buffers hold. */
  ghost predicate SameFiles(v: Volume, w: Volume) {
    v.blockSize == w.blockSize
    && forall b :: b != 0 ==> (b in v.disk <==> b in w.disk) && (b in v.disk ==> v.disk[b] == w.disk[b])
  }

  /** The lookup of block n can be relied on, whatever block 0 and fresh buffers hold, exactly when
      block n is dependable. */
  lemma LookupIsReliable(v: Volume, inode: Inode, n: nat)
    requires Mounted(v) && WellFormed(inode)
    ensures (forall w :: Mounted(w) && SameFiles(v, w) ==> Agrees(w, inode, n)) <==> Dependable(v, inode, n)
  {
    if !Dependable(v, inode, n) {
      var ones: seq<u8> := seq(v.blockSize, _ => 1);
      var w := v.(disk := v.disk[0 := ones]);
      assert Mounted(w) && SameFiles(v, w);
      if inode.block[IND] == 0 { assert WordAt(ones, n - NDIR) != 0; }
      assert !Agrees(w, inode, n);
    }
  }

  /** A sparse file without a pointer table: block 0 of the volume is taken for the table, and the
      file's first hole behind the direct blocks reads as the block its first word names. */
  lemma MissingTableIsRead(v: Volume, inode: Inode, first: u32)
    requires Mounted(v) && WellFormed(inode)
    requires inode.block[IND] == 0 && 0 in v.disk && WordAt(v.disk[0], 0) == first != 0
    ensures Lookup(v, inode, AsMeant, NDIR) == Some(0) && Lookup(v, inode, AsLookedUp, NDIR) == Some(first)
  {
    assert Pointers(v) > 0;
  }

  /** A table that cannot be read: whatever the fresh buffer held is taken for it. */
  lemma UnreadTableIsUsed(v: Volume, inode: Inode, first: u32)
    requires Mounted(v) && WellFormed(inode)
    requires inode.block[IND] !in v.disk && inode.block[IND] != 0 && WordAt(v.stale, 0) == first != 0
    ensures Lookup(v, inode, AsMeant, NDIR) == None && Lookup(v, inode, AsLookedUp, NDIR) == Some(first)
  {
    assert Pointers(v) > 0;
  }

  /** Block n can be copied. */
  ghost predicate Present(v: Volume, inode: Inode, view: View, n: nat)
    requires Mounted(v) && WellFormed(inode)
  {
    var b := Lookup(v, inode, view, n);
    b.Some? && b.value != 0 && b.value in v.disk
  }

  /** Block n is no hole, but it cannot be copied. */
  ghost predicate Bad(v: Volume, inode: Inode, view: View, n: nat)
    requires Mounted(v) && WellFormed(inode)
  {
    !Present(v, inode, view, n) && Lookup(v, inode, view, n) != Some(0)
  }

  /** Byte j of the file, wherever its block lies. */
  ghost function ByteAt(v: Volume, inode: Inode, view: View, j: nat): u8
    requires Mounted(v) && WellFormed(inode)
  {
    var n := Div(j, v.blockSize);
    Split(j, v.blockSize);
    if Present(v, inode, view, n) then v.disk[Lookup(v, inode, view, n).value][Mod(j, v.blockSize)] else 0
  }

  /** The part of a request that lies inside the file. */
  function Wanted(inode: Inode, offset: nat, size: nat): (n: nat)
    ensures n <= size && (n > 0 ==> offset + n <= inode.size) && (n < size ==> offset + n >= inode.size)
  {
    if offset >= inode.size then 0 else Min(size, inode.size - offset)
  }

  /** Every block from `start` up to but excluding block n can be copied. */
  ghost predicate Solid(v: Volume, inode: Inode, view: View, start: nat, n: nat)
    requires Mounted(v) && WellFormed(inode)
  {
    forall i :: start <= i < n ==> Present(v, inode, view, i)
  }

  /** Some block of the request is the first that cannot be copied, and it is no hole. */
  ghost predicate Refused(v: Volume, inode: Inode, view: View, offset: nat, want: nat)
    requires Mounted(v) && WellFormed(inode)
  {
    exists i: nat :: Div(offset, v.blockSize) <= i && Solid(v, inode, view, Div(offset, v.blockSize), i)
                     && Bad(v, inode, view, i) && (want > 0 ==> i <= Div(offset + want - 1, v.blockSize))
  }

  /** What a read of `want` bytes owes its caller, n being its result and `got` what the buffer
      then holds. */
  ghost predicate Delivered(v: Volume, inode: Inode, view: View, offset: nat, want: nat, n: int, got: seq<u8>)
    requires Mounted(v) && WellFormed(inode) && -1 <= n <= want <= |got|
  {
    // What is returned is that slice of the file.
    && (forall k :: 0 <= k < n ==> got[k] == ByteAt(v, inode, view, offset + k))
    // Every block that a returned byte lies in was there, as was every one before the next byte's;
    // short exactly because that one is a zero block.
    && (n >= 0 ==> Solid(v, inode, view, Div(offset, v.blockSize), Div(offset + n, v.blockSize)))
    && (n > 0 ==> Solid(v, inode, view, Div(offset, v.blockSize), Div(offset + n - 1, v.blockSize) + 1))
    && (0 <= n < want ==> Lookup(v, inode, view, Div(offset + n, v.blockSize)) == Some(0))
    // An error is the disk's refusal of the first block that cannot be copied.
    && (n == -1 ==> Refused(v, inode, view, offset, want))
    && (want > 0 && Refused(v, inode, view, offset, want) ==> n == -1)
  }

  /** Every block that a byte of the request lies in is dependable. */
  ghost predicate AllDependable(v: Volume, inode: Inode, offset: nat, want: nat)
    requires Mounted(v) && WellFormed(inode) && want > 0
  {
    forall i :: Div(offset, v.blockSize) <= i <= Div(offset + want - 1, v.blockSize) ==> Dependable(v, inode, i)
  }

  /** A dependable block reads the same either way. */
  lemma ReadsAlike(v: Volume, inode: Inode, from: View, to: View, n: nat)
    requires Mounted(v) && WellFormed(inode) && Dependable(v, inode, n)
    ensures Lookup(v, inode, from, n) == Lookup(v, inode, to, n)
    ensures Present(v, inode, from, n) == Present(v, inode, to, n) && Bad(v, inode, from, n) == Bad(v, inode, to, n)
  {
    LookupIsFlat(v, inode, n);
  }

  lemma SolidAlike(v: Volume, inode: Inode, offset: nat, want: nat, from: View, to: View, n: nat)
    requires Mounted(v) && WellFormed(inode) && want > 0 && AllDependable(v, inode, offset, want)
    requires n <= Div(offset + want - 1, v.blockSize) + 1 && Solid(v, inode, from, Div(offset, v.blockSize), n)
    ensures Solid(v, inode, to, Div(offset, v.blockSize), n)
  {
    forall i: nat | Div(offset, v.blockSize) <= i < n ensures Present(v, inode, to, i) {
      assert Present(v, inode, from, i) && Dependable(v, inode, i);
      ReadsAlike(v, inode, from, to, i);
    }
  }

  lemma RefusedAlike(v: Volume, inode: Inode, offset: nat, want: nat, from: View, to: View)
    requires Mounted(v) && WellFormed(inode) && want > 0 && AllDependable(v, inode, offset, want)
    requires Refused(v, inode, from, offset, want)
    ensures Refused(v, inode, to, offset, want)
  {
    var start, last := Div(offset, v.blockSize), Div(offset + want - 1, v.blockSize);
    var i: nat :| start <= i && Solid(v, inode, from, start, i) && Bad(v, inode, from, i) && i <= last;
    SolidAlike(v, inode, offset, want, from, to, i);
    assert Dependable(v, inode, i);
    ReadsAlike(v, inode, from, to, i);
  }

  /** Every byte of a request lies in one of its blocks, the byte behind it in the next at most. */
  lemma ByteInRange(bs: nat, offset: nat, want: nat, j: nat)
    requires bs > 0 && want > 0 && offset <= j <= offset + want
    ensures Div(offset, bs) <= Div(j, bs) <= Div(offset + want - 1, bs) + 1
    ensures j < offset + want ==> Div(j, bs) <= Div(offset + want - 1, bs)
  {
    DivGrows(offset, j, bs);
    if j < offset + want {
      DivGrows(j, offset + want - 1, bs);
    } else {
      BlockBeforeNext(bs, j);
    }
  }

  /** A read through dependable blocks delivers the file the inode means. */
  lemma DeliveredAsMeant(v: Volume, inode: Inode, offset: nat, want: nat, n: int, got: seq<u8>)
    requires Mounted(v) && WellFormed(inode) && -1 <= n <= want <= |got|
    requires want > 0 && AllDependable(v, inode, offset, want)
    requires Delivered(v, inode, AsLookedUp, offset, want, n, got)
    ensures Delivered(v, inode, AsMeant, offset, want, n, got)
  {
    var bs := v.blockSize;
    forall k | 0 <= k < n ensures got[k] == ByteAt(v, inode, AsMeant, offset + k) {
      ByteInRange(bs, offset, want, offset + k);
      ReadsAlike(v, inode, AsLookedUp, AsMeant, Div(offset + k, bs));
    }
    if n >= 0 {
      ByteInRange(bs, offset, want, offset + n);
      SolidAlike(v, inode, offset, want, AsLookedUp, AsMeant, Div(offset + n, bs));
      if n < want { ReadsAlike(v, inode, AsLookedUp, AsMeant, Div(offset + n, bs)); }
    } else {
      RefusedAlike(v, inode, offset, want, AsLookedUp, AsMeant);
    }
    if n > 0 {
      ByteInRange(bs, offset, want, offset + n - 1);
      SolidAlike(v, inode, offset, want, AsLookedUp, AsMeant, Div(offset + n - 1, bs) + 1);
    }
    if Refused(v, inode, AsMeant, offset, want) { RefusedAlike(v, inode, offset, want, AsMeant, AsLookedUp); }
  }

  /** The next byte lies in the same block or the next one. */
  lemma BlockBeforeNext(bs: nat, j: nat)
    requires bs > 0 && j > 0
    ensures Div(j, bs) <= Div(j - 1, bs) + 1
  {
    Split(j, bs);
    Split(j - 1, bs);
    if Div(j, bs) > Div(j - 1, bs) + 1 { TimesGrows(Div(j - 1, bs) + 1, Div(j, bs), bs); }
  }

  /** The first n blocks of the file, end to end. */
  ghost function Contents(v: Volume, inode: Inode, view: View, n: nat): (r: seq<u8>)
    requires Mounted(v) && WellFormed(inode) && Solid(v, inode, view, 0, n)
    ensures |r| == Times(n, v.blockSize)
  {
    if n == 0 then [] else
      assert Present(v, inode, view, n - 1);
      Contents(v, inode, view, n - 1) + v.disk[Lookup(v, inode, view, n - 1).value]
  }

  /** Direct and indirect blocks together read as one flat run of bytes. */
  lemma {:induction false} ContentsAt(v: Volume, inode: Inode, view: View, n: nat, j: nat)
    requires Mounted(v) && WellFormed(inode) && Solid(v, inode, view, 0, n) && j < Times(n, v.blockSize)
    ensures ByteAt(v, inode, view, j) == Contents(v, inode, view, n)[j]
  {
    var base := Times(n - 1, v.blockSize);
    if j < base {
      ContentsAt(v, inode, view, n - 1, j);
    } else {
      Unique(n - 1, j - base, v.blockSize);
      assert Present(v, inode, view, n - 1);
    }
  }

  /** Bytes copied once every block before block i is done. */
  function Progress(bs: nat, offset: nat, i: nat, want: nat): nat
    requires bs > 0
  {
    if Times(i, bs) <= offset then 0 else Min(Times(i, bs) - offset, want)
  }

  /** One more block: how far it takes the copy, and which bytes of the file it holds. */
  lemma NextBlock(bs: nat, offset: nat, i: nat, want: nat)
    requires bs > 0 && i >= Div(offset, bs)
    ensures var bytes := Progress(bs, offset, i, want);
            var inBlock := if i == Div(offset, bs) then Mod(offset, bs) else 0;
            var toRead := if bytes + (bs - inBlock) > want then want - bytes else bs - inBlock;
            && inBlock < bs && 0 <= toRead <= bs - inBlock
            && Progress(bs, offset, i + 1, want) == bytes + toRead
            && (bytes < want ==> Div(offset + bytes, bs) == i)
            && (forall j {:trigger Div(j, bs)} {:trigger Mod(j, bs)} :: offset + bytes <= j < offset + bytes + toRead ==>
                  Div(j, bs) == i && Mod(j, bs) == inBlock + (j - offset - bytes))
  {
    Split(offset, bs);
    var start := Div(offset, bs);
    TimesGrows(start, i, bs);
    assert Times(i + 1, bs) == Times(i, bs) + bs;
    var bytes := Progress(bs, offset, i, want);
    var inBlock := if i == start then Mod(offset, bs) else 0;
    if bytes < want {
      var base := Times(i, bs);
      assert offset + bytes == base + inBlock;
      forall j {:trigger Div(j, bs)} | offset + bytes <= j < base + bs
        ensures Div(j, bs) == i && Mod(j, bs) == j - base
      {
        Unique(i, j - base, bs);
      }
    }
  }

  /** Past the block of the last byte wanted, everything wanted is copied. */
  lemma PastTheEnd(bs: nat, offset: nat, want: nat, i: nat)
    requires bs > 0 && want > 0 && i > Div(offset + want - 1, bs)
    ensures Progress(bs, offset, i, want) == want && Div(offset + want, bs) <= i
  {
    var last := offset + want - 1;
    Split(last, bs);
    Split(offset + want, bs);
    TimesGrows(Div(last, bs), i, bs);
    if Div(offset + want, bs) > i { TimesGrows(i, Div(offset + want, bs), bs); }
  }

  /** The last block of the loop: computed in 64 bits and kept in 32, which only an empty request at
      the start of the file makes wrap. */
  function LastBlock(bs: nat, offset: nat, want: nat): (end: u32)
    requires bs > 0 && (want > 0 ==> offset + want < 0x1_0000_0000)
    ensures want > 0 ==> end == Div(offset + want - 1, bs)
  {
    DivGrows(0, if want > 0 then offset + want - 1 else 0, bs);
    Div((offset + want - 1) % 0x1_0000_0000_0000_0000, bs) % 0x1_0000_0000
  }

  /** Up to the block of the last byte wanted, something is left to copy. */
  lemma BeforeTheEnd(bs: nat, offset: nat, want: nat, i: nat)
    requires bs > 0 && want > 0 && i <= Div(offset + want - 1, bs)
    ensures Progress(bs, offset, i, want) < want
  {
    var last := offset + want - 1;
    Split(last, bs);
    TimesGrows(i, Div(last, bs), bs);
  }

  /** The body of the loop for a block that can be read: the wanted part of block i, behind the
      bytes already there. */
  method CopyBlock(v: Volume, inode: Inode, offset: nat, want: nat, i: nat, inBlock: nat, bytes: nat, buffer: array<u8>)
    returns (toRead: nat)
    requires Mounted(v) && WellFormed(inode) && want <= buffer.Length
    requires i >= Div(offset, v.blockSize) && Present(v, inode, AsLookedUp, i)
    requires inBlock == (if i == Div(offset, v.blockSize) then Mod(offset, v.blockSize) else 0)
    requires bytes == Progress(v.blockSize, offset, i, want)
    modifies buffer
    ensures Progress(v.blockSize, offset, i + 1, want) == bytes + toRead <= want
    ensures forall k :: 0 <= k < bytes || bytes + toRead <= k < buffer.Length ==> buffer[k] == old(buffer[k])
    ensures forall k :: bytes <= k < bytes + toRead ==> buffer[k] == ByteAt(v, inode, AsLookedUp, offset + k)
  {
    NextBlock(v.blockSize, offset, i, want);
    toRead := v.blockSize - inBlock;
    if bytes + toRead > want { toRead := want - bytes; }
    var piece := v.disk[BlockOf(v, inode, i)][inBlock..inBlock + toRead];
    Bytes.Copy(buffer, bytes, piece);
    forall k | bytes <= k < bytes + toRead
      ensures buffer[k] == ByteAt(v, inode, AsLookedUp, offset + k)
    {
      assert Present(v, inode, AsLookedUp, i);
      assert buffer[k] == piece[k - bytes] && Div(offset + k, v.blockSize) == i;
    }
  }

  /** What is copied before block i lies before block i. */
  lemma LastByteCopied(bs: nat, offset: nat, want: nat, i: nat)
    requires bs > 0 && Progress(bs, offset, i, want) > 0
    ensures Div(offset + Progress(bs, offset, i, want) - 1, bs) < i
  {
    var last := offset + Progress(bs, offset, i, want) - 1;
    Split(last, bs);
    if i <= Div(last, bs) { TimesGrows(i, Div(last, bs), bs); }
  }

  /** No refusal before the blocks that can be copied end. */
  lemma RefusedNotBefore(v: Volume, inode: Inode, view: View, start: nat, i: nat, r: nat)
    requires Mounted(v) && WellFormed(inode) && start <= i && start <= r
    requires Solid(v, inode, view, start, i) && Solid(v, inode, view, start, r) && Bad(v, inode, view, r)
    ensures i <= r && Lookup(v, inode, view, i) != Some(0)
  {
    if i < r { assert Present(v, inode, view, i); }
  }

  /** Where the loop stops: at a zero block it is short there, past the last block it is not, and in
      neither case was a block refused. */
  lemma AtTheStop(v: Volume, inode: Inode, offset: nat, want: nat, i: nat)
    requires Mounted(v) && WellFormed(inode) && want > 0 && i >= Div(offset, v.blockSize)
    requires Solid(v, inode, AsLookedUp, Div(offset, v.blockSize), i)
    requires i > Div(offset + want - 1, v.blockSize) || BlockOf(v, inode, i) == 0
    ensures !Refused(v, inode, AsLookedUp, offset, want)
    ensures var bytes := Progress(v.blockSize, offset, i, want); bytes > 0 ==> Div(offset + bytes - 1, v.blockSize) < i
    ensures var bytes := Progress(v.blockSize, offset, i, want);
            if i > Div(offset + want - 1, v.blockSize) then bytes == want && Div(offset + want, v.blockSize) <= i
            else bytes < want && Div(offset + bytes, v.blockSize) == i
  {
    if Refused(v, inode, AsLookedUp, offset, want) {
      var r: nat :| Div(offset, v.blockSize) <= r && Solid(v, inode, AsLookedUp, Div(offset, v.blockSize), r)
                    && Bad(v, inode, AsLookedUp, r) && r <= Div(offset + want - 1, v.blockSize);
      RefusedNotBefore(v, inode, AsLookedUp, Div(offset, v.blockSize), i, r);
    }
    if Progress(v.blockSize, offset, i, want) > 0 { LastByteCopied(v.blockSize, offset, want, i); }
    if i > Div(offset + want - 1, v.blockSize) {
      PastTheEnd(v.blockSize, offset, want, i);
    } else {
      BeforeTheEnd(v.blockSize, offset, want, i);
      NextBlock(v.blockSize, offset, i, want);
    }
  }

  /** `ext2_read`: the request is clipped to the file, and then copied block by block. */
  method Read(v: Volume, inode: Inode, offset: nat, size: u32, buffer: array<u8>) returns (n: int)
    requires Mounted(v) && WellFormed(inode) && size <= buffer.Length && offset < 0x1_0000_0000_0000_0000
    modifies buffer
    // Never more than asked and never past the end of the file.
    ensures -1 <= n <= Wanted(inode, offset, size)
    ensures n >= 0 ==> forall k :: n <= k < buffer.Length ==> buffer[k] == old(buffer[k])
    ensures n == -1 ==> offset < inode.size
    // The blocks the lookup finds, and the file the inode means where they are dependable.
    ensures var want := Wanted(inode, offset, size);
            && Delivered(v, inode, AsLookedUp, offset, want, n, buffer[..])
            && (want > 0 && AllDependable(v, inode, offset, want) ==>
                  Delivered(v, inode, AsMeant, offset, want, n, buffer[..]))
  {
    if offset >= inode.size { return 0; }
    var want: nat := size;
    if offset + size > inode.size { want := inode.size - offset; }
    n := ReadBlocks(v, inode, offset, want, buffer);
    if want > 0 && AllDependable(v, inode, offset, want) {
      DeliveredAsMeant(v, inode, offset, want, n, buffer[..]);
    }
  }

  /** The block loop of `ext2_read`. */
  method ReadBlocks(v: Volume, inode: Inode, offset: nat, want: nat, buffer: array<u8>) returns (n: int)
    requires Mounted(v) && WellFormed(inode) && want <= buffer.Length && offset + want < 0x1_0000_0000
    modifies buffer
    ensures -1 <= n <= want
    ensures n >= 0 ==> forall k :: n <= k < buffer.Length ==> buffer[k] == old(buffer[k])
    ensures Delivered(v, inode, AsLookedUp, offset, want, n, buffer[..])
  {
    var bs := v.blockSize;
    var start := Div(offset, bs);
    var end := LastBlock(bs, offset, want);
    var inBlock := Mod(offset, bs);
    var bytes: nat := 0;
    var i := start;
    Split(offset, bs);
    while i <= end
      invariant i >= start && inBlock == (if i == start then Mod(offset, bs) else 0)
      invariant bytes == Progress(bs, offset, i, want) && bytes <= want
      invariant Solid(v, inode, AsLookedUp, start, i)
      invariant forall k :: 0 <= k < bytes ==> buffer[k] == ByteAt(v, inode, AsLookedUp, offset + k)
      invariant forall k :: bytes <= k < buffer.Length ==> buffer[k] == old(buffer[k])
    {
      var block := BlockOf(v, inode, i);
      if block == 0 {
        if want > 0 { AtTheStop(v, inode, offset, want, i); }
        return bytes;
      }
      if block !in v.disk { return -1; }
      var toRead := CopyBlock(v, inode, offset, want, i, inBlock, bytes, buffer);
      bytes := bytes + toRead;
      inBlock := 0;
      i := i + 1;
    }
    if want > 0 { AtTheStop(v, inode, offset, want, i); }
    return bytes;
  }
}
