/** Reading a FAT32 volume: cluster chains, the data loop of a file, and the root directory. */
module Fat32 {
  import opened Words
  import opened Arithmetic
  import Bytes

  const EOC := 0x0FFF_FFF8

  /** A mounted volume. `disk` is what the drive returns for a read of one cluster at a sector
      address; an address outside it is a read that fails. */
  datatype Volume = Volume(fat: seq<u32>, sectorsPerCluster: u8, dataStart: u32, clusterCount: u32,
                           disk: map<u32, seq<u8>>)

  function ClusterSize(v: Volume): nat {
    512 * v.sectorsPerCluster
  }

  ghost predicate Mounted(v: Volume) {
    && v.sectorsPerCluster > 0 && v.clusterCount + 2 <= |v.fat| && v.clusterCount + 2 < 0x1_0000_0000
    && forall lba :: lba in v.disk ==> |v.disk[lba]| == ClusterSize(v)
  }

  function ClusterToLba(v: Volume, c: u32): u32 {
    Wrap32(v.dataStart + Wrap32(Wrap32(c - 2) * v.sectorsPerCluster))
  }

  function ReadCluster(v: Volume, c: u32): Option<seq<u8>> {
    if c < 2 || c >= v.clusterCount + 2 || ClusterToLba(v, c) !in v.disk then None
    else Some(v.disk[ClusterToLba(v, c)])
  }

  /** Clusters numbered as the boot sector's totals allow share no sector and stay on the volume. */
  lemma ClustersAreApart(v: Volume, totalSectors: u32, c: u32, d: u32)
    requires v.sectorsPerCluster > 0 && v.dataStart <= totalSectors
    requires v.clusterCount == (totalSectors - v.dataStart) / v.sectorsPerCluster
    requires 2 <= c < d < v.clusterCount + 2
    ensures v.dataStart <= ClusterToLba(v, c)
    ensures ClusterToLba(v, c) + v.sectorsPerCluster <= ClusterToLba(v, d)
    ensures ClusterToLba(v, d) + v.sectorsPerCluster <= totalSectors
  {
    var n: nat := v.sectorsPerCluster;
    WholeTimes(totalSectors - v.dataStart, n);
    FewerTakeLess(c - 2, d - 2, n);
    FewerTakeLess(d - 2, v.clusterCount, n);
    LbaWithoutWrap(v, c, (c - 2) * n);
    LbaWithoutWrap(v, d, (d - 2) * n);
  }

  lemma LbaWithoutWrap(v: Volume, c: u32, sectors: nat)
    requires c >= 2 && sectors == (c - 2) * v.sectorsPerCluster && v.dataStart + sectors < 0x1_0000_0000
    ensures ClusterToLba(v, c) == v.dataStart + sectors
  {
    assert Wrap32(c - 2) == c - 2;
    assert Wrap32(sectors) == sectors;
  }

  predicate InUse(c: u32) {
    2 <= c < EOC
  }

  /** The first n clusters of the chain from c, as far as the loops follow it: up to its end, or up
      to and including a cluster that cannot be read. */
  function Walk(v: Volume, c: u32, n: nat): seq<u32>
    requires Mounted(v)
    decreases n
  {
    if n == 0 || !InUse(c) then []
    else if ReadCluster(v, c).None? then [c]
    else [c] + Walk(v, v.fat[c], n - 1)
  }

  /** The chain from c is over after at most n clusters. */
  predicate Ends(v: Volume, c: u32, n: nat)
    requires Mounted(v)
    decreases n
  {
    !InUse(c) || (n > 0 && (ReadCluster(v, c).None? || Ends(v, v.fat[c], n - 1)))
  }

  /** The bytes of a list of clusters end to end, up to the first that cannot be read. */
  function Data(v: Volume, cs: seq<u32>): seq<u8> {
    if cs == [] || ReadCluster(v, cs[0]).None? then [] else ReadCluster(v, cs[0]).value + Data(v, cs[1..])
  }

  predicate AllReadable(v: Volume, cs: seq<u32>) {
    cs == [] || (ReadCluster(v, cs[0]).Some? && AllReadable(v, cs[1..]))
  }

  /** Clusters that a file of this size takes. */
  function Needed(v: Volume, size: nat): nat
    requires Mounted(v)
    decreases size
  {
    if size == 0 then 0 else 1 + Needed(v, size - Min(size, ClusterSize(v)))
  }

  lemma {:induction false} NeededIsCeiling(v: Volume, size: nat)
    requires Mounted(v)
    ensures size <= Times(Needed(v, size), ClusterSize(v))
    ensures size > 0 ==> Times(Needed(v, size) - 1, ClusterSize(v)) < size
  {
    if size > ClusterSize(v) {
      NeededIsCeiling(v, size - ClusterSize(v));
    } else if size > 0 {
      assert Needed(v, 0) == 0;
    }
  }

  /** The first bytes of a list, as far as there are any. */
  ghost predicate SameStart(a: seq<u8>, b: seq<u8>, size: nat) {
    Min(|a|, size) == Min(|b|, size) && a[..Min(|a|, size)] == b[..Min(|b|, size)]
  }

  lemma JoinedStart(head: seq<u8>, a: seq<u8>, b: seq<u8>, size: nat)
    requires size <= |head| || SameStart(a, b, size - |head|)
    ensures SameStart(head + a, head + b, size)
  {
    var n := Min(|head + a|, size);
    if size > |head| {
      assert (head + a)[..n] == head + a[..n - |head|] && (head + b)[..n] == head + b[..n - |head|];
    }
  }

  /** Following a chain further than the file's size asks for changes nothing below that size. */
  lemma {:induction false} CutIsStable(v: Volume, c: u32, size: nat, n: nat)
    requires Mounted(v) && (n >= Needed(v, size) || Ends(v, c, n))
    ensures SameStart(Data(v, Walk(v, c, Needed(v, size))), Data(v, Walk(v, c, n)), size)
    decreases size
  {
    if size > 0 && InUse(c) && ReadCluster(v, c).Some? {
      var first, rest := ReadCluster(v, c).value, size - Min(size, ClusterSize(v));
      CutIsStable(v, v.fat[c], rest, n - 1);
      var short, whole := Walk(v, v.fat[c], Needed(v, rest)), Walk(v, v.fat[c], n - 1);
      assert Walk(v, c, Needed(v, size)) == [c] + short && Walk(v, c, n) == [c] + whole;
      assert ([c] + short)[1..] == short && ([c] + whole)[1..] == whole;
      JoinedStart(first, Data(v, short), Data(v, whole), size);
    }
  }

  /** What is left of a file that starts in cluster c. */
  function Left(v: Volume, c: u32, size: nat): seq<u8>
    requires Mounted(v)
  {
    Data(v, Walk(v, c, Needed(v, size)))
  }

  /** The data loop at the end of `fat32_read_file`: the chain's bytes, end to end, cut at the
      file's size. A chain that ends early is no error. */
  method ReadData(v: Volume, first: u32, size: u32, buffer: array<u8>) returns (ok: bool)
    requires Mounted(v) && size <= buffer.Length
    modifies buffer
    ensures ok <==> AllReadable(v, Walk(v, first, Needed(v, size)))
    ensures var data := Left(v, first, size);
            forall k :: 0 <= k < buffer.Length ==> buffer[k] == if k < Min(|data|, size) then data[k] else old(buffer[k])
  {
    var at, remaining, cluster := 0, size, first;
    ghost var whole, before := Left(v, first, size), buffer[..];
    ghost var readable := AllReadable(v, Walk(v, first, Needed(v, size)));
    while InUse(cluster) && remaining > 0
      invariant 0 <= at <= |whole| && at + remaining == size
      invariant forall k :: 0 <= k < buffer.Length ==> buffer[k] == if k < at then whole[k] else before[k]
      invariant remaining > 0 ==> whole[at..] == Left(v, cluster, remaining)
      invariant readable <==> AllReadable(v, Walk(v, cluster, Needed(v, remaining)))
      decreases remaining
    {
      WalkStep(v, cluster, remaining);
      var read := ReadCluster(v, cluster);
      if read.None? { return false; }
      var count := Min(remaining, ClusterSize(v));
      CopyCluster(v, cluster, remaining, at, whole, before, buffer);
      at, remaining := at + count, remaining - count;
      cluster := v.fat[cluster];
    }
    return true;
  }

  /** The copy of one cluster, the wanted part of it. */
  method CopyCluster(v: Volume, cluster: u32, remaining: nat, at: nat, ghost whole: seq<u8>, ghost before: seq<u8>,
                     buffer: array<u8>)
    requires Mounted(v) && InUse(cluster) && ReadCluster(v, cluster).Some? && remaining > 0
    requires at + remaining <= buffer.Length == |before| && at <= |whole| && whole[at..] == Left(v, cluster, remaining)
    requires forall k :: 0 <= k < buffer.Length ==> buffer[k] == if k < at then whole[k] else before[k]
    modifies buffer
    ensures var count := Min(remaining, ClusterSize(v));
            && at + count <= |whole|
            && (forall k :: 0 <= k < buffer.Length ==> buffer[k] == if k < at + count then whole[k] else before[k])
            && (count < remaining ==> whole[at + count..] == Left(v, v.fat[cluster], remaining - count))
  {
    WalkStep(v, cluster, remaining);
    var bytes, count := ReadCluster(v, cluster).value, Min(remaining, ClusterSize(v));
    TailStep(whole, at, bytes, Left(v, v.fat[cluster], remaining - count));
    ghost var was := buffer[..];
    Bytes.Copy(buffer, at, bytes[..count]);
    forall k | 0 <= k < buffer.Length
      ensures buffer[k] == if k < at + count then whole[k] else before[k]
    {
      assert buffer[k] == buffer[..][k] && was[k] == if k < at then whole[k] else before[k];
    }
  }

  lemma TailStep(whole: seq<u8>, at: nat, bytes: seq<u8>, rest: seq<u8>)
    requires at <= |whole| && whole[at..] == bytes + rest
    ensures at + |bytes| <= |whole| && whole[at + |bytes|..] == rest
    ensures forall k {:trigger whole[k]} :: at <= k < at + |bytes| ==> whole[k] == bytes[k - at]
  {
    assert forall k {:trigger whole[k]} :: at <= k < at + |bytes| ==> whole[k] == whole[at..][k - at];
    assert |whole[at..]| == |bytes| + |rest|;
    assert forall k :: 0 <= k < |rest| ==> whole[at..][|bytes| + k] == rest[k];
  }

  /** One turn of the data loop takes one cluster off the walk. */
  lemma WalkStep(v: Volume, c: u32, size: nat)
    requires Mounted(v) && InUse(c) && size > 0
    ensures var walk := Walk(v, c, Needed(v, size));
            match ReadCluster(v, c)
            case None => Data(v, walk) == [] && !AllReadable(v, walk)
            case Some(bytes) =>
              var rest := Walk(v, v.fat[c], Needed(v, size - Min(size, ClusterSize(v))));
              && |bytes| == ClusterSize(v)
              && Data(v, walk) == bytes + Data(v, rest)
              && (AllReadable(v, walk) <==> AllReadable(v, rest))
  {
    if ReadCluster(v, c).Some? {
      var rest := Walk(v, v.fat[c], Needed(v, size - Min(size, ClusterSize(v))));
      assert ([c] + rest)[1..] == rest;
    }
  }
}
