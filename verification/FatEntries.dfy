/** Directory entries octet by octet: where each field lies, and what the listing and the open make of an
    entry laid out so. */
module FatEntries {
  import opened Words
  import opened Arithmetic
  import opened Fat32
  import opened FatDirectory

  /** The 32 octets of an entry; `times` are the twelve that hold dates and times. Each number has its
      low octet first, and the cluster number is split. */
  function Layout(name: seq<u8>, attributes: u8, times: seq<u8>, cluster: u32, size: u32): (s: Slot)
    requires |name| == 11 && |times| == 12
  {
    name + [attributes] + times[..8]
    + [cluster / 0x1_0000 % 0x100, cluster / 0x100_0000]
    + times[8..]
    + [cluster % 0x100, cluster / 0x100 % 0x100]
    + [size % 0x100, size / 0x100 % 0x100, size / 0x1_0000 % 0x100, size / 0x100_0000]
  }

  lemma PlacesOfLayout(name: seq<u8>, attributes: u8, times: seq<u8>, cluster: u32, size: u32)
    requires |name| == 11 && |times| == 12
    ensures var s := Layout(name, attributes, times, cluster, size);
            && s[..11] == name && s[11] == attributes
            && s[20] == cluster / 0x1_0000 % 0x100 && s[21] == cluster / 0x100_0000
            && s[26] == cluster % 0x100 && s[27] == cluster / 0x100 % 0x100
            && s[28] == size % 0x100 && s[29] == size / 0x100 % 0x100
            && s[30] == size / 0x1_0000 % 0x100 && s[31] == size / 0x100_0000
  {
  }

  lemma OctetsMakeNumber(x: u32)
    ensures x == x % 0x100 + 0x100 * (x / 0x100 % 0x100) + 0x1_0000 * (x / 0x1_0000 % 0x100 + 0x100 * (x / 0x100_0000))
  {
    OctetsMakeWord(x % 0x1_0000, x / 0x1_0000);
  }

  lemma OctetsMakeWord(low: int, high: int)
    requires 0 <= low < 0x1_0000 && 0 <= high < 0x1_0000
    ensures var x := low + 0x1_0000 * high;
            && x % 0x100 == low % 0x100 && x / 0x100 % 0x100 == low / 0x100
            && x / 0x1_0000 % 0x100 == high % 0x100 && x / 0x100_0000 == high / 0x100
  {
  }

  /** Every field of an entry comes back from its octets. */
  lemma FieldsComeBack(name: seq<u8>, attributes: u8, times: seq<u8>, cluster: u32, size: u32)
    requires |name| == 11 && |times| == 12
    ensures var s := Layout(name, attributes, times, cluster, size);
            && RawName(s) == name && FirstCluster(s) == cluster && FileSize(s) == size
            && (VolumeLabel(s) <==> attributes / 8 % 2 == 1)
  {
    PlacesOfLayout(name, attributes, times, cluster, size);
    OctetsMakeNumber(cluster);
    OctetsMakeNumber(size);
  }

  // ----- which entries a listing shows

  /** No slot starts with the end marker. */
  predicate Unmarked(slots: seq<Slot>) {
    forall i :: 0 <= i < |slots| ==> slots[i][0] != 0x00
  }

  lemma {:induction false} UnmarkedMeans(slots: seq<Slot>)
    ensures Marked(slots) <==> !Unmarked(slots)
  {
    if slots != [] {
      UnmarkedMeans(slots[1..]);
      assert forall i :: 1 <= i < |slots| ==> slots[i] == slots[1..][i - 1];
      if !Unmarked(slots) && slots[0][0] != 0 {
        var i :| 0 <= i < |slots| && slots[i][0] == 0;
        assert slots[1..][i - 1][0] == 0;
      }
    }
  }

  /** An entry is listed, with its name and cluster, exactly when no slot before it starts with 0x00, it
      starts with neither 0x00 nor 0xE5, and bit 3 of its attributes is clear; what is listed of the
      slots around it does not depend on it, unless it ends the directory. */
  lemma EntryIsListed(before: seq<Slot>, after: seq<Slot>, name: seq<u8>, attributes: u8, times: seq<u8>, cluster: u32, size: u32)
    requires |name| == 11 && |times| == 12
    ensures var s := Layout(name, attributes, times, cluster, size);
            Live(before + [s] + after) ==
              if !Unmarked(before) then Live(before)
              else if name[0] == 0x00 then Live(before)
              else if name[0] == 0xE5 || attributes / 8 % 2 == 1 then Live(before) + Live(after)
              else Live(before) + [s] + Live(after)
  {
    var s := Layout(name, attributes, times, cluster, size);
    FieldsComeBack(name, attributes, times, cluster, size);
    assert s[0] == RawName(s)[0] == name[0];
    assert before + [s] + after == before + ([s] + after) && ([s] + after)[1..] == after;
    LiveJoin(before, [s] + after);
    UnmarkedMeans(before);
    if Unmarked(before) && name[0] != 0 && name[0] != 0xE5 && attributes / 8 % 2 == 0 {
      assert Live(before) + ([s] + Live(after)) == Live(before) + [s] + Live(after);
    }
  }

  /** What the listing and the open of a directory make of such an entry: the listing shows its name and
      its cluster, and opening a name that converts to its own octets, no slot before it having them,
      finds its cluster and its size. */
  lemma EntryIsShownAndOpened(before: seq<Slot>, after: seq<Slot>, name: seq<u8>, attributes: u8, times: seq<u8>, cluster: u32, size: u32)
    requires |name| == 11 && |times| == 12 && Unmarked(before)
    requires name[0] != 0x00 && name[0] != 0xE5 && attributes / 8 % 2 == 0
    ensures var slots := before + [Layout(name, attributes, times, cluster, size)] + after;
            && |Live(before)| < |Live(slots)|
            && var shown := Live(slots)[|Live(before)|];
               Dirent(Shown(RawName(shown)), FirstCluster(shown)) == Dirent(Shown(name), cluster)
    ensures var slots := before + [Layout(name, attributes, times, cluster, size)] + after;
            (forall i :: 0 <= i < |before| ==> before[i][..11] != name) ==>
              && FirstNamed(slots, name).Some?
              && FirstCluster(FirstNamed(slots, name).value) == cluster && FileSize(FirstNamed(slots, name).value) == size
  {
    var s := Layout(name, attributes, times, cluster, size);
    FieldsComeBack(name, attributes, times, cluster, size);
    EntryIsListed(before, after, name, attributes, times, cluster, size);
    if forall i :: 0 <= i < |before| ==> before[i][..11] != name {
      assert FirstCarrier(before + [s] + after, |before|, name);
      FoundIsFirst(before + [s] + after, |before|, name);
    }
  }

  /** Attribute octets by value: 0x08 is a label and 0x0F part of a long name, directories (0x10) and
      archived files (0x20) are listed. */
  lemma CommonAttributes(name: seq<u8>, times: seq<u8>, cluster: u32, size: u32)
    requires |name| == 11 && |times| == 12
    ensures VolumeLabel(Layout(name, 0x08, times, cluster, size)) && VolumeLabel(Layout(name, 0x0F, times, cluster, size))
    ensures !VolumeLabel(Layout(name, 0x10, times, cluster, size)) && !VolumeLabel(Layout(name, 0x20, times, cluster, size))
  {
    FieldsComeBack(name, 0x08, times, cluster, size);
    FieldsComeBack(name, 0x0F, times, cluster, size);
    FieldsComeBack(name, 0x10, times, cluster, size);
    FieldsComeBack(name, 0x20, times, cluster, size);
  }

  // ----- which cluster numbers go on

  /** A chain stops at a number below 2 or from 0x0FFFFFF8 on; any other cluster within the volume is
      read from its own sectors, and the table says where the chain goes. */
  lemma ChainGoesOn(v: Volume, c: u32, n: nat, sectors: nat)
    requires Mounted(v) && n > 0
    ensures Walk(v, c, n) == [] <==> c < 2 || c >= 0x0FFF_FFF8
    ensures 2 <= c < v.clusterCount + 2 && c < 0x0FFF_FFF8 && sectors == (c - 2) * v.sectorsPerCluster
            && v.dataStart + sectors < 0x1_0000_0000 ==>
              var lba := v.dataStart + sectors;
              && ReadCluster(v, c) == (if lba in v.disk then Some(v.disk[lba]) else None)
              && Walk(v, c, n) == [c] + (if lba in v.disk then Walk(v, v.fat[c], n - 1) else [])
  {
    if 2 <= c < v.clusterCount + 2 && sectors == (c - 2) * v.sectorsPerCluster && v.dataStart + sectors < 0x1_0000_0000 {
      LbaWithoutWrap(v, c, sectors);
    }
  }

  // ----- which byte lies where

  lemma {:induction false} DataLength(v: Volume, cs: seq<u32>)
    requires Mounted(v) && AllReadable(v, cs)
    ensures |Data(v, cs)| == Times(|cs|, ClusterSize(v))
  {
    if cs != [] { DataLength(v, cs[1..]); }
  }

  /** The bytes of a chain are those of its clusters end to end: byte k of its i-th cluster is as many
      whole clusters and k bytes from its start. */
  lemma {:induction false} FileByteAt(v: Volume, cs: seq<u32>, i: nat, k: nat)
    requires Mounted(v) && AllReadable(v, cs) && i < |cs| && k < ClusterSize(v)
    ensures var at := Times(i, ClusterSize(v)) + k;
            at < |Data(v, cs)| && ReadCluster(v, cs[i]).Some? && Data(v, cs)[at] == ReadCluster(v, cs[i]).value[k]
  {
    DataLength(v, cs[1..]);
    if i > 0 { FileByteAt(v, cs[1..], i - 1, k); }
  }

  // ----- names as typed

  lemma TextBefore(text: seq<u8>, x: u8, behind: seq<u8>)
    requires x !in text && (behind == [] || behind[0] == x)
    ensures Before(text + behind, x) == text
  {
    OnlyBefore(text + behind, x, text);
  }

  /** The two pieces of a name, and its fields. */
  lemma PiecesOfName(filename: seq<u8>, base: seq<u8>, suffix: seq<u8>, extension: seq<u8>)
    requires Before(filename, 0) == base + suffix && DOT !in base
    requires suffix == [] || suffix == [DOT] + extension
    ensures FatName(filename) ==
              Pad(if |base| > 8 then base[..8] else base, 8) + Pad(if suffix != [] && |extension| <= 3 then extension else [], 3)
  {
    TextBefore(base, DOT, suffix);
    if suffix != [] { assert (base + suffix)[|base| + 1..] == extension; }
  }

  lemma OctetsOfFields(a: seq<u8>, b: seq<u8>)
    requires |a| <= 8 && |b| <= 3
    ensures var r := Pad(a, 8) + Pad(b, 3);
            && (forall k :: 0 <= k < 8 ==> r[k] == if k < |a| then a[k] else 0x20)
            && (forall k :: 0 <= k < 3 ==> r[8 + k] == if k < |b| then b[k] else 0x20)
  {
  }

  /** How a file name is converted, octet by octet: up to eight from before its first dot, up to three
      from behind it and none of a longer rest, and spaces; what follows the terminating zero does not
      matter. */
  lemma NameConverts(base: seq<u8>, suffix: seq<u8>, extension: seq<u8>, junk: seq<u8>)
    requires 0 !in base && 0x2E !in base && 0 !in suffix && (suffix == [] || suffix == [0x2E] + extension)
    ensures var r := FatName(base + suffix + ([0] + junk));
            && (forall k :: 0 <= k < 8 ==> r[k] == if k < |base| then base[k] else 0x20)
            && (forall k :: 0 <= k < 3 ==>
                  r[8 + k] == if suffix != [] && |extension| <= 3 && k < |extension| then extension[k] else 0x20)
  {
    TextBefore(base + suffix, 0, [0] + junk);
    PiecesOfName(base + suffix + ([0] + junk), base, suffix, extension);
    OctetsOfFields(if |base| > 8 then base[..8] else base, if suffix != [] && |extension| <= 3 then extension else []);
  }
}
