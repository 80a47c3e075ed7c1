/** FAT32 directories: listing a directory, and opening a file of the root directory by name. */
module FatDirectory {
  import opened Words
  import opened Arithmetic
  import opened Sequences
  import opened Fat32
  import opened FatChains

  const SPACE: u8 := 0x20
  const DOT: u8 := 0x2E
  const DELETED: u8 := 0xE5
  const SLOT := 32

  datatype Dirent = Dirent(name: seq<u8>, inode: u32)

  type Slot = s: seq<u8> | |s| == SLOT witness seq(SLOT, _ => 0)

  function Word(s: Slot, k: nat): u16
    requires k + 1 < SLOT
  {
    var low: int, high: int := s[k], s[k + 1];
    low + 0x100 * high
  }

  function RawName(s: Slot): seq<u8> {
    s[..11]
  }

  predicate VolumeLabel(s: Slot) {
    (s[11] / 8) % 2 == 1
  }

  function FirstCluster(s: Slot): u32 {
    var high: int, low: int := Word(s, 20), Word(s, 26);
    0x1_0000 * high + low
  }

  function FileSize(s: Slot): u32 {
    var low: int, high: int := Word(s, 28), Word(s, 30);
    low + 0x1_0000 * high
  }

  /** The bytes of a cluster from its i-th slot on, as slots. */
  function SlotsFrom(data: seq<u8>, i: nat): seq<Slot>
    decreases |data| - SLOT * i
  {
    if SLOT * i + SLOT > |data| then []
    else [data[SLOT * i..SLOT * i + SLOT]] + SlotsFrom(data, i + 1)
  }

  /** The whole directory as one list of slots, however it is spread over clusters. */
  function Slots(v: Volume, cs: seq<u32>): seq<Slot> {
    SlotsFrom(Data(v, cs), 0)
  }

  /** The entries a reader may see: up to the end marker, without deleted ones and labels. */
  function Live(slots: seq<Slot>): seq<Slot> {
    if slots == [] || slots[0][0] == 0 then []
    else if slots[0][0] == DELETED || VolumeLabel(slots[0]) then Live(slots[1..])
    else [slots[0]] + Live(slots[1..])
  }

  /** The first slot that carries a name. */
  function FirstNamed(slots: seq<Slot>, name: seq<u8>): Option<Slot> {
    if slots == [] then None
    else if RawName(slots[0]) == name then Some(slots[0])
    else FirstNamed(slots[1..], name)
  }

  lemma {:induction false} SlotsShift(a: seq<u8>, b: seq<u8>, n: nat, i: nat)
    requires |a| == SLOT * n
    ensures SlotsFrom(a + b, n + i) == SlotsFrom(b, i)
    decreases |b| - SLOT * i
  {
    if SLOT * i + SLOT <= |b| {
      SlotsShift(a, b, n, i + 1);
      assert (a + b)[SLOT * (n + i)..SLOT * (n + i) + SLOT] == b[SLOT * i..SLOT * i + SLOT];
    }
  }

  lemma {:induction false} SlotsJoin(a: seq<u8>, b: seq<u8>, n: nat, i: nat)
    requires |a| == SLOT * n && i <= n
    ensures SlotsFrom(a + b, i) == SlotsFrom(a, i) + SlotsFrom(b, 0)
    decreases n - i
  {
    if i == n {
      SlotsShift(a, b, n, 0);
    } else {
      SlotsJoin(a, b, n, i + 1);
      assert (a + b)[SLOT * i..SLOT * i + SLOT] == a[SLOT * i..SLOT * i + SLOT];
    }
  }

  /** A directory's slots are those of its first cluster and then those of the rest. */
  lemma SlotsOfWalk(v: Volume, c: u32, n: nat)
    requires Mounted(v) && n > 0 && InUse(c)
    ensures Slots(v, Walk(v, c, n)) == match ReadCluster(v, c)
              case None => []
              case Some(bytes) => SlotsFrom(bytes, 0) + Slots(v, Walk(v, v.fat[c], n - 1))
  {
    if ReadCluster(v, c).Some? {
      var bytes, rest := ReadCluster(v, c).value, Walk(v, v.fat[c], n - 1);
      assert ([c] + rest)[1..] == rest;
      SlotsJoin(bytes, Data(v, rest), 16 * v.sectorsPerCluster, 0);
    }
  }

  /** The part of a field before its first filler character. */
  function Before(s: seq<u8>, x: u8): (r: seq<u8>)
    ensures |r| <= |s| && r == s[..|r|] && x !in r && (|r| < |s| ==> s[|r|] == x)
  {
    if s == [] || s[0] == x then [] else [s[0]] + Before(s[1..], x)
  }

  /** How `fat32_readdir` shows the eleven name bytes of an entry. */
  function Shown(raw: seq<u8>): seq<u8>
    requires |raw| == 11
  {
    Before(raw[..8], SPACE) + if raw[8] != SPACE then [DOT] + Before(raw[8..], SPACE) else []
  }

  method ShowName(raw: seq<u8>) returns (name: seq<u8>)
    requires |raw| == 11
    ensures name == Shown(raw)
  {
    name := [];
    var j := 0;
    while j < 8 && raw[j] != SPACE
      invariant 0 <= j <= 8 && name == raw[..j] && SPACE !in name
    {
      name := name + [raw[j]];
      j := j + 1;
    }
    OnlyBefore(raw[..8], SPACE, name);
    if raw[8] != SPACE {
      ghost var base := name + [DOT];
      name := name + [DOT];
      j := 8;
      while j < 11 && raw[j] != SPACE
        invariant 8 <= j <= 11 && name == base + raw[8..j] && SPACE !in raw[8..j]
      {
        assert raw[8..j + 1] == raw[8..j] + [raw[j]];
        name := name + [raw[j]];
        j := j + 1;
      }
      OnlyBefore(raw[8..], SPACE, raw[8..j]);
    }
  }

  lemma {:induction false} OnlyBefore(s: seq<u8>, x: u8, r: seq<u8>)
    requires r <= s && x !in r && (|r| < |s| ==> s[|r|] == x)
    ensures r == Before(s, x)
  {
    if r != [] { OnlyBefore(s[1..], x, r[1..]); }
  }

  lemma {:induction false} BeforeStops(s: seq<u8>, x: u8, k: nat)
    requires k < |s| && s[k] == x
    ensures |Before(s, x)| <= k
  {
    if s[0] != x { BeforeStops(s[1..], x, k - 1); }
  }

  function Pad(s: seq<u8>, n: nat): (r: seq<u8>)
    requires |s| <= n
    ensures |r| == n
  {
    s + seq(n - |s|, _ => SPACE)
  }

  /** The eleven bytes `fat32_read_file` looks for. The name ends at its first zero byte; the base
      is what precedes its first dot, and an extension of more than three characters is dropped. */
  function FatName(filename: seq<u8>): (r: seq<u8>)
    ensures |r| == 11
  {
    var text := Before(filename, 0);
    var stem := Before(text, DOT);
    var base := if |stem| > 8 then stem[..8] else stem;
    var extension := if |stem| < |text| && |text| - |stem| - 1 <= 3 then text[|stem| + 1..] else [];
    Pad(base, 8) + Pad(extension, 3)
  }

  /** Name bytes as the format means them: fillers only at the end, and no dot in the base. */
  predicate Canonical(raw: seq<u8>)
    requires |raw| == 11
  {
    && 0 !in raw && DOT !in raw[..8]
    && raw[..8] == Pad(Before(raw[..8], SPACE), 8) && raw[8..] == Pad(Before(raw[8..], SPACE), 3)
  }

  /** A name shown in a listing leads back to its own bytes exactly when those are canonical. */
  lemma NameReadsBack(raw: seq<u8>)
    requires |raw| == 11
    ensures FatName(Shown(raw)) == raw <==> Canonical(raw)
  {
    if Canonical(raw) { CanonicalReadsBack(raw); }
    if FatName(Shown(raw)) == raw { ReadBackIsCanonical(raw); }
  }

  lemma CanonicalReadsBack(raw: seq<u8>)
    requires |raw| == 11 && Canonical(raw)
    ensures FatName(Shown(raw)) == raw
  {
    var b, e := Before(raw[..8], SPACE), Before(raw[8..], SPACE);
    var name := Shown(raw);
    assert name == if raw[8] != SPACE then b + [DOT] + e else b;
    assert Before(name, 0) == name by { OnlyBefore(name, 0, name); }
    assert Before(name, DOT) == b by { OnlyBefore(name, DOT, b); }
    if raw[8] != SPACE { assert name[|b| + 1..] == e; } else { assert e == []; }
    assert raw[..8] + raw[8..] == raw;
  }

  /** The stem of a name is its base or part of it. */
  lemma StemOfShown(b: seq<u8>, suffix: seq<u8>, text: seq<u8>)
    requires text == Before(b + suffix, 0) && (suffix == [] || suffix[0] == DOT)
    ensures Before(text, DOT) <= b
  {
    if |b| < |text| { BeforeStops(text, DOT, |b|); }
  }

  lemma ReadBackIsCanonical(raw: seq<u8>)
    requires |raw| == 11 && FatName(Shown(raw)) == raw
    ensures Canonical(raw)
  {
    var b, e := Before(raw[..8], SPACE), Before(raw[8..], SPACE);
    var suffix := if raw[8] != SPACE then [DOT] + e else [];
    var text := Before(b + suffix, 0);
    var stem := Before(text, DOT);
    var extension := if |stem| < |text| && |text| - |stem| - 1 <= 3 then text[|stem| + 1..] else [];
    StemOfShown(b, suffix, text);
    assert raw == Pad(stem, 8) + Pad(extension, 3);
    assert raw[..8] == Pad(stem, 8) && raw[8..] == Pad(extension, 3);
    PaddedIsCanonical(raw[..8], stem, 8);
    assert extension <= e;
    PaddedIsCanonical(raw[8..], extension, 3);
    assert raw == raw[..8] + raw[8..];
  }

  lemma PaddedIsCanonical(field: seq<u8>, text: seq<u8>, n: nat)
    requires |text| <= n && field == Pad(text, n) && SPACE !in text
    ensures text == Before(field, SPACE)
    ensures forall x :: x in field ==> x in text || x == SPACE
  {
    OnlyBefore(field, SPACE, text);
  }

  /** No cluster repeats along the chain, so that a loop with nothing to find comes to its end. */
  ghost predicate Acyclic(v: Volume, c: u32)
    requires Mounted(v)
  {
    Distinct(Walk(v, c, v.clusterCount + 1))
  }

  ghost function Directory(v: Volume, c: u32): seq<Slot>
    requires Mounted(v)
  {
    Slots(v, Walk(v, c, v.clusterCount + 1))
  }

  /** An end marker is among these slots. */
  predicate Marked(slots: seq<Slot>) {
    slots != [] && (slots[0][0] == 0 || Marked(slots[1..]))
  }

  lemma {:induction false} LiveJoin(a: seq<Slot>, b: seq<Slot>)
    ensures Live(a + b) == Live(a) + if Marked(a) then [] else Live(b)
  {
    if a == [] {
      assert a + b == b;
    } else {
      assert (a + b)[1..] == a[1..] + b;
      LiveJoin(a[1..], b);
    }
  }

  lemma {:induction false} FirstJoin(a: seq<Slot>, b: seq<Slot>, name: seq<u8>)
    ensures FirstNamed(a + b, name) == if FirstNamed(a, name).Some? then FirstNamed(a, name) else FirstNamed(b, name)
  {
    if a == [] {
      assert a + b == b;
    } else {
      assert (a + b)[1..] == a[1..] + b;
      FirstJoin(a[1..], b, name);
    }
  }

  /** What the scan of one cluster comes to: the entry asked for, the end marker, or the number of
      live entries so far. */
  datatype Scan = Found(slot: Slot) | EndMarker | Counted(count: nat)

  /** Where the index-th live entry is, `start` of them having been counted before these slots. */
  ghost function Scanned(slots: seq<Slot>, index: nat, start: nat): Scan
    requires start <= index
  {
    var live := Live(slots);
    if index - start < |live| then Found(live[index - start])
    else if Marked(slots) then EndMarker
    else Counted(start + |live|)
  }

  lemma ScannedStep(all: seq<Slot>, i: nat, index: nat, count: nat)
    requires i < |all| && count <= index
    ensures var slot, rest := all[i], all[i + 1..];
            Scanned(all[i..], index, count) ==
              if slot[0] == 0 then EndMarker
              else if slot[0] == DELETED || VolumeLabel(slot) then Scanned(rest, index, count)
              else if count == index then Found(slot)
              else Scanned(rest, index, count + 1)
  {
    SlotStep(all, i);
  }

  /** The inner loop of `fat32_readdir`, over the slots of one cluster. */
  method ScanCluster(bytes: seq<u8>, slots: nat, index: nat, start: nat) returns (r: Scan)
    requires |bytes| == SLOT * slots && start <= index
    ensures r == Scanned(SlotsFrom(bytes, 0), index, start)
  {
    var i, count := 0, start;
    ghost var all := SlotsFrom(bytes, 0);
    SlotsAre(bytes, slots, 0);
    while i < slots
      invariant 0 <= i <= slots && start <= count <= index
      invariant Scanned(all, index, start) == Scanned(all[i..], index, count)
    {
      var slot: Slot := bytes[SLOT * i..SLOT * i + SLOT];
      assert slot == all[i];
      ScannedStep(all, i, index, count);
      if slot[0] == 0 { return EndMarker; }
      if slot[0] != DELETED && !VolumeLabel(slot) {
        if count == index { return Found(slot); }
        count := count + 1;
      }
      i := i + 1;
    }
    return Counted(count);
  }

  /** A cluster's slots are its 32-byte pieces. */
  lemma {:induction false} SlotsAre(bytes: seq<u8>, slots: nat, i: nat)
    requires |bytes| == SLOT * slots && i <= slots
    ensures |SlotsFrom(bytes, i)| == slots - i
    ensures forall k {:trigger SlotsFrom(bytes, i)[k]} :: 0 <= k < slots - i ==>
              SlotsFrom(bytes, i)[k] == bytes[SLOT * (i + k)..SLOT * (i + k) + SLOT]
    decreases slots - i
  {
    if i < slots {
      SlotsAre(bytes, slots, i + 1);
      var rest := SlotsFrom(bytes, i + 1);
      assert forall k {:trigger SlotsFrom(bytes, i)[k]} :: 0 < k < slots - i ==> SlotsFrom(bytes, i)[k] == rest[k - 1];
    }
  }

  lemma SlotStep(all: seq<Slot>, i: nat)
    requires i < |all|
    ensures var slot, rest := all[i], all[i + 1..];
            && (Marked(all[i..]) <==> slot[0] == 0 || Marked(rest))
            && Live(all[i..]) == (if slot[0] == 0 then []
                                  else if slot[0] == DELETED || VolumeLabel(slot) then Live(rest)
                                  else [slot] + Live(rest))
            && forall name :: FirstNamed(all[i..], name) == if RawName(slot) == name then Some(slot) else FirstNamed(rest, name)
  {
    assert all[i..][1..] == all[i + 1..] && all[i..][0] == all[i];
  }

  /** Scanning two stretches one after the other. */
  lemma ScannedJoin(a: seq<Slot>, b: seq<Slot>, index: nat, count: nat)
    requires count <= index
    ensures Scanned(a, index, count).Counted? ==> Scanned(a, index, count).count <= index
    ensures Scanned(a + b, index, count) == match Scanned(a, index, count)
              case Counted(more) => Scanned(b, index, more)
              case done => done
  {
    LiveJoin(a, b);
    MarkedJoin(a, b);
  }

  lemma {:induction false} MarkedJoin(a: seq<Slot>, b: seq<Slot>)
    ensures Marked(a + b) <==> Marked(a) || Marked(b)
  {
    if a == [] {
      assert a + b == b;
    } else {
      assert (a + b)[1..] == a[1..] + b;
      MarkedJoin(a[1..], b);
    }
  }

  /** The scan of a chain from one of its clusters on. */
  ghost function ScannedFrom(v: Volume, c: u32, n: nat, index: nat, count: nat): Scan
    requires Mounted(v) && count <= index
  {
    Scanned(Slots(v, Walk(v, c, n)), index, count)
  }

  lemma ScannedCluster(v: Volume, c: u32, n: nat, index: nat, count: nat)
    requires Mounted(v) && count <= index && Ends(v, c, n)
    ensures !InUse(c) ==> ScannedFrom(v, c, n, index, count) == Counted(count)
    ensures InUse(c) ==> match ReadCluster(v, c)
              case None => ScannedFrom(v, c, n, index, count) == Counted(count)
              case Some(bytes) =>
                var here := Scanned(SlotsFrom(bytes, 0), index, count);
                && n > 0 && Ends(v, v.fat[c], n - 1) && (here.Counted? ==> here.count <= index)
                && ScannedFrom(v, c, n, index, count) ==
                     if here.Counted? then ScannedFrom(v, v.fat[c], n - 1, index, here.count) else here
  {
    if InUse(c) {
      SlotsOfWalk(v, c, n);
      if ReadCluster(v, c).Some? {
        ScannedJoin(SlotsFrom(ReadCluster(v, c).value, 0), Slots(v, Walk(v, v.fat[c], n - 1)), index, count);
      }
    }
  }

  /** `fat32_readdir`: the index-th live entry before the end marker, counted over the whole chain. */
  method Readdir(v: Volume, inode: u32, index: u32) returns (entry: Option<Dirent>)
    requires Mounted(v) && Acyclic(v, inode)
    ensures var live := Live(Directory(v, inode));
            entry == if index < |live| then Some(Dirent(Shown(RawName(live[index])), FirstCluster(live[index]))) else None
  {
    EndsIffAcyclic(v, inode);
    var scan := ReaddirScan(v, inode, index);
    if scan.Found? {
      var name := ShowName(RawName(scan.slot));
      return Some(Dirent(name, FirstCluster(scan.slot)));
    }
    return None;
  }

  /** Its loop over the clusters of the chain. */
  method ReaddirScan(v: Volume, inode: u32, index: u32) returns (scan: Scan)
    requires Mounted(v) && Ends(v, inode, v.clusterCount + 1)
    ensures scan == Scanned(Directory(v, inode), index, 0)
  {
    var cluster, count: nat := inode, 0;
    ghost var answer, n: nat := ScannedFrom(v, inode, v.clusterCount + 1, index, 0), v.clusterCount + 1;
    while InUse(cluster)
      invariant Ends(v, cluster, n) && count <= index && answer == ScannedFrom(v, cluster, n, index, count)
      decreases n
    {
      ScannedCluster(v, cluster, n, index, count);
      var read := ReadCluster(v, cluster);
      if read.None? { return Counted(count); }
      scan := ScanCluster(read.value, 16 * v.sectorsPerCluster, index, count);
      if !scan.Counted? { return; }
      count := scan.count;
      cluster := v.fat[cluster];
      n := n - 1;
    }
    ScannedCluster(v, cluster, n, index, count);
    return Counted(count);
  }

  /** The inner loop of the search, over the slots of one cluster. */
  method FindInCluster(bytes: seq<u8>, slots: nat, name: seq<u8>) returns (found: Option<Slot>)
    requires |bytes| == SLOT * slots
    ensures found == FirstNamed(SlotsFrom(bytes, 0), name)
  {
    var i := 0;
    ghost var all := SlotsFrom(bytes, 0);
    SlotsAre(bytes, slots, 0);
    while i < slots
      invariant 0 <= i <= slots && FirstNamed(all, name) == FirstNamed(all[i..], name)
    {
      var slot: Slot := bytes[SLOT * i..SLOT * i + SLOT];
      assert slot == all[i];
      SlotStep(all, i);
      if RawName(slot) == name { return Some(slot); }
      i := i + 1;
    }
    return None;
  }

  /** The root directory search of `fat32_read_file`. It minds neither the end marker nor deleted
      entries and labels. */
  method Search(v: Volume, root: u32, name: seq<u8>) returns (found: Option<Slot>)
    requires Mounted(v) && Acyclic(v, root)
    ensures found == FirstNamed(Directory(v, root), name)
  {
    EndsIffAcyclic(v, root);
    var cluster := root;
    ghost var n: nat := v.clusterCount + 1;
    ghost var answer := FirstNamed(Directory(v, root), name);
    while InUse(cluster)
      invariant Ends(v, cluster, n) && answer == FirstNamed(Slots(v, Walk(v, cluster, n)), name)
      decreases n
    {
      SlotsOfWalk(v, cluster, n);
      var read := ReadCluster(v, cluster);
      if read.None? { return None; }
      ghost var later := Slots(v, Walk(v, v.fat[cluster], n - 1));
      FirstJoin(SlotsFrom(read.value, 0), later, name);
      found := FindInCluster(read.value, 16 * v.sectorsPerCluster, name);
      if found.Some? { return found; }
      cluster := v.fat[cluster];
      n := n - 1;
    }
    return None;
  }

  /** `fat32_read_file`: search and data loop together. */
  method ReadFile(v: Volume, root: u32, filename: seq<u8>, buffer: array<u8>) returns (ok: bool, size: u32)
    requires Mounted(v) && Acyclic(v, root)
    requires var entry := FirstNamed(Directory(v, root), FatName(filename));
             entry.Some? ==> FileSize(entry.value) <= buffer.Length
    modifies buffer
    ensures match FirstNamed(Directory(v, root), FatName(filename))
            case None => !ok && buffer[..] == old(buffer[..])
            case Some(entry) =>
              && size == FileSize(entry)
              && (ok <==> AllReadable(v, Walk(v, FirstCluster(entry), Needed(v, size))))
              && var data := Left(v, FirstCluster(entry), size);
                 forall k :: 0 <= k < buffer.Length ==>
                     buffer[k] == if k < Min(|data|, size) then data[k] else old(buffer[k])
  {
    var found := Search(v, root, FatName(filename));
    if found.None? { return false, 0; }
    size := FileSize(found.value);
    ok := ReadData(v, FirstCluster(found.value), size, buffer);
  }

  /** Slot p is the first with these name bytes. */
  ghost predicate FirstCarrier(slots: seq<Slot>, p: nat, name: seq<u8>) {
    p < |slots| && RawName(slots[p]) == name && forall q :: 0 <= q < p ==> RawName(slots[q]) != name
  }

  lemma {:induction false} FirstNamedMeans(slots: seq<Slot>, name: seq<u8>)
    ensures match FirstNamed(slots, name)
            case Some(entry) => exists p: nat :: FirstCarrier(slots, p, name) && slots[p] == entry
            case None => forall q :: 0 <= q < |slots| ==> RawName(slots[q]) != name
  {
    if slots != [] {
      var rest := slots[1..];
      FirstNamedMeans(rest, name);
      if RawName(slots[0]) == name {
        assert FirstCarrier(slots, 0, name);
      } else if FirstNamed(rest, name).Some? {
        var p: nat :| FirstCarrier(rest, p, name) && rest[p] == FirstNamed(rest, name).value;
        assert forall q :: 0 < q < |slots| ==> slots[q] == rest[q - 1];
        assert FirstCarrier(slots, p + 1, name);
      } else {
        assert forall q :: 0 < q < |slots| ==> slots[q] == rest[q - 1];
      }
    }
  }

  /** Of the slots with a name, the search finds the first and no other. */
  lemma FoundIsFirst(slots: seq<Slot>, p: nat, name: seq<u8>)
    requires FirstCarrier(slots, p, name)
    ensures FirstNamed(slots, name) == Some(slots[p])
  {
    FirstNamedMeans(slots, name);
    var q: nat :| FirstCarrier(slots, q, name) && FirstNamed(slots, name) == Some(slots[q]);
    assert q == p;
  }

  /** An entry that a listing of the root shows is opened under the name shown exactly when its name
      bytes are canonical and it is the first slot of the directory that carries them. */
  lemma ListedCanBeOpened(slots: seq<Slot>, index: nat)
    requires index < |Live(slots)|
    ensures var entry := Live(slots)[index];
            var raw := RawName(entry);
            FirstNamed(slots, FatName(Shown(raw))) == Some(entry) <==>
              Canonical(raw) && exists p: nat :: FirstCarrier(slots, p, raw) && slots[p] == entry
  {
    var entry := Live(slots)[index];
    var raw := RawName(entry);
    NameReadsBack(raw);
    FirstNamedMeans(slots, FatName(Shown(raw)));
    if p: nat :| FirstCarrier(slots, p, raw) && slots[p] == entry { FoundIsFirst(slots, p, raw); }
  }

  /** A volume label with the name bytes of a file behind it: the listing passes over the label, and
      the name it shows for the file opens the label. */
  lemma LabelShadowsFile(lab: Slot, file: Slot, rest: seq<Slot>)
    requires RawName(lab) == RawName(file) && Canonical(RawName(file)) && file[0] != DELETED
    requires VolumeLabel(lab) && !VolumeLabel(file)
    ensures var slots := [lab, file] + rest;
            && Live(slots) == [file] + Live(rest)
            && FirstNamed(slots, FatName(Shown(RawName(file)))) == Some(lab) != Some(file)
  {
    var slots := [lab, file] + rest;
    NameReadsBack(RawName(file));
    assert lab[0] == RawName(lab)[0] == file[0];
    SlotStep(slots, 0);
    SlotStep(slots, 1);
    assert slots[2..] == rest && slots[0..] == slots;
  }

  /** An entry with a dot inside its base: it is listed, and the name shown does not find it. What
      it finds, if anything, is another entry. */
  lemma DottedNameCannotBeOpened(slot: Slot, rest: seq<Slot>)
    requires RawName(slot)[..3] == [0x41, DOT, 0x42] && !VolumeLabel(slot)
    ensures Live([slot] + rest) == [slot] + Live(rest)
    ensures var name := FatName(Shown(RawName(slot)));
            FirstNamed([slot] + rest, name) == FirstNamed(rest, name) != Some(slot)
  {
    var raw := RawName(slot);
    assert slot[0] == raw[..3][0] && raw[..8][1] == raw[..3][1] == DOT;
    assert ([slot] + rest)[1..] == rest;
    NameReadsBack(raw);
    FirstNamedMeans(rest, FatName(Shown(raw)));
  }
}
