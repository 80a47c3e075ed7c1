/** What the receivers' checksum tests notice: sums written out octet by octet, and exactly which changed
    packets are still taken. */
module Tampering {
  import opened Arithmetic
  import opened Words
  import opened Checksum
  import opened Packets
  import opened RoundTrips

  // ----- sums by position

  /** What the octet at place i of n counts for: the high half of its word, as does a last odd one. */
  function Weight(i: nat, n: nat): int {
    if i % 2 == 1 || i + 1 == n then 0x100 else 1
  }

  /** The first k octets, each at its weight. */
  function Weighed(s: Octets, k: nat): int
    requires k <= |s|
  {
    if k == 0 then 0 else Weighed(s, k - 1) + Weight(k - 1, |s|) * s[k - 1]
  }

  lemma {:induction false} WeighedBehindPair(s: Octets, k: nat)
    requires |s| >= 2 && k + 2 <= |s|
    ensures Weighed(s, k + 2) == s[0] + 0x100 * s[1] + Weighed(s[2..], k)
  {
    if k == 0 {
      assert Weighed(s, 1) == Weight(0, |s|) * s[0] && Weighed(s, 2) == Weighed(s, 1) + Weight(1, |s|) * s[1];
    } else {
      WeighedBehindPair(s, k - 1);
      assert s[2..][k - 1] == s[k + 1] && Weight(k - 1, |s[2..]|) == Weight(k + 1, |s|);
    }
  }

  /** The data loop adds up exactly the octets at their weights. */
  lemma {:induction false} DataIsWeighed(s: Octets)
    ensures SumOddHigh(s) == Weighed(s, |s|)
  {
    if |s| == 1 {
      assert Weighed(s, 1) == Weight(0, 1) * s[0];
    } else if |s| > 1 {
      DataIsWeighed(s[2..]);
      WeighedBehindPair(s, |s| - 2);
    }
  }

  lemma {:induction false} WeighedChanged(s: Octets, j: nat, x: u8, k: nat)
    requires j < |s| && k <= |s|
    ensures Weighed(s[j := x], k) == Weighed(s, k) + if j < k then Weight(j, |s|) * (x - s[j]) else 0
  {
    if k > 0 { WeighedChanged(s, j, x, k - 1); }
  }

  lemma ResiduesDiffer(a: int, d: int)
    requires 0 < d < 0xFFFF || -0xFFFF < d < 0
    ensures (a + d) % 0xFFFF != a % 0xFFFF
  {
    SameIffMultiple(a, a + d);
  }

  lemma SameIffMultiple(a: int, b: int)
    ensures (b - a) % 0xFFFF == 0 <==> a % 0xFFFF == b % 0xFFFF
  {
    AddMultiple(a % 0xFFFF - b % 0xFFFF, b / 0xFFFF - a / 0xFFFF);
    AddMultiple(a, (b - a) / 0xFFFF);
  }

  lemma SameResidue(total: int, a: int, b: int)
    requires total % 0xFFFF == 0
    ensures (total - a + b) % 0xFFFF == 0 <==> a % 0xFFFF == b % 0xFFFF
  {
    AddMultiple(b - a, total / 0xFFFF);
    SameIffMultiple(a, b);
  }

  // ----- datagrams

  /** The 32-bit address as the four octets that hold it. */
  function AddressSum(address: u32): int {
    WordAt(Store32(address), 0) + WordAt(Store32(address), 2)
  }

  /** The 16-bit words of the header, the length counted twice and the checksum left out. */
  function HeaderSum(p: Octets): int
    requires |p| >= 8
  {
    var a: int, b: int, c: int := WordAt(p, 0), WordAt(p, 2), WordAt(p, 4);
    a + b + 2 * c
  }

  /** Everything the sender of a datagram adds up: both addresses, the protocol, the header, and each
      octet of the data. */
  function DatagramSum(src: u32, dest: u32, p: Octets): int
    requires |p| >= 8
  {
    AddressSum(src) + AddressSum(dest) + 17 + HeaderSum(p) + Weighed(p[8..], |p| - 8)
  }

  lemma HalvesAreOctets(address: u32)
    ensures address / 0x1_0000 + address % 0x1_0000 == AddressSum(address) >= 0
  {
    LongRoundTrips(address);
    TwoWords(WordAt(Store32(address), 0), WordAt(Store32(address), 2));
  }

  lemma TwoWords(low: int, high: int)
    requires 0 <= low < 0x1_0000
    ensures (low + 0x1_0000 * high) / 0x1_0000 == high && (low + 0x1_0000 * high) % 0x1_0000 == low
  {
  }

  lemma ChecksumIsOfSum(src: u32, dest: u32, p: Octets)
    requires |p| >= 8
    ensures DatagramSum(src, dest, p) > 0
    ensures UdpChecksum(src, dest, p) == Complement(Fold(DatagramSum(src, dest, p)))
  {
    HalvesAreOctets(src);
    HalvesAreOctets(dest);
    DataIsWeighed(p[8..]);
  }

  /** A datagram is intact as far as its checksum word can tell. */
  ghost predicate SumsUp(src: u32, dest: u32, p: Octets)
    requires |p| >= 8
  {
    (DatagramSum(src, dest, p) + WordAt(p, 6)) % 0xFFFF == 0 && WordAt(p, 6) != 0xFFFF
  }

  ghost predicate Bound(sockets: seq<Socket>, port: u16) {
    exists i :: 0 <= i < |sockets| && sockets[i] == Socket(port, true)
  }

  /** Exactly which datagrams are heard: those to a bound port whose sum and checksum word together are
      a multiple of 65535, the word not being 0xFFFF. */
  lemma HeardIffSumsUp(sockets: seq<Socket>, ip: u32, src: u32, p: Octets)
    requires |p| >= 8
    ensures HandleUdp(sockets, ip, src, p).Heard? <==> Bound(sockets, Load16(p, 2)) && SumsUp(src, ip, p)
  {
    ChecksumIsOfSum(src, ip, p);
    MatchesIffMultiple(DatagramSum(src, ip, p), WordAt(p, 6));
  }

  lemma MatchesIffMultiple(sum: nat, w: u16)
    requires sum > 0
    ensures Complement(Fold(sum)) == w <==> (sum + w) % 0xFFFF == 0 && w != 0xFFFF
  {
    FoldWithWord(sum, w);
    ResiduesMeet(Fold(sum + w), if (sum + w) % 0xFFFF == 0 then 0xFFFF else Fold(sum + w));
  }

  lemma SameHeader(p: Octets, q: Octets)
    requires |p| >= 8 && |q| >= 8 && p[..8] == q[..8]
    ensures HeaderSum(p) == HeaderSum(q) && WordAt(p, 6) == WordAt(q, 6) && Load16(p, 2) == Load16(q, 2)
  {
    assert forall k :: 0 <= k < 8 ==> p[k] == p[..8][k] == q[..8][k] == q[k];
  }

  /** Two datagrams to the same port with the same checksum word, of which one was heard. */
  lemma OtherIsHeardIff(sockets: seq<Socket>, ip: u32, src: u32, p: Octets, other: u32, q: Octets)
    requires |p| >= 8 && |q| >= 8 && WordAt(p, 6) == WordAt(q, 6) && Load16(p, 2) == Load16(q, 2)
    requires HandleUdp(sockets, ip, src, p).Heard?
    ensures HandleUdp(sockets, ip, other, q).Heard? <==>
              DatagramSum(src, ip, p) % 0xFFFF == DatagramSum(other, ip, q) % 0xFFFF
  {
    HeardIffSumsUp(sockets, ip, src, p);
    HeardIffSumsUp(sockets, ip, other, q);
    SameResidue(DatagramSum(src, ip, p) + WordAt(p, 6), DatagramSum(src, ip, p), DatagramSum(other, ip, q));
  }

  /** Sums that differ in one part agree exactly if the parts do. */
  lemma PartsAgree(sum: int, total: int, a: int, b: int)
    requires sum - a == total - b
    ensures sum % 0xFFFF == total % 0xFFFF <==> a % 0xFFFF == b % 0xFFFF
  {
    SameIffMultiple(sum, total);
    SameIffMultiple(a, b);
  }

  /** A datagram as it was sent, but for its data. */
  function Replaced(src: u32, dest: u32, from: u16, to: u16, data: Octets, bad: Octets): Octets
    requires 8 + |data| <= 0xFFFF
  {
    UdpPacket(src, dest, from, to, data)[..8] + bad
  }

  /** A datagram whose data was replaced by as much other data on the way is heard exactly when the two
      data sums, octet by octet by position, agree modulo 65535. */
  lemma ReplacedDataIsHeardIff(sockets: seq<Socket>, src: u32, dest: u32, from: u16, to: u16, data: Octets, bad: Octets)
    requires |bad| == |data| && 8 + |data| <= 0xFFFF && FindSocket(sockets, to) < |sockets|
    ensures HandleUdp(sockets, dest, src, Replaced(src, dest, from, to, data, bad)).Heard? <==>
              Weighed(data, |data|) % 0xFFFF == Weighed(bad, |bad|) % 0xFFFF
  {
    var sent, p := UdpPacket(src, dest, from, to, data), Replaced(src, dest, from, to, data, bad);
    UdpRoundTrips(sockets, src, dest, from, to, data);
    assert sent[8..] == data && p[8..] == bad && p[..8] == sent[..8];
    SameHeader(sent, p);
    OtherIsHeardIff(sockets, dest, src, sent, src, p);
    PartsAgree(DatagramSum(src, dest, sent), DatagramSum(src, dest, p), Weighed(data, |data|), Weighed(bad, |bad|));
  }

  /** One changed data octet is always noticed. */
  lemma ChangedOctetIsUnheard(sockets: seq<Socket>, src: u32, dest: u32, from: u16, to: u16, data: Octets, j: nat, x: u8)
    requires 8 + |data| <= 0xFFFF && j < |data| && x != data[j] && FindSocket(sockets, to) < |sockets|
    ensures HandleUdp(sockets, dest, src, Replaced(src, dest, from, to, data, data[j := x])) == Unheard
  {
    ReplacedDataIsHeardIff(sockets, src, dest, from, to, data, data[j := x]);
    WeighedChanged(data, j, x, |data|);
    ResiduesDiffer(Weighed(data, |data|), Weight(j, |data|) * (x - data[j]));
  }

  /** A datagram that arrives under another source address is heard exactly when the sums of the two
      addresses agree modulo 65535. */
  lemma OtherSourceIsHeardIff(sockets: seq<Socket>, ip: u32, src: u32, p: Octets, other: u32)
    requires |p| >= 8 && HandleUdp(sockets, ip, src, p).Heard?
    ensures HandleUdp(sockets, ip, other, p).Heard? <==> AddressSum(src) % 0xFFFF == AddressSum(other) % 0xFFFF
  {
    OtherIsHeardIff(sockets, ip, src, p, other, p);
    PartsAgree(DatagramSum(src, ip, p), DatagramSum(other, ip, p), AddressSum(src), AddressSum(other));
  }

  /** One whose source port was changed on the way is heard exactly when the ports are the same or 0 and
      65535. */
  lemma OtherPortIsHeardIff(sockets: seq<Socket>, ip: u32, src: u32, p: Octets, q: Octets)
    requires |p| >= 8 && |q| >= 2 && q[2..] == p[2..] && HandleUdp(sockets, ip, src, p).Heard?
    ensures HandleUdp(sockets, ip, src, q).Heard? <==>
              Load16(p, 0) == Load16(q, 0) || {Load16(p, 0), Load16(q, 0)} == {0, 0xFFFF}
  {
    SameBehindPort(p, q);
    OtherIsHeardIff(sockets, ip, src, p, src, q);
    PartsAgree(DatagramSum(src, ip, p), DatagramSum(src, ip, q), WordAt(p, 0), WordAt(q, 0));
    PortsAgree(WordAt(p, 0), WordAt(q, 0));
  }

  lemma SameBehindPort(p: Octets, q: Octets)
    requires |p| >= 8 && |q| >= 2 && q[2..] == p[2..]
    ensures |p| == |q| && p[8..] == q[8..] && HeaderSum(p) - WordAt(p, 0) == HeaderSum(q) - WordAt(q, 0)
    ensures WordAt(p, 6) == WordAt(q, 6) && Load16(p, 2) == Load16(q, 2)
  {
    assert |p[2..]| == |q[2..]|;
    assert forall k :: 2 <= k < 8 ==> p[k] == p[2..][k - 2] == q[2..][k - 2] == q[k];
    assert p[8..] == p[2..][6..] == q[8..];
  }

  lemma PortsAgree(a: u16, b: u16)
    ensures a % 0xFFFF == b % 0xFFFF <==> Swap16(a) == Swap16(b) || {Swap16(a), Swap16(b)} == {0, 0xFFFF}
  {
    if a % 0xFFFF == b % 0xFFFF { ResiduesMeet(a, b); }
    SwapTwice(a);
    SwapTwice(b);
  }

  lemma SwapTwice(a: u16)
    ensures Swap16(Swap16(a)) == a && (Swap16(a) == 0 <==> a == 0) && (Swap16(a) == 0xFFFF <==> a == 0xFFFF)
  {
    WordRoundTrips(a);
  }

  // ----- IP headers and echo messages

  lemma {:induction false} SumChanged(s: Octets, j: nat, x: u8)
    requires j < |s|
    ensures SumLe(s[j := x]) == SumLe(s) + (if j % 2 == 0 then 1 else 0x100) * (x - s[j])
  {
    if j >= 2 {
      SumChanged(s[2..], j - 2, x);
      assert s[j := x][2..] == s[2..][j - 2 := x];
    } else if |s| > 1 {
      assert s[j := x][2..] == s[2..];
    }
  }

  /** Whatever the receivers accept, they refuse it with any one octet changed, the checksum's own
      included. */
  lemma ChangedOctetIsRefused(s: Octets, k: nat, j: nat, x: u8)
    requires k + 2 <= |s| && k % 2 == 0 && Accepts(s, k) && j < |s| && x != s[j]
    ensures !Accepts(s[j := x], k)
  {
    AcceptsIffAllOnes(s, k);
    AcceptsIffAllOnes(s[j := x], k);
    SumChanged(s, j, x);
    ResiduesDiffer(SumLe(s), (if j % 2 == 0 then 1 else 0x100) * (x - s[j]));
  }

  /** An echo message with any one octet changed is ignored. */
  lemma ChangedEchoIsIgnored(kind: u8, identifier: u16, sequence: u16, data: Octets, j: nat, x: u8)
    requires var p := EchoPacket(kind, identifier, sequence, data); j < |p| && x != p[j]
    ensures HandleIcmp(EchoPacket(kind, identifier, sequence, data)[j := x]) == Ignore
  {
    EchoIsAccepted(kind, identifier, sequence, data);
    ChangedOctetIsRefused(EchoPacket(kind, identifier, sequence, data), 2, j, x);
  }

  /** A packet with any one header octet changed is dropped by every host; in the first octet that is so
      when the version or a length below five words shows it. */
  lemma ChangedHeaderIsDropped(ip: u32, src: u32, dest: u32, protocol: u8, id: u16, data: Octets, j: nat, x: u8)
    requires 20 + |data| <= 0xFFFF && j < 20 && x != IpPacket(src, dest, protocol, id, data)[j]
    requires j == 0 ==> x / 16 != 4 || x % 16 < 5
    ensures HandleIp(ip, IpPacket(src, dest, protocol, id, data)[j := x]) == Dropped
  {
    var p := IpPacket(src, dest, protocol, id, data);
    var h := p[..20];
    if j > 0 {
      IpRoundTrips(src, dest, protocol, id, data, []);
      assert p + [] == p;
      ChangedOctetIsRefused(h, 10, j, x);
      assert p[j := x][..20] == h[j := x] && p[j := x][0] == p[0];
    }
  }
}
