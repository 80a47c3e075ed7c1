/** Packets octet by octet: where the sender puts each field, who takes a packet and who does not, and
    which address it goes to first. */
module WireLayout {
  import opened Arithmetic
  import opened Words
  import opened Checksum
  import opened Packets
  import opened RoundTrips

  // ----- the IP header

  /** The header as section 3.1 of RFC 791 lays it out: version and length, total length, identifier, no
      fragments, 64 hops, protocol, checksum, and the addresses in the order their octets are kept. */
  lemma HeaderOctets(src: u32, dest: u32, protocol: u8, id: u16, total: u16, c: u16)
    ensures var h := Header(src, dest, protocol, id, total, c);
            && h[0] == 0x45 && h[1] == 0
            && h[2] == total / 0x100 && h[3] == total % 0x100
            && h[4] == id / 0x100 && h[5] == id % 0x100
            && h[6] == 0 && h[7] == 0 && h[8] == 64 && h[9] == protocol
            && h[10] == c % 0x100 && h[11] == c / 0x100
            && Number(h[12..16]) == src && Number(h[16..20]) == dest
  {
    var h := Header(src, dest, protocol, id, total, c);
    SwappedOctets(total);
    SwappedOctets(id);
    HeaderParts([0x45, 0], Net16(total), Net16(id), [0, 0], [64, protocol], Store16(c), Store32(src), Store32(dest));
    NumberOfStored(src);
    NumberOfStored(dest);
  }

  lemma HeaderParts(a: Octets, b: Octets, c: Octets, d: Octets, e: Octets, f: Octets, g: Octets, i: Octets)
    requires |a| == |b| == |c| == |d| == |e| == |f| == 2 && |g| == |i| == 4
    ensures var h := a + b + c + d + e + f + g + i;
            && h[..2] == a && h[2..4] == b && h[4..6] == c && h[6..8] == d && h[8..10] == e && h[10..12] == f
            && h[12..16] == g && h[16..20] == i
            && h[0] == a[0] && h[1] == a[1] && h[2] == b[0] && h[3] == b[1] && h[4] == c[0] && h[5] == c[1]
            && h[6] == d[0] && h[7] == d[1] && h[8] == e[0] && h[9] == e[1] && h[10] == f[0] && h[11] == f[1]
  {
  }

  lemma SwappedOctets(x: u16)
    ensures Net16(x) == [x / 0x100, x % 0x100]
  {
  }

  /** A number kept low octet first. */
  function Number(s: Octets): int {
    if s == [] then 0
    else
      var low: int := s[0];
      low + 0x100 * Number(s[1..])
  }

  lemma NumberOfFour(s: Octets)
    requires |s| == 4
    ensures Number(s) == Load32(s, 0)
  {
    var a: int, b: int, c: int, d: int := s[0], s[1], s[2], s[3];
    assert s[1..][1..] == s[2..] && s[2..][1..] == s[3..] && s[3..][1..] == [];
    assert Number(s[3..]) == d;
    assert Number(s[2..]) == c + 0x100 * d;
    assert Number(s[1..]) == b + 0x100 * (c + 0x100 * d);
  }

  lemma NumberOfStored(x: u32)
    ensures Number(Store32(x)) == x
  {
    LongRoundTrips(x);
    NumberOfFour(Store32(x));
  }

  // ----- who takes a packet

  /** Any frame of 14 to 1514 octets is handled exactly by the host whose address it starts with, or by
      every host if it is a broadcast, and hands on its sender, its type and everything behind. */
  lemma FrameIsHandled(mac: Octets, frame: Octets)
    requires |mac| == 6 && 14 <= |frame| <= 1514
    ensures var own := forall k :: 0 <= k < 6 ==> frame[k] == mac[k];
            var broadcast := forall k :: 0 <= k < 6 ==> frame[k] == 0xFF;
            HandleFrame(mac, frame) ==
              if own || broadcast then Some(Payload(frame[6..12], frame[12] as int * 0x100 + frame[13], frame[14..])) else None
  {
    SameSix(frame[..6], mac);
    SameSix(frame[..6], [0xFF, 0xFF, 0xFF, 0xFF, 0xFF, 0xFF]);
    assert forall k :: 0 <= k < 6 ==> frame[..6][k] == frame[k];
    SwappedWord(frame[12], frame[13]);
  }

  /** So a frame that was sent is handled exactly by the host it is for, or by all. */
  lemma FrameIsForDestination(mac: Octets, src: Octets, dest: Octets, kind: u16, data: Octets)
    requires |src| == 6 && |dest| == 6 && |mac| == 6 && 0 < |data| && 14 + |data| <= 1514
    ensures HandleFrame(mac, Frame(dest, src, kind, data)).Some? <==>
              (forall k :: 0 <= k < 6 ==> dest[k] == mac[k]) || (forall k :: 0 <= k < 6 ==> dest[k] == 0xFF)
  {
    var f := Frame(dest, src, kind, data);
    FrameIsHandled(mac, f);
    assert forall k :: 0 <= k < 6 ==> f[k] == dest[k];
  }

  lemma SameSix(a: Octets, b: Octets)
    requires |a| == |b| == 6
    ensures a == b <==> forall k :: 0 <= k < 6 ==> a[k] == b[k]
  {
  }

  /** What is no frame: fewer octets than a header, or more than the maximum. */
  lemma FrameSizes(mac: Octets, src: Octets, dest: Octets, kind: u16, frame: Octets, data: Octets)
    requires |frame| < 14 || |frame| > 1514
    ensures HandleFrame(mac, frame) == None
    ensures SendFrame(src, dest, kind, data).Some? <==> 1 <= |data| <= 1500
    ensures |src| == |dest| == 6 && 1 <= |data| <= 1500 ==>
              |SendFrame(src, dest, kind, data).value| == if |data| < 46 then 60 else 14 + |data|
  {
  }

  /** A packet is delivered exactly by the host whose address it carries. */
  lemma PacketIsForDestination(ip: u32, src: u32, dest: u32, protocol: u8, id: u16, data: Octets, padding: Octets)
    requires 20 + |data| <= 0xFFFF
    ensures HandleIp(ip, IpPacket(src, dest, protocol, id, data) + padding) ==
              if ip == dest then Delivered(src, protocol, data) else Dropped
  {
    var p := IpPacket(src, dest, protocol, id, data) + padding;
    IpRoundTrips(src, dest, protocol, id, data, padding);
    assert Load32(p, 16) == dest;
  }

  /** The first octet and a length below 20 can only make a packet be dropped. */
  lemma ShortOrForeignIsDropped(ip: u32, p: Octets)
    requires |p| < 20 || p[0] / 16 != 4 || p[0] % 16 < 5 || |p| < p[0] % 16 * 4
    ensures HandleIp(ip, p) == Dropped
  {
  }

  // ----- options

  /** A header with `words` words of options behind the addresses, its checksum word zero. */
  function LongHeader(src: u32, dest: u32, protocol: u8, id: u16, words: nat, options: Octets, total: u16): (h: Octets)
    requires words <= 10 && |options| == 4 * words
    ensures |h| == 20 + |options|
  {
    [0x45 + words] + Header(src, dest, protocol, id, total, 0)[1..] + options
  }

  /** Options are checked with the header and skipped: the data behind them is delivered, and no padding. */
  lemma OptionsAreSkipped(src: u32, dest: u32, protocol: u8, id: u16, words: nat, options: Octets, data: Octets, padding: Octets)
    requires words <= 10 && |options| == 4 * words && 20 + |options| + |data| <= 0xFFFF
    ensures var h := Sealed(LongHeader(src, dest, protocol, id, words, options, 20 + |options| + |data|), 10);
            HandleIp(dest, h + data + padding) == Delivered(src, protocol, data)
  {
    var total: u16 := 20 + |options| + |data|;
    var h := Sealed(LongHeader(src, dest, protocol, id, words, options, total), 10);
    SealedLongHeader(src, dest, protocol, id, words, options, total, h);
    LengthOctet(words);
    HeaderDecides(dest, h, data + padding, h + data + padding);
    assert (data + padding)[..|data|] == data && h + data + padding == h + (data + padding);
  }

  lemma SealedLongHeader(src: u32, dest: u32, protocol: u8, id: u16, words: nat, options: Octets, total: u16, h: Octets)
    requires words <= 10 && |options| == 4 * words && h == Sealed(LongHeader(src, dest, protocol, id, words, options, total), 10)
    ensures |h| == 20 + |options| && Accepts(h, 10) && h[0] == 0x45 + words && h[9] == protocol
    ensures Load32(h, 12) == src && Load32(h, 16) == dest && Load16(h, 2) == total
  {
    var blank := LongHeader(src, dest, protocol, id, words, options, total);
    SealedIsAccepted(blank, 10);
    SealedKeepsFields(blank, 10);
    LongHeaderFields(src, dest, protocol, id, words, options, total);
  }

  /** What an intact header makes of a packet: it is dropped by a host it is not for; the data reaches as
      far as its total length says, and if that is less than the header or more than has arrived, what
      is passed on is undefined. */
  lemma HeaderDecides(ip: u32, h: Octets, rest: Octets, p: Octets)
    requires p == h + rest && 20 <= |h| <= 60 && h[0] / 16 == 4 && h[0] % 16 * 4 == |h| && Accepts(h, 10)
    ensures HandleIp(ip, p) ==
              if Load32(h, 16) != ip then Dropped
              else if Load16(h, 2) < |h| || Load16(h, 2) - |h| > |rest| then Undefined
              else Delivered(Load32(h, 12), h[9], rest[..Load16(h, 2) - |h|])
  {
    assert p[..|h|] == h;
    assert forall k :: 0 <= k < 20 ==> p[k] == h[k];
    var total := Load16(h, 2);
    if |h| <= total <= |p| { assert p[|h|..total] == rest[..total - |h|]; }
  }

  lemma LengthOctet(words: nat)
    requires words <= 10
    ensures (0x45 + words) / 16 == 4 && (0x45 + words) % 16 == 5 + words
  {
  }

  lemma LongHeaderFields(src: u32, dest: u32, protocol: u8, id: u16, words: nat, options: Octets, total: u16)
    requires words <= 10 && |options| == 4 * words
    ensures var b := LongHeader(src, dest, protocol, id, words, options, total);
            && b[0] == 0x45 + words && b[9] == protocol
            && Load32(b, 12) == src && Load32(b, 16) == dest && Load16(b, 2) == total
  {
    var h := Header(src, dest, protocol, id, total, 0);
    HeaderFields(src, dest, protocol, id, total, 0);
    assert forall k :: 1 <= k < 20 ==> LongHeader(src, dest, protocol, id, words, options, total)[k] == h[k];
  }

  lemma SealedKeepsFields(s: Octets, k: nat)
    requires k + 2 <= |s|
    ensures |Sealed(s, k)| == |s| && forall i :: 0 <= i < |s| && i != k && i != k + 1 ==> Sealed(s, k)[i] == s[i]
  {
  }

  // ----- the next hop

  function Bit(x: nat, i: nat): nat {
    if i == 0 then x % 2 else Bit(x / 2, i - 1)
  }

  /** Agreement in the bits that the mask sets, from the lowest of n on. */
  predicate Agree(x: nat, y: nat, mask: nat, n: nat) {
    n == 0 || ((mask % 2 == 1 ==> x % 2 == y % 2) && Agree(x / 2, y / 2, mask / 2, n - 1))
  }

  lemma LowBit(x: nat)
    ensures Bit(x, 0) == x % 2
  {
  }

  lemma HigherBit(x: nat, i: nat)
    ensures Bit(x, i + 1) == Bit(x / 2, i)
  {
  }

  /** If the mask has bit i, the two agree in it. */
  predicate AgreeAt(x: nat, y: nat, mask: nat, i: nat) {
    Bit(mask, i) == 1 ==> Bit(x, i) == Bit(y, i)
  }

  lemma AgreeFurther(x: nat, y: nat, mask: nat, i: nat)
    ensures AgreeAt(x, y, mask, i + 1) <==> AgreeAt(x / 2, y / 2, mask / 2, i)
  {
    HigherBit(mask, i);
    HigherBit(x, i);
    HigherBit(y, i);
  }

  lemma {:induction false} AgreeMeans(x: nat, y: nat, mask: nat, n: nat)
    ensures Agree(x, y, mask, n) <==> forall i :: 0 <= i < n ==> AgreeAt(x, y, mask, i)
  {
    if n > 0 {
      AgreeMeans(x / 2, y / 2, mask / 2, n - 1);
      LowBit(x);
      LowBit(y);
      LowBit(mask);
      assert AgreeAt(x, y, mask, 0) <==> (mask % 2 == 1 ==> x % 2 == y % 2);
      if Agree(x, y, mask, n) {
        forall i | 0 <= i < n
          ensures AgreeAt(x, y, mask, i)
        {
          if i > 0 { AgreeFurther(x, y, mask, i - 1); }
        }
      }
      if forall i :: 0 <= i < n ==> AgreeAt(x, y, mask, i) {
        forall i | 0 <= i < n - 1
          ensures AgreeAt(x / 2, y / 2, mask / 2, i)
        {
          AgreeFurther(x, y, mask, i);
        }
      }
    }
  }

  lemma {:induction false} AndAgrees(x: nat, y: nat, mask: nat, n: nat)
    ensures And(x, mask, n) == And(y, mask, n) <==> Agree(x, y, mask, n)
  {
    if n > 0 {
      AndAgrees(x / 2, y / 2, mask / 2, n - 1);
      LowBitDecides(x % 2 * (mask % 2), And(x / 2, mask / 2, n - 1), y % 2 * (mask % 2), And(y / 2, mask / 2, n - 1));
    }
  }

  lemma LowBitDecides(a: nat, p: nat, b: nat, q: nat)
    requires a < 2 && b < 2
    ensures a + 2 * p == b + 2 * q <==> a == b && p == q
  {
  }

  /** A packet goes straight to its destination exactly when that agrees with the host's own address in
      every bit that the mask sets, and to the gateway otherwise. */
  lemma NextHopByBits(ip: u32, mask: u32, gateway: u32, dest: u32)
    ensures NextHop(ip, mask, gateway, dest) ==
              if forall i :: 0 <= i < 32 ==> AgreeAt(dest, ip, mask, i) then dest else gateway
  {
    AndAgrees(dest, ip, mask, 32);
    AgreeMeans(dest, ip, mask, 32);
  }

  // ----- echo messages

  /** An echo message as RFC 792 lays it out: type, code 0, checksum, identifier, sequence number, data;
      a message of any other type is ignored. */
  lemma EchoOctets(kind: u8, identifier: u16, sequence: u16, data: Octets)
    ensures var p := EchoPacket(kind, identifier, sequence, data);
            && |p| == 8 + |data| && p[0] == kind && p[1] == 0
            && p[4] == identifier / 0x100 && p[5] == identifier % 0x100
            && p[6] == sequence / 0x100 && p[7] == sequence % 0x100 && p[8..] == data
            && (kind != 8 && kind != 0 ==> HandleIcmp(p) == Ignore)
  {
    SwappedOctets(identifier);
    SwappedOctets(sequence);
    EchoParts(kind, Of(EchoHeader(kind, 0, identifier, sequence) + data), identifier, sequence, data);
    var p := EchoPacket(kind, identifier, sequence, data);
    assert p[4] == p[4..][0] && p[5] == p[4..][1] && p[6] == p[4..][2] && p[7] == p[4..][3] && p[8..] == p[4..][4..];
  }

  /** Any intact message that arrives, whoever made it: a request is answered by the same octets under
      type 0 with a checksum of their own, a reply is handed on with its identifier, sequence number and
      data, and nothing else has an effect. */
  lemma MessageIsHandled(p: Octets)
    requires |p| >= 8
    ensures !Accepts(p, 2) || (p[0] != 8 && p[0] != 0) ==> HandleIcmp(p) == Ignore
    ensures Accepts(p, 2) && p[0] == 8 ==>
              && HandleIcmp(p).Reply?
              && var r := HandleIcmp(p).packet;
                 |r| == |p| && r[0] == 0 && r[1] == p[1] && r[4..] == p[4..] && Accepts(r, 2)
    ensures Accepts(p, 2) && p[0] == 0 ==>
              HandleIcmp(p) == Echo(p[4] as int * 0x100 + p[5], p[6] as int * 0x100 + p[7], p[8..])
  {
    if p[0] == 8 {
      var blank := [REPLY] + [p[1], 0, 0] + p[4..];
      SealedIsAccepted(blank, 2);
      assert Zeroed(blank, 2) == blank;
      assert ReplyTo(p) == Sealed(blank, 2);
    }
    SwappedWord(p[4], p[5]);
    SwappedWord(p[6], p[7]);
  }

  lemma SwappedWord(a: u8, b: u8)
    ensures var lo: int, hi: int := a, b; Swap16(hi * 0x100 + lo) == lo * 0x100 + hi
  {
  }

  /** A datagram as RFC 768 lays it out: both ports, the length, the checksum, data. */
  lemma DatagramOctets(src: u32, dest: u32, from: u16, to: u16, data: Octets)
    requires 8 + |data| <= 0xFFFF
    ensures var p := UdpPacket(src, dest, from, to, data);
            && p[0] == from / 0x100 && p[1] == from % 0x100 && p[2] == to / 0x100 && p[3] == to % 0x100
            && p[4] == (8 + |data|) / 0x100 && p[5] == (8 + |data|) % 0x100 && p[8..] == data
  {
    SwappedOctets(from);
    SwappedOctets(to);
    SwappedOctets(8 + |data|);
  }
}
