/** Whatever a host encapsulates, its peer takes out again. */
module RoundTrips {
  import opened Arithmetic
  import opened Words
  import opened Checksum
  import opened Packets

  lemma WordRoundTrips(x: u16)
    ensures WordAt(Store16(x), 0) == x && Load16(Net16(x), 0) == x && Swap16(Swap16(x)) == x
  {
  }

  lemma LongRoundTrips(x: u32)
    ensures Load32(Store32(x), 0) == x
  {
    var high := x / 0x1_0000;
    assert x / 0x100_0000 == high / 0x100 && x / 0x1_0000 % 0x100 == high % 0x100;
    var low := x % 0x1_0000;
    assert x / 0x100 % 0x100 == low / 0x100 && x % 0x100 == low % 0x100;
  }

  // ----- Ethernet

  /** A frame reaches exactly its addressee, padded to the minimum size. */
  lemma FrameRoundTrips(src: Octets, dest: Octets, kind: u16, data: Octets)
    requires |src| == 6 && |dest| == 6 && 0 < |data| && 14 + |data| <= MAX_FRAME
    ensures HandleFrame(dest, Frame(dest, src, kind, data)) == Some(Payload(src, kind, data + Zeros(Max(14 + |data|, MIN_FRAME) - 14 - |data|)))
  {
    var f := Frame(dest, src, kind, data);
    assert f[..6] == dest && f[6..12] == src && f[12..14] == Net16(kind);
    assert WordAt(f, 12) == WordAt(f[12..14], 0);
    WordRoundTrips(kind);
    assert f[14..] == data + Zeros(Max(14 + |data|, MIN_FRAME) - 14 - |data|);
  }

  // ----- IP

  lemma HeaderFields(src: u32, dest: u32, protocol: u8, id: u16, total: u16, c: u16)
    ensures var h := Header(src, dest, protocol, id, total, c);
            && h[0] == 0x45 && h[9] == protocol && Load16(h, 2) == total && WordAt(h, 10) == c
            && Load32(h, 12) == src && Load32(h, 16) == dest
            && Zeroed(h, 10) == Header(src, dest, protocol, id, total, 0)
  {
    var h := Header(src, dest, protocol, id, total, c);
    WordRoundTrips(total);
    WordRoundTrips(c);
    LongRoundTrips(src);
    LongRoundTrips(dest);
    assert h[2..4] == Net16(total) && h[10..12] == Store16(c) && h[12..16] == Store32(src) && h[16..20] == Store32(dest);
  }

  lemma SealedHeader(src: u32, dest: u32, protocol: u8, id: u16, total: u16)
    ensures var blank := Header(src, dest, protocol, id, total, 0);
            Accepts(Header(src, dest, protocol, id, total, Of(blank)), 10)
  {
    var blank := Header(src, dest, protocol, id, total, 0);
    var h := Header(src, dest, protocol, id, total, Of(blank));
    HeaderFields(src, dest, protocol, id, total, 0);
    SealedIsAccepted(blank, 10);
    assert Sealed(blank, 10) == h;
  }

  /** The total length in the header undoes whatever padding the link layer added. */
  lemma IpRoundTrips(src: u32, dest: u32, protocol: u8, id: u16, data: Octets, padding: Octets)
    requires 20 + |data| <= 0xFFFF
    ensures HandleIp(dest, IpPacket(src, dest, protocol, id, data) + padding) == Delivered(src, protocol, data)
  {
    var total: u16 := 20 + |data|;
    var c := Of(Header(src, dest, protocol, id, total, 0));
    var h := Header(src, dest, protocol, id, total, c);
    var p := IpPacket(src, dest, protocol, id, data) + padding;
    HeaderFields(src, dest, protocol, id, total, c);
    assert p[..20] == h;
    assert WordAt(p, 2) == WordAt(h, 2) && Load32(p, 12) == Load32(h, 12) && Load32(p, 16) == Load32(h, 16);
    SealedHeader(src, dest, protocol, id, total);
    assert p[20..20 + |data|] == data;
  }

  // ----- ICMP

  /** A field read back where it was stored. */
  lemma FieldAt(s: Octets, k: nat, x: u16)
    requires k + 2 <= |s|
    ensures s[k..k + 2] == Net16(x) ==> Load16(s, k) == x
    ensures s[k..k + 2] == Store16(x) ==> WordAt(s, k) == x
  {
    WordRoundTrips(x);
    assert WordAt(s, k) == WordAt(s[k..k + 2], 0);
  }

  lemma EchoHeaderFields(kind: u8, c: u16, identifier: u16, sequence: u16)
    ensures var h := EchoHeader(kind, c, identifier, sequence);
            WordAt(h, 2) == c && Load16(h, 4) == identifier && Load16(h, 6) == sequence
  {
    var h := EchoHeader(kind, c, identifier, sequence);
    EchoHeaderParts(kind, Store16(c), Net16(identifier), Net16(sequence));
    FieldAt(h, 2, c);
    FieldAt(h, 4, identifier);
    FieldAt(h, 6, sequence);
  }

  lemma EchoHeaderParts(kind: u8, a: Octets, b: Octets, c: Octets)
    requires |a| == |b| == |c| == 2
    ensures var h := [kind, 0] + a + b + c; h[2..4] == a && h[4..6] == b && h[6..8] == c
  {
  }

  lemma EchoFields(kind: u8, c: u16, identifier: u16, sequence: u16, data: Octets)
    ensures var p := EchoHeader(kind, c, identifier, sequence) + data;
            && p[0] == kind && p[1] == 0 && WordAt(p, 2) == c
            && Load16(p, 4) == identifier && Load16(p, 6) == sequence && p[8..] == data
  {
    EchoHeaderFields(kind, c, identifier, sequence);
    var h := EchoHeader(kind, c, identifier, sequence);
    assert forall k :: 0 <= k < 8 ==> (h + data)[k] == h[k];
  }

  lemma EchoParts(kind: u8, c: u16, identifier: u16, sequence: u16, data: Octets)
    ensures var p := EchoHeader(kind, c, identifier, sequence) + data;
            && p[1] == 0
            && Zeroed(p, 2) == EchoHeader(kind, 0, identifier, sequence) + data
            && p[4..] == Net16(identifier) + Net16(sequence) + data
  {
  }

  lemma EchoIsAccepted(kind: u8, identifier: u16, sequence: u16, data: Octets)
    ensures Accepts(EchoPacket(kind, identifier, sequence, data), 2)
  {
    var blank := EchoHeader(kind, 0, identifier, sequence) + data;
    EchoParts(kind, 0, identifier, sequence, data);
    SealedIsAccepted(blank, 2);
    assert Sealed(blank, 2) == EchoPacket(kind, identifier, sequence, data);
  }

  lemma RequestIsAnswered(identifier: u16, sequence: u16, data: Octets)
    ensures HandleIcmp(EchoPacket(REQUEST, identifier, sequence, data)) == Reply(EchoPacket(REPLY, identifier, sequence, data))
  {
    var p := EchoPacket(REQUEST, identifier, sequence, data);
    EchoIsAccepted(REQUEST, identifier, sequence, data);
    EchoParts(REQUEST, Of(EchoHeader(REQUEST, 0, identifier, sequence) + data), identifier, sequence, data);
    assert [REPLY] + [p[1], 0, 0] + p[4..] == EchoHeader(REPLY, 0, identifier, sequence) + data;
    assert ReplyTo(p) == EchoPacket(REPLY, identifier, sequence, data);
  }

  /** A peer answers a request with the reply that carries the same identifier, sequence and data,
      and the asker's handler hands exactly those to the callback. */
  lemma PingRoundTrips(identifier: u16, sequence: u16, data: Octets)
    ensures HandleIcmp(EchoPacket(REQUEST, identifier, sequence, data)) == Reply(EchoPacket(REPLY, identifier, sequence, data))
    ensures HandleIcmp(EchoPacket(REPLY, identifier, sequence, data)) == Echo(identifier, sequence, data)
  {
    RequestIsAnswered(identifier, sequence, data);
    EchoIsAccepted(REPLY, identifier, sequence, data);
    EchoFields(REPLY, Of(EchoHeader(REPLY, 0, identifier, sequence) + data), identifier, sequence, data);
  }

  // ----- packets that pass the test of RFC 1071 and are refused

  /** A checksum word of all ones over anything but zeros is correct by the standard and refused
      here. */
  lemma AllOnesWordIsRefused(s: Octets, k: nat)
    requires k + 2 <= |s| && k % 2 == 0 && WordAt(s, k) == 0xFFFF
    requires SumLe(Zeroed(s, k)) % 0xFFFF == 0 < SumLe(Zeroed(s, k))
    ensures AllOnes(s) && !Accepts(s, k)
  {
    SumWithWord(s, k);
    AcceptsIffAllOnes(s, k);
    FoldWithWord(SumLe(Zeroed(s, k)), 0xFFFF);
    AddMultiple(SumLe(Zeroed(s, k)), 1);
    FoldIsCanonical(SumLe(s), 0xFFFF);
  }

  /** An echo request without data. */
  lemma EchoRequestCanBeRefused(s: Octets)
    requires s == [REQUEST, 0, 0xFF, 0xFF, 0xF7, 0xFF, 0, 0]
    ensures AllOnes(s) && HandleIcmp(s) == Ignore
  {
    var z := Zeroed(s, 2);
    assert z == [REQUEST, 0, 0, 0, 0xF7, 0xFF, 0, 0];
    SumStep(z, 0);
    SumStep(z, 2);
    SumStep(z, 4);
    SumStep(z, 6);
    assert z[0..] == z && SumLe(z) == 0xFFFF;
    AllOnesWordIsRefused(s, 2);
  }

  /** A packet without data from 10.0.0.1 to 10.0.0.2, at the host it is for. */
  lemma HeaderCanBeRefused(s: Octets)
    requires s == [0x45, 0, 0, 20, 0x66, 0xE7, 0, 0, 64, ICMP, 0xFF, 0xFF, 10, 0, 0, 1, 10, 0, 0, 2]
    ensures AllOnes(s) && HandleIp(Load32(s, 16), s) == Dropped
  {
    SumOfHeader(Zeroed(s, 10));
    AllOnesWordIsRefused(s, 10);
    assert s[..20] == s;
  }

  lemma SumOfHeader(z: Octets)
    requires z == [0x45, 0, 0, 20, 0x66, 0xE7, 0, 0, 64, ICMP, 0, 0, 10, 0, 0, 1, 10, 0, 0, 2]
    ensures SumLe(z) == 0xFFFF
  {
    SumOfTen(z);
  }

  lemma SumOfTen(z: Octets)
    requires |z| == 20
    ensures SumLe(z) == WordAt(z, 0) + WordAt(z, 2) + WordAt(z, 4) + WordAt(z, 6) + WordAt(z, 8)
                        + WordAt(z, 10) + WordAt(z, 12) + WordAt(z, 14) + WordAt(z, 16) + WordAt(z, 18)
  {
    SumStep(z, 0);
    SumStep(z, 2);
    SumStep(z, 4);
    SumStep(z, 6);
    SumStep(z, 8);
    SumStep(z, 10);
    SumStep(z, 12);
    SumStep(z, 14);
    SumStep(z, 16);
    SumStep(z, 18);
    assert z[0..] == z && z[20..] == [];
  }

  // ----- UDP

  lemma UdpFields(from: u16, to: u16, length: u16, c: u16, data: Octets)
    ensures var p := UdpHeader(from, to, length, c) + data;
            && Load16(p, 0) == from && Load16(p, 2) == to && WordAt(p, 6) == c && p[8..] == data
            && WordAt(p, 0) == Swap16(from) && WordAt(p, 2) == Swap16(to) && WordAt(p, 4) == Swap16(length)
  {
    var p := UdpHeader(from, to, length, c) + data;
    WordRoundTrips(from);
    WordRoundTrips(to);
    WordRoundTrips(c);
    assert p[0..2] == Net16(from) && p[2..4] == Net16(to) && p[4..6] == Net16(length) && p[6..8] == Store16(c);
  }

  lemma UdpRoundTrips(sockets: seq<Socket>, src: u32, dest: u32, from: u16, to: u16, data: Octets)
    requires 8 + |data| <= 0xFFFF
    ensures HandleUdp(sockets, dest, src, UdpPacket(src, dest, from, to, data))
            == if FindSocket(sockets, to) == |sockets| then Unheard else Heard(FindSocket(sockets, to), src, from, data)
  {
    var length: u16 := 8 + |data|;
    var c := UdpChecksum(src, dest, UdpHeader(from, to, length, 0) + data);
    UdpFields(from, to, length, 0, data);
    UdpFields(from, to, length, c, data);
  }

  // ----- end to end

  datatype Host = Host(mac: Octets, ip: u32, mask: u32, gateway: u32, id: u16, sockets: seq<Socket>)

  /** `ip_send_packet` down to the frame given to the network card, with `arp` resolving next hops. */
  function SendIp(h: Host, dest: u32, protocol: u8, data: Octets, arp: u32 -> Octets): Option<Octets> {
    if data == [] || 20 + |data| > 0xFFFF then None
    else SendFrame(h.mac, arp(NextHop(h.ip, h.mask, h.gateway, dest)), IPV4, IpPacket(h.ip, dest, protocol, h.id, data))
  }

  function SendUdp(h: Host, from: u16, dest: u32, to: u16, data: Octets, arp: u32 -> Octets): Option<Octets> {
    if data == [] || 8 + |data| > 65507 then None
    else SendIp(h, dest, UDP, UdpPacket(h.ip, dest, from, to, data), arp)
  }

  function SendPing(h: Host, dest: u32, identifier: u16, sequence: u16, data: Octets, arp: u32 -> Octets): Option<Octets> {
    if data == [] then None else SendIp(h, dest, ICMP, EchoPacket(REQUEST, identifier, sequence, data), arp)
  }

  datatype Arrival = Nothing | Datagram(udp: UdpReaction) | Message(src: u32, icmp: IcmpReaction)

  /** The layers of a receiving host, one handing to the next. */
  function Arrive(h: Host, frame: Octets): Arrival {
    var payload := HandleFrame(h.mac, frame);
    if payload.None? || payload.value.kind != IPV4 then Nothing
    else
      match HandleIp(h.ip, payload.value.data)
      case Delivered(src, protocol, data) =>
        if protocol == UDP then Datagram(HandleUdp(h.sockets, h.ip, src, data))
        else if protocol == ICMP then Message(src, HandleIcmp(data))
        else Nothing
      case _ => Nothing
  }

  /** b is who a reaches when it sends to b's address. */
  predicate Reaches(a: Host, b: Host, arp: u32 -> Octets) {
    |a.mac| == 6 && |b.mac| == 6 && arp(NextHop(a.ip, a.mask, a.gateway, b.ip)) == b.mac
  }

  lemma PacketArrives(a: Host, b: Host, protocol: u8, data: Octets, arp: u32 -> Octets)
    requires Reaches(a, b, arp) && data != []
    ensures SendIp(a, b.ip, protocol, data, arp).Some? <==> |data| <= 1480
    ensures |data| <= 1480 ==>
              var payload := HandleFrame(b.mac, SendIp(a, b.ip, protocol, data, arp).value);
              && payload.Some? && payload.value.kind == IPV4
              && HandleIp(b.ip, payload.value.data) == Delivered(a.ip, protocol, data)
  {
    if |data| <= 1480 {
      var packet := IpPacket(a.ip, b.ip, protocol, a.id, data);
      FrameRoundTrips(a.mac, b.mac, IPV4, packet);
      IpRoundTrips(a.ip, b.ip, protocol, a.id, data, Zeros(Max(14 + |packet|, MIN_FRAME) - 14 - |packet|));
    }
  }

  /** A datagram is sent exactly when it fits a frame, and then the first socket bound to its port on
      the peer hears the sender's address, port and bytes, through padding and all. */
  lemma UdpEndToEnd(a: Host, b: Host, from: u16, to: u16, data: Octets, arp: u32 -> Octets)
    requires Reaches(a, b, arp) && data != []
    ensures SendUdp(a, from, b.ip, to, data, arp).Some? <==> |data| <= 1472
    ensures |data| <= 1472 ==>
              Arrive(b, SendUdp(a, from, b.ip, to, data, arp).value)
              == Datagram(if FindSocket(b.sockets, to) == |b.sockets| then Unheard else Heard(FindSocket(b.sockets, to), a.ip, from, data))
  {
    if 8 + |data| <= 65507 {
      PacketArrives(a, b, UDP, UdpPacket(a.ip, b.ip, from, to, data), arp);
      UdpRoundTrips(b.sockets, a.ip, b.ip, from, to, data);
    }
  }

  /** An echo message is sent exactly when it fits a frame, and then the peer handles its bytes. */
  lemma MessageArrives(a: Host, b: Host, data: Octets, arp: u32 -> Octets)
    requires Reaches(a, b, arp) && data != []
    ensures SendIp(a, b.ip, ICMP, data, arp).Some? <==> |data| <= 1480
    ensures |data| <= 1480 ==> Arrive(b, SendIp(a, b.ip, ICMP, data, arp).value) == Message(a.ip, HandleIcmp(data))
  {
    PacketArrives(a, b, ICMP, data, arp);
  }

  /** A ping that fits a frame reaches its peer, which answers it. */
  lemma RequestArrives(a: Host, b: Host, identifier: u16, sequence: u16, data: Octets, arp: u32 -> Octets)
    requires Reaches(a, b, arp) && data != []
    ensures SendPing(a, b.ip, identifier, sequence, data, arp).Some? <==> |data| <= 1472
    ensures |data| <= 1472 ==>
              Arrive(b, SendPing(a, b.ip, identifier, sequence, data, arp).value)
              == Message(a.ip, Reply(EchoPacket(REPLY, identifier, sequence, data)))
  {
    MessageArrives(a, b, EchoPacket(REQUEST, identifier, sequence, data), arp);
    PingRoundTrips(identifier, sequence, data);
  }

  /** The answer is sent, and the host that asked gets its identifier, sequence and data. */
  lemma ReplyArrives(a: Host, b: Host, identifier: u16, sequence: u16, data: Octets, arp: u32 -> Octets)
    requires Reaches(b, a, arp) && 0 < |data| <= 1472
    ensures var sent := SendIp(b, a.ip, ICMP, EchoPacket(REPLY, identifier, sequence, data), arp);
            sent.Some? && Arrive(a, sent.value) == Message(b.ip, Echo(identifier, sequence, data))
  {
    MessageArrives(b, a, EchoPacket(REPLY, identifier, sequence, data), arp);
    PingRoundTrips(identifier, sequence, data);
  }

  /** A ping that fits a frame comes back to the host that sent it with its own identifier, sequence
      and data. */
  lemma PingEndToEnd(a: Host, b: Host, identifier: u16, sequence: u16, data: Octets, arp: u32 -> Octets, backArp: u32 -> Octets)
    requires Reaches(a, b, arp) && Reaches(b, a, backArp) && data != []
    ensures SendPing(a, b.ip, identifier, sequence, data, arp).Some? <==> |data| <= 1472
    ensures |data| <= 1472 ==>
              var there := Arrive(b, SendPing(a, b.ip, identifier, sequence, data, arp).value);
              && there.Message? && there.src == a.ip && there.icmp.Reply?
              && var back := SendIp(b, there.src, ICMP, there.icmp.packet, backArp);
                 back.Some? && Arrive(a, back.value) == Message(b.ip, Echo(identifier, sequence, data))
  {
    RequestArrives(a, b, identifier, sequence, data, arp);
    if |data| <= 1472 { ReplyArrives(a, b, identifier, sequence, data, backArp); }
  }
}
