/** The network layers as the code runs them: packet buffers filled, zeroed and restored in place. */
module PacketBuffers {
  import opened Words
  import opened Checksum
  import opened Packets
  import Bytes

  /** A 16-bit field at offset k, as the CPU stores it. */
  method Put16(b: array<u8>, k: nat, x: u16)
    requires k + 2 <= b.Length
    modifies b
    ensures b[..] == old(b[..k]) + Store16(x) + old(b[k + 2..])
  {
    b[k] := x % 0x100;
    b[k + 1] := x / 0x100;
  }

  /** The test of the IP and ICMP handlers: the checksum word at k is zeroed, the checksum made anew,
      and the word restored when they agree. */
  method Verify(packet: array<u8>, length: nat, k: nat) returns (intact: bool)
    requires k + 2 <= length <= packet.Length && length <= 0x2_0000
    modifies packet
    ensures intact == Accepts(old(packet[..length]), k)
    ensures intact ==> packet[..] == old(packet[..])
  {
    ghost var was := packet[..];
    var sent := WordAt(packet[..], k);
    Put16(packet, k, 0);
    ghost var blank := packet[..];
    ZeroAndRestore(was, length, k, blank);
    assert packet[0..length] == blank[..length];
    var c := Compute(packet, 0, length);
    if c != sent { return false; }
    Put16(packet, k, sent);
    return true;
  }

  lemma ZeroAndRestore(was: Octets, length: nat, k: nat, blank: Octets)
    requires k + 2 <= length <= |was| && blank == was[..k] + Store16(0) + was[k + 2..]
    ensures blank[..length] == Zeroed(was[..length], k) && WordAt(was[..length], k) == WordAt(was, k)
    ensures blank[..k] + Store16(WordAt(was, k)) + blank[k + 2..] == was
  {
  }

  // ----- Ethernet

  method SendFrameBuffer(mac: Octets, dest: Octets, kind: u16, data: array<u8>) returns (frame: array?<u8>)
    requires |mac| == 6 && |dest| == 6
    ensures (frame == null) == SendFrame(mac, dest, kind, data[..]).None?
    ensures frame != null ==> fresh(frame) && Some(frame[..]) == SendFrame(mac, dest, kind, data[..])
  {
    if data.Length == 0 { return null; }
    var size := 14 + data.Length;
    if size < MIN_FRAME { size := MIN_FRAME; }
    if size > MAX_FRAME { return null; }
    var f := new u8[size];
    Bytes.Copy(f, 0, dest);
    Bytes.Copy(f, 6, mac);
    Put16(f, 12, Swap16(kind));
    assert f[..14] == dest + mac + Net16(kind);
    Bytes.Copy(f, 14, data[..]);
    assert f[..14 + data.Length] == dest + mac + Net16(kind) + data[..];
    Bytes.Copy(f, 14 + data.Length, Zeros(size - 14 - data.Length));
    assert f[..] == Frame(dest, mac, kind, data[..]);
    frame := f;
  }

  method HandleFrameBuffer(mac: Octets, frame: array<u8>) returns (payload: Option<Payload>)
    requires |mac| == 6
    ensures payload == HandleFrame(mac, frame[..])
  {
    if frame.Length < 14 || frame.Length > MAX_FRAME { return None; }
    var broadcast := [0xFF, 0xFF, 0xFF, 0xFF, 0xFF, 0xFF];
    var isBroadcast := Matches(frame, broadcast);
    if !isBroadcast {
      var isForUs := Matches(frame, mac);
      if !isForUs { return None; }
    }
    return Some(Payload(frame[6..12], Load16(frame[..], 12), frame[14..]));
  }

  method Matches(frame: array<u8>, mac: Octets) returns (same: bool)
    requires |mac| == 6 && frame.Length >= 6
    ensures same == (frame[..6] == mac)
  {
    same := true;
    var i := 0;
    while i < 6
      invariant 0 <= i <= 6 && same && frame[..i] == mac[..i]
    {
      if frame[i] != mac[i] { assert frame[..6][i] != mac[i]; return false; }
      i := i + 1;
    }
  }

  // ----- IP

  method BuildPacket(src: u32, dest: u32, protocol: u8, id: u16, data: array<u8>) returns (p: array<u8>)
    requires 20 + data.Length <= 0xFFFF
    ensures fresh(p) && p[..] == IpPacket(src, dest, protocol, id, data[..])
  {
    var total := 20 + data.Length;
    ghost var blank := Header(src, dest, protocol, id, total, 0);
    p := new u8[total];
    Bytes.Copy(p, 0, Header(src, dest, protocol, id, total, 0));
    Bytes.Copy(p, 20, data[..]);
    assert p[..] == blank + data[..];
    assert p[0..20] == blank;
    var c := Compute(p, 0, 20);
    Put16(p, 10, c);
    HeaderPatched(src, dest, protocol, id, total, c, data[..]);
  }

  lemma HeaderPatched(src: u32, dest: u32, protocol: u8, id: u16, total: u16, c: u16, data: Octets)
    ensures var p := Header(src, dest, protocol, id, total, 0) + data;
            p[..10] + Store16(c) + p[12..] == Header(src, dest, protocol, id, total, c) + data
  {
    var blank := Header(src, dest, protocol, id, total, 0);
    assert (blank + data)[..10] == blank[..10] && (blank + data)[12..] == blank[12..] + data;
  }

  class IpLayer {
    const ip: u32
    const mask: u32
    const gateway: u32
    var idCounter: u16

    constructor (ip: u32, mask: u32, gateway: u32)
      ensures this.ip == ip && this.mask == mask && this.gateway == gateway && idCounter == 0
    {
      this.ip, this.mask, this.gateway, this.idCounter := ip, mask, gateway, 0;
    }

    /** The packet handed to the link layer, and the hop it goes to first. */
    method Send(dest: u32, protocol: u8, data: array<u8>) returns (packet: array?<u8>, hop: u32)
      modifies this
      ensures (packet == null) == (data.Length == 0 || 20 + data.Length > 0xFFFF)
      ensures packet != null ==>
                && fresh(packet) && packet[..] == IpPacket(ip, dest, protocol, old(idCounter), data[..])
                && hop == NextHop(ip, mask, gateway, dest) && idCounter == (old(idCounter) + 1) % 0x1_0000
      ensures packet == null ==> idCounter == old(idCounter)
    {
      if data.Length == 0 { return null, 0; }
      var total := 20 + data.Length;
      if total > 65535 { return null, 0; }
      packet := BuildPacket(ip, dest, protocol, idCounter, data);
      hop := NextHop(ip, mask, gateway, dest);
      idCounter := (idCounter + 1) % 0x1_0000;
    }

    /** The checksum word is zeroed for the test and restored when it passes. */
    method Handle(packet: array<u8>) returns (outcome: IpOutcome)
      modifies packet
      ensures outcome == HandleIp(ip, old(packet[..]))
      ensures outcome != Dropped ==> packet[..] == old(packet[..])
    {
      if packet.Length < 20 { return Dropped; }
      var length := packet[0] % 16 * 4;
      if packet[0] / 16 != 4 || packet[0] % 16 < 5 || packet.Length < length { return Dropped; }
      var intact := Verify(packet, length, 10);
      if !intact { return Dropped; }
      if Load32(packet[..], 16) != ip { return Dropped; }
      var total := Load16(packet[..], 2);
      if total < length || total > packet.Length { return Undefined; }
      return Delivered(Load32(packet[..], 12), packet[9], packet[length..total]);
    }
  }

  // ----- ICMP

  /** Data too long for an IP packet, which is refused only when the packet is sent, gets the checksum
      of a sum that may have wrapped. */
  method EchoRequestBuffer(identifier: u16, sequence: u16, data: array<u8>) returns (packet: array<u8>)
    ensures var blank := EchoHeader(REQUEST, 0, identifier, sequence) + data[..];
            packet[..] == EchoHeader(REQUEST, Complement(Fold(Wrap32(SumLe(blank)))), identifier, sequence) + data[..]
    ensures 8 + data.Length <= 0x2_0000 ==> packet[..] == EchoPacket(REQUEST, identifier, sequence, data[..])
    ensures fresh(packet)
  {
    packet := new u8[8 + data.Length];
    Bytes.Copy(packet, 0, EchoHeader(REQUEST, 0, identifier, sequence));
    Bytes.Copy(packet, 8, data[..]);
    assert packet[..] == EchoHeader(REQUEST, 0, identifier, sequence) + data[..];
    assert packet[0..packet.Length] == packet[..];
    var c := Compute(packet, 0, packet.Length);
    Put16(packet, 2, c);
    assert packet[..] == EchoHeader(REQUEST, c, identifier, sequence) + data[..];
  }

  method ReplyBuffer(packet: array<u8>) returns (reply: array<u8>)
    requires 8 <= packet.Length <= 0x2_0000
    ensures fresh(reply) && reply[..] == ReplyTo(packet[..])
  {
    reply := BlankReply(packet);
    ghost var zeroed := [REPLY] + [packet[1], 0, 0] + packet[4..];
    assert reply[0..reply.Length] == reply[..];
    var c := Compute(reply, 0, reply.Length);
    Put16(reply, 2, c);
    assert zeroed[..2] == [REPLY] + [packet[1]] && zeroed[4..] == packet[4..];
  }

  method BlankReply(packet: array<u8>) returns (reply: array<u8>)
    requires packet.Length >= 8
    ensures fresh(reply) && reply[..] == [REPLY] + [packet[1], 0, 0] + packet[4..]
  {
    reply := new u8[packet.Length];
    ghost var was := packet[..];
    Bytes.Copy(reply, 0, packet[..]);
    reply[0] := REPLY;
    assert reply[..] == [REPLY] + was[1..];
    Put16(reply, 2, 0);
    ReplyBlank(was);
  }

  lemma ReplyBlank(was: Octets)
    requires |was| >= 8
    ensures var typed := [REPLY] + was[1..];
            typed[..2] + Store16(0) + typed[4..] == [REPLY] + [was[1], 0, 0] + was[4..]
  {
  }

  method HandleIcmpBuffer(packet: array<u8>) returns (reaction: IcmpReaction)
    requires packet.Length <= 0x2_0000
    modifies packet
    ensures reaction == HandleIcmp(old(packet[..]))
    ensures reaction != Ignore ==> packet[..] == old(packet[..])
  {
    if packet.Length < 8 { return Ignore; }
    assert packet[..packet.Length] == packet[..];
    var intact := Verify(packet, packet.Length, 2);
    if !intact { return Ignore; }
    if packet[0] == REQUEST {
      var reply := ReplyBuffer(packet);
      return Reply(reply[..]);
    }
    if packet[0] == REPLY { return Echo(Load16(packet[..], 4), Load16(packet[..], 6), packet[8..]); }
    return Ignore;
  }

  // ----- UDP

  lemma {:induction false} OddHighFits(s: Octets)
    ensures SumOddHigh(s) <= (|s| + 1) / 2 * 0xFFFF
  {
    if |s| > 1 {
      OddHighFits(s[2..]);
      assert (|s| + 1) / 2 == (|s[2..]| + 1) / 2 + 1;
    }
  }

  /** The checksum loop; the word in the checksum field is skipped, so it need not be zero. */
  method ComputeUdp(src: u32, dest: u32, packet: array<u8>) returns (c: u16)
    requires 8 <= packet.Length <= 0x1_0000
    ensures c == UdpChecksum(src, dest, packet[..])
  {
    ghost var data := packet[8..];
    OddHighFits(data);
    var sum: u32 := src / 0x1_0000 + src % 0x1_0000;
    sum := sum + (dest / 0x1_0000 + dest % 0x1_0000);
    sum := sum + UDP + WordAt(packet[..], 4);
    sum := sum + WordAt(packet[..], 0) + WordAt(packet[..], 2) + WordAt(packet[..], 4);
    ghost var start := sum;
    var k := 8;
    while k + 1 < packet.Length
      invariant 8 <= k <= packet.Length
      invariant sum + SumOddHigh(packet[k..]) == start + SumOddHigh(data)
    {
      assert packet[k..][2..] == packet[k + 2..];
      var low: int, high: int := packet[k], packet[k + 1];
      sum := sum + (low + 0x100 * high);
      k := k + 2;
    }
    if k < packet.Length {
      var last: int := packet[k];
      sum := sum + 0x100 * last;
    }
    assert sum == start + SumOddHigh(data);
    while sum / 0x1_0000 != 0
      invariant Fold(sum) == Fold(start + SumOddHigh(data))
      decreases sum
    {
      sum := sum % 0x1_0000 + sum / 0x1_0000;
    }
    return Complement(sum);
  }

  const DYNAMIC: u16 := 49152

  class UdpLayer {
    var sockets: seq<Socket>
    var nextPort: u16

    /** The port a request stands for: 0 asks for the next dynamic one. */
    ghost function Chosen(port: u16): u16
      reads this
    {
      if port == 0 then nextPort else port
    }

    /** Binds the first free slot, unless some slot in use has the port already. Dynamic ports count
        up and wrap from 65535 to the start of their range, whether or not the binding succeeds. */
    method CreateSocket(request: u16) returns (slot: Option<nat>)
      modifies this
      ensures slot.None? ==> sockets == old(sockets)
      ensures slot.None? <==> (exists i :: 0 <= i < |old(sockets)| && old(sockets)[i] == Socket(old(Chosen(request)), true))
                              || (forall i :: 0 <= i < |old(sockets)| ==> old(sockets)[i].inUse)
      ensures slot.Some? ==>
                && slot.value < |old(sockets)| && !old(sockets)[slot.value].inUse
                && sockets == old(sockets)[slot.value := Socket(old(Chosen(request)), true)]
                && FindSocket(sockets, old(Chosen(request))) == slot.value
      ensures request != 0 ==> nextPort == old(nextPort)
      ensures request == 0 ==> nextPort == if DYNAMIC <= old(nextPort) + 1 <= 0xFFFF then old(nextPort) + 1 else DYNAMIC
    {
      var port := request;
      if port == 0 {
        port := nextPort;
        nextPort := (nextPort + 1) % 0x1_0000;
        if nextPort < DYNAMIC { nextPort := DYNAMIC; }
      }
      var i := 0;
      while i < |sockets|
        invariant 0 <= i <= |sockets|
        invariant forall j :: 0 <= j < i ==> sockets[j] != Socket(port, true)
      {
        if sockets[i].inUse && sockets[i].port == port { assert sockets[i] == Socket(port, true); return None; }
        i := i + 1;
      }
      i := 0;
      while i < |sockets|
        invariant 0 <= i <= |sockets|
        invariant forall j :: 0 <= j < i ==> sockets[j].inUse
      {
        if !sockets[i].inUse {
          sockets := sockets[i := Socket(port, true)];
          assert sockets[i] == Socket(port, true);
          return Some(i);
        }
        i := i + 1;
      }
      return None;
    }

    method Send(ip: u32, from: u16, dest: u32, to: u16, data: array<u8>) returns (packet: array?<u8>)
      ensures (packet == null) == (data.Length == 0 || 8 + data.Length > 65507)
      ensures packet != null ==> fresh(packet) && packet[..] == UdpPacket(ip, dest, from, to, data[..])
    {
      if data.Length == 0 { return null; }
      var total := 8 + data.Length;
      if total > 65507 { return null; }
      var p := new u8[total];
      Bytes.Copy(p, 0, UdpHeader(from, to, total, 0));
      Bytes.Copy(p, 8, data[..]);
      assert p[..] == UdpHeader(from, to, total, 0) + data[..];
      var c := ComputeUdp(ip, dest, p);
      Put16(p, 6, c);
      assert p[..] == UdpHeader(from, to, total, c) + data[..];
      packet := p;
    }

    /** The checksum word stays zeroed afterwards. */
    method Handle(ip: u32, src: u32, packet: array<u8>) returns (reaction: UdpReaction)
      requires packet.Length <= 0x1_0000
      modifies packet
      ensures reaction == HandleUdp(sockets, ip, src, old(packet[..]))
      ensures reaction != Unheard ==> packet[..] == Zeroed(old(packet[..]), 6)
    {
      if packet.Length < 8 { return Unheard; }
      ghost var was := packet[..];
      var to, from := Load16(packet[..], 2), Load16(packet[..], 0);
      var i := 0;
      while i < |sockets|
        invariant 0 <= i <= |sockets| && packet[..] == was
        invariant forall j :: 0 <= j < i ==> sockets[j] != Socket(to, true)
      {
        if sockets[i].inUse && sockets[i].port == to {
          assert sockets[i] == Socket(to, true);
          assert FindSocket(sockets, to) == i;
          var received := WordAt(packet[..], 6);
          Put16(packet, 6, 0);
          assert packet[8..] == was[8..];
          var c := ComputeUdp(src, ip, packet);
          assert c == UdpChecksum(src, ip, was);
          if received != c { return Unheard; }
          return Heard(i, src, from, packet[8..]);
        }
        i := i + 1;
      }
      assert FindSocket(sockets, to) == |sockets|;
      return Unheard;
    }
  }
}
