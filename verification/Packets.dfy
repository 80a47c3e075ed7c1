/** What the network layers put on the wire and what they make of what arrives, octet by octet. */
module Packets {
  import opened Arithmetic
  import opened Words
  import opened Checksum

  type Octets = seq<u8>

  /** A 16-bit field as the little-endian CPU stores it, and one that was swapped by hand first. */
  function Store16(x: u16): Octets {
    [x % 0x100, x / 0x100]
  }

  function Net16(x: u16): Octets {
    Store16(Swap16(x))
  }

  function Load16(s: Octets, k: nat): u16
    requires k + 2 <= |s|
  {
    Swap16(WordAt(s, k))
  }

  function Store32(x: u32): Octets {
    [x % 0x100, x / 0x100 % 0x100, x / 0x1_0000 % 0x100, x / 0x100_0000]
  }

  function Load32(s: Octets, k: nat): u32
    requires k + 4 <= |s|
  {
    var a: int, b: int, c: int, d: int := s[k], s[k + 1], s[k + 2], s[k + 3];
    a + b * 0x100 + c * 0x1_0000 + d * 0x100_0000
  }

  function Zeros(n: nat): (z: Octets)
    ensures |z| == n
  {
    seq(n, _ => 0)
  }

  // ----- Ethernet

  const MIN_FRAME := 60
  const MAX_FRAME := 1514

  function Frame(dest: Octets, src: Octets, kind: u16, data: Octets): Octets {
    dest + src + Net16(kind) + data + Zeros(Max(14 + |data|, MIN_FRAME) - 14 - |data|)
  }

  function SendFrame(src: Octets, dest: Octets, kind: u16, data: Octets): Option<Octets> {
    if data == [] || 14 + |data| > MAX_FRAME then None else Some(Frame(dest, src, kind, data))
  }

  datatype Payload = Payload(src: Octets, kind: u16, data: Octets)

  function HandleFrame(mac: Octets, frame: Octets): Option<Payload> {
    if |frame| < 14 || |frame| > MAX_FRAME then None
    else if frame[..6] != [0xFF, 0xFF, 0xFF, 0xFF, 0xFF, 0xFF] && frame[..6] != mac then None
    else Some(Payload(frame[6..12], Load16(frame, 12), frame[14..]))
  }

  // ----- IP

  const ICMP: u8 := 1
  const UDP: u8 := 17
  const IPV4: u16 := 0x0800

  /** The 20 header octets with a given checksum word. */
  function Header(src: u32, dest: u32, protocol: u8, id: u16, total: u16, checksum: u16): (h: Octets)
    ensures |h| == 20
  {
    [0x45, 0] + Net16(total) + Net16(id) + [0, 0] + [64, protocol] + Store16(checksum) + Store32(src) + Store32(dest)
  }

  function IpPacket(src: u32, dest: u32, protocol: u8, id: u16, data: Octets): Octets
    requires 20 + |data| <= 0xFFFF
  {
    var c := Of(Header(src, dest, protocol, id, 20 + |data|, 0));
    Header(src, dest, protocol, id, 20 + |data|, c) + data
  }

  /** Undefined: the header announces more data than arrived, or less than its own length. */
  datatype IpOutcome = Dropped | Undefined | Delivered(src: u32, protocol: u8, data: Octets)

  function HandleIp(ip: u32, packet: Octets): IpOutcome {
    if |packet| < 20 then Dropped
    else
      var length := packet[0] % 16 * 4;
      if packet[0] / 16 != 4 || packet[0] % 16 < 5 || |packet| < length then Dropped
      else if !Accepts(packet[..length], 10) then Dropped
      else if Load32(packet, 16) != ip then Dropped
      else
        var total := Load16(packet, 2);
        if total < length || total > |packet| then Undefined
        else Delivered(Load32(packet, 12), packet[9], packet[length..total])
  }

  /** The bits that two words of n bits have in common. */
  function And(x: nat, y: nat, n: nat): nat {
    if n == 0 then 0 else x % 2 * (y % 2) + 2 * And(x / 2, y / 2, n - 1)
  }

  /** The address a packet is handed to first: the destination itself on the own subnet, the gateway
      otherwise. */
  function NextHop(ip: u32, mask: u32, gateway: u32, dest: u32): u32 {
    if And(dest, mask, 32) == And(ip, mask, 32) then dest else gateway
  }

  // ----- ICMP

  /** The 8 header octets with a given checksum word; identifier and sequence are swapped by hand. */
  function EchoHeader(kind: u8, checksum: u16, identifier: u16, sequence: u16): (h: Octets)
    ensures |h| == 8
  {
    [kind, 0] + Store16(checksum) + Net16(identifier) + Net16(sequence)
  }

  function EchoPacket(kind: u8, identifier: u16, sequence: u16, data: Octets): Octets {
    EchoHeader(kind, Of(EchoHeader(kind, 0, identifier, sequence) + data), identifier, sequence) + data
  }

  const REQUEST: u8 := 8
  const REPLY: u8 := 0

  datatype IcmpReaction = Ignore | Reply(packet: Octets) | Echo(identifier: u16, sequence: u16, data: Octets)

  /** A reply is the request with its type overwritten and its checksum recomputed. */
  function ReplyTo(packet: Octets): Octets
    requires |packet| >= 8
  {
    var zeroed := [REPLY] + [packet[1], 0, 0] + packet[4..];
    [REPLY] + [packet[1]] + Store16(Of(zeroed)) + packet[4..]
  }

  function HandleIcmp(packet: Octets): IcmpReaction {
    if |packet| < 8 || !Accepts(packet, 2) then Ignore
    else if packet[0] == REQUEST then Reply(ReplyTo(packet))
    else if packet[0] == REPLY then Echo(Load16(packet, 4), Load16(packet, 6), packet[8..])
    else Ignore
  }

  // ----- UDP

  function UdpHeader(from: u16, to: u16, length: u16, checksum: u16): (h: Octets)
    ensures |h| == 8
  {
    Net16(from) + Net16(to) + Net16(length) + Store16(checksum)
  }

  /** Data words low octet first, but a last odd octet in the high half. */
  function SumOddHigh(s: Octets): nat {
    if |s| == 0 then 0
    else if |s| == 1 then 0x100 * s[0]
    else s[0] + 0x100 * s[1] + SumOddHigh(s[2..])
  }

  /** The code's own pseudo-header sum; the length field is counted twice and byte orders are mixed,
      alike on both sides. */
  function UdpChecksum(src: u32, dest: u32, packet: Octets): u16
    requires |packet| >= 8
  {
    Complement(Fold(src / 0x1_0000 + src % 0x1_0000 + dest / 0x1_0000 + dest % 0x1_0000 + UDP + WordAt(packet, 4)
                    + WordAt(packet, 0) + WordAt(packet, 2) + WordAt(packet, 4) + SumOddHigh(packet[8..])))
  }

  function UdpPacket(src: u32, dest: u32, from: u16, to: u16, data: Octets): Octets
    requires 8 + |data| <= 0xFFFF
  {
    var c := UdpChecksum(src, dest, UdpHeader(from, to, 8 + |data|, 0) + data);
    UdpHeader(from, to, 8 + |data|, c) + data
  }

  datatype Socket = Socket(port: u16, inUse: bool)

  /** The first socket bound to a port, or the number of sockets. */
  function FindSocket(sockets: seq<Socket>, port: u16): (i: nat)
    ensures i <= |sockets|
    ensures i < |sockets| ==> sockets[i] == Socket(port, true)
    ensures forall j :: 0 <= j < i ==> sockets[j] != Socket(port, true)
  {
    if sockets == [] || sockets[0] == Socket(port, true) then 0
    else
      assert forall j :: 1 <= j < |sockets| ==> sockets[j] == sockets[1..][j - 1];
      1 + FindSocket(sockets[1..], port)
  }

  datatype UdpReaction = Unheard | Heard(socket: nat, src: u32, from: u16, data: Octets)

  function HandleUdp(sockets: seq<Socket>, ip: u32, src: u32, packet: Octets): UdpReaction {
    if |packet| < 8 then Unheard
    else
      var i := FindSocket(sockets, Load16(packet, 2));
      if i == |sockets| || WordAt(packet, 6) != UdpChecksum(src, ip, packet) then Unheard
      else Heard(i, src, Load16(packet, 0), packet[8..])
  }
}
