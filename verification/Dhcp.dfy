/** DHCP options: type, length, value, as in section 2 of RFC 2132. */
module Dhcp {
  import opened Words
  import Bytes

  const PAD: u8 := 0
  const END: u8 := 255

  type Octets = seq<u8>

  /** One entry of an option area. */
  datatype Item = Padding | Entry(tag: u8, data: Octets)

  ghost predicate WellFormed(item: Item) {
    item.Entry? ==> item.tag != PAD && item.tag != END && |item.data| <= 255
  }

  function Encode(item: Item): Octets
    requires WellFormed(item)
  {
    match item
    case Padding => [PAD]
    case Entry(tag, data) => [tag, |data|] + data
  }

  function EncodeAll(items: seq<Item>): Octets
    requires forall i :: 0 <= i < |items| ==> WellFormed(items[i])
  {
    if items == [] then [] else Encode(items[0]) + EncodeAll(items[1..])
  }

  /** What a reader should find: the data of the first entry with the tag. */
  function First(items: seq<Item>, tag: u8): Option<Octets> {
    if items == [] then None
    else if items[0].Entry? && items[0].tag == tag then Some(items[0].data)
    else First(items[1..], tag)
  }

  /** The parser's answer on an option area: None for `false`. A length octet that would lie past
      the end ends the search whatever it is. */
  function Get(s: Octets, tag: u8, capacity: nat): Option<Octets>
    decreases |s|
  {
    if s == [] || s[0] == END then None
    else if s[0] == PAD then Get(s[1..], tag, capacity)
    else if |s| == 1 || 2 + s[1] > |s| then None
    else if s[0] == tag then if capacity >= s[1] then Some(s[2..2 + s[1]]) else None
    else Get(s[2 + s[1]..], tag, capacity)
  }

  /** Whether the parser looks one octet past the area: it does when a lone tag ends it. */
  predicate LooksPast(s: Octets, tag: u8)
    decreases |s|
  {
    if s == [] || s[0] == END then false
    else if s[0] == PAD then LooksPast(s[1..], tag)
    else if |s| == 1 then true
    else if 2 + s[1] > |s| || s[0] == tag then false
    else LooksPast(s[2 + s[1]..], tag)
  }

  lemma GetSkipsItem(item: Item, tail: Octets, tag: u8, capacity: nat)
    requires WellFormed(item) && tag != PAD && tag != END
    ensures var hit := item.Entry? && item.tag == tag;
            && Get(Encode(item) + tail, tag, capacity)
               == (if !hit then Get(tail, tag, capacity) else if |item.data| <= capacity then Some(item.data) else None)
            && LooksPast(Encode(item) + tail, tag) == (!hit && LooksPast(tail, tag))
  {
    var s := Encode(item) + tail;
    match item
    case Padding => assert s[1..] == tail;
    case Entry(t, data) => assert s[0] == t && s[1] == |data| && s[2..2 + |data|] == data && s[2 + |data|..] == tail;
  }

  /** Any list of options, with any padding between, closed by END and followed by anything: the
      parser returns the first option with the tag when it fits the caller's buffer and nothing
      otherwise, and it never looks past the area. */
  lemma {:induction false} OptionsRoundTrip(items: seq<Item>, rest: Octets, tag: u8, capacity: nat)
    requires forall i :: 0 <= i < |items| ==> WellFormed(items[i])
    requires tag != PAD && tag != END
    ensures Get(EncodeAll(items) + [END] + rest, tag, capacity)
            == if First(items, tag).Some? && |First(items, tag).value| <= capacity then First(items, tag) else None
    ensures !LooksPast(EncodeAll(items) + [END] + rest, tag)
  {
    if items != [] {
      var tail := EncodeAll(items[1..]) + [END] + rest;
      OptionsRoundTrip(items[1..], rest, tag, capacity);
      GetSkipsItem(items[0], tail, tag, capacity);
      assert EncodeAll(items) + [END] + rest == Encode(items[0]) + tail;
    }
  }

  /** An area that is cut off, in an entry or behind the last one, yields what it held before that. */
  lemma {:induction false} CutOffEnds(items: seq<Item>, cut: Octets, tag: u8, capacity: nat)
    requires forall i :: 0 <= i < |items| ==> WellFormed(items[i])
    requires tag != PAD && tag != END
    requires cut == [] || (cut[0] != PAD && cut[0] != END && (|cut| == 1 || 2 + cut[1] > |cut|))
    ensures Get(EncodeAll(items) + cut, tag, capacity)
            == if First(items, tag).Some? && |First(items, tag).value| <= capacity then First(items, tag) else None
  {
    if items != [] {
      var tail := EncodeAll(items[1..]) + cut;
      CutOffEnds(items[1..], cut, tag, capacity);
      GetSkipsItem(items[0], tail, tag, capacity);
      assert EncodeAll(items) + cut == Encode(items[0]) + tail;
    }
  }

  // ----- in place

  method AddOption(options: array<u8>, offset: nat, tag: u8, data: Octets) returns (after: nat)
    requires |data| <= 255 && offset + 2 + |data| <= options.Length
    modifies options
    ensures after == offset + 2 + |data|
    ensures options[..after] == old(options[..offset]) + [tag, |data|] + data
    ensures options[after..] == old(options[offset + 2 + |data|..])
  {
    after := offset;
    options[after] := tag;
    after := after + 1;
    options[after] := |data|;
    after := after + 1;
    Bytes.Copy(options, after, data);
    after := after + |data|;
  }

  /** `beyond` stands for whatever octet follows the area in memory; the answer never depends on it. */
  method GetOption(options: Octets, tag: u8, capacity: nat, beyond: u8) returns (data: Option<Octets>)
    ensures data == Get(options, tag, capacity)
  {
    var offset := 0;
    while offset < |options|
      invariant 0 <= offset <= |options|
      invariant Get(options[offset..], tag, capacity) == Get(options, tag, capacity)
    {
      var optionType := options[offset];
      ghost var here := options[offset..];
      offset := offset + 1;
      if optionType == END { return None; }
      if optionType == PAD { assert here[1..] == options[offset..]; continue; }
      var optionLength: int := if offset < |options| then options[offset] else beyond;
      offset := offset + 1;
      if offset + optionLength > |options| { return None; }
      if optionType == tag {
        assert here[2..2 + optionLength] == options[offset..offset + optionLength];
        if capacity >= optionLength { return Some(options[offset..offset + optionLength]); }
        return None;
      }
      assert here[2 + optionLength..] == options[offset + optionLength..];
      offset := offset + optionLength;
    }
    return None;
  }

  // ----- the client's messages

  const MESSAGE_TYPE: u8 := 53
  const REQUESTED_IP: u8 := 50
  const SERVER_ID: u8 := 54
  const PARAMETERS: u8 := 55
  const RESERVED := 32

  function Discover(): seq<Item> {
    [Entry(MESSAGE_TYPE, [1]), Entry(PARAMETERS, [1, 3, 6])]
  }

  function Request(offered: Octets, server: Octets): seq<Item> {
    [Entry(MESSAGE_TYPE, [3]), Entry(REQUESTED_IP, offered), Entry(SERVER_ID, server), Entry(PARAMETERS, [1, 3, 6])]
  }

  /** The two messages octet by octet. */
  lemma DiscoverOctets()
    ensures EncodeAll(Discover()) + [END] == [53, 1, 1, 55, 3, 1, 3, 6, 255]
  {
    var d := Discover();
    assert EncodeAll(d[1..]) == Encode(d[1]) + EncodeAll(d[1..][1..]);
    assert d[1..][1..] == [];
  }

  lemma RequestOctets(offered: Octets, server: Octets)
    requires |offered| == 4 && |server| == 4
    ensures EncodeAll(Request(offered, server)) + [END] ==
              [53, 1, 3, 50, 4] + offered + [54, 4] + server + [55, 3, 1, 3, 6, 255]
  {
    var r := Request(offered, server);
    assert r[1..][1..] == r[2..] && r[2..][1..] == r[3..] && r[3..][1..] == [];
    assert EncodeAll(r[3..]) == Encode(r[3]);
    assert EncodeAll(r[2..]) == Encode(r[2]) + EncodeAll(r[3..]);
    assert EncodeAll(r[1..]) == Encode(r[1]) + EncodeAll(r[2..]);
  }

  lemma {:induction false} EncodeOne(items: seq<Item>, item: Item)
    requires WellFormed(item) && (forall i :: 0 <= i < |items| ==> WellFormed(items[i]))
    ensures EncodeAll(items + [item]) == EncodeAll(items) + Encode(item)
  {
    var all := items + [item];
    if items == [] {
      assert all == [item] && all[1..] == [];
      assert EncodeAll(all) == Encode(item) + [];
    } else {
      EncodeOne(items[1..], item);
      assert all[0] == items[0] && all[1..] == items[1..] + [item];
      Bytes.Associates(Encode(items[0]), EncodeAll(items[1..]), Encode(item));
    }
  }

  /** Adds an entry to an area that already encodes `before`. */
  method AddEntry(options: array<u8>, offset: nat, ghost before: seq<Item>, tag: u8, data: Octets) returns (after: nat)
    requires WellFormed(Entry(tag, data)) && (forall i :: 0 <= i < |before| ==> WellFormed(before[i]))
    requires offset + 2 + |data| <= options.Length && options[..offset] == EncodeAll(before)
    modifies options
    ensures after == offset + 2 + |data| && options[..after] == EncodeAll(before + [Entry(tag, data)])
  {
    ghost var encoded := EncodeAll(before);
    after := AddOption(options, offset, tag, data);
    Bytes.Associates(encoded, [tag, |data|], data);
    EncodeOne(before, Entry(tag, data));
  }

  /** Both messages fit the 32 octets reserved for options, and a server reads back what was meant. */
  method BuildDiscover() returns (options: array<u8>, length: nat)
    ensures options.Length == RESERVED && length <= RESERVED
    ensures options[..length] == EncodeAll(Discover()) + [END] == [53, 1, 1, 55, 3, 1, 3, 6, 255]
    ensures Get(options[..length], MESSAGE_TYPE, 1) == Some([1])
  {
    options := new u8[RESERVED];
    ghost var d := Discover();
    length := AddEntry(options, 0, [], MESSAGE_TYPE, [1]);
    length := AddEntry(options, length, [] + [d[0]], PARAMETERS, [1, 3, 6]);
    assert [] + [d[0]] + [d[1]] == d;
    options[length] := END;
    length := length + 1;
    assert options[..length] == EncodeAll(d) + [END] + [];
    OptionsRoundTrip(d, [], MESSAGE_TYPE, 1);
    DiscoverOctets();
  }

  method BuildRequest(offered: Octets, server: Octets) returns (options: array<u8>, length: nat)
    requires |offered| == 4 && |server| == 4
    ensures options.Length == RESERVED && length <= RESERVED
    ensures options[..length] == EncodeAll(Request(offered, server)) + [END]
    ensures options[..length] == [53, 1, 3, 50, 4] + offered + [54, 4] + server + [55, 3, 1, 3, 6, 255]
    ensures Get(options[..length], MESSAGE_TYPE, 1) == Some([3])
    ensures Get(options[..length], REQUESTED_IP, 4) == Some(offered) && Get(options[..length], SERVER_ID, 4) == Some(server)
  {
    options := new u8[RESERVED];
    ghost var r := Request(offered, server);
    length := AddEntry(options, 0, [], MESSAGE_TYPE, [3]);
    length := AddEntry(options, length, [] + [r[0]], REQUESTED_IP, offered);
    length := AddEntry(options, length, [] + [r[0]] + [r[1]], SERVER_ID, server);
    length := AddEntry(options, length, [] + [r[0]] + [r[1]] + [r[2]], PARAMETERS, [1, 3, 6]);
    assert [] + [r[0]] + [r[1]] + [r[2]] + [r[3]] == r;
    options[length] := END;
    length := length + 1;
    assert options[..length] == EncodeAll(r) + [END] + [];
    RequestReadsBack(offered, server);
    RequestOctets(offered, server);
  }

  lemma RequestReadsBack(offered: Octets, server: Octets)
    requires |offered| == 4 && |server| == 4
    ensures var s := EncodeAll(Request(offered, server)) + [END] + [];
            Get(s, MESSAGE_TYPE, 1) == Some([3]) && Get(s, REQUESTED_IP, 4) == Some(offered) && Get(s, SERVER_ID, 4) == Some(server)
  {
    var r := Request(offered, server);
    OptionsRoundTrip(r, [], MESSAGE_TYPE, 1);
    OptionsRoundTrip(r, [], REQUESTED_IP, 4);
    OptionsRoundTrip(r, [], SERVER_ID, 4);
    assert First(r, REQUESTED_IP) == Some(offered);
    assert First(r[2..], SERVER_ID) == Some(server) && r[1..][1..] == r[2..];
  }
}
