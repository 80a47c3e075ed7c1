/** Byte buffers: the copy loop behind `memcpy`. */
module Bytes {
  import opened Words

  method Copy(target: array<u8>, at: nat, source: seq<u8>)
    requires at + |source| <= target.Length
    modifies target
    ensures target[..] == old(target[..at]) + source + old(target[at + |source|..])
  {
    var i := 0;
    while i < |source|
      invariant 0 <= i <= |source|
      invariant target[at..at + i] == source[..i]
      invariant target[..at] == old(target[..at]) && target[at + i..] == old(target[at + i..])
    {
      target[at + i] := source[i];
      i := i + 1;
    }
    assert target[..] == target[..at] + target[at..at + i] + target[at + i..];
  }

  lemma Associates(a: seq<u8>, b: seq<u8>, c: seq<u8>)
    ensures a + b + c == a + (b + c)
  {
  }
}
