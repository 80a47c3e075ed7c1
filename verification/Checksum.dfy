/** The Internet checksum as the code computes it: little-endian words, carries folded at the end. */
module Checksum {
  import opened Words

  /** Sum of the 16-bit words of a byte string, each read low octet first; a last odd octet counts
      as a word of its own. */
  function SumLe(s: seq<u8>): nat {
    if |s| == 0 then 0
    else if |s| == 1 then s[0]
    else s[0] + 0x100 * s[1] + SumLe(s[2..])
  }

  /** The same sum over words read high octet first, the way section 1 of RFC 1071 states it. */
  function SumBe(s: seq<u8>): nat {
    if |s| == 0 then 0
    else if |s| == 1 then 0x100 * s[0]
    else 0x100 * s[0] + s[1] + SumBe(s[2..])
  }

  lemma CarryKeepsResidue(sum: nat)
    requires sum >= 0x1_0000
    ensures var folded := sum % 0x1_0000 + sum / 0x1_0000;
            0 < folded < sum && folded % 0xFFFF == sum % 0xFFFF
  {
    AddMultiple(sum % 0x1_0000 + sum / 0x1_0000, sum / 0x1_0000);
  }

  /** What the carry loop leaves: the sum modulo 65535, with 65535 rather than 0 for a non-zero sum. */
  function Fold(sum: nat): (r: u16)
    ensures r % 0xFFFF == sum % 0xFFFF
    ensures r == 0 <==> sum == 0
  {
    if sum < 0x1_0000 then sum
    else
      CarryKeepsResidue(sum);
      Fold(sum % 0x1_0000 + sum / 0x1_0000)
  }

  function Complement(x: u16): u16 {
    0xFFFF - x
  }

  function Of(s: seq<u8>): u16 {
    Complement(Fold(SumLe(s)))
  }

  lemma {:induction false} SumFits(s: seq<u8>)
    ensures SumLe(s) <= (|s| + 1) / 2 * 0xFFFF
  {
    if |s| > 1 {
      SumFits(s[2..]);
      assert (|s| + 1) / 2 == (|s[2..]| + 1) / 2 + 1;
    }
  }

  lemma {:induction false} SumsSplit(a: seq<u8>, b: seq<u8>)
    requires |a| % 2 == 0
    ensures SumLe(a + b) == SumLe(a) + SumLe(b)
  {
    if a == [] {
      assert a + b == b;
    } else {
      assert (a + b)[2..] == a[2..] + b;
      SumsSplit(a[2..], b);
    }
  }

  /** The value a fold settles on is determined by the residue. */
  lemma FoldIsCanonical(m: nat, n: nat)
    requires m % 0xFFFF == n % 0xFFFF && (m == 0 <==> n == 0)
    ensures Fold(m) == Fold(n)
  {
    ResiduesMeet(Fold(m), Fold(n));
  }

  lemma ResiduesMeet(a: u16, b: u16)
    requires a % 0xFFFF == b % 0xFFFF
    ensures a == b || (a == 0 && b == 0xFFFF) || (a == 0xFFFF && b == 0)
  {
  }

  // ----- byte order, section 2(B) of RFC 1071

  lemma {:induction false} OrdersAgreeModulo(s: seq<u8>)
    ensures (SumLe(s) - 0x100 * SumBe(s)) % 0xFFFF == 0
    ensures SumLe(s) == 0 <==> SumBe(s) == 0
  {
    if |s| == 1 {
      var x: int := s[0];
      assert x - 0x100 * (0x100 * x) == -x * 0xFFFF;
    } else if |s| > 1 {
      OrdersAgreeModulo(s[2..]);
      var x: int, y: int, rest := s[0], s[1], SumLe(s[2..]) - 0x100 * SumBe(s[2..]);
      assert SumLe(s) - 0x100 * SumBe(s) == rest + -x * 0xFFFF;
      AddMultiple(rest, -x);
    }
  }

  /** Folding the little-endian sum gives the octet swap of folding the big-endian one, odd lengths
      included. */
  lemma FoldsAreSwapped(s: seq<u8>)
    ensures Fold(SumLe(s)) == Swap16(Fold(SumBe(s)))
  {
    OrdersAgreeModulo(s);
    SwapMultiplies(Fold(SumBe(s)), SumBe(s), SumLe(s));
    ResiduesMeet(Fold(SumLe(s)), Swap16(Fold(SumBe(s))));
  }

  lemma SwapMultiplies(f: u16, be: int, le: int)
    requires f % 0xFFFF == be % 0xFFFF && (le - 0x100 * be) % 0xFFFF == 0
    ensures Swap16(f) % 0xFFFF == le % 0xFFFF
  {
    var a, b := f / 0xFFFF - be / 0xFFFF, (le - 0x100 * be) / 0xFFFF;
    assert f - be == a * 0xFFFF && le - 0x100 * be == b * 0xFFFF;
    assert Swap16(f) == 0x100 * f - f / 0x100 * 0xFFFF;
    var k := 0x100 * a - f / 0x100 - b;
    assert Swap16(f) == le + k * 0xFFFF;
    AddMultiple(le, k);
  }

  lemma AddMultiple(y: int, k: int)
    ensures (y + k * 0xFFFF) % 0xFFFF == y % 0xFFFF
  {
    var q, r := y / 0xFFFF, y % 0xFFFF;
    assert y + k * 0xFFFF == (q + k) * 0xFFFF + r;
  }

  /** So the two octets that end up on the wire are the same whichever order the words are read in. */
  lemma SameWireOctets(s: seq<u8>)
    ensures var c := Of(s);
            var standard := Complement(Fold(SumBe(s)));
            c % 0x100 == standard / 0x100 && c / 0x100 == standard % 0x100
  {
    FoldsAreSwapped(s);
    SwapComplement(Fold(SumBe(s)));
  }

  lemma Octets(hi: int, lo: int)
    requires 0 <= hi < 0x100 && 0 <= lo < 0x100
    ensures (hi * 0x100 + lo) / 0x100 == hi && (hi * 0x100 + lo) % 0x100 == lo
  {
  }

  lemma SwapComplement(x: u16)
    ensures Complement(Swap16(x)) % 0x100 == Complement(x) / 0x100 && Complement(Swap16(x)) / 0x100 == Complement(x) % 0x100
  {
    var hi: int, lo: int := x / 0x100, x % 0x100;
    assert Complement(x) == (0xFF - hi) * 0x100 + (0xFF - lo);
    assert Complement(Swap16(x)) == (0xFF - lo) * 0x100 + (0xFF - hi);
    Octets(0xFF - hi, 0xFF - lo);
    Octets(0xFF - lo, 0xFF - hi);
  }

  // ----- acceptance

  /** The packet with the checksum word at offset k set to zero, as receivers recompute over it. */
  function Zeroed(s: seq<u8>, k: nat): seq<u8>
    requires k + 2 <= |s|
  {
    s[..k] + [0, 0] + s[k + 2..]
  }

  function WordAt(s: seq<u8>, k: nat): u16
    requires k + 2 <= |s|
  {
    var lo: int, hi: int := s[k], s[k + 1];
    hi * 0x100 + lo
  }

  /** The receivers' test. */
  predicate Accepts(s: seq<u8>, k: nat)
    requires k + 2 <= |s|
  {
    Of(Zeroed(s, k)) == WordAt(s, k)
  }

  /** The test of section 1 of RFC 1071: the folded sum over everything is all ones. */
  predicate AllOnes(s: seq<u8>) {
    Fold(SumLe(s)) == 0xFFFF
  }

  lemma SumWithWord(s: seq<u8>, k: nat)
    requires k + 2 <= |s| && k % 2 == 0
    ensures SumLe(s) == SumLe(Zeroed(s, k)) + WordAt(s, k)
  {
    PartsAround(s, k);
    WordInside(s[..k], s[k..k + 2], s[k + 2..]);
  }

  lemma PartsAround(s: seq<u8>, k: nat)
    requires k + 2 <= |s|
    ensures s[..k] + s[k..k + 2] + s[k + 2..] == s && WordAt(s[k..k + 2], 0) == WordAt(s, k)
  {
  }

  lemma WordInside(a: seq<u8>, w: seq<u8>, b: seq<u8>)
    requires |a| % 2 == 0 && |w| == 2
    ensures SumLe(a + w + b) == SumLe(a + [0, 0] + b) + WordAt(w, 0)
  {
    SumsOfThree(a, w, b);
    SumsOfThree(a, [0, 0], b);
    OneWord(w);
    OneWord([0, 0]);
  }

  lemma OneWord(w: seq<u8>)
    requires |w| == 2
    ensures SumLe(w) == WordAt(w, 0)
  {
    assert w[2..] == [];
  }

  lemma SumsOfThree(a: seq<u8>, b: seq<u8>, c: seq<u8>)
    requires |a| % 2 == 0 && |b| % 2 == 0
    ensures SumLe(a + b + c) == SumLe(a) + SumLe(b) + SumLe(c)
  {
    SumsSplit(a + b, c);
    SumsSplit(a, b);
  }

  /** Exactly which packets the code accepts: those that pass the all-ones test, except that a
      checksum sent as 0xFFFF is recognised only over data that is all zero. */
  lemma AcceptsIffAllOnes(s: seq<u8>, k: nat)
    requires k + 2 <= |s| && k % 2 == 0
    ensures Accepts(s, k) <==> AllOnes(s) && (WordAt(s, k) == 0xFFFF ==> SumLe(Zeroed(s, k)) == 0)
  {
    SumWithWord(s, k);
    FoldWithWord(SumLe(Zeroed(s, k)), WordAt(s, k));
  }

  lemma FoldWithWord(sum: nat, w: u16)
    ensures Complement(Fold(sum)) == w <==> Fold(sum + w) == 0xFFFF && (w == 0xFFFF ==> sum == 0)
  {
    var n := ResidueOfSum(sum, w);
    SealCases(Fold(sum), Fold(sum + w), w, n);
  }

  lemma ResidueOfSum(sum: nat, w: u16) returns (n: int)
    ensures Fold(sum) + w - Fold(sum + w) == n * 0xFFFF
  {
    var f: int, g: int := Fold(sum), Fold(sum + w);
    var a, b := sum / 0xFFFF - f / 0xFFFF, (sum + w) / 0xFFFF - g / 0xFFFF;
    assert sum == f + a * 0xFFFF && sum + w == g + b * 0xFFFF;
    n := b - a;
  }

  lemma SealCases(f: u16, g: u16, w: u16, n: int)
    requires f + w - g == n * 0xFFFF && (g == 0 <==> f == 0 && w == 0)
    ensures f + w == 0xFFFF <==> g == 0xFFFF && (w == 0xFFFF ==> f == 0)
  {
  }

  lemma SumStep(s: seq<u8>, k: nat)
    requires k + 2 <= |s|
    ensures SumLe(s[k..]) == WordAt(s, k) + SumLe(s[k + 2..])
  {
    assert s[k..][2..] == s[k + 2..];
  }

  /** What a sender makes of a packet: the checksum over the rest goes into the word at offset k. */
  function Sealed(s: seq<u8>, k: nat): seq<u8>
    requires k + 2 <= |s|
  {
    var c := Of(Zeroed(s, k));
    s[..k] + [c % 0x100, c / 0x100] + s[k + 2..]
  }

  /** Whatever was in the word before, receivers accept what a sender has sealed, and so does the
      all-ones test. */
  lemma SealedIsAccepted(s: seq<u8>, k: nat)
    requires k + 2 <= |s| && k % 2 == 0
    ensures Accepts(Sealed(s, k), k) && AllOnes(Sealed(s, k))
  {
    var sealed := Sealed(s, k);
    assert Zeroed(sealed, k) == Zeroed(s, k);
    assert WordAt(sealed, k) == Of(Zeroed(s, k));
    AcceptsIffAllOnes(sealed, k);
  }

  // ----- the loops

  lemma WrapSteps(sum: int, word: int)
    ensures Wrap32(Wrap32(sum) + word) == Wrap32(sum + word)
  {
  }

  /** The accumulator loop: 32 bits keep the sum modulo 2^32. */
  method Accumulate(data: array<u8>, from: nat, length: nat) returns (sum: u32)
    requires from + length <= data.Length
    ensures sum == Wrap32(SumLe(data[from..from + length]))
  {
    ghost var s, done: nat := data[from..from + length], 0;
    var ptr: nat, left: nat := from, length;
    sum := 0;
    while left > 1
      invariant from <= ptr <= ptr + left == from + length
      invariant sum == Wrap32(done) && done + SumLe(data[ptr..from + length]) == SumLe(s)
    {
      assert data[ptr..from + length][2..] == data[ptr + 2..from + length];
      var low: int, high: int := data[ptr], data[ptr + 1];
      WrapSteps(done, low + 0x100 * high);
      sum := Wrap32(sum + (low + 0x100 * high));
      done := done + (low + 0x100 * high);
      ptr := ptr + 2;
      left := left - 2;
    }
    if left != 0 {
      WrapSteps(done, data[ptr]);
      sum := Wrap32(sum + data[ptr]);
    }
  }

  /** For anything an IP packet can hold the sum does not wrap. */
  method Compute(data: array<u8>, from: nat, length: nat) returns (c: u16)
    requires from + length <= data.Length
    ensures c == Complement(Fold(Wrap32(SumLe(data[from..from + length]))))
    ensures length <= 0x2_0000 ==> c == Of(data[from..from + length])
  {
    SumFits(data[from..from + length]);
    var sum := Accumulate(data, from, length);
    ghost var all := sum;
    while sum / 0x1_0000 != 0
      invariant Fold(sum) == Fold(all)
      decreases sum
    {
      sum := sum % 0x1_0000 + sum / 0x1_0000;
    }
    return Complement(sum);
  }
}
