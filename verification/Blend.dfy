/** Alpha blending two channels to a word: `rb` carries red and blue, `g` green. */
module Blend {
  import opened Words

  /** `x & 0xFF00FF` and `x & 0x00FF00`. */
  function MaskRb(x: u32): (r: u32)
    ensures r <= 0xFF00FF
  {
    x / 0x1_0000 % 0x100 * 0x1_0000 + x % 0x100
  }

  function MaskG(x: u32): (r: u32)
    ensures r <= 0xFF00
  {
    x / 0x100 % 0x100 * 0x100
  }

  /** The inner expressions of the code. The sums are u32: none wraps. */
  function Packed(dest: u32, color: u32, alpha: u8): u32 {
    WeightedFits(MaskRb(dest), MaskRb(color), 0xFF00FF, alpha);
    WeightedFits(MaskG(dest), MaskG(color), 0xFF00, alpha);
    var rb: u32 := MaskRb(dest) * (255 - alpha) + MaskRb(color) * alpha;
    var g: u32 := MaskG(dest) * (255 - alpha) + MaskG(color) * alpha;
    MaskRb(rb / 0x100) + MaskG(g / 0x100)
  }

  datatype Channel = Red | Green | Blue | Unused

  function Get(pixel: u32, c: Channel): int {
    match c
    case Blue => pixel % 0x100
    case Green => pixel / 0x100 % 0x100
    case Red => pixel / 0x1_0000 % 0x100
    case Unused => pixel / 0x100_0000
  }

  function Mix(d: int, s: int, alpha: u8): int {
    (d * (255 - alpha) + s * alpha) / 256
  }

  lemma WeightedFits(d: nat, s: nat, top: nat, alpha: u8)
    requires d <= top && s <= top
    ensures 0 <= d * (255 - alpha) + s * alpha <= top * 255
  {
    Monotone(d, top, 255 - alpha);
    Monotone(s, top, alpha);
    assert top * (255 - alpha) == top * 255 - top * alpha;
  }

  lemma Monotone(a: nat, b: nat, k: nat)
    requires a <= b
    ensures 0 <= a * k <= b * k
  {
  }

  lemma Regroup(hi: int, lo: int, k: int)
    ensures (hi * 0x1_0000 + lo) * k == hi * k * 0x1_0000 + lo * k
  {
  }

  /** Two sums of at most 16 bits side by side keep apart under the shift and the masks. */
  lemma HalvesKeepApart(h: nat, l: nat)
    requires h <= 65025 && l <= 65025
    ensures h * 0x1_0000 + l < 0x1_0000_0000
    ensures (h * 0x1_0000 + l) / 0x100 / 0x1_0000 % 0x100 == h / 256 && (h * 0x1_0000 + l) / 0x100 % 0x100 == l / 256
    ensures h / 256 < 0x100 && l / 256 < 0x100
  {
    assert (h * 0x1_0000 + l) / 0x100 == h * 0x100 + l / 0x100;
  }

  /** Blending the pair (hi, lo) in one word blends each half by itself: nothing carries across. */
  lemma PairBlendsApart(hd: u8, ld: u8, hs: u8, ls: u8, alpha: u8)
    ensures var sum := (hd * 0x1_0000 + ld) * (255 - alpha) + (hs * 0x1_0000 + ls) * alpha;
            && 0 <= sum < 0x1_0000_0000
            && sum / 0x100 / 0x1_0000 % 0x100 == Mix(hd, hs, alpha)
            && sum / 0x100 % 0x100 == Mix(ld, ls, alpha)
            && 0 <= Mix(hd, hs, alpha) < 0x100 && 0 <= Mix(ld, ls, alpha) < 0x100
  {
    var h := hd * (255 - alpha) + hs * alpha;
    var l := ld * (255 - alpha) + ls * alpha;
    var sum := (hd * 0x1_0000 + ld) * (255 - alpha) + (hs * 0x1_0000 + ls) * alpha;
    assert 0 <= h <= 65025 && 0 <= l <= 65025 by {
      WeightedFits(hd, hs, 0xFF, alpha);
      WeightedFits(ld, ls, 0xFF, alpha);
    }
    assert sum == h * 0x1_0000 + l by {
      Regroup(hd, ld, 255 - alpha);
      Regroup(hs, ls, alpha);
    }
    HalvesKeepApart(h, l);
  }

  lemma GreenBlends(d: u8, s: u8, alpha: u8)
    ensures var sum := d * 0x100 * (255 - alpha) + s * 0x100 * alpha;
            0 <= sum < 0x1_0000_0000 && sum / 0x100 / 0x100 % 0x100 == Mix(d, s, alpha) && 0 <= Mix(d, s, alpha) < 0x100
  {
    WeightedFits(d, s, 0xFF, alpha);
    assert d * 0x100 * (255 - alpha) == 0x100 * (d * (255 - alpha));
    assert s * 0x100 * alpha == 0x100 * (s * alpha);
    assert d * 0x100 * (255 - alpha) + s * 0x100 * alpha == (d * (255 - alpha) + s * alpha) * 0x100;
  }

  lemma Assembled(r: u8, g: u8, b: u8)
    ensures var p: u32 := r * 0x1_0000 + b + g * 0x100;
            Get(p, Red) == r && Get(p, Green) == g && Get(p, Blue) == b && Get(p, Unused) == 0
  {
  }

  /** The packed computation is the per-channel one, for every pixel, colour and alpha. */
  lemma PackedIsPerChannel(dest: u32, color: u32, alpha: u8)
    ensures forall c :: c != Unused ==> Get(Packed(dest, color, alpha), c) == Mix(Get(dest, c), Get(color, c), alpha)
    ensures Get(Packed(dest, color, alpha), Unused) == 0
  {
    var r, g, b := Get(dest, Red), Get(dest, Green), Get(dest, Blue);
    var r', g', b' := Get(color, Red), Get(color, Green), Get(color, Blue);
    PairBlendsApart(r, b, r', b', alpha);
    GreenBlends(g, g', alpha);
    Assembled(Mix(r, r', alpha), Mix(g, g', alpha), Mix(b, b', alpha));
  }
}
