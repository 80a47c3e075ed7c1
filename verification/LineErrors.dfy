/** When the error term of the line walk stays within a signed 32-bit register. */
module LineErrors {
  import opened Arithmetic
  import opened Line

  predicate In32(x: int) {
    -0x8000_0000 <= x < 0x8000_0000
  }

  /** Every value the error variable takes on pass k fits: before it, after the first test, after it. */
  predicate PassFits(dx: nat, dy: nat, k: nat) {
    var err := CursorAt(dx, dy, k).err;
    && In32(err)
    && (err > 0 - dx ==> In32(err - dy))
    && In32(CursorAt(dx, dy, k + 1).err)
  }

  /** How far below zero the error is when a steep line makes its i-th sideways move. */
  function Depth(dx: nat, dy: nat, i: nat): (r: nat)
    requires dx > 0
    ensures r < dx
  {
    Split(dy / 2 + Times(i, dy), dx);
    Mod(dy / 2 + Times(i, dy), dx)
  }

  /** No sideways move of a steep line starts deeper than 2^31 allows. A flat line has no such limit. */
  ghost predicate HasHeadroom(dx: nat, dy: nat) {
    dx > dy || forall i: nat {:trigger Depth(dx, dy, i)} :: i < dx ==> Depth(dx, dy, i) + dy <= 0x8000_0000
  }

  lemma {:induction false} SteepError(dx: nat, dy: nat, k: nat)
    requires dx <= dy && k <= dy && dy > 0
    ensures 0 - dy < CursorAt(dx, dy, k).err <= 0
  {
    if k > 0 { SteepError(dx, dy, k - 1); }
  }

  lemma FlatError(dx: nat, dy: nat, k: nat)
    requires dx > dy && k <= dx
    ensures 0 <= CursorAt(dx, dy, k).err <= dx
  {
    CursorTracks(dx, dy, k);
  }

  /** The error before a sideways move is that depth. */
  lemma MoveDepth(dx: nat, dy: nat, k: nat)
    requires dx <= dy && k < dy && CursorAt(dx, dy, k).err > 0 - dx
    ensures var c := CursorAt(dx, dy, k); c.i < dx && Depth(dx, dy, c.i) == 0 - c.err
  {
    var c := CursorAt(dx, dy, k);
    SteepError(dx, dy, k);
    CursorTracks(dx, dy, k);
    BoxAndArrival(dx, dy, k + 1);
    TimesIsProduct(c.i, dy);
    TimesIsProduct(k, dx);
    Unique(k, 0 - c.err, dx);
  }

  /** And every sideways move takes place on some pass. */
  lemma MoveHappens(dx: nat, dy: nat, i: nat) returns (k: nat)
    requires dx <= dy && i < dx
    ensures k < dy && CursorAt(dx, dy, k).err == 0 - Depth(dx, dy, i)
  {
    var x := dy / 2 + Times(i, dy);
    k := Div(x, dx);
    Split(x, dx);
    MoveIsInTime(dx, dy, i, k);
    SteepError(dx, dy, k);
    CursorTracks(dx, dy, k);
    TimesIsProduct(i, dy);
    TimesIsProduct(k, dx);
    SameMultiple(i, CursorAt(dx, dy, k).i, dy);
  }

  lemma MoveIsInTime(dx: nat, dy: nat, i: nat, k: nat)
    requires dx <= dy && i < dx && Times(k, dx) <= dy / 2 + Times(i, dy)
    ensures k < dy
  {
    TimesGrows(i + 1, dx, dy);
    assert Times(i + 1, dy) == Times(i, dy) + dy;
    TimesIsProduct(dx, dy);
    TimesIsProduct(dy, dx);
    if k >= dy { TimesGrows(dy, k, dx); }
  }

  lemma SameMultiple(p: int, q: int, d: nat)
    requires 0 - d < p * d - q * d < d
    ensures p == q
  {
    Distribute(p, q, d);
    Distribute(q, p, d);
    if p > q { AtLeastOnce(p - q, d); }
    if q > p { AtLeastOnce(q - p, d); }
  }

  /** Exactly which lines the 32-bit error variable can draw, given that the two distances fit. */
  lemma ErrorsFit(dx: nat, dy: nat)
    requires dx < 0x8000_0000 && dy < 0x8000_0000
    ensures (forall k: nat :: k < Max(dx, dy) ==> PassFits(dx, dy, k)) <==> HasHeadroom(dx, dy)
  {
    if HasHeadroom(dx, dy) {
      forall k: nat | k < Max(dx, dy)
        ensures PassFits(dx, dy, k)
      {
        HeadroomIsEnough(dx, dy, k);
      }
    }
    if dx <= dy && forall k: nat :: k < Max(dx, dy) ==> PassFits(dx, dy, k) {
      forall i: nat {:trigger Depth(dx, dy, i)} | i < dx
        ensures Depth(dx, dy, i) + dy <= 0x8000_0000
      {
        var k := MoveHappens(dx, dy, i);
        assert PassFits(dx, dy, k);
      }
    }
  }

  lemma HeadroomIsEnough(dx: nat, dy: nat, k: nat)
    requires dx < 0x8000_0000 && dy < 0x8000_0000 && HasHeadroom(dx, dy) && k < Max(dx, dy)
    ensures PassFits(dx, dy, k)
  {
    if dx > dy {
      FlatError(dx, dy, k);
      FlatError(dx, dy, k + 1);
    } else {
      SteepError(dx, dy, k);
      SteepError(dx, dy, k + 1);
      if CursorAt(dx, dy, k).err > 0 - dx { MoveDepth(dx, dy, k); }
    }
  }

  /** Every line whose distances add up to at most 2^31 + 1 is among them. */
  lemma ShortLinesFit(dx: nat, dy: nat)
    requires dx + dy <= 0x8000_0001
    ensures HasHeadroom(dx, dy)
  {
  }

  /** A line that is not: three to the side and 2^31 - 1 down. */
  lemma SteepLineOverflows(dx: nat, dy: nat)
    requires dx == 3 && dy == 0x7FFF_FFFF
    ensures !HasHeadroom(dx, dy)
    ensures exists k: nat :: k < dy && !PassFits(dx, dy, k)
  {
    TimesIsProduct(2, dy);
    AgreesWithOperators(dy / 2 + Times(2, dy), dx);
    assert Depth(dx, dy, 2) == 2;
    ErrorsFit(dx, dy);
  }
}
