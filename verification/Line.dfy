/** The error-driven line walk, in displacements from the first endpoint. */
module Line {
  import opened Arithmetic

  function Abs(x: int): nat {
    if x < 0 then -x else x
  }

  /** Moves made so far along each axis, and the error term. */
  datatype Cursor = Cursor(i: nat, j: nat, err: int)

  /** `(dx > dy ? dx : -dy) / 2`, which truncates toward zero. */
  function FirstError(dx: nat, dy: nat): int {
    if dx > dy then dx / 2 else -(dy / 2)
  }

  /** One pass of the loop body: both tests look at the error from before the pass. */
  function Advance(dx: nat, dy: nat, c: Cursor): Cursor {
    var c1 := if c.err > 0 - dx then Cursor(c.i + 1, c.j, c.err - dy) else c;
    if c.err < dy then Cursor(c1.i, c1.j + 1, c1.err + dx) else c1
  }

  function CursorAt(dx: nat, dy: nat, k: nat): Cursor {
    if k == 0 then Cursor(0, 0, FirstError(dx, dy)) else Advance(dx, dy, CursorAt(dx, dy, k - 1))
  }

  /** Twice the cross product with the ideal direction: within half a pixel when at most the longer side. */
  function Deviation(dx: nat, dy: nat, c: Cursor): int {
    2 * (c.i * dy - c.j * dx)
  }

  ghost predicate Tracks(dx: nat, dy: nat, k: nat, c: Cursor) {
    && c.err == FirstError(dx, dy) - (c.i * dy - c.j * dx)
    && (if dx > dy then c.i == k && 0 <= c.err <= dx / 2 * 2 else c.j == k && -(dy / 2 * 2) <= c.err <= 0)
  }

  lemma AdvanceTracks(dx: nat, dy: nat, k: nat, c: Cursor)
    requires Tracks(dx, dy, k, c) && Max(dx, dy) > 0
    ensures Tracks(dx, dy, k + 1, Advance(dx, dy, c))
  {
    assert (c.i + 1) * dy == c.i * dy + dy && (c.j + 1) * dx == c.j * dx + dx;
  }

  lemma {:induction false} CursorTracks(dx: nat, dy: nat, k: nat)
    requires k <= Max(dx, dy)
    ensures Tracks(dx, dy, k, CursorAt(dx, dy, k))
  {
    if k > 0 {
      CursorTracks(dx, dy, k - 1);
      AdvanceTracks(dx, dy, k - 1, CursorAt(dx, dy, k - 1));
    }
  }

  lemma {:induction false} ErrorRange(dx: nat, dy: nat, k: nat)
    requires k <= Max(dx, dy) && Max(dx, dy) > 0
    ensures if dx > dy then 0 <= CursorAt(dx, dy, k).err < dx else 0 - dy < CursorAt(dx, dy, k).err <= 0
  {
    if k > 0 { ErrorRange(dx, dy, k - 1); }
  }

  /** Exactly where the walk is after k passes: k along the longer axis, and along the other the ideal
      displacement rounded to the nearest whole, ties toward the start. For the error is what that
      rounding leaves. */
  lemma ExactWalk(dx: nat, dy: nat, k: nat)
    requires k <= Max(dx, dy) && Max(dx, dy) > 0
    ensures var c := CursorAt(dx, dy, k);
            if dx > dy then c.i == k && c.j * dx <= k * dy + (dx - 1) / 2 < c.j * dx + dx
            else c.j == k && c.i * dy <= k * dx + (dy - 1) / 2 < c.i * dy + dy
  {
    CursorTracks(dx, dy, k);
    ErrorRange(dx, dy, k);
  }

  /** The longer axis moves on every pass, and no point is further than half a pixel off the line. */
  lemma HalfAPixel(dx: nat, dy: nat, k: nat)
    requires k <= Max(dx, dy)
    ensures var c := CursorAt(dx, dy, k);
            && (if dx > dy then c.i == k else c.j == k)
            && Abs(Deviation(dx, dy, c)) <= Max(dx, dy)
  {
    CursorTracks(dx, dy, k);
  }

  lemma CancelFactor(a: int, b: int, d: nat)
    requires d > 0 && 2 * (a * d - b * d) <= d
    ensures a <= b
  {
    Distribute(a, b, d);
    if a > b { AtLeastOnce(a - b, d); }
  }

  lemma ProductsOrdered(k: nat, m: nat, d: nat)
    requires k <= m
    ensures k * d <= m * d
  {
  }

  /** The walk stays in the bounding box and reaches the far corner exactly on pass max(dx, dy). */
  lemma BoxAndArrival(dx: nat, dy: nat, k: nat)
    requires k <= Max(dx, dy)
    ensures CursorAt(dx, dy, k).i <= dx && CursorAt(dx, dy, k).j <= dy
    ensures CursorAt(dx, dy, k).i == dx && CursorAt(dx, dy, k).j == dy <==> k == Max(dx, dy)
  {
    HalfAPixel(dx, dy, k);
    var c := CursorAt(dx, dy, k);
    if dx > dy {
      ProductsOrdered(k, dx, dy);
      CancelFactor(c.j, dy, dx);
      if k == dx { CancelFactor(dy, c.j, dx); }
    } else if dy > 0 {
      ProductsOrdered(k, dy, dx);
      CancelFactor(c.i, dx, dy);
      if k == dy { CancelFactor(dx, c.i, dy); }
    }
  }

  /** Every move goes to one of the eight neighbours. */
  lemma EightConnected(dx: nat, dy: nat, k: nat)
    requires k < Max(dx, dy)
    ensures var c, d := CursorAt(dx, dy, k), CursorAt(dx, dy, k + 1);
            0 <= d.i - c.i <= 1 && 0 <= d.j - c.j <= 1 && (d.i, d.j) != (c.i, c.j)
  {
    HalfAPixel(dx, dy, k);
    HalfAPixel(dx, dy, k + 1);
  }
}
