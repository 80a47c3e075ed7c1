/** Drawing into the linear framebuffer. */
module Graphics {
  import opened Words
  import opened Arithmetic
  import opened Line
  import opened LineErrors
  import Blend

  type i32 = x: int | -0x8000_0000 <= x < 0x8000_0000

  /** Where pixel (x, y) lies in a framebuffer of the given width. */
  function Index(width: nat, x: int, y: int): int {
    y * width + x
  }

  /** Pixels lie row after row, each from left to right. */
  lemma RowsFollow(width: nat, x: int, y: int)
    requires width > 0
    ensures Index(width, 0, 0) == 0
    ensures Index(width, x + 1, y) == Index(width, x, y) + 1 && Index(width, 0, y + 1) == Index(width, width - 1, y) + 1
  {
    Distribute(y + 1, y, width);
  }

  lemma IndexInRange(width: nat, height: nat, x: int, y: int)
    requires 0 <= x < width && 0 <= y < height
    ensures 0 <= Index(width, x, y) < width * height
  {
    Distribute(height, y, width);
    AtLeastOnce(height - y, width);
  }

  lemma IndexIdentifies(width: nat, x: int, y: int, u: int, v: int)
    requires 0 <= x < width && 0 <= u < width
    ensures Index(width, x, y) == Index(width, u, v) <==> x == u && y == v
  {
    Distribute(v, y, width);
    Distribute(y, v, width);
    if y < v { AtLeastOnce(v - y, width); }
    if y > v { AtLeastOnce(y - v, width); }
  }

  /** The point that pass k of a line from (x1, y1) to (x2, y2) plots. */
  function PointX(x1: int, y1: int, x2: int, y2: int, k: nat): int {
    x1 + (if x1 < x2 then 1 else -1) * CursorAt(Abs(x2 - x1), Abs(y2 - y1), k).i
  }

  function PointY(x1: int, y1: int, x2: int, y2: int, k: nat): int {
    y1 + (if y1 < y2 then 1 else -1) * CursorAt(Abs(x2 - x1), Abs(y2 - y1), k).j
  }

  ghost predicate OnLine(x1: int, y1: int, x2: int, y2: int, n: nat, x: int, y: int) {
    exists k: nat :: k < n && PointX(x1, y1, x2, y2, k) == x && PointY(x1, y1, x2, y2, k) == y
  }

  class Screen {
    const framebuffer: array<u32>
    const width: nat
    const height: nat
    var initialized: bool

    ghost predicate Valid()
      reads this
    {
      framebuffer.Length == width * height && width < 0x8000_0000 && height < 0x8000_0000
    }

    predicate Visible(x: int, y: int) {
      0 <= x < width && 0 <= y < height
    }

    /** The colour of a visible pixel. */
    function Pixel(x: int, y: int): u32
      reads this, framebuffer
      requires Valid() && Visible(x, y)
    {
      IndexInRange(width, height, x, y);
      framebuffer[Index(width, x, y)]
    }

    method PutPixel(x: int, y: int, color: u32)
      requires Valid()
      modifies framebuffer
      ensures forall u, v :: Visible(u, v) ==>
                Pixel(u, v) == if initialized && u == x && v == y then color else old(Pixel(u, v))
    {
      if !initialized || x < 0 || x >= width || y < 0 || y >= height { return; }
      IndexInRange(width, height, x, y);
      framebuffer[Index(width, x, y)] := color;
      forall u, v | Visible(u, v)
        ensures Pixel(u, v) == if u == x && v == y then color else old(Pixel(u, v))
      {
        IndexInRange(width, height, u, v);
        IndexIdentifies(width, x, y, u, v);
      }
    }

    /** Colours exactly the visible points of the walk. The distances and the error have to fit their
        32-bit variables. */
    method DrawLine(fromX: i32, fromY: i32, x2: i32, y2: i32, color: u32)
      requires Valid()
      requires initialized ==> Abs(x2 - fromX) < 0x8000_0000 && Abs(y2 - fromY) < 0x8000_0000
      requires initialized ==> HasHeadroom(Abs(x2 - fromX), Abs(y2 - fromY))
      modifies framebuffer
      ensures forall u, v :: Visible(u, v) ==>
                Pixel(u, v) == if initialized && OnLine(fromX, fromY, x2, y2, Max(Abs(x2 - fromX), Abs(y2 - fromY)) + 1, u, v)
                               then color else old(Pixel(u, v))
    {
      if !initialized { return; }
      var x1: i32, y1: i32 := fromX, fromY;
      var dx: i32, dy: i32 := Abs(x2 - x1), Abs(y2 - y1);
      var sx: i32, sy: i32 := if x1 < x2 then 1 else -1, if y1 < y2 then 1 else -1;
      var err: i32 := if dx > dy then dx / 2 else -(dy / 2);
      ghost var k: nat := 0;
      ghost var last := Max(dx, dy);
      while true
        invariant k <= last
        invariant CursorAt(dx, dy, k).err == err
        invariant x1 == PointX(fromX, fromY, x2, y2, k) && y1 == PointY(fromX, fromY, x2, y2, k)
        invariant forall u, v :: Visible(u, v) ==>
                    Pixel(u, v) == if OnLine(fromX, fromY, x2, y2, k, u, v) then color else old(Pixel(u, v))
        decreases last - k
      {
        PutPixel(x1, y1, color);
        OneMorePoint(fromX, fromY, x2, y2, k);
        OneMove(fromX, fromY, x2, y2, k);
        if x1 == x2 && y1 == y2 { break; }
        var e2: i32 := err;
        if e2 > -dx { err := err - dy; x1 := x1 + sx; }
        if e2 < dy { err := err + dx; y1 := y1 + sy; }
        k := k + 1;
      }
    }

    predicate InRect(u: int, v: int, x: int, y: int, w: int, h: int) {
      x <= u < x + w && y <= v < y + h
    }

    /** The two loops over a rectangle, with what the innermost line does to a pixel as `f`. */
    method ChangeRect(x: i32, y: i32, w: i32, h: i32, f: u32 -> u32)
      requires Valid() && x + w < 0x8000_0000 && y + h < 0x8000_0000
      modifies framebuffer
      ensures forall u, v :: Visible(u, v) ==>
                Pixel(u, v) == if initialized && InRect(u, v, x, y, w, h) then f(old(Pixel(u, v))) else old(Pixel(u, v))
    {
      if !initialized { return; }
      var i: int := y;
      while i < y + h
        invariant y <= i && (i <= y + h || i == y)
        invariant forall u, v :: Visible(u, v) ==>
                    Pixel(u, v) == if InRect(u, v, x, y, w, i - y) then f(old(Pixel(u, v))) else old(Pixel(u, v))
      {
        var j: int := x;
        while j < x + w
          invariant x <= j && (j <= x + w || j == x)
          invariant forall u, v :: Visible(u, v) ==>
                      Pixel(u, v) == if InRect(u, v, x, y, w, i - y) || InRect(u, v, x, i, j - x, 1)
                                     then f(old(Pixel(u, v))) else old(Pixel(u, v))
        {
          if 0 <= j < width && 0 <= i < height {
            IndexInRange(width, height, j, i);
            var dest := framebuffer[Index(width, j, i)];
            assert dest == Pixel(j, i) && dest == old(Pixel(j, i));
            PutPixel(j, i, f(dest));
          }
          j := j + 1;
        }
        i := i + 1;
      }
    }

    /** Blends exactly the visible part of the rectangle, every pixel of it once. */
    method FillRectAlpha(x: i32, y: i32, w: i32, h: i32, color: u32, alpha: u8)
      requires Valid() && x + w < 0x8000_0000 && y + h < 0x8000_0000
      modifies framebuffer
      ensures forall u, v :: Visible(u, v) ==>
                Pixel(u, v) == if initialized && InRect(u, v, x, y, w, h) then Blend.Packed(old(Pixel(u, v)), color, alpha) else old(Pixel(u, v))
    {
      ChangeRect(x, y, w, h, dest => Blend.Packed(dest, color, alpha));
    }
  }

  lemma OneMorePoint(x1: int, y1: int, x2: int, y2: int, k: nat)
    ensures forall u, v :: OnLine(x1, y1, x2, y2, k + 1, u, v) <==>
              OnLine(x1, y1, x2, y2, k, u, v) || (u == PointX(x1, y1, x2, y2, k) && v == PointY(x1, y1, x2, y2, k))
  {
  }

  function Between(a: int, b: int, c: int): bool {
    a <= b <= c || c <= b <= a
  }

  /** The line as a set of points: one per pass, from one endpoint to the other, in the box. */
  lemma LineSpansItsEndpoints(x1: int, y1: int, x2: int, y2: int, k: nat)
    requires k <= Max(Abs(x2 - x1), Abs(y2 - y1))
    ensures Between(x1, PointX(x1, y1, x2, y2, k), x2) && Between(y1, PointY(x1, y1, x2, y2, k), y2)
    ensures PointX(x1, y1, x2, y2, 0) == x1 && PointY(x1, y1, x2, y2, 0) == y1
    ensures PointX(x1, y1, x2, y2, k) == x2 && PointY(x1, y1, x2, y2, k) == y2 <==> k == Max(Abs(x2 - x1), Abs(y2 - y1))
  {
    BoxAndArrival(Abs(x2 - x1), Abs(y2 - y1), k);
  }

  /** One pass in screen coordinates: it is the last, or all its values fit and it moves on so. */
  lemma OneMove(x1: i32, y1: i32, x2: i32, y2: i32, k: nat)
    requires var dx, dy := Abs(x2 - x1), Abs(y2 - y1);
             k <= Max(dx, dy) && dx < 0x8000_0000 && dy < 0x8000_0000 && HasHeadroom(dx, dy)
    ensures var dx, dy := Abs(x2 - x1), Abs(y2 - y1);
            var x, y, err := PointX(x1, y1, x2, y2, k), PointY(x1, y1, x2, y2, k), CursorAt(dx, dy, k).err;
            var u, v, next := PointX(x1, y1, x2, y2, k + 1), PointY(x1, y1, x2, y2, k + 1), CursorAt(dx, dy, k + 1).err;
            && (x == x2 && y == y2 <==> k == Max(dx, dy))
            && (k < Max(dx, dy) ==>
                  && In32(err) && (err > 0 - dx ==> In32(err - dy)) && In32(next) && In32(u) && In32(v)
                  && u == x + (if err > 0 - dx then if x1 < x2 then 1 else -1 else 0)
                  && v == y + (if err < dy then if y1 < y2 then 1 else -1 else 0)
                  && next == err - (if err > 0 - dx then dy else 0) + (if err < dy then dx else 0))
  {
    LineSpansItsEndpoints(x1, y1, x2, y2, k);
    if k < Max(Abs(x2 - x1), Abs(y2 - y1)) {
      HeadroomIsEnough(Abs(x2 - x1), Abs(y2 - y1), k);
      LineSpansItsEndpoints(x1, y1, x2, y2, k + 1);
    }
  }
}
