/** The rasterizer pixel by pixel: which colour column `c` of row `r` ends up with. */
module RasterLaws {
  import opened Raster

  // ---------------------------------------------------------------- fill and blit

  /** The byte of column `c` in row `r`. */
  function Addr(stride: nat, c: nat, r: nat): nat { r * stride + c }

  lemma Pixels(stride: nat, c: nat, r: nat, width: nat, height: nat, len: nat)
    requires c < width <= stride && r < height && (height - 1) * stride + width <= len
    ensures var k := Addr(stride, c, r); k < len && k % stride == c && k / stride == r
  {
    PixelAt(c, r, stride, width, height, len);
  }

  /** A fill paints exactly the pixels from (x, y) to (x + w, y + h). */
  lemma FilledPixel(a: seq<byte>, g: seq<byte>, stride: nat, width: nat, height: nat,
                    x: int, y: int, w: int, h: int, color: byte, c: nat, r: nat)
    requires c < width <= stride && r < height && (height - 1) * stride + width <= |a|
    requires Filled(a, g, stride, width, height, x, y, w, h, color)
    ensures Addr(stride, c, r) < |a| == |g|
    ensures a[Addr(stride, c, r)] == if x <= c < x + w && y <= r < y + h then color else g[Addr(stride, c, r)]
  {
    Pixels(stride, c, r, width, height, |a|);
  }

  /** A blit at (x, y) shows at (c, r) the image's pixel (c - x, r - y), clipped or not. */
  lemma BlittedPixel(a: seq<byte>, g: seq<byte>, stride: nat, width: nat, height: nat,
                     m: seq<byte>, sstride: nat, swidth: int, sheight: int, x: int, y: int, c: nat, r: nat)
    requires c < width <= stride && r < height && (height - 1) * stride + width <= |a|
    requires Blitted(a, g, stride, width, height, m, sstride, swidth, sheight, x, y)
    ensures Addr(stride, c, r) < |a| == |g|
    ensures if x <= c < x + swidth && y <= r < y + sheight
            then Addr(sstride, c - x, r - y) < |m| && a[Addr(stride, c, r)] == m[Addr(sstride, c - x, r - y)]
            else a[Addr(stride, c, r)] == g[Addr(stride, c, r)]
  {
    Pixels(stride, c, r, width, height, |a|);
    var k := Addr(stride, c, r);
    assert Under(k, stride, width, height, swidth, sheight, x, y) <==> x <= c < x + swidth && y <= r < y + sheight;
    assert SourceOf(k, stride, sstride, x, y) == (r - y) * sstride + (c - x);
  }

  /** Bytes between the rows are never touched. */
  lemma PaddingKept(a: seq<byte>, g: seq<byte>, stride: nat, width: nat, height: nat,
                    x: int, y: int, w: int, h: int, color: byte, m: seq<byte>, sstride: nat, k: nat)
    requires stride > 0 && k < |a| && (k % stride >= width || k / stride >= height)
    ensures Filled(a, g, stride, width, height, x, y, w, h, color) ==> |a| == |g| && a[k] == g[k]
    ensures Blitted(a, g, stride, width, height, m, sstride, w, h, x, y) ==> |a| == |g| && a[k] == g[k]
  {
    assert !Under(k, stride, width, height, w, h, x, y);
  }

  // ---------------------------------------------------------------- the line in closed form

  /** Which side of the half pixel a tie falls on. */
  ghost predicate Tight(dx: nat, dy: nat, off: int) {
    if dx >= dy then -2 * off <= dx && 2 * off <= dx && (dx > 0 ==> 2 * off < dx) else -2 * off < dy && 2 * off <= dy
  }

  lemma {:induction false} StaysTight(dx: nat, dy: nat, n: nat)
    requires n <= Max(dx, dy)
    ensures Tight(dx, dy, Off(dx, dy, At(dx, dy, n)))
  {
    if n > 0 {
      StaysTight(dx, dy, n - 1);
      StaysOnTrack(dx, dy, n - 1);
      StepOff(dx, dy, At(dx, dy, n - 1));
    }
  }

  lemma Quotient(a: nat, d: nat, q: nat)
    requires d > 0 && q * d <= a < q * d + d
    ensures a / d == q
  {
    var p := a / d;
    assert a == p * d + a % d;
    if p < q { Scale(p + 1, q, d); } else if p > q { Scale(q + 1, p, d); }
  }

  /** After `n` iterations the walk is `n` pixels along the longer axis, and along the shorter
      one the exact height rounded to the nearest pixel, a half downwards. */
  lemma ClosedForm(dx: nat, dy: nat, n: nat)
    requires 0 < n <= Max(dx, dy)
    ensures var s := At(dx, dy, n);
      if dx >= dy then s.i == n && s.j == (2 * (n * dy) + dx - 1) / (2 * dx)
      else s.j == n && s.i == (2 * (n * dx) + dy - 1) / (2 * dy)
  {
    StaysOnTrack(dx, dy, n);
    StaysTight(dx, dy, n);
    Ticks(dx, dy, n, At(dx, dy, n));
  }

  lemma Ticks(dx: nat, dy: nat, n: nat, s: Walk)
    requires 0 < n <= Max(dx, dy) && OnTrack(dx, dy, n, s) && Tight(dx, dy, Off(dx, dy, s))
    ensures if dx >= dy then s.i == n && s.j == (2 * (n * dy) + dx - 1) / (2 * dx)
            else s.j == n && s.i == (2 * (n * dx) + dy - 1) / (2 * dy)
  {
    if dx >= dy { Rounded(s.j * dx, n * dy, dx, s.j); } else { Rounded(s.i * dy, n * dx, dy, s.i); }
  }

  lemma Rounded(a: nat, b: nat, d: nat, q: nat)
    requires d > 0 && a == q * d && 2 * (b - a) <= d && 2 * (a - b) < d
    ensures (2 * b + d - 1) / (2 * d) == q
  {
    assert q * (2 * d) == 2 * a;
    Quotient(2 * b + d - 1, 2 * d, q);
  }

  /** The points of a line: one per pixel of its longer extent, from end to end. */
  lemma LinePoints(x0: i32, y0: i32, x1: i32, y1: i32, n: nat)
    requires n < Count(x0, y0, x1, y1)
    ensures var dx: nat := if x0 < x1 then x1 - x0 else x0 - x1;
      var dy: nat := if y0 < y1 then y1 - y0 else y0 - y1;
      var (sx, sy) := (if x0 < x1 then 1 else -1, if y0 < y1 then 1 else -1);
      && Count(x0, y0, x1, y1) == (if dx >= dy then dx else dy) + 1
      && (n == 0 ==> Point(x0, y0, x1, y1, n) == (x0, y0))
      && (n > 0 && dx >= dy ==> Point(x0, y0, x1, y1, n) == (x0 + sx * n, y0 + sy * ((2 * (n * dy) + dx - 1) / (2 * dx))))
      && (n > 0 && dx < dy ==> Point(x0, y0, x1, y1, n) == (x0 + sx * ((2 * (n * dx) + dy - 1) / (2 * dy)), y0 + sy * n))
  {
    if n > 0 { ClosedForm(Extent(x0, x1), Extent(y0, y1), n); }
  }

  /** A line paints a visible pixel exactly if it is one of those points. */
  lemma PaintedPixel(a: seq<byte>, g: seq<byte>, stride: nat, width: nat, height: nat,
                     x0: i32, y0: i32, x1: i32, y1: i32, color: byte, c: nat, r: nat)
    requires c < width <= stride && r < height && (height - 1) * stride + width <= |a|
    requires Painted(a, g, stride, width, height, x0, y0, x1, y1, Count(x0, y0, x1, y1), color)
    ensures Addr(stride, c, r) < |a| == |g|
    ensures (exists n: nat | n < Count(x0, y0, x1, y1) :: Point(x0, y0, x1, y1, n) == (c, r)) ==>
      a[Addr(stride, c, r)] == color
    ensures (forall n: nat | n < Count(x0, y0, x1, y1) :: Point(x0, y0, x1, y1, n) != (c, r)) ==>
      a[Addr(stride, c, r)] == g[Addr(stride, c, r)]
  {
    Pixels(stride, c, r, width, height, |a|);
    assert InWindow(Addr(stride, c, r), stride, 0, 0, width, height);
  }
}
