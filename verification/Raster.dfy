/** The integer rasterizer: clipped rectangle fill, blit and Bresenham line on a byte frame buffer. */
module Raster {
  type i32 = x: int | -0x8000_0000 <= x <= 0x7fff_ffff
  type byte = x: int | 0 <= x < 256

  /** The buffer holds `height` rows of `width` pixels, `stride` bytes apart. */
  ghost predicate Frame(fb: array<byte>, stride: i32, width: i32, height: i32) {
    stride > 0 && width > 0 && height > 0 ==> width <= stride && (height - 1) * stride + width <= fb.Length
  }

  // ---------------------------------------------------------------- addresses

  lemma RowRange(k: nat, stride: nat, row: nat, x0: nat, x1: nat)
    requires stride > 0 && x0 <= x1 <= stride
    ensures row * stride + x0 <= k < row * stride + x1 <==> k / stride == row && x0 <= k % stride < x1
  {
    var q, r := k / stride, k % stride;
    assert k == q * stride + r;
    if q < row { Scale(q + 1, row, stride); } else if q > row { Scale(row + 1, q, stride); }
  }

  lemma Scale(a: nat, b: nat, m: nat)
    requires a <= b
    ensures a * m <= b * m && (a - 1) * m == a * m - m
  {
  }

  lemma RowFits(row: nat, x1: nat, stride: nat, width: nat, height: nat, len: nat)
    requires row < height && x1 <= width && (height - 1) * stride + width <= len
    ensures row * stride + x1 <= len
  {
    Scale(row, height - 1, stride);
  }

  // ---------------------------------------------------------------- fill

  method FillRow(fb: array<byte>, start: nat, n: nat, color: byte)
    requires start + n <= fb.Length
    modifies fb
    ensures forall k :: 0 <= k < fb.Length ==> fb[k] == if start <= k < start + n then color else old(fb[k])
  {
    for i := 0 to n
      invariant forall k :: 0 <= k < fb.Length ==> fb[k] == if start <= k < start + i then color else old(fb[k])
    {
      fb[start + i] := color;
    }
  }

  /** Is byte `k` in columns [x0, x1) and rows [y0, y1)? */
  predicate InWindow(k: nat, stride: nat, x0: int, y0: int, x1: int, y1: int)
    requires stride > 0
  { x0 <= k % stride < x1 && y0 <= k / stride < y1 }

  lemma WindowGrows(k: nat, stride: nat, x0: nat, y0: nat, x1: nat, row: nat)
    requires stride > 0 && x0 <= x1 <= stride && y0 <= row
    ensures InWindow(k, stride, x0, y0, x1, row + 1)
       <==> InWindow(k, stride, x0, y0, x1, row) || row * stride + x0 <= k < row * stride + x1
  {
    RowRange(k, stride, row, x0, x1);
  }

  method FillWindow(fb: array<byte>, stride: nat, x0: nat, y0: nat, x1: nat, y1: nat, color: byte)
    requires stride > 0 && x0 < x1 <= stride && y0 < y1 && (y1 - 1) * stride + x1 <= fb.Length
    modifies fb
    ensures forall k: nat | k < fb.Length && InWindow(k, stride, x0, y0, x1, y1) :: fb[k] == color
    ensures forall k: nat | k < fb.Length && !InWindow(k, stride, x0, y0, x1, y1) :: fb[k] == old(fb[k])
  {
    for row := y0 to y1
      invariant forall k: nat | k < fb.Length && InWindow(k, stride, x0, y0, x1, row) :: fb[k] == color
      invariant forall k: nat | k < fb.Length && !InWindow(k, stride, x0, y0, x1, row) :: fb[k] == old(fb[k])
    {
      RowFits(row, x1, stride, x1, y1, fb.Length);
      NonNegative(row, stride);
      var at := row * stride + x0;
      forall k: nat | k < fb.Length
        ensures InWindow(k, stride, x0, y0, x1, row + 1)
           <==> InWindow(k, stride, x0, y0, x1, row) || at <= k < at + (x1 - x0)
      {
        WindowGrows(k, stride, x0, y0, x1, row);
      }
      FillRow(fb, at, x1 - x0, color);
    }
  }

  /** `a` is `g` with the visible part of a rectangle filled. */
  ghost predicate Filled(a: seq<byte>, g: seq<byte>, stride: nat, width: int, height: int,
                         x: int, y: int, w: int, h: int, color: byte)
    requires stride > 0
  {
    && |a| == |g|
    && forall k: nat {:trigger a[k]} :: k < |a| ==>
         a[k] == if InWindow(k, stride, 0, 0, width, height) && InWindow(k, stride, x, y, x + w, y + h) then color else g[k]
  }

  /** Every visible pixel of the unclipped rectangle gets the colour; every other byte,
      padding included, keeps its value. */
  method RectFill(fb: array?<byte>, stride: i32, width: i32, height: i32, x: i32, y: i32, w: i32, h: i32, color: byte)
    requires fb != null ==> Frame(fb, stride, width, height)
    modifies fb
    ensures fb != null && stride > 0 ==> Filled(fb[..], old(fb[..]), stride, width, height, x, y, w, h, color)
    ensures fb != null && stride <= 0 ==> fb[..] == old(fb[..])
  {
    if fb == null || stride <= 0 || w <= 0 || h <= 0 { return; }
    var x0, y0, x1, y1 := x as int, y as int, x + w, y + h;
    if x0 < 0 { x0 := 0; }
    if y0 < 0 { y0 := 0; }
    if x1 > width { x1 := width; }
    if y1 > height { y1 := height; }
    if x1 <= x0 || y1 <= y0 { return; }
    RowFits(y1 - 1, x1, stride, width, height, fb.Length);
    FillWindow(fb, stride, x0, y0, x1, y1, color);
  }

  // ---------------------------------------------------------------- blit

  /** The source byte that belongs at destination byte `k` when the source's top left is (x, y). */
  function SourceOf(k: nat, dstride: nat, sstride: nat, x: int, y: int): int
    requires dstride > 0
  { (k / dstride - y) * sstride + (k % dstride - x) }

  lemma SourceInRow(k: nat, dstride: nat, sstride: nat, x: int, y: int, row: nat, x0: nat, x1: nat)
    requires dstride > 0 && x0 <= x1 <= dstride && row * dstride + x0 <= k < row * dstride + x1
    ensures SourceOf(k, dstride, sstride, x, y) == (row - y) * sstride + (x0 - x) + (k - (row * dstride + x0))
  {
    RowRange(k, dstride, row, x0, x1);
  }

  method CopyRow(dst: array<byte>, at: nat, src: array<byte>, from: nat, n: nat)
    requires dst != src && at + n <= dst.Length && from + n <= src.Length
    modifies dst
    ensures forall k :: 0 <= k < dst.Length ==>
      dst[k] == if at <= k < at + n then src[from + (k - at)] else old(dst[k])
  {
    for i := 0 to n
      invariant forall k :: 0 <= k < dst.Length ==>
        dst[k] == if at <= k < at + i then src[from + (k - at)] else old(dst[k])
    {
      dst[at + i] := src[from + i];
    }
  }

  /** Rows of the clipped window, `sox` and `soy` source pixels in from the source's corner. */
  method BlitWindow(dst: array<byte>, dstride: nat, src: array<byte>, sstride: nat, sox: nat, soy: nat,
                    x0: nat, y0: nat, x1: nat, y1: nat, ghost x: int, ghost y: int)
    requires dst != src && dstride > 0 && x0 < x1 <= dstride && y0 < y1 && (y1 - 1) * dstride + x1 <= dst.Length
    requires sox == x0 - x && soy == y0 - y
    requires (y1 - 1 - y) * sstride + (x1 - x) <= src.Length
    modifies dst
    ensures forall k: nat | k < dst.Length && InWindow(k, dstride, x0, y0, x1, y1) ::
      0 <= SourceOf(k, dstride, sstride, x, y) < src.Length && dst[k] == src[SourceOf(k, dstride, sstride, x, y)]
    ensures forall k: nat | k < dst.Length && !InWindow(k, dstride, x0, y0, x1, y1) :: dst[k] == old(dst[k])
  {
    for row := y0 to y1
      invariant forall k: nat | k < dst.Length && InWindow(k, dstride, x0, y0, x1, row) ::
        0 <= SourceOf(k, dstride, sstride, x, y) < src.Length && dst[k] == src[SourceOf(k, dstride, sstride, x, y)]
      invariant forall k: nat | k < dst.Length && !InWindow(k, dstride, x0, y0, x1, row) :: dst[k] == old(dst[k])
    {
      RowFits(row, x1, dstride, x1, y1, dst.Length);
      RowFits(row - y, x1 - x, sstride, x1 - x, y1 - y, src.Length);
      var srow := soy + (row - y0);
      assert srow == row - y;
      var at, from := row * dstride + x0, srow * sstride + sox;
      forall k: nat | k < dst.Length
        ensures InWindow(k, dstride, x0, y0, x1, row + 1)
           <==> InWindow(k, dstride, x0, y0, x1, row) || row * dstride + x0 <= k < row * dstride + x1
        ensures at <= k < at + (x1 - x0) ==> SourceOf(k, dstride, sstride, x, y) == from + (k - at)
      {
        WindowGrows(k, dstride, x0, y0, x1, row);
        if at <= k < at + (x1 - x0) { SourceInRow(k, dstride, sstride, x, y, row, x0, x1); }
      }
      NonNegative(row - y, sstride);
      CopyRow(dst, at, src, from, x1 - x0);
    }
  }

  lemma NonNegative(a: nat, b: nat)
    ensures a * b >= 0
  {
  }

  /** Byte `k` is a visible pixel under an image of that size at (x, y). */
  predicate Under(k: nat, dstride: nat, dwidth: int, dheight: int, swidth: int, sheight: int, x: int, y: int)
    requires dstride > 0
  { InWindow(k, dstride, 0, 0, dwidth, dheight) && InWindow(k, dstride, x, y, x + swidth, y + sheight) }

  /** `a` is `g` with the visible part of the image `m` at (x, y) copied in. */
  ghost predicate Blitted(a: seq<byte>, g: seq<byte>, dstride: nat, dwidth: int, dheight: int,
                          m: seq<byte>, sstride: nat, swidth: int, sheight: int, x: int, y: int)
    requires dstride > 0
  {
    && |a| == |g|
    && (forall k: nat {:trigger Under(k, dstride, dwidth, dheight, swidth, sheight, x, y)} ::
          k < |a| && Under(k, dstride, dwidth, dheight, swidth, sheight, x, y) ==>
          0 <= SourceOf(k, dstride, sstride, x, y) < |m| && a[k] == m[SourceOf(k, dstride, sstride, x, y)])
    && (forall k: nat {:trigger Under(k, dstride, dwidth, dheight, swidth, sheight, x, y)} ::
          k < |a| && !Under(k, dstride, dwidth, dheight, swidth, sheight, x, y) ==> a[k] == g[k])
  }

  /** Every visible pixel under the unclipped source gets the source's pixel; every other
      byte of the destination keeps its value. */
  method Blit(dst: array?<byte>, dstride: i32, dwidth: i32, dheight: i32,
              src: array?<byte>, sstride: i32, swidth: i32, sheight: i32, x: i32, y: i32)
    requires dst != null ==> Frame(dst, dstride, dwidth, dheight) && dst != src
    requires src != null ==> Frame(src, sstride, swidth, sheight)
    modifies dst
    ensures dst != null && src != null && dstride > 0 && sstride > 0 ==>
      Blitted(dst[..], old(dst[..]), dstride, dwidth, dheight, src[..], sstride, swidth, sheight, x, y)
    ensures dst != null && (dstride <= 0 || src == null || sstride <= 0) ==> dst[..] == old(dst[..])
  {
    if dst == null || src == null || dstride <= 0 || sstride <= 0 || swidth <= 0 || sheight <= 0 { return; }
    var x0, y0, x1, y1 := x as int, y as int, x + swidth, y + sheight;
    var sox, soy := 0, 0;
    if x0 < 0 { sox, x0 := -x0, 0; }
    if y0 < 0 { soy, y0 := -y0, 0; }
    if x1 > dwidth { x1 := dwidth; }
    if y1 > dheight { y1 := dheight; }
    if x1 <= x0 || y1 <= y0 { return; }
    RowFits(y1 - 1, x1, dstride, dwidth, dheight, dst.Length);
    RowFits(y1 - 1 - y, x1 - x, sstride, swidth, sheight, src.Length);
    BlitWindow(dst, dstride, src, sstride, sox, soy, x0, y0, x1, y1, x, y);
  }

  // ---------------------------------------------------------------- the line walk

  /** The largest extent on either axis for which no 32-bit step of the walk can wrap. */
  const MAX_EXTENT := 715827883

  /** Steps taken along each axis, and the error term. */
  datatype Walk = Walk(i: nat, j: nat, err: int)

  function Step(dx: nat, dy: nat, s: Walk): Walk {
    var xs, ys := 2 * s.err > 0 - dy, 2 * s.err < dx;
    Walk(if xs then s.i + 1 else s.i, if ys then s.j + 1 else s.j,
         s.err - (if xs then dy else 0) + (if ys then dx else 0))
  }

  /** The walk after `n` iterations. */
  function At(dx: nat, dy: nat, n: nat): Walk {
    if n == 0 then Walk(0, 0, dx - dy) else Step(dx, dy, At(dx, dy, n - 1))
  }

  function Max(a: int, b: int): int { if a > b then a else b }

  /** The distance from the ideal line, along the minor axis, scaled by the major extent. */
  function Off(dx: nat, dy: nat, s: Walk): int { s.j * dx - s.i * dy }

  /** What every iteration of the walk keeps: the major axis advances once per iteration and
      the point stays within half a pixel of the ideal line on the minor axis. */
  ghost predicate OnTrack(dx: nat, dy: nat, n: nat, s: Walk) {
    && s.err == Off(dx, dy, s) + dx - dy
    && (if dx >= dy then s.i == n else s.j == n)
    && -Max(dx, dy) <= 2 * Off(dx, dy, s) <= Max(dx, dy)
    && (dx == dy ==> Off(dx, dy, s) == 0)
  }

  lemma StepOff(dx: nat, dy: nat, s: Walk)
    ensures var t := Step(dx, dy, s);
      Off(dx, dy, t) == Off(dx, dy, s) - (if 2 * s.err > 0 - dy then dy else 0) + (if 2 * s.err < dx then dx else 0)
  {
    assert (s.j + 1) * dx == s.j * dx + dx && (s.i + 1) * dy == s.i * dy + dy;
  }

  lemma {:induction false} StaysOnTrack(dx: nat, dy: nat, n: nat)
    requires n <= Max(dx, dy)
    ensures OnTrack(dx, dy, n, At(dx, dy, n))
  {
    if n > 0 {
      StaysOnTrack(dx, dy, n - 1);
      StepOff(dx, dy, At(dx, dy, n - 1));
    }
  }

  lemma SmallMultiple(a: int, m: nat)
    requires m > 0 && 0 - m <= 2 * (a * m) <= m
    ensures a == 0
  {
    assert (a - 1) * m == a * m - m && (a + 1) * m == a * m + m;
    assert a >= 1 ==> (a - 1) * m >= 0;
    assert a <= -1 ==> (a + 1) * m <= 0;
  }

  lemma Factor(a: nat, b: nat, m: nat)
    ensures a * m - b * m == (a - b) * m && b * m == m * b && a * m == m * a
  {
  }

  /** The walk reaches the far end exactly at iteration max(dx, dy), and not before. */
  lemma ReachesEnd(dx: nat, dy: nat, n: nat)
    requires n <= Max(dx, dy)
    ensures (At(dx, dy, n).i == dx && At(dx, dy, n).j == dy) <==> n == Max(dx, dy)
  {
    StaysOnTrack(dx, dy, n);
    var s := At(dx, dy, n);
    if n == Max(dx, dy) && n > 0 {
      if dx >= dy {
        Factor(s.j, dy, dx);
        SmallMultiple(s.j - dy, dx);
      } else {
        Factor(dx, s.i, dy);
        SmallMultiple(dx - s.i, dy);
      }
    }
  }

  /** Neither axis overshoots, so every point lies in the segment's bounding box. */
  lemma {:induction false} InBox(dx: nat, dy: nat, n: nat, m: nat)
    requires n <= m <= Max(dx, dy)
    ensures At(dx, dy, n).i <= At(dx, dy, m).i && At(dx, dy, n).j <= At(dx, dy, m).j
    decreases m - n
  {
    if n < m { InBox(dx, dy, n, m - 1); }
  }

  /** What an iteration computes from the error term fits 32 bits. */
  ghost predicate StepHolds(dx: nat, dy: nat, s: Walk) {
    var xs, ys := 2 * s.err > 0 - dy, 2 * s.err < dx;
    && -0x8000_0000 <= 2 * s.err <= 0x7fff_ffff
    && (xs ==> -0x8000_0000 <= s.err - dy)
    && (ys ==> s.err - (if xs then dy else 0) + dx <= 0x7fff_ffff)
  }

  /** No step of a line with these extents overflows. */
  ghost predicate LineHolds(dx: nat, dy: nat) {
    && dx <= 0x7fff_ffff && dy <= 0x7fff_ffff
    && forall n: nat {:trigger At(dx, dy, n)} :: n < Max(dx, dy) ==> StepHolds(dx, dy, At(dx, dy, n))
  }

  /** A horizontal or vertical walk never leaves its line. */
  lemma OnAxis(dx: nat, dy: nat, s: Walk)
    requires (dx == 0 || dy == 0) && 0 - Max(dx, dy) <= 2 * Off(dx, dy, s) <= Max(dx, dy)
    ensures Off(dx, dy, s) == 0
  {
    if dx > 0 { SmallMultiple(s.j, dx); }
    if dy > 0 { SmallMultiple(0 - s.i, dy); }
  }

  lemma ErrFits(dx: nat, dy: nat, off: int)
    requires Max(dx, dy) <= MAX_EXTENT && 0 - Max(dx, dy) <= 2 * off <= Max(dx, dy)
    requires dx == 0 || dy == 0 ==> off == 0
    ensures var err := off + dx - dy;
      -0x7fff_ffff <= 2 * err <= 0x7fff_ffff && -0x7fff_ffff <= err - dy && err + dx <= 0x7fff_ffff
  {}

  /** Within the extent bound every value the 32-bit code computes fits. */
  lemma NoWrap(dx: nat, dy: nat, n: nat)
    requires n <= Max(dx, dy) <= MAX_EXTENT
    ensures StepHolds(dx, dy, At(dx, dy, n))
  {
    StaysOnTrack(dx, dy, n);
    var s := At(dx, dy, n);
    if dx == 0 || dy == 0 { OnAxis(dx, dy, s); }
    ErrFits(dx, dy, Off(dx, dy, s));
  }

  // ---------------------------------------------------------------- the bound is tight

  /** A nearly flat line of even length keeps to its first row for half its length. */
  lemma {:induction false} FlatHalf(dx: nat, n: nat)
    requires dx % 2 == 0 && n <= dx / 2
    ensures At(dx, 1, n) == Walk(n, 0, dx - 1 - n)
  {
    if n > 0 { FlatHalf(dx, n - 1); }
  }

  /** One pixel beyond the bound, a line that rises by one pixel doubles an error term of
      2^30, which a 32-bit integer cannot hold. */
  lemma BoundIsTight()
    ensures var s := At(MAX_EXTENT + 1, 1, (MAX_EXTENT + 1) / 2 + 1);
      2 * s.err == 0x8000_0000
  {
    FlatHalf(MAX_EXTENT + 1, (MAX_EXTENT + 1) / 2);
  }

  /** No line reaching at most `m` pixels along each axis wraps. */
  ghost predicate NoneWraps(m: nat) {
    forall dx: nat, dy: nat, n: nat | dx <= m && dy <= m && n < Max(dx, dy) :: StepHolds(dx, dy, At(dx, dy, n))
  }

  /** The bound is exact. */
  lemma NoneWrapsIff(m: nat)
    ensures NoneWraps(m) <==> m <= MAX_EXTENT
  {
    if m <= MAX_EXTENT {
      forall dx: nat, dy: nat, n: nat | dx <= m && dy <= m && n < Max(dx, dy) ensures StepHolds(dx, dy, At(dx, dy, n)) {
        NoWrap(dx, dy, n);
      }
    } else {
      BoundIsTight();
      assert !StepHolds(MAX_EXTENT + 1, 1, At(MAX_EXTENT + 1, 1, (MAX_EXTENT + 1) / 2 + 1));
    }
  }

  // ---------------------------------------------------------------- drawing

  function Extent(a: i32, b: i32): nat { if b > a then b - a else a - b }

  function Toward(a: i32, b: i32, n: nat): int { if a < b then a + n else a - n }

  /** The `n`-th point of the line. */
  function Point(x0: i32, y0: i32, x1: i32, y1: i32, n: nat): (int, int) {
    var s := At(Extent(x0, x1), Extent(y0, y1), n);
    (Toward(x0, x1, s.i), Toward(y0, y1, s.j))
  }

  /** (x, y) is among the first `n` points. */
  ghost predicate Among(x0: i32, y0: i32, x1: i32, y1: i32, n: nat, x: int, y: int) {
    exists m: nat | m < n :: Point(x0, y0, x1, y1, m) == (x, y)
  }

  lemma AmongGrows(x0: i32, y0: i32, x1: i32, y1: i32, n: nat, x: int, y: int)
    ensures Among(x0, y0, x1, y1, n + 1, x, y)
       <==> Among(x0, y0, x1, y1, n, x, y) || Point(x0, y0, x1, y1, n) == (x, y)
  {
    if Point(x0, y0, x1, y1, n) == (x, y) { assert n < n + 1; }
    if Among(x0, y0, x1, y1, n, x, y) {
      var m: nat :| m < n && Point(x0, y0, x1, y1, m) == (x, y);
      assert m < n + 1;
    }
  }

  /** How many points the line has. */
  function Count(x0: i32, y0: i32, x1: i32, y1: i32): nat { Max(Extent(x0, x1), Extent(y0, y1)) + 1 }

  /** The walk never leaves the segment's bounding box. */
  lemma StaysInBox(dx: nat, dy: nat, n: nat)
    requires n <= Max(dx, dy)
    ensures At(dx, dy, n).i <= dx && At(dx, dy, n).j <= dy
  {
    ReachesEnd(dx, dy, Max(dx, dy));
    InBox(dx, dy, n, Max(dx, dy));
  }

  /** Both ends are drawn, the far one last, and every point is within half a pixel of the
      ideal line. */
  lemma LineShape(x0: i32, y0: i32, x1: i32, y1: i32, n: nat)
    requires n < Count(x0, y0, x1, y1)
    ensures Point(x0, y0, x1, y1, 0) == (x0, y0)
    ensures Point(x0, y0, x1, y1, n) == (x1, y1) <==> n == Count(x0, y0, x1, y1) - 1
    ensures OnTrack(Extent(x0, x1), Extent(y0, y1), n, At(Extent(x0, x1), Extent(y0, y1), n))
  {
    StaysOnTrack(Extent(x0, x1), Extent(y0, y1), n);
    EndsOnce(x0, y0, x1, y1, n);
  }

  lemma EndsOnce(x0: i32, y0: i32, x1: i32, y1: i32, n: nat)
    requires n < Count(x0, y0, x1, y1)
    ensures Point(x0, y0, x1, y1, n) == (x1, y1) <==> n == Count(x0, y0, x1, y1) - 1
  {
    ReachesEnd(Extent(x0, x1), Extent(y0, y1), n);
    StaysInBox(Extent(x0, x1), Extent(y0, y1), n);
  }

  method Pixel(fb: array?<byte>, stride: i32, width: i32, height: i32, x: i32, y: i32, color: byte)
    requires fb != null ==> Frame(fb, stride, width, height)
    modifies fb
    ensures fb != null && stride > 0 ==> forall k: nat {:trigger fb[k]} :: k < fb.Length ==>
      fb[k] == if InWindow(k, stride, 0, 0, width, height) && k % stride == x && k / stride == y
               then color else old(fb[k])
    ensures fb != null && stride <= 0 ==> fb[..] == old(fb[..])
  {
    if fb == null || stride <= 0 { return; }
    if x < 0 || x >= width || y < 0 || y >= height { return; }
    RowFits(y, x + 1, stride, width, height, fb.Length);
    forall k: nat ensures k == y * stride + x <==> k % stride == x && k / stride == y { RowRange(k, stride, y, x, x + 1); }
    NonNegative(y, stride);
    fb[y * stride + x] := color;
  }

  lemma StepFits(dx: nat, dy: nat, n: nat)
    requires n + 1 <= Max(dx, dy) && LineHolds(dx, dy)
    ensures var s, t := At(dx, dy, n), At(dx, dy, n + 1);
      t == Step(dx, dy, s) && 0 <= t.i <= dx && 0 <= t.j <= dy && StepHolds(dx, dy, s)
  {
    StaysInBox(dx, dy, n + 1);
  }

  /** One iteration's arithmetic, in 32 bits: every intermediate value fits. */
  method Advance(x0: i32, y0: i32, x1: i32, y1: i32, x: i32, y: i32, err: i32, ghost n: nat)
    returns (nx: i32, ny: i32, nerr: i32)
    requires LineHolds(Extent(x0, x1), Extent(y0, y1)) && n + 1 < Count(x0, y0, x1, y1)
    requires err == At(Extent(x0, x1), Extent(y0, y1), n).err && (x, y) == Point(x0, y0, x1, y1, n)
    ensures nerr == At(Extent(x0, x1), Extent(y0, y1), n + 1).err && (nx, ny) == Point(x0, y0, x1, y1, n + 1)
  {
    var dx: i32 := if x1 > x0 then x1 - x0 else x0 - x1;
    var dy: i32 := if y1 > y0 then y1 - y0 else y0 - y1;
    var sx, sy := if x0 < x1 then 1 else -1, if y0 < y1 then 1 else -1;
    StepFits(dx, dy, n);
    nx, ny, nerr := x, y, err;
    var e2: i32 := 2 * err;
    if e2 > -dy { nerr := nerr - dy; nx := nx + sx; }
    if e2 < dx { nerr := nerr + dx; ny := ny + sy; }
  }

  /** Byte `k` is a visible pixel among the first `n` points. */
  ghost predicate Drawn(k: nat, stride: nat, width: int, height: int, x0: i32, y0: i32, x1: i32, y1: i32, n: nat)
    requires stride > 0
  {
    InWindow(k, stride, 0, 0, width, height) && Among(x0, y0, x1, y1, n, k % stride, k / stride)
  }

  /** `a` is `g` with the visible pixels among the first `n` points painted. */
  ghost predicate Painted(a: seq<byte>, g: seq<byte>, stride: nat, width: int, height: int,
                          x0: i32, y0: i32, x1: i32, y1: i32, n: nat, color: byte)
    requires stride > 0
  {
    && |a| == |g|
    && forall k: nat {:trigger a[k]} {:trigger Drawn(k, stride, width, height, x0, y0, x1, y1, n)} :: k < |a| ==>
         a[k] == if Drawn(k, stride, width, height, x0, y0, x1, y1, n) then color else g[k]
  }

  /** Plot point `n` of the line. */
  method Plot(fb: array<byte>, stride: i32, width: i32, height: i32, x0: i32, y0: i32, x1: i32, y1: i32, color: byte,
              x: i32, y: i32, ghost n: nat, ghost g: seq<byte>)
    requires stride > 0 && Frame(fb, stride, width, height) && (x, y) == Point(x0, y0, x1, y1, n)
    requires Painted(fb[..], g, stride, width, height, x0, y0, x1, y1, n, color)
    modifies fb
    ensures Painted(fb[..], g, stride, width, height, x0, y0, x1, y1, n + 1, color)
  {
    ghost var was := fb[..];
    Pixel(fb, stride, width, height, x, y, color);
    forall k: nat | k < fb.Length
      ensures fb[k] == if Drawn(k, stride, width, height, x0, y0, x1, y1, n + 1) then color else g[k]
    {
      AmongGrows(x0, y0, x1, y1, n, k % stride, k / stride);
      assert was[k] == if Drawn(k, stride, width, height, x0, y0, x1, y1, n) then color else g[k];
    }
  }

  /** Where no step overflows, the walk ends and exactly the visible points of the line get the
      colour. */
  method Line(fb: array?<byte>, stride: i32, width: i32, height: i32, x0: i32, y0: i32, x1: i32, y1: i32, color: byte)
    requires fb != null ==> Frame(fb, stride, width, height)
    requires LineHolds(Extent(x0, x1), Extent(y0, y1))
    modifies fb
    ensures fb != null && stride > 0 ==>
      Painted(fb[..], old(fb[..]), stride, width, height, x0, y0, x1, y1, Count(x0, y0, x1, y1), color)
    ensures fb != null && stride <= 0 ==> fb[..] == old(fb[..])
  {
    if fb == null || stride <= 0 { return; }
    var err: i32 := (if x1 > x0 then x1 - x0 else x0 - x1) - (if y1 > y0 then y1 - y0 else y0 - y1);
    var x, y := x0, y0;
    ghost var n: nat := 0;
    while true
      invariant n < Count(x0, y0, x1, y1)
      invariant err == At(Extent(x0, x1), Extent(y0, y1), n).err && (x, y) == Point(x0, y0, x1, y1, n)
      invariant Painted(fb[..], old(fb[..]), stride, width, height, x0, y0, x1, y1, n, color)
      decreases Count(x0, y0, x1, y1) - n
    {
      Plot(fb, stride, width, height, x0, y0, x1, y1, color, x, y, n, old(fb[..]));
      EndsOnce(x0, y0, x1, y1, n);
      if x == x1 && y == y1 { break; }
      x, y, err := Advance(x0, y0, x1, y1, x, y, err, n);
      n := n + 1;
    }
  }

  /** Drawing into a smaller frame is the crop of drawing into a larger one: frames that
      agree on the smaller one's pixels still agree on them after the same line. */
  method LineCrops(small: array<byte>, sstride: i32, w: i32, h: i32, big: array<byte>, bstride: i32, W: i32, H: i32,
                   x0: i32, y0: i32, x1: i32, y1: i32, color: byte)
    requires small != big && sstride > 0 && bstride > 0 && 0 < w <= W && 0 < h <= H
    requires Frame(small, sstride, w, h) && Frame(big, bstride, W, H)
    requires LineHolds(Extent(x0, x1), Extent(y0, y1))
    requires Agree(small, sstride, big, bstride, w, h)
    modifies small, big
    ensures Agree(small, sstride, big, bstride, w, h)
  {
    Line(small, sstride, w, h, x0, y0, x1, y1, color);
    Line(big, bstride, W, H, x0, y0, x1, y1, color);
    forall x: nat, y: nat | x < w && y < h ensures SamePixel(small, sstride, big, bstride, x, y) {
      assert old(SamePixel(small, sstride, big, bstride, x, y));
      PixelAt(x, y, sstride, w, h, small.Length);
      PixelAt(x, y, bstride, W, H, big.Length);
    }
  }

  lemma PixelAt(x: nat, y: nat, stride: nat, w: nat, h: nat, len: nat)
    requires x < w <= stride && y < h && (h - 1) * stride + w <= len
    ensures var k := y * stride + x;
      k < len && k % stride == x && k / stride == y && InWindow(k, stride, 0, 0, w, h)
  {
    RowFits(y, x + 1, stride, w, h, len);
    RowRange(y * stride + x, stride, y, x, x + 1);
  }

  ghost predicate SamePixel(a: array<byte>, astride: nat, b: array<byte>, bstride: nat, x: nat, y: nat)
    reads a, b
  {
    0 <= y * astride + x < a.Length && 0 <= y * bstride + x < b.Length ==> a[y * astride + x] == b[y * bstride + x]
  }

  ghost predicate Agree(a: array<byte>, astride: nat, b: array<byte>, bstride: nat, w: nat, h: nat)
    reads a, b
  {
    forall x: nat, y: nat {:trigger SamePixel(a, astride, b, bstride, x, y)} ::
      x < w && y < h ==> SamePixel(a, astride, b, bstride, x, y)
  }
}
