/** Which lines can be drawn without 32-bit overflow: a condition on the two extents alone. */
module RasterBounds {
  import opened Raster

  // ---------------------------------------------------------------- a little number theory

  function Gcd(a: nat, b: nat): (g: nat)
    requires a > 0 || b > 0
    ensures g > 0
    decreases b
  { if b == 0 then a else Gcd(b, a % b) }

  ghost predicate Divides(g: nat, v: int) { exists k: int {:trigger g * k} :: v == g * k }

  lemma {:induction false} GcdDivides(a: nat, b: nat)
    requires a > 0 || b > 0
    ensures Divides(Gcd(a, b), a) && Divides(Gcd(a, b), b)
    decreases b
  {
    var g := Gcd(a, b);
    if b == 0 {
      assert a == g * 1 && b == g * 0;
    } else {
      GcdDivides(b, a % b);
      var k: int :| b == g * k;
      var l: int :| a % b == g * l;
      var q := a / b;
      assert a == q * b + a % b;
      assert q * (g * k) + g * l == g * (q * k + l);
    }
  }

  lemma {:induction false} Bezout(a: nat, b: nat) returns (x: int, y: int)
    requires a > 0 || b > 0
    ensures x * a + y * b == Gcd(a, b)
    decreases b
  {
    if b == 0 { return 1, 0; }
    var u, v := Bezout(b, a % b);
    x, y := v, u - v * (a / b);
    BezoutStep(a, b, a / b, a % b, u, v);
  }

  lemma BezoutStep(a: int, b: int, q: int, r: int, u: int, v: int)
    requires a == q * b + r
    ensures v * a + (u - v * q) * b == u * b + v * r
  {
    assert v * a == v * (q * b) + v * r;
    assert v * (q * b) == (v * q) * b;
    assert (u - v * q) * b == u * b - (v * q) * b;
  }

  lemma Combine(g: nat, a: int, b: int, x: int, y: int)
    requires Divides(g, a) && Divides(g, b)
    ensures Divides(g, x * a - y * b)
  {
    var k: int :| a == g * k;
    var l: int :| b == g * l;
    assert x * (g * k) - y * (g * l) == g * (x * k - y * l);
  }

  /** Two multiples of `m` less than `m` apart are equal. */
  lemma Close(d: int, m: nat, c: int)
    requires m > 0 && d == m * c && 0 - m < d < m
    ensures d == 0
  {
    assert c >= 1 ==> m * (c - 1) >= 0;
    assert c <= -1 ==> m * (c + 1) <= 0;
    assert m * (c - 1) == m * c - m && m * (c + 1) == m * c + m;
  }

  lemma Spread(x: int, m: int, y: int, k: int, t: int)
    ensures (x * m + y * k) * t == (t * x) * m + (y * t) * k
  {
    assert (x * m) * t == (t * x) * m && (y * k) * t == (y * t) * k;
  }

  lemma Shift(m: int, q: int, n: int, k: int)
    ensures (m * q + n) * k == (q * k) * m + n * k
  {
    assert (m * q) * k == (q * k) * m;
  }

  lemma Minus(a: int, b: int, m: int)
    ensures (a - b) * m == a * m - b * m
  {}

  /** Every multiple of gcd(m, k) is, up to multiples of `m`, some -n * k with n below m. */
  lemma Solve(m: nat, k: nat, v: int) returns (n: nat, c: int)
    requires m > 0 && Divides(Gcd(m, k), v)
    ensures n < m && v == c * m - n * k
  {
    var x, y := Bezout(m, k);
    var t: int :| v == Gcd(m, k) * t;
    var w := 0 - y * t;
    n, c := w % m, t * x - (w / m) * k;
    SolveAlgebra(m, k, v, x, y, t, w / m, n);
  }

  lemma SolveAlgebra(m: int, k: int, v: int, x: int, y: int, t: int, q: int, n: int)
    requires v == (x * m + y * k) * t && 0 - y * t == m * q + n
    ensures v == (t * x - q * k) * m - n * k
  {
    Spread(x, m, y, k, t);
    Shift(m, q, n, k);
    Minus(t * x, q * k, m);
    assert (y * t) * k == 0 - (m * q + n) * k by { Minus(0, m * q + n, k); }
  }

  // ---------------------------------------------------------------- which distances occur

  /** The half-open window the scaled distance stays in: ties go down when x is the major
      axis and up when y is. */
  ghost predicate Window(dx: nat, dy: nat, off: int) {
    if dx >= dy then 0 - dx <= 2 * off && (2 * off < dx || off == 0) else 0 - dy < 2 * off <= dy
  }

  lemma {:induction false} StaysInWindow(dx: nat, dy: nat, n: nat)
    requires n <= Max(dx, dy)
    ensures Window(dx, dy, Off(dx, dy, At(dx, dy, n)))
  {
    if n > 0 {
      StaysInWindow(dx, dy, n - 1);
      StaysOnTrack(dx, dy, n - 1);
      StepOff(dx, dy, At(dx, dy, n - 1));
    }
  }

  lemma OffDivides(dx: nat, dy: nat, n: nat)
    requires Max(dx, dy) > 0
    ensures Divides(Gcd(dx, dy), Off(dx, dy, At(dx, dy, n)))
  {
    GcdDivides(dx, dy);
    Combine(Gcd(dx, dy), dx, dy, At(dx, dy, n).j, At(dx, dy, n).i);
  }

  /** Every multiple of the extents' gcd in the window occurs as a distance, before the last
      point. */
  lemma Occurs(dx: nat, dy: nat, v: int) returns (n: nat)
    requires Max(dx, dy) > 0 && Window(dx, dy, v) && Divides(Gcd(dx, dy), v)
    ensures n < Max(dx, dy) && Off(dx, dy, At(dx, dy, n)) == v
  {
    var c;
    if dx >= dy {
      n, c := Solve(dx, dy, v);
      StaysOnTrack(dx, dy, n);
      StaysInWindow(dx, dy, n);
      SameClass(dx, dy, Off(dx, dy, At(dx, dy, n)), v, dx, At(dx, dy, n).j, c, n * dy);
    } else {
      GcdSwap(dx, dy);
      Combine(Gcd(dy, dx), v, v, 0, 1);
      n, c := Solve(dy, dx, 0 - v);
      StaysOnTrack(dx, dy, n);
      StaysInWindow(dx, dy, n);
      SameClass(dx, dy, 0 - Off(dx, dy, At(dx, dy, n)), 0 - v, dy, At(dx, dy, n).i, c, n * dx);
    }
  }

  /** Two distances in the window that differ by a multiple of the major extent are the same. */
  lemma SameClass(dx: nat, dy: nat, a: int, b: int, m: nat, i: int, c: int, r: int)
    requires m == Max(dx, dy) > 0 && a == i * m - r && b == c * m - r
    requires (Window(dx, dy, a) && Window(dx, dy, b)) || (Window(dx, dy, 0 - a) && Window(dx, dy, 0 - b))
    ensures a == b
  {
    Minus(i, c, m);
    Close(a - b, m, i - c);
  }

  lemma GcdSwap(a: nat, b: nat)
    requires a < b
    ensures Gcd(a, b) == Gcd(b, a)
  {
    if b > 0 { assert a % b == a; }
  }

  /** The largest and the smallest distance that occurs. */
  function Highest(dx: nat, dy: nat): int
    requires Max(dx, dy) > 0
  {
    var g := Gcd(dx, dy);
    if dx >= dy then g * ((dx / g - 1) / 2) else g * (dy / g / 2)
  }

  function Lowest(dx: nat, dy: nat): int
    requires Max(dx, dy) > 0
  {
    var g := Gcd(dx, dy);
    if dx >= dy then 0 - g * (dx / g / 2) else 0 - g * ((dy / g - 1) / 2)
  }

  lemma {:induction false} Positive(g: nat, d: nat)
    requires g > 0 && d > 0
    ensures g * d > 0
  {
    if g > 1 {
      Positive(g - 1, d);
      assert g * d == (g - 1) * d + d;
    }
  }

  lemma Scaled(g: nat, a: int, b: int)
    requires g > 0
    ensures a <= b <==> g * a <= g * b
    ensures a < b <==> g * a < g * b
  {
    assert g * (b - a) == g * b - g * a && g * (a - b) == g * a - g * b;
    if a < b { Positive(g, b - a); }
    if a > b { Positive(g, a - b); }
  }

  lemma Twice(g: int, k: int)
    ensures g * (2 * k) == 2 * (g * k) && g * (0 - k) == 0 - g * k
  {}

  /** Multiples of `g` in a window of half-width g * q / 2. */
  lemma Extremes(g: nat, q: nat, k: int)
    requires g > 0 && q > 0
    ensures 2 * (g * k) < g * q <==> g * k <= g * ((q - 1) / 2)
    ensures 2 * (g * k) >= 0 - g * q <==> g * k >= 0 - g * (q / 2)
  {
    Twice(g, k);
    Scaled(g, 2 * k, q);
    Scaled(g, k, (q - 1) / 2);
    Twice(g, q);
    Scaled(g, 0 - q, 2 * k);
    Twice(g, q / 2);
    Scaled(g, 0 - q / 2, k);
  }

  lemma Between(dx: nat, dy: nat, v: int)
    requires Max(dx, dy) > 0 && Window(dx, dy, v) && Divides(Gcd(dx, dy), v)
    ensures Lowest(dx, dy) <= v <= Highest(dx, dy)
  {
    var g, m := Gcd(dx, dy), Max(dx, dy);
    var k: int :| v == g * k;
    Whole(dx, dy);
    Twice(g, k);
    Extremes(g, m / g, if dx >= dy then k else 0 - k);
  }

  /** The gcd divides the major extent. */
  lemma Whole(dx: nat, dy: nat)
    requires Max(dx, dy) > 0
    ensures var g, m := Gcd(dx, dy), Max(dx, dy); m == g * (m / g) && m / g > 0
  {
    var g, m := Gcd(dx, dy), Max(dx, dy);
    GcdDivides(dx, dy);
    var k: int :| m == g * k;
    DivExact(m, g, k, m / g, m % g);
  }

  lemma DivExact(m: nat, g: nat, k: int, d: int, r: int)
    requires g > 0 && m > 0 && m == g * k && m == g * d + r && 0 <= r < g
    ensures m == g * d && d > 0
  {
    assert g * (k - d) == g * k - g * d;
    Close(r, g, k - d);
    Scaled(g, 0, d);
  }

  lemma ExtremesOccur(dx: nat, dy: nat)
    requires Max(dx, dy) > 0
    ensures Window(dx, dy, Highest(dx, dy)) && Divides(Gcd(dx, dy), Highest(dx, dy))
    ensures Window(dx, dy, Lowest(dx, dy)) && Divides(Gcd(dx, dy), Lowest(dx, dy))
    ensures Lowest(dx, dy) <= 0 <= Highest(dx, dy)
  {
    var g, m := Gcd(dx, dy), Max(dx, dy);
    Whole(dx, dy);
    var a, b := (m / g - 1) / 2, m / g / 2;
    Extremes(g, m / g, a);
    Extremes(g, m / g, 0 - b);
    Twice(g, a);
    Twice(g, b);
    Scaled(g, 0, a);
    Scaled(g, 0, b);
  }

  // ---------------------------------------------------------------- the condition

  /** A check on the extents that a caller can make before drawing. */
  predicate Drawable(dx: nat, dy: nat) {
    && dx <= 0x7fff_ffff && dy <= 0x7fff_ffff
    && (Max(dx, dy) > 0 ==>
          if dx >= dy then
            2 * (Highest(dx, dy) + dx - dy) <= 0x7fff_ffff && Lowest(dx, dy) + dx - 2 * dy >= -0x8000_0000
          else
            2 * (Lowest(dx, dy) + dx - dy) >= -0x8000_0000 && (dx > 0 ==> Lowest(dx, dy) - dy >= -0x8000_0000))
  }

  /** Every distance on the walk lies between the extremes. */
  lemma OffBetween(dx: nat, dy: nat, n: nat)
    requires 0 < Max(dx, dy) && n <= Max(dx, dy)
    ensures Lowest(dx, dy) <= Off(dx, dy, At(dx, dy, n)) <= Highest(dx, dy)
    ensures Window(dx, dy, Off(dx, dy, At(dx, dy, n)))
    ensures At(dx, dy, n).err == Off(dx, dy, At(dx, dy, n)) + dx - dy
  {
    StaysInWindow(dx, dy, n);
    StaysOnTrack(dx, dy, n);
    OffDivides(dx, dy, n);
    Between(dx, dy, Off(dx, dy, At(dx, dy, n)));
  }

  /** The next distance, in terms of this one. */
  lemma NextOff(dx: nat, dy: nat, n: nat)
    ensures var s := At(dx, dy, n);
      Off(dx, dy, At(dx, dy, n + 1))
      == Off(dx, dy, s) - (if 2 * s.err > 0 - dy then dy else 0) + (if 2 * s.err < dx then dx else 0)
  {
    StepOff(dx, dy, At(dx, dy, n));
  }

  lemma DrawableStep(dx: nat, dy: nat, n: nat)
    requires Drawable(dx, dy) && n < Max(dx, dy)
    ensures StepHolds(dx, dy, At(dx, dy, n))
  {
    OffBetween(dx, dy, n);
    OffBetween(dx, dy, n + 1);
    NextOff(dx, dy, n);
    ExtremesOccur(dx, dy);
    StaysOnTrack(dx, dy, n);
    if dx == 0 { OnAxis(dx, dy, At(dx, dy, n)); }
  }

  lemma HoldsDrawableX(dx: nat, dy: nat)
    requires LineHolds(dx, dy) && dx >= dy && dx > 0
    ensures Drawable(dx, dy)
  {
    ExtremesOccur(dx, dy);
    var a := Occurs(dx, dy, Highest(dx, dy));
    var b := Occurs(dx, dy, Lowest(dx, dy));
    OffBetween(dx, dy, a);
    OffBetween(dx, dy, b);
    StaysOnTrack(dx, dy, b);
    assert StepHolds(dx, dy, At(dx, dy, a)) && StepHolds(dx, dy, At(dx, dy, b));
  }

  lemma HoldsDrawableY(dx: nat, dy: nat)
    requires LineHolds(dx, dy) && dx < dy
    ensures Drawable(dx, dy)
  {
    ExtremesOccur(dx, dy);
    var b := Occurs(dx, dy, Lowest(dx, dy));
    OffBetween(dx, dy, b);
    assert StepHolds(dx, dy, At(dx, dy, b));
    if dx > 0 {
      var n := if b == 0 then dy - 1 else b - 1;
      if b == 0 { EndOff(dx, dy); }
      OffBetween(dx, dy, n);
      NextOff(dx, dy, n);
      assert StepHolds(dx, dy, At(dx, dy, n));
    }
  }

  /** The walk ends on the line. */
  lemma EndOff(dx: nat, dy: nat)
    ensures Off(dx, dy, At(dx, dy, Max(dx, dy))) == 0
  {
    ReachesEnd(dx, dy, Max(dx, dy));
    assert dy * dx == dx * dy;
  }

  /** No step of a line overflows if and only if its extents pass the check. */
  lemma HoldsIffDrawable(dx: nat, dy: nat)
    ensures LineHolds(dx, dy) <==> Drawable(dx, dy)
  {
    if Drawable(dx, dy) {
      forall n: nat | n < Max(dx, dy) ensures StepHolds(dx, dy, At(dx, dy, n)) { DrawableStep(dx, dy, n); }
    }
    if LineHolds(dx, dy) && Max(dx, dy) > 0 {
      if dx >= dy { HoldsDrawableX(dx, dy); } else { HoldsDrawableY(dx, dy); }
    }
  }

  /** For instance: level lines up to 2^30 - 1 pixels, and diagonals of any extent that fits. */
  lemma LevelAndDiagonal(d: nat)
    ensures LineHolds(d, 0) <==> d <= 0x3fff_ffff
    ensures LineHolds(d, d) <==> d <= 0x7fff_ffff
  {
    HoldsIffDrawable(d, 0);
    HoldsIffDrawable(d, d);
    if d > 0 {
      assert d % d == 0 && d / d == 1;
      assert Gcd(d, 0) == d && Gcd(d, d) == d;
    }
  }

  // ---------------------------------------------------------------- beyond it, if addition wraps

  /** A sum reduced to 32 signed bits. */
  function Wrap(x: int): int { (x + 0x8000_0000) % 0x1_0000_0000 - 0x8000_0000 }

  lemma WrapFits(x: int)
    requires -0x8000_0000 <= x <= 0x7fff_ffff
    ensures Wrap(x) == x
  {}

  /** An iteration with wrapping arithmetic; `i` and `j` count the steps taken on each axis. */
  function WrapStep(dx: nat, dy: nat, s: Walk): Walk {
    var e2 := Wrap(2 * s.err);
    var xs, ys := e2 > 0 - dy, e2 < dx;
    var e := if xs then Wrap(s.err - dy) else s.err;
    Walk(if xs then s.i + 1 else s.i, if ys then s.j + 1 else s.j, if ys then Wrap(e + dx) else e)
  }

  function WrapAt(dx: nat, dy: nat, n: nat): Walk {
    if n == 0 then Walk(0, 0, dx - dy) else WrapStep(dx, dy, WrapAt(dx, dy, n - 1))
  }

  lemma StepAgrees(dx: nat, dy: nat, s: Walk)
    requires StepHolds(dx, dy, s) && dx <= 0x7fff_ffff && dy <= 0x7fff_ffff
    requires -0x4000_0000 <= s.err <= 0x3fff_ffff
    ensures WrapStep(dx, dy, s) == Step(dx, dy, s)
  {
    WrapFits(2 * s.err);
    var e := if 2 * s.err > 0 - dy then s.err - dy else s.err;
    WrapFits(e);
    if 2 * s.err < dx { WrapFits(e + dx); }
  }

  /** Where no step overflows, wrapping makes no difference. */
  lemma {:induction false} WrapAgrees(dx: nat, dy: nat, n: nat)
    requires n <= Max(dx, dy) && dx <= 0x7fff_ffff && dy <= 0x7fff_ffff
    requires forall k: nat {:trigger At(dx, dy, k)} :: k < n ==> StepHolds(dx, dy, At(dx, dy, k))
    ensures WrapAt(dx, dy, n) == At(dx, dy, n)
  {
    if n > 0 {
      WrapAgrees(dx, dy, n - 1);
      StepAgrees(dx, dy, At(dx, dy, n - 1));
    }
  }

  const LONG := MAX_EXTENT + 1
  const TURN := LONG / 2 + 1

  /** One pixel beyond the uniform bound: up to the overflow the line is as it should be, and
      then it steps off its last row. */
  lemma LeavesItsRow()
    ensures WrapAt(LONG, 1, TURN) == Walk(TURN, 1, 0x4000_0000)
    ensures WrapAt(LONG, 1, TURN + 1).j == 2
  {
    UpToTheTurn(LONG, TURN);
    StepsOff(LONG, TURN);
  }

  lemma UpToTheTurn(dx: nat, n: nat)
    requires dx == LONG && n == TURN
    ensures WrapAt(dx, 1, n) == Walk(n, 1, 0x4000_0000)
  {
    forall k: nat | k < n ensures StepHolds(dx, 1, At(dx, 1, k)) { FlatHalfHolds(dx, k); }
    WrapAgrees(dx, 1, n);
    AtTheTurn(dx, n);
  }

  lemma FlatHalfHolds(dx: nat, k: nat)
    requires dx == LONG && k <= dx / 2
    ensures StepHolds(dx, 1, At(dx, 1, k))
  {
    FlatHalf(dx, k);
  }

  lemma AtTheTurn(dx: nat, n: nat)
    requires dx == LONG && n == dx / 2 + 1
    ensures At(dx, 1, n) == Walk(n, 1, 0x4000_0000)
  {
    FlatHalf(dx, n - 1);
  }

  lemma StepsOff(dx: nat, n: nat)
    requires WrapAt(dx, 1, n) == Walk(n, 1, 0x4000_0000)
    ensures WrapAt(dx, 1, n + 1).j == 2
  {
    assert Wrap(0x8000_0000) == -0x8000_0000;
  }

  lemma {:induction false} RowsGrow(dx: nat, dy: nat, m: nat, n: nat)
    requires m <= n
    ensures WrapAt(dx, dy, m).j <= WrapAt(dx, dy, n).j <= WrapAt(dx, dy, m).j + (n - m)
    decreases n - m
  {
    if m < n { RowsGrow(dx, dy, m, n - 1); }
  }

  /** If additions wrap, that line does not stop at its end point: it should be over after
      715827885 points, but in none of the 2^32 - 1 iterations after the overflow is it on its
      last row. */
  lemma RunsOn(y0: i32, n: nat)
    requires TURN < n < TURN + 0x1_0000_0000 && y0 < 0x7fff_ffff
    ensures Wrap(y0 + WrapAt(LONG, 1, n).j) != y0 + 1
  {
    LeavesItsRow();
    StaysOff(LONG, 1, TURN + 1, n, y0);
  }

  lemma StaysOff(dx: nat, dy: nat, m: nat, n: nat, y0: i32)
    requires WrapAt(dx, dy, m).j == 2 && m <= n < m + 0xffff_ffff && y0 < 0x7fff_ffff
    ensures Wrap(y0 + WrapAt(dx, dy, n).j) != y0 + 1
  {
    RowsGrow(dx, dy, m, n);
    NotBack(y0, WrapAt(dx, dy, n).j);
  }

  lemma NotBack(y0: i32, j: nat)
    requires 2 <= j <= 0x1_0000_0000 && y0 < 0x7fff_ffff
    ensures Wrap(y0 + j) != y0 + 1
  {
    var z := y0 + 0x8000_0000;
    assert 0 <= z < 0xffff_ffff && Wrap(y0 + j) == (z + j) % 0x1_0000_0000 - 0x8000_0000;
    assert z + j < 0x1_0000_0000 ==> (z + j) % 0x1_0000_0000 == z + j;
    assert z + j >= 0x1_0000_0000 ==> (z + j) % 0x1_0000_0000 == z + j - 0x1_0000_0000;
  }
}
