/** One frame of kernel/src/donut.c: where each sample lands, how bright it is and how deep. */
module Renderer {
  import opened Rotation
  import opened DepthBuffer

  const GLYPHS := ".,:;~=*oO#$@"
  const K2 := 5242880
  const ROWS_J := 90
  const STEPS_I := 324

  /** The tilt of the torus: a holds (cA, sA) and b holds (cB, sB). */
  datatype Pose = Pose(a: Vec, b: Vec) {
    predicate Sound() { a.Sound() && b.Sound() }
  }

  /** C division, which truncates towards zero; the divisors here are positive. */
  function Quotient(n: int, d: int): int
    requires d > 0
  {
    if n >= 0 then n / d else -((-n) / d)
  }

  function X0(j: Vec): int { j.x + 2048 }
  function X1(i: Vec, j: Vec): int { Shr(i.x * X0(j), By10) }
  function X2(p: Pose, j: Vec): int { Shr(p.a.x * j.y, By10) }
  function X3(i: Vec, j: Vec): int { Shr(i.y * X0(j), By10) }
  function X4(p: Pose, i: Vec, j: Vec): int { X2(p, j) - Shr(p.a.y * X3(i, j), By10) }
  function X5(p: Pose, j: Vec): int { Shr(p.a.y * j.y, By10) }
  function X6(p: Pose, i: Vec, j: Vec): int { K2 + 1024 * X5(p, j) + p.a.x * X3(i, j) }
  function X7(i: Vec, j: Vec): int { Shr(j.x * i.y, By10) }

  function Across(p: Pose, i: Vec, j: Vec): int { p.b.x * X1(i, j) - p.b.y * X4(p, i, j) }
  function Down(p: Pose, i: Vec, j: Vec): int { p.b.x * X4(p, i, j) + p.b.y * X1(i, j) }

  /** The surface normal's component towards the light, before the two last shifts. */
  function Facing(p: Pose, i: Vec, j: Vec): int {
    -p.a.x * X7(i, j) - p.b.x * (Shr(-p.a.y * X7(i, j), By10) + X2(p, j)) - i.x * Shr(j.x * p.b.y, By10)
  }

  function Luminance(p: Pose, i: Vec, j: Vec): int {
    Shr(Shr(Facing(p, i, j), By10) - X5(p, j), By7)
  }

  function Depth(p: Pose, i: Vec, j: Vec): int { Shr(X6(p, i, j) - K2, By15) }

  // ------------------------------------------------------------------ bounds

  lemma Cauchy2(a: int, b: int, c: int, d: int)
    ensures (a * c + b * d) * (a * c + b * d) <= (a * a + b * b) * (c * c + d * d)
  {
    Lagrange(a, -b, c, d);
    var e := a * d - b * c;
    assert e * e >= 0;
    assert a * c - -b * d == a * c + b * d && a * d + -b * c == e;
    assert a * a + -b * -b == a * a + b * b;
  }

  lemma Swap(a: int, b: int, c: int, d: int)
    ensures (a * d) * (b * c) == (a * c) * (b * d)
  {
  }

  lemma SquareOfDifference(a: int, b: int)
    ensures (a - b) * (a - b) == a * a - 2 * (a * b) + b * b
  {
  }

  lemma SquareOfSum3(a: int, b: int, c: int)
    ensures (a + b + c) * (a + b + c) == a * a + b * b + c * c + 2 * (a * b) + 2 * (a * c) + 2 * (b * c)
  {
  }

  lemma Foil3(a: int, b: int, c: int, d: int, e: int, f: int)
    ensures (a + b + c) * (d + e + f) == a * d + a * e + a * f + b * d + b * e + b * f + c * d + c * e + c * f
  {
  }

  lemma Cross2(a: int, b: int, c: int, d: int)
    ensures 2 * ((a * c) * (b * d)) <= a * a * (d * d) + b * b * (c * c)
  {
    var e := a * d - b * c;
    SquareOfDifference(a * d, b * c);
    assert e * e >= 0;
    Swap(a, b, c, d);
    ProductOfSquares(a, d);
    ProductOfSquares(b, c);
  }

  /** Cauchy-Schwarz in three dimensions. */
  lemma Cauchy3(a: int, b: int, c: int, d: int, e: int, f: int)
    ensures (a * d + b * e + c * f) * (a * d + b * e + c * f) <= (a * a + b * b + c * c) * (d * d + e * e + f * f)
  {
    SquareOfSum3(a * d, b * e, c * f);
    Foil3(a * a, b * b, c * c, d * d, e * e, f * f);
    Cross2(a, b, d, e);
    Cross2(a, c, d, f);
    Cross2(b, c, e, f);
    ProductOfSquares(a, d);
    ProductOfSquares(b, e);
    ProductOfSquares(c, f);
  }

  lemma SquareLe(a: int, b: int, q: int)
    requires a * a + b * b <= q
    ensures a * a <= q && b * b <= q
  {
    assert a * a >= 0 && b * b >= 0;
  }

  lemma ScaleLe(a: int, b: int, c: int)
    requires 0 <= c && a <= b
    ensures a * c <= b * c
  {
  }

  lemma BoundedProduct(a: int, b: int, m: int, n: int)
    requires -m <= a <= m && -n <= b <= n
    ensures -(m * n) <= a * b <= m * n
  {
    if a >= 0 {
      Product(a, m, b, n);
    } else {
      Product(-a, m, b, n);
      assert (-a) * b == -(a * b);
    }
  }

  /** The ring around the axis reaches at most three radii out. */
  lemma RingReach(si: int, cj: int, sj: int)
    requires si * si <= MAX_NORM && cj * cj + sj * sj <= MAX_NORM
    requires -1026 <= cj <= 1026
    ensures (1024 * sj) * (1024 * sj) + (si * (cj + 2048)) * (si * (cj + 2048)) <= MAX_NORM * 9449476
  {
    var x0 := cj + 2048;
    ProductOfSquares(1024, sj);
    ProductOfSquares(si, x0);
    SquareOfSum(cj, 2048);
    assert x0 * x0 + sj * sj <= 9449476;
    ScaleLe(si * si, MAX_NORM, x0 * x0);
    ScaleLe(UNIT_SQ, MAX_NORM, sj * sj);
    ScaleLe(x0 * x0 + sj * sj, 9449476, MAX_NORM);
    Distribute(x0 * x0, sj * sj, MAX_NORM);
  }

  /** The depth of a sample without its roundings: Cauchy-Schwarz between the tilt and the ring. */
  lemma DepthMain(ca: int, sa: int, u: int, w: int)
    requires ca * ca + sa * sa <= MAX_NORM && u * u + w * w <= MAX_NORM * 9449476
    ensures -3235926024 <= sa * u + ca * w <= 3235926024
  {
    Cauchy2(sa, ca, u, w);
    assert u * u >= 0 && w * w >= 0;
    ScaleLe(sa * sa + ca * ca, MAX_NORM, u * u + w * w);
    ScaleLe(u * u + w * w, MAX_NORM * 9449476, MAX_NORM);
    SquareBound(sa * u + ca * w, 3235926024);
  }

  lemma DepthRounded(a: int, b: int, x5: int, e5: int, c: int, e: int)
    requires -3235926024 <= 1024 * a + b <= 3235926024
    requires a == 1024 * x5 + e5 && 0 <= e5 < 1024
    requires b == 1024 * c + e && -(1023 * 1026) <= e <= 1023 * 1026
    ensures -97 * 32768 <= 1024 * x5 + c < 97 * 32768
  {
  }

  lemma DepthNumbers(ca: int, sa: int, si: int, cj: int, sj: int, x5: int, x3: int, e5: int, e3: int)
    requires ca * ca + sa * sa <= MAX_NORM && si * si <= MAX_NORM && cj * cj + sj * sj <= MAX_NORM
    requires -1026 <= cj <= 1026 && -1026 <= ca <= 1026
    requires sa * sj == 1024 * x5 + e5 && si * (cj + 2048) == 1024 * x3 + e3
    requires 0 <= e5 < 1024 && 0 <= e3 < 1024
    ensures -97 * 32768 <= 1024 * x5 + ca * x3 < 97 * 32768
  {
    RingReach(si, cj, sj);
    var w := si * (cj + 2048);
    DepthMain(ca, sa, 1024 * sj, w);
    Commute(sa, sj);
    DistributeSum(ca, 1024, x3, e3);
    Product(e3, 1023, ca, 1026);
    DepthRounded(sa * sj, ca * w, x5, e5, ca * x3, e3 * ca);
  }

  lemma Commute(a: int, b: int)
    ensures a * (1024 * b) == 1024 * (a * b)
  {
  }

  lemma DistributeSum(c: int, k: int, x: int, e: int)
    ensures c * (k * x + e) == k * (c * x) + e * c
  {
  }

  /** x6 is positive, so the projection never divides by zero, and the depth fits the int8 cast and
      lies below the initial z-buffer value. */
  lemma DepthRange(p: Pose, i: Vec, j: Vec)
    requires p.Sound() && i.Sound() && j.Sound()
    ensures 2_000_000 < X6(p, i, j) < 8_500_000
    ensures -97 <= Depth(p, i, j) <= 96
  {
    SoundBounds(p.a);
    SoundBounds(j);
    SquareLe(i.x, i.y, MAX_NORM);
    var e5 := ShrRemainder(p.a.y * j.y, By10);
    var e3 := ShrRemainder(i.y * X0(j), By10);
    DepthNumbers(p.a.x, p.a.y, i.y, j.x, j.y, X5(p, j), X3(i, j), e5, e3);
  }

  lemma Part(k: int, c: int, x: int, p: int, e: int)
    requires p == 1024 * x + e
    ensures k * (c * (1024 * x)) == k * (c * p) - k * (c * e)
  {
    assert c * (1024 * x) == c * p - c * e;
  }

  lemma Part3(g: int, b: int, a: int, x: int, p: int, e: int)
    requires p == 1024 * x + e && g == b * a
    ensures 1024 * (b * (a * x)) == g * p - g * e
  {
    assert b * (a * x) == g * x;
    assert g * (1024 * x) == g * p - g * e;
  }

  /** The light's share of a sample, with every rounding of its computation written out. */
  lemma FacingExpanded(ca: int, sa: int, cb: int, ci: int, p: int, s: int, c: int,
                       x7: int, x2: int, z1: int, c8: int, e7: int, e2: int, ez: int, e8: int)
    requires p == 1024 * x7 + e7 && s == 1024 * x2 + e2 && c == 1024 * c8 + e8 && -sa * x7 == 1024 * z1 + ez
    ensures UNIT_SQ * (-ca * x7 - cb * (z1 + x2) - ci * c8)
         == (cb * sa) * p - 1024 * (ca * p) - 1024 * (cb * s) - 1024 * (ci * c)
            + 1024 * (ca * e7) - (cb * sa) * e7 + 1024 * (cb * ez) + 1024 * (cb * e2) + 1024 * (ci * e8)
  {
    Part(1024, ca, x7, p, e7);
    Part(1024, cb, x2, s, e2);
    Part(1024, ci, c8, c, e8);
    Part(1024, cb, z1, -sa * x7, ez);
    Part3(cb * sa, cb, sa, x7, p, e7);
    assert cb * (-sa * x7) == -(cb * (sa * x7));
    Thousand(ca, x7);
    Thousand(cb, x2);
    Thousand(cb, z1);
    Thousand(ci, c8);
    assert cb * (z1 + x2) == cb * z1 + cb * x2;
    assert -ca * x7 == -(ca * x7);
  }

  lemma Thousand(a: int, x: int)
    ensures a * (1024 * x) == 1024 * (a * x)
  {
  }

  lemma NormalLength(ci: int, si: int, cj: int, sj: int)
    requires ci * ci + si * si <= MAX_NORM && cj * cj + sj * sj <= MAX_NORM
    ensures (cj * si) * (cj * si) + (1024 * sj) * (1024 * sj) + (cj * ci) * (cj * ci) <= MAX_NORM * MAX_NORM
  {
    ProductOfSquares(cj, si);
    ProductOfSquares(cj, ci);
    ProductOfSquares(1024, sj);
    Distribute(si * si, ci * ci, cj * cj);
    assert cj * cj >= 0 && sj * sj >= 0;
    ScaleLe(si * si + ci * ci, MAX_NORM, cj * cj);
    ScaleLe(UNIT_SQ, MAX_NORM, sj * sj);
  }

  lemma LightLength(ca: int, sa: int, cb: int, sb: int)
    requires ca * ca + sa * sa <= MAX_NORM && cb * cb + sb * sb <= MAX_NORM
    ensures (cb * sa - 1024 * ca) * (cb * sa - 1024 * ca) + (cb * ca + 1024 * sa) * (cb * ca + 1024 * sa)
            + (1024 * sb) * (1024 * sb) <= 2 * (MAX_NORM * MAX_NORM)
  {
    Lagrange(cb, 1024, sa, ca);
    ProductOfSquares(1024, sb);
    assert cb * cb >= 0 && sb * sb >= 0;
    ScaleLe(sa * sa + ca * ca, MAX_NORM, cb * cb + UNIT_SQ);
    Commute2(sa * sa + ca * ca, cb * cb + UNIT_SQ);
  }

  lemma Commute2(a: int, b: int)
    ensures a * b == b * a
  {
  }

  /** The luminance without its roundings: Cauchy-Schwarz between the normal and the light. */
  lemma LightMain(u1: int, u2: int, u3: int, w1: int, w2: int, w3: int)
    requires u1 * u1 + u2 * u2 + u3 * u3 <= MAX_NORM * MAX_NORM
    requires w1 * w1 + w2 * w2 + w3 * w3 <= 2 * (MAX_NORM * MAX_NORM)
    ensures -1567150000000 <= u1 * w1 + u2 * w2 + u3 * w3 <= 1567150000000
  {
    Cauchy3(u1, u2, u3, w1, w2, w3);
    var n, l := u1 * u1 + u2 * u2 + u3 * u3, w1 * w1 + w2 * w2 + w3 * w3;
    assert u1 * u1 >= 0 && u2 * u2 >= 0 && u3 * u3 >= 0 && w1 * w1 >= 0 && w2 * w2 >= 0 && w3 * w3 >= 0;
    ScaleLe(n, MAX_NORM * MAX_NORM, l);
    ScaleLe(l, 2 * (MAX_NORM * MAX_NORM), MAX_NORM * MAX_NORM);
    SquareBound(u1 * w1 + u2 * w2 + u3 * w3, 1567150000000);
  }

  lemma LightDot(ca: int, sa: int, cb: int, sb: int, ci: int, si: int, cj: int, sj: int)
    ensures (cj * si) * (cb * sa - 1024 * ca) + (1024 * sj) * -(cb * ca + 1024 * sa) + (cj * ci) * -(1024 * sb)
         == (cb * sa) * (cj * si) - 1024 * (ca * (cj * si)) - 1024 * (cb * (ca * sj)) - 1024 * (ci * (cj * sb))
            - UNIT_SQ * (sa * sj)
  {
    var p := cj * si;
    assert p * (cb * sa - 1024 * ca) == (cb * sa) * p - 1024 * (ca * p);
    assert (1024 * sj) * -(cb * ca + 1024 * sa) == -1024 * (cb * (ca * sj)) - UNIT_SQ * (sa * sj) by {
      assert sj * (cb * ca) == cb * (ca * sj);
    }
    assert (cj * ci) * -(1024 * sb) == -1024 * (ci * (cj * sb)) by {
      assert (cj * ci) * sb == ci * (cj * sb);
    }
  }

  const LIGHT_SHARE := 7_680_000_000

  /** The product of the normal and the light, written out. */
  function LightProduct(ca: int, sa: int, cb: int, sb: int, ci: int, si: int, cj: int, sj: int): int {
    (cj * si) * (cb * sa - 1024 * ca) + (1024 * sj) * -(cb * ca + 1024 * sa) + (cj * ci) * -(1024 * sb)
  }

  lemma LightRounded(m: int, f: int, g: int, x5: int, e: int, e5: int, l: int)
    requires -1567150000000 <= m <= 1567150000000
    requires UNIT_SQ * f == m + UNIT_SQ * g + e && g == 1024 * x5 + e5
    requires -6600000000 <= e <= 6600000000 && 0 <= e5 < 1024
    requires f == 1024 * (l + x5) + (f % 1024)
    ensures -1536 <= l < 1536
    ensures -LIGHT_SHARE <= m - 1024 * UNIT_SQ * l <= LIGHT_SHARE
  {
  }

  lemma LightErrors(ca: int, g: int, cb: int, ci: int, e7: int, e2: int, ez: int, e8: int)
    requires -1026 <= ca <= 1026 && -1026 <= cb <= 1026 && -1026 <= ci <= 1026 && -MAX_NORM <= g <= MAX_NORM
    requires 0 <= e7 < 1024 && 0 <= e2 < 1024 && 0 <= ez < 1024 && 0 <= e8 < 1024
    ensures -6600000000 <= 1024 * (ca * e7) - g * e7 + 1024 * (cb * ez) + 1024 * (cb * e2) + 1024 * (ci * e8) <= 6600000000
  {
    Product(e7, 1023, ca, 1026);
    Product(e7, 1023, g, MAX_NORM);
    Product(ez, 1023, cb, 1026);
    Product(e2, 1023, cb, 1026);
    Product(e8, 1023, ci, 1026);
  }

  lemma LightNumbers(ca: int, sa: int, cb: int, sb: int, ci: int, si: int, cj: int, sj: int,
                     x7: int, x2: int, z1: int, c8: int, x5: int,
                     e7: int, e2: int, ez: int, e8: int, e5: int)
    requires ca * ca + sa * sa <= MAX_NORM && cb * cb + sb * sb <= MAX_NORM
    requires ci * ci + si * si <= MAX_NORM && cj * cj + sj * sj <= MAX_NORM
    requires -1026 <= ca <= 1026 && -1026 <= cb <= 1026 && -1026 <= ci <= 1026 && -1026 <= sa <= 1026
    requires cj * si == 1024 * x7 + e7 && ca * sj == 1024 * x2 + e2 && cj * sb == 1024 * c8 + e8
    requires -sa * x7 == 1024 * z1 + ez && sa * sj == 1024 * x5 + e5
    requires 0 <= e7 < 1024 && 0 <= e2 < 1024 && 0 <= ez < 1024 && 0 <= e8 < 1024 && 0 <= e5 < 1024
    ensures var l := (-ca * x7 - cb * (z1 + x2) - ci * c8) / 1024 - x5;
      -1536 <= l < 1536 && -LIGHT_SHARE <= LightProduct(ca, sa, cb, sb, ci, si, cj, sj) - 1024 * UNIT_SQ * l <= LIGHT_SHARE
  {
    FacingExpanded(ca, sa, cb, ci, cj * si, ca * sj, cj * sb, x7, x2, z1, c8, e7, e2, ez, e8);
    NormalLength(ci, si, cj, sj);
    LightLength(ca, sa, cb, sb);
    Negated(cb * ca + 1024 * sa);
    Negated(1024 * sb);
    LightMain(cj * si, 1024 * sj, cj * ci, cb * sa - 1024 * ca, -(cb * ca + 1024 * sa), -(1024 * sb));
    LightDot(ca, sa, cb, sb, ci, si, cj, sj);
    BoundedProduct(cb, sa, 1026, 1026);
    LightErrors(ca, cb * sa, cb, ci, e7, e2, ez, e8);
    var f := -ca * x7 - cb * (z1 + x2) - ci * c8;
    var m := LightProduct(ca, sa, cb, sb, ci, si, cj, sj);
    var e := 1024 * (ca * e7) - (cb * sa) * e7 + 1024 * (cb * ez) + 1024 * (cb * e2) + 1024 * (ci * e8);
    LightRounded(m, f, sa * sj, x5, e, e5, f / 1024 - x5);
  }

  lemma Negated(a: int)
    ensures -a * -a == a * a
  {
  }

  /** The luminance index never leaves the twelve glyphs. */
  lemma LuminanceRange(p: Pose, i: Vec, j: Vec)
    requires p.Sound() && i.Sound() && j.Sound()
    ensures -12 <= Luminance(p, i, j) <= 11
    ensures var m := LightProduct(p.a.x, p.a.y, p.b.x, p.b.y, i.x, i.y, j.x, j.y);
      -LIGHT_SHARE <= m - 1024 * UNIT_SQ * (128 * Luminance(p, i, j)) <= 1024 * UNIT_SQ * 127 + LIGHT_SHARE
  {
    SoundBounds(p.a);
    SoundBounds(p.b);
    SoundBounds(i);
    var e7 := ShrRemainder(j.x * i.y, By10);
    var e2 := ShrRemainder(p.a.x * j.y, By10);
    var ez := ShrRemainder(-p.a.y * X7(i, j), By10);
    var e8 := ShrRemainder(j.x * p.b.y, By10);
    var e5 := ShrRemainder(p.a.y * j.y, By10);
    LightNumbers(p.a.x, p.a.y, p.b.x, p.b.y, i.x, i.y, j.x, j.y, X7(i, j), X2(p, j),
                 Shr(-p.a.y * X7(i, j), By10), Shr(j.x * p.b.y, By10), X5(p, j), e7, e2, ez, e8, e5);
  }

  lemma QuotientWithin(n: int, d: int, b: int)
    requires d > 0 && -(b * d) <= n <= b * d
    ensures -b <= Quotient(n, d) <= b
  {
    if n >= 0 {
      DivideWithin(n, d, b);
    } else {
      DivideWithin(-n, d, b);
    }
  }

  lemma DivideWithin(n: int, d: int, b: int)
    requires d > 0 && 0 <= n <= b * d
    ensures 0 <= n / d <= b
  {
    var q := n / d;
    assert n == q * d + n % d;
    Excess(q, b, d);
  }

  lemma Excess(q: int, b: int, d: int)
    requires d > 0
    ensures q * d <= b * d ==> q <= b
  {
    if q > b {
      ScaleLe(b + 1, q, d);
    }
  }

  function ScreenX(p: Pose, i: Vec, j: Vec): int
    requires X6(p, i, j) > 0
  {
    40 + Quotient(30 * Across(p, i, j), X6(p, i, j))
  }

  function ScreenY(p: Pose, i: Vec, j: Vec): int
    requires X6(p, i, j) > 0
  {
    12 + Quotient(15 * Down(p, i, j), X6(p, i, j))
  }

  /** Every intermediate of the sample's arithmetic fits a C int. */
  predicate SampleFits(p: Pose, i: Vec, j: Vec) {
    && Fits32(i.x * X0(j)) && Fits32(i.y * X0(j)) && Fits32(p.a.x * j.y) && Fits32(p.a.y * j.y)
    && Fits32(p.a.y * X3(i, j)) && Fits32(p.a.x * X3(i, j)) && Fits32(1024 * X5(p, j))
    && Fits32(K2 + 1024 * X5(p, j)) && Fits32(X6(p, i, j)) && Fits32(j.x * i.y)
    && Fits32(p.b.x * X1(i, j)) && Fits32(p.b.y * X4(p, i, j)) && Fits32(30 * Across(p, i, j))
    && Fits32(p.b.x * X4(p, i, j)) && Fits32(p.b.y * X1(i, j)) && Fits32(15 * Down(p, i, j))
    && Fits32(-p.a.x * X7(i, j)) && Fits32(-p.a.y * X7(i, j)) && Fits32(j.x * p.b.y)
    && Fits32(p.b.x * (Shr(-p.a.y * X7(i, j), By10) + X2(p, j))) && Fits32(i.x * Shr(j.x * p.b.y, By10))
    && Fits32(-p.a.x * X7(i, j) - p.b.x * (Shr(-p.a.y * X7(i, j), By10) + X2(p, j)))
    && Fits32(Facing(p, i, j))
  }

  lemma ProjectionReach(p: Pose, i: Vec, j: Vec)
    requires p.Sound() && i.Sound() && j.Sound()
    ensures -3081 <= X1(i, j) <= 3081 && -3081 <= X3(i, j) <= 3081
    ensures -1029 <= X2(p, j) <= 1029 && -1029 <= X5(p, j) <= 1029 && -1029 <= X7(i, j) <= 1029
    ensures -4117 <= X4(p, i, j) <= 4117
    ensures Fits32(i.x * X0(j)) && Fits32(i.y * X0(j)) && Fits32(p.a.x * j.y) && Fits32(p.a.y * j.y)
    ensures Fits32(p.a.y * X3(i, j)) && Fits32(j.x * i.y)
  {
    SoundBounds(p.a);
    SoundBounds(i);
    SoundBounds(j);
    BoundedProduct(i.x, X0(j), 1026, 3074);
    BoundedProduct(i.y, X0(j), 1026, 3074);
    BoundedProduct(p.a.x, j.y, 1026, 1026);
    BoundedProduct(p.a.y, j.y, 1026, 1026);
    BoundedProduct(j.x, i.y, 1026, 1026);
    BoundedProduct(p.a.y, X3(i, j), 1026, 3081);
  }

  lemma ScreenReach(p: Pose, i: Vec, j: Vec)
    requires p.Sound() && i.Sound() && j.Sound()
    ensures -222_000_000 <= 30 * Across(p, i, j) <= 222_000_000
    ensures -222_000_000 <= 15 * Down(p, i, j) <= 222_000_000
    ensures Fits32(p.b.x * X1(i, j)) && Fits32(p.b.y * X4(p, i, j))
    ensures Fits32(p.b.x * X4(p, i, j)) && Fits32(p.b.y * X1(i, j))
  {
    SoundBounds(p.b);
    ProjectionReach(p, i, j);
    ScreenNumbers(p.b.x, p.b.y, X1(i, j), X4(p, i, j));
  }

  lemma ScreenNumbers(cb: int, sb: int, x1: int, x4: int)
    requires -1026 <= cb <= 1026 && -1026 <= sb <= 1026
    requires -3081 <= x1 <= 3081 && -4117 <= x4 <= 4117
    ensures -222_000_000 <= 30 * (cb * x1 - sb * x4) <= 222_000_000
    ensures -222_000_000 <= 15 * (cb * x4 + sb * x1) <= 222_000_000
    ensures Fits32(cb * x1) && Fits32(sb * x4) && Fits32(cb * x4) && Fits32(sb * x1)
  {
    BoundedProduct(cb, x1, 1026, 3081);
    BoundedProduct(sb, x4, 1026, 4117);
    BoundedProduct(cb, x4, 1026, 4117);
    BoundedProduct(sb, x1, 1026, 3081);
  }

  lemma FacingFits(p: Pose, i: Vec, j: Vec)
    requires p.Sound() && i.Sound() && j.Sound()
    ensures Fits32(-p.a.x * X7(i, j)) && Fits32(-p.a.y * X7(i, j)) && Fits32(j.x * p.b.y)
    ensures Fits32(p.b.x * (Shr(-p.a.y * X7(i, j), By10) + X2(p, j))) && Fits32(i.x * Shr(j.x * p.b.y, By10))
    ensures Fits32(-p.a.x * X7(i, j) - p.b.x * (Shr(-p.a.y * X7(i, j), By10) + X2(p, j)))
    ensures Fits32(Facing(p, i, j))
  {
    SoundBounds(p.a);
    SoundBounds(p.b);
    SoundBounds(i);
    SoundBounds(j);
    ProjectionReach(p, i, j);
    BoundedProduct(-p.a.x, X7(i, j), 1026, 1029);
    BoundedProduct(-p.a.y, X7(i, j), 1026, 1029);
    BoundedProduct(j.x, p.b.y, 1026, 1026);
    BoundedProduct(p.b.x, Shr(-p.a.y * X7(i, j), By10) + X2(p, j), 1026, 2100);
    BoundedProduct(i.x, Shr(j.x * p.b.y, By10), 1026, 1029);
  }

  /** No sample overflows an int, divides by zero, or lands farther than this from the screen. */
  lemma SampleSafe(p: Pose, i: Vec, j: Vec)
    requires p.Sound() && i.Sound() && j.Sound()
    ensures SampleFits(p, i, j)
    ensures X6(p, i, j) > 0
    ensures -71 <= ScreenX(p, i, j) <= 151 && -99 <= ScreenY(p, i, j) <= 123
  {
    DepthRange(p, i, j);
    ProjectionReach(p, i, j);
    ScreenReach(p, i, j);
    FacingFits(p, i, j);
    SoundBounds(p.a);
    BoundedProduct(p.a.x, X3(i, j), 1026, 3081);
    QuotientWithin(30 * Across(p, i, j), X6(p, i, j), 111);
    QuotientWithin(15 * Down(p, i, j), X6(p, i, j), 111);
  }

  // ------------------------------------------------------------------ the frame

  function Shot(p: Pose, i: Vec, j: Vec): (s: Sample)
    requires p.Sound() && i.Sound() && j.Sound()
    ensures -97 <= s.depth <= 96
  {
    DepthRange(p, i, j);
    LuminanceRange(p, i, j);
    var n := Luminance(p, i, j);
    Sample(ScreenX(p, i, j), ScreenY(p, i, j), Depth(p, i, j), GLYPHS[if n > 0 then n else 0])
  }

  /** The vector after n equal spins. */
  function Turns(v: Vec, s: Spin, n: nat): (w: Vec)
    requires v.Sound()
    ensures w.Sound()
    decreases n
  {
    if n == 0 then v
    else
      var u := Turns(v, s, n - 1);
      RotatedSound(u, s);
      Rotated(u, s)
  }

  /** n samples of the ring at angle vj, from tube angle vi on. */
  function RingShots(p: Pose, vi: Vec, vj: Vec, n: nat): (ss: seq<Sample>)
    requires p.Sound() && vi.Sound() && vj.Sound()
    decreases n, p
  {
    if n == 0 then []
    else
      RotatedSound(vi, Slow);
      [Shot(p, vi, vj)] + RingShots(p, Rotated(vi, Slow), vj, n - 1)
  }

  /** The samples of n rings, from ring angle vj on; each ring starts at tube angle zero. */
  function Shots(p: Pose, vj: Vec, n: nat): (ss: seq<Sample>)
    requires p.Sound() && vj.Sound()
    decreases n, p
  {
    if n == 0 then []
    else
      RotatedSound(vj, Wide);
      RingShots(p, Vec(1024, 0), vj, STEPS_I) + Shots(p, Rotated(vj, Wide), n - 1)
  }

  /** All the samples of one frame. */
  function FrameShots(p: Pose): (ss: seq<Sample>)
    requires p.Sound()
  {
    Shots(p, Vec(1024, 0), ROWS_J)
  }

  lemma Regroup(a: seq<Sample>, b: seq<Sample>, c: seq<Sample>)
    ensures a + (b + c) == (a + b) + c
  {
  }

  /** Lines 75-95: one sample is plotted and the tube angle advances. */
  method DrawSample(p: Pose, vi: Vec, vj: Vec, ghost before: seq<Sample>, b: array<char>, z: array<int>)
    returns (v: Vec)
    requires p.Sound() && vi.Sound() && vj.Sound() && b.Length == CELLS && z.Length == CELLS
    requires Painted(before, b, z)
    modifies b, z
    ensures v == Rotated(vi, Slow) && v.Sound()
    ensures Painted(before + [Shot(p, vi, vj)], b, z)
  {
    var s := Shoot(p, vi, vj);
    Plot(s, before, b, z);
    v := Rotate(Slow, vi);
  }

  lemma RingStep(p: Pose, vi: Vec, v: Vec, vj: Vec, n: nat, ring: seq<Sample>)
    requires p.Sound() && vi.Sound() && v.Sound() && vj.Sound() && v == Rotated(vi, Slow)
    ensures ring + RingShots(p, vi, vj, n + 1) == ring + [Shot(p, vi, vj)] + RingShots(p, v, vj, n)
  {
    Regroup(ring, [Shot(p, vi, vj)], RingShots(p, v, vj, n));
  }

  /** Lines 75-95, with n more samples of the ring to come. */
  method DrawNext(p: Pose, vi: Vec, vj: Vec, ghost n: nat, ghost before: seq<Sample>, ghost ring: seq<Sample>,
                  b: array<char>, z: array<int>)
    returns (v: Vec)
    requires p.Sound() && vi.Sound() && vj.Sound() && b.Length == CELLS && z.Length == CELLS
    requires Painted(before + ring, b, z)
    modifies b, z
    ensures v.Sound() && Painted(before + (ring + [Shot(p, vi, vj)]), b, z)
    ensures ring + [Shot(p, vi, vj)] + RingShots(p, v, vj, n) == ring + RingShots(p, vi, vj, n + 1)
  {
    v := DrawSample(p, vi, vj, before + ring, b, z);
    RingStep(p, vi, v, vj, n, ring);
    Regroup(before, ring, [Shot(p, vi, vj)]);
  }

  /** Lines 73-96: one ring of samples. */
  method DrawRing(p: Pose, vj: Vec, ghost before: seq<Sample>, b: array<char>, z: array<int>)
    requires p.Sound() && vj.Sound() && b.Length == CELLS && z.Length == CELLS
    requires Painted(before, b, z)
    modifies b, z
    ensures Painted(before + RingShots(p, Vec(1024, 0), vj, STEPS_I), b, z)
  {
    var vi := Vec(1024, 0);
    ghost var ring, all := [], RingShots(p, vi, vj, STEPS_I);
    assert before + ring == before && ring + all == all;
    for i := 0 to STEPS_I
      invariant vi.Sound()
      invariant ring + RingShots(p, vi, vj, STEPS_I - i) == all
      invariant Painted(before + ring, b, z)
    {
      var v := DrawNext(p, vi, vj, STEPS_I - i - 1, before, ring, b, z);
      ring := ring + [Shot(p, vi, vj)];
      vi := v;
    }
    assert ring + [] == ring;
  }

  /** Lines 73-97: one ring is drawn and the ring angle advances. */
  method DrawAndTurn(p: Pose, vj: Vec, ghost before: seq<Sample>, b: array<char>, z: array<int>) returns (v: Vec)
    requires p.Sound() && vj.Sound() && b.Length == CELLS && z.Length == CELLS
    requires Painted(before, b, z)
    modifies b, z
    ensures v == Rotated(vj, Wide) && v.Sound()
    ensures Painted(before + RingShots(p, Vec(1024, 0), vj, STEPS_I), b, z)
  {
    DrawRing(p, vj, before, b, z);
    v := Rotate(Wide, vj);
  }

  lemma FrameStep(p: Pose, vj: Vec, v: Vec, n: nat, done: seq<Sample>)
    requires p.Sound() && vj.Sound() && v.Sound() && v == Rotated(vj, Wide)
    ensures done + Shots(p, vj, n + 1) == done + RingShots(p, Vec(1024, 0), vj, STEPS_I) + Shots(p, v, n)
  {
    Regroup(done, RingShots(p, Vec(1024, 0), vj, STEPS_I), Shots(p, v, n));
  }

  /** Lines 72-98: the ring loop, for any number of rings. */
  method DrawRings(p: Pose, v0: Vec, rings: nat, b: array<char>, z: array<int>)
    requires p.Sound() && v0.Sound() && b.Length == CELLS && z.Length == CELLS
    requires Painted([], b, z)
    modifies b, z
    ensures Painted(Shots(p, v0, rings), b, z)
  {
    var vj := v0;
    ghost var done := [];
    for j := 0 to rings
      invariant vj.Sound()
      invariant done + Shots(p, vj, rings - j) == Shots(p, v0, rings)
      invariant Painted(done, b, z)
    {
      var v := DrawAndTurn(p, vj, done, b, z);
      FrameStep(p, vj, v, rings - j - 1, done);
      done := done + RingShots(p, Vec(1024, 0), vj, STEPS_I);
      vj := v;
    }
    assert done + [] == done;
  }

  /** Lines 69-98: both buffers are cleared and every sample of the torus is plotted. */
  method DrawFrame(p: Pose, b: array<char>, z: array<int>)
    requires p.Sound() && b.Length == CELLS && z.Length == CELLS
    modifies b, z
    ensures Painted(FrameShots(p), b, z)
  {
    Clear(b, z);
    DrawRings(p, Vec(1024, 0), ROWS_J, b, z);
  }

  /** Lines 75-90: one sample, with the guarantees its C arithmetic needs. */
  method Shoot(p: Pose, i: Vec, j: Vec) returns (s: Sample)
    requires p.Sound() && i.Sound() && j.Sound()
    ensures s == Shot(p, i, j)
  {
    SampleSafe(p, i, j);
    LuminanceRange(p, i, j);
    DepthRange(p, i, j);
    var x0 := j.x + 2048;
    var x1 := Shr(i.x * x0, By10);
    var x2 := Shr(p.a.x * j.y, By10);
    var x3 := Shr(i.y * x0, By10);
    var x4 := x2 - Shr(p.a.y * x3, By10);
    var x5 := Shr(p.a.y * j.y, By10);
    var x6 := K2 + 1024 * x5 + p.a.x * x3;
    var x7 := Shr(j.x * i.y, By10);
    var x := 40 + Quotient(30 * (p.b.x * x1 - p.b.y * x4), x6);
    var y := 12 + Quotient(15 * (p.b.x * x4 + p.b.y * x1), x6);
    var facing := -p.a.x * x7 - p.b.x * (Shr(-p.a.y * x7, By10) + x2) - i.x * Shr(j.x * p.b.y, By10);
    var n := Shr(Shr(facing, By10) - x5, By7);
    s := Sample(x, y, Shr(x6 - K2, By15), GLYPHS[if n > 0 then n else 0]);
  }

  /** The tilt of frame f: cA, sA advance by (5, 7) and cB, sB by (5, 8) after every frame. */
  function PoseAt(f: nat): (p: Pose)
    ensures p.Sound()
  {
    Pose(Turns(Vec(0, 1024), Tilt, f), Turns(Vec(0, 1024), Slow, f))
  }

  /** A printed frame: every 80th position is a line break, all others show the nearest sample. */
  ghost predicate Shown(ss: seq<Sample>, text: string) {
    |text| == CELLS + 1 &&
    forall k :: 0 <= k <= CELLS ==>
      if k % 80 == 0 then text[k] == '\n' else k < CELLS && exists z :: Visible(ss, k, z, text[k])
  }

  /** Lines 99-100: 1761 positions are printed from a buffer of 1760; the last one is a line break. */
  method Print(ghost ss: seq<Sample>, b: array<char>, z: array<int>) returns (text: string)
    requires b.Length == CELLS && z.Length == CELLS && Painted(ss, b, z)
    ensures Shown(ss, text)
  {
    text := "";
    for k := 0 to CELLS + 1
      invariant |text| == k
      invariant forall m :: 0 <= m < k ==> text[m] == if m % 80 == 0 then '\n' else b[m]
    {
      text := text + [if k % 80 != 0 then b[k] else '\n'];
    }
    forall k | 0 <= k <= CELLS && k % 80 != 0
      ensures k < CELLS && exists z :: Visible(ss, k, z, text[k])
    {
      assert Visible(ss, k, z[k], text[k]);
    }
  }

  ghost predicate ShowsFrame(f: nat, text: string) { Shown(FrameShots(PoseAt(f)), text) }

  /** Lines 69-100: one frame. */
  method Frame(f: nat, p: Pose, b: array<char>, z: array<int>) returns (text: string)
    requires p == PoseAt(f) && b.Length == CELLS && z.Length == CELLS
    modifies b, z
    ensures ShowsFrame(f, text)
  {
    DrawFrame(p, b, z);
    text := Print(FrameShots(p), b, z);
  }

  /** Lines 101-102: the tilt advances. */
  method Advance(ghost f: nat, p: Pose) returns (q: Pose)
    requires p == PoseAt(f)
    ensures q == PoseAt(f + 1)
  {
    var a := Rotate(Tilt, p.a);
    var c := Rotate(Slow, p.b);
    q := Pose(a, c);
  }

  /** Every screen shows its own frame of the animation. */
  ghost predicate Film(screens: seq<string>)
    decreases |screens|
  {
    var n := |screens|;
    n == 0 || (Film(screens[..n - 1]) && ShowsFrame(n - 1, screens[n - 1]))
  }

  lemma {:induction false} FilmFrame(screens: seq<string>, f: nat)
    requires Film(screens) && f < |screens|
    ensures ShowsFrame(f, screens[f])
    decreases |screens|
  {
    var n := |screens|;
    if f < n - 1 {
      FilmFrame(screens[..n - 1], f);
    }
  }

  method Start() returns (p: Pose)
    ensures p == PoseAt(0)
  {
    p := Pose(Vec(0, 1024), Vec(0, 1024));
  }

  /** The endless loop of donut(), cut off after any number of frames by the key that quits it. */
  method Donut(frames: nat) returns (screens: seq<string>)
    ensures |screens| == frames && Film(screens)
  {
    var b, z := new char[CELLS], new int[CELLS];
    var p := Start();
    screens := [];
    for f := 0 to frames
      invariant p == PoseAt(f)
      invariant |screens| == f && Film(screens)
    {
      var text := Frame(f, p, b, z);
      assert (screens + [text])[..f] == screens;
      screens := screens + [text];
      p := Advance(f, p);
    }
  }
}
