/** The integer rotation of kernel/src/donut.c: macro R turns a vector by a small angle and then
    pulls its length back to 1024 with one Newton step for the inverse square root. */
module Rotation {

  const UNIT := 1024
  const UNIT_SQ := 1048576

  /** The lengths every vector keeps, squared. */
  const MIN_NORM := 1040400  // 1020 * 1020
  const MAX_NORM := 1052676  // 1026 * 1026

  datatype Vec = Vec(x: int, y: int) {
    function Norm(): int { x * x + y * y }

    predicate Sound() { MIN_NORM <= Norm() <= MAX_NORM }
  }

  /** The shift counts of donut.c. */
  datatype Shift = By7 | By8 | By10 | By11 | By15 {
    function Width(): int {
      match this
      case By7 => 128
      case By8 => 256
      case By10 => 1024
      case By11 => 2048
      case By15 => 32768
    }
  }

  /** C's arithmetic right shift: division rounded towards minus infinity. */
  function Shr(v: int, k: Shift): int {
    match k
    case By7 => v / 128
    case By8 => v / 256
    case By10 => v / 1024
    case By11 => v / 2048
    case By15 => v / 32768
  }

  /** The (mul, shift) arguments that R is used with: (5, 8), (9, 7) and (5, 7). */
  datatype Spin = Slow | Wide | Tilt {
    function Mul(): int { if this == Wide then 9 else 5 }

    function Shift(): Shift { if this == Slow then By8 else By7 }
  }

  predicate Fits32(v: int) { -0x8000_0000 <= v < 0x8000_0000 }

  function Turned(v: Vec, s: Spin): Vec {
    Vec(v.x - Shr(s.Mul() * v.y, s.Shift()), v.y + Shr(s.Mul() * v.x, s.Shift()))
  }

  function Scale(v: Vec): int { Shr(3 * UNIT_SQ - v.x * v.x - v.y * v.y, By11) }

  function Rescaled(v: Vec): Vec {
    Vec(Shr(v.x * Scale(v), By10), Shr(v.y * Scale(v), By10))
  }

  function Rotated(v: Vec, s: Spin): Vec { Rescaled(Turned(v, s)) }

  lemma ShrRemainder(v: int, k: Shift) returns (r: int)
    ensures v == k.Width() * Shr(v, k) + r
    ensures 0 <= r < k.Width()
  {
    r := v % k.Width();
  }

  lemma Monotone(x: int, b: int)
    requires 0 <= b < x
    ensures b * b < x * x
  {
    assert b * b <= b * x < x * x;
  }

  lemma SquareBound(x: int, b: int)
    requires b >= 0
    ensures x * x <= b * b ==> -b <= x <= b
  {
    if x > b {
      Monotone(x, b);
    } else if x < -b {
      Monotone(-x, b);
    }
  }

  lemma SquareOfSum(a: int, b: int)
    ensures (a + b) * (a + b) == a * a + 2 * (a * b) + b * b
  {
  }

  lemma Lagrange(a: int, b: int, c: int, d: int)
    ensures (a * c - b * d) * (a * c - b * d) + (a * d + b * c) * (a * d + b * c)
         == (a * a + b * b) * (c * c + d * d)
  {
  }

  /** |x| + |y| is at most sqrt(2) times the length. */
  lemma SumBound(x: int, y: int, n: int)
    requires n >= 0 && 2 * (x * x + y * y) <= n * n
    ensures -n <= x + y <= n
    ensures -n <= x - y <= n
  {
    var p, d := x + y, x - y;
    assert p * p == x * x + 2 * (x * y) + y * y;
    assert d * d == x * x - 2 * (x * y) + y * y;
    assert p * p >= 0 && d * d >= 0;
    SquareBound(p, n);
    SquareBound(d, n);
  }

  lemma SoundBounds(v: Vec)
    requires v.Sound()
    ensures -1026 <= v.x <= 1026 && -1026 <= v.y <= 1026
  {
    SquareBound(v.x, 1026);
    SquareBound(v.y, 1026);
  }

  lemma Product(r: int, d: int, x: int, b: int)
    requires 0 <= r <= d && -b <= x <= b
    ensures -(d * b) <= r * x <= d * b
  {
    assert r * x <= r * b <= d * b;
    assert r * x >= r * (-b) >= d * (-b);
  }

  /** Turning stretches the square of the length by 1 + (mul / 2^shift)^2, up to rounding. */
  lemma TurnedNorm(v: Vec, m: int, d: int, x: int, y: int, u: int, w: int, r1: int, r2: int)
    requires u == d * v.x - m * v.y && w == d * v.y + m * v.x
    requires d * x == u + r1 && d * y == w - r2
    ensures d * d * (x * x + y * y) ==
            (d * d + m * m) * v.Norm() + 2 * (u * r1) - 2 * (w * r2) + r1 * r1 + r2 * r2
  {
    Lagrange(d, m, v.x, v.y);
    assert u * u + w * w == (d * d + m * m) * v.Norm();
    SquareOfSum(u, r1);
    SquareOfSum(w, -r2);
    ProductOfSquares(d, x);
    ProductOfSquares(d, y);
  }

  lemma ProductOfSquares(a: int, b: int)
    ensures (a * b) * (a * b) == a * a * (b * b)
  {
  }

  /** With a = 2^20 and q the square of a length, one Newton step leaves exactly this defect. */
  lemma NewtonDefect(a: int, q: int)
    ensures 4 * a * a * a - q * (3 * a - q) * (3 * a - q) == (a - q) * (a - q) * (4 * a - q)
  {
  }

  /** What turning leaves: lengths that one Newton step can bring back. */
  predicate Restorable(q: int) { 1036000 <= q <= 1062300 }

  lemma ErrorTerm(u: int, r: int, d: int, b: int)
    requires 0 <= r < d && -b <= u <= b
    ensures -(d * b) <= u * r <= d * b && 0 <= r * r <= d * d
  {
    Product(r, d, u, b);
    Product(r, d, r, d);
  }

  lemma StretchedRestorable(m: int, d: int, n: int, q: int, e1: int, e2: int, s1: int, s2: int)
    requires (m == 5 && d == 256) || (m == 9 && d == 128) || (m == 5 && d == 128)
    requires MIN_NORM <= n <= MAX_NORM
    requires d * d * q == (d * d + m * m) * n + 2 * e1 - 2 * e2 + s1 + s2
    requires -(d * ((d + m) * 1026)) <= e1 <= d * ((d + m) * 1026)
    requires -(d * ((d + m) * 1026)) <= e2 <= d * ((d + m) * 1026)
    requires 0 <= s1 <= d * d && 0 <= s2 <= d * d
    ensures Restorable(q)
  {
    if m == 9 {
      assert 16384 * q == 16465 * n + 2 * e1 - 2 * e2 + s1 + s2;
    } else if d == 256 {
      assert 65536 * q == 65561 * n + 2 * e1 - 2 * e2 + s1 + s2;
    } else {
      assert 16384 * q == 16409 * n + 2 * e1 - 2 * e2 + s1 + s2;
    }
  }

  lemma Reach(x: int, y: int, m: int, d: int)
    requires -1026 <= x <= 1026 && -1026 <= y <= 1026 && 0 <= m && 0 <= d
    ensures -((d + m) * 1026) <= d * x - m * y <= (d + m) * 1026
    ensures -((d + m) * 1026) <= d * y + m * x <= (d + m) * 1026
  {
    Product(d, d, x, 1026);
    Product(m, m, y, 1026);
    Product(d, d, y, 1026);
    Product(m, m, x, 1026);
    assert (d + m) * 1026 == d * 1026 + m * 1026;
  }

  lemma TurnedRestorable(v: Vec, s: Spin)
    requires v.Sound()
    ensures Restorable(Turned(v, s).Norm())
  {
    var m, d := s.Mul(), s.Shift().Width();
    assert (m == 5 && d == 256) || (m == 9 && d == 128) || (m == 5 && d == 128);
    var t := Turned(v, s);
    var r1 := ShrRemainder(m * v.y, s.Shift());
    var r2 := ShrRemainder(m * v.x, s.Shift());
    SoundBounds(v);
    TurnedWithin(v, m, d, t, r1, r2);
  }

  lemma TurnedWithin(v: Vec, m: int, d: int, t: Vec, r1: int, r2: int)
    requires (m == 5 && d == 256) || (m == 9 && d == 128) || (m == 5 && d == 128)
    requires v.Sound() && -1026 <= v.x <= 1026 && -1026 <= v.y <= 1026
    requires 0 <= r1 < d && 0 <= r2 < d
    requires m * v.y == d * (v.x - t.x) + r1 && m * v.x == d * (t.y - v.y) + r2
    ensures Restorable(t.Norm())
  {
    var u, w := d * v.x - m * v.y, d * v.y + m * v.x;
    assert d * t.x == u + r1 by { assert d * (v.x - t.x) == d * v.x - d * t.x; }
    assert d * t.y == w - r2 by { assert d * (t.y - v.y) == d * t.y - d * v.y; }
    TurnedNorm(v, m, d, t.x, t.y, u, w, r1, r2);
    Reach(v.x, v.y, m, d);
    ErrorTerm(u, r1, d, (d + m) * 1026);
    ErrorTerm(w, r2, d, (d + m) * 1026);
    StretchedRestorable(m, d, v.Norm(), t.Norm(), u * r1, w * r2, r1 * r1, r2 * r2);
  }

  lemma SmallSquare(e: int, b: int)
    requires -b <= e <= b
    ensures 0 <= e * e <= b * b
  {
    Product(if e < 0 then -e else e, b, if e < 0 then -e else e, b);
  }

  lemma Expanded(q: int, w: int, t: int, r: int)
    requires 2048 * t == w - r
    ensures 4194304 * (q * (t * t)) == q * w * w - 2 * (q * w * r) + q * (r * r)
  {
    SquareOfSum(w, -r);
    ProductOfSquares(2048, t);
    assert 4194304 * (t * t) == w * w - 2 * (w * r) + r * r;
    assert q * (4194304 * (t * t)) == q * (w * w) - q * (2 * (w * r)) + q * (r * r);
    assert q * (w * w) == q * w * w;
    assert q * (2 * (w * r)) == 2 * (q * w * r);
  }

  lemma ProductPeak(q: int)
    requires Restorable(q)
    ensures 0 <= q * (3 * UNIT_SQ - q) <= 1062300 * 2083428
  {
    var e := 1062300 - q;
    Foil(1062300, 2083428, e);
    SmallSquare(e, 26300);
    assert q * (3 * UNIT_SQ - q) == (1062300 - e) * (2083428 + e);
  }

  lemma Foil(a: int, b: int, e: int)
    ensures (a - e) * (b + e) == a * b + a * e - b * e - e * e
  {
  }

  lemma DefectBound(q: int)
    requires Restorable(q)
    ensures 0 <= (UNIT_SQ - q) * (UNIT_SQ - q) * (4 * UNIT_SQ - q) <= 13724 * 13724 * 3158304
  {
    SmallSquare(UNIT_SQ - q, 13724);
    NonNegative((UNIT_SQ - q) * (UNIT_SQ - q), 13724 * 13724, 4 * UNIT_SQ - q, 3158304);
  }

  lemma NonNegative(r: int, d: int, x: int, b: int)
    requires 0 <= r <= d && 0 <= x <= b
    ensures 0 <= r * x <= d * b
  {
    assert r * x <= r * b <= d * b;
  }

  /** The scale factor t = w >> 11 leaves q t^2 at most 2196 parts of 2^20 below 2^40. */
  lemma NewtonStep(q: int, w: int, t: int, r: int)
    requires Restorable(q) && w == 3 * UNIT_SQ - q
    requires 0 <= r < 2048 && 2048 * t == w - r
    ensures 1017 <= t <= 1030
    ensures UNIT_SQ * (UNIT_SQ - 2196) <= q * (t * t) <= UNIT_SQ * UNIT_SQ
  {
    NewtonDefect(UNIT_SQ, q);
    DefectBound(q);
    ProductPeak(q);
    Expanded(q, w, t, r);
    NonNegative(r, 2047, q * w, 1062300 * 2083428);
    Lower(q, w, r);
    NewtonRounded(q * w * w, q * w * r, q * (r * r), (UNIT_SQ - q) * (UNIT_SQ - q) * (4 * UNIT_SQ - q), q * (t * t));
  }

  lemma NewtonRounded(p: int, e: int, f: int, defect: int, z: int)
    requires 4194304 * z == p - 2 * e + f && p == 4 * UNIT_SQ * UNIT_SQ * UNIT_SQ - defect
    requires 0 <= defect <= 13724 * 13724 * 3158304
    requires 0 <= f <= e <= 2047 * (1062300 * 2083428)
    ensures UNIT_SQ * (UNIT_SQ - 2196) <= z <= UNIT_SQ * UNIT_SQ
  {
  }

  lemma Lower(q: int, w: int, r: int)
    requires q >= 0 && 0 <= r <= w
    ensures 0 <= q * (r * r) <= q * w * r
  {
    assert r * r <= w * r;
    assert q * (r * r) <= q * (w * r);
    assert q * (w * r) == q * w * r;
  }

  lemma Slack(x: int, y: int, t: int, r4: int, r5: int)
    requires -1458 <= x + y <= 1458 && -1458 <= x - y <= 1458
    requires 0 <= t <= 1030 && 0 <= r4 < 1024 && 0 <= r5 < 1024
    ensures -(1023 * 1030 * 1458) <= x * t * r4 + y * t * r5 <= 1023 * 1030 * 1458
  {
    var p, n := if x < 0 then -x else x, if y < 0 then -y else y;
    Product(r4, 1023, x, p);
    Product(r5, 1023, y, n);
    Factor(x, y, t, r4, r5);
    Product(t, 1030, r4 * x + r5 * y, 1023 * 1458);
  }

  lemma Factor(x: int, y: int, t: int, r: int, s: int)
    ensures x * t * r + y * t * s == t * (r * x + s * y)
  {
    assert x * t * r == t * (r * x);
    assert y * t * s == t * (s * y);
  }

  lemma Cleared(x: int, t: int, r: int, x2: int)
    requires 1024 * x2 == x * t - r
    ensures 1048576 * (x2 * x2) == x * x * (t * t) - 2 * (x * t * r) + r * r
  {
    SquareOfSum(x * t, -r);
    ProductOfSquares(x, t);
    ProductOfSquares(1024, x2);
  }

  lemma RescaledNorm(x: int, y: int, t: int, x2: int, y2: int, r4: int, r5: int)
    requires Restorable(x * x + y * y)
    requires 1017 <= t <= 1030
    requires UNIT_SQ * (UNIT_SQ - 2196) <= (x * x + y * y) * (t * t) <= UNIT_SQ * UNIT_SQ
    requires 0 <= r4 < 1024 && 0 <= r5 < 1024 && 1024 * x2 == x * t - r4 && 1024 * y2 == y * t - r5
    ensures MIN_NORM <= x2 * x2 + y2 * y2 <= MAX_NORM
  {
    SumBound(x, y, 1458);
    Cleared(x, t, r4, x2);
    Cleared(y, t, r5, y2);
    Distribute(x * x, y * y, t * t);
    Slack(x, y, t, r4, r5);
    SmallSquare(r4, 1023);
    SmallSquare(r5, 1023);
  }

  lemma Distribute(a: int, b: int, c: int)
    ensures (a + b) * c == a * c + b * c
  {
  }

  lemma {:induction false} RotatedSound(v: Vec, s: Spin)
    requires v.Sound()
    ensures Rotated(v, s).Sound()
  {
    TurnedRestorable(v, s);
    var u := Turned(v, s);
    var t := Scale(u);
    var r := ShrRemainder(3 * UNIT_SQ - u.x * u.x - u.y * u.y, By11);
    NewtonStep(u.Norm(), 3 * UNIT_SQ - u.Norm(), t, r);
    var r4 := ShrRemainder(u.x * t, By10);
    var r5 := ShrRemainder(u.y * t, By10);
    RescaledNorm(u.x, u.y, t, Rotated(v, s).x, Rotated(v, s).y, r4, r5);
  }

  /** The vector after any list of spins. */
  function Run(v: Vec, spins: seq<Spin>): Vec
    decreases |spins|
  {
    if spins == [] then v else Run(Rotated(v, spins[0]), spins[1..])
  }

  /** However long the run and however the three spins are mixed, the length never leaves 1020..1026. */
  lemma {:induction false} EndlessRun(v: Vec, spins: seq<Spin>)
    requires v.Sound()
    ensures Run(v, spins).Sound()
    decreases |spins|
  {
    if spins != [] {
      RotatedSound(v, spins[0]);
      EndlessRun(Rotated(v, spins[0]), spins[1..]);
    }
  }

  lemma {:induction false} FromTheAxes(spins: seq<Spin>)
    ensures Run(Vec(0, UNIT), spins).Sound() && Run(Vec(UNIT, 0), spins).Sound()
  {
    EndlessRun(Vec(0, UNIT), spins);
    EndlessRun(Vec(UNIT, 0), spins);
  }

  function Dot(v: Vec, w: Vec): int { v.x * w.x + v.y * w.y }

  function Cross(v: Vec, w: Vec): int { v.x * w.y - v.y * w.x }

  /** The scale factor of a turned vector is within 7 of 1024. */
  lemma ScaleNearUnit(u: Vec)
    requires Restorable(u.Norm())
    ensures 1017 <= Scale(u) <= 1030
  {
    var r := ShrRemainder(3 * UNIT_SQ - u.x * u.x - u.y * u.y, By11);
  }

  lemma Skew(x: int, y: int, r: int, s: int, d: int)
    requires MIN_NORM <= x * x + y * y <= MAX_NORM && 0 <= r <= d && 0 <= s <= d
    ensures -(d * 1452) <= r * x + s * y <= d * 1452
    ensures -(d * 1452) <= r * x - s * y <= d * 1452
  {
    SumBound(x, y, 1452);
    WeightedSum(x, y, r, s, d, 1452);
  }

  lemma AbsoluteSum(x: int, y: int, b: int) returns (p: int, n: int)
    requires -b <= x + y <= b && -b <= x - y <= b
    ensures 0 <= p && 0 <= n && p + n <= b && -p <= x <= p && -n <= y <= n
  {
    p, n := if x < 0 then -x else x, if y < 0 then -y else y;
  }

  lemma ProductSum(p: int, n: int, d: int, b: int)
    requires 0 <= p && 0 <= n && p + n <= b && 0 <= d
    ensures d * p + d * n <= d * b
  {
    Distribute(p, n, d);
    Product(d, d, p + n, b);
  }

  lemma WeightedSum(x: int, y: int, r: int, s: int, d: int, b: int)
    requires -b <= x + y <= b && -b <= x - y <= b && 0 <= r <= d && 0 <= s <= d
    ensures -(d * b) <= r * x + s * y <= d * b
    ensures -(d * b) <= r * x - s * y <= d * b
  {
    var p, n := AbsoluteSum(x, y, b);
    Product(r, d, x, p);
    Product(s, d, y, n);
    ProductSum(p, n, d, b);
  }

  lemma Combine(a: int, b: int, t: int, p: int, q: int, r: int, s: int)
    ensures a * (t * p - r) + b * (t * q - s) == t * (a * p + b * q) - (r * a + s * b)
  {
    assert a * (t * p - r) == t * (a * p) - r * a;
    assert b * (t * q - s) == t * (b * q) - s * b;
  }

  lemma Spread(c: int, d: int, x1: int, x: int, m: int, y: int, r: int)
    requires d * x1 == d * x - m * y + r
    ensures d * (c * x1) == d * (c * x) - m * (c * y) + r * c
  {
    assert c * (d * x1) == c * (d * x) - c * (m * y) + c * r;
  }

  lemma TurnedDot(x: int, y: int, m: int, d: int, x1: int, y1: int, r1: int, r2: int)
    requires d * x1 == d * x - m * y + r1 && d * y1 == d * y + m * x - r2
    ensures d * (x * x1 + y * y1) == d * (x * x + y * y) + (r1 * x - r2 * y)
    ensures d * (x * y1 - y * x1) == m * (x * x + y * y) - (r2 * x + r1 * y)
  {
    Spread(x, d, x1, x, m, y, r1);
    Spread(y, d, x1, x, m, y, r1);
    Spread(x, d, y1, y, -m, x, -r2);
    Spread(y, d, y1, y, -m, x, -r2);
    Distribute(x * x1, y * y1, d);
    Distribute(x * y1, -y * x1, d);
    Distribute(x * x, y * y, d);
    Distribute(x * x, y * y, m);
  }

  /** R turns by the angle whose tangent is mul / 2^shift, counter-clockwise, up to rounding:
      neither a lost turn nor a turn the other way round satisfies this. */
  lemma {:induction false} TurnsByItsAngle(v: Vec, s: Spin)
    requires v.Sound()
    ensures -10100 <= Dot(v, Rotated(v, s)) - v.Norm() <= 10100
    ensures -3500 * s.Shift().Width() <= s.Shift().Width() * Cross(v, Rotated(v, s)) - s.Mul() * v.Norm()
         <= 3500 * s.Shift().Width()
  {
    TurnedRestorable(v, s);
    var u, w := Turned(v, s), Rotated(v, s);
    ScaleNearUnit(u);
    var r4 := ShrRemainder(u.x * Scale(u), By10);
    var r5 := ShrRemainder(u.y * Scale(u), By10);
    var r1 := ShrRemainder(s.Mul() * v.y, s.Shift());
    var r2 := ShrRemainder(s.Mul() * v.x, s.Shift());
    Angle(v, s.Mul(), s.Shift().Width(), u, Scale(u), w, r1, r2, r4, r5);
  }

  lemma Angle(v: Vec, m: int, d: int, u: Vec, t: int, w: Vec, r1: int, r2: int, r4: int, r5: int)
    requires (m == 5 && d == 256) || (m == 9 && d == 128) || (m == 5 && d == 128)
    requires v.Sound() && 1017 <= t <= 1030
    requires 0 <= r1 < d && 0 <= r2 < d && 0 <= r4 < 1024 && 0 <= r5 < 1024
    requires m * v.y == d * (v.x - u.x) + r1 && m * v.x == d * (u.y - v.y) + r2
    requires u.x * t == 1024 * w.x + r4 && u.y * t == 1024 * w.y + r5
    ensures -10100 <= Dot(v, w) - v.Norm() <= 10100
    ensures -3500 * d <= d * Cross(v, w) - m * v.Norm() <= 3500 * d
  {
    Distribute(v.x, -u.x, d);
    Distribute(u.y, -v.y, d);
    TurnedDot(v.x, v.y, m, d, u.x, u.y, r1, r2);
    Skew(v.x, v.y, r1, r2, d - 1);
    Skew(v.x, v.y, r2, r1, d - 1);
    Contracted(v, u, t, w, r4, r5);
    Skew(v.x, v.y, r4, r5, 1023);
    Skew(v.x, v.y, r5, r4, 1023);
    DotNear(d, v.Norm(), t, Dot(v, u), r1 * v.x - r2 * v.y, r4 * v.x + r5 * v.y, Dot(v, w));
    CrossNear(m, d, v.Norm(), t, Cross(v, u), r2 * v.x + r1 * v.y, r5 * v.x - r4 * v.y, Cross(v, w));
  }

  lemma Contracted(v: Vec, u: Vec, t: int, w: Vec, r4: int, r5: int)
    requires u.x * t == 1024 * w.x + r4 && u.y * t == 1024 * w.y + r5
    ensures 1024 * Dot(v, w) == t * Dot(v, u) - (r4 * v.x + r5 * v.y)
    ensures 1024 * Cross(v, w) == t * Cross(v, u) - (r5 * v.x - r4 * v.y)
  {
    Times1024(v, w);
    Combine(v.x, v.y, t, u.x, u.y, r4, r5);
    Combine(v.x, -v.y, t, u.y, u.x, r5, r4);
  }

  lemma Times1024(v: Vec, w: Vec)
    ensures 1024 * Dot(v, w) == v.x * (1024 * w.x) + v.y * (1024 * w.y)
    ensures 1024 * Cross(v, w) == v.x * (1024 * w.y) - v.y * (1024 * w.x)
  {
  }

  lemma NearUnit(t: int, p: int)
    requires 1017 <= t <= 1030 && p >= 0
    ensures 1017 * p <= t * p <= 1030 * p
  {
  }

  lemma DotNear(d: int, n: int, t: int, p: int, e: int, f: int, z: int)
    requires d == 128 || d == 256
    requires MIN_NORM <= n <= MAX_NORM && 1017 <= t <= 1030
    requires d * p == d * n + e && -(d * 1452) <= e <= d * 1452
    requires 1024 * z == t * p - f && -(1023 * 1452) <= f <= 1023 * 1452
    ensures -10100 <= z - n <= 10100
  {
    assert -1452 <= p - n <= 1452;
    NearUnit(t, p);
  }

  lemma CrossNear(m: int, d: int, n: int, t: int, p: int, e: int, f: int, z: int)
    requires (m == 5 && d == 256) || (m == 9 && d == 128) || (m == 5 && d == 128)
    requires MIN_NORM <= n <= MAX_NORM && 1017 <= t <= 1030
    requires d * p == m * n - e && -(d * 1452) <= e <= d * 1452
    requires 1024 * z == t * p - f && -(1023 * 1452) <= f <= 1023 * 1452
    ensures -3500 * d <= d * z - m * n <= 3500 * d
  {
    assert 0 <= p <= 76000;
    NearUnit(t, p);
  }

  predicate RescaleFits(u: Vec) {
    && Fits32(u.x) && Fits32(u.y) && Fits32(u.x * u.x) && Fits32(u.y * u.y)
    && Fits32(3 * UNIT_SQ - u.x * u.x) && Fits32(3 * UNIT_SQ - u.x * u.x - u.y * u.y)
    && Fits32(u.x * Scale(u)) && Fits32(u.y * Scale(u))
  }

  /** Every product and sum that R forms stays inside a C int. */
  lemma {:induction false} RotationFits(v: Vec, s: Spin)
    requires v.Sound()
    ensures Fits32(s.Mul() * v.x) && Fits32(s.Mul() * v.y)
    ensures RescaleFits(Turned(v, s))
  {
    TurnedRestorable(v, s);
    SoundBounds(v);
    var u := Turned(v, s);
    ScaleNearUnit(u);
    assert u.x * u.x >= 0 && u.y * u.y >= 0;
    SquareBound(u.x, 1031);
    SquareBound(u.y, 1031);
    Product(Scale(u), 1030, u.x, 1031);
    Product(Scale(u), 1030, u.y, 1031);
  }

  /** Macro R, assignment by assignment. */
  method Rotate(s: Spin, v: Vec) returns (w: Vec)
    requires v.Sound()
    ensures w == Rotated(v, s)
    ensures w.Sound()
  {
    RotationFits(v, s);
    RotatedSound(v, s);
    var x, y := v.x, v.y;
    var t := x;
    x := x - Shr(s.Mul() * y, s.Shift());
    y := y + Shr(s.Mul() * t, s.Shift());
    t := Shr(3145728 - x * x - y * y, By11);
    x := Shr(x * t, By10);
    y := Shr(y * t, By10);
    w := Vec(x, y);
  }
}
