/** kernel/src/donut.c: the torus that the samples lie on, in space, and where and how bright it must appear. Lengths
    are in units of 2^-20, and after a turn in units of 2^-30 of the code's 1024. */
module Geometry {
  import opened DepthBuffer
  import opened Renderer
  import opened Rotation

  datatype Point = Point(x: int, y: int, z: int)

  /** The point at angle i of the tube and angle j of the ring: the tube has radius 1 and its centre is 2 from the
      axis, which is the third one. */
  function OnTorus(i: Vec, j: Vec): Point {
    Point((2048 + j.x) * i.x, (2048 + j.x) * i.y, 1024 * j.y)
  }

  /** The surface normal there. */
  function Normal(i: Vec, j: Vec): Point {
    Point(j.x * i.x, j.x * i.y, 1024 * j.y)
  }

  /** The second and third axis are tilted by the angle of a: the second one goes away from the viewer and the third one
      down when that is 0. Then the screen is turned by the angle of b. */
  function Tilted(p: Pose, q: Point): Point {
    var d := p.a.x * q.z - p.a.y * q.y;
    Point(1024 * (p.b.x * q.x) - p.b.y * d, p.b.x * d + 1024 * (p.b.y * q.x), 1024 * (p.a.y * q.z + p.a.x * q.y))
  }

  /** How far away from the viewer it is. */
  function Distance(p: Pose, i: Vec, j: Vec): int {
    UNIT_SQ * K2 + Tilted(p, OnTorus(i, j)).z
  }

  /** The light comes from above and from the viewer. Up is minus the second coordinate of the screen. */
  function Light(p: Pose, i: Vec, j: Vec): int {
    var n := Tilted(p, Normal(i, j));
    -n.y - n.z
  }

  function Dot3(u: Point, v: Point): int { u.x * v.x + u.y * v.y + u.z * v.z }

  predicate Near(a: int, b: int, r: int) { -r <= a - b <= r }

  // ------------------------------------------------------------------ the reference is geometry

  lemma Dilate(k: int, a: int, b: int)
    ensures (k * a) * (k * b) == k * k * (a * b)
  {
  }

  lemma PlaneTurn(c: int, s: int, x: int, y: int, u: int, v: int)
    ensures (c * x - s * y) * (c * u - s * v) + (s * x + c * y) * (s * u + c * v) == (c * c + s * s) * (x * u + y * v)
  {
    Foil2(c * x, s * y, c * u, s * v, -1);
    Foil2(s * x, c * y, s * u, c * v, 1);
    Cross4(c, x, c, u);
    Cross4(s, y, s, v);
    Cross4(s, x, s, u);
    Cross4(c, y, c, v);
    Cross4(c, x, s, v);
    Cross4(s, y, c, u);
    Cross4(s, x, c, v);
    Cross4(c, y, s, u);
    Gather(c * c, s * s, x * u, y * v);
  }

  lemma Foil2(a: int, b: int, c: int, d: int, e: int)
    requires e == 1 || e == -1
    ensures (a + e * b) * (c + e * d) == a * c + e * (a * d) + e * (b * c) + b * d
  {
  }

  lemma Cross4(a: int, b: int, c: int, d: int)
    ensures (a * b) * (c * d) == (a * c) * (b * d)
  {
  }

  lemma Gather(a: int, b: int, p: int, q: int)
    ensures (a + b) * (p + q) == a * p + a * q + b * p + b * q
  {
  }

  lemma Scaled(c: int, x: int)
    ensures 1024 * (c * x) == c * (1024 * x)
  {
  }

  /** With vectors of exact length, tilting keeps all lengths and angles. */
  lemma TiltedKeepsAngles(p: Pose, u: Point, v: Point)
    requires p.a.Norm() == UNIT_SQ && p.b.Norm() == UNIT_SQ
    ensures Dot3(Tilted(p, u), Tilted(p, v)) == UNIT_SQ * UNIT_SQ * Dot3(u, v)
  {
    var d, e := p.a.x * u.z - p.a.y * u.y, p.a.x * v.z - p.a.y * v.y;
    Scaled(p.b.x, u.x);
    Scaled(p.b.y, u.x);
    Scaled(p.b.x, v.x);
    Scaled(p.b.y, v.x);
    PlaneTurn(p.b.x, p.b.y, 1024 * u.x, d, 1024 * v.x, e);
    PlaneTurn(p.a.x, p.a.y, u.z, u.y, v.z, v.y);
    Dilate(1024, u.x, v.x);
    Dilate(1024, p.a.y * u.z + p.a.x * u.y, p.a.y * v.z + p.a.x * v.y);
  }

  /** Which way it tilts: all other tilts are sums of these. */
  lemma TiltedAxes(q: Point)
    ensures Tilted(Pose(Vec(1024, 0), Vec(1024, 0)), q) == Point(UNIT_SQ * q.x, UNIT_SQ * q.z, UNIT_SQ * q.y)
    ensures Tilted(Pose(Vec(0, 1024), Vec(1024, 0)), q) == Point(UNIT_SQ * q.x, -(UNIT_SQ * q.y), UNIT_SQ * q.z)
    ensures Tilted(Pose(Vec(1024, 0), Vec(0, 1024)), q) == Point(-(UNIT_SQ * q.z), UNIT_SQ * q.x, UNIT_SQ * q.y)
  {
  }

  /** Every sample is on the torus: r from the axis, and 1 from the circle with radius 2. */
  lemma IsOnTorus(i: Vec, j: Vec)
    requires i.Norm() == UNIT_SQ && j.Norm() == UNIT_SQ
    ensures var q, r := OnTorus(i, j), 1024 * (2048 + j.x);
      q.x * q.x + q.y * q.y == r * r && (r - 1024 * 2048) * (r - 1024 * 2048) + q.z * q.z == UNIT_SQ * UNIT_SQ
  {
    ProductOfSquares(2048 + j.x, i.x);
    ProductOfSquares(2048 + j.x, i.y);
    ProductOfSquares(1024, 2048 + j.x);
    ProductOfSquares(1024, j.x);
    ProductOfSquares(1024, j.y);
    Distribute(i.x * i.x, i.y * i.y, (2048 + j.x) * (2048 + j.x));
    assert 1024 * (2048 + j.x) - 1024 * 2048 == 1024 * j.x;
  }

  // ------------------------------------------------------------------ rounding

  const EDGE := 2_097_150

  /** What is left of the third axis after the tilt, with the roundings of x2, x3 and the product of sA and x3. */
  lemma DownRounded(ca: int, sa: int, sj: int, py: int, x2: int, x3: int, y: int, e2: int, e3: int, ey: int) returns (h: int)
    requires -1026 <= sa <= 1026 && 0 <= e2 < 1024 && 0 <= e3 < 1024 && 0 <= ey < 1024
    requires ca * sj == 1024 * x2 + e2 && py == 1024 * x3 + e3 && sa * x3 == 1024 * y + ey
    ensures UNIT_SQ * (x2 - y) == ca * (1024 * sj) - sa * py + h && -EDGE <= h <= EDGE
  {
    h := -1024 * e2 + 1024 * ey + sa * e3;
    Product(e3, 1023, sa, 1026);
    Scaled(ca, sj);
    Scaled(sa, x3);
    assert sa * py == sa * (1024 * x3) + sa * e3;
  }

  const SHARE := 3_226_466_000

  /** Across and Down: u and v are the two coordinates in the plane that is turned by b. */
  lemma PlaneRounded(cb: int, sb: int, px: int, d: int, x1: int, x4: int, e1: int, h: int)
    requires -1026 <= cb <= 1026 && -1026 <= sb <= 1026 && 0 <= e1 < 1024 && -EDGE <= h <= EDGE
    requires px == 1024 * x1 + e1 && UNIT_SQ * x4 == d + h
    ensures Near(UNIT_SQ * (cb * x1 - sb * x4), 1024 * (cb * px) - sb * d, SHARE)
    ensures Near(UNIT_SQ * (cb * x4 + sb * x1), cb * d + 1024 * (sb * px), SHARE)
  {
    TimesRounded(cb, px, x1, e1);
    TimesRounded(sb, px, x1, e1);
    TimesMillion(cb, x4, d, h);
    TimesMillion(sb, x4, d, h);
    Product(e1, 1023, cb, 1026);
    Product(e1, 1023, sb, 1026);
    BoundedProduct(cb, h, 1026, EDGE);
    BoundedProduct(sb, h, 1026, EDGE);
  }

  lemma TimesRounded(c: int, px: int, x1: int, e1: int)
    requires px == 1024 * x1 + e1
    ensures UNIT_SQ * (c * x1) == 1024 * (c * px) - 1024 * (e1 * c)
  {
    assert c * px == c * (1024 * x1) + e1 * c;
    Scaled(c, x1);
  }

  lemma TimesMillion(c: int, x: int, d: int, h: int)
    requires UNIT_SQ * x == d + h
    ensures UNIT_SQ * (c * x) == c * d + c * h
  {
    assert UNIT_SQ * (c * x) == c * (UNIT_SQ * x);
    assert c * (d + h) == c * d + c * h;
  }

  const FAR_SHARE := 2_147_500_000

  lemma DistanceRounded(ca: int, sa: int, sj: int, py: int, x5: int, x3: int, e5: int, e3: int)
    requires -1026 <= ca <= 1026 && 0 <= e5 < 1024 && 0 <= e3 < 1024
    requires sa * sj == 1024 * x5 + e5 && py == 1024 * x3 + e3
    ensures Near(UNIT_SQ * (K2 + 1024 * x5 + ca * x3), UNIT_SQ * K2 + 1024 * (sa * (1024 * sj) + ca * py), FAR_SHARE)
  {
    TimesRounded(ca, py, x3, e3);
    Scaled(sa, sj);
    Product(e3, 1023, ca, 1026);
  }

  /** C division: the quotient is rounded towards zero, so the remainder is shorter than the divisor and leans the
      same way as the dividend. */
  lemma QuotientTruncates(n: int, d: int) returns (r: int)
    requires d > 0
    ensures n == Quotient(n, d) * d + r && -d < r < d && (n >= 0 ==> r >= 0) && (n <= 0 ==> r <= 0)
  {
    r := n - Quotient(n, d) * d;
    if n >= 0 {
      assert n == d * (n / d) + n % d;
    } else {
      assert -n == d * (-n / d) + -n % d;
      assert (-(-n / d)) * d == -(d * (-n / d));
    }
  }

  const PIXELS := 340_000_000_000

  /** Where n / d ends up, if n and d are rounded too. */
  lemma QuotientRounded(k: nat, n: int, d: int, q: int, r: int, t: int, f: int)
    requires k <= 30 && d > 0 && -d < r < d && k * n == q * d + r && -111 <= q <= 111
    requires Near(UNIT_SQ * n, t, SHARE) && Near(UNIT_SQ * d, f, FAR_SHARE)
    ensures Near(q * f, k * t, f + PIXELS)
  {
    var a, g := UNIT_SQ * n - t, f - UNIT_SQ * d;
    BoundedProduct(q, g, 111, FAR_SHARE);
    assert q * f == UNIT_SQ * (q * d) + q * g by {
      assert q * (UNIT_SQ * d) == UNIT_SQ * (q * d);
      assert q * f == q * (UNIT_SQ * d) + q * g;
    }
    Product(k, 30, a, SHARE);
    assert k * (UNIT_SQ * n) == UNIT_SQ * (k * n);
    assert k * t == k * (UNIT_SQ * n) - k * a;
  }

  lemma CoordinatesRounded(p: Pose, i: Vec, j: Vec)
    requires p.Sound() && i.Sound() && j.Sound()
    ensures var t := Tilted(p, OnTorus(i, j));
      Near(UNIT_SQ * Across(p, i, j), t.x, SHARE) && Near(UNIT_SQ * Down(p, i, j), t.y, SHARE)
    ensures Near(UNIT_SQ * X6(p, i, j), Distance(p, i, j), FAR_SHARE)
  {
    SoundBounds(p.a);
    SoundBounds(p.b);
    var q := OnTorus(i, j);
    Commute2(i.x, X0(j));
    Commute2(i.y, X0(j));
    var e1 := ShrRemainder(i.x * X0(j), By10);
    var e2 := ShrRemainder(p.a.x * j.y, By10);
    var e3 := ShrRemainder(i.y * X0(j), By10);
    var e5 := ShrRemainder(p.a.y * j.y, By10);
    var ey := ShrRemainder(p.a.y * X3(i, j), By10);
    var h := DownRounded(p.a.x, p.a.y, j.y, q.y, X2(p, j), X3(i, j), Shr(p.a.y * X3(i, j), By10), e2, e3, ey);
    PlaneRounded(p.b.x, p.b.y, q.x, p.a.x * q.z - p.a.y * q.y, X1(i, j), X4(p, i, j), e1, h);
    DistanceRounded(p.a.x, p.a.y, j.y, q.y, X5(p, j), X3(i, j), e5, e3);
  }

  /** The sample stands where central projection puts the tilted point: 30 columns and 15 rows, for each unit of
      distance, from the middle of the screen. The result is off by at most one cell, and a sixth of one for the
      roundings before the division. */
  predicate Projected(s: Sample, p: Pose, i: Vec, j: Vec) {
    var t, f := Tilted(p, OnTorus(i, j)), Distance(p, i, j);
    f > 0 && Near((s.x - 40) * f, 30 * t.x, f + PIXELS) && Near((s.y - 12) * f, 15 * t.y, f + PIXELS)
  }

  lemma LandsWhereProjected(p: Pose, i: Vec, j: Vec)
    requires p.Sound() && i.Sound() && j.Sound()
    ensures Projected(Shot(p, i, j), p, i, j)
    ensures Distance(p, i, j) > 6 * PIXELS
  {
    CoordinatesRounded(p, i, j);
    DepthRange(p, i, j);
    SampleSafe(p, i, j);
    ScreenReach(p, i, j);
    var t, f, d := Tilted(p, OnTorus(i, j)), Distance(p, i, j), X6(p, i, j);
    QuotientWithin(30 * Across(p, i, j), d, 111);
    QuotientWithin(15 * Down(p, i, j), d, 111);
    var r := QuotientTruncates(30 * Across(p, i, j), d);
    QuotientRounded(30, Across(p, i, j), d, Quotient(30 * Across(p, i, j), d), r, t.x, f);
    var u := QuotientTruncates(15 * Down(p, i, j), d);
    QuotientRounded(15, Down(p, i, j), d, Quotient(15 * Down(p, i, j), d), u, t.y, f);
  }

  const DEPTH_STEP := 34_359_738_368  // 2^35

  /** The depth is the distance from the axis in steps, rounded down. */
  predicate Deep(s: Sample, p: Pose, i: Vec, j: Vec) {
    -FAR_SHARE <= Tilted(p, OnTorus(i, j)).z - DEPTH_STEP * s.depth <= DEPTH_STEP + FAR_SHARE
  }

  const LIGHT_STEP := 137_438_953_472  // 2^37

  /** The glyph is the light on the surface in steps, rounded down, or the darkest one if that is nothing. */
  ghost predicate Lit(s: Sample, p: Pose, i: Vec, j: Vec) {
    exists k :: 0 <= k < |GLYPHS| && s.glyph == GLYPHS[k]
      && Light(p, i, j) <= LIGHT_STEP * (k + 1) + LIGHT_SHARE
      && (k > 0 ==> LIGHT_STEP * k - LIGHT_SHARE <= Light(p, i, j))
  }

  lemma LightIs(p: Pose, i: Vec, j: Vec)
    ensures Light(p, i, j) == LightProduct(p.a.x, p.a.y, p.b.x, p.b.y, i.x, i.y, j.x, j.y)
  {
    LightSum(p.a.x, p.a.y, p.b.x, p.b.y, j.x * i.x, j.x * i.y, 1024 * j.y);
  }

  lemma LightSum(ca: int, sa: int, cb: int, sb: int, nx: int, ny: int, nz: int)
    ensures -(cb * (ca * nz - sa * ny) + 1024 * (sb * nx)) - 1024 * (sa * nz + ca * ny)
         == ny * (cb * sa - 1024 * ca) + nz * -(cb * ca + 1024 * sa) + nx * -(1024 * sb)
  {
    assert cb * (ca * nz - sa * ny) == cb * ca * nz - cb * sa * ny;
    assert ny * (cb * sa - 1024 * ca) == cb * sa * ny - 1024 * (ca * ny);
    assert nz * -(cb * ca + 1024 * sa) == -(cb * ca * nz) - 1024 * (sa * nz);
    assert nx * -(1024 * sb) == -(1024 * (sb * nx));
  }

  lemma LightRange(m: int, n: int, k: nat)
    requires k == if n > 0 then n else 0
    requires -LIGHT_SHARE <= m - 1024 * UNIT_SQ * (128 * n) <= 1024 * UNIT_SQ * 127 + LIGHT_SHARE
    ensures m <= LIGHT_STEP * (k + 1) + LIGHT_SHARE && (k > 0 ==> LIGHT_STEP * k - LIGHT_SHARE <= m)
  {
  }

  lemma IsLit(p: Pose, i: Vec, j: Vec)
    requires p.Sound() && i.Sound() && j.Sound()
    ensures Lit(Shot(p, i, j), p, i, j)
  {
    LuminanceRange(p, i, j);
    LightIs(p, i, j);
    var n := Luminance(p, i, j);
    var k := if n > 0 then n else 0;
    LightRange(Light(p, i, j), n, k);
    assert Shot(p, i, j).glyph == GLYPHS[k];
  }

  lemma LooksAsItShould(p: Pose, i: Vec, j: Vec)
    requires p.Sound() && i.Sound() && j.Sound()
    ensures Deep(Shot(p, i, j), p, i, j) && Lit(Shot(p, i, j), p, i, j)
  {
    CoordinatesRounded(p, i, j);
    IsLit(p, i, j);
  }

  /** The first sample of the animation: the outer rim, in the middle column, lit from behind. */
  lemma FirstSample()
    ensures Shot(PoseAt(0), Vec(1024, 0), Vec(1024, 0)) == Sample(40, 21, 0, '.')
  {
  }

  // ------------------------------------------------------------------ all samples of a frame

  function Tube(n: nat): (v: Vec)
    ensures v.Sound()
  {
    Turns(Vec(1024, 0), Slow, n)
  }

  function Ring(n: nat): (v: Vec)
    ensures v.Sound()
  {
    Turns(Vec(1024, 0), Wide, n)
  }

  lemma {:induction false} TurnsFirst(v: Vec, s: Spin, n: nat)
    requires v.Sound() && Rotated(v, s).Sound()
    ensures Turns(v, s, n + 1) == Turns(Rotated(v, s), s, n)
    decreases n
  {
    if n > 0 {
      TurnsFirst(v, s, n - 1);
    }
  }

  lemma {:induction false} RingSample(p: Pose, vi: Vec, vj: Vec, n: nat, k: nat)
    requires p.Sound() && vi.Sound() && vj.Sound() && k < n
    ensures |RingShots(p, vi, vj, n)| == n && RingShots(p, vi, vj, n)[k] == Shot(p, Turns(vi, Slow, k), vj)
    decreases n, p
  {
    RotatedSound(vi, Slow);
    if k > 0 {
      RingSample(p, Rotated(vi, Slow), vj, n - 1, k - 1);
      TurnsFirst(vi, Slow, k - 1);
    } else if n > 1 {
      RingSample(p, Rotated(vi, Slow), vj, n - 1, 0);
    }
  }

  lemma Joined<T>(a: seq<T>, b: seq<T>, k: nat)
    ensures k < |a| ==> (a + b)[k] == a[k]
    ensures k < |b| ==> (a + b)[|a| + k] == b[k]
  {
  }

  lemma {:induction false} ShotsCount(p: Pose, vj: Vec, n: nat)
    requires p.Sound() && vj.Sound()
    ensures |Shots(p, vj, n)| == STEPS_I * n
    decreases n, p
  {
    if n > 0 {
      RotatedSound(vj, Wide);
      RingSample(p, Vec(1024, 0), vj, STEPS_I, 0);
      ShotsCount(p, Rotated(vj, Wide), n - 1);
    }
  }

  lemma {:induction false} ShotsSample(p: Pose, vj: Vec, n: nat, l: nat, k: nat)
    requires p.Sound() && vj.Sound() && l < n && k < STEPS_I
    ensures |Shots(p, vj, n)| == STEPS_I * n
    ensures Shots(p, vj, n)[STEPS_I * l + k] == Shot(p, Tube(k), Turns(vj, Wide, l))
    decreases n, p
  {
    RotatedSound(vj, Wide);
    ShotsCount(p, vj, n);
    var a, b := RingShots(p, Vec(1024, 0), vj, STEPS_I), Shots(p, Rotated(vj, Wide), n - 1);
    RingSample(p, Vec(1024, 0), vj, STEPS_I, k);
    if l > 0 {
      ShotsSample(p, Rotated(vj, Wide), n - 1, l - 1, k);
      TurnsFirst(vj, Wide, l - 1);
      Joined(a, b, STEPS_I * (l - 1) + k);
    } else {
      Joined(a, b, k);
    }
  }

  /** Sample number 324 l + k of a frame is the one l steps around the ring and k steps around the tube. */
  lemma FrameSample(p: Pose, l: nat, k: nat)
    requires p.Sound() && l < 90 && k < 324
    ensures |FrameShots(p)| == 29160 && FrameShots(p)[324 * l + k] == Shot(p, Tube(k), Ring(l))
  {
    ShotsSample(p, Vec(1024, 0), ROWS_J, l, k);
  }

  /** w is v turned counter-clockwise by the angle with tangent m / d, up to rounding. */
  predicate TurnedBy(v: Vec, w: Vec, m: int, d: int) {
    Near(Dot(v, w), v.Norm(), 10100) && Near(d * Cross(v, w), m * v.Norm(), 3500 * d)
  }

  /** The steps around the tube and the ring, and the speeds of the two tilts. */
  lemma Speeds(n: nat)
    ensures TurnedBy(Tube(n), Tube(n + 1), 5, 256) && TurnedBy(Ring(n), Ring(n + 1), 9, 128)
    ensures TurnedBy(PoseAt(n).a, PoseAt(n + 1).a, 5, 128) && TurnedBy(PoseAt(n).b, PoseAt(n + 1).b, 5, 256)
  {
    TurnsByItsAngle(Tube(n), Slow);
    TurnsByItsAngle(Ring(n), Wide);
    TurnsByItsAngle(PoseAt(n).a, Tilt);
    TurnsByItsAngle(PoseAt(n).b, Slow);
  }

  /** The sample at these steps is what the cell shows. */
  ghost predicate Shows(f: nat, o: nat, glyph: char, l: nat, k: nat) {
    var p := PoseAt(f);
    var s := Shot(p, Tube(k), Ring(l));
    && l < 90 && k < 324 && Covers(s, o) && s.glyph == glyph
    && Projected(s, p, Tube(k), Ring(l)) && Deep(s, p, Tube(k), Ring(l)) && Lit(s, p, Tube(k), Ring(l))
  }

  lemma SeenBy(ss: seq<Sample>, o: nat, z: int, glyph: char) returns (m: nat)
    requires Visible(ss, o, z, glyph) && glyph != ' '
    ensures m < |ss| && Covers(ss[m], o) && ss[m].glyph == glyph
  {
    m :| m < |ss| && First(ss, o, m) && z == ss[m].depth && glyph == ss[m].glyph;
  }

  lemma StepsOf(m: nat) returns (l: nat, k: nat)
    requires m < 29160
    ensures l < 90 && k < 324 && m == 324 * l + k
  {
    l, k := m / 324, m % 324;
  }

  lemma SampleNumber(p: Pose, m: nat) returns (l: nat, k: nat)
    requires p.Sound() && m < |FrameShots(p)|
    ensures l < 90 && k < 324 && FrameShots(p)[m] == Shot(p, Tube(k), Ring(l))
  {
    ShotsCount(p, Vec(1024, 0), ROWS_J);
    l, k := StepsOf(m);
    FrameSample(p, l, k);
  }

  lemma ShowsSample(f: nat, o: nat, l: nat, k: nat)
    requires l < 90 && k < 324 && Covers(Shot(PoseAt(f), Tube(k), Ring(l)), o)
    ensures Shows(f, o, Shot(PoseAt(f), Tube(k), Ring(l)).glyph, l, k)
  {
    LandsWhereProjected(PoseAt(f), Tube(k), Ring(l));
    LooksAsItShould(PoseAt(f), Tube(k), Ring(l));
  }

  /** From the torus to the screen: whatever a screen of the animation shows is a point of the torus, tilted as that
      frame has it, projected into that cell and lit like that. */
  lemma EveryGlyphIsTorus(f: nat, text: string, o: nat) returns (l: nat, k: nat)
    requires ShowsFrame(f, text) && o < CELLS && o % 80 != 0
    requires text[o] != ' '
    ensures Shows(f, o, text[o], l, k)
  {
    var ss := FrameShots(PoseAt(f));
    var z :| Visible(ss, o, z, text[o]);
    var m := SeenBy(ss, o, z, text[o]);
    l, k := SampleNumber(PoseAt(f), m);
    ShowsSample(f, o, l, k);
  }
}
