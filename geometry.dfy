/** Plane geometry used by the projectile handler: Unity's Vector3 and
    Vector2 as exact real vectors, the clamped linear interpolation of
    Vector2.Lerp, the flight-progress fraction, and C#'s truncating
    float-to-int cast. */
module Geometry {

  /** A world position; y is the height axis. */
  datatype Vec3 = Vec3(x: real, y: real, z: real)

  /** A point on the ground plane. */
  datatype Vec2 = Vec2(x: real, y: real)

  /** An integer map cell (RimWorld's IntVec3). */
  datatype IntVec3 = IntVec3(x: int, y: int, z: int)

  /** The ground-plane projection (x, z) of a world position. */
  function Flatten(v: Vec3): Vec2
  {
    Vec2(v.x, v.z)
  }

  /** `v` lies between `lo` and `hi`, whichever of them is the smaller. */
  predicate Between(lo: real, hi: real, v: real)
  {
    (lo <= v <= hi) || (hi <= v <= lo)
  }

  /** The fraction Vector2.Lerp actually uses: t restricted to [0, 1]. */
  function Clamp01(t: real): (c: real)
    ensures 0.0 <= c <= 1.0
    ensures 0.0 <= t <= 1.0 ==> c == t
    ensures t <= 0.0 ==> c == 0.0
    ensures t >= 1.0 ==> c == 1.0
  {
    if t < 0.0 then 0.0 else if t > 1.0 then 1.0 else t
  }

  /** One coordinate of a linear interpolation at an already clamped fraction. */
  function Mix(a: real, b: real, c: real): real
  {
    a + (b - a) * c
  }

  /** An interpolation at a fraction in [0, 1] stays between its end points. */
  lemma MixBetween(a: real, b: real, c: real)
    requires 0.0 <= c <= 1.0
    ensures Between(a, b, Mix(a, b, c))
  {
    if a <= b {
      MixRising(a, b, c);
    } else {
      MixFalling(a, b, c);
    }
  }

  /** MixBetween when the coordinate grows from `a` to `b`. */
  lemma MixRising(a: real, b: real, c: real)
    requires 0.0 <= c <= 1.0 && a <= b
    ensures a <= Mix(a, b, c) <= b
  {
    var d := b - a;
    MulBounds(d, c);
    assert Mix(a, b, c) == a + d * c;
  }

  /** MixBetween when the coordinate shrinks from `a` to `b`. */
  lemma MixFalling(a: real, b: real, c: real)
    requires 0.0 <= c <= 1.0 && b < a
    ensures b <= Mix(a, b, c) <= a
  {
    MulBounds(a - b, c);
    assert (b - a) * c == -((a - b) * c);
  }

  /** Scaling a non-negative length by a fraction in [0, 1] keeps it in [0, length]. */
  lemma MulBounds(d: real, c: real)
    requires 0.0 <= d && 0.0 <= c <= 1.0
    ensures 0.0 <= d * c <= d
  {
    assert d * c <= d * 1.0 by {
      assert d * (1.0 - c) >= 0.0;
    }
  }

  /** `r` lies on the line through `a` and `b`: the vectors a->r and a->b are
      parallel (their cross product is zero). */
  predicate OnLine(a: Vec2, b: Vec2, r: Vec2)
  {
    (r.x - a.x) * (b.y - a.y) == (r.y - a.y) * (b.x - a.x)
  }

  /** Interpolating both coordinates at the same fraction stays on the line
      through the end points. */
  lemma MixCollinear(a: Vec2, b: Vec2, c: real)
    ensures OnLine(a, b, Vec2(Mix(a.x, b.x, c), Mix(a.y, b.y, c)))
  {
    assert (b.x - a.x) * c * (b.y - a.y) == (b.y - a.y) * c * (b.x - a.x);
  }

  /** The vector from `a` to `b`. */
  function Sub(b: Vec2, a: Vec2): Vec2
  {
    Vec2(b.x - a.x, b.y - a.y)
  }

  /** The dot product of two plane vectors. */
  function Dot(u: Vec2, v: Vec2): real
  {
    u.x * v.x + u.y * v.y
  }

  /** Interpolating at fraction `c` travels the fraction `c` of the way from
      `a` to `b`: projected onto a->b, the vector a->r is `c` times a->b. */
  lemma MixProgress(a: Vec2, b: Vec2, c: real)
    ensures var r := Vec2(Mix(a.x, b.x, c), Mix(a.y, b.y, c));
            Dot(Sub(r, a), Sub(b, a)) == c * Dot(Sub(b, a), Sub(b, a))
  {
    var dx, dy := b.x - a.x, b.y - a.y;
    var r := Vec2(Mix(a.x, b.x, c), Mix(a.y, b.y, c));
    assert r.x - a.x == dx * c;
    assert r.y - a.y == dy * c;
    calc {
      Dot(Sub(r, a), Sub(b, a));
      (dx * c) * dx + (dy * c) * dy;
      { assert (dx * c) * dx == c * (dx * dx); assert (dy * c) * dy == c * (dy * dy); }
      c * (dx * dx) + c * (dy * dy);
      c * (dx * dx + dy * dy);
    }
  }

  /** Vector2.Lerp(a, b, t): the fraction is clamped to [0, 1] first, so the
      result is `a` for t <= 0, `b` for t >= 1, and on the segment between,
      the clamped fraction of the way from `a` to `b`. */
  function Lerp(a: Vec2, b: Vec2, t: real): (r: Vec2)
    ensures t <= 0.0 ==> r == a
    ensures t >= 1.0 ==> r == b
    ensures Between(a.x, b.x, r.x) && Between(a.y, b.y, r.y)
    ensures OnLine(a, b, r)
    ensures Dot(Sub(r, a), Sub(b, a)) == Clamp01(t) * Dot(Sub(b, a), Sub(b, a))
  {
    var c := Clamp01(t);
    MixBetween(a.x, b.x, c);
    MixBetween(a.y, b.y, c);
    MixCollinear(a, b, c);
    MixProgress(a, b, c);
    Vec2(Mix(a.x, b.x, c), Mix(a.y, b.y, c))
  }

  /** Flight progress `1 - ticksToImpact / startingTicksToImpact`: 0 when the
      projectile was just fired, 1 when it is due to land, within [0, 1] while
      it is in flight and beyond 1 once the remaining ticks go negative. */
  function Fraction(ticksToImpact: int, startingTicksToImpact: int): (f: real)
    requires startingTicksToImpact > 0
    ensures ticksToImpact == startingTicksToImpact ==> f == 0.0
    ensures ticksToImpact == 0 ==> f == 1.0
    ensures 0 <= ticksToImpact <= startingTicksToImpact ==> 0.0 <= f <= 1.0
    ensures ticksToImpact < 0 ==> f > 1.0
    ensures ticksToImpact > startingTicksToImpact ==> f < 0.0
  {
    var s := startingTicksToImpact as real;
    var k := ticksToImpact as real;
    QuotientSign(k, s);
    QuotientVersusOne(k, s);
    1.0 - k / s
  }

  /** Scaling by a positive factor keeps the sign. */
  lemma ProductSign(x: real, s: real)
    requires s > 0.0
    ensures x == 0.0 <==> x * s == 0.0
    ensures x < 0.0 <==> x * s < 0.0
  {
    if x < 0.0 {
      assert (-x) * s > 0.0;
    }
  }

  /** The sign of a quotient by a positive divisor is the sign of the dividend. */
  lemma QuotientSign(k: real, s: real)
    requires s > 0.0
    ensures k == 0.0 <==> k / s == 0.0
    ensures k < 0.0 <==> k / s < 0.0
  {
    ProductSign(k / s, s);
  }

  /** A quotient by a positive divisor compares with 1 as the dividend
      compares with the divisor. */
  lemma QuotientVersusOne(k: real, s: real)
    requires s > 0.0
    ensures k == s <==> k / s == 1.0
    ensures k < s <==> k / s < 1.0
  {
    var q := k / s;
    assert (q - 1.0) * s == k - s;
    ProductSign(q - 1.0, s);
  }

  /** Fewer remaining ticks never means less progress. */
  lemma {:induction false} FractionMonotone(t1: int, t2: int, s: int)
    requires s > 0 && t1 <= t2
    ensures Fraction(t2, s) <= Fraction(t1, s)
  {
    var sr := s as real;
    assert (t2 as real) / sr - (t1 as real) / sr == (t2 - t1) as real / sr;
  }

  /** `n` is `x` truncated toward zero: it has the sign of `x` and lies
      within 1 of it, on the side nearer zero. */
  predicate TruncatesTo(x: real, n: int)
  {
    && (0.0 <= x ==> 0 <= n && n as real <= x < n as real + 1.0)
    && (x < 0.0 ==> n <= 0 && n as real - 1.0 < x <= n as real)
  }

  /** The C# cast `(int)x` on a float: truncation toward zero. */
  function Truncate(x: real): (n: int)
    ensures TruncatesTo(x, n)
  {
    if x >= 0.0 then x.Floor else -((-x).Floor)
  }
}
