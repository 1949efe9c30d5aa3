/** Squared distance between two segments (CM_DistanceSquaredBetweenSegments). */
module SegmentDistance {
  import opened Vectors

  /**
   * The coefficients the routine computes from its arguments. The squared distance between
   * the points at parameters `s` and `t` is the convex quadratic `At(s, t)`.
   */
  datatype Coeffs = Coeffs(a00: real, a01: real, a11: real, b0: real, b1: real, c: real) {
    function At(s: real, t: real): real {
      a00 * s * s - 2.0 * a01 * s * t + a11 * t * t + 2.0 * b0 * s - 2.0 * b1 * t + c
    }

    function Det(): real { a00 * a11 - a01 * a01 }

    function Numer0(): real { b1 * a01 - b0 * a11 }

    function Numer1(): real { b1 * a00 - b0 * a01 }

    /** Half of the partial derivative of `At` in `s`. */
    function Slope0(s: real, t: real): real {
      a00 * s - a01 * t + b0
    }

    /** Half of the partial derivative of `At` in `t`. */
    function Slope1(s: real, t: real): real {
      a11 * t - a01 * s - b1
    }
  }

  function CoeffsOf(start0: Vec3, delta0: Vec3, start1: Vec3, delta1: Vec3): Coeffs {
    var s0_s1 := Sub(start0, start1);
    Coeffs(LengthSquared(delta0), Dot(delta0, delta1), LengthSquared(delta1),
           Dot(delta0, s0_s1), Dot(delta1, s0_s1), LengthSquared(s0_s1))
  }

  function TimesInverse(n: real, d: real): real
    requires d != 0.0
  {
    n * (1.0 / d)
  }

  /** The value returned when neither parameter is clamped. */
  function T1Inside(q: Coeffs, s: real, t: real): real {
    (q.b0 - q.a01 * t + q.b0 - q.a01 * t + q.a00 * s) * s + (q.a11 * t - (q.b1 + q.b1)) * t + q.c
  }

  /** The value returned when only the first parameter is clamped, to 1. */
  function T1InsideAtOne(q: Coeffs, t: real): real {
    (q.a11 * t - (q.a01 + q.b1 + q.a01 + q.b1)) * t + q.a00 + q.b0 + q.b0 + q.c
  }

  /** The value returned when only the first parameter is clamped, to 0. */
  function T1InsideAtZero(q: Coeffs, t: real): real {
    (q.a11 * t - (q.b1 + q.b1)) * t + q.c
  }

  /** The label t1_is_clamped_to_0. */
  function T1ClampedTo0(q: Coeffs): real {
    if q.b0 < 0.0 then
      if -q.b0 < q.a00 then
        (q.b0 + q.b0 + q.a00 * (-q.b0 / q.a00)) * (-q.b0 / q.a00) + q.c
      else
        q.b0 + q.b0 + q.a00 + q.c
    else
      q.c
  }

  /** The label t1_is_clamped_to_1. */
  function T1ClampedTo1(q: Coeffs): real {
    if q.b0 < q.a01 then
      if q.a01 - q.b0 < q.a00 then
        (q.a00 * ((q.a01 - q.b0) / q.a00) + q.b0 - q.a01 + q.b0 - q.a01) * ((q.a01 - q.b0) / q.a00)
        + q.a11 - (q.b1 + q.b1) + q.c
      else
        q.a00 + q.a11 + q.b0 - q.b1 - q.a01 + q.b0 - q.b1 - q.a01 + q.c
    else
      q.a11 - (q.b1 + q.b1) + q.c
  }

  function MinimumOf(q: Coeffs): real {
    var det, numer0 := q.Det(), q.Numer0();
    if numer0 > 0.0 then
      if numer0 < det then
        var numer1 := q.Numer1();
        if numer1 > 0.0 then
          if numer1 < det then T1Inside(q, TimesInverse(numer0, det), TimesInverse(numer1, det))
          else T1ClampedTo1(q)
        else T1ClampedTo0(q)
      else
        var numer1 := q.b1 + q.a01;
        if numer1 > 0.0 then
          if numer1 < q.a11 then T1InsideAtOne(q, numer1 / q.a11)
          else T1ClampedTo1(q)
        else T1ClampedTo0(q)
    else if q.b1 <= 0.0 then T1ClampedTo0(q)
    else if q.b1 < q.a11 then T1InsideAtZero(q, q.b1 / q.a11)
    else T1ClampedTo1(q)
  }

  function DistanceSquaredBetweenSegments(start0: Vec3, delta0: Vec3, start1: Vec3, delta1: Vec3): real {
    MinimumOf(CoeffsOf(start0, delta0, start1, delta1))
  }

  /** What makes six coefficients those of two vectors and an offset. */
  ghost predicate Convex(q: Coeffs) {
    && q.a00 >= 0.0
    && q.a11 >= 0.0
    && q.a01 * q.a01 <= q.a00 * q.a11
    && (q.a00 == 0.0 ==> q.a01 == 0.0 && q.b0 == 0.0)
    && (q.a11 == 0.0 ==> q.a01 == 0.0 && q.b1 == 0.0)
    && (q.a01 * q.a01 == q.a00 * q.a11 ==> q.b1 * q.a01 == q.b0 * q.a11)
  }

  lemma CoeffsConvex(start0: Vec3, delta0: Vec3, start1: Vec3, delta1: Vec3)
    ensures Convex(CoeffsOf(start0, delta0, start1, delta1))
  {
    hide Dot;
    var w := Sub(start0, start1);
    LengthSquaredNonNegative(delta0);
    LengthSquaredNonNegative(delta1);
    CauchySchwarz(delta0, delta1);
    ZeroDirection(delta1, w);
    ZeroDirection(delta0, delta1);
    ZeroDirection(delta1, delta0);
    ZeroDirection(delta0, w);
    if Dot(delta0, delta1) * Dot(delta0, delta1) == LengthSquared(delta0) * LengthSquared(delta1) {
      ParallelNumerator(delta0, delta1, w);
    }
  }

  lemma ZeroDirection(d: Vec3, w: Vec3)
    ensures d == ZERO ==> Dot(d, w) == 0.0 && Dot(w, d) == 0.0
  {
  }

  /** Parallel directions make the first numerator vanish. */
  lemma ParallelNumerator(d0: Vec3, d1: Vec3, w: Vec3)
    requires Dot(d0, d1) * Dot(d0, d1) == LengthSquared(d0) * LengthSquared(d1)
    ensures Dot(d1, w) * Dot(d0, d1) == Dot(d0, w) * LengthSquared(d1)
  {
    hide Dot, Cross;
    BinetCauchy(d0, d1, d1, w);
    Lagrange(d0, d1);
    LengthSquaredNonNegative(Cross(d0, d1));
    ZeroDirection(Cross(d0, d1), Cross(d1, w));
  }

  /** The quadratic is the squared distance. */
  lemma QuadraticIsDistance(start0: Vec3, delta0: Vec3, start1: Vec3, delta1: Vec3, s: real, t: real)
    ensures CoeffsOf(start0, delta0, start1, delta1).At(s, t)
         == LengthSquared(Sub(Along(start0, delta0, s), Along(start1, delta1, t)))
  {
    var x := OneAxis(start0.x - start1.x, delta0.x, delta1.x);
    var y := OneAxis(start0.y - start1.y, delta0.y, delta1.y);
    var z := OneAxis(start0.z - start1.z, delta0.z, delta1.z);
    CoeffsAreSums(start0, delta0, start1, delta1);
    hide Coeffs.At, Square, AxisGap, CoeffsOf, OneAxis, LengthSquared;
    SumAt(x, y, z, s, t);
    GapSquared(start0, delta0, start1, delta1, s, t);
    OneAxisAt(start0.x, delta0.x, start1.x, delta1.x, s, t);
    OneAxisAt(start0.y, delta0.y, start1.y, delta1.y, s, t);
    OneAxisAt(start0.z, delta0.z, start1.z, delta1.z, s, t);
  }

  lemma CoeffsAreSums(start0: Vec3, delta0: Vec3, start1: Vec3, delta1: Vec3)
    ensures CoeffsOf(start0, delta0, start1, delta1)
         == SumOf(OneAxis(start0.x - start1.x, delta0.x, delta1.x),
                  OneAxis(start0.y - start1.y, delta0.y, delta1.y),
                  OneAxis(start0.z - start1.z, delta0.z, delta1.z))
  {
  }

  function AxisGap(p0: real, u: real, p1: real, v: real, s: real, t: real): real {
    (p0 + s * u) - (p1 + t * v)
  }

  /** What one axis contributes to the coefficients. */
  function OneAxis(w: real, u: real, v: real): Coeffs {
    Coeffs(u * u, u * v, v * v, u * w, v * w, w * w)
  }

  function SumOf(x: Coeffs, y: Coeffs, z: Coeffs): Coeffs {
    Coeffs(x.a00 + y.a00 + z.a00, x.a01 + y.a01 + z.a01, x.a11 + y.a11 + z.a11,
           x.b0 + y.b0 + z.b0, x.b1 + y.b1 + z.b1, x.c + y.c + z.c)
  }

  lemma SumAt(x: Coeffs, y: Coeffs, z: Coeffs, s: real, t: real)
    ensures SumOf(x, y, z).At(s, t) == x.At(s, t) + y.At(s, t) + z.At(s, t)
  {
  }

  lemma OneAxisAt(p0: real, u: real, p1: real, v: real, s: real, t: real)
    ensures OneAxis(p0 - p1, u, v).At(s, t) == Square(AxisGap(p0, u, p1, v, s, t))
  {
  }

  lemma GapSquared(start0: Vec3, delta0: Vec3, start1: Vec3, delta1: Vec3, s: real, t: real)
    ensures LengthSquared(Sub(Along(start0, delta0, s), Along(start1, delta1, t)))
         == Square(AxisGap(start0.x, delta0.x, start1.x, delta1.x, s, t))
          + Square(AxisGap(start0.y, delta0.y, start1.y, delta1.y, s, t))
          + Square(AxisGap(start0.z, delta0.z, start1.z, delta1.z, s, t))
  {
    var g := Sub(Along(start0, delta0, s), Along(start1, delta1, t));
    assert g.x == AxisGap(start0.x, delta0.x, start1.x, delta1.x, s, t);
    assert g.y == AxisGap(start0.y, delta0.y, start1.y, delta1.y, s, t);
    assert g.z == AxisGap(start0.z, delta0.z, start1.z, delta1.z, s, t);
    hide AxisGap, Along, Sub;
    LengthIsSquares(g);
    hide Square, LengthSquared;
  }

  lemma LengthIsSquares(g: Vec3)
    ensures LengthSquared(g) == Square(g.x) + Square(g.y) + Square(g.z)
  {
  }

  /** The second-order part of the quadratic. */
  function Form(q: Coeffs, x: real, y: real): real {
    q.a00 * x * x - 2.0 * q.a01 * x * y + q.a11 * y * y
  }

  lemma FormNonNegative(q: Coeffs, x: real, y: real)
    requires Convex(q)
    ensures Form(q, x, y) >= 0.0
  {
    var u, v := q.a00 * x - q.a01 * y, q.a00 * q.a11 - q.a01 * q.a01;
    assert q.a00 * Form(q, x, y) == Square(u) + v * Square(y);
    assert q.a00 == 0.0 ==> Form(q, x, y) == q.a11 * Square(y);
    hide Square, Form;
    SquareNonNegative(u);
    SquareNonNegative(y);
    ProductNonNegative(v, Square(y));
    if q.a00 > 0.0 {
      QuotientNonNegative(q.a00, Form(q, x, y));
    } else {
      ProductNonNegative(q.a11, Square(y));
    }
  }

  lemma Expansion(q: Coeffs, s0: real, t0: real, s: real, t: real)
    ensures q.At(s, t) - q.At(s0, t0)
         == 2.0 * (q.Slope0(s0, t0) * (s - s0)) + 2.0 * (q.Slope1(s0, t0) * (t - t0)) + Form(q, s - s0, t - t0)
  {
    var x, y := s - s0, t - t0;
    SquareTerm(q.a00, s0, x);
    SquareTerm(q.a11, t0, y);
    CrossTerm(q.a01, s0, x, t0, y);
    SlopeTerm(q.a00, s0, q.a01, t0, q.b0, x);
    SlopeTerm(q.a11, t0, q.a01, s0, -q.b1, y);
    assert s == s0 + x && t == t0 + y;
  }

  lemma SquareTerm(a: real, s: real, x: real)
    ensures a * (s + x) * (s + x) == a * s * s + 2.0 * (a * s * x) + a * x * x
  {
  }

  lemma CrossTerm(a: real, s: real, x: real, t: real, y: real)
    ensures a * (s + x) * (t + y) == a * s * t + a * s * y + a * t * x + a * x * y
  {
  }

  lemma SlopeTerm(a: real, s: real, b: real, t: real, c: real, x: real)
    ensures (a * s - b * t + c) * x == a * s * x - b * t * x + c * x
  {
  }

  /** First-order optimality over a convex set is enough for a convex quadratic. */
  lemma OptimalPoint(q: Coeffs, s0: real, t0: real, s: real, t: real)
    requires Convex(q)
    requires q.Slope0(s0, t0) * (s - s0) >= 0.0
    requires q.Slope1(s0, t0) * (t - t0) >= 0.0
    ensures q.At(s0, t0) <= q.At(s, t)
  {
    Expansion(q, s0, t0, s, t);
    FormNonNegative(q, s - s0, t - t0);
    hide *;
  }

  /** The parameter the code settles on once the second segment's parameter is clamped to `t`. */
  function EdgeParameter(q: Coeffs, t: real): real {
    var reach := q.a01 * t - q.b0;
    if reach <= 0.0 then 0.0 else if reach < q.a00 then reach / q.a00 else 1.0
  }

  /** The clamped labels return the value of the quadratic at the edge parameter. */
  lemma ClampedValues(q: Coeffs)
    ensures T1ClampedTo0(q) == q.At(EdgeParameter(q, 0.0), 0.0)
    ensures T1ClampedTo1(q) == q.At(EdgeParameter(q, 1.0), 1.0)
  {
  }

  lemma QuotientInUnit(a: real, b: real)
    requires 0.0 <= a <= b && b > 0.0
    ensures InUnit(a / b) && b * (a / b) == a
  {
  }

  /** The edge parameter is optimal along its edge. */
  lemma EdgeOptimal(q: Coeffs, t: real, s: real)
    requires InUnit(s) && q.a00 >= 0.0
    ensures InUnit(EdgeParameter(q, t))
    ensures q.Slope0(EdgeParameter(q, t), t) * (s - EdgeParameter(q, t)) >= 0.0
  {
    var reach, e := q.a01 * t - q.b0, EdgeParameter(q, t);
    if reach <= 0.0 {
      assert q.Slope0(e, t) == -reach;
      ProductNonNegative(-reach, s);
    } else if reach < q.a00 {
      QuotientInUnit(reach, q.a00);
      assert q.Slope0(e, t) == q.a00 * e - reach;
    } else {
      assert q.Slope0(e, t) == q.a00 - reach;
      ProductNonNegative(reach - q.a00, 1.0 - s);
    }
  }

  /**
   * If the best point of the strip 0 <= s <= 1 lies on or beyond the edge at `t`, the slope
   * across that edge points outwards at the edge's own best point.
   */
  lemma StripSlope(q: Coeffs, s0: real, t0: real, s1: real, t1: real)
    requires Convex(q)
    requires q.Slope1(s0, t0) == 0.0
    requires q.Slope0(s0, t0) * (s1 - s0) >= 0.0
    requires q.Slope0(s1, t1) * (s0 - s1) >= 0.0
    ensures q.Slope1(s1, t1) * (t0 - t1) <= 0.0
    ensures t0 == t1 ==> q.Slope1(s1, t1) == 0.0
  {
    FormNonNegative(q, s0 - s1, t0 - t1);
    SlopesMonotone(q, s0, t0, s1, t1);
    if t0 == t1 {
      FlatEdge(q, s0 - s1);
      assert q.Slope1(s1, t1) - q.Slope1(s0, t0) == q.a01 * (s0 - s1);
    }
    hide *;
  }

  lemma FlatEdge(q: Coeffs, x: real)
    requires Convex(q)
    ensures Form(q, x, 0.0) >= 0.0
    ensures Form(q, x, 0.0) <= 0.0 ==> q.a01 * x == 0.0
  {
    assert Form(q, x, 0.0) == q.a00 * Square(x);
    SquareNonNegative(x);
    ProductNonNegative(q.a00, Square(x));
    if x != 0.0 && q.a00 != 0.0 {
      ProductPositive(q.a00, Square(x));
    }
  }

  lemma SlopesMonotone(q: Coeffs, s0: real, t0: real, s1: real, t1: real)
    ensures (q.Slope0(s0, t0) - q.Slope0(s1, t1)) * (s0 - s1) + (q.Slope1(s0, t0) - q.Slope1(s1, t1)) * (t0 - t1)
         == Form(q, s0 - s1, t0 - t1)
  {
    var x, y := s0 - s1, t0 - t1;
    assert q.Slope0(s0, t0) - q.Slope0(s1, t1) == q.a00 * x - q.a01 * y;
    assert q.Slope1(s0, t0) - q.Slope1(s1, t1) == q.a11 * y - q.a01 * x;
    assert (q.a00 * x - q.a01 * y) * x + (q.a11 * y - q.a01 * x) * y == Form(q, x, y);
  }

  ghost predicate StripOptimal(q: Coeffs, s0: real, t0: real) {
    && InUnit(s0)
    && q.Slope1(s0, t0) == 0.0
    && forall s :: InUnit(s) ==> q.Slope0(s0, t0) * (s - s0) >= 0.0
  }

  /** The box minimum lies on the edge that the strip minimum lies beyond. */
  lemma BeyondTheEdge(q: Coeffs, s0: real, t0: real, edge: real, s: real, t: real)
    requires Convex(q) && StripOptimal(q, s0, t0)
    requires (edge == 1.0 && t0 >= 1.0) || (edge == 0.0 && t0 <= 0.0)
    requires InUnit(s) && InUnit(t)
    ensures q.At(EdgeParameter(q, edge), edge) <= q.At(s, t)
  {
    hide Coeffs.At, Coeffs.Slope0, Coeffs.Slope1, EdgeParameter;
    var e := EdgeParameter(q, edge);
    EdgeOptimal(q, edge, s);
    EdgeOptimal(q, edge, s0);
    StripSlope(q, s0, t0, e, edge);
    OutwardSlope(q.Slope1(e, edge), t0, edge, t);
    OptimalPoint(q, e, edge, s, t);
  }

  lemma OutwardSlope(slope: real, t0: real, edge: real, t: real)
    requires (edge == 1.0 && t0 >= 1.0) || (edge == 0.0 && t0 <= 0.0)
    requires slope * (t0 - edge) <= 0.0 && (t0 == edge ==> slope == 0.0)
    requires InUnit(t)
    ensures slope * (t - edge) >= 0.0
  {
    if edge == 1.0 && t0 > 1.0 {
      QuotientNonNegative(t0 - 1.0, -slope);
      ProductNonNegative(-slope, 1.0 - t);
    } else if edge == 0.0 && t0 < 0.0 {
      QuotientNonNegative(-t0, slope);
      ProductNonNegative(slope, t);
    }
  }

  /** `m` is attained on the unit square and nothing on the unit square is smaller. */
  ghost predicate IsMinimum(q: Coeffs, m: real) {
    && (exists s, t :: InUnit(s) && InUnit(t) && q.At(s, t) == m)
    && (forall s, t :: InUnit(s) && InUnit(t) ==> m <= q.At(s, t))
  }

  lemma MinimumOnEdge(q: Coeffs, s0: real, t0: real, edge: real)
    requires Convex(q) && StripOptimal(q, s0, t0)
    requires (edge == 1.0 && t0 >= 1.0) || (edge == 0.0 && t0 <= 0.0)
    ensures IsMinimum(q, q.At(EdgeParameter(q, edge), edge))
  {
    EdgeOptimal(q, edge, s0);
    hide Coeffs.At, EdgeParameter, StripOptimal, Convex;
    forall s, t | InUnit(s) && InUnit(t)
      ensures q.At(EdgeParameter(q, edge), edge) <= q.At(s, t)
    {
      BeyondTheEdge(q, s0, t0, edge, s, t);
    }
  }

  lemma MinimumInStrip(q: Coeffs, s0: real, t0: real)
    requires Convex(q) && StripOptimal(q, s0, t0) && InUnit(t0)
    ensures IsMinimum(q, q.At(s0, t0))
  {
    hide Coeffs.At, Convex, Coeffs.Slope0, Coeffs.Slope1;
    forall s, t | InUnit(s) && InUnit(t)
      ensures q.At(s0, t0) <= q.At(s, t)
    {
      assert q.Slope1(s0, t0) * (t - t0) == 0.0;
      OptimalPoint(q, s0, t0, s, t);
    }
  }

  lemma StripInside(q: Coeffs, s0: real, t0: real)
    requires 0.0 < q.Numer0() < q.Det()
    requires s0 == TimesInverse(q.Numer0(), q.Det()) && t0 == TimesInverse(q.Numer1(), q.Det())
    ensures StripOptimal(q, s0, t0)
  {
    hide TimesInverse;
    var det := q.Det();
    TimesInverseIsQuotient(q.Numer0(), det);
    TimesInverseIsQuotient(q.Numer1(), det);
    QuotientInUnit(q.Numer0(), det);
    Quotient(q.Numer0(), det);
    Quotient(q.Numer1(), det);
    InsideSlopes(q.a00, q.a01, q.a11, q.b0, q.b1, det * s0, det * t0, det);
    ScaledSlope(det, q.a00, s0, q.a01, t0, q.b0);
    ScaledSlope(det, q.a11, t0, q.a01, s0, -q.b1);
    hide Coeffs.Det, Coeffs.Numer0, Coeffs.Numer1;
    ZeroFactor(det, q.Slope0(s0, t0));
    ZeroFactor(det, q.Slope1(s0, t0));
  }

  lemma InsideSlopes(a00: real, a01: real, a11: real, b0: real, b1: real, ds: real, dt: real, det: real)
    requires ds == b1 * a01 - b0 * a11 && dt == b1 * a00 - b0 * a01 && det == a00 * a11 - a01 * a01
    ensures a00 * ds - a01 * dt + b0 * det == 0.0 && a11 * dt - a01 * ds - b1 * det == 0.0
  {
  }

  lemma ScaledSlope(det: real, a: real, s: real, b: real, t: real, c: real)
    ensures det * (a * s - b * t + c) == a * (det * s) - b * (det * t) + c * det
  {
  }

  lemma ZeroFactor(d: real, x: real)
    requires d > 0.0 && d * x == 0.0
    ensures x == 0.0
  {
  }

  lemma StripAtOne(q: Coeffs, t0: real)
    requires q.a11 > 0.0 && q.a11 * t0 == q.b1 + q.a01
    requires q.Numer0() >= q.Det()
    ensures StripOptimal(q, 1.0, t0)
  {
    var slope := q.Slope0(1.0, t0);
    assert q.a11 * -slope == q.a01 * (q.a11 * t0) - q.a11 * q.a00 - q.a11 * q.b0;
    QuotientNonNegative(q.a11, -slope);
    forall s | InUnit(s)
      ensures slope * (s - 1.0) >= 0.0
    {
      ProductNonNegative(-slope, 1.0 - s);
    }
  }

  lemma StripAtZero(q: Coeffs, t0: real)
    requires q.a11 > 0.0 && q.a11 * t0 == q.b1
    requires q.Numer0() <= 0.0
    ensures StripOptimal(q, 0.0, t0)
  {
    var slope := q.Slope0(0.0, t0);
    assert q.a11 * slope == q.a11 * q.b0 - q.a01 * (q.a11 * t0);
    QuotientNonNegative(q.a11, slope);
    forall s | InUnit(s)
      ensures slope * (s - 0.0) >= 0.0
    {
      ProductNonNegative(slope, s);
    }
  }

  /** A zero-length second segment leaves only the first parameter to choose. */
  lemma StripFlat(q: Coeffs)
    requires Convex(q) && q.a11 == 0.0
    ensures StripOptimal(q, EdgeParameter(q, 0.0), 0.0)
  {
    forall s | InUnit(s)
      ensures q.Slope0(EdgeParameter(q, 0.0), 0.0) * (s - EdgeParameter(q, 0.0)) >= 0.0
    {
      EdgeOptimal(q, 0.0, s);
    }
    EdgeOptimal(q, 0.0, 0.0);
  }

  lemma Quotient(n: real, d: real)
    requires d > 0.0
    ensures d * (n / d) == n
    ensures n > 0.0 <==> n / d > 0.0
    ensures n < d <==> n / d < 1.0
  {
    FactorSign(n / d, d, n);
    FactorBelowOne(n / d, d, n);
  }

  lemma FactorSign(x: real, d: real, n: real)
    requires d > 0.0 && d * x == n
    ensures n > 0.0 <==> x > 0.0
  {
    if x > 0.0 { ProductPositive(x, d); }
    if x <= 0.0 { ProductNonNegative(-x, d); }
  }

  lemma FactorBelowOne(x: real, d: real, n: real)
    requires d > 0.0 && d * x == n
    ensures n < d <==> x < 1.0
  {
    assert (1.0 - x) * d == d - n;
    FactorSign(1.0 - x, d, d - n);
  }

  lemma TimesInverseIsQuotient(n: real, d: real)
    requires d > 0.0
    ensures TimesInverse(n, d) == n / d
  {
    var r := 1.0 / d;
    assert d * r == 1.0;
    assert d * (n * r) == n * (d * r);
    SameQuotient(n * r, n, d);
  }

  lemma SameQuotient(x: real, n: real, d: real)
    requires d > 0.0 && d * x == n
    ensures x == n / d
  {
  }

  lemma TimesInverseSign(n: real, d: real)
    requires d > 0.0
    ensures n > 0.0 <==> TimesInverse(n, d) > 0.0
    ensures n < d <==> TimesInverse(n, d) < 1.0
  {
    hide TimesInverse;
    TimesInverseIsQuotient(n, d);
    Quotient(n, d);
  }

  lemma InsideValues(q: Coeffs, s: real, t: real)
    ensures T1Inside(q, s, t) == q.At(s, t)
    ensures T1InsideAtOne(q, t) == q.At(1.0, t)
    ensures T1InsideAtZero(q, t) == q.At(0.0, t)
  {
  }

  lemma MinimumFromStrip(q: Coeffs, s: real, t: real)
    requires Convex(q) && StripOptimal(q, s, t)
    ensures IsMinimum(q, if t <= 0.0 then T1ClampedTo0(q) else if t < 1.0 then q.At(s, t) else T1ClampedTo1(q))
  {
    ClampedValues(q);
    hide *;
    if t <= 0.0 {
      MinimumOnEdge(q, s, t, 0.0);
    } else if t < 1.0 {
      assert InUnit(t) by { Inside(t); }
      MinimumInStrip(q, s, t);
    } else {
      MinimumOnEdge(q, s, t, 1.0);
    }
  }

  lemma Inside(t: real)
    requires 0.0 <= t <= 1.0
    ensures InUnit(t)
  {
  }

  lemma MinimumWhenFirstInside(q: Coeffs)
    requires Convex(q)
    requires 0.0 < q.Numer0() < q.Det()
    ensures IsMinimum(q, MinimumOf(q))
  {
    hide Coeffs.Det, Coeffs.Numer0, Coeffs.Numer1, Coeffs.At, T1ClampedTo0, T1ClampedTo1, T1Inside, IsMinimum, Convex;
    hide TimesInverse;
    var s, t := TimesInverse(q.Numer0(), q.Det()), TimesInverse(q.Numer1(), q.Det());
    TimesInverseSign(q.Numer1(), q.Det());
    StripInside(q, s, t);
    InsideValues(q, s, t);
    MinimumFromStrip(q, s, t);
  }

  lemma PositiveDeterminant(q: Coeffs)
    requires Convex(q)
    requires q.Numer0() > 0.0
    ensures q.Det() > 0.0 && q.a11 > 0.0
  {
  }

  lemma MinimumWhenFirstAtOne(q: Coeffs)
    requires Convex(q)
    requires 0.0 < q.Numer0() && q.Det() <= q.Numer0()
    ensures IsMinimum(q, MinimumOf(q))
  {
    PositiveDeterminant(q);
    hide Coeffs.Det, Coeffs.Numer0, Coeffs.Numer1, Coeffs.At, T1ClampedTo0, T1ClampedTo1, T1InsideAtOne, IsMinimum,
         Convex;
    var n1 := q.b1 + q.a01;
    var t := n1 / q.a11;
    Quotient(n1, q.a11);
    StripAtOne(q, t);
    InsideValues(q, 1.0, t);
    MinimumFromStrip(q, 1.0, t);
  }

  lemma MinimumWhenFirstAtZero(q: Coeffs)
    requires Convex(q) && q.a11 != 0.0
    requires q.Numer0() <= 0.0
    ensures IsMinimum(q, MinimumOf(q))
  {
    hide Coeffs.Det, Coeffs.Numer0, Coeffs.Numer1, Coeffs.At, T1ClampedTo0, T1ClampedTo1, T1InsideAtZero, IsMinimum;
    var t := q.b1 / q.a11;
    Quotient(q.b1, q.a11);
    StripAtZero(q, t);
    InsideValues(q, 0.0, t);
    MinimumFromStrip(q, 0.0, t);
  }

  lemma MinimumWhenFlat(q: Coeffs)
    requires Convex(q) && q.a11 == 0.0
    ensures IsMinimum(q, MinimumOf(q))
  {
    assert q.Numer0() == 0.0;
    StripFlat(q);
    hide Coeffs.At, T1ClampedTo0, T1ClampedTo1, IsMinimum;
    MinimumFromStrip(q, EdgeParameter(q, 0.0), 0.0);
  }

  /** Every branch returns the least value of the quadratic over the unit square. */
  lemma MinimumOfIsMinimum(q: Coeffs)
    requires Convex(q)
    ensures IsMinimum(q, MinimumOf(q))
  {
    if q.a11 == 0.0 {
      MinimumWhenFlat(q);
    } else if q.Numer0() <= 0.0 {
      MinimumWhenFirstAtZero(q);
    } else if q.Numer0() < q.Det() {
      MinimumWhenFirstInside(q);
    } else {
      MinimumWhenFirstAtOne(q);
    }
  }

  function Gap(start0: Vec3, delta0: Vec3, start1: Vec3, delta1: Vec3, s: real, t: real): real {
    LengthSquared(Sub(Along(start0, delta0, s), Along(start1, delta1, t)))
  }

  /** The routine returns the squared distance of the two closest points of the two segments. */
  lemma DistanceIsMinimal(start0: Vec3, delta0: Vec3, start1: Vec3, delta1: Vec3)
    ensures var d := DistanceSquaredBetweenSegments(start0, delta0, start1, delta1);
            && (exists s, t :: InUnit(s) && InUnit(t) && Gap(start0, delta0, start1, delta1, s, t) == d)
            && (forall s, t :: InUnit(s) && InUnit(t) ==> d <= Gap(start0, delta0, start1, delta1, s, t))
  {
    var q := CoeffsOf(start0, delta0, start1, delta1);
    CoeffsConvex(start0, delta0, start1, delta1);
    MinimumOfIsMinimum(q);
    hide MinimumOf, Coeffs.At, LengthSquared, Sub, Along, CoeffsOf;
    forall s, t
      ensures Gap(start0, delta0, start1, delta1, s, t) == q.At(s, t)
    {
      QuadraticIsDistance(start0, delta0, start1, delta1, s, t);
    }
    var s, t :| InUnit(s) && InUnit(t) && q.At(s, t) == MinimumOf(q);
    assert Gap(start0, delta0, start1, delta1, s, t) == MinimumOf(q);
  }
}
