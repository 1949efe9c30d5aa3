/** Does a capsule touch a triangle (CM_DoesCapsuleIntersectTriangle and CM_IsPointOverTriangle)? */
module CapsuleTriangle {
  import opened Vectors
  import opened SegmentDistance

  // ---- the routines ----

  /** One unknown of a pair of linear equations, times their determinant. */
  function Eliminate(a: real, p: real, b: real, r: real): real {
    a * p - b * r
  }

  predicate IsPointOverTriangle(pt: Vec3, v0: Vec3, e0: Vec3, e1: Vec3, a00: real, a01: real, a11: real, det: real) {
    var v0_pt := Sub(v0, pt);
    var b0, b1 := Dot(e0, v0_pt), Dot(e1, v0_pt);
    var u := Eliminate(a01, b1, a11, b0);
    u >= 0.0 &&
    var v := Eliminate(a01, b0, a00, b1);
    v >= 0.0 && det >= u + v
  }

  function Lerp(from: Vec3, to: Vec3, f: real): Vec3 {
    Add(from, Scale(f, Sub(to, from)))
  }

  function ScaledDistance(p: Vec3, normal: Vec3, planeDist: real): real {
    Dot(p, normal) - planeDist
  }

  function Determinant(a00: real, a01: real, a11: real): real {
    a00 * a11 - a01 * a01
  }

  predicate DoesCapsuleIntersectTriangle(start: Vec3, end: Vec3, radiusSq: real, v0: Vec3, v1: Vec3, v2: Vec3) {
    var e0, e1 := Sub(v1, v0), Sub(v2, v0);
    var normal := Cross(e0, e1);
    var planeDist := Dot(v0, normal);
    var dist0, dist1 := ScaledDistance(start, normal, planeDist), ScaledDistance(end, normal, planeDist);
    var cutoff := radiusSq * LengthSquared(normal);
    var startClose, endClose := cutoff > Square(dist0), cutoff > Square(dist1);
    if dist0 * dist1 >= 0.0 && !endClose && !startClose then false
    else
      var a00, a01, a11 := LengthSquared(e0), Dot(e0, e1), LengthSquared(e1);
      var det := Determinant(a00, a01, a11);
      if dist0 * dist1 < 0.0
         && IsPointOverTriangle(Lerp(start, end, dist0 / (dist0 - dist1)), v0, e0, e1, a00, a01, a11, det) then true
      else if startClose && IsPointOverTriangle(start, v0, e0, e1, a00, a01, a11, det) then true
      else if endClose && IsPointOverTriangle(end, v0, e0, e1, a00, a01, a11, det) then true
      else
        var delta := Sub(end, start);
        || radiusSq > DistanceSquaredBetweenSegments(start, delta, v0, e0)
        || radiusSq > DistanceSquaredBetweenSegments(start, delta, v0, e1)
        || radiusSq > DistanceSquaredBetweenSegments(start, delta, v1, Sub(v2, v1))
  }

  // ---- the triangle in its own coordinates ----

  datatype Face = Face(v0: Vec3, e0: Vec3, e1: Vec3) {
    function A00(): real { LengthSquared(e0) }
    function A01(): real { Dot(e0, e1) }
    function A11(): real { LengthSquared(e1) }
    function Det(): real { Determinant(A00(), A01(), A11()) }
    function Normal(): Vec3 { Cross(e0, e1) }

    /** The point with barycentric weights 1 - u - v, u, v. */
    function Point(u: real, v: real): Vec3 {
      Add(v0, Add(Scale(u, e0), Scale(v, e1)))
    }

    /** Barycentric coordinates of the projection of `p`, scaled by the determinant. */
    function U(p: Vec3): real { Eliminate(A11(), Dot(e0, Sub(p, v0)), A01(), Dot(e1, Sub(p, v0))) }
    function V(p: Vec3): real { Eliminate(A00(), Dot(e1, Sub(p, v0)), A01(), Dot(e0, Sub(p, v0))) }

    /** Distance from the plane, scaled by the length of the normal. */
    function Height(p: Vec3): real { Dot(Normal(), Sub(p, v0)) }

    /** Squared length of x * e0 + y * e1. */
    function Planar(x: real, y: real): real { A00() * x * x + 2.0 * A01() * x * y + A11() * y * y }
  }

  predicate InSimplex(u: real, v: real) {
    u >= 0.0 && v >= 0.0 && u + v <= 1.0
  }

  predicate Over(f: Face, p: Vec3) {
    f.U(p) >= 0.0 && f.V(p) >= 0.0 && f.U(p) + f.V(p) <= f.Det()
  }

  lemma DetIsNormalSquared(f: Face)
    ensures f.Det() == LengthSquared(f.Normal())
  {
    Lagrange(f.e0, f.e1);
  }

  /** One component of the triple product, with the products not yet added up. */
  lemma TripleProductComponent(
    a1: real, a2: real, a3: real, b1: real, b2: real, b3: real, w1: real, w2: real, w3: real)
    ensures (a3 * b1 - a1 * b3) * w3 - (a1 * b2 - a2 * b1) * w2
         == (a1 * w1 + a2 * w2 + a3 * w3) * b1 - (b1 * w1 + b2 * w2 + b3 * w3) * a1
  {
  }

  lemma TripleProductX(a: Vec3, b: Vec3, w: Vec3)
    ensures Cross(Cross(a, b), w).x == Dot(a, w) * b.x - Dot(b, w) * a.x
  {
    TripleProductComponent(a.x, a.y, a.z, b.x, b.y, b.z, w.x, w.y, w.z);
  }

  function Rotated(a: Vec3): Vec3 {
    Vec3(a.y, a.z, a.x)
  }

  lemma RotatedTwice(a: Vec3, b: Vec3)
    ensures Dot(Rotated(Rotated(a)), Rotated(Rotated(b))) == Dot(Rotated(a), Rotated(b)) == Dot(a, b)
    ensures Cross(Rotated(a), Rotated(b)) == Rotated(Cross(a, b))
    ensures Cross(Rotated(Rotated(a)), Rotated(Rotated(b))) == Rotated(Rotated(Cross(a, b)))
  {
  }

  lemma TripleProduct(a: Vec3, b: Vec3, w: Vec3)
    ensures Cross(Cross(a, b), w) == Sub(Scale(Dot(a, w), b), Scale(Dot(b, w), a))
  {
    hide Dot, Cross;
    var a1, b1, w1 := Rotated(a), Rotated(b), Rotated(w);
    TripleProductX(a, b, w);
    TripleProductX(a1, b1, w1);
    TripleProductX(Rotated(a1), Rotated(b1), Rotated(w1));
    RotatedTwice(a, b);
    RotatedTwice(Cross(a, b), w);
    RotatedTwice(a, w);
    RotatedTwice(b, w);
  }

  lemma CombinationLength(a: Vec3, b: Vec3, p: real, r: real)
    ensures LengthSquared(Sub(Scale(p, b), Scale(r, a)))
         == p * p * LengthSquared(b) - 2.0 * p * r * Dot(a, b) + r * r * LengthSquared(a)
  {
  }

  /** The squared triple product is the Gram determinant of three vectors. */
  lemma GramDeterminant(a: Vec3, b: Vec3, w: Vec3)
    ensures LengthSquared(Cross(a, b)) * LengthSquared(w)
         == Square(Dot(Cross(a, b), w))
            + (Dot(a, w) * Dot(a, w) * LengthSquared(b) - 2.0 * Dot(a, w) * Dot(b, w) * Dot(a, b)
               + Dot(b, w) * Dot(b, w) * LengthSquared(a))
  {
    var n := Cross(a, b);
    hide Dot, LengthSquared, Cross, Sub, Scale;
    Lagrange(n, w);
    TripleProduct(a, b, w);
    CombinationLength(a, b, Dot(a, w), Dot(b, w));
    assert LengthSquared(Cross(n, w)) == LengthSquared(Sub(Scale(Dot(a, w), b), Scale(Dot(b, w), a)));
  }

  /** Offset from the triangle's plane point, in the products the coordinates are built from. */
  lemma OffsetProducts(f: Face, p: Vec3, u: real, v: real)
    ensures var w := Sub(p, f.Point(u, v));
            && Dot(f.e0, w) == Dot(f.e0, Sub(p, f.v0)) - u * f.A00() - v * f.A01()
            && Dot(f.e1, w) == Dot(f.e1, Sub(p, f.v0)) - u * f.A01() - v * f.A11()
            && Dot(f.Normal(), w) == f.Height(p)
  {
    var w0 := Sub(p, f.v0);
    assert Dot(f.e0, f.e1) == Dot(f.e1, f.e0);
    assert Sub(p, f.Point(u, v)) == Sub(Sub(w0, Scale(u, f.e0)), Scale(v, f.e1));
    hide Sub, Scale, Dot, Cross, Face.Point;
    DotLinear(f.e0, w0, f.e0, f.e1, u, v);
    DotLinear(f.e1, w0, f.e0, f.e1, u, v);
    DotLinear(f.Normal(), w0, f.e0, f.e1, u, v);
    NormalOrthogonal(f.e0, f.e1);
  }

  lemma DotLinear(n: Vec3, w: Vec3, a: Vec3, b: Vec3, u: real, v: real)
    ensures Dot(n, Sub(Sub(w, Scale(u, a)), Scale(v, b))) == Dot(n, w) - u * Dot(n, a) - v * Dot(n, b)
  {
  }

  lemma NormalOrthogonal(a: Vec3, b: Vec3)
    ensures Dot(Cross(a, b), a) == 0.0 && Dot(Cross(a, b), b) == 0.0
  {
  }

  /** Pythagoras: distance to a point of the plane splits into height and in-plane offset. */
  lemma PlanarSplit(f: Face, p: Vec3, u: real, v: real)
    ensures f.Det() * (f.Det() * LengthSquared(Sub(p, f.Point(u, v))))
         == f.Det() * Square(f.Height(p)) + f.Planar(f.U(p) - f.Det() * u, f.V(p) - f.Det() * v)
  {
    var w := Sub(p, f.Point(u, v));
    DetIsNormalSquared(f);
    GramDeterminant(f.e0, f.e1, w);
    OffsetProducts(f, p, u, v);
    PlanarScalars(f.A00(), f.A01(), f.A11(), Dot(f.e0, Sub(p, f.v0)), Dot(f.e1, Sub(p, f.v0)), u, v);
    hide Sub, Dot, LengthSquared, Square, Cross, Face.Point;
  }

  lemma PlanarScalars(a00: real, a01: real, a11: real, p: real, r: real, u: real, v: real)
    ensures (var det := a00 * a11 - a01 * a01;
             var pw, rw := p - u * a00 - v * a01, r - u * a01 - v * a11;
             var x, y := a11 * p - a01 * r - det * u, a00 * r - a01 * p - det * v;
             a00 * x * x + 2.0 * a01 * x * y + a11 * y * y
             == det * (pw * pw * a11 - 2.0 * pw * rw * a01 + rw * rw * a00))
  {
    var det := a00 * a11 - a01 * a01;
    var pw, rw := p - u * a00 - v * a01, r - u * a01 - v * a11;
    var x, y := a11 * p - a01 * r - det * u, a00 * r - a01 * p - det * v;
    assert x == a11 * pw - a01 * rw;
    assert y == a00 * rw - a01 * pw;
    PlanarForm(a00, a01, a11, pw, rw);
  }

  lemma PlanarForm(a00: real, a01: real, a11: real, pw: real, rw: real)
    ensures (var x, y := a11 * pw - a01 * rw, a00 * rw - a01 * pw;
             a00 * x * x + 2.0 * a01 * x * y + a11 * y * y
             == (a00 * a11 - a01 * a01) * (pw * pw * a11 - 2.0 * pw * rw * a01 + rw * rw * a00))
  {
  }

  /** The height never exceeds the scaled distance to a point of the plane. */
  lemma HeightBound(f: Face, p: Vec3, u: real, v: real)
    ensures Square(f.Height(p)) <= f.Det() * LengthSquared(Sub(p, f.Point(u, v)))
  {
    var w := Sub(p, f.Point(u, v));
    DetIsNormalSquared(f);
    OffsetProducts(f, p, u, v);
    CauchySchwarz(f.Normal(), w);
    hide Sub, Dot, LengthSquared, Cross, Face.Point, Face.Det, Face.Height;
  }

  lemma PlanarNonNegative(f: Face, x: real, y: real)
    ensures f.Planar(x, y) >= 0.0
  {
    CombinationSum(f.e0, f.e1, x, y);
    LengthSquaredNonNegative(Add(Scale(x, f.e0), Scale(y, f.e1)));
    hide Dot, LengthSquared, Add, Scale;
  }

  lemma CombinationSum(a: Vec3, b: Vec3, x: real, y: real)
    ensures LengthSquared(Add(Scale(x, a), Scale(y, b)))
         == LengthSquared(a) * x * x + 2.0 * Dot(a, b) * x * y + LengthSquared(b) * y * y
  {
  }

  lemma PlanarScaled(f: Face, k: real, x: real, y: real, x1: real, y1: real)
    requires InUnit(k) && x1 == k * x && y1 == k * y
    ensures f.Planar(x1, y1) <= f.Planar(x, y)
  {
    PlanarNonNegative(f, x, y);
    assert f.Planar(x1, y1) == (k * k) * f.Planar(x, y) by {
      hide Face.A00, Face.A01, Face.A11;
      assert f.Planar(k * x, k * y) == (k * k) * f.Planar(x, y);
    }
    hide Face.Planar;
    ProductNonNegative(k, 1.0 - k);
    ProductNonNegative(1.0 - k * k, f.Planar(x, y));
  }

  /** Moving the plane point towards the projection of `p` never moves it away from `p`. */
  lemma Shrink(f: Face, p: Vec3, u: real, v: real, u1: real, v1: real, k: real)
    requires f.Det() > 0.0 && InUnit(k)
    requires f.U(p) - f.Det() * u1 == k * (f.U(p) - f.Det() * u)
    requires f.V(p) - f.Det() * v1 == k * (f.V(p) - f.Det() * v)
    ensures LengthSquared(Sub(p, f.Point(u1, v1))) <= LengthSquared(Sub(p, f.Point(u, v)))
  {
    hide Face.Det, Face.U, Face.V, Face.Planar, LengthSquared, Sub, Face.Point, Face.Height, Square;
    PlanarSplit(f, p, u, v);
    PlanarSplit(f, p, u1, v1);
    var d, x, y, x1, y1 := f.Det(), f.U(p) - f.Det() * u, f.V(p) - f.Det() * v, f.U(p) - f.Det() * u1, f.V(p) - f.Det() * v1;
    PlanarScaled(f, k, x, y, x1, y1);
    CancelTwice(d, LengthSquared(Sub(p, f.Point(u1, v1))), LengthSquared(Sub(p, f.Point(u, v))), Square(f.Height(p)),
                f.Planar(x1, y1), f.Planar(x, y));
  }

  lemma CancelTwice(d: real, x: real, y: real, h: real, gx: real, gy: real)
    requires d > 0.0 && gx <= gy
    requires d * (d * x) == d * h + gx
    requires d * (d * y) == d * h + gy
    ensures x <= y
  {
    QuotientNonNegative(d, d * (y - x));
    QuotientNonNegative(d, y - x);
  }

  /** The projection is at the scaled height. */
  lemma Projection(f: Face, p: Vec3, u: real, v: real)
    requires f.Det() > 0.0 && f.U(p) == f.Det() * u && f.V(p) == f.Det() * v
    ensures f.Det() * LengthSquared(Sub(p, f.Point(u, v))) == Square(f.Height(p))
  {
    PlanarSplit(f, p, u, v);
    assert f.Planar(0.0, 0.0) == 0.0;
    hide Face.Det, Face.U, Face.V, Face.Planar, LengthSquared, Sub, Face.Point, Face.Height, Square;
    CancelFactor(f.Det(), f.Det() * LengthSquared(Sub(p, f.Point(u, v))), Square(f.Height(p)));
  }

  lemma CancelFactor(d: real, l: real, r: real)
    requires d > 0.0 && d * l == d * r
    ensures l == r
  {
    assert d * (l - r) == 0.0;
    if l > r { ProductPositive(d, l - r); }
    if l < r { ProductPositive(d, r - l); }
  }

  // ---- walking along a straight line until a coordinate vanishes ----

  /** The parameter at which a value falling from `a` to `b` reaches zero; 1 if it never does. */
  function ZeroAt(a: real, b: real): real
    requires a >= 0.0
  {
    if b < 0.0 then a / (a - b) else 1.0
  }

  lemma MixSign(a: real, b: real, k: real)
    requires a >= 0.0 && InUnit(k)
    ensures InUnit(ZeroAt(a, b))
    ensures k <= ZeroAt(a, b) ==> Mix(a, b, k) >= 0.0
    ensures b < 0.0 && k == ZeroAt(a, b) ==> Mix(a, b, k) == 0.0
  {
    if b < 0.0 {
      var z, d := ZeroAt(a, b), a - b;
      QuotientInUnit(a, d);
      assert Mix(a, b, k) == d * (z - k);
      if k <= z { ProductNonNegative(d, z - k); }
    } else {
      ProductNonNegative(1.0 - k, a);
      ProductNonNegative(k, b);
    }
  }

  /** Three values start non-negative and one ends negative: stop where the first one vanishes. */
  lemma FirstZero(a: (real, real, real), b: (real, real, real)) returns (k: real)
    requires a.0 >= 0.0 && a.1 >= 0.0 && a.2 >= 0.0
    requires b.0 < 0.0 || b.1 < 0.0 || b.2 < 0.0
    ensures InUnit(k)
    ensures Mix(a.0, b.0, k) >= 0.0 && Mix(a.1, b.1, k) >= 0.0 && Mix(a.2, b.2, k) >= 0.0
    ensures Mix(a.0, b.0, k) == 0.0 || Mix(a.1, b.1, k) == 0.0 || Mix(a.2, b.2, k) == 0.0
  {
    MixSign(a.0, b.0, 0.0);
    MixSign(a.1, b.1, 0.0);
    MixSign(a.2, b.2, 0.0);
    hide Mix;
    var z0, z1, z2 := ZeroAt(a.0, b.0), ZeroAt(a.1, b.1), ZeroAt(a.2, b.2);
    if b.0 < 0.0 && (b.1 >= 0.0 || z0 <= z1) && (b.2 >= 0.0 || z0 <= z2) {
      k := z0;
    } else if b.1 < 0.0 && (b.2 >= 0.0 || z1 <= z2) {
      k := z1;
    } else {
      k := z2;
    }
    MixSign(a.0, b.0, k);
    MixSign(a.1, b.1, k);
    MixSign(a.2, b.2, k);
  }

  // ---- the specification ----

  ghost predicate Closer(f: Face, start: Vec3, end: Vec3, t: real, u: real, v: real, radiusSq: real) {
    InUnit(t) && InSimplex(u, v) && LengthSquared(Sub(Lerp(start, end, t), f.Point(u, v))) < radiusSq
  }

  /** Some point of the segment and some point of the triangle are closer than the radius. */
  ghost predicate Near(f: Face, start: Vec3, end: Vec3, radiusSq: real) {
    exists t, u, v :: Closer(f, start, end, t, u, v, radiusSq)
  }

  ghost predicate OnEdge(u: real, v: real) {
    u == 0.0 || v == 0.0 || u + v == 1.0
  }

  ghost predicate NearEdge(f: Face, start: Vec3, end: Vec3, radiusSq: real) {
    exists t, u, v :: Closer(f, start, end, t, u, v, radiusSq) && OnEdge(u, v)
  }

  /** Every scaled coordinate varies linearly along the segment. */
  lemma CoordinatesLinear(f: Face, start: Vec3, end: Vec3, t: real)
    ensures var p := Lerp(start, end, t);
            && f.U(p) == Mix(f.U(start), f.U(end), t)
            && f.V(p) == Mix(f.V(start), f.V(end), t)
            && f.Height(p) == Mix(f.Height(start), f.Height(end), t)
  {
    hide Dot, Sub, Lerp, Cross, LengthSquared, Mix, Eliminate, Face.A00, Face.A01, Face.A11;
    DotAlong(f.Normal(), start, end, f.v0, t);
    DotAlong(f.e0, start, end, f.v0, t);
    DotAlong(f.e1, start, end, f.v0, t);
    var p, p1 := Dot(f.e0, Sub(start, f.v0)), Dot(f.e0, Sub(end, f.v0));
    var r, r1 := Dot(f.e1, Sub(start, f.v0)), Dot(f.e1, Sub(end, f.v0));
    EliminateLinear(f.A11(), f.A01(), p, p1, r, r1, t);
    EliminateLinear(f.A00(), f.A01(), r, r1, p, p1, t);
  }

  lemma DotAlong(n: Vec3, start: Vec3, end: Vec3, v0: Vec3, t: real)
    ensures Dot(n, Sub(Lerp(start, end, t), v0)) == Mix(Dot(n, Sub(start, v0)), Dot(n, Sub(end, v0)), t)
  {
  }

  lemma EliminateLinear(a: real, b: real, p: real, p1: real, r: real, r1: real, t: real)
    ensures Eliminate(a, Mix(p, p1, t), b, Mix(r, r1, t)) == Mix(Eliminate(a, p, b, r), Eliminate(a, p1, b, r1), t)
  {
  }

  // ---- the three edge tests ----

  lemma EdgePoints(f: Face, v1: Vec3, v2: Vec3, w: real)
    requires f.e0 == Sub(v1, f.v0) && f.e1 == Sub(v2, f.v0)
    ensures Along(f.v0, f.e0, w) == f.Point(w, 0.0)
    ensures Along(f.v0, f.e1, w) == f.Point(0.0, w)
    ensures Along(v1, Sub(v2, v1), w) == f.Point(1.0 - w, w)
  {
  }

  /** A close pair on an edge is seen by that edge's distance test. */
  lemma EdgeTestComplete(start: Vec3, end: Vec3, s1: Vec3, d1: Vec3, t: real, w: real, radiusSq: real)
    requires InUnit(t) && InUnit(w)
    requires LengthSquared(Sub(Lerp(start, end, t), Along(s1, d1, w))) < radiusSq
    ensures radiusSq > DistanceSquaredBetweenSegments(start, Sub(end, start), s1, d1)
  {
    hide DistanceSquaredBetweenSegments, LengthSquared, Sub, Along;
    DistanceIsMinimal(start, Sub(end, start), s1, d1);
    assert Gap(start, Sub(end, start), s1, d1, t, w) < radiusSq by {
      LerpAlong(start, end, t);
    }
  }

  lemma LerpAlong(start: Vec3, end: Vec3, t: real)
    ensures Lerp(start, end, t) == Along(start, Sub(end, start), t)
  {
  }

  /** A passing distance test exhibits a close pair on its edge. */
  lemma EdgeTestSound(start: Vec3, end: Vec3, s1: Vec3, d1: Vec3, radiusSq: real) returns (t: real, w: real)
    requires radiusSq > DistanceSquaredBetweenSegments(start, Sub(end, start), s1, d1)
    ensures InUnit(t) && InUnit(w)
    ensures LengthSquared(Sub(Lerp(start, end, t), Along(s1, d1, w))) < radiusSq
  {
    hide DistanceSquaredBetweenSegments, LengthSquared, Sub, Along;
    DistanceIsMinimal(start, Sub(end, start), s1, d1);
    var d := DistanceSquaredBetweenSegments(start, Sub(end, start), s1, d1);
    t, w :| InUnit(t) && InUnit(w) && Gap(start, Sub(end, start), s1, d1, t, w) == d;
    LerpAlong(start, end, t);
  }

  predicate EdgeTests(start: Vec3, end: Vec3, radiusSq: real, v0: Vec3, v1: Vec3, v2: Vec3) {
    var delta := Sub(end, start);
    || radiusSq > DistanceSquaredBetweenSegments(start, delta, v0, Sub(v1, v0))
    || radiusSq > DistanceSquaredBetweenSegments(start, delta, v0, Sub(v2, v0))
    || radiusSq > DistanceSquaredBetweenSegments(start, delta, v1, Sub(v2, v1))
  }

  function FaceOf(v0: Vec3, v1: Vec3, v2: Vec3): Face {
    Face(v0, Sub(v1, v0), Sub(v2, v0))
  }

  lemma EdgeTestsExact(start: Vec3, end: Vec3, radiusSq: real, v0: Vec3, v1: Vec3, v2: Vec3)
    ensures EdgeTests(start, end, radiusSq, v0, v1, v2) <==> NearEdge(FaceOf(v0, v1, v2), start, end, radiusSq)
  {
    var f, e2 := FaceOf(v0, v1, v2), Sub(v2, v1);
    hide DistanceSquaredBetweenSegments, LengthSquared, Sub, Along, Lerp, Face.Point;
    if NearEdge(f, start, end, radiusSq) {
      var t, u, v :| Closer(f, start, end, t, u, v, radiusSq) && OnEdge(u, v);
      EdgePoints(f, v1, v2, u);
      EdgePoints(f, v1, v2, v);
      if u == 0.0 {
        EdgeTestComplete(start, end, v0, f.e1, t, v, radiusSq);
      } else if v == 0.0 {
        EdgeTestComplete(start, end, v0, f.e0, t, u, radiusSq);
      } else {
        EdgeTestComplete(start, end, v1, e2, t, v, radiusSq);
      }
    }
    if radiusSq > DistanceSquaredBetweenSegments(start, Sub(end, start), v0, f.e0) {
      var t, w := EdgeTestSound(start, end, v0, f.e0, radiusSq);
      EdgePoints(f, v1, v2, w);
      assert Closer(f, start, end, t, w, 0.0, radiusSq) && OnEdge(w, 0.0);
    }
    if radiusSq > DistanceSquaredBetweenSegments(start, Sub(end, start), v0, f.e1) {
      var t, w := EdgeTestSound(start, end, v0, f.e1, radiusSq);
      EdgePoints(f, v1, v2, w);
      assert Closer(f, start, end, t, 0.0, w, radiusSq) && OnEdge(0.0, w);
    }
    if radiusSq > DistanceSquaredBetweenSegments(start, Sub(end, start), v1, e2) {
      var t, w := EdgeTestSound(start, end, v1, e2, radiusSq);
      EdgePoints(f, v1, v2, w);
      assert Closer(f, start, end, t, 1.0 - w, w, radiusSq) && OnEdge(1.0 - w, w);
    }
  }

  // ---- completeness: a close pair is found ----

  /** The triangle point a pair of scaled coordinates names. */
  lemma Normalized(f: Face, x: real, y: real) returns (u: real, v: real)
    requires f.Det() > 0.0 && x >= 0.0 && y >= 0.0 && x + y <= f.Det()
    ensures x == f.Det() * u && y == f.Det() * v && InSimplex(u, v)
    ensures x == 0.0 || y == 0.0 || x + y == f.Det() ==> OnEdge(u, v)
  {
    var d := f.Det();
    hide Face.Det;
    u, v := x / d, y / d;
    QuotientInUnit(x, d);
    QuotientInUnit(y, d);
    assert d * (u + v) == x + y;
    if u + v > 1.0 { ProductPositive(d, u + v - 1.0); }
    if u + v < 1.0 { ProductPositive(d, 1.0 - u - v); }
  }

  /** If the close segment point is not over the triangle, an edge is at least as close. */
  lemma LeaveTowardsProjection(f: Face, start: Vec3, end: Vec3, t: real, u: real, v: real, radiusSq: real)
    requires f.Det() > 0.0 && Closer(f, start, end, t, u, v, radiusSq)
    requires !Over(f, Lerp(start, end, t))
    ensures NearEdge(f, start, end, radiusSq)
  {
    var d, p := f.Det(), Lerp(start, end, t);
    hide Face.Det, Face.U, Face.V, LengthSquared, Sub, Face.Point, Lerp;
    ProductNonNegative(d, u);
    ProductNonNegative(d, v);
    ProductNonNegative(d, 1.0 - u - v);
    var k := FirstZero((d * u, d * v, d - d * u - d * v), (f.U(p), f.V(p), d - f.U(p) - f.V(p)));
    var x, y := Mix(d * u, f.U(p), k), Mix(d * v, f.V(p), k);
    assert Mix(d - d * u - d * v, d - f.U(p) - f.V(p), k) == d - x - y;
    var u1, v1 := Normalized(f, x, y);
    MixShrinks(d * u, f.U(p), k);
    MixShrinks(d * v, f.V(p), k);
    hide Mix;
    Shrink(f, p, u, v, u1, v1, 1.0 - k);
    assert Closer(f, start, end, t, u1, v1, radiusSq) && OnEdge(u1, v1);
  }

  lemma MixShrinks(a: real, b: real, k: real)
    ensures b - Mix(a, b, k) == (1.0 - k) * (b - a)
  {
  }

  lemma MixMix(a: real, b: real, t1: real, t2: real, k: real)
    ensures Mix(a, b, Mix(t1, t2, k)) == Mix(Mix(a, b, t1), Mix(a, b, t2), k)
  {
  }

  lemma MixInUnit(t1: real, t2: real, k: real)
    requires InUnit(t1) && InUnit(t2) && InUnit(k)
    ensures InUnit(Mix(t1, t2, k))
  {
    ProductNonNegative(1.0 - k, t1);
    ProductNonNegative(k, t2);
    ProductNonNegative(1.0 - k, 1.0 - t1);
    ProductNonNegative(k, 1.0 - t2);
  }

  /** The square of a value between `a` and `b` is at most that of `a` when `b` is no larger. */
  lemma MixSquare(a: real, b: real, k: real)
    requires InUnit(k) && Square(b) <= Square(a)
    ensures Square(Mix(a, b, k)) <= Square(a)
  {
    var d := b - a;
    assert Square(a) - Square(Mix(a, b, k)) == k * (Square(a) - Square(b)) + k * (1.0 - k) * Square(d);
    SquareNonNegative(d);
    ProductNonNegative(k, 1.0 - k);
    hide Mix, Square;
    ProductNonNegative(k, Square(a) - Square(b));
    ProductNonNegative(k * (1.0 - k), Square(d));
  }

  /** Two values on the same side of zero: what lies between is no closer to zero than the closer one. */
  lemma MixSameSide(a: real, b: real, k: real)
    requires InUnit(k) && a * b >= 0.0
    ensures Square(a) <= Square(Mix(a, b, k)) || Square(b) <= Square(Mix(a, b, k))
  {
    if Square(a) <= Square(b) {
      SmallerFactor(a, b);
      AwayFromZero(a, b, k);
    } else {
      SmallerFactor(b, a);
      AwayFromZero(b, a, 1.0 - k);
      assert Mix(a, b, k) == Mix(b, a, 1.0 - k);
    }
  }

  lemma AwayFromZero(a: real, b: real, k: real)
    requires InUnit(k) && Square(a) <= a * b
    ensures Square(a) <= Square(Mix(a, b, k))
  {
    var d, m := b - a, Mix(a, b, k);
    assert m == a + k * d;
    assert Square(m) == Square(a) + 2.0 * (k * (a * b - Square(a))) + Square(k * d);
    SquareNonNegative(k * d);
    ProductNonNegative(k, a * b - Square(a));
  }

  lemma SmallerFactor(a: real, b: real)
    requires a * b >= 0.0 && Square(a) <= Square(b)
    ensures Square(a) <= a * b
  {
    if a > 0.0 {
      QuotientNonNegative(a, b);
      OrderedSquares(a, b);
      assert a * (b - a) == a * b - Square(a);
      ProductNonNegative(a, b - a);
    } else if a < 0.0 {
      assert -a * -b == a * b;
      QuotientNonNegative(-a, -b);
      assert Square(-a) == Square(a) && Square(-b) == Square(b);
      OrderedSquares(-a, -b);
      assert -a * (a - b) == a * b - Square(a);
      ProductNonNegative(-a, a - b);
    }
  }

  /** Over the triangle and low enough: a close pair, on an edge if a coordinate vanishes. */
  lemma CloseBelow(f: Face, start: Vec3, end: Vec3, t: real, radiusSq: real) returns (u: real, v: real)
    requires f.Det() > 0.0 && InUnit(t)
    requires var p := Lerp(start, end, t); Over(f, p) && Square(f.Height(p)) < radiusSq * f.Det()
    ensures Closer(f, start, end, t, u, v, radiusSq)
    ensures var p := Lerp(start, end, t);
            f.U(p) == 0.0 || f.V(p) == 0.0 || f.U(p) + f.V(p) == f.Det() ==> OnEdge(u, v)
  {
    var p := Lerp(start, end, t);
    hide Face.Det, Face.U, Face.V, Face.Height, Face.Point, LengthSquared, Sub, Square, Lerp;
    u, v := Normalized(f, f.U(p), f.V(p));
    Projection(f, p, u, v);
    var d, l := f.Det(), LengthSquared(Sub(p, f.Point(u, v)));
    assert d * l < radiusSq * d;
    if l >= radiusSq { ProductNonNegative(d, l - radiusSq); }
  }

  /** Walking from over the triangle to no larger height, the segment stays over it or meets an edge. */
  lemma WalkAlongSegment(f: Face, start: Vec3, end: Vec3, t1: real, t2: real, radiusSq: real)
    requires f.Det() > 0.0 && InUnit(t1) && InUnit(t2)
    requires Over(f, Lerp(start, end, t1)) && !Over(f, Lerp(start, end, t2))
    requires Square(f.Height(Lerp(start, end, t1))) < radiusSq * f.Det()
    requires Square(f.Height(Lerp(start, end, t2))) <= Square(f.Height(Lerp(start, end, t1)))
    ensures NearEdge(f, start, end, radiusSq)
  {
    var d, p1, p2 := f.Det(), Lerp(start, end, t1), Lerp(start, end, t2);
    hide Face.Det, Face.U, Face.V, Face.Height, Face.Point, LengthSquared, Sub, Square, Lerp;
    var k := FirstZero((f.U(p1), f.V(p1), d - f.U(p1) - f.V(p1)), (f.U(p2), f.V(p2), d - f.U(p2) - f.V(p2)));
    assert Mix(d - f.U(p1) - f.V(p1), d - f.U(p2) - f.V(p2), k)
        == d - Mix(f.U(p1), f.U(p2), k) - Mix(f.V(p1), f.V(p2), k);
    hide Mix;
    MixInUnit(t1, t2, k);
    var t := Mix(t1, t2, k);
    BetweenPoints(f, start, end, t1, t2, k);
    MixSquare(f.Height(p1), f.Height(p2), k);
    var u, v := CloseBelow(f, start, end, t, radiusSq);
    assert Closer(f, start, end, t, u, v, radiusSq) && OnEdge(u, v);
  }

  lemma BetweenPoints(f: Face, start: Vec3, end: Vec3, t1: real, t2: real, k: real)
    ensures var p1, p2, p := Lerp(start, end, t1), Lerp(start, end, t2), Lerp(start, end, Mix(t1, t2, k));
            && f.U(p) == Mix(f.U(p1), f.U(p2), k)
            && f.V(p) == Mix(f.V(p1), f.V(p2), k)
            && f.Height(p) == Mix(f.Height(p1), f.Height(p2), k)
  {
    hide Face.U, Face.V, Face.Height, Lerp, Mix;
    CoordinatesLinear(f, start, end, t1);
    CoordinatesLinear(f, start, end, t2);
    CoordinatesLinear(f, start, end, Mix(t1, t2, k));
    MixMix(f.U(start), f.U(end), t1, t2, k);
    MixMix(f.V(start), f.V(end), t1, t2, k);
    MixMix(f.Height(start), f.Height(end), t1, t2, k);
  }

  // ---- the main result ----

  lemma OverIsPointOverTriangle(f: Face, p: Vec3)
    ensures IsPointOverTriangle(p, f.v0, f.e0, f.e1, f.A00(), f.A01(), f.A11(), f.Det()) <==> Over(f, p)
  {
    hide Dot, Sub, Face.A00, Face.A01, Face.A11, Face.Det, Eliminate;
    DotReversed(f.e0, f.v0, p);
    DotReversed(f.e1, f.v0, p);
    var b0, b1 := Dot(f.e0, Sub(p, f.v0)), Dot(f.e1, Sub(p, f.v0));
    var c0, c1 := Dot(f.e0, Sub(f.v0, p)), Dot(f.e1, Sub(f.v0, p));
    EliminateNegated(f.A11(), b0, f.A01(), b1, c0, c1);
    EliminateNegated(f.A00(), b1, f.A01(), b0, c1, c0);
  }

  lemma DotReversed(n: Vec3, a: Vec3, b: Vec3)
    ensures Dot(n, Sub(a, b)) == -Dot(n, Sub(b, a))
  {
  }

  lemma EliminateNegated(a: real, p: real, b: real, r: real, p': real, r': real)
    requires p' == -p && r' == -r
    ensures Eliminate(b, r', a, p') == Eliminate(a, p, b, r)
  {
  }

  lemma HeightIsPlaneDistance(f: Face, p: Vec3)
    ensures ScaledDistance(p, f.Normal(), Dot(f.v0, f.Normal())) == f.Height(p)
  {
  }

  lemma LerpEnds(start: Vec3, end: Vec3)
    ensures Lerp(start, end, 0.0) == start && Lerp(start, end, 1.0) == end
  {
  }

  /** The routine, stated in the triangle's own coordinates. */
  predicate Decision(f: Face, start: Vec3, end: Vec3, radiusSq: real, nearEdge: bool) {
    var h0, h1, cutoff := f.Height(start), f.Height(end), radiusSq * LengthSquared(f.Normal());
    && !(h0 * h1 >= 0.0 && cutoff <= Square(h0) && cutoff <= Square(h1))
    && (|| (h0 * h1 < 0.0 && Over(f, Lerp(start, end, Crossing(h0, h1))))
        || (cutoff > Square(h0) && Over(f, start))
        || (cutoff > Square(h1) && Over(f, end))
        || nearEdge)
  }

  function Crossing(h0: real, h1: real): real {
    if h0 == h1 then 0.0 else h0 / (h0 - h1)
  }

  lemma RoutineIsDecision(start: Vec3, end: Vec3, radiusSq: real, v0: Vec3, v1: Vec3, v2: Vec3)
    ensures DoesCapsuleIntersectTriangle(start, end, radiusSq, v0, v1, v2)
       <==> Decision(FaceOf(v0, v1, v2), start, end, radiusSq, EdgeTests(start, end, radiusSq, v0, v1, v2))
  {
    var f := FaceOf(v0, v1, v2);
    HeightIsPlaneDistance(f, start);
    HeightIsPlaneDistance(f, end);
    OverIsPointOverTriangle(f, start);
    OverIsPointOverTriangle(f, end);
    OverIsPointOverTriangle(f, Lerp(start, end, Crossing(f.Height(start), f.Height(end))));
    hide Determinant, Dot, Cross, Sub, LengthSquared, Square, Lerp, Over, IsPointOverTriangle, ScaledDistance, Face.Height,
         DistanceSquaredBetweenSegments;
  }

  lemma CrossingPoint(h0: real, h1: real)
    requires h0 * h1 < 0.0
    ensures InUnit(Crossing(h0, h1)) && Mix(h0, h1, Crossing(h0, h1)) == 0.0
  {
    var t, d := Crossing(h0, h1), h0 - h1;
    if h0 > 0.0 {
      if h1 >= 0.0 { ProductNonNegative(h0, h1); }
      QuotientInUnit(h0, d);
      assert d * t == h0;
    } else {
      if h1 <= 0.0 { ProductNonNegative(-h0, -h1); }
      assert t == -h0 / -d;
      QuotientInUnit(-h0, -d);
      assert d * t == h0;
    }
    assert Mix(h0, h1, t) == h0 - d * t;
  }

  /** The segment properly crosses the plane at a point of the triangle. */
  ghost predicate Pierces(f: Face, start: Vec3, end: Vec3) {
    && f.Height(start) * f.Height(end) < 0.0
    && exists t, u, v :: InUnit(t) && InSimplex(u, v) && Lerp(start, end, t) == f.Point(u, v)
  }

  lemma NormalPositive(f: Face)
    requires f.Normal() != ZERO
    ensures f.Det() > 0.0 && LengthSquared(f.Normal()) == f.Det()
  {
    DetIsNormalSquared(f);
    LengthSquaredNonNegative(f.Normal());
  }

  lemma DegenerateIsRejected(f: Face, start: Vec3, end: Vec3, radiusSq: real, nearEdge: bool)
    requires f.Normal() == ZERO
    ensures !Decision(f, start, end, radiusSq, nearEdge)
  {
    ZeroDirection(ZERO, Sub(start, f.v0));
    ZeroDirection(ZERO, Sub(end, f.v0));
    ZeroDirection(ZERO, ZERO);
    assert f.Height(start) == 0.0 && f.Height(end) == 0.0 && LengthSquared(f.Normal()) == 0.0 by {
      hide Dot, Cross, Sub;
    }
    hide Face.Height, Face.Normal, LengthSquared, Dot, Over, Lerp;
    ZeroProducts(f.Height(start), f.Height(end), radiusSq, LengthSquared(f.Normal()));
  }

  lemma ZeroProducts(h0: real, h1: real, radiusSq: real, scale: real)
    requires h0 == 0.0 && h1 == 0.0 && scale == 0.0
    ensures h0 * h1 == 0.0 && radiusSq * scale == 0.0 && Square(h0) == 0.0 && Square(h1) == 0.0
  {
  }

  lemma CrossingPierces(f: Face, start: Vec3, end: Vec3)
    requires f.Normal() != ZERO && f.Height(start) * f.Height(end) < 0.0
    requires Over(f, Lerp(start, end, Crossing(f.Height(start), f.Height(end))))
    ensures Pierces(f, start, end)
  {
    var t := Crossing(f.Height(start), f.Height(end));
    var p := Lerp(start, end, t);
    NormalPositive(f);
    hide Face.Det, Face.Height, Face.U, Face.V, Face.Point, Lerp, Sub, LengthSquared, Crossing, Mix;
    CrossingPoint(f.Height(start), f.Height(end));
    CoordinatesLinear(f, start, end, t);
    var u, v := Normalized(f, f.U(p), f.V(p));
    Projection(f, p, u, v);
    LengthSquaredNonNegative(Sub(p, f.Point(u, v)));
    if Sub(p, f.Point(u, v)) != ZERO {
      ProductPositive(f.Det(), LengthSquared(Sub(p, f.Point(u, v))));
    }
  }

  lemma DecisionSound(f: Face, start: Vec3, end: Vec3, radiusSq: real)
    requires f.Normal() != ZERO
    requires Decision(f, start, end, radiusSq, NearEdge(f, start, end, radiusSq))
    ensures Near(f, start, end, radiusSq) || Pierces(f, start, end)
  {
    var h0, h1 := f.Height(start), f.Height(end);
    NormalPositive(f);
    LerpEnds(start, end);
    hide Face.Det, Face.Height, Lerp, Over, Square;
    if h0 * h1 < 0.0 && Over(f, Lerp(start, end, Crossing(h0, h1))) {
      CrossingPierces(f, start, end);
    } else if radiusSq * LengthSquared(f.Normal()) > Square(h0) && Over(f, start) {
      var u, v := CloseBelow(f, start, end, 0.0, radiusSq);
    } else if radiusSq * LengthSquared(f.Normal()) > Square(h1) && Over(f, end) {
      var u, v := CloseBelow(f, start, end, 1.0, radiusSq);
    }
  }

  /** The end of the segment, or the crossing point, towards which the height does not grow. */
  lemma LowerTarget(f: Face, start: Vec3, end: Vec3, t: real) returns (t2: real)
    requires InUnit(t)
    ensures InUnit(t2)
    ensures Square(f.Height(Lerp(start, end, t2))) <= Square(f.Height(Lerp(start, end, t)))
    ensures var h0, h1 := f.Height(start), f.Height(end);
            if h0 * h1 < 0.0 then t2 == Crossing(h0, h1) else t2 == 0.0 || t2 == 1.0
  {
    var h0, h1 := f.Height(start), f.Height(end);
    LerpEnds(start, end);
    CoordinatesLinear(f, start, end, t);
    hide Face.Height, Lerp, Mix;
    if h0 * h1 < 0.0 {
      t2 := Crossing(h0, h1);
      CrossingPoint(h0, h1);
      CoordinatesLinear(f, start, end, t2);
      SquareNonNegative(Mix(h0, h1, t));
    } else {
      MixSameSide(h0, h1, t);
      t2 := if Square(h0) <= Square(Mix(h0, h1, t)) then 0.0 else 1.0;
    }
  }

  lemma CloseIsLow(f: Face, start: Vec3, end: Vec3, t: real, u: real, v: real, radiusSq: real)
    requires f.Det() > 0.0 && Closer(f, start, end, t, u, v, radiusSq)
    ensures Square(f.Height(Lerp(start, end, t))) < radiusSq * f.Det()
  {
    var p := Lerp(start, end, t);
    HeightBound(f, p, u, v);
    hide Face.Det, Face.Height, Face.Point, Lerp, LengthSquared, Sub;
    ProductPositive(f.Det(), radiusSq - LengthSquared(Sub(p, f.Point(u, v))));
  }

  /** A target low enough is accepted if it lies over the triangle, or an edge is near. */
  lemma TargetAccepted(f: Face, start: Vec3, end: Vec3, radiusSq: real, t: real, nearEdge: bool)
    requires Square(f.Height(Lerp(start, end, t))) < radiusSq * LengthSquared(f.Normal())
    requires nearEdge || Over(f, Lerp(start, end, t))
    requires var h0, h1 := f.Height(start), f.Height(end);
             if h0 * h1 < 0.0 then t == Crossing(h0, h1) else t == 0.0 || t == 1.0
    ensures Decision(f, start, end, radiusSq, nearEdge)
  {
    LerpEnds(start, end);
    hide Face.Height, Face.Normal, Lerp, Over, Square, LengthSquared, Crossing;
  }

  lemma DecisionComplete(f: Face, start: Vec3, end: Vec3, radiusSq: real)
    requires f.Normal() != ZERO && Near(f, start, end, radiusSq)
    ensures Decision(f, start, end, radiusSq, NearEdge(f, start, end, radiusSq))
  {
    hide Decision, NearEdge, Over, Lerp, Crossing, LengthSquared, Square, Face.Det, Face.Height;
    var t, u, v :| Closer(f, start, end, t, u, v, radiusSq);
    hide Closer;
    NormalPositive(f);
    CloseIsLow(f, start, end, t, u, v, radiusSq);
    var t2 := LowerTarget(f, start, end, t);
    if !Over(f, Lerp(start, end, t)) {
      LeaveTowardsProjection(f, start, end, t, u, v, radiusSq);
    } else if !Over(f, Lerp(start, end, t2)) {
      WalkAlongSegment(f, start, end, t, t2, radiusSq);
    }
    TargetAccepted(f, start, end, radiusSq, t2, NearEdge(f, start, end, radiusSq));
  }

  lemma PiercingIsFound(f: Face, start: Vec3, end: Vec3, radiusSq: real, nearEdge: bool)
    requires f.Normal() != ZERO && Pierces(f, start, end)
    ensures Decision(f, start, end, radiusSq, nearEdge)
  {
    hide Face.Det, Face.Height, Face.Point, Face.U, Face.V, Face.Normal, Lerp, Crossing, Mix, Over, LengthSquared;
    var h0, h1 := f.Height(start), f.Height(end);
    var t, u, v :| InUnit(t) && InSimplex(u, v) && Lerp(start, end, t) == f.Point(u, v);
    PointIsOver(f, u, v);
    CoordinatesLinear(f, start, end, t);
    CrossingPoint(h0, h1);
    UniqueCrossing(h0, h1, t, Crossing(h0, h1));
    assert Over(f, Lerp(start, end, Crossing(h0, h1)));
  }

  lemma PointIsOver(f: Face, u: real, v: real)
    requires InSimplex(u, v)
    ensures Over(f, f.Point(u, v)) && f.Height(f.Point(u, v)) == 0.0
  {
    DetIsNormalSquared(f);
    LengthSquaredNonNegative(f.Normal());
    PointCoordinates(f, u, v);
    hide Face.Det, Face.Height, Face.Point, Face.U, Face.V, Face.Normal, LengthSquared;
    ScaledSimplex(f.Det(), u, v);
  }

  lemma ScaledSimplex(det: real, u: real, v: real)
    requires det >= 0.0 && InSimplex(u, v)
    ensures det * u >= 0.0 && det * v >= 0.0 && det * u + det * v <= det
  {
    ProductNonNegative(det, u);
    ProductNonNegative(det, v);
    ProductNonNegative(det, 1.0 - u - v);
  }

  lemma PointCoordinates(f: Face, u: real, v: real)
    ensures var p := f.Point(u, v);
            f.U(p) == f.Det() * u && f.V(p) == f.Det() * v && f.Height(p) == 0.0
  {
    var p := f.Point(u, v);
    OffsetProducts(f, p, u, v);
    assert Sub(p, p) == ZERO;
    var x, y := Dot(f.e0, Sub(p, f.v0)), Dot(f.e1, Sub(p, f.v0));
    assert Dot(f.e0, ZERO) == 0.0 && Dot(f.e1, ZERO) == 0.0 && Dot(f.Normal(), ZERO) == 0.0;
    hide Dot, Sub, Face.Point, Face.A00, Face.A01, Face.A11;
    SolveCoordinates(f.A00(), f.A01(), f.A11(), x, y, u, v);
  }

  lemma SolveCoordinates(a00: real, a01: real, a11: real, x: real, y: real, u: real, v: real)
    requires x == u * a00 + v * a01 && y == u * a01 + v * a11
    ensures Eliminate(a11, x, a01, y) == Determinant(a00, a01, a11) * u
    ensures Eliminate(a00, y, a01, x) == Determinant(a00, a01, a11) * v
  {
  }

  lemma UniqueCrossing(h0: real, h1: real, t: real, c: real)
    requires h0 * h1 < 0.0 && Mix(h0, h1, t) == 0.0 && Mix(h0, h1, c) == 0.0
    ensures t == c
  {
    var d, x := h0 - h1, t - c;
    assert d * x == 0.0;
    assert d != 0.0 by { if h0 == h1 { SquareNonNegative(h0); } }
    if d > 0.0 && x > 0.0 { ProductPositive(d, x); }
    if d > 0.0 && x < 0.0 { ProductPositive(d, -x); }
    if d < 0.0 && x > 0.0 { ProductPositive(-d, x); }
    if d < 0.0 && x < 0.0 { ProductPositive(-d, -x); }
  }

  /**
   * The routine is exact for every input: it accepts a non-degenerate triangle when some segment
   * point and some triangle point are closer than the radius, or the segment crosses through it.
   */
  lemma CapsuleTestExact(start: Vec3, end: Vec3, radiusSq: real, v0: Vec3, v1: Vec3, v2: Vec3)
    ensures DoesCapsuleIntersectTriangle(start, end, radiusSq, v0, v1, v2)
       <==> (var f := FaceOf(v0, v1, v2);
             f.Normal() != ZERO && (Near(f, start, end, radiusSq) || Pierces(f, start, end)))
  {
    var f := FaceOf(v0, v1, v2);
    hide *;
    RoutineIsDecision(start, end, radiusSq, v0, v1, v2);
    EdgeTestsExact(start, end, radiusSq, v0, v1, v2);
    if f.Normal() == ZERO {
      DegenerateIsRejected(f, start, end, radiusSq, EdgeTests(start, end, radiusSq, v0, v1, v2));
    } else {
      if Decision(f, start, end, radiusSq, NearEdge(f, start, end, radiusSq)) {
        DecisionSound(f, start, end, radiusSq);
      }
      if Near(f, start, end, radiusSq) {
        DecisionComplete(f, start, end, radiusSq);
      }
      if Pierces(f, start, end) {
        PiercingIsFound(f, start, end, radiusSq, NearEdge(f, start, end, radiusSq));
      }
    }
  }

  lemma NoDistance(a: Vec3)
    ensures LengthSquared(Sub(a, a)) == 0.0
  {
  }

  /** With a positive radius, being close is all that matters. */
  lemma CapsuleTestIsNear(start: Vec3, end: Vec3, radiusSq: real, v0: Vec3, v1: Vec3, v2: Vec3)
    requires radiusSq > 0.0 && FaceOf(v0, v1, v2).Normal() != ZERO
    ensures DoesCapsuleIntersectTriangle(start, end, radiusSq, v0, v1, v2)
       <==> Near(FaceOf(v0, v1, v2), start, end, radiusSq)
  {
    var f := FaceOf(v0, v1, v2);
    hide DoesCapsuleIntersectTriangle, FaceOf, Face.Height, Face.Normal, Face.Point, Lerp, LengthSquared, Sub;
    CapsuleTestExact(start, end, radiusSq, v0, v1, v2);
    if Pierces(f, start, end) {
      var t, u, v :| InUnit(t) && InSimplex(u, v) && Lerp(start, end, t) == f.Point(u, v);
      NoDistance(f.Point(u, v));
      assert Closer(f, start, end, t, u, v, radiusSq);
    }
  }

  /** A triangle without area is missed by a capsule around one of its own corners. */
  lemma DegenerateIsMissed(radiusSq: real, v0: Vec3, v1: Vec3, v2: Vec3)
    requires radiusSq > 0.0 && FaceOf(v0, v1, v2).Normal() == ZERO
    ensures Near(FaceOf(v0, v1, v2), v0, v0, radiusSq)
    ensures !DoesCapsuleIntersectTriangle(v0, v0, radiusSq, v0, v1, v2)
  {
    var f := FaceOf(v0, v1, v2);
    LerpEnds(v0, v0);
    CornerOfFace(f);
    NoDistance(v0);
    hide DoesCapsuleIntersectTriangle, Face.Normal, Face.Point, Lerp, LengthSquared, Sub;
    assert Closer(f, v0, v0, 0.0, 0.0, 0.0, radiusSq);
    CapsuleTestExact(v0, v0, radiusSq, v0, v1, v2);
  }

  lemma CornerOfFace(f: Face)
    ensures f.Point(0.0, 0.0) == f.v0
  {
    assert Scale(0.0, f.e0) == ZERO && Scale(0.0, f.e1) == ZERO;
    hide Scale;
  }

  /** For a positive radius the routine tells closeness for all segments exactly if the triangle has area. */
  lemma ExactForAllIffArea(radiusSq: real, v0: Vec3, v1: Vec3, v2: Vec3)
    requires radiusSq > 0.0
    ensures (forall start, end :: DoesCapsuleIntersectTriangle(start, end, radiusSq, v0, v1, v2)
                                  <==> Near(FaceOf(v0, v1, v2), start, end, radiusSq))
       <==> FaceOf(v0, v1, v2).Normal() != ZERO
  {
    hide DoesCapsuleIntersectTriangle, FaceOf, Face.Normal, Near;
    if FaceOf(v0, v1, v2).Normal() == ZERO {
      DegenerateIsMissed(radiusSq, v0, v1, v2);
    } else {
      forall start, end
        ensures DoesCapsuleIntersectTriangle(start, end, radiusSq, v0, v1, v2) <==> Near(FaceOf(v0, v1, v2), start, end, radiusSq)
      {
        CapsuleTestIsNear(start, end, radiusSq, v0, v1, v2);
      }
    }
  }
}
