/** Three-component vectors over the reals, with the products the collision code uses. */
module Vectors {

  datatype Vec3 = Vec3(x: real, y: real, z: real)

  const ZERO := Vec3(0.0, 0.0, 0.0)

  function Add(a: Vec3, b: Vec3): Vec3 {
    Vec3(a.x + b.x, a.y + b.y, a.z + b.z)
  }

  function Sub(a: Vec3, b: Vec3): Vec3 {
    Vec3(a.x - b.x, a.y - b.y, a.z - b.z)
  }

  function Scale(k: real, a: Vec3): Vec3 {
    Vec3(k * a.x, k * a.y, k * a.z)
  }

  function Dot(a: Vec3, b: Vec3): real {
    a.x * b.x + a.y * b.y + a.z * b.z
  }

  function Cross(a: Vec3, b: Vec3): Vec3 {
    Vec3(a.y * b.z - a.z * b.y, a.z * b.x - a.x * b.z, a.x * b.y - a.y * b.x)
  }

  function LengthSquared(a: Vec3): real {
    Dot(a, a)
  }

  function Square(r: real): real {
    r * r
  }

  function Abs(r: real): real {
    if r < 0.0 then -r else r
  }

  predicate InUnit(t: real) {
    0.0 <= t <= 1.0
  }

  /** `p` is in the box of half-size `halfSize` around `center`. */
  predicate InBox(p: Vec3, center: Vec3, halfSize: Vec3) {
    && Abs(p.x - center.x) <= halfSize.x
    && Abs(p.y - center.y) <= halfSize.y
    && Abs(p.z - center.z) <= halfSize.z
  }

  /** The point at parameter `t` of the segment that starts at `start` and spans `delta`. */
  function Along(start: Vec3, delta: Vec3, t: real): Vec3 {
    Add(start, Scale(t, delta))
  }

  /** The value at parameter `k` on the way from `a` to `b`. */
  function Mix(a: real, b: real, k: real): real {
    (1.0 - k) * a + k * b
  }

  lemma SquareNonNegative(r: real)
    ensures Square(r) >= 0.0
    ensures r != 0.0 ==> Square(r) > 0.0
  {
    if r > 0.0 {
      SquarePositive(r);
    } else if r < 0.0 {
      SquarePositive(-r);
      assert Square(-r) == Square(r);
    }
  }

  lemma SquarePositive(r: real)
    requires r > 0.0
    ensures Square(r) > 0.0
  {
    var h := r / 2.0;
    ProductPositive(r, h);
    assert Square(r) == 2.0 * (r * h);
  }

  lemma ProductPositive(a: real, b: real)
    requires a > 0.0 && b > 0.0
    ensures a * b > 0.0
  {
  }

  lemma ProductNonNegative(a: real, b: real)
    requires a >= 0.0 && b >= 0.0
    ensures a * b >= 0.0
  {
  }

  lemma QuotientNonNegative(a: real, b: real)
    requires a > 0.0 && a * b >= 0.0
    ensures b >= 0.0
  {
  }

  lemma OrderedSquares(a: real, b: real)
    requires a > 0.0 && b >= 0.0 && Square(a) <= Square(b)
    ensures a <= b
  {
    assert Square(a) - Square(b) == a * (a - b) + b * (a - b);
    if b < a {
      ProductPositive(a, a - b);
      ProductNonNegative(b, a - b);
    }
  }

  lemma LengthSquaredNonNegative(a: Vec3)
    ensures LengthSquared(a) >= 0.0
    ensures a != ZERO ==> LengthSquared(a) > 0.0
  {
    assert LengthSquared(a) == Square(a.x) + Square(a.y) + Square(a.z);
    hide Square, LengthSquared;
    SquareNonNegative(a.x);
    SquareNonNegative(a.y);
    SquareNonNegative(a.z);
  }

  /** Lagrange's identity: the Gram determinant is the squared length of the cross product. */
  lemma Lagrange(a: Vec3, b: Vec3)
    ensures LengthSquared(a) * LengthSquared(b) - Dot(a, b) * Dot(a, b) == LengthSquared(Cross(a, b))
  {
  }

  lemma BinetCauchy(a: Vec3, b: Vec3, c: Vec3, d: Vec3)
    ensures Dot(Cross(a, b), Cross(c, d)) == Dot(a, c) * Dot(b, d) - Dot(a, d) * Dot(b, c)
  {
  }

  lemma CauchySchwarz(a: Vec3, b: Vec3)
    ensures Dot(a, b) * Dot(a, b) <= LengthSquared(a) * LengthSquared(b)
  {
    Lagrange(a, b);
    LengthSquaredNonNegative(Cross(a, b));
  }

  lemma RootBound(d: real, r: real)
    requires r >= 0.0 && Square(d) <= Square(r)
    ensures -r <= d <= r
  {
    if d > 0.0 {
      OrderedSquares(d, r);
    } else if d < 0.0 {
      assert Square(-d) == Square(d);
      OrderedSquares(-d, r);
    }
  }
}
