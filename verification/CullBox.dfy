/** The separating-axis cull of a swept box against a box (CM_CullBox). */
module CullBox {
  import opened Vectors

  /** What CM_Trace derives from the segment and the box size before anything is culled. */
  datatype Sweep = Sweep(midpoint: Vec3, halfDelta: Vec3, halfDeltaAbs: Vec3, size: Vec3)

  function AbsVec(a: Vec3): Vec3 {
    Vec3(Abs(a.x), Abs(a.y), Abs(a.z))
  }

  function SweepOf(start: Vec3, end: Vec3, size: Vec3): Sweep {
    var halfDelta := Scale(0.5, Sub(end, start));
    Sweep(Scale(0.5, Add(start, end)), halfDelta, AbsVec(halfDelta), size)
  }

  predicate CullX(tw: Sweep, origin: Vec3, halfSize: Vec3) {
    var d, mid, h, abs := Sub(tw.midpoint, origin), Add(tw.size, halfSize), tw.halfDelta, tw.halfDeltaAbs;
    abs.y * mid.z + mid.y * abs.z < Abs(h.y * d.z - h.z * d.y)
  }

  predicate CullY(tw: Sweep, origin: Vec3, halfSize: Vec3) {
    var d, mid, h, abs := Sub(tw.midpoint, origin), Add(tw.size, halfSize), tw.halfDelta, tw.halfDeltaAbs;
    abs.x * mid.z + mid.x * abs.z < Abs(h.z * d.x - h.x * d.z)
  }

  predicate CullZ(tw: Sweep, origin: Vec3, halfSize: Vec3) {
    var d, mid, h, abs := Sub(tw.midpoint, origin), Add(tw.size, halfSize), tw.halfDelta, tw.halfDeltaAbs;
    abs.y * mid.x + abs.x * mid.y < Abs(h.x * d.y - h.y * d.x)
  }

  predicate CullBox(tw: Sweep, axialCullOnly: bool, origin: Vec3, halfSize: Vec3) {
    var d, mid, abs := Sub(tw.midpoint, origin), Add(tw.size, halfSize), tw.halfDeltaAbs;
    || abs.x + mid.x < Abs(d.x)
    || abs.y + mid.y < Abs(d.y)
    || abs.z + mid.z < Abs(d.z)
    || (!axialCullOnly && (CullX(tw, origin, halfSize) || CullY(tw, origin, halfSize) || CullZ(tw, origin, halfSize)))
  }

  // ---- the specification ----

  predicate IsSize(size: Vec3) {
    size.x >= 0.0 && size.y >= 0.0 && size.z >= 0.0
  }

  /** Somewhere along the segment the moving box and the fixed box share a point. */
  ghost predicate SweptBoxesMeet(start: Vec3, end: Vec3, size: Vec3, origin: Vec3, halfSize: Vec3) {
    exists t, p :: InUnit(t) && InBox(p, Along(start, Sub(end, start), t), size) && InBox(p, origin, halfSize)
  }

  // ---- one axis ----

  /** At time `tau` in [-1, 1] the boxes overlap on an axis with offset `d`, half-motion `h`, reach `m`. */
  predicate AxisMeets(d: real, h: real, m: real, tau: real) {
    Abs(d + tau * h) <= m
  }

  predicate InSpan(tau: real) {
    -1.0 <= tau <= 1.0
  }

  /** The axis turned round if need be, so that motion along it is forward. */
  function Forward(d: real, h: real): (r: (real, real)) {
    if h < 0.0 then (-d, -h) else (d, h)
  }

  function Enter(d: real, h: real, m: real): real {
    var (d1, h1) := Forward(d, h);
    if h1 == 0.0 then -1.0 else (-m - d1) / h1
  }

  function Leave(d: real, h: real, m: real): real {
    var (d1, h1) := Forward(d, h);
    if h1 == 0.0 then 1.0 else (m - d1) / h1
  }

  predicate AxisTest(d: real, h: real, m: real) {
    Abs(h) + m < Abs(d)
  }

  predicate CrossTest(d1: real, h1: real, m1: real, d2: real, h2: real, m2: real) {
    Abs(h1) * m2 + m1 * Abs(h2) < Abs(h1 * d2 - h2 * d1)
  }

  lemma MeetsBetween(d: real, h: real, m: real, tau: real)
    requires InSpan(tau) && !AxisTest(d, h, m)
    requires Enter(d, h, m) <= tau <= Leave(d, h, m)
    ensures AxisMeets(d, h, m, tau)
  {
    var (d1, h1) := Forward(d, h);
    if h1 != 0.0 {
      MovingMeets(d, h, m, tau);
    }
  }

  lemma MovingMeets(d: real, h: real, m: real, tau: real)
    requires h != 0.0 && Enter(d, h, m) <= tau <= Leave(d, h, m)
    ensures AxisMeets(d, h, m, tau)
  {
    var (d1, h1) := Forward(d, h);
    BetweenQuotients(d1, h1, m, tau);
    ForwardMeets(d, h, tau);
  }

  lemma ForwardMeets(d: real, h: real, tau: real)
    ensures var (d1, h1) := Forward(d, h); Abs(d1 + tau * h1) == Abs(d + tau * h)
  {
    assert tau * -h == -(tau * h);
  }

  lemma BetweenQuotients(d: real, h: real, m: real, tau: real)
    requires h > 0.0 && (-m - d) / h <= tau <= (m - d) / h
    ensures -m <= d + tau * h <= m
  {
    var e, l := (-m - d) / h, (m - d) / h;
    assert h * e == -m - d && h * l == m - d;
    ProductNonNegative(h, tau - e);
    ProductNonNegative(h, l - tau);
  }

  lemma EnterLeaveSpan(d: real, h: real, m: real)
    requires m >= 0.0 && !AxisTest(d, h, m)
    ensures Enter(d, h, m) <= 1.0 && -1.0 <= Leave(d, h, m) && Enter(d, h, m) <= Leave(d, h, m)
  {
    var (d1, h1) := Forward(d, h);
    if h1 != 0.0 {
      DivideOrder(-m - d1, h1, h1, 1.0);
      DivideOrder(-h1, m - d1, h1, 1.0);
      DivideOrder(-m - d1, m - d1, h1, 1.0);
    }
  }

  lemma DivideOrder(a: real, b: real, h: real, one: real)
    requires h > 0.0 && a <= b
    ensures a / h <= b / h && h / h == 1.0 && -h / h == -1.0
  {
    var x, y := a / h, b / h;
    assert h * x == a && h * y == b;
    if x > y { ProductPositive(h, x - y); }
  }

  /** Two forward-moving axes that pass the cross-product test overlap in time. */
  lemma CrossOverlap(d1: real, h1: real, m1: real, d2: real, h2: real, m2: real)
    requires m1 >= 0.0 && m2 >= 0.0
    requires !AxisTest(d1, h1, m1) && !AxisTest(d2, h2, m2) && !CrossTest(d1, h1, m1, d2, h2, m2)
    ensures Enter(d1, h1, m1) <= Leave(d2, h2, m2) && Enter(d2, h2, m2) <= Leave(d1, h1, m1)
  {
    EnterLeaveSpan(d1, h1, m1);
    EnterLeaveSpan(d2, h2, m2);
    hide CrossTest, Abs, Forward, AxisTest;
    ForwardCross(d1, h1, m1, d2, h2, m2);
    var (x1, k1) := Forward(d1, h1);
    var (x2, k2) := Forward(d2, h2);
    if k1 != 0.0 && k2 != 0.0 {
      ForwardOverlap(x1, k1, m1, x2, k2, m2);
    }
  }

  lemma ForwardOverlap(x1: real, k1: real, m1: real, x2: real, k2: real, m2: real)
    requires k1 > 0.0 && k2 > 0.0 && !CrossTest(x1, k1, m1, x2, k2, m2)
    ensures (-m1 - x1) / k1 <= (m2 - x2) / k2 && (-m2 - x2) / k2 <= (m1 - x1) / k1
  {
    CrossBound(x1, k1, m1, x2, k2, m2, Abs(k1), Abs(k2), Abs(k1 * x2 - k2 * x1));
    CrossDivide(-m1 - x1, k1, m2 - x2, k2);
    CrossDivide(-m2 - x2, k2, m1 - x1, k1);
  }

  lemma CrossBound(
    x1: real, k1: real, m1: real, x2: real, k2: real, m2: real, abs1: real, abs2: real, cross: real)
    requires abs1 == k1 && abs2 == k2
    requires Abs(k1 * x2 - k2 * x1) == cross && !(abs1 * m2 + m1 * abs2 < cross)
    ensures k2 * (-m1 - x1) <= k1 * (m2 - x2)
    ensures k1 * (-m2 - x2) <= k2 * (m1 - x1)
  {
  }

  /** Turning the axes round does not change the cross-product test. */
  lemma ForwardCross(d1: real, h1: real, m1: real, d2: real, h2: real, m2: real)
    requires !CrossTest(d1, h1, m1, d2, h2, m2)
    ensures Forward(d1, h1).1 >= 0.0 && Forward(d2, h2).1 >= 0.0
    ensures !CrossTest(Forward(d1, h1).0, Forward(d1, h1).1, m1, Forward(d2, h2).0, Forward(d2, h2).1, m2)
  {
    var ((x1, k1), (x2, k2)) := (Forward(d1, h1), Forward(d2, h2));
    assert k1 == Abs(h1) == Abs(k1) && k2 == Abs(h2) == Abs(k2);
    assert Abs(k1 * x2 - k2 * x1) == Abs(h1 * d2 - h2 * d1) by {
      assert k1 * x2 - k2 * x1 == h1 * d2 - h2 * d1 || k1 * x2 - k2 * x1 == -(h1 * d2 - h2 * d1);
    }
    hide Abs, Forward;
  }

  lemma CrossDivide(a: real, h: real, b: real, k: real)
    requires h > 0.0 && k > 0.0 && k * a <= h * b
    ensures a / h <= b / k
  {
    var x, y := a / h, b / k;
    assert h * x == a && k * y == b;
    assert k * (h * x) <= h * (k * y);
    if x > y {
      ProductPositive(h, k);
      ProductPositive(h * k, x - y);
    }
  }

  // ---- three axes at once ----

  /** 1-D Helly: intervals that overlap in pairs have a common point. */
  lemma CommonTime(e1: real, l1: real, e2: real, l2: real, e3: real, l3: real) returns (tau: real)
    requires e1 <= l1 && e2 <= l2 && e3 <= l3
    requires e1 <= l2 && e2 <= l1 && e1 <= l3 && e3 <= l1 && e2 <= l3 && e3 <= l2
    requires e1 <= 1.0 && e2 <= 1.0 && e3 <= 1.0 && -1.0 <= l1 && -1.0 <= l2 && -1.0 <= l3
    ensures InSpan(tau) && e1 <= tau <= l1 && e2 <= tau <= l2 && e3 <= tau <= l3
  {
    tau := -1.0;
    if e1 > tau { tau := e1; }
    if e2 > tau { tau := e2; }
    if e3 > tau { tau := e3; }
  }

  ghost predicate AxesMeet(d: Vec3, h: Vec3, m: Vec3, tau: real) {
    InSpan(tau) && AxisMeets(d.x, h.x, m.x, tau) && AxisMeets(d.y, h.y, m.y, tau) && AxisMeets(d.z, h.z, m.z, tau)
  }

  predicate AxisTests(d: Vec3, h: Vec3, m: Vec3) {
    AxisTest(d.x, h.x, m.x) || AxisTest(d.y, h.y, m.y) || AxisTest(d.z, h.z, m.z)
  }

  predicate CrossTests(d: Vec3, h: Vec3, m: Vec3) {
    || CrossTest(d.y, h.y, m.y, d.z, h.z, m.z)
    || CrossTest(d.z, h.z, m.z, d.x, h.x, m.x)
    || CrossTest(d.x, h.x, m.x, d.y, h.y, m.y)
  }

  lemma NoSeparationMeets(d: Vec3, h: Vec3, m: Vec3)
    requires IsSize(m) && !AxisTests(d, h, m) && !CrossTests(d, h, m)
    ensures exists tau :: AxesMeet(d, h, m, tau)
  {
    hide AxisTest, CrossTest, Enter, Leave, AxisMeets, Forward;
    EnterLeaveSpan(d.x, h.x, m.x);
    EnterLeaveSpan(d.y, h.y, m.y);
    EnterLeaveSpan(d.z, h.z, m.z);
    CrossOverlap(d.x, h.x, m.x, d.y, h.y, m.y);
    CrossOverlap(d.y, h.y, m.y, d.z, h.z, m.z);
    CrossOverlap(d.z, h.z, m.z, d.x, h.x, m.x);
    var tau := CommonTime(Enter(d.x, h.x, m.x), Leave(d.x, h.x, m.x), Enter(d.y, h.y, m.y), Leave(d.y, h.y, m.y),
                          Enter(d.z, h.z, m.z), Leave(d.z, h.z, m.z));
    MeetsBetween(d.x, h.x, m.x, tau);
    MeetsBetween(d.y, h.y, m.y, tau);
    MeetsBetween(d.z, h.z, m.z, tau);
    assert AxesMeet(d, h, m, tau);
  }

  lemma MeetsPassesAxis(d: real, h: real, m: real, tau: real)
    requires InSpan(tau) && AxisMeets(d, h, m, tau)
    ensures !AxisTest(d, h, m)
  {
    TimesUnit(tau, h);
  }

  lemma TimesUnit(tau: real, h: real)
    requires InSpan(tau)
    ensures -Abs(h) <= tau * h <= Abs(h)
  {
    ProductNonNegative(1.0 - tau, Abs(h));
    ProductNonNegative(1.0 + tau, Abs(h));
    assert tau * -h == -(tau * h);
  }

  lemma MeetsPassesCross(d1: real, h1: real, m1: real, d2: real, h2: real, m2: real, tau: real)
    requires AxisMeets(d1, h1, m1, tau) && AxisMeets(d2, h2, m2, tau)
    ensures !CrossTest(d1, h1, m1, d2, h2, m2)
  {
    var x1, x2 := d1 + tau * h1, d2 + tau * h2;
    assert h1 * d2 - h2 * d1 == h1 * x2 - h2 * x1;
    hide AxisMeets;
    BoundedProduct(h1, x2, m2);
    BoundedProduct(h2, x1, m1);
  }

  lemma BoundedProduct(h: real, x: real, m: real)
    requires Abs(x) <= m
    ensures -(Abs(h) * m) <= h * x <= Abs(h) * m
  {
    ProductNonNegative(Abs(h), m - x);
    ProductNonNegative(Abs(h), m + x);
    assert -h * x == -(h * x);
  }

  // ---- from axes back to boxes ----

  /** Two intervals about `c` and `o` share a point exactly when their centers are within reach. */
  lemma IntervalsShare(c: real, a: real, o: real, b: real) returns (p: real)
    requires a >= 0.0 && b >= 0.0 && Abs(c - o) <= a + b
    ensures Abs(p - c) <= a && Abs(p - o) <= b
  {
    p := if o < c - a then c - a else if o > c + a then c + a else o;
  }

  lemma PointAtTime(c: real, a: real, o: real, b: real, d: real, h: real, tau: real) returns (p: real)
    requires a >= 0.0 && b >= 0.0 && c - o == d + tau * h && AxisMeets(d, h, a + b, tau)
    ensures Abs(p - c) <= a && Abs(p - o) <= b
  {
    p := IntervalsShare(c, a, o, b);
  }

  lemma SharedPoint(p: real, c: real, a: real, o: real, b: real, d: real, h: real, tau: real)
    requires Abs(p - c) <= a && Abs(p - o) <= b && c - o == d + tau * h
    ensures AxisMeets(d, h, a + b, tau)
  {
  }

  /** The center of the moving box in the sweep's own terms. */
  lemma CenterOffset(start: Vec3, end: Vec3, size: Vec3, origin: Vec3, t: real)
    ensures Sub(Along(start, Sub(end, start), t), origin)
         == (var tw := SweepOf(start, end, size);
             Add(Sub(tw.midpoint, origin), Scale(2.0 * t - 1.0, tw.halfDelta)))
  {
    CenterComponent(start.x, end.x, t);
    CenterComponent(start.y, end.y, t);
    CenterComponent(start.z, end.z, t);
  }

  lemma CenterComponent(s: real, e: real, t: real)
    ensures s + t * (e - s) == 0.5 * (s + e) + (2.0 * t - 1.0) * (0.5 * (e - s))
  {
  }

  lemma BoxesMeetIsAxesMeet(start: Vec3, end: Vec3, size: Vec3, origin: Vec3, halfSize: Vec3)
    requires IsSize(size) && IsSize(halfSize)
    ensures SweptBoxesMeet(start, end, size, origin, halfSize)
       <==> (var tw := SweepOf(start, end, size);
             exists tau :: AxesMeet(Sub(tw.midpoint, origin), tw.halfDelta, Add(size, halfSize), tau))
  {
    var tw := SweepOf(start, end, size);
    hide SweepOf, Along, AxesMeet, InBox, AxisMeets;
    if SweptBoxesMeet(start, end, size, origin, halfSize) {
      var t, p :| InUnit(t) && InBox(p, Along(start, Sub(end, start), t), size) && InBox(p, origin, halfSize);
      BoxesToAxes(start, end, size, origin, halfSize, t, p);
    }
    if tau :| AxesMeet(Sub(tw.midpoint, origin), tw.halfDelta, Add(size, halfSize), tau) {
      AxesToBoxes(start, end, size, origin, halfSize, tau);
    }
  }

  lemma BoxesToAxes(start: Vec3, end: Vec3, size: Vec3, origin: Vec3, halfSize: Vec3, t: real, p: Vec3)
    requires InUnit(t) && InBox(p, Along(start, Sub(end, start), t), size) && InBox(p, origin, halfSize)
    ensures (var tw := SweepOf(start, end, size);
             AxesMeet(Sub(tw.midpoint, origin), tw.halfDelta, Add(size, halfSize), 2.0 * t - 1.0))
  {
    var tw, tau := SweepOf(start, end, size), 2.0 * t - 1.0;
    var d, h, c := Sub(tw.midpoint, origin), tw.halfDelta, Along(start, Sub(end, start), t);
    CenterOffset(start, end, size, origin, t);
    hide SweepOf, Along, AxisMeets, Abs;
    SharedPoint(p.x, c.x, size.x, origin.x, halfSize.x, d.x, h.x, tau);
    SharedPoint(p.y, c.y, size.y, origin.y, halfSize.y, d.y, h.y, tau);
    SharedPoint(p.z, c.z, size.z, origin.z, halfSize.z, d.z, h.z, tau);
  }

  lemma AxesToBoxes(start: Vec3, end: Vec3, size: Vec3, origin: Vec3, halfSize: Vec3, tau: real)
    requires IsSize(size) && IsSize(halfSize)
    requires (var tw := SweepOf(start, end, size);
              AxesMeet(Sub(tw.midpoint, origin), tw.halfDelta, Add(size, halfSize), tau))
    ensures SweptBoxesMeet(start, end, size, origin, halfSize)
  {
    var tw, t := SweepOf(start, end, size), 0.5 * (tau + 1.0);
    var c := Along(start, Sub(end, start), t);
    CenterOffset(start, end, size, origin, t);
    assert 2.0 * t - 1.0 == tau;
    var d, h := Sub(tw.midpoint, origin), tw.halfDelta;
    assert c.x - origin.x == d.x + tau * h.x && c.y - origin.y == d.y + tau * h.y && c.z - origin.z == d.z + tau * h.z;
    hide SweepOf, Along, Abs, AxisMeets;
    var x := PointAtTime(c.x, size.x, origin.x, halfSize.x, d.x, h.x, tau);
    var y := PointAtTime(c.y, size.y, origin.y, halfSize.y, d.y, h.y, tau);
    var z := PointAtTime(c.z, size.z, origin.z, halfSize.z, d.z, h.z, tau);
    assert InUnit(t) && InBox(Vec3(x, y, z), c, size) && InBox(Vec3(x, y, z), origin, halfSize);
  }

  /** Without the axial shortcut the cull is exact: it fires when and only when the boxes never meet. */
  lemma CullIsExact(start: Vec3, end: Vec3, size: Vec3, origin: Vec3, halfSize: Vec3)
    requires IsSize(size) && IsSize(halfSize)
    ensures CullBox(SweepOf(start, end, size), false, origin, halfSize)
       <==> !SweptBoxesMeet(start, end, size, origin, halfSize)
  {
    var tw := SweepOf(start, end, size);
    var d, h, m := Sub(tw.midpoint, origin), tw.halfDelta, Add(size, halfSize);
    CullIsTests(start, end, size, false, origin, halfSize);
    BoxesMeetIsAxesMeet(start, end, size, origin, halfSize);
    hide SweepOf, CullBox, SweptBoxesMeet, AxisTest, CrossTest, AxisMeets;
    if tau :| AxesMeet(d, h, m, tau) {
      MeetsPassesAxis(d.x, h.x, m.x, tau);
      MeetsPassesAxis(d.y, h.y, m.y, tau);
      MeetsPassesAxis(d.z, h.z, m.z, tau);
      MeetsPassesCross(d.y, h.y, m.y, d.z, h.z, m.z, tau);
      MeetsPassesCross(d.z, h.z, m.z, d.x, h.x, m.x, tau);
      MeetsPassesCross(d.x, h.x, m.x, d.y, h.y, m.y, tau);
    }
    if !AxisTests(d, h, m) && !CrossTests(d, h, m) {
      NoSeparationMeets(d, h, m);
    }
  }

  lemma CullIsTests(start: Vec3, end: Vec3, size: Vec3, axialCullOnly: bool, origin: Vec3, halfSize: Vec3)
    ensures CullBox(SweepOf(start, end, size), axialCullOnly, origin, halfSize)
       <==> (var tw := SweepOf(start, end, size);
             var d, h, m := Sub(tw.midpoint, origin), tw.halfDelta, Add(size, halfSize);
             AxisTests(d, h, m) || (!axialCullOnly && CrossTests(d, h, m)))
  {
    var tw := SweepOf(start, end, size);
    assert tw.size == size && tw.halfDeltaAbs == AbsVec(tw.halfDelta);
    CullXIsCross(tw, origin, halfSize);
    CullYIsCross(tw, origin, halfSize);
    CullZIsCross(tw, origin, halfSize);
    hide SweepOf, Sub, Add, Abs, CullX, CullY, CullZ, CrossTest;
  }

  lemma CullXIsCross(tw: Sweep, origin: Vec3, halfSize: Vec3)
    requires tw.halfDeltaAbs == AbsVec(tw.halfDelta)
    ensures (var d, h, m := Sub(tw.midpoint, origin), tw.halfDelta, Add(tw.size, halfSize);
             CullX(tw, origin, halfSize) <==> CrossTest(d.y, h.y, m.y, d.z, h.z, m.z))
  {
    var d, h, m := Sub(tw.midpoint, origin), tw.halfDelta, Add(tw.size, halfSize);
    assert tw.halfDeltaAbs.y == Abs(h.y) && tw.halfDeltaAbs.z == Abs(h.z);
    hide Sub, Add, AbsVec;
  }

  lemma CullYIsCross(tw: Sweep, origin: Vec3, halfSize: Vec3)
    requires tw.halfDeltaAbs == AbsVec(tw.halfDelta)
    ensures (var d, h, m := Sub(tw.midpoint, origin), tw.halfDelta, Add(tw.size, halfSize);
             CullY(tw, origin, halfSize) <==> CrossTest(d.z, h.z, m.z, d.x, h.x, m.x))
  {
    var d, h, m := Sub(tw.midpoint, origin), tw.halfDelta, Add(tw.size, halfSize);
    assert tw.halfDeltaAbs.x == Abs(h.x) && tw.halfDeltaAbs.z == Abs(h.z);
    hide Sub, Add, AbsVec;
    CrossReordered(d.z, h.z, m.z, d.x, h.x, m.x);
  }

  lemma CullZIsCross(tw: Sweep, origin: Vec3, halfSize: Vec3)
    requires tw.halfDeltaAbs == AbsVec(tw.halfDelta)
    ensures (var d, h, m := Sub(tw.midpoint, origin), tw.halfDelta, Add(tw.size, halfSize);
             CullZ(tw, origin, halfSize) <==> CrossTest(d.x, h.x, m.x, d.y, h.y, m.y))
  {
    var d, h, m := Sub(tw.midpoint, origin), tw.halfDelta, Add(tw.size, halfSize);
    assert tw.halfDeltaAbs.x == Abs(h.x) && tw.halfDeltaAbs.y == Abs(h.y);
    hide Sub, Add, AbsVec;
    CrossReordered(d.x, h.x, m.x, d.y, h.y, m.y);
  }

  /** The code writes the products of the second and third test in two other orders. */
  lemma CrossReordered(d1: real, h1: real, m1: real, d2: real, h2: real, m2: real)
    ensures CrossTest(d1, h1, m1, d2, h2, m2) <==> Abs(h2) * m1 + m2 * Abs(h1) < Abs(h1 * d2 - h2 * d1)
    ensures CrossTest(d1, h1, m1, d2, h2, m2) <==> Abs(h2) * m1 + Abs(h1) * m2 < Abs(h1 * d2 - h2 * d1)
  {
  }

  /** With the axial shortcut a cull is still never wrong. */
  lemma AxialCullIsSound(start: Vec3, end: Vec3, size: Vec3, origin: Vec3, halfSize: Vec3)
    requires IsSize(size) && IsSize(halfSize)
    requires CullBox(SweepOf(start, end, size), true, origin, halfSize)
    ensures !SweptBoxesMeet(start, end, size, origin, halfSize)
  {
    CullIsTests(start, end, size, true, origin, halfSize);
    CullIsTests(start, end, size, false, origin, halfSize);
    CullIsExact(start, end, size, origin, halfSize);
  }

  // ---- the axial shortcut ----

  /** At time `t` the moving stretch and the fixed stretch of one axis share the point `p`. */
  predicate SharesAt(start: real, end: real, size: real, origin: real, halfSize: real, t: real, p: real) {
    InUnit(t) && Abs(p - (start + t * (end - start))) <= size && Abs(p - origin) <= halfSize
  }

  ghost predicate AxisShares(start: real, end: real, size: real, origin: real, halfSize: real) {
    exists t, p :: SharesAt(start, end, size, origin, halfSize, t, p)
  }

  /** On every axis, each at a time of its own: the box around the whole motion meets the fixed box. */
  ghost predicate HullsMeet(start: Vec3, end: Vec3, size: Vec3, origin: Vec3, halfSize: Vec3) {
    && AxisShares(start.x, end.x, size.x, origin.x, halfSize.x)
    && AxisShares(start.y, end.y, size.y, origin.y, halfSize.y)
    && AxisShares(start.z, end.z, size.z, origin.z, halfSize.z)
  }

  lemma SharesMeets(start: real, end: real, size: real, origin: real, halfSize: real, t: real, p: real, d: real, h: real)
    requires SharesAt(start, end, size, origin, halfSize, t, p)
    requires d == 0.5 * (start + end) - origin && h == 0.5 * (end - start)
    ensures !AxisTest(d, h, size + halfSize)
  {
    var c, tau := start + t * (end - start), 2.0 * t - 1.0;
    CenterComponent(start, end, t);
    assert c - origin == d + tau * h;
    hide AxisMeets, AxisTest;
    SharedPoint(p, c, size, origin, halfSize, d, h, tau);
    MeetsPassesAxis(d, h, size + halfSize, tau);
  }

  lemma MeetsShares(start: real, end: real, size: real, origin: real, halfSize: real, d: real, h: real)
    requires size >= 0.0 && halfSize >= 0.0 && !AxisTest(d, h, size + halfSize)
    requires d == 0.5 * (start + end) - origin && h == 0.5 * (end - start)
    ensures AxisShares(start, end, size, origin, halfSize)
  {
    var m := size + halfSize;
    EnterLeaveSpan(d, h, m);
    hide AxisTest, Enter, Leave;
    var enter := Enter(d, h, m);
    var tau := if enter < -1.0 then -1.0 else enter;
    MeetsBetween(d, h, m, tau);
    var t := 0.5 * (tau + 1.0);
    hide SharesAt;
    var p := ShareAtTime(start, end, size, origin, halfSize, d, h, tau, t);
  }

  lemma ShareAtTime(start: real, end: real, size: real, origin: real, halfSize: real, d: real, h: real, tau: real, t: real)
    returns (p: real)
    requires size >= 0.0 && halfSize >= 0.0 && InSpan(tau) && AxisMeets(d, h, size + halfSize, tau)
    requires d == 0.5 * (start + end) - origin && h == 0.5 * (end - start) && t == 0.5 * (tau + 1.0)
    ensures SharesAt(start, end, size, origin, halfSize, t, p)
  {
    CenterComponent(start, end, t);
    assert 2.0 * t - 1.0 == tau;
    var c := start + t * (end - start);
    assert c - origin == d + tau * h;
    hide AxisMeets, Abs;
    p := PointAtTime(c, size, origin, halfSize, d, h, tau);
  }

  lemma AxisSharesIff(start: real, end: real, size: real, origin: real, halfSize: real, d: real, h: real, m: real)
    requires size >= 0.0 && halfSize >= 0.0 && m == size + halfSize
    requires d == 0.5 * (start + end) - origin && h == 0.5 * (end - start)
    ensures AxisShares(start, end, size, origin, halfSize) <==> !AxisTest(d, h, m)
  {
    hide AxisTest, SharesAt;
    if t, p :| SharesAt(start, end, size, origin, halfSize, t, p) {
      SharesMeets(start, end, size, origin, halfSize, t, p, d, h);
    }
    if !AxisTest(d, h, m) {
      MeetsShares(start, end, size, origin, halfSize, d, h);
    }
  }

  /** With the axial shortcut the cull fires when and only when the boxes miss each other on some axis throughout. */
  lemma AxialCullIsExact(start: Vec3, end: Vec3, size: Vec3, origin: Vec3, halfSize: Vec3)
    requires IsSize(size) && IsSize(halfSize)
    ensures CullBox(SweepOf(start, end, size), true, origin, halfSize) <==> !HullsMeet(start, end, size, origin, halfSize)
  {
    CullIsTests(start, end, size, true, origin, halfSize);
    var tw := SweepOf(start, end, size);
    var d, h, m := Sub(tw.midpoint, origin), tw.halfDelta, Add(size, halfSize);
    hide CullBox, AxisTest, AxisShares;
    AxisSharesIff(start.x, end.x, size.x, origin.x, halfSize.x, d.x, h.x, m.x);
    AxisSharesIff(start.y, end.y, size.y, origin.y, halfSize.y, d.y, h.y, m.y);
    AxisSharesIff(start.z, end.z, size.z, origin.z, halfSize.z, d.z, h.z, m.z);
  }
}
