/** Clipping a line of sight against a convex brush (CM_SightTraceThroughBrush). */
module SightBrush {
  import opened Vectors
  import opened Clip
  import opened SlabTest

  datatype Plane = Plane(normal: Vec3, dist: real)

  datatype Brush = Brush(mins: Vec3, maxs: Vec3, sides: seq<Plane>, contents: int)

  datatype TraceWork = TraceWork(extents: TraceExtents, radius: real, offsetZ: real, radiusOffset: Vec3)

  class Trace {
    var fraction: real
    var cflags: int
    var sflags: int
  }

  // ---- the expanded brush ----

  /** A side pushed out by the capsule's radius and by its height along the normal. */
  function ExpandedDist(tw: TraceWork, side: Plane): real {
    side.dist + tw.radius + Abs(side.normal.z * tw.offsetZ)
  }

  predicate InExpandedBox(tw: TraceWork, brush: Brush, p: Vec3) {
    InClosedBox(p, Sub(brush.mins, tw.radiusOffset), Add(brush.maxs, tw.radiusOffset))
  }

  ghost predicate InExpandedBrush(tw: TraceWork, brush: Brush, p: Vec3) {
    && InExpandedBox(tw, brush, p)
    && forall side :: side in brush.sides ==> Dot(p, side.normal) <= ExpandedDist(tw, side)
  }

  predicate DeepInExpandedBox(tw: TraceWork, brush: Brush, p: Vec3) {
    var lo, hi := Sub(brush.mins, tw.radiusOffset), Add(brush.maxs, tw.radiusOffset);
    lo.x < p.x < hi.x && lo.y < p.y < hi.y && lo.z < p.z < hi.z
  }

  /** The interior of the expanded brush. */
  ghost predicate DeepInExpandedBrush(tw: TraceWork, brush: Brush, p: Vec3) {
    && DeepInExpandedBox(tw, brush, p)
    && forall side :: side in brush.sides ==> Dot(p, side.normal) < ExpandedDist(tw, side)
  }

  // ---- the expanded brush in terms of the capsule ----

  /** What the trace set-up establishes: the box around the capsule reaches as far as the capsule does on each axis. */
  predicate IsCapsule(tw: TraceWork) {
    && tw.radius >= 0.0 && tw.offsetZ >= 0.0
    && tw.radiusOffset == Vec3(tw.radius, tw.radius, tw.radius + tw.offsetZ)
  }

  /** `q` is within the radius of a point of the capsule's axis, which runs up and down from the center. */
  ghost predicate InCapsule(tw: TraceWork, center: Vec3, q: Vec3) {
    exists h :: -tw.offsetZ <= h <= tw.offsetZ && WithinRadius(tw, Add(center, Vec3(0.0, 0.0, h)), q)
  }

  predicate WithinRadius(tw: TraceWork, c: Vec3, q: Vec3) {
    LengthSquared(Sub(q, c)) <= Square(tw.radius)
  }

  /** The capsule has a point in the closed half-space behind the plane, or in the open one. */
  ghost predicate Touches(tw: TraceWork, center: Vec3, side: Plane) {
    exists q :: InCapsule(tw, center, q) && Dot(q, side.normal) <= side.dist
  }

  ghost predicate Enters(tw: TraceWork, center: Vec3, side: Plane) {
    exists q :: InCapsule(tw, center, q) && Dot(q, side.normal) < side.dist
  }

  /** The brush as the half-spaces of its bounds and its sides. */
  function AllSides(brush: Brush): seq<Plane> {
    [Plane(Vec3(-1.0, 0.0, 0.0), -brush.mins.x), Plane(Vec3(0.0, -1.0, 0.0), -brush.mins.y),
     Plane(Vec3(0.0, 0.0, -1.0), -brush.mins.z), Plane(Vec3(1.0, 0.0, 0.0), brush.maxs.x),
     Plane(Vec3(0.0, 1.0, 0.0), brush.maxs.y), Plane(Vec3(0.0, 0.0, 1.0), brush.maxs.z)] + brush.sides
  }

  predicate HasUnitSides(brush: Brush) {
    forall side :: side in brush.sides ==> LengthSquared(side.normal) == 1.0
  }

  /** The capsule has a point in each of the brush's half-spaces. */
  ghost predicate TouchesAll(tw: TraceWork, brush: Brush, center: Vec3) {
    forall side :: side in AllSides(brush) ==> Touches(tw, center, side)
  }

  ghost predicate EntersAll(tw: TraceWork, brush: Brush, center: Vec3) {
    forall side :: side in AllSides(brush) ==> Enters(tw, center, side)
  }

  /** How far towards a half-space the capsule around `center` reaches: no point of it is farther, and this one is as far. */
  lemma CapsuleReach(tw: TraceWork, center: Vec3, n: Vec3) returns (q: Vec3, reach: real)
    requires tw.radius >= 0.0 && tw.offsetZ >= 0.0 && LengthSquared(n) == 1.0
    ensures reach == tw.radius + Abs(n.z * tw.offsetZ)
    ensures InCapsule(tw, center, q) && Dot(q, n) == Dot(center, n) - reach
    ensures forall x :: InCapsule(tw, center, x) ==> Dot(x, n) >= Dot(center, n) - reach
  {
    reach := tw.radius + Abs(n.z * tw.offsetZ);
    var h := if n.z > 0.0 then -tw.offsetZ else tw.offsetZ;
    var c := Add(center, Vec3(0.0, 0.0, h));
    q := Sub(c, Scale(tw.radius, n));
    AxisEnd(n.z, tw.offsetZ, h);
    ReachedPoint(center, n, h, tw.radius, Abs(n.z * tw.offsetZ), q);
    hide Dot, LengthSquared, Sub, Scale, Add, Abs;
    assert WithinRadius(tw, c, q);
    forall x | InCapsule(tw, center, x)
      ensures Dot(x, n) >= Dot(center, n) - reach
    {
      var g :| -tw.offsetZ <= g <= tw.offsetZ && WithinRadius(tw, Add(center, Vec3(0.0, 0.0, g)), x);
      NoFartherPoint(tw, center, n, g, x);
    }
  }

  lemma AxisEnd(z: real, offset: real, h: real)
    requires offset >= 0.0 && h == if z > 0.0 then -offset else offset
    ensures h * z == -Abs(z * offset)
  {
    if z > 0.0 { ProductNonNegative(z, offset); } else { ProductNonNegative(-z, offset); }
  }

  lemma AlongAxis(z: real, offset: real, g: real)
    requires -offset <= g <= offset
    ensures g * z >= -Abs(z * offset)
  {
    if z > 0.0 {
      ProductNonNegative(z, offset + g);
    } else {
      ProductNonNegative(-z, offset - g);
    }
  }

  lemma ReachedPoint(center: Vec3, n: Vec3, h: real, radius: real, reach: real, q: Vec3)
    requires LengthSquared(n) == 1.0 && h * n.z == -reach
    requires q == Sub(Add(center, Vec3(0.0, 0.0, h)), Scale(radius, n))
    ensures Dot(q, n) == Dot(center, n) - radius - reach
    ensures LengthSquared(Sub(q, Add(center, Vec3(0.0, 0.0, h)))) == Square(radius)
  {
    DotOfPoint(center, n, h, radius);
    LengthOfStep(Add(center, Vec3(0.0, 0.0, h)), n, radius);
    hide Dot, LengthSquared, Sub, Scale, Add;
    assert radius * LengthSquared(n) == radius;
  }

  lemma DotOfPoint(center: Vec3, n: Vec3, h: real, radius: real)
    ensures Dot(Sub(Add(center, Vec3(0.0, 0.0, h)), Scale(radius, n)), n)
         == Dot(center, n) + h * n.z - radius * LengthSquared(n)
  {
  }

  lemma LengthOfStep(c: Vec3, n: Vec3, radius: real)
    requires LengthSquared(n) == 1.0
    ensures LengthSquared(Sub(Sub(c, Scale(radius, n)), c)) == Square(radius)
  {
    var w := Sub(Sub(c, Scale(radius, n)), c);
    assert w == Vec3(-(radius * n.x), -(radius * n.y), -(radius * n.z));
    assert LengthSquared(w) == Square(radius) * LengthSquared(n);
  }

  lemma NoFartherPoint(tw: TraceWork, center: Vec3, n: Vec3, g: real, x: Vec3)
    requires tw.radius >= 0.0 && -tw.offsetZ <= g <= tw.offsetZ && LengthSquared(n) == 1.0
    requires WithinRadius(tw, Add(center, Vec3(0.0, 0.0, g)), x)
    ensures Dot(x, n) >= Dot(center, n) - tw.radius - Abs(n.z * tw.offsetZ)
  {
    var w := Sub(x, Add(center, Vec3(0.0, 0.0, g)));
    DotOfOffset(center, n, g, x);
    AlongAxis(n.z, tw.offsetZ, g);
    CauchySchwarz(n, w);
    hide Dot, LengthSquared, Sub, Add, Abs;
    RootBound(Dot(n, w), tw.radius);
  }

  lemma DotOfOffset(center: Vec3, n: Vec3, g: real, x: Vec3)
    ensures Dot(x, n) == Dot(center, n) + g * n.z + Dot(n, Sub(x, Add(center, Vec3(0.0, 0.0, g))))
  {
  }

  /** Pushing a side out by the expanded distance is asking for a point of the capsule in its half-space. */
  lemma ExpandedIsTouched(tw: TraceWork, center: Vec3, side: Plane)
    requires tw.radius >= 0.0 && tw.offsetZ >= 0.0 && LengthSquared(side.normal) == 1.0
    ensures Touches(tw, center, side) <==> Dot(center, side.normal) <= ExpandedDist(tw, side)
    ensures Enters(tw, center, side) <==> Dot(center, side.normal) < ExpandedDist(tw, side)
  {
    hide *;
    var q, reach := CapsuleReach(tw, center, side.normal);
    ExpandedBy(tw, side, reach);
    TouchesByReach(tw, center, side, q, reach);
  }

  lemma ExpandedBy(tw: TraceWork, side: Plane, reach: real)
    requires reach == tw.radius + Abs(side.normal.z * tw.offsetZ)
    ensures ExpandedDist(tw, side) == side.dist + reach
  {
  }

  lemma TouchesByReach(tw: TraceWork, center: Vec3, side: Plane, q: Vec3, reach: real)
    requires InCapsule(tw, center, q) && Dot(q, side.normal) == Dot(center, side.normal) - reach
    requires forall x :: InCapsule(tw, center, x) ==> Dot(x, side.normal) >= Dot(center, side.normal) - reach
    ensures Touches(tw, center, side) <==> Dot(center, side.normal) <= side.dist + reach
    ensures Enters(tw, center, side) <==> Dot(center, side.normal) < side.dist + reach
  {
    hide Dot, InCapsule;
  }

  function AxisNormal(i: nat): Vec3 {
    if i == 0 then Vec3(1.0, 0.0, 0.0) else if i == 1 then Vec3(0.0, 1.0, 0.0) else Vec3(0.0, 0.0, 1.0)
  }

  function BackNormal(i: nat): Vec3 {
    if i == 0 then Vec3(-1.0, 0.0, 0.0) else if i == 1 then Vec3(0.0, -1.0, 0.0) else Vec3(0.0, 0.0, -1.0)
  }

  lemma NormalProducts(c: Vec3, i: nat)
    requires i < 3
    ensures LengthSquared(AxisNormal(i)) == 1.0 && Dot(c, AxisNormal(i)) == Axis(c, i)
    ensures LengthSquared(BackNormal(i)) == 1.0 && Dot(c, BackNormal(i)) == -Axis(c, i)
  {
  }

  lemma UpwardPart(z: real, offset: real)
    requires offset >= 0.0
    ensures z == 0.0 ==> Abs(z * offset) == 0.0
    ensures z == 1.0 || z == -1.0 ==> Abs(z * offset) == offset
  {
  }

  lemma NormalReach(tw: TraceWork, i: nat, dist: real)
    requires i < 3 && IsCapsule(tw)
    ensures ExpandedDist(tw, Plane(AxisNormal(i), dist)) == dist + Axis(tw.radiusOffset, i)
    ensures ExpandedDist(tw, Plane(BackNormal(i), dist)) == dist + Axis(tw.radiusOffset, i)
  {
    UpwardPart(AxisNormal(i).z, tw.offsetZ);
    UpwardPart(BackNormal(i).z, tw.offsetZ);
    hide Abs;
  }

  lemma CapsuleSizes(tw: TraceWork)
    requires IsCapsule(tw)
    ensures tw.radius >= 0.0 && tw.offsetZ >= 0.0
  {
  }

  lemma BoundIsTouched(tw: TraceWork, center: Vec3, i: nat, lower: real, upper: real)
    requires i < 3 && IsCapsule(tw)
    ensures (var back, front, c, reach := Plane(BackNormal(i), -lower), Plane(AxisNormal(i), upper), Axis(center, i), Axis(tw.radiusOffset, i);
             && (Touches(tw, center, back) <==> lower - reach <= c) && (Enters(tw, center, back) <==> lower - reach < c)
             && (Touches(tw, center, front) <==> c <= upper + reach) && (Enters(tw, center, front) <==> c < upper + reach))
  {
    hide *;
    CapsuleSizes(tw);
    NormalProducts(center, i);
    NormalReach(tw, i, -lower);
    NormalReach(tw, i, upper);
    ExpandedIsTouched(tw, center, Plane(BackNormal(i), -lower));
    ExpandedIsTouched(tw, center, Plane(AxisNormal(i), upper));
  }

  lemma BoundsAreTouched(tw: TraceWork, brush: Brush, center: Vec3)
    requires IsCapsule(tw)
    ensures InExpandedBox(tw, brush, center) <==> forall side :: side in AllSides(brush)[..6] ==> Touches(tw, center, side)
    ensures DeepInExpandedBox(tw, brush, center) <==> forall side :: side in AllSides(brush)[..6] ==> Enters(tw, center, side)
  {
    var s := AllSides(brush);
    assert s[0] == Plane(BackNormal(0), -brush.mins.x) && s[3] == Plane(AxisNormal(0), brush.maxs.x);
    assert s[1] == Plane(BackNormal(1), -brush.mins.y) && s[4] == Plane(AxisNormal(1), brush.maxs.y);
    assert s[2] == Plane(BackNormal(2), -brush.mins.z) && s[5] == Plane(AxisNormal(2), brush.maxs.z);
    hide Touches, Enters, AllSides, IsCapsule, AxisNormal, BackNormal;
    FirstSix(s);
    BoundIsTouched(tw, center, 0, brush.mins.x, brush.maxs.x);
    BoundIsTouched(tw, center, 1, brush.mins.y, brush.maxs.y);
    BoundIsTouched(tw, center, 2, brush.mins.z, brush.maxs.z);
  }

  lemma FirstSix(s: seq<Plane>)
    requires |s| >= 6
    ensures forall side :: side in s[..6] <==> side in {s[0], s[1], s[2], s[3], s[4], s[5]}
  {
    assert s[..6] == [s[0], s[1], s[2], s[3], s[4], s[5]];
  }

  /** The expanded brush holds exactly the centers around which the capsule has a point in each half-space of the brush. */
  lemma ExpandedBrushIsTouched(tw: TraceWork, brush: Brush, center: Vec3)
    requires IsCapsule(tw) && HasUnitSides(brush)
    ensures InExpandedBrush(tw, brush, center) <==> TouchesAll(tw, brush, center)
    ensures DeepInExpandedBrush(tw, brush, center) <==> EntersAll(tw, brush, center)
  {
    BoundsAreTouched(tw, brush, center);
    forall side | side in brush.sides
      ensures Touches(tw, center, side) <==> Dot(center, side.normal) <= ExpandedDist(tw, side)
      ensures Enters(tw, center, side) <==> Dot(center, side.normal) < ExpandedDist(tw, side)
    {
      ExpandedIsTouched(tw, center, side);
    }
    assert AllSides(brush) == AllSides(brush)[..6] + brush.sides;
    hide Touches, Enters, Dot, ExpandedDist, InExpandedBox, DeepInExpandedBox, AllSides;
  }

  // ---- its faces in the order the routine visits them ----

  function AxialFace(tw: TraceWork, bounds: Vec3, sign: real, j: nat): Face
    requires j < 3
  {
    Face((Axis(tw.extents.start, j) - Axis(bounds, j)) * sign - Axis(tw.radiusOffset, j),
         (Axis(tw.extents.end, j) - Axis(bounds, j)) * sign - Axis(tw.radiusOffset, j))
  }

  function AxialFaces(tw: TraceWork, brush: Brush): seq<Face> {
    [AxialFace(tw, brush.mins, -1.0, 0), AxialFace(tw, brush.mins, -1.0, 1), AxialFace(tw, brush.mins, -1.0, 2),
     AxialFace(tw, brush.maxs, 1.0, 0), AxialFace(tw, brush.maxs, 1.0, 1), AxialFace(tw, brush.maxs, 1.0, 2)]
  }

  function SideFace(tw: TraceWork, side: Plane): Face {
    Face(Dot(tw.extents.start, side.normal) - ExpandedDist(tw, side),
         Dot(tw.extents.end, side.normal) - ExpandedDist(tw, side))
  }

  function SideFaces(tw: TraceWork, sides: seq<Plane>): seq<Face> {
    seq(|sides|, i requires 0 <= i < |sides| => SideFace(tw, sides[i]))
  }

  function BrushFaces(tw: TraceWork, brush: Brush): seq<Face> {
    AxialFaces(tw, brush) + SideFaces(tw, brush.sides)
  }

  lemma AxialFaceAt(tw: TraceWork, brush: Brush, j: nat, t: real)
    requires j < 3
    ensures (var p := Axis(PointAt(tw.extents, t), j);
             && AxialFace(tw, brush.mins, -1.0, j).At(t) == Axis(brush.mins, j) - Axis(tw.radiusOffset, j) - p
             && AxialFace(tw, brush.maxs, 1.0, j).At(t) == p - (Axis(brush.maxs, j) + Axis(tw.radiusOffset, j)))
  {
    OffsetFaceAt(Axis(tw.extents.start, j), Axis(tw.extents.end, j), Axis(brush.mins, j), Axis(tw.radiusOffset, j), t);
    OffsetFaceAt(Axis(tw.extents.start, j), Axis(tw.extents.end, j), Axis(brush.maxs, j), Axis(tw.radiusOffset, j), t);
  }

  lemma OffsetFaceAt(s: real, e: real, b: real, r: real, t: real)
    ensures Face((s - b) * -1.0 - r, (e - b) * -1.0 - r).At(t) == b - r - (s + t * (e - s))
    ensures Face((s - b) * 1.0 - r, (e - b) * 1.0 - r).At(t) == s + t * (e - s) - (b + r)
  {
  }

  lemma SideFaceAt(tw: TraceWork, side: Plane, t: real)
    ensures SideFace(tw, side).At(t) == Dot(PointAt(tw.extents, t), side.normal) - ExpandedDist(tw, side)
  {
    var s, e, n, d := tw.extents.start, tw.extents.end, side.normal, ExpandedDist(tw, side);
    DotPointAt(s, e, n, t);
    hide Dot, ExpandedDist, Along, Sub;
    LinearShift(Dot(s, n), Dot(e, n), d, t);
  }

  lemma DotPointAt(s: Vec3, e: Vec3, n: Vec3, t: real)
    ensures Dot(Along(s, Sub(e, s), t), n) == Dot(s, n) + t * (Dot(e, n) - Dot(s, n))
  {
  }

  lemma LinearShift(a: real, b: real, d: real, t: real)
    ensures Face(a - d, b - d).At(t) == a + t * (b - a) - d
  {
  }

  lemma SideFacesAt(tw: TraceWork, sides: seq<Plane>, t: real)
    ensures (forall f :: f in SideFaces(tw, sides) ==> f.At(t) <= 0.0)
       <==> (forall side :: side in sides ==> Dot(PointAt(tw.extents, t), side.normal) <= ExpandedDist(tw, side))
    ensures (forall f :: f in SideFaces(tw, sides) ==> f.At(t) < 0.0)
       <==> (forall side :: side in sides ==> Dot(PointAt(tw.extents, t), side.normal) < ExpandedDist(tw, side))
  {
    var faces := SideFaces(tw, sides);
    hide Face.At, Dot, ExpandedDist, SideFace, PointAt;
    forall i | 0 <= i < |sides|
      ensures faces[i].At(t) == Dot(PointAt(tw.extents, t), sides[i].normal) - ExpandedDist(tw, sides[i])
    {
      SideFaceAt(tw, sides[i], t);
    }
    assert forall side :: side in sides ==> SideFace(tw, side) in faces by {
      forall side | side in sides
        ensures SideFace(tw, side) in faces
      {
        var i :| 0 <= i < |sides| && sides[i] == side;
        assert faces[i] == SideFace(tw, side);
      }
    }
    forall side
      ensures SideFace(tw, side).At(t) == Dot(PointAt(tw.extents, t), side.normal) - ExpandedDist(tw, side)
    {
      SideFaceAt(tw, side, t);
    }
  }

  /** Being inside every face is being in the expanded brush, and likewise for the interior. */
  lemma InsideIsInBrush(tw: TraceWork, brush: Brush, t: real)
    ensures InsideAll(BrushFaces(tw, brush), t) <==> InExpandedBrush(tw, brush, PointAt(tw.extents, t))
    ensures StrictlyInsideAll(BrushFaces(tw, brush), t) <==> DeepInExpandedBrush(tw, brush, PointAt(tw.extents, t))
  {
    InsideParts(AxialFaces(tw, brush), SideFaces(tw, brush.sides), t);
    AxialFacesAt(tw, brush, t);
    SideFacesAt(tw, brush.sides, t);
    hide AxialFaces, PointAt, SideFaces, InExpandedBox, ExpandedDist, Dot;
  }

  lemma InsideParts(front: seq<Face>, back: seq<Face>, t: real)
    ensures InsideAll(front + back, t) <==> InsideAll(front, t) && InsideAll(back, t)
    ensures StrictlyInsideAll(front + back, t) <==> StrictlyInsideAll(front, t) && StrictlyInsideAll(back, t)
  {
    hide Face.At;
    assert forall f :: f in front + back <==> f in front || f in back;
  }

  lemma AxialFacesAt(tw: TraceWork, brush: Brush, t: real)
    ensures InsideAll(AxialFaces(tw, brush), t) <==> InExpandedBox(tw, brush, PointAt(tw.extents, t))
    ensures StrictlyInsideAll(AxialFaces(tw, brush), t)
       <==> DeepInExpandedBox(tw, brush, PointAt(tw.extents, t))
  {
    AxialFaceAt(tw, brush, 0, t);
    AxialFaceAt(tw, brush, 1, t);
    AxialFaceAt(tw, brush, 2, t);
    hide Face.At, AxialFace, PointAt;
    var f := AxialFaces(tw, brush);
    SixInside(f[0], f[1], f[2], f[3], f[4], f[5], t);
    hide InsideAll, StrictlyInsideAll;
  }

  lemma SixInside(f0: Face, f1: Face, f2: Face, f3: Face, f4: Face, f5: Face, t: real)
    ensures InsideAll([f0, f1, f2, f3, f4, f5], t)
       <==> f0.At(t) <= 0.0 && f1.At(t) <= 0.0 && f2.At(t) <= 0.0 && f3.At(t) <= 0.0 && f4.At(t) <= 0.0 && f5.At(t) <= 0.0
    ensures StrictlyInsideAll([f0, f1, f2, f3, f4, f5], t)
       <==> f0.At(t) < 0.0 && f1.At(t) < 0.0 && f2.At(t) < 0.0 && f3.At(t) < 0.0 && f4.At(t) < 0.0 && f5.At(t) < 0.0
  {
    hide Face.At;
    assert forall f :: f in [f0, f1, f2, f3, f4, f5] <==> f in {f0, f1, f2, f3, f4, f5};
  }

  // ---- the routine ----

  /** The reciprocal of the motion along an axis gives the crossing of an offset axial face too. */
  lemma OffsetReciprocal(s: real, e: real, b: real, r: real, sign: real, d1: real, d2: real)
    requires sign == 1.0 || sign == -1.0
    requires d1 == (s - b) * sign - r && d2 == (e - b) * sign - r && d1 != d2
    ensures d1 * Inverse(s - e) * sign == Face(d1, d2).Crossing()
  {
    var b1 := b + r * sign;
    assert (s - b1) * sign == d1 && (e - b1) * sign == d2;
    hide Inverse, Face.Crossing;
    CrossingByReciprocal(s, e, b1, sign);
  }

  lemma AxialReciprocal(tw: TraceWork, bounds: Vec3, sign: real, j: nat, d1: real, d2: real)
    requires j < 3 && tw.extents.Valid() && (sign == 1.0 || sign == -1.0)
    requires AxialFace(tw, bounds, sign, j) == Face(d1, d2) && d1 != d2
    ensures d1 * Axis(tw.extents.invDelta, j) * sign == Face(d1, d2).Crossing()
  {
    var x := tw.extents;
    hide Inverse, Face.Crossing;
    assert Axis(x.invDelta, j) == Inverse(Axis(x.start, j) - Axis(x.end, j));
    hide Axis, TraceExtents.Valid;
    OffsetReciprocal(Axis(x.start, j), Axis(x.end, j), Axis(bounds, j), Axis(tw.radiusOffset, j), sign, d1, d2);
  }

  /** One axial face; `reject` stands for the early return of 0. */
  method ClipAxial(tw: TraceWork, bounds: Vec3, sign: real, j: nat, enterFrac0: real, leaveFrac0: real)
    returns (reject: bool, enterFrac: real, leaveFrac: real)
    requires tw.extents.Valid() && j < 3 && (sign == 1.0 || sign == -1.0)
    ensures ClipFace(AxialFace(tw, bounds, sign, j), Window(enterFrac0, leaveFrac0))
         == if reject then None else Some(Window(enterFrac, leaveFrac))
  {
    hide Inverse, TraceExtents.Valid, CalcTraceExtents;
    reject, enterFrac, leaveFrac := false, enterFrac0, leaveFrac0;
    var d1 := (Axis(tw.extents.start, j) - Axis(bounds, j)) * sign - Axis(tw.radiusOffset, j);
    var d2 := (Axis(tw.extents.end, j) - Axis(bounds, j)) * sign - Axis(tw.radiusOffset, j);
    assert AxialFace(tw, bounds, sign, j) == Face(d1, d2);
    if d1 != d2 {
      AxialReciprocal(tw, bounds, sign, j, d1, d2);
    }
    hide AxialFace, Face.Crossing, Axis;
    if d1 <= 0.0 {
      if d2 > 0.0 {
        var frac := d1 * Axis(tw.extents.invDelta, j) * sign;
        if enterFrac >= frac {
          return true, enterFrac, leaveFrac;
        }
        if frac - leaveFrac < 0.0 {
          leaveFrac := d1 * Axis(tw.extents.invDelta, j) * sign;
        }
      }
    } else {
      if d2 > 0.0 {
        return true, enterFrac, leaveFrac;
      }
      var frac := d1 * Axis(tw.extents.invDelta, j) * sign;
      if frac >= leaveFrac {
        return true, enterFrac, leaveFrac;
      }
      if enterFrac - frac < 0.0 {
        enterFrac := d1 * Axis(tw.extents.invDelta, j) * sign;
      }
    }
  }

  lemma QuotientAgainst(n: real, d: real, k: real)
    requires d != 0.0
    ensures d > 0.0 ==> (n > k * d <==> n / d > k)
    ensures d < 0.0 ==> (n > k * d <==> n / d < k)
  {
    var x := n / d;
    assert d * x == n;
    assert n - k * d == d * (x - k);
    if d > 0.0 && x > k { ProductPositive(d, x - k); }
    if d > 0.0 && x <= k { ProductNonNegative(d, k - x); }
    if d < 0.0 && x < k { ProductPositive(-d, k - x); }
    if d < 0.0 && x >= k { ProductNonNegative(-d, x - k); }
  }

  /** One brush side: the division is postponed until the comparison has been made by multiplying. */
  method ClipSide(tw: TraceWork, side: Plane, enterFrac0: real, leaveFrac0: real)
    returns (reject: bool, enterFrac: real, leaveFrac: real)
    requires enterFrac0 < leaveFrac0
    ensures ClipFace(SideFace(tw, side), Window(enterFrac0, leaveFrac0))
         == if reject then None else Some(Window(enterFrac, leaveFrac))
  {
    reject, enterFrac, leaveFrac := false, enterFrac0, leaveFrac0;
    var dist := side.dist + tw.radius + Abs(side.normal.z * tw.offsetZ);
    var d1 := Dot(tw.extents.start, side.normal) - dist;
    var d2 := Dot(tw.extents.end, side.normal) - dist;
    assert SideFace(tw, side) == Face(d1, d2);
    hide SideFace, Dot, Abs;
    var delta := d1 - d2;
    if delta != 0.0 {
      QuotientAgainst(d1, delta, leaveFrac);
      QuotientAgainst(d1, delta, enterFrac);
      assert Face(d1, d2).Crossing() == d1 / delta;
    }
    hide Face.Crossing;
    if d1 <= 0.0 {
      if d2 > 0.0 {
        if d1 > leaveFrac * delta {
          leaveFrac := d1 / delta;
          if enterFrac >= leaveFrac {
            return true, enterFrac, leaveFrac;
          }
        }
      }
    } else {
      if d2 > 0.0 {
        return true, enterFrac, leaveFrac;
      }
      if d1 > enterFrac * delta {
        enterFrac := d1 / delta;
        if enterFrac >= leaveFrac {
          return true, enterFrac, leaveFrac;
        }
      }
    }
  }

  /** What clipping the whole segment against the faces says about the expanded brush. */
  lemma SightMeaning(tw: TraceWork, brush: Brush)
    ensures var r := ClipAll(BrushFaces(tw, brush), Window(0.0, 1.0));
            && (r.Some? <==> exists t1, t2 :: && 0.0 <= t1 < t2 <= 1.0
                                              && InExpandedBrush(tw, brush, PointAt(tw.extents, t1))
                                              && InExpandedBrush(tw, brush, PointAt(tw.extents, t2)))
            && (r.Some? ==> IsFirstInside(tw, brush, r.value.enter))
            && (r.None? ==> forall t :: 0.0 < t < 1.0 ==> !DeepInExpandedBrush(tw, brush, PointAt(tw.extents, t)))
  {
    var faces, w := BrushFaces(tw, brush), Window(0.0, 1.0);
    hide BrushFaces, PointAt, InExpandedBrush, DeepInExpandedBrush, InsideAll, StrictlyInsideAll, ClipAll;
    ClipAllExact(faces, w);
    forall t
      ensures InsideAll(faces, t) <==> InExpandedBrush(tw, brush, PointAt(tw.extents, t))
      ensures StrictlyInsideAll(faces, t) <==> DeepInExpandedBrush(tw, brush, PointAt(tw.extents, t))
    {
      InsideIsInBrush(tw, brush, t);
    }
    var r := ClipAll(faces, w);
    if r.Some? {
      assert r.value.Has(r.value.enter) && r.value.Has(r.value.leave);
      forall t | 0.0 <= t <= 1.0 && InExpandedBrush(tw, brush, PointAt(tw.extents, t))
        ensures r.value.enter <= t
      {
        assert r.value.Has(t);
      }
    } else {
      forall t | 0.0 < t < 1.0
        ensures !DeepInExpandedBrush(tw, brush, PointAt(tw.extents, t))
      {
        NothingStrictlyInside(faces, t);
      }
    }
  }

  /** `t` is the least fraction of the segment at which it is in the expanded brush. */
  ghost predicate IsFirstInside(tw: TraceWork, brush: Brush, t: real) {
    && 0.0 <= t <= 1.0
    && InExpandedBrush(tw, brush, PointAt(tw.extents, t))
    && forall t1 :: 0.0 <= t1 <= 1.0 && InExpandedBrush(tw, brush, PointAt(tw.extents, t1)) ==> t <= t1
  }

  /** `t` is the least fraction of the segment at which the capsule around its point touches all half-spaces of the brush. */
  ghost predicate IsFirstTouch(tw: TraceWork, brush: Brush, t: real) {
    && 0.0 <= t <= 1.0
    && TouchesAll(tw, brush, PointAt(tw.extents, t))
    && forall t1 :: 0.0 <= t1 <= 1.0 && TouchesAll(tw, brush, PointAt(tw.extents, t1)) ==> t <= t1
  }

  /**
   * Returns brushNum + 1 and the first fraction inside the expanded brush when the segment has more
   * than a single point in it; otherwise returns 0, leaves the trace alone, and no fraction strictly
   * between 0 and 1 is in the brush's interior.
   */
  method SightTraceThroughBrush(tw: TraceWork, brush: Brush, brushNum: nat, trace: Trace) returns (r: nat)
    requires tw.extents.Valid()
    modifies trace
    ensures r == 0 || r == brushNum + 1
    ensures r != 0 <==> exists t1, t2 :: && 0.0 <= t1 < t2 <= 1.0
                                         && InExpandedBrush(tw, brush, PointAt(tw.extents, t1))
                                         && InExpandedBrush(tw, brush, PointAt(tw.extents, t2))
    ensures r != 0 ==> IsFirstInside(tw, brush, trace.fraction) && trace.cflags == brush.contents && trace.sflags == 0
    ensures r == 0 ==> unchanged(trace)
    ensures r == 0 ==> forall t :: 0.0 < t < 1.0 ==> !DeepInExpandedBrush(tw, brush, PointAt(tw.extents, t))
    ensures IsCapsule(tw) && HasUnitSides(brush) ==>
              && (r != 0 <==> exists t1, t2 :: && 0.0 <= t1 < t2 <= 1.0 && TouchesAll(tw, brush, PointAt(tw.extents, t1))
                                               && TouchesAll(tw, brush, PointAt(tw.extents, t2)))
              && (r != 0 ==> IsFirstTouch(tw, brush, trace.fraction))
              && (r == 0 ==> forall t :: 0.0 < t < 1.0 ==> !EntersAll(tw, brush, PointAt(tw.extents, t)))
  {
    SightMeaning(tw, brush);
    hide IsCapsule, HasUnitSides, TouchesAll, EntersAll, InExpandedBrush, DeepInExpandedBrush, PointAt, ClipAll, BrushFaces, AxialFaces;
    if IsCapsule(tw) && HasUnitSides(brush) {
      forall t
        ensures InExpandedBrush(tw, brush, PointAt(tw.extents, t)) <==> TouchesAll(tw, brush, PointAt(tw.extents, t))
        ensures DeepInExpandedBrush(tw, brush, PointAt(tw.extents, t)) <==> EntersAll(tw, brush, PointAt(tw.extents, t))
      {
        ExpandedBrushIsTouched(tw, brush, PointAt(tw.extents, t));
      }
    }
    var reject, enterFrac, leaveFrac := ClipAxialFaces(tw, brush);
    if !reject {
      reject, enterFrac, leaveFrac := ClipSides(tw, brush, enterFrac, leaveFrac);
    }
    if reject {
      return 0;
    }
    trace.cflags := brush.contents;
    trace.fraction := enterFrac;
    trace.sflags := 0;
    return brushNum + 1;
  }

  lemma PartsOfBrush(tw: TraceWork, brush: Brush)
    ensures |BrushFaces(tw, brush)| == 6 + |brush.sides|
    ensures BrushFaces(tw, brush)[..6] == AxialFaces(tw, brush)
    ensures forall i :: 0 <= i < |brush.sides| ==> BrushFaces(tw, brush)[6 + i] == SideFace(tw, brush.sides[i])
  {
    hide SideFace, AxialFace;
  }

  /** The loop over the brush's sides, taking up where the axial faces left off. */
  method ClipSides(tw: TraceWork, brush: Brush, enterFrac0: real, leaveFrac0: real)
    returns (reject: bool, enterFrac: real, leaveFrac: real)
    requires ClipAll(AxialFaces(tw, brush), Window(0.0, 1.0)) == Some(Window(enterFrac0, leaveFrac0))
    ensures ClipAll(BrushFaces(tw, brush), Window(0.0, 1.0))
         == if reject then None else Some(Window(enterFrac, leaveFrac))
  {
    hide *;
    ghost var faces, w0 := BrushFaces(tw, brush), Window(0.0, 1.0);
    PartsOfBrush(tw, brush);
    enterFrac, leaveFrac := enterFrac0, leaveFrac0;
    var i := 0;
    while i < |brush.sides|
      invariant i <= |brush.sides|
      invariant ClipAll(faces[..6 + i], w0) == Some(Window(enterFrac, leaveFrac))
    {
      ClipAllExact(faces[..6 + i], w0);
      reject, enterFrac, leaveFrac := ClipSide(tw, brush.sides[i], enterFrac, leaveFrac);
      ClipAllNext(faces, 6 + i, w0);
      if reject {
        ClipAllPrefix(faces, 6 + i + 1, w0);
        return true, enterFrac, leaveFrac;
      }
      i := i + 1;
    }
    assert faces[..6 + i] == faces;
    reject := false;
  }

  lemma RejectedAt(tw: TraceWork, brush: Brush, k: nat)
    requires k <= 6 && ClipAll(AxialFaces(tw, brush)[..k], Window(0.0, 1.0)).None?
    ensures ClipAll(AxialFaces(tw, brush), Window(0.0, 1.0)).None?
    ensures ClipAll(BrushFaces(tw, brush), Window(0.0, 1.0)).None?
  {
    PartsOfBrush(tw, brush);
    hide ClipAll, AxialFace, BrushFaces;
    ClipAllPrefix(AxialFaces(tw, brush), k, Window(0.0, 1.0));
    ClipAllPrefix(BrushFaces(tw, brush), 6, Window(0.0, 1.0));
  }

  /** The two passes over the bounds, three axes each. */
  method ClipAxialFaces(tw: TraceWork, brush: Brush) returns (reject: bool, enterFrac: real, leaveFrac: real)
    requires tw.extents.Valid()
    ensures reject ==> ClipAll(BrushFaces(tw, brush), Window(0.0, 1.0)).None?
    ensures ClipAll(AxialFaces(tw, brush), Window(0.0, 1.0))
         == if reject then None else Some(Window(enterFrac, leaveFrac))
  {
    ghost var faces, w0 := AxialFaces(tw, brush), Window(0.0, 1.0);
    assert ClipAll(faces[..0], w0) == Some(w0);
    hide ClipAll, ClipFace, AxialFace, TraceExtents.Valid, BrushFaces;
    enterFrac, leaveFrac := 0.0, 1.0;
    var sign, bounds := -1.0, brush.mins;
    for index := 0 to 2
      invariant if index == 0 then sign == -1.0 && bounds == brush.mins else sign == 1.0 && bounds == brush.maxs
      invariant ClipAll(faces[..3 * index], w0) == Some(Window(enterFrac, leaveFrac))
    {
      for j := 0 to 3
        invariant ClipAll(faces[..3 * index + j], w0) == Some(Window(enterFrac, leaveFrac))
      {
        reject, enterFrac, leaveFrac := ClipAxial(tw, bounds, sign, j, enterFrac, leaveFrac);
        ClipAllNext(faces, 3 * index + j, w0);
        if reject {
          RejectedAt(tw, brush, 3 * index + j + 1);
          return true, enterFrac, leaveFrac;
        }
      }
      sign, bounds := 1.0, brush.maxs;
    }
    assert faces[..6] == faces;
    reject := false;
  }
}
