/** Sending a swept box down a tree of splitting planes (CM_TraceThroughTree). */
module BspDescent {
  import opened Vectors
  import Slab = SlabTest

  /** `kind` 0, 1, 2 is a plane across that axis; anything larger is a general plane. */
  datatype Plane = Plane(normal: Vec3, dist: real, kind: nat) {
    /** The normal is of unit length, and along its axis if the kind says so. */
    predicate Valid() {
      match kind
      case 0 => normal == Vec3(1.0, 0.0, 0.0)
      case 1 => normal == Vec3(0.0, 1.0, 0.0)
      case 2 => normal == Vec3(0.0, 0.0, 1.0)
      case _ => LengthSquared(normal) == 1.0
    }

    /** The closed half-spaces that the plane bounds. */
    predicate InFront(x: Vec3) { Dot(normal, x) >= dist }
    predicate Behind(x: Vec3) { Dot(normal, x) <= dist }
  }

  /** A child is a node index, or -1 - n for leaf n. */
  datatype Node = Node(plane: Plane, front: int, back: int)

  /** A point of the segment together with its trace fraction. */
  datatype Point4 = Point4(pos: Vec3, f: real)

  datatype TraceWork = TraceWork(size: Vec3, isPoint: bool, boundingRadius: real) {
    /** What the trace set-up establishes: the radius is the length of the half-size vector. */
    predicate Valid() {
      && size.x >= 0.0 && size.y >= 0.0 && size.z >= 0.0
      && boundingRadius >= 0.0 && Square(boundingRadius) == LengthSquared(size)
      && (isPoint <==> size.x + size.y + size.z == 0.0)
    }
  }

  function PlaneDistance(plane: Plane, p: Vec3): real {
    if plane.kind >= 3 then Dot(plane.normal, p) - plane.dist else Slab.Axis(p, plane.kind) - plane.dist
  }

  function Offset(tw: TraceWork, plane: Plane): real {
    if plane.kind >= 3 then (if tw.isPoint then 0.125 else 0.125 + tw.boundingRadius)
    else Slab.Axis(tw.size, plane.kind) + 0.125
  }

  function Towards(p1: Point4, p2: Point4, k: real): Point4 {
    Point4(Vec3(Mix(p1.pos.x, p2.pos.x, k), Mix(p1.pos.y, p2.pos.y, k), Mix(p1.pos.z, p2.pos.z, k)),
           Mix(p1.f, p2.f, k))
  }

  function Min(a: real, b: real): real { if a < b then a else b }
  function Max(a: real, b: real): real { if a > b then a else b }

  // ---- the specification ----

  ghost predicate OnSegment(q: Point4, p1: Point4, p2: Point4) {
    exists k :: InUnit(k) && q == Towards(p1, p2, k)
  }

  datatype Tree = Tree(nodes: seq<Node>, ghost rank: seq<nat>) {
    ghost predicate IsRef(num: int) { num < |nodes| }

    ghost function Rank(num: int): nat
      requires |rank| == |nodes| && IsRef(num)
    {
      if num < 0 then 0 else rank[num] + 1
    }

    /** Children are in range and rank below their parent. */
    ghost predicate Valid() {
      && |rank| == |nodes|
      && forall i :: 0 <= i < |nodes| ==>
           && IsRef(nodes[i].front) && Rank(nodes[i].front) < Rank(i)
           && IsRef(nodes[i].back) && Rank(nodes[i].back) < Rank(i)
           && nodes[i].plane.Valid()
    }

    /** The closed cell of `leaf` below `num` contains `x`; a point on a plane is in both halves. */
    ghost predicate InLeaf(x: Vec3, num: int, leaf: nat)
      requires Valid() && IsRef(num)
      decreases Rank(num)
    {
      if num < 0 then leaf == -1 - num
      else
        || (nodes[num].plane.InFront(x) && InLeaf(x, nodes[num].front, leaf))
        || (nodes[num].plane.Behind(x) && InLeaf(x, nodes[num].back, leaf))
    }
  }

  /** What the routine computes, shortcut for axial planes included, tells the half-spaces apart. */
  lemma DistanceTellsSide(plane: Plane, x: Vec3)
    requires plane.Valid()
    ensures PlaneDistance(plane, x) >= 0.0 <==> plane.InFront(x)
    ensures PlaneDistance(plane, x) <= 0.0 <==> plane.Behind(x)
  {
  }

  // ---- how far a box point can be from the plane that its center is measured against ----

  lemma GeneralMargin(n: Vec3, w: Vec3, size: Vec3, radius: real)
    requires LengthSquared(n) == 1.0
    requires Abs(w.x) <= size.x && Abs(w.y) <= size.y && Abs(w.z) <= size.z
    requires radius >= 0.0 && Square(radius) == LengthSquared(size)
    ensures -radius <= Dot(n, w) <= radius
  {
    var d := Dot(n, w);
    CauchySchwarz(n, w);
    assert LengthSquared(w) <= LengthSquared(size) by {
      SquareBound(w.x, size.x);
      SquareBound(w.y, size.y);
      SquareBound(w.z, size.z);
    }
    hide Dot, LengthSquared;
    assert Square(d) <= Square(radius);
    RootBound(d, radius);
  }

  lemma SquareBound(w: real, s: real)
    requires Abs(w) <= s
    ensures w * w <= s * s
  {
    ProductNonNegative(s - w, s + w);
    assert (s - w) * (s + w) == s * s - w * w;
  }

  /** A point of the box is never farther from the plane than its center by more than the offset less 1/8. */
  lemma Margin(tw: TraceWork, plane: Plane, x: Vec3, center: Vec3)
    requires tw.Valid() && InBox(x, center, tw.size)
    requires plane.Valid()
    ensures Offset(tw, plane) >= 0.125
    ensures Abs(PlaneDistance(plane, x) - PlaneDistance(plane, center)) <= Offset(tw, plane) - 0.125
  {
    if plane.kind >= 3 {
      var w := Sub(x, center);
      GeneralMargin(plane.normal, w, tw.size, tw.boundingRadius);
      DotDifference(plane.normal, x, center);
      if tw.isPoint {
        assert x == center;
      }
    }
  }

  lemma OffsetPositive(tw: TraceWork, plane: Plane)
    requires tw.Valid()
    ensures Offset(tw, plane) > 0.0
  {
  }

  lemma DotDifference(n: Vec3, a: Vec3, b: Vec3)
    ensures Dot(n, Sub(a, b)) == Dot(n, a) - Dot(n, b)
  {
  }

  lemma MixShift(a: real, a': real, d: real, k: real)
    ensures Mix(a, a', k) - d == Mix(a - d, a' - d, k)
  {
  }

  lemma DotTowards(n: Vec3, p1: Point4, p2: Point4, k: real)
    ensures Dot(n, Towards(p1, p2, k).pos) == Mix(Dot(n, p1.pos), Dot(n, p2.pos), k)
  {
  }

  lemma AxisTowards(i: nat, p1: Point4, p2: Point4, k: real)
    requires i < 3
    ensures Slab.Axis(Towards(p1, p2, k).pos, i) == Mix(Slab.Axis(p1.pos, i), Slab.Axis(p2.pos, i), k)
  {
    hide Mix;
  }

  /** The plane distance varies linearly along the segment. */
  lemma DistanceTowards(plane: Plane, p1: Point4, p2: Point4, k: real)
    ensures PlaneDistance(plane, Towards(p1, p2, k).pos)
         == Mix(PlaneDistance(plane, p1.pos), PlaneDistance(plane, p2.pos), k)
  {
    hide Mix, Towards, Dot, Slab.Axis;
    if plane.kind >= 3 {
      DotTowards(plane.normal, p1, p2, k);
      MixShift(Dot(plane.normal, p1.pos), Dot(plane.normal, p2.pos), plane.dist, k);
    } else {
      AxisTowards(plane.kind, p1, p2, k);
      MixShift(Slab.Axis(p1.pos, plane.kind), Slab.Axis(p2.pos, plane.kind), plane.dist, k);
    }
  }

  // ---- the parts of a segment ----

  lemma PartBefore(p1: Point4, p2: Point4, k: real, frac: real)
    requires InUnit(k) && k <= frac <= 1.0
    ensures OnSegment(Towards(p1, p2, k), p1, Towards(p1, p2, frac))
  {
    var m := if frac == 0.0 then 0.0 else k / frac;
    if frac != 0.0 { UnitQuotient(k, frac); }
    assert k == m * frac;
    Nested(p1, p2, m, frac, k);
  }

  lemma PartAfter(p1: Point4, p2: Point4, k: real, frac: real)
    requires InUnit(k) && 0.0 <= frac <= k
    ensures OnSegment(Towards(p1, p2, k), Towards(p1, p2, frac), p2)
  {
    var m := if frac == 1.0 then 0.0 else (k - frac) / (1.0 - frac);
    if frac != 1.0 { UnitQuotient(k - frac, 1.0 - frac); }
    assert k == frac + m * (1.0 - frac);
    NestedAfter(p1, p2, m, frac, k);
  }

  lemma UnitQuotient(a: real, b: real)
    requires 0.0 <= a <= b && b > 0.0
    ensures InUnit(a / b) && (a / b) * b == a
  {
  }

  lemma Nested(p1: Point4, p2: Point4, m: real, frac: real, k: real)
    requires InUnit(m) && k == m * frac
    ensures Towards(p1, p2, k) == Towards(p1, Towards(p1, p2, frac), m)
    ensures OnSegment(Towards(p1, p2, k), p1, Towards(p1, p2, frac))
  {
    hide Mix;
    NestedLerp(p1.pos.x, p2.pos.x, m, frac, k);
    NestedLerp(p1.pos.y, p2.pos.y, m, frac, k);
    NestedLerp(p1.pos.z, p2.pos.z, m, frac, k);
    NestedLerp(p1.f, p2.f, m, frac, k);
    assert Towards(p1, p2, k) == Towards(p1, Towards(p1, p2, frac), m);
  }

  lemma NestedLerp(a: real, b: real, m: real, frac: real, k: real)
    requires k == m * frac
    ensures Mix(a, b, k) == Mix(a, Mix(a, b, frac), m)
  {
    assert (b - a) * (m * frac) == (b - a) * frac * m;
  }

  lemma NestedAfter(p1: Point4, p2: Point4, m: real, frac: real, k: real)
    requires InUnit(m) && k == frac + m * (1.0 - frac)
    ensures Towards(p1, p2, k) == Towards(Towards(p1, p2, frac), p2, m)
    ensures OnSegment(Towards(p1, p2, k), Towards(p1, p2, frac), p2)
  {
    hide Mix;
    NestedLerpAfter(p1.pos.x, p2.pos.x, m, frac, k);
    NestedLerpAfter(p1.pos.y, p2.pos.y, m, frac, k);
    NestedLerpAfter(p1.pos.z, p2.pos.z, m, frac, k);
    NestedLerpAfter(p1.f, p2.f, m, frac, k);
    assert Towards(p1, p2, k) == Towards(Towards(p1, p2, frac), p2, m);
  }

  lemma NestedLerpAfter(a: real, b: real, m: real, frac: real, k: real)
    requires k == frac + m * (1.0 - frac)
    ensures Mix(a, b, k) == Mix(Mix(a, b, frac), b, m)
  {
    assert (b - a) * (frac + m * (1.0 - frac)) == (b - a) * frac + (b - a) * (m * (1.0 - frac));
    assert (b - Mix(a, b, frac)) == (b - a) * (1.0 - frac);
    assert (b - a) * (1.0 - frac) * m == (b - a) * (m * (1.0 - frac));
  }

  // ---- one node ----

  /** The fractions of the segment at which the two children take over, as the routine computes them. */
  datatype Split = Split(near: real, far: real, frontFirst: bool)

  const EPSILON := 0.00000047683716

  function SplitAt(t1: real, t2: real, offset: real): Split {
    var diff := t2 - t1;
    var absDiff := Abs(diff);
    if absDiff <= EPSILON then Split(1.0, 0.0, true)
    else if diff < 0.0 then
      Split((t1 + offset) * (1.0 / absDiff), (t1 - offset) * (1.0 / absDiff), true)
    else
      Split((-t1 + offset) * (1.0 / absDiff), (-t1 - offset) * (1.0 / absDiff), false)
  }

  lemma ReciprocalBound(n: real, d: real, k: real)
    requires d > 0.0
    ensures k * d <= n <==> k <= n * (1.0 / d)
    ensures k * d >= n <==> k >= n * (1.0 / d)
  {
    var r := 1.0 / d;
    var q := n * r;
    assert d * r == 1.0;
    assert d * (n * r) == n * (d * r);
    assert d * q == n;
    assert d * (q - k) == n - k * d;
    if k <= q { ProductNonNegative(d, q - k); }
    if k > q { ProductPositive(d, k - q); }
    if k >= q { ProductNonNegative(d, k - q); }
    if k < q { ProductPositive(d, q - k); }
  }

  /** The two assertions of the routine, over the reals. */
  lemma SplitAsserts(t1: real, t2: real, offset: real)
    requires offset > 0.0 && Min(t2, t1) < offset && -offset < Max(t1, t2)
    ensures SplitAt(t1, t2, offset).near >= 0.0 && SplitAt(t1, t2, offset).far <= 1.0
  {
    var d := Abs(t2 - t1);
    if d > EPSILON {
      if t2 < t1 {
        ReciprocalBound(t1 + offset, d, 0.0);
        ReciprocalBound(t1 - offset, d, 1.0);
      } else {
        ReciprocalBound(-t1 + offset, d, 0.0);
        ReciprocalBound(-t1 - offset, d, 1.0);
      }
    }
  }

  /** A center that is not behind the plane by more than the offset is in the stretch the front child gets. */
  lemma SplitCovers(t1: real, t2: real, offset: real, k: real)
    requires InUnit(k)
    ensures (var s := SplitAt(t1, t2, offset);
             && (Mix(t1, t2, k) >= -offset ==> if s.frontFirst then k <= s.near else k >= s.far)
             && (Mix(t1, t2, k) <= offset ==> if s.frontFirst then k >= s.far else k <= s.near))
  {
    var d := Abs(t2 - t1);
    if d > EPSILON {
      if t2 < t1 {
        assert k * (t2 - t1) == -(k * d);
        ReciprocalBound(t1 + offset, d, k);
        ReciprocalBound(t1 - offset, d, k);
      } else {
        ReciprocalBound(-t1 + offset, d, k);
        ReciprocalBound(-t1 - offset, d, k);
      }
    }
  }

  /** The box centered at segment point `q` has a point `x` in the cell of `leaf` below `num`. */
  ghost predicate Sees(tree: Tree, tw: TraceWork, num: int, p1: Point4, p2: Point4, q: Point4, x: Vec3, leaf: nat)
    requires tree.Valid() && tree.IsRef(num)
  {
    OnSegment(q, p1, p2) && InBox(x, q.pos, tw.size) && tree.InLeaf(x, num, leaf)
  }

  lemma CenterDistance(tree: Tree, tw: TraceWork, num: nat, p1: Point4, p2: Point4, q: Point4, x: Vec3, leaf: nat)
    returns (k: real, d: real)
    requires tree.Valid() && num < |tree.nodes| && tw.Valid() && Sees(tree, tw, num, p1, p2, q, x, leaf)
    ensures InUnit(k) && q == Towards(p1, p2, k)
    ensures d >= 0.0 <==> tree.nodes[num].plane.InFront(x)
    ensures d <= 0.0 <==> tree.nodes[num].plane.Behind(x)
    ensures Offset(tw, tree.nodes[num].plane) >= 0.125
    ensures var plane := tree.nodes[num].plane;
            var t1, t2 := PlaneDistance(plane, p1.pos), PlaneDistance(plane, p2.pos);
            Abs(d - Mix(t1, t2, k)) <= Offset(tw, plane) - 0.125
  {
    hide PlaneDistance, Offset, Towards, Mix, Abs, InBox;
    k :| InUnit(k) && q == Towards(p1, p2, k);
    var plane := tree.nodes[num].plane;
    d := PlaneDistance(plane, x);
    DistanceTellsSide(plane, x);
    hide Plane.InFront, Plane.Behind;
    DistanceTowards(plane, p1, p2, k);
    Margin(tw, plane, x, q.pos);
  }

  lemma BetweenEnds(t1: real, t2: real, k: real)
    requires InUnit(k)
    ensures Min(t2, t1) <= Mix(t1, t2, k) <= Max(t1, t2)
  {
    if t1 <= t2 {
      ProductNonNegative(k, t2 - t1);
      ProductNonNegative(1.0 - k, t2 - t1);
    } else {
      ProductNonNegative(k, t1 - t2);
      ProductNonNegative(1.0 - k, t1 - t2);
    }
  }

  /** A segment wholly on one side of a plane, by the offset, concerns only that side's child. */
  lemma OneSided(tree: Tree, tw: TraceWork, num: nat, p1: Point4, p2: Point4, q: Point4, x: Vec3, leaf: nat)
    requires tree.Valid() && num < |tree.nodes| && tw.Valid() && Sees(tree, tw, num, p1, p2, q, x, leaf)
    ensures var node := tree.nodes[num];
            var t1, t2 := PlaneDistance(node.plane, p1.pos), PlaneDistance(node.plane, p2.pos);
            && (Min(t2, t1) >= Offset(tw, node.plane) ==> Sees(tree, tw, node.front, p1, p2, q, x, leaf))
            && (Max(t1, t2) <= -Offset(tw, node.plane) ==> Sees(tree, tw, node.back, p1, p2, q, x, leaf))
  {
    hide PlaneDistance, Offset, Towards, OnSegment, InBox, Min, Max, Mix, Plane.InFront, Plane.Behind;
    var plane := tree.nodes[num].plane;
    var k, d := CenterDistance(tree, tw, num, p1, p2, q, x, leaf);
    BetweenEnds(PlaneDistance(plane, p1.pos), PlaneDistance(plane, p2.pos), k);
  }

  /** A segment near the plane: whatever it sees is seen from the stretch handed to one of the children. */
  lemma BothSided(tree: Tree, tw: TraceWork, num: nat, p1: Point4, p2: Point4, q: Point4, x: Vec3, leaf: nat)
    requires tree.Valid() && num < |tree.nodes| && tw.Valid() && Sees(tree, tw, num, p1, p2, q, x, leaf)
    requires (var plane := tree.nodes[num].plane;
              var t1, t2 := PlaneDistance(plane, p1.pos), PlaneDistance(plane, p2.pos);
              Min(t2, t1) < Offset(tw, plane) && -Offset(tw, plane) < Max(t1, t2))
    ensures (var node := tree.nodes[num];
             var s := SplitAt(PlaneDistance(node.plane, p1.pos), PlaneDistance(node.plane, p2.pos), Offset(tw, node.plane));
             var near, far := if s.frontFirst then node.front else node.back, if s.frontFirst then node.back else node.front;
             || Sees(tree, tw, near, p1, Towards(p1, p2, Min(s.near, 1.0)), q, x, leaf)
             || Sees(tree, tw, far, Towards(p1, p2, Max(s.far, 0.0)), p2, q, x, leaf))
  {
    hide PlaneDistance, Offset, Towards, OnSegment, InBox, SplitAt, Mix, Plane.InFront, Plane.Behind;
    var node := tree.nodes[num];
    var t1, t2, offset := PlaneDistance(node.plane, p1.pos), PlaneDistance(node.plane, p2.pos), Offset(tw, node.plane);
    var s := SplitAt(t1, t2, offset);
    var k, d := CenterDistance(tree, tw, num, p1, p2, q, x, leaf);
    SplitCovers(t1, t2, offset, k);
    SplitAsserts(t1, t2, offset);
    var inFront := d >= 0.0 && tree.InLeaf(x, node.front, leaf);
    if s.frontFirst == inFront {
      PartBefore(p1, p2, k, Min(s.near, 1.0));
    } else {
      PartAfter(p1, p2, k, Max(s.far, 0.0));
    }
  }

  // ---- no leaf out of reach ----

  /** How far from a half-space the center of the box may be for it to be looked into. */
  function Reach(tw: TraceWork, plane: Plane): real {
    0.125 + EPSILON + if plane.kind < 3 then Dot(plane.normal, tw.size) else tw.boundingRadius
  }

  /** The point is within reach of every half-space on the way down to the leaf. */
  ghost predicate Near(tree: Tree, tw: TraceWork, x: Vec3, num: int, leaf: nat)
    requires tree.Valid() && tree.IsRef(num)
    decreases tree.Rank(num)
  {
    if num < 0 then leaf == -1 - num
    else
      var node := tree.nodes[num];
      var d, reach := Dot(node.plane.normal, x) - node.plane.dist, Reach(tw, node.plane);
      (d >= -reach && Near(tree, tw, x, node.front, leaf)) || (d <= reach && Near(tree, tw, x, node.back, leaf))
  }

  /** Some center on the segment is near the leaf. */
  ghost predicate LeadsTo(tree: Tree, tw: TraceWork, num: int, p1: Point4, p2: Point4, leaf: nat)
    requires tree.Valid() && tree.IsRef(num)
  {
    exists q :: OnSegment(q, p1, p2) && Near(tree, tw, q.pos, num, leaf)
  }

  lemma OffsetIsReach(tw: TraceWork, plane: Plane, x: Vec3)
    requires plane.Valid() && tw.Valid()
    ensures Offset(tw, plane) + EPSILON <= Reach(tw, plane)
    ensures PlaneDistance(plane, x) == Dot(plane.normal, x) - plane.dist
  {
  }

  /** What a child is handed of the segment stays within reach of that child's half-space. */
  lemma StretchStaysNear(t1: real, t2: real, offset: real, k: real)
    requires InUnit(k) && Min(t2, t1) < offset && -offset < Max(t1, t2)
    ensures (var s, t := SplitAt(t1, t2, offset), Mix(t1, t2, k);
             && (k <= Min(s.near, 1.0) ==> if s.frontFirst then t >= -offset - EPSILON else t <= offset + EPSILON)
             && (k >= Max(s.far, 0.0) ==> if s.frontFirst then t <= offset + EPSILON else t >= -offset - EPSILON))
  {
    var d, s := Abs(t2 - t1), SplitAt(t1, t2, offset);
    MixByDistance(t1, t2, k);
    if d <= EPSILON {
      BetweenEnds(t1, t2, k);
      hide Mix;
    } else if t2 < t1 {
      assert s.near == (t1 + offset) * (1.0 / d) && s.far == (t1 - offset) * (1.0 / d);
      hide Mix, SplitAt;
      FallingReach(t1, d, offset, k, Mix(t1, t2, k), s.near, s.far);
    } else {
      assert s.near == (-t1 + offset) * (1.0 / d) && s.far == (-t1 - offset) * (1.0 / d);
      hide Mix, SplitAt;
      FallingReach(-t1, d, offset, k, -Mix(t1, t2, k), s.near, s.far);
    }
  }

  lemma MixByDistance(t1: real, t2: real, k: real)
    ensures Mix(t1, t2, k) == if t2 < t1 then t1 - k * Abs(t2 - t1) else t1 + k * Abs(t2 - t1)
  {
  }

  lemma FallingReach(t1: real, d: real, offset: real, k: real, t: real, near: real, far: real)
    requires d > 0.0 && t == t1 - k * d
    requires near == (t1 + offset) * (1.0 / d) && far == (t1 - offset) * (1.0 / d)
    ensures k <= near ==> t >= -offset
    ensures k >= far ==> t <= offset
  {
    ReciprocalBound(t1 + offset, d, k);
    ReciprocalBound(t1 - offset, d, k);
  }

  /** A center within reach of the child's half-space that is near the leaf from the child is near it from the node. */
  lemma NearFromChild(tree: Tree, tw: TraceWork, num: nat, p1: Point4, p2: Point4, k: real, leaf: nat)
    requires tree.Valid() && num < |tree.nodes| && tw.Valid() && InUnit(k)
    ensures (var node, q := tree.nodes[num], Towards(p1, p2, k);
             var t := Mix(PlaneDistance(node.plane, p1.pos), PlaneDistance(node.plane, p2.pos), k);
             var offset := Offset(tw, node.plane);
             && (t >= -offset - EPSILON && Near(tree, tw, q.pos, node.front, leaf) ==> LeadsTo(tree, tw, num, p1, p2, leaf))
             && (t <= offset + EPSILON && Near(tree, tw, q.pos, node.back, leaf) ==> LeadsTo(tree, tw, num, p1, p2, leaf)))
  {
    var plane, q := tree.nodes[num].plane, Towards(p1, p2, k);
    OffsetIsReach(tw, plane, q.pos);
    DistanceTowards(plane, p1, p2, k);
    hide PlaneDistance, Offset, Reach, Towards, Mix, Dot;
    assert OnSegment(q, p1, p2);
    hide OnSegment;
  }

  /** A leaf that the part handed to a child leads to, the whole segment leads to. */
  lemma LeadsUp(tree: Tree, tw: TraceWork, num: nat, p1: Point4, p2: Point4, leaf: nat)
    requires tree.Valid() && num < |tree.nodes| && tw.Valid()
    ensures (var node := tree.nodes[num];
             var t1, t2, offset := PlaneDistance(node.plane, p1.pos), PlaneDistance(node.plane, p2.pos), Offset(tw, node.plane);
             && (Min(t2, t1) >= offset && LeadsTo(tree, tw, node.front, p1, p2, leaf) ==> LeadsTo(tree, tw, num, p1, p2, leaf))
             && (Max(t1, t2) <= -offset && LeadsTo(tree, tw, node.back, p1, p2, leaf) ==> LeadsTo(tree, tw, num, p1, p2, leaf)))
  {
    var node := tree.nodes[num];
    var t1, t2, offset := PlaneDistance(node.plane, p1.pos), PlaneDistance(node.plane, p2.pos), Offset(tw, node.plane);
    OffsetPositive(tw, node.plane);
    hide PlaneDistance, Offset, Near, Towards, Mix;
    if Min(t2, t1) >= offset && LeadsTo(tree, tw, node.front, p1, p2, leaf) {
      var q :| OnSegment(q, p1, p2) && Near(tree, tw, q.pos, node.front, leaf);
      var k :| InUnit(k) && q == Towards(p1, p2, k);
      BetweenEnds(t1, t2, k);
      NearFromChild(tree, tw, num, p1, p2, k, leaf);
    }
    if Max(t1, t2) <= -offset && LeadsTo(tree, tw, node.back, p1, p2, leaf) {
      var q :| OnSegment(q, p1, p2) && Near(tree, tw, q.pos, node.back, leaf);
      var k :| InUnit(k) && q == Towards(p1, p2, k);
      BetweenEnds(t1, t2, k);
      NearFromChild(tree, tw, num, p1, p2, k, leaf);
    }
  }

  lemma LeadsUpFromNear(tree: Tree, tw: TraceWork, num: nat, p1: Point4, p2: Point4, leaf: nat, s: Split)
    requires tree.Valid() && num < |tree.nodes| && tw.Valid()
    requires (var plane := tree.nodes[num].plane;
              var t1, t2, offset := PlaneDistance(plane, p1.pos), PlaneDistance(plane, p2.pos), Offset(tw, plane);
              Min(t2, t1) < offset && -offset < Max(t1, t2) && s == SplitAt(t1, t2, offset))
    requires 0.0 <= s.near && s.far <= 1.0
    requires (var node := tree.nodes[num];
              || LeadsTo(tree, tw, if s.frontFirst then node.front else node.back, p1, Towards(p1, p2, Min(s.near, 1.0)), leaf)
              || LeadsTo(tree, tw, if s.frontFirst then node.back else node.front, Towards(p1, p2, Max(s.far, 0.0)), p2, leaf))
    ensures LeadsTo(tree, tw, num, p1, p2, leaf)
  {
    var node := tree.nodes[num];
    var t1, t2, offset := PlaneDistance(node.plane, p1.pos), PlaneDistance(node.plane, p2.pos), Offset(tw, node.plane);
    var near, far := if s.frontFirst then node.front else node.back, if s.frontFirst then node.back else node.front;
    var a, b := Min(s.near, 1.0), Max(s.far, 0.0);
    hide PlaneDistance, Offset, Near, Towards, Mix, SplitAt;
    var k;
    if LeadsTo(tree, tw, near, p1, Towards(p1, p2, a), leaf) {
      var q :| OnSegment(q, p1, Towards(p1, p2, a)) && Near(tree, tw, q.pos, near, leaf);
      k := WithinBefore(p1, p2, a, q);
    } else {
      var q :| OnSegment(q, Towards(p1, p2, b), p2) && Near(tree, tw, q.pos, far, leaf);
      k := WithinAfter(p1, p2, b, q);
    }
    StretchStaysNear(t1, t2, offset, k);
    NearFromChild(tree, tw, num, p1, p2, k, leaf);
  }

  lemma PartOfUnit(m: real, part: real) returns (k: real)
    requires InUnit(m) && InUnit(part)
    ensures k == m * part && 0.0 <= k <= part
  {
    k := m * part;
    ProductNonNegative(m, part);
    ProductNonNegative(1.0 - m, part);
    assert (1.0 - m) * part == part - m * part;
  }

  lemma WithinBefore(p1: Point4, p2: Point4, frac: real, q: Point4) returns (k: real)
    requires InUnit(frac) && OnSegment(q, p1, Towards(p1, p2, frac))
    ensures InUnit(k) && k <= frac && q == Towards(p1, p2, k)
  {
    hide Towards;
    var m :| InUnit(m) && q == Towards(p1, Towards(p1, p2, frac), m);
    k := PartOfUnit(m, frac);
    Nested(p1, p2, m, frac, k);
  }

  lemma WithinAfter(p1: Point4, p2: Point4, frac: real, q: Point4) returns (k: real)
    requires InUnit(frac) && OnSegment(q, Towards(p1, p2, frac), p2)
    ensures InUnit(k) && k >= frac && q == Towards(p1, p2, k)
  {
    hide Towards;
    var m :| InUnit(m) && q == Towards(Towards(p1, p2, frac), p2, m);
    var part := PartOfUnit(m, 1.0 - frac);
    k := frac + part;
    NestedAfter(p1, p2, m, frac, k);
  }

  // ---- the routine ----

  /** What testing leaves one after the other makes of a fraction. */
  function Tested(leafStep: (nat, real) -> real, fraction: real, leaves: seq<nat>): real {
    if leaves == [] then fraction
    else leafStep(leaves[|leaves| - 1], Tested(leafStep, fraction, leaves[..|leaves| - 1]))
  }

  class Tracer {
    const tree: Tree
    const tw: TraceWork
    /** CM_TraceThroughLeaf seen from here: the fraction after testing a leaf at a given fraction. */
    const leafStep: (nat, real) -> real
    var fraction: real
    /** The leaves tested so far, in order, and the fraction before the first. */
    ghost var trail: seq<nat>
    ghost const initial: real

    constructor (tree: Tree, tw: TraceWork, leafStep: (nat, real) -> real, fraction: real)
      requires tree.Valid() && tw.Valid() && forall l: nat, f: real :: leafStep(l, f) <= f
      ensures this.tree == tree && this.tw == tw && this.leafStep == leafStep
      ensures Valid() && this.fraction == this.initial == fraction && trail == []
    {
      this.tree, this.tw, this.leafStep, this.fraction := tree, tw, leafStep, fraction;
      this.trail, this.initial := [], fraction;
    }

    /** All that is asked of a leaf: it never raises the fraction. */
    ghost predicate Valid() {
      tree.Valid() && tw.Valid() && forall l: nat, f: real :: leafStep(l, f) <= f
    }

    /** Every leaf with a point of the moving box at a fraction below the current one has been visited. */
    ghost predicate Covered(num: int, p1: Point4, p2: Point4)
      requires Valid() && tree.IsRef(num)
      reads this
    {
      forall q, x, leaf :: Sees(tree, tw, num, p1, p2, q, x, leaf) && q.f < fraction ==> leaf in trail
    }

    /** The fraction is what testing the leaves of the trail one after the other has made of the first one. */
    ghost predicate Traced()
      reads this
    {
      fraction == Tested(leafStep, initial, trail)
    }

    method TraceThroughLeaf(leaf: nat)
      requires Valid() && Traced()
      modifies this
      ensures Traced() && fraction <= old(fraction) && trail == old(trail) + [leaf]
    {
      fraction := leafStep(leaf, fraction);
      trail := trail + [leaf];
      assert trail[..|trail| - 1] == old(trail);
    }

    /** Recursion into the nearer child, iteration into the farther one. */
    method TraceThroughTree(num0: int, p1_: Point4, p2: Point4)
      requires Valid() && Traced() && tree.IsRef(num0) && p1_.f <= p2.f
      modifies this
      ensures Traced() && fraction <= old(fraction) && old(trail) <= trail
      ensures Covered(num0, p1_, p2)
      ensures forall l :: l in trail[|old(trail)|..] ==> LeadsTo(tree, tw, num0, p1_, p2, l)
      decreases tree.Rank(num0)
    {
      hide PlaneDistance, Offset, Towards, OnSegment, InBox, SplitAt, Tree.InLeaf, TraceWork.Valid, LengthSquared, LeadsTo, Near, Plane.Valid;
      var num, p1 := num0, p1_;
      while num >= 0
        invariant tree.IsRef(num) && tree.Rank(num) <= tree.Rank(num0) && p1.f <= p2.f
        invariant Traced() && fraction <= old(fraction) && old(trail) <= trail
        invariant forall q, x, leaf :: Sees(tree, tw, num0, p1_, p2, q, x, leaf) && q.f < fraction ==>
                    leaf in trail || Sees(tree, tw, num, p1, p2, q, x, leaf)
        invariant forall l :: l in trail[|old(trail)|..] ==> LeadsTo(tree, tw, num0, p1_, p2, l)
        invariant forall l :: LeadsTo(tree, tw, num, p1, p2, l) ==> LeadsTo(tree, tw, num0, p1_, p2, l)
        decreases tree.Rank(num)
      {
        var node := tree.nodes[num];
        var t1, t2, offset := PlaneDistance(node.plane, p1.pos), PlaneDistance(node.plane, p2.pos), Offset(tw, node.plane);
        OneSidedAll(num, p1, p2);
        LeadsUpAll(num, p1, p2);
        if Min(t2, t1) < offset {
          if -offset < Max(t1, t2) {
            if p1.f >= fraction {
              NothingBefore(num, p1, p2);
              return;
            }
            BothSidedAll(num, p1, p2);
            LeadsUpFromNearAll(num, p1, p2);
            OffsetPositive(tw, node.plane);
            SplitAsserts(t1, t2, offset);
            var s := SplitAt(t1, t2, offset);
            assert s.near >= 0.0;
            var frac := Min(s.near, 1.0);
            var mid := Towards(p1, p2, frac);
            FractionTowards(p1, p2, frac);
            TraceThroughTree(if s.frontFirst then node.front else node.back, p1, mid);
            assert s.far <= 1.0;
            var frac2 := Max(s.far, 0.0);
            FractionTowards(p1, p2, frac2);
            p1 := Towards(p1, p2, frac2);
            num := if s.frontFirst then node.back else node.front;
          } else {
            num := node.back;
          }
        } else {
          num := node.front;
        }
      }
      SeenLeaf(num, p1, p2);
      TraceThroughLeaf(-1 - num);
      assert forall l :: l in trail[|old(trail)|..] && l != -1 - num ==> LeadsTo(tree, tw, num0, p1_, p2, l);
    }

    lemma OneSidedAll(num: nat, p1: Point4, p2: Point4)
      requires Valid() && num < |tree.nodes|
      ensures var node := tree.nodes[num];
              var t1, t2, offset := PlaneDistance(node.plane, p1.pos), PlaneDistance(node.plane, p2.pos), Offset(tw, node.plane);
              && (Min(t2, t1) >= offset ==>
                    forall q, x, leaf :: Sees(tree, tw, num, p1, p2, q, x, leaf) ==> Sees(tree, tw, node.front, p1, p2, q, x, leaf))
              && (Max(t1, t2) <= -offset ==>
                    forall q, x, leaf :: Sees(tree, tw, num, p1, p2, q, x, leaf) ==> Sees(tree, tw, node.back, p1, p2, q, x, leaf))
    {
      hide PlaneDistance, Offset, Towards, OnSegment, InBox, SplitAt, Tree.InLeaf;
      forall q, x, leaf | Sees(tree, tw, num, p1, p2, q, x, leaf) {
        OneSided(tree, tw, num, p1, p2, q, x, leaf);
      }
    }

    lemma BothSidedAll(num: nat, p1: Point4, p2: Point4)
      requires Valid() && num < |tree.nodes|
      requires (var plane := tree.nodes[num].plane;
                var t1, t2 := PlaneDistance(plane, p1.pos), PlaneDistance(plane, p2.pos);
                Min(t2, t1) < Offset(tw, plane) && -Offset(tw, plane) < Max(t1, t2))
      ensures (var node := tree.nodes[num];
               var s := SplitAt(PlaneDistance(node.plane, p1.pos), PlaneDistance(node.plane, p2.pos), Offset(tw, node.plane));
               var near, far := if s.frontFirst then node.front else node.back, if s.frontFirst then node.back else node.front;
               forall q, x, leaf :: Sees(tree, tw, num, p1, p2, q, x, leaf) ==>
                 || Sees(tree, tw, near, p1, Towards(p1, p2, Min(s.near, 1.0)), q, x, leaf)
                 || Sees(tree, tw, far, Towards(p1, p2, Max(s.far, 0.0)), p2, q, x, leaf))
    {
      hide PlaneDistance, Offset, Towards, OnSegment, InBox, SplitAt, Tree.InLeaf;
      forall q, x, leaf | Sees(tree, tw, num, p1, p2, q, x, leaf) {
        BothSided(tree, tw, num, p1, p2, q, x, leaf);
      }
    }

    lemma LeadsUpAll(num: nat, p1: Point4, p2: Point4)
      requires Valid() && num < |tree.nodes|
      ensures var node := tree.nodes[num];
              var t1, t2, offset := PlaneDistance(node.plane, p1.pos), PlaneDistance(node.plane, p2.pos), Offset(tw, node.plane);
              && (Min(t2, t1) >= offset ==>
                    forall l :: LeadsTo(tree, tw, node.front, p1, p2, l) ==> LeadsTo(tree, tw, num, p1, p2, l))
              && (Max(t1, t2) <= -offset ==>
                    forall l :: LeadsTo(tree, tw, node.back, p1, p2, l) ==> LeadsTo(tree, tw, num, p1, p2, l))
    {
      hide PlaneDistance, Offset, LeadsTo;
      forall l: nat {
        LeadsUp(tree, tw, num, p1, p2, l);
      }
    }

    lemma LeadsUpFromNearAll(num: nat, p1: Point4, p2: Point4)
      requires Valid() && num < |tree.nodes|
      requires (var plane := tree.nodes[num].plane;
                var t1, t2 := PlaneDistance(plane, p1.pos), PlaneDistance(plane, p2.pos);
                Min(t2, t1) < Offset(tw, plane) && -Offset(tw, plane) < Max(t1, t2))
      ensures (var node := tree.nodes[num];
               var s := SplitAt(PlaneDistance(node.plane, p1.pos), PlaneDistance(node.plane, p2.pos), Offset(tw, node.plane));
               var near, far := if s.frontFirst then node.front else node.back, if s.frontFirst then node.back else node.front;
               && (forall l :: LeadsTo(tree, tw, near, p1, Towards(p1, p2, Min(s.near, 1.0)), l)
                               ==> LeadsTo(tree, tw, num, p1, p2, l))
               && (forall l :: LeadsTo(tree, tw, far, Towards(p1, p2, Max(s.far, 0.0)), p2, l)
                               ==> LeadsTo(tree, tw, num, p1, p2, l)))
    {
      var node := tree.nodes[num];
      var t1, t2, offset := PlaneDistance(node.plane, p1.pos), PlaneDistance(node.plane, p2.pos), Offset(tw, node.plane);
      OffsetPositive(tw, node.plane);
      SplitAsserts(t1, t2, offset);
      hide PlaneDistance, Offset, LeadsTo, SplitAt, Towards;
      var s := SplitAt(t1, t2, offset);
      var near, far := if s.frontFirst then node.front else node.back, if s.frontFirst then node.back else node.front;
      forall l: nat | || LeadsTo(tree, tw, near, p1, Towards(p1, p2, Min(s.near, 1.0)), l)
                      || LeadsTo(tree, tw, far, Towards(p1, p2, Max(s.far, 0.0)), p2, l)
        ensures LeadsTo(tree, tw, num, p1, p2, l)
      {
        LeadsUpFromNear(tree, tw, num, p1, p2, l, s);
      }
    }

    lemma NothingBefore(num: nat, p1: Point4, p2: Point4)
      requires Valid() && num < |tree.nodes| && p1.f <= p2.f
      ensures forall q, x, leaf :: Sees(tree, tw, num, p1, p2, q, x, leaf) ==> q.f >= p1.f
    {
      forall q, x, leaf | Sees(tree, tw, num, p1, p2, q, x, leaf)
        ensures q.f >= p1.f
      {
        var k :| InUnit(k) && q == Towards(p1, p2, k);
        FractionTowards(p1, p2, k);
      }
    }

    lemma SeenLeaf(num: int, p1: Point4, p2: Point4)
      requires Valid() && num < 0
      ensures forall q, x, leaf :: Sees(tree, tw, num, p1, p2, q, x, leaf) ==> leaf == -1 - num
      ensures LeadsTo(tree, tw, num, p1, p2, -1 - num)
    {
      assert Towards(p1, p2, 0.0) == p1;
      assert OnSegment(p1, p1, p2);
    }
  }

  lemma FractionTowards(p1: Point4, p2: Point4, k: real)
    requires InUnit(k) && p1.f <= p2.f
    ensures p1.f <= Towards(p1, p2, k).f <= p2.f
  {
    ProductNonNegative(p2.f - p1.f, k);
    ProductNonNegative(p2.f - p1.f, 1.0 - k);
  }

  /**
   * The whole trace: with the segment's fractions running from 0 to the fraction the trace started
   * with, every leaf that holds a point of the box swept to any fraction below the final one was visited.
   */
  method TraceBox(tree: Tree, tw: TraceWork, leafStep: (nat, real) -> real, start: Vec3, end: Vec3, fraction: real)
    returns (tracer: Tracer)
    requires tree.Valid() && tw.Valid() && tree.IsRef(0) && 0.0 <= fraction <= 1.0
    requires forall l: nat, f: real :: leafStep(l, f) <= f
    ensures tracer.Valid() && tracer.tree == tree && tracer.tw == tw && tracer.fraction <= fraction
    ensures forall t, x, leaf ::
              && InUnit(t) && t < tracer.fraction
              && InBox(x, Along(start, Sub(end, start), t), tw.size)
              && tree.InLeaf(x, 0, leaf)
              ==> leaf in tracer.trail
    ensures tracer.fraction == Tested(leafStep, fraction, tracer.trail)
    ensures forall leaf :: leaf in tracer.trail ==>
              exists t :: InUnit(t) && Near(tree, tw, Along(start, Sub(end, start), t), 0, leaf)
  {
    tracer := new Tracer(tree, tw, leafStep, fraction);
    var p1, p2 := Point4(start, 0.0), Point4(end, fraction);
    tracer.TraceThroughTree(0, p1, p2);
    forall t, x, leaf | InUnit(t) && t < tracer.fraction && InBox(x, Along(start, Sub(end, start), t), tw.size)
                        && tree.InLeaf(x, 0, leaf)
      ensures leaf in tracer.trail
    {
      var q := Towards(p1, p2, t);
      StartToEnd(start, end, fraction, t);
      assert Sees(tree, tw, 0, p1, p2, q, x, leaf);
    }
    forall leaf | leaf in tracer.trail
      ensures exists t :: InUnit(t) && Near(tree, tw, Along(start, Sub(end, start), t), 0, leaf)
    {
      assert leaf in tracer.trail[0..];
      var q :| OnSegment(q, p1, p2) && Near(tree, tw, q.pos, 0, leaf);
      var t :| InUnit(t) && q == Towards(p1, p2, t);
      StartToEnd(start, end, fraction, t);
    }
  }

  // ---- leaves that stop the box ----

  /** Every leaf stops the box at a fraction of its own. */
  ghost predicate StopsAt(leafStep: (nat, real) -> real, hit: nat -> real) {
    forall l: nat, f: real :: leafStep(l, f) == Min(f, hit(l))
  }

  /** `v` is the least of a fraction and of what all leaves stop the box at. */
  ghost predicate IsFirstStop(v: real, fraction: real, hit: nat -> real) {
    v <= fraction && (forall l :: v <= hit(l)) && (v == fraction || exists l :: v == hit(l))
  }

  lemma {:induction false} TestedIsLeast(leafStep: (nat, real) -> real, fraction: real, hit: nat -> real, trail: seq<nat>)
    requires StopsAt(leafStep, hit)
    ensures (var v := Tested(leafStep, fraction, trail);
             && v <= fraction && (forall l :: l in trail ==> v <= hit(l))
             && (v == fraction || exists l :: l in trail && v == hit(l)))
  {
    if trail != [] {
      var init, last := trail[..|trail| - 1], trail[|trail| - 1];
      assert trail == init + [last];
      TestedIsLeast(leafStep, fraction, hit, init);
    }
  }

  /** The moving box has a point in the leaf at fraction `t`. */
  ghost predicate Reaches(tree: Tree, tw: TraceWork, start: Vec3, end: Vec3, t: real, leaf: nat)
    requires tree.Valid() && tree.IsRef(0)
  {
    InUnit(t) && exists x :: InBox(x, Along(start, Sub(end, start), t), tw.size) && tree.InLeaf(x, 0, leaf)
  }

  /**
   * The trace finds the first stop: if each leaf stops the box no earlier than it started with, or at a
   * fraction at which the box reaches the leaf, the final fraction is the least over all leaves there are.
   */
  method TraceToFirstStop(tree: Tree, tw: TraceWork, leafStep: (nat, real) -> real, hit: nat -> real,
                          start: Vec3, end: Vec3, fraction: real)
    returns (stop: real)
    requires tree.Valid() && tw.Valid() && tree.IsRef(0) && 0.0 <= fraction <= 1.0
    requires StopsAt(leafStep, hit)
    requires forall l: nat :: hit(l) < fraction ==> Reaches(tree, tw, start, end, hit(l), l)
    ensures IsFirstStop(stop, fraction, hit)
  {
    hide Tree.Valid, TraceWork.Valid, Tree.InLeaf, InBox, Along;
    var tracer := TraceBox(tree, tw, leafStep, start, end, fraction);
    stop := tracer.fraction;
    TestedIsLeast(leafStep, fraction, hit, tracer.trail);
    forall l: nat
      ensures stop <= hit(l)
    {
      if hit(l) < fraction {
        var x :| InBox(x, Along(start, Sub(end, start), hit(l)), tw.size) && tree.InLeaf(x, 0, l);
      }
    }
  }

  lemma StartToEnd(start: Vec3, end: Vec3, fraction: real, t: real)
    requires InUnit(t) && 0.0 <= fraction <= 1.0
    ensures (var q := Towards(Point4(start, 0.0), Point4(end, fraction), t);
             q.pos == Along(start, Sub(end, start), t) && q.f <= t)
  {
    ProductNonNegative(t, 1.0 - fraction);
    assert Mix(0.0, fraction, t) == fraction * t;
    hide Mix;
    AlongIsMix(start, end, t);
  }

  lemma AlongIsMix(start: Vec3, end: Vec3, t: real)
    ensures Along(start, Sub(end, start), t)
         == Vec3(Mix(start.x, end.x, t), Mix(start.y, end.y, t), Mix(start.z, end.z, t))
  {
  }
}
