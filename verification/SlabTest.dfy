/** The two slab tests of a segment against an axis-aligned box (cm_tracebox.cpp and cm_trace.c). */
module SlabTest {
  import opened Vectors
  import opened Clip

  datatype TraceExtents = TraceExtents(start: Vec3, end: Vec3, invDelta: Vec3) {
    predicate Valid() {
      this == CalcTraceExtents(start, end)
    }
  }

  function Inverse(diff: real): real {
    if diff != 0.0 then 1.0 / diff else 0.0
  }

  function CalcTraceExtents(start: Vec3, end: Vec3): TraceExtents {
    var diff := Sub(start, end);
    TraceExtents(start, end, Vec3(Inverse(diff.x), Inverse(diff.y), Inverse(diff.z)))
  }

  function Axis(v: Vec3, i: nat): real
    requires i < 3
  {
    if i == 0 then v.x else if i == 1 then v.y else v.z
  }

  predicate InClosedBox(p: Vec3, mins: Vec3, maxs: Vec3) {
    mins.x <= p.x <= maxs.x && mins.y <= p.y <= maxs.y && mins.z <= p.z <= maxs.z
  }

  function PointAt(x: TraceExtents, t: real): Vec3 {
    Along(x.start, Sub(x.end, x.start), t)
  }

  // ---- the faces in the order both tests visit them ----

  function SlabFace(x: TraceExtents, bounds: Vec3, sign: real, i: nat): Face
    requires i < 3
  {
    Face((Axis(x.start, i) - Axis(bounds, i)) * sign, (Axis(x.end, i) - Axis(bounds, i)) * sign)
  }

  function PassFaces(x: TraceExtents, bounds: Vec3, sign: real): seq<Face> {
    [SlabFace(x, bounds, sign, 0), SlabFace(x, bounds, sign, 1), SlabFace(x, bounds, sign, 2)]
  }

  function SlabFaces(x: TraceExtents, mins: Vec3, maxs: Vec3): seq<Face> {
    PassFaces(x, mins, -1.0) + PassFaces(x, maxs, 1.0)
  }

  lemma InsideIsInBox(x: TraceExtents, mins: Vec3, maxs: Vec3, t: real)
    ensures InsideAll(SlabFaces(x, mins, maxs), t) <==> InClosedBox(PointAt(x, t), mins, maxs)
  {
    var faces, p := SlabFaces(x, mins, maxs), PointAt(x, t);
    SlabFaceAt(x, mins, maxs, 0, t);
    SlabFaceAt(x, mins, maxs, 1, t);
    SlabFaceAt(x, mins, maxs, 2, t);
    hide Face.At, SlabFace, PointAt;
    assert forall f :: f in faces <==> f in {faces[0], faces[1], faces[2], faces[3], faces[4], faces[5]};
    assert InsideAll(faces, t) <==>
      && faces[0].At(t) <= 0.0 && faces[1].At(t) <= 0.0 && faces[2].At(t) <= 0.0
      && faces[3].At(t) <= 0.0 && faces[4].At(t) <= 0.0 && faces[5].At(t) <= 0.0;
  }

  lemma SlabFaceAt(x: TraceExtents, mins: Vec3, maxs: Vec3, i: nat, t: real)
    requires i < 3
    ensures SlabFace(x, mins, -1.0, i).At(t) == Axis(mins, i) - Axis(PointAt(x, t), i)
    ensures SlabFace(x, maxs, 1.0, i).At(t) == Axis(PointAt(x, t), i) - Axis(maxs, i)
  {
    FaceAt(Axis(x.start, i), Axis(x.end, i), Axis(mins, i), t);
    FaceAt(Axis(x.start, i), Axis(x.end, i), Axis(maxs, i), t);
  }

  lemma FaceAt(s: real, e: real, b: real, t: real)
    ensures Face((s - b) * -1.0, (e - b) * -1.0).At(t) == b - (s + t * (e - s))
    ensures Face((s - b) * 1.0, (e - b) * 1.0).At(t) == s + t * (e - s) - b
  {
  }

  /** The reciprocal the code multiplies with turns a distance into the crossing fraction. */
  lemma ReciprocalGivesCrossing(x: TraceExtents, bounds: Vec3, sign: real, i: nat)
    requires i < 3 && x.Valid() && (sign == 1.0 || sign == -1.0)
    requires SlabFace(x, bounds, sign, i).d1 != SlabFace(x, bounds, sign, i).d2
    ensures (var f := SlabFace(x, bounds, sign, i); f.d1 * Axis(x.invDelta, i) * sign == f.Crossing())
  {
    var s, e, b := Axis(x.start, i), Axis(x.end, i), Axis(bounds, i);
    assert Axis(x.invDelta, i) == Inverse(s - e);
    CrossingByReciprocal(s, e, b, sign);
  }

  /** The same for distances computed beforehand. */
  lemma CrossingOf(x: TraceExtents, bounds: Vec3, sign: real, i: nat, dist1: real, dist2: real)
    requires i < 3 && x.Valid() && (sign == 1.0 || sign == -1.0)
    requires SlabFace(x, bounds, sign, i) == Face(dist1, dist2) && dist1 != dist2
    ensures dist1 * Axis(x.invDelta, i) * sign == Face(dist1, dist2).Crossing()
  {
    hide SlabFace, Face.Crossing, Axis;
    ReciprocalGivesCrossing(x, bounds, sign, i);
  }

  lemma CrossingByReciprocal(s: real, e: real, b: real, sign: real)
    requires s != e && (sign == 1.0 || sign == -1.0)
    ensures (s - b) * sign != (e - b) * sign
    ensures (s - b) * sign * (1.0 / (s - e)) * sign == Face((s - b) * sign, (e - b) * sign).Crossing()
  {
    var d, d1 := s - e, s - b;
    var q := 1.0 / d;
    assert d * q == 1.0;
    assert d * (d1 * q) == d1 * (d * q) == d1;
    assert d1 / d == d1 * q by { UniqueQuotient(d1, d, d1 * q); }
    if sign == -1.0 {
      assert -d1 / -d == d1 * q by { UniqueQuotient(-d1, -d, d1 * q); }
    }
  }

  lemma UniqueQuotient(n: real, d: real, x: real)
    requires d != 0.0 && d * x == n
    ensures n / d == x
  {
  }

  lemma {:induction false} ClipAllPrefix(faces: seq<Face>, k: nat, w: Window)
    requires k <= |faces| && ClipAll(faces[..k], w).None?
    ensures ClipAll(faces, w).None?
  {
    if k < |faces| {
      assert faces[..|faces| - 1][..k] == faces[..k];
      ClipAllPrefix(faces[..|faces| - 1], k, w);
    } else {
      assert faces[..k] == faces;
    }
  }

  lemma ClipAllNext(faces: seq<Face>, k: nat, w: Window)
    requires k < |faces| && ClipAll(faces[..k], w).Some?
    ensures ClipAll(faces[..k + 1], w) == ClipFace(faces[k], ClipAll(faces[..k], w).value)
  {
    assert faces[..k + 1][..k] == faces[..k];
  }

  // ---- the test that tracks both ends (cm_tracebox.cpp) ----

  /** One face of either pass; `reject` stands for the early return of 0. */
  method ClipSlab(x: TraceExtents, bounds: Vec3, sign: real, t: nat, enterFrac0: real, leaveFrac0: real)
    returns (reject: bool, enterFrac: real, leaveFrac: real)
    requires x.Valid() && t < 3 && (sign == 1.0 || sign == -1.0)
    ensures ClipFace(SlabFace(x, bounds, sign, t), Window(enterFrac0, leaveFrac0))
         == if reject then None else Some(Window(enterFrac, leaveFrac))
  {
    hide Inverse, TraceExtents.Valid, CalcTraceExtents;
    reject, enterFrac, leaveFrac := false, enterFrac0, leaveFrac0;
    var dist1 := (Axis(x.start, t) - Axis(bounds, t)) * sign;
    var dist2 := (Axis(x.end, t) - Axis(bounds, t)) * sign;
    assert SlabFace(x, bounds, sign, t) == Face(dist1, dist2);
    hide SlabFace, Face.Crossing, Axis;
    if dist1 != dist2 {
      CrossingOf(x, bounds, sign, t, dist1, dist2);
    }
    if dist1 <= 0.0 {
      if dist2 > 0.0 {
        var frac := dist1 * Axis(x.invDelta, t) * sign;
        if enterFrac >= frac {
          return true, enterFrac, leaveFrac;
        }
        if frac - leaveFrac < 0.0 {
          leaveFrac := dist1 * Axis(x.invDelta, t) * sign;
        }
      }
    } else {
      if dist2 > 0.0 {
        return true, enterFrac, leaveFrac;
      }
      var frac := dist1 * Axis(x.invDelta, t) * sign;
      if frac >= leaveFrac {
        return true, enterFrac, leaveFrac;
      }
      if enterFrac - frac < 0.0 {
        enterFrac := dist1 * Axis(x.invDelta, t) * sign;
      }
    }
  }

  /** What clipping against the six faces says about the box. */
  lemma WindowMeaning(x: TraceExtents, mins: Vec3, maxs: Vec3, w: Window)
    requires w.Within()
    ensures var r := ClipAll(SlabFaces(x, mins, maxs), w);
            && (r.Some? ==>
                  && w.enter <= r.value.enter <= r.value.leave <= w.leave
                  && forall t :: r.value.enter <= t <= r.value.leave <==>
                       w.enter <= t <= w.leave && InClosedBox(PointAt(x, t), mins, maxs))
            && (w.enter < w.leave ==>
                  (r.Some? <==> exists t1, t2 :: && w.enter <= t1 < t2 <= w.leave
                                                 && InClosedBox(PointAt(x, t1), mins, maxs)
                                                 && InClosedBox(PointAt(x, t2), mins, maxs)))
  {
    var faces := SlabFaces(x, mins, maxs);
    hide SlabFaces, PointAt, InClosedBox, InsideAll, ClipAll;
    ClipAllExact(faces, w);
    forall t
      ensures InsideAll(faces, t) <==> InClosedBox(PointAt(x, t), mins, maxs)
    {
      InsideIsInBox(x, mins, maxs, t);
    }
    var r := ClipAll(faces, w);
    if r.Some? {
      assert r.value.Has(r.value.enter) && r.value.Has(r.value.leave);
    }
  }

  /**
   * Returns 1 with the exact stretch of [enterFrac0, leaveFrac0] whose points lie in the closed box;
   * returns 0 when at most a single fraction of it does.
   */
  method IntersectExtentsAabb(x: TraceExtents, mins: Vec3, maxs: Vec3, enterFrac0: real, leaveFrac0: real)
    returns (hit: int, enterFrac: real, leaveFrac: real)
    requires x.Valid() && 0.0 <= enterFrac0 <= leaveFrac0 <= 1.0
    ensures hit == 0 || hit == 1
    ensures ClipAll(SlabFaces(x, mins, maxs), Window(enterFrac0, leaveFrac0))
         == if hit == 1 then Some(Window(enterFrac, leaveFrac)) else None
    ensures hit == 1 ==>
              && enterFrac0 <= enterFrac <= leaveFrac <= leaveFrac0
              && forall t :: enterFrac <= t <= leaveFrac <==>
                   enterFrac0 <= t <= leaveFrac0 && InClosedBox(PointAt(x, t), mins, maxs)
    ensures enterFrac0 < leaveFrac0 ==>
              (hit == 1 <==> exists t1, t2 :: && enterFrac0 <= t1 < t2 <= leaveFrac0
                                              && InClosedBox(PointAt(x, t1), mins, maxs)
                                              && InClosedBox(PointAt(x, t2), mins, maxs))
  {
    ghost var faces, w0 := SlabFaces(x, mins, maxs), Window(enterFrac0, leaveFrac0);
    WindowMeaning(x, mins, maxs, w0);
    hide *;
    enterFrac, leaveFrac := enterFrac0, leaveFrac0;
    var sign := -1.0;
    var bounds := mins;
    ghost var done := 0;
    while true
      invariant if done == 0 then sign == -1.0 && bounds == mins else done == 3 && sign == 1.0 && bounds == maxs
      invariant ClipAll(faces[..done], w0) == Some(Window(enterFrac, leaveFrac))
      decreases 3 - done
    {
      for t := 0 to 3
        invariant ClipAll(faces[..done + t], w0) == Some(Window(enterFrac, leaveFrac))
      {
        var reject;
        reject, enterFrac, leaveFrac := ClipSlab(x, bounds, sign, t, enterFrac, leaveFrac);
        ClipAllNext(faces, done + t, w0);
        if reject {
          ClipAllPrefix(faces, done + t + 1, w0);
          return 0, enterFrac, leaveFrac;
        }
      }
      if sign == 1.0 {
        break;
      }
      bounds, sign, done := maxs, 1.0, 3;
    }
    assert faces[..6] == faces;
    hit := 1;
  }

  /** The overload that starts from [0, fraction], and the C++ CM_TraceBox that negates it. */
  method TraceBoxBothEnds(x: TraceExtents, mins: Vec3, maxs: Vec3, fraction: real) returns (culled: bool)
    requires x.Valid() && 0.0 <= fraction <= 1.0
    ensures culled <==> ClipAll(SlabFaces(x, mins, maxs), Window(0.0, fraction)).None?
  {
    var hit, enterFrac, leaveFrac := IntersectExtentsAabb(x, mins, maxs, 0.0, fraction);
    culled := hit != 1;
  }

  // ---- the test that tracks only the leave fraction (cm_trace.c) ----

  function LeaveClipFace(f: Face, fraction: real): Option<real> {
    if f.d1 <= 0.0 then
      if f.d2 > 0.0 then
        if f.Crossing() <= 0.0 then None
        else if f.Crossing() < fraction then Some(f.Crossing())
        else Some(fraction)
      else Some(fraction)
    else if f.d2 > 0.0 || f.Crossing() >= fraction then None
    else Some(fraction)
  }

  function LeaveClipAll(faces: seq<Face>, fraction: real): Option<real> {
    if faces == [] then Some(fraction)
    else
      var before := LeaveClipAll(faces[..|faces| - 1], fraction);
      if before.None? then None else LeaveClipFace(faces[|faces| - 1], before.value)
  }

  lemma {:induction false} LeaveClipAllSplit(first: seq<Face>, second: seq<Face>, fraction: real)
    ensures LeaveClipAll(first + second, fraction)
         == if LeaveClipAll(first, fraction).None? then None
            else LeaveClipAll(second, LeaveClipAll(first, fraction).value)
  {
    if second == [] {
      assert first + second == first;
    } else {
      var init, last := second[..|second| - 1], second[|second| - 1];
      assert (first + second)[..|first + second| - 1] == first + init;
      LeaveClipAllSplit(first, init, fraction);
    }
  }

  lemma {:induction false} LeaveClipAllPrefix(faces: seq<Face>, k: nat, fraction: real)
    requires k <= |faces| && LeaveClipAll(faces[..k], fraction).None?
    ensures LeaveClipAll(faces, fraction).None?
  {
    assert faces == faces[..k] + faces[k..];
    LeaveClipAllSplit(faces[..k], faces[k..], fraction);
  }

  /** One face of the leave-only test; `culled` stands for the early return of 1. */
  method LeaveClipSlab(x: TraceExtents, testvec: Vec3, s: real, i: nat, fraction0: real)
    returns (culled: bool, fraction: real)
    requires x.Valid() && i < 3 && (s == 1.0 || s == -1.0)
    ensures LeaveClipFace(SlabFace(x, testvec, s, i), fraction0) == if culled then None else Some(fraction)
  {
    hide Inverse, TraceExtents.Valid, CalcTraceExtents;
    culled, fraction := false, fraction0;
    var d, o := (Axis(x.start, i) - Axis(testvec, i)) * s, (Axis(x.end, i) - Axis(testvec, i)) * s;
    assert SlabFace(x, testvec, s, i) == Face(d, o);
    hide SlabFace, Face.Crossing, Axis;
    if d != o {
      CrossingOf(x, testvec, s, i, d, o);
    }
    if d <= 0.0 {
      if o > 0.0 {
        d := d * Axis(x.invDelta, i) * s;
        if d <= 0.0 {
          return true, fraction;
        }
        if d - fraction < 0.0 {
          fraction := d;
        }
      }
    } else if o > 0.0 || d * Axis(x.invDelta, i) * s >= fraction {
      return true, fraction;
    }
  }

  method TraceBoxInternal(x: TraceExtents, testvec: Vec3, s: real, fraction0: real)
    returns (culled: bool, fraction: real)
    requires x.Valid() && (s == 1.0 || s == -1.0)
    ensures LeaveClipAll(PassFaces(x, testvec, s), fraction0) == if culled then None else Some(fraction)
  {
    ghost var faces := PassFaces(x, testvec, s);
    hide TraceExtents.Valid, SlabFace, LeaveClipFace;
    culled, fraction := false, fraction0;
    for i := 0 to 3
      invariant LeaveClipAll(faces[..i], fraction0) == Some(fraction)
    {
      assert faces[..i + 1][..i] == faces[..i];
      culled, fraction := LeaveClipSlab(x, testvec, s, i, fraction);
      if culled {
        LeaveClipAllPrefix(faces, i + 1, fraction0);
        return true, fraction;
      }
    }
    assert faces[..3] == faces;
    culled := false;
  }

  method TraceBoxLeaveOnly(x: TraceExtents, mins: Vec3, maxs: Vec3, fraction: real) returns (culled: bool)
    requires x.Valid()
    ensures culled <==> LeaveClipAll(SlabFaces(x, mins, maxs), fraction).None?
  {
    LeaveClipAllSplit(PassFaces(x, mins, -1.0), PassFaces(x, maxs, 1.0), fraction);
    hide LeaveClipAll;
    var lfraction := fraction;
    culled, lfraction := TraceBoxInternal(x, mins, -1.0, lfraction);
    if culled {
      return true;
    }
    culled, lfraction := TraceBoxInternal(x, maxs, 1.0, lfraction);
  }

  // ---- comparing the two ----

  /** In step: while both survive they agree on the leave fraction, and the cheap one never culls first. */
  lemma {:induction false} CheapCullIsCull(faces: seq<Face>, w: Window)
    requires w.enter >= 0.0
    ensures LeaveClipAll(faces, w.leave).None? ==> ClipAll(faces, w).None?
    ensures ClipAll(faces, w).Some? ==>
              ClipAll(faces, w).value.enter >= 0.0 && LeaveClipAll(faces, w.leave) == Some(ClipAll(faces, w).value.leave)
  {
    if faces != [] {
      CheapCullIsCull(faces[..|faces| - 1], w);
    }
  }

  /** The leave-only test never discards a segment that meets the box in more than one point. */
  lemma LeaveOnlyKeepsHits(x: TraceExtents, mins: Vec3, maxs: Vec3, fraction: real, t1: real, t2: real)
    requires 0.0 <= t1 < t2 <= fraction <= 1.0
    requires InClosedBox(PointAt(x, t1), mins, maxs) && InClosedBox(PointAt(x, t2), mins, maxs)
    ensures LeaveClipAll(SlabFaces(x, mins, maxs), fraction).Some?
  {
    CheapCullIsCull(SlabFaces(x, mins, maxs), Window(0.0, fraction));
    WindowMeaning(x, mins, maxs, Window(0.0, fraction));
  }
}
