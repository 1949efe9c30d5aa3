/**
 * Exactly when a segment meets the faces' common inside at all, in terms of the face distances, and
 * exactly when clipping gives up on one that does: some comparison of crossings is then an equality.
 */
module Touching {
  import opened Vectors
  import opened Clip
  import opened SlabTest
  import opened CullCauses
  import Sight = SightBrush

  /** The segment is never inside the face before the fraction is over. */
  predicate MissesAlone(f: Face, fraction: real) {
    Outside(f) || (Enters(f) && f.Crossing() > fraction)
  }

  /** The segment is inside the face `e` only from where it is strictly outside the face `l`. */
  predicate EntersAfter(e: Face, l: Face) {
    Enters(e) && Leaves(l) && e.Crossing() > l.Crossing()
  }

  /** The segment is inside the face at one end of the stretch only. */
  predicate TouchesAlone(f: Face, fraction: real) {
    (Leaves(f) && f.Crossing() == 0.0) || (Enters(f) && f.Crossing() == fraction)
  }

  /** The segment enters the face `e` where it leaves the face `l`. */
  predicate EntersAsLeft(e: Face, l: Face) {
    Enters(e) && Leaves(l) && e.Crossing() == l.Crossing()
  }

  ghost predicate SomeMisses(faces: seq<Face>, fraction: real) {
    || (exists f :: f in faces && MissesAlone(f, fraction))
    || (exists e, l :: e in faces && l in faces && EntersAfter(e, l))
  }

  ghost predicate SomeTouches(faces: seq<Face>, fraction: real) {
    || (exists f :: f in faces && TouchesAlone(f, fraction))
    || (exists e, l :: e in faces && l in faces && EntersAsLeft(e, l))
  }

  /** Some fraction of the stretch is inside all faces. */
  ghost predicate Meets(faces: seq<Face>, fraction: real) {
    exists t :: 0.0 <= t <= fraction && InsideAll(faces, t)
  }

  // ---- one face ----

  lemma InsideIff(f: Face, t: real)
    requires InUnit(t)
    ensures Outside(f) ==> f.At(t) > 0.0
    ensures Enters(f) ==> (f.At(t) <= 0.0 <==> t >= f.Crossing())
    ensures Leaves(f) ==> (f.At(t) <= 0.0 <==> t <= f.Crossing()) && f.Crossing() >= 0.0
    ensures f.d1 <= 0.0 && f.d2 <= 0.0 ==> f.At(t) <= 0.0
  {
    if f.d1 != f.d2 {
      CrossingSplits(f, t);
      EndsAgainstCrossing(f);
    }
    hide Face.Crossing;
    SameSide(f.d1, f.d2, t);
    SameSide(-f.d1, -f.d2, t);
  }

  lemma SameSide(a: real, b: real, t: real)
    requires InUnit(t)
    ensures a >= 0.0 && b >= 0.0 ==> a + t * (b - a) >= 0.0
    ensures a > 0.0 && b > 0.0 ==> a + t * (b - a) > 0.0
  {
    if a >= 0.0 && b >= 0.0 {
      assert a + t * (b - a) == (1.0 - t) * a + t * b;
      ProductNonNegative(1.0 - t, a);
      ProductNonNegative(t, b);
      if a > 0.0 && t < 1.0 {
        ProductPositive(1.0 - t, a);
      }
    }
  }

  // ---- any list of faces ----

  lemma {:induction false} GreatestEnter(faces: seq<Face>) returns (v: real)
    ensures IsGreatestEnter(faces, v)
  {
    if faces == [] {
      v := 0.0;
    } else {
      var init, f := faces[..|faces| - 1], faces[|faces| - 1];
      assert faces == init + [f];
      v := GreatestEnter(init);
      hide IsGreatestEnter, Face.Crossing;
      GreatestEnterStep(init, f, v);
      v := if Enters(f) && v < f.Crossing() then f.Crossing() else v;
    }
  }

  /** The last place where a face is entered is inside all faces, if any place is. */
  lemma LastEnterIsInside(faces: seq<Face>, fraction: real, v: real)
    requires 0.0 <= fraction <= 1.0 && IsGreatestEnter(faces, v) && !SomeMisses(faces, fraction)
    ensures 0.0 <= v <= fraction && InsideAll(faces, v)
  {
    hide Face.Crossing, Face.At;
    if v != 0.0 {
      var i :| 0 <= i < |faces| && Enters(faces[i]) && v == faces[i].Crossing();
      assert !MissesAlone(faces[i], fraction);
    }
    forall f | f in faces
      ensures f.At(v) <= 0.0
    {
      InsideIff(f, v);
      assert !MissesAlone(f, fraction);
      if Leaves(f) && v != 0.0 {
        var i :| 0 <= i < |faces| && Enters(faces[i]) && v == faces[i].Crossing();
        assert !EntersAfter(faces[i], f);
      }
    }
  }

  /** A segment is inside all faces somewhere exactly if none misses it alone, and none is entered after another is left. */
  lemma MeetsIff(faces: seq<Face>, fraction: real)
    requires 0.0 <= fraction <= 1.0
    ensures Meets(faces, fraction) <==> !SomeMisses(faces, fraction)
  {
    hide Face.Crossing, Face.At;
    if t :| 0.0 <= t <= fraction && InsideAll(faces, t) {
      forall f | f in faces
        ensures !MissesAlone(f, fraction) && (Enters(f) ==> t >= f.Crossing()) && (Leaves(f) ==> t <= f.Crossing())
      {
        InsideIff(f, t);
      }
    }
    if !SomeMisses(faces, fraction) {
      var v := GreatestEnter(faces);
      LastEnterIsInside(faces, fraction, v);
    }
  }

  /** Giving up is for missing, or for touching. */
  lemma GivesUpIff(faces: seq<Face>, fraction: real)
    requires 0.0 <= fraction <= 1.0
    ensures ClipAll(faces, Window(0.0, fraction)).None? <==> SomeMisses(faces, fraction) || SomeTouches(faces, fraction)
  {
    BothEndsCullIff(faces, fraction);
    hide ClipAll, Face.Crossing;
    AloneIsEither(faces, fraction);
    LateIsEither(faces);
  }

  lemma AloneIsEither(faces: seq<Face>, fraction: real)
    ensures SomeCullsAlone(faces, fraction)
       <==> exists f :: f in faces && (MissesAlone(f, fraction) || TouchesAlone(f, fraction))
  {
    forall f: Face
      ensures CullsAlone(f, fraction) <==> MissesAlone(f, fraction) || TouchesAlone(f, fraction)
    {
      if Leaves(f) {
        EndsAgainstCrossing(f);
      }
    }
    hide CullsAlone, MissesAlone, TouchesAlone;
    if f :| f in faces && (MissesAlone(f, fraction) || TouchesAlone(f, fraction)) {
      var i :| 0 <= i < |faces| && faces[i] == f;
      assert CullsAlone(faces[i], fraction);
    }
  }

  lemma LateIsEither(faces: seq<Face>)
    ensures LateForEarlier(faces) || LateForLater(faces)
       <==> exists e, l :: e in faces && l in faces && (EntersAfter(e, l) || EntersAsLeft(e, l))
  {
    forall e: Face, l: Face
      ensures EntersTooLate(e, l) <==> EntersAfter(e, l) || EntersAsLeft(e, l)
      ensures EntersTooLate(e, l) ==> e != l
    {
    }
    hide EntersTooLate, EntersAfter, EntersAsLeft;
    if e, l :| e in faces && l in faces && (EntersAfter(e, l) || EntersAsLeft(e, l)) {
      var i :| 0 <= i < |faces| && faces[i] == e;
      var j :| 0 <= j < |faces| && faces[j] == l;
      assert EntersTooLate(faces[i], faces[j]);
    }
    if LateForEarlier(faces) || LateForLater(faces) {
      var i, j :| 0 <= i < |faces| && 0 <= j < |faces| && EntersTooLate(faces[i], faces[j]);
      assert faces[i] in faces && faces[j] in faces;
    }
  }

  /** A segment that meets is given up exactly if it touches only: some crossing equals an end or another crossing. */
  lemma MeetsButGivenUpIff(faces: seq<Face>, fraction: real)
    requires 0.0 <= fraction <= 1.0
    ensures Meets(faces, fraction) && ClipAll(faces, Window(0.0, fraction)).None?
       <==> !SomeMisses(faces, fraction) && SomeTouches(faces, fraction)
  {
    hide *;
    MeetsIff(faces, fraction);
    GivesUpIff(faces, fraction);
  }

  // ---- boxes and brushes ----

  /** The box test culls a segment that has a point in the box exactly under that condition on its face distances. */
  lemma BoxMetButCulledIff(x: TraceExtents, mins: Vec3, maxs: Vec3, fraction: real)
    requires 0.0 <= fraction <= 1.0
    ensures (var faces := SlabFaces(x, mins, maxs);
             && ((exists t :: 0.0 <= t <= fraction && InClosedBox(PointAt(x, t), mins, maxs)) <==> !SomeMisses(faces, fraction))
             && (ClipAll(faces, Window(0.0, fraction)).None? <==> SomeMisses(faces, fraction) || SomeTouches(faces, fraction)))
  {
    var faces := SlabFaces(x, mins, maxs);
    hide SlabFaces, PointAt, InClosedBox, InsideAll, ClipAll, SomeMisses, SomeTouches;
    MeetsIff(faces, fraction);
    GivesUpIff(faces, fraction);
    forall t
      ensures InsideAll(faces, t) <==> InClosedBox(PointAt(x, t), mins, maxs)
    {
      InsideIsInBox(x, mins, maxs, t);
    }
  }

  /** The same for the expanded brush and the whole segment. */
  lemma BrushMetButGivenUpIff(tw: Sight.TraceWork, brush: Sight.Brush)
    ensures (var faces := Sight.BrushFaces(tw, brush);
             && ((exists t :: InUnit(t) && Sight.InExpandedBrush(tw, brush, PointAt(tw.extents, t))) <==> !SomeMisses(faces, 1.0))
             && (ClipAll(faces, Window(0.0, 1.0)).None? <==> SomeMisses(faces, 1.0) || SomeTouches(faces, 1.0)))
  {
    var faces := Sight.BrushFaces(tw, brush);
    hide Sight.BrushFaces, PointAt, Sight.InExpandedBrush, InsideAll, ClipAll, SomeMisses, SomeTouches;
    MeetsIff(faces, 1.0);
    GivesUpIff(faces, 1.0);
    forall t
      ensures InsideAll(faces, t) <==> Sight.InExpandedBrush(tw, brush, PointAt(tw.extents, t))
    {
      Sight.InsideIsInBrush(tw, brush, t);
    }
  }

  /** A first face entered at 0.5, where a fifth is left. */
  lemma EnteredAsLeft(faces: seq<Face>)
    requires |faces| == 6 && faces[0] == Face(1.0, -1.0) && faces[4] == Face(-1.0, 1.0)
    ensures ClipAll(faces, Window(0.0, 1.0)).None?
  {
    assert Face(1.0, -1.0).Crossing() == 0.5 && Face(-1.0, 1.0).Crossing() == 0.5;
    hide ClipAll, Face.Crossing;
    assert EntersAsLeft(faces[0], faces[4]);
    GivesUpIff(faces, 1.0);
  }

  /** A segment past the edge of a box: its point at 0.5 is in the box, and it is culled. */
  lemma TouchingIsCulled()
    ensures (var x, mins, maxs := CalcTraceExtents(Vec3(-1.0, 0.0, 0.0), Vec3(1.0, 2.0, 0.0)), Vec3(0.0, -1.0, -1.0), Vec3(5.0, 1.0, 1.0);
             InClosedBox(PointAt(x, 0.5), mins, maxs) && ClipAll(SlabFaces(x, mins, maxs), Window(0.0, 1.0)).None?)
  {
    var x, mins, maxs := CalcTraceExtents(Vec3(-1.0, 0.0, 0.0), Vec3(1.0, 2.0, 0.0)), Vec3(0.0, -1.0, -1.0), Vec3(5.0, 1.0, 1.0);
    hide ClipAll, Inverse;
    EnteredAsLeft(SlabFaces(x, mins, maxs));
  }
}
