/**
 * Exactly when the two slab tests cull, in terms of the face distances, and exactly when they differ.
 * The test of both ends (cm_tracebox.cpp) forgets nothing; the leave-only test (cm_trace.c) compares a
 * face it enters only with the faces left before it in the order of the loops.
 */
module CullCauses {
  import opened Vectors
  import opened Clip
  import opened SlabTest

  predicate Outside(f: Face) {
    f.d1 > 0.0 && f.d2 > 0.0
  }

  predicate Enters(f: Face) {
    f.d1 > 0.0 && f.d2 <= 0.0
  }

  predicate Leaves(f: Face) {
    f.d1 <= 0.0 && f.d2 > 0.0
  }

  /** The face culls whatever the others are. */
  predicate CullsAlone(f: Face, fraction: real) {
    || Outside(f)
    || (Leaves(f) && f.Crossing() <= 0.0)
    || (Enters(f) && f.Crossing() >= fraction)
  }

  /** The segment is inside the face `e` only from where it is outside the face `l`. */
  predicate EntersTooLate(e: Face, l: Face) {
    Enters(e) && Leaves(l) && e.Crossing() >= l.Crossing()
  }

  ghost predicate SomeCullsAlone(faces: seq<Face>, fraction: real) {
    exists i :: 0 <= i < |faces| && CullsAlone(faces[i], fraction)
  }

  /** Some face is entered too late for a face that is left before it in the list. */
  ghost predicate LateForEarlier(faces: seq<Face>) {
    exists i, j :: 0 <= j < i < |faces| && EntersTooLate(faces[i], faces[j])
  }

  /** Some face is entered too late for a face that is left after it in the list. */
  ghost predicate LateForLater(faces: seq<Face>) {
    exists i, j :: 0 <= i < j < |faces| && EntersTooLate(faces[i], faces[j])
  }

  /** `v` is the least of the fraction and all crossings of faces left. */
  ghost predicate IsLeastLeave(faces: seq<Face>, fraction: real, v: real) {
    && v <= fraction
    && (forall j :: 0 <= j < |faces| && Leaves(faces[j]) ==> v <= faces[j].Crossing())
    && (v == fraction || exists j :: 0 <= j < |faces| && Leaves(faces[j]) && v == faces[j].Crossing())
  }

  /** `v` is the greatest of 0 and all crossings of faces entered. */
  ghost predicate IsGreatestEnter(faces: seq<Face>, v: real) {
    && v >= 0.0
    && (forall i :: 0 <= i < |faces| && Enters(faces[i]) ==> v >= faces[i].Crossing())
    && (v == 0.0 || exists i :: 0 <= i < |faces| && Enters(faces[i]) && v == faces[i].Crossing())
  }

  // ---- whole lists ----

  /** The leave-only test culls exactly for one of these reasons; what survives is the least leave. */
  lemma {:induction false} LeaveOnlyCullsIff(faces: seq<Face>, fraction: real)
    ensures LeaveClipAll(faces, fraction).None? <==> SomeCullsAlone(faces, fraction) || LateForEarlier(faces)
    ensures LeaveClipAll(faces, fraction).Some? ==> IsLeastLeave(faces, fraction, LeaveClipAll(faces, fraction).value)
  {
    if faces != [] {
      var init, f := faces[..|faces| - 1], faces[|faces| - 1];
      assert faces == init + [f];
      LeaveOnlyCullsIff(init, fraction);
      AloneStep(init, f, fraction);
      var before := LeaveClipAll(init, fraction);
      if before.Some? {
        var v := before.value;
        LateStep(init, f, fraction, v);
        LeastLeaveStep(init, f, fraction, v);
        LeaveClipFaceCauses(f, fraction, v);
        hide SomeCullsAlone, LateForEarlier, IsLeastLeave, LeaveClipFace, Face.Crossing;
      } else {
        LateStays(init, f);
      }
    }
  }

  /** The test of both ends culls exactly for these reasons, whatever the order of the faces. */
  lemma {:induction false} BothEndsCullIff(faces: seq<Face>, fraction: real)
    ensures (var r := ClipAll(faces, Window(0.0, fraction));
             && (r.None? <==> SomeCullsAlone(faces, fraction) || LateForEarlier(faces) || LateForLater(faces))
             && (r.Some? ==> IsGreatestEnter(faces, r.value.enter) && IsLeastLeave(faces, fraction, r.value.leave)))
  {
    if faces != [] {
      var init, f := faces[..|faces| - 1], faces[|faces| - 1];
      assert faces == init + [f];
      BothEndsCullIff(init, fraction);
      AloneStep(init, f, fraction);
      var before := ClipAll(init, Window(0.0, fraction));
      if before.Some? {
        var w := before.value;
        LateStep(init, f, fraction, w.leave);
        EarlyStep(init, f, w.enter);
        LeastLeaveStep(init, f, fraction, w.leave);
        GreatestEnterStep(init, f, w.enter);
        ClipFaceCauses(f, fraction, w);
        hide SomeCullsAlone, LateForEarlier, LateForLater, IsLeastLeave, IsGreatestEnter, ClipFace, Face.Crossing;
      } else {
        LateStays(init, f);
      }
    }
  }

  /**
   * The leave-only test lets a segment through that the test of both ends rejects exactly if nothing it
   * looks at culls, yet some face is entered no earlier than a face that comes later in the list is left.
   */
  lemma VerdictsDifferIff(faces: seq<Face>, fraction: real)
    ensures ClipAll(faces, Window(0.0, fraction)).None? != LeaveClipAll(faces, fraction).None?
       <==> !SomeCullsAlone(faces, fraction) && !LateForEarlier(faces) && LateForLater(faces)
    ensures LeaveClipAll(faces, fraction).None? ==> ClipAll(faces, Window(0.0, fraction)).None?
  {
    hide *;
    LeaveOnlyCullsIff(faces, fraction);
    BothEndsCullIff(faces, fraction);
  }

  /** A first face entered at 0.9, a fifth left at 0.5, and nothing else. */
  lemma LateEntryIsMissed(faces: seq<Face>)
    requires |faces| == 6 && faces[0] == Face(9.0, -1.0) && faces[4] == Face(-1.0, 1.0)
    requires forall k :: k == 1 || k == 2 || k == 3 || k == 5 ==> faces[k].d1 <= 0.0 && faces[k].d2 <= 0.0
    ensures !SomeCullsAlone(faces, 1.0) && !LateForEarlier(faces) && LateForLater(faces)
    ensures ClipAll(faces, Window(0.0, 1.0)).None? && LeaveClipAll(faces, 1.0).Some?
  {
    assert Face(9.0, -1.0).Crossing() == 0.9 && Face(-1.0, 1.0).Crossing() == 0.5;
    hide ClipAll, LeaveClipAll, Face.Crossing;
    assert EntersTooLate(faces[0], faces[4]);
    VerdictsDifferIff(faces, 1.0);
  }

  /** Such a segment: it misses the box, yet only the test that tracks both ends says so. */
  lemma LeaveOnlyCanMissACull()
    ensures (var x := CalcTraceExtents(Vec3(-9.0, 0.0, 0.0), Vec3(1.0, 2.0, 0.0));
             var faces := SlabFaces(x, Vec3(0.0, -1.0, -1.0), Vec3(5.0, 1.0, 1.0));
             ClipAll(faces, Window(0.0, 1.0)).None? && LeaveClipAll(faces, 1.0).Some?)
  {
    var x := CalcTraceExtents(Vec3(-9.0, 0.0, 0.0), Vec3(1.0, 2.0, 0.0));
    hide ClipAll, LeaveClipAll, Inverse;
    LateEntryIsMissed(SlabFaces(x, Vec3(0.0, -1.0, -1.0), Vec3(5.0, 1.0, 1.0)));
  }

  /** The two routines side by side on one segment and box. */
  method CompareTests(x: TraceExtents, mins: Vec3, maxs: Vec3, fraction: real) returns (full: bool, cheap: bool)
    requires x.Valid() && 0.0 <= fraction <= 1.0
    ensures cheap ==> full
    ensures (var faces := SlabFaces(x, mins, maxs);
             full && !cheap <==> !SomeCullsAlone(faces, fraction) && !LateForEarlier(faces) && LateForLater(faces))
  {
    hide *;
    VerdictsDifferIff(SlabFaces(x, mins, maxs), fraction);
    full := TraceBoxBothEnds(x, mins, maxs, fraction);
    cheap := TraceBoxLeaveOnly(x, mins, maxs, fraction);
  }

  // ---- the causes, when a face is added at the end ----

  lemma AloneStep(init: seq<Face>, f: Face, fraction: real)
    ensures SomeCullsAlone(init + [f], fraction) <==> SomeCullsAlone(init, fraction) || CullsAlone(f, fraction)
  {
    hide CullsAlone;
    var faces := init + [f];
    assert faces[|init|] == f;
    if SomeCullsAlone(init, fraction) {
      var i :| 0 <= i < |init| && CullsAlone(init[i], fraction);
      assert CullsAlone(faces[i], fraction);
    }
  }

  /** A face entered at the end is too late for an earlier one, or on its own, exactly if it is for the least leave. */
  lemma LateStep(init: seq<Face>, f: Face, fraction: real, v: real)
    requires IsLeastLeave(init, fraction, v)
    ensures LateForEarlier(init + [f]) || (Enters(f) && f.Crossing() >= fraction)
       <==> LateForEarlier(init) || (Enters(f) && f.Crossing() >= v)
  {
    hide Face.Crossing;
    var faces := init + [f];
    if LateForEarlier(init) {
      var i, j :| 0 <= j < i < |init| && EntersTooLate(init[i], init[j]);
      assert EntersTooLate(faces[i], faces[j]);
    }
    if Enters(f) && f.Crossing() >= v && v != fraction {
      var j :| 0 <= j < |init| && Leaves(init[j]) && v == init[j].Crossing();
      assert EntersTooLate(faces[|init|], faces[j]);
    }
    if LateForEarlier(faces) {
      var i, j :| 0 <= j < i < |faces| && EntersTooLate(faces[i], faces[j]);
      if i < |init| {
        assert EntersTooLate(init[i], init[j]);
      } else {
        assert Leaves(init[j]) && faces[j] == init[j];
      }
    }
  }

  /** A face left at the end is too early for one entered before, or on its own, exactly if it is for the greatest enter. */
  lemma EarlyStep(init: seq<Face>, f: Face, v: real)
    requires IsGreatestEnter(init, v)
    ensures LateForLater(init + [f]) || (Leaves(f) && f.Crossing() <= 0.0)
       <==> LateForLater(init) || (Leaves(f) && f.Crossing() <= v)
  {
    hide Face.Crossing;
    var faces := init + [f];
    if LateForLater(init) {
      var i, j :| 0 <= i < j < |init| && EntersTooLate(init[i], init[j]);
      assert EntersTooLate(faces[i], faces[j]);
    }
    if Leaves(f) && f.Crossing() <= v && v != 0.0 {
      var i :| 0 <= i < |init| && Enters(init[i]) && v == init[i].Crossing();
      assert EntersTooLate(faces[i], faces[|init|]);
    }
    if LateForLater(faces) {
      var i, j :| 0 <= i < j < |faces| && EntersTooLate(faces[i], faces[j]);
      if j < |init| {
        assert EntersTooLate(init[i], init[j]);
      } else {
        assert Enters(init[i]) && faces[i] == init[i];
      }
    }
  }

  lemma LeastLeaveStep(init: seq<Face>, f: Face, fraction: real, v: real)
    requires IsLeastLeave(init, fraction, v)
    ensures IsLeastLeave(init + [f], fraction, if Leaves(f) && f.Crossing() < v then f.Crossing() else v)
  {
    hide Face.Crossing;
    var faces := init + [f];
    assert faces[|init|] == f;
    if v != fraction {
      var j :| 0 <= j < |init| && Leaves(init[j]) && v == init[j].Crossing();
      assert faces[j] == init[j];
    }
  }

  lemma GreatestEnterStep(init: seq<Face>, f: Face, v: real)
    requires IsGreatestEnter(init, v)
    ensures IsGreatestEnter(init + [f], if Enters(f) && v < f.Crossing() then f.Crossing() else v)
  {
    hide Face.Crossing;
    var faces := init + [f];
    assert faces[|init|] == f;
    if v != 0.0 {
      var i :| 0 <= i < |init| && Enters(init[i]) && v == init[i].Crossing();
      assert faces[i] == init[i];
    }
  }

  lemma LateStays(init: seq<Face>, f: Face)
    ensures LateForEarlier(init) ==> LateForEarlier(init + [f])
    ensures LateForLater(init) ==> LateForLater(init + [f])
  {
    hide EntersTooLate;
    var faces := init + [f];
    if LateForEarlier(init) {
      var i, j :| 0 <= j < i < |init| && EntersTooLate(init[i], init[j]);
      assert EntersTooLate(faces[i], faces[j]);
    }
    if LateForLater(init) {
      var i, j :| 0 <= i < j < |init| && EntersTooLate(init[i], init[j]);
      assert EntersTooLate(faces[i], faces[j]);
    }
  }

  // ---- what one face does ----

  lemma LeaveClipFaceCauses(f: Face, fraction: real, v: real)
    requires v <= fraction
    ensures LeaveClipFace(f, v).None? <==> CullsAlone(f, fraction) || (Enters(f) && f.Crossing() >= v)
    ensures LeaveClipFace(f, v).Some? ==>
              LeaveClipFace(f, v).value == if Leaves(f) && f.Crossing() < v then f.Crossing() else v
  {
    hide Face.Crossing;
  }

  lemma ClipFaceCauses(f: Face, fraction: real, w: Window)
    requires w.enter >= 0.0 && w.leave <= fraction
    ensures ClipFace(f, w).None?
       <==> CullsAlone(f, fraction) || (Enters(f) && f.Crossing() >= w.leave) || (Leaves(f) && f.Crossing() <= w.enter)
    ensures ClipFace(f, w).Some? ==>
              ClipFace(f, w).value == Window(if Enters(f) && w.enter < f.Crossing() then f.Crossing() else w.enter,
                                             if Leaves(f) && f.Crossing() < w.leave then f.Crossing() else w.leave)
  {
    hide Face.Crossing;
  }
}
