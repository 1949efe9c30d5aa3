/**
 * Clipping a stretch of a segment against half-spaces, one face at a time. A face is known by the
 * signed distances of the two segment ends; the point at fraction t is inside when the distance
 * interpolated at t is not positive.
 */
module Clip {
  import opened Vectors

  datatype Option<T> = None | Some(value: T)

  datatype Face = Face(d1: real, d2: real) {
    function At(t: real): real { d1 + t * (d2 - d1) }

    /** Where the segment crosses the face. */
    function Crossing(): real
      requires d1 != d2
    {
      d1 / (d1 - d2)
    }
  }

  datatype Window = Window(enter: real, leave: real) {
    predicate Has(t: real) { enter <= t <= leave }
    predicate Within() { 0.0 <= enter <= leave <= 1.0 }
  }

  function ClipFace(f: Face, w: Window): Option<Window> {
    if f.d1 <= 0.0 then
      if f.d2 > 0.0 then
        if w.enter >= f.Crossing() then None
        else if f.Crossing() < w.leave then Some(Window(w.enter, f.Crossing()))
        else Some(w)
      else Some(w)
    else if f.d2 > 0.0 then None
    else if f.Crossing() >= w.leave then None
    else if w.enter < f.Crossing() then Some(Window(f.Crossing(), w.leave))
    else Some(w)
  }

  function ClipAll(faces: seq<Face>, w: Window): Option<Window> {
    if faces == [] then Some(w)
    else
      var before := ClipAll(faces[..|faces| - 1], w);
      if before.None? then None else ClipFace(faces[|faces| - 1], before.value)
  }

  ghost predicate InsideAll(faces: seq<Face>, t: real) {
    forall f :: f in faces ==> f.At(t) <= 0.0
  }

  /** No two different fractions of the window are inside all faces. */
  ghost predicate AtMostTouches(faces: seq<Face>, w: Window) {
    forall t1, t2 :: w.Has(t1) && w.Has(t2) && InsideAll(faces, t1) && InsideAll(faces, t2) ==> t1 == t2
  }

  lemma CrossingSplits(f: Face, t: real)
    requires f.d1 != f.d2
    ensures f.At(t) == (f.d1 - f.d2) * (f.Crossing() - t)
    ensures f.d1 < f.d2 ==> (f.At(t) <= 0.0 <==> t <= f.Crossing())
    ensures f.d1 > f.d2 ==> (f.At(t) <= 0.0 <==> t >= f.Crossing())
  {
    var d, c := f.d1 - f.d2, f.Crossing();
    assert d * c == f.d1;
    var x := c - t;
    assert f.At(t) == d * x;
    if d > 0.0 && x > 0.0 { ProductPositive(d, x); }
    if d > 0.0 && x <= 0.0 { ProductNonNegative(d, -x); }
    if d < 0.0 && x >= 0.0 { ProductNonNegative(-d, x); }
    if d < 0.0 && x < 0.0 { ProductPositive(-d, -x); }
  }

  /** One face: what remains of a window is exactly its part inside the face. */
  lemma ClipFaceExact(f: Face, w: Window)
    requires w.Within()
    ensures ClipFace(f, w).Some? ==>
              var w' := ClipFace(f, w).value;
              && w'.Within()
              && (w.enter < w.leave ==> w'.enter < w'.leave)
              && forall t :: w'.Has(t) <==> w.Has(t) && f.At(t) <= 0.0
    ensures ClipFace(f, w).None? ==>
              forall t1, t2 :: w.Has(t1) && w.Has(t2) && f.At(t1) <= 0.0 && f.At(t2) <= 0.0 ==> t1 == t2
  {
    hide Face.At;
    forall t: real
      ensures f.d1 < f.d2 ==> (f.At(t) <= 0.0 <==> t <= f.Crossing())
      ensures f.d1 > f.d2 ==> (f.At(t) <= 0.0 <==> t >= f.Crossing())
      ensures 0.0 <= t <= 1.0 && f.d1 <= 0.0 && f.d2 <= 0.0 ==> f.At(t) <= 0.0
      ensures 0.0 <= t <= 1.0 && f.d1 > 0.0 && f.d2 > 0.0 ==> f.At(t) > 0.0
    {
      if f.d1 != f.d2 { CrossingSplits(f, t); }
      if 0.0 <= t <= 1.0 { BothSides(f, t); }
    }
    if f.d1 != f.d2 {
      EndsAgainstCrossing(f);
    }
  }

  lemma BothSides(f: Face, t: real)
    requires 0.0 <= t <= 1.0
    ensures f.d1 <= 0.0 && f.d2 <= 0.0 ==> f.At(t) <= 0.0
    ensures f.d1 > 0.0 && f.d2 > 0.0 ==> f.At(t) > 0.0
  {
    assert f.At(t) == (1.0 - t) * f.d1 + t * f.d2;
    hide Face.At;
    if f.d1 <= 0.0 && f.d2 <= 0.0 {
      ProductNonNegative(1.0 - t, -f.d1);
      ProductNonNegative(t, -f.d2);
    } else if f.d1 > 0.0 && f.d2 > 0.0 {
      WeightedPositive(f.d1, f.d2, t);
    }
  }

  lemma WeightedPositive(a: real, b: real, t: real)
    requires 0.0 <= t <= 1.0 && a > 0.0 && b > 0.0
    ensures (1.0 - t) * a + t * b > 0.0
  {
    if t > 0.0 {
      ProductNonNegative(1.0 - t, a);
      ProductPositive(t, b);
    }
  }

  lemma EndsAgainstCrossing(f: Face)
    requires f.d1 != f.d2
    ensures f.d1 <= 0.0 < f.d2 ==> 0.0 <= f.Crossing() < 1.0
    ensures f.d2 <= 0.0 < f.d1 ==> 0.0 < f.Crossing() <= 1.0
  {
    CrossingSplits(f, 0.0);
    CrossingSplits(f, 1.0);
  }

  /** Every face list: the surviving window is exactly the inside part; failure leaves at most one point. */
  lemma {:induction false} ClipAllExact(faces: seq<Face>, w: Window)
    requires w.Within()
    ensures ClipAll(faces, w).Some? ==>
              var w' := ClipAll(faces, w).value;
              && w'.Within()
              && (w.enter < w.leave ==> w'.enter < w'.leave)
              && forall t :: w'.Has(t) <==> w.Has(t) && InsideAll(faces, t)
    ensures ClipAll(faces, w).None? ==> AtMostTouches(faces, w)
  {
    if faces != [] {
      var init, last := faces[..|faces| - 1], faces[|faces| - 1];
      assert faces == init + [last];
      ClipAllExact(init, w);
      var before := ClipAll(init, w);
      if before.Some? {
        ClipFaceExact(last, before.value);
      }
    }
  }

  /** With room to start from, the clip survives exactly when two different fractions are inside. */
  lemma ClipSurvives(faces: seq<Face>, w: Window)
    requires w.Within() && w.enter < w.leave
    ensures ClipAll(faces, w).Some? <==> !AtMostTouches(faces, w)
  {
    ClipAllExact(faces, w);
    if ClipAll(faces, w).Some? {
      var w' := ClipAll(faces, w).value;
      assert w'.Has(w'.enter) && w'.Has(w'.leave);
    }
  }

  ghost predicate StrictlyInsideAll(faces: seq<Face>, t: real) {
    forall f :: f in faces ==> f.At(t) < 0.0
  }

  /** A strictly inside fraction has inside fractions on its right. */
  lemma {:induction false} InsideToTheRight(faces: seq<Face>, t: real, room: real) returns (t2: real)
    requires StrictlyInsideAll(faces, t) && room > 0.0
    ensures t < t2 <= t + room && InsideAll(faces, t2)
    ensures forall s :: t <= s <= t2 ==> InsideAll(faces, s)
  {
    if faces == [] {
      t2 := t + room;
    } else {
      var init, last := faces[..|faces| - 1], faces[|faces| - 1];
      assert faces == init + [last];
      hide Face.At;
      var a := InsideToTheRight(init, t, room);
      var b := FaceToTheRight(last, t, room);
      t2 := if a < b then a else b;
      forall s | t <= s <= t2
        ensures InsideAll(faces, s)
      {
        assert InsideAll(init, s);
      }
    }
  }

  lemma FaceToTheRight(f: Face, t: real, room: real) returns (t2: real)
    requires f.At(t) < 0.0 && room > 0.0
    ensures t < t2 <= t + room && forall s :: t <= s <= t2 ==> f.At(s) <= 0.0
  {
    var d, slope := f.At(t), f.d2 - f.d1;
    t2 := t + room;
    if slope > 0.0 && d + slope * room > 0.0 {
      t2 := t - d / slope;
      assert slope * (t2 - t) == -d;
      if t2 <= t { ProductNonNegative(slope, t - t2); }
      if t2 > t + room { ProductNonNegative(slope, t2 - t - room); }
    }
    forall s | t <= s <= t2
      ensures f.At(s) <= 0.0
    {
      assert f.At(s) == d + slope * (s - t);
      if slope > 0.0 { ProductNonNegative(slope, t2 - s); } else { ProductNonNegative(-slope, s - t); }
    }
  }

  /** A failed clip of the whole segment leaves nothing strictly inside. */
  lemma NothingStrictlyInside(faces: seq<Face>, t: real)
    requires ClipAll(faces, Window(0.0, 1.0)).None? && 0.0 < t < 1.0
    ensures !StrictlyInsideAll(faces, t)
  {
    ClipAllExact(faces, Window(0.0, 1.0));
    if StrictlyInsideAll(faces, t) {
      var t2 := InsideToTheRight(faces, t, 1.0 - t);
      assert Window(0.0, 1.0).Has(t) && Window(0.0, 1.0).Has(t2);
    }
  }
}
