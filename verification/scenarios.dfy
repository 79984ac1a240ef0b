/** Worked examples of the line store and the tree, stated as lemmas. */
module Scenarios {
  import opened Geometry
  import opened Wrappers
  import opened SpatialIndex
  import opened LineStore

  /** A segment from (0,0) to (10,0) of radius 1 becomes line 0 with box
      (-1,-1) size 12x2; a query around the origin reports it and one far
      away does not. */
  lemma FirstLineQueries()
    ensures var r := Emit(LineStore.Empty, Vec2(0.0, 0.0), Vec2(10.0, 0.0), 1.0);
      && r.Success?
      && r.value.lines.Keys == {0}
      && r.value.lines[0].aabb == Rect(-1.0, -1.0, 12.0, 2.0)
      && QueryIds(r.value.tree, Rect(-5.0, -5.0, 10.0, 10.0)) == {0}
      && QueryIds(r.value.tree, Rect(20.0, 20.0, 5.0, 5.0)) == {}
  {
    EmptyValid();
    EmitStep(LineStore.Empty, Vec2(0.0, 0.0), Vec2(10.0, 0.0), 1.0);
    var s := Emit(LineStore.Empty, Vec2(0.0, 0.0), Vec2(10.0, 0.0), 1.0).value;
    QueryInStore(s, Rect(-5.0, -5.0, 10.0, 10.0));
    QueryInStore(s, Rect(20.0, 20.0, 5.0, 5.0));
  }

  /** Three lines get ids 0, 1, 2; undo removes line 2 and leaves the
      counter at 2; the next line reuses id 2 and the store holds three. */
  lemma UndoReusesId(p: Vec2, q: Vec2, radius: real)
    ensures var s1 := Emit(LineStore.Empty, p, q, radius).value;
      var s2 := Emit(s1, p, q, radius).value;
      var s3 := Emit(s2, p, q, radius).value;
      var u := Undo(s3).value;
      var s4 := Emit(u, p, q, radius).value;
      && s3.lines.Keys == {0, 1, 2}
      && u.nextId == 2 && u.lines.Keys == {0, 1}
      && s4.lines.Keys == {0, 1, 2} && s4.lines[2].id == 2
      && |s4.lines| == 3
  {
    EmptyValid();
    EmitStep(LineStore.Empty, p, q, radius);
    var s1 := Emit(LineStore.Empty, p, q, radius).value;
    assert s1.nextId == 1 && s1.lines.Keys == {0};
    EmitStep(s1, p, q, radius);
    var s2 := Emit(s1, p, q, radius).value;
    assert s2.nextId == 2 && s2.lines.Keys == {0, 1};
    EmitStep(s2, p, q, radius);
    var s3 := Emit(s2, p, q, radius).value;
    assert s3.nextId == 3 && s3.lines.Keys == {0, 1, 2};
    UndoStep(s3);
    var u := Undo(s3).value;
    assert u.nextId == 2 && u.lines.Keys == {0, 1};
    EmitStep(u, p, q, radius);
    var s4 := Emit(u, p, q, radius).value;
    assert s4.lines.Keys == {0, 1, 2};
    CountIsNextId(s4);
  }

  /** Undo on an empty store changes nothing. */
  lemma UndoOnEmpty()
    ensures Undo(LineStore.Empty) == Success(LineStore.Empty)
  {
  }
}
