/** The stroke gesture of the update loop. Pressing the draw button starts a
    stroke at the mouse; while it is held, every tick on which the mouse has
    moved commits a segment from the stroke's start to the mouse and moves
    the start there (unless shift is held, which keeps the start fixed for a
    straight line); releasing commits a last segment to the mouse and ends
    the stroke. The step below says which segments a tick commits; the line
    store turns each into a line. */
module StrokeMachine {
  import opened Geometry
  import opened Controls

  datatype Stroke = Stroke(drawing: bool, start: Vec2, end: Vec2)

  datatype Segment = Segment(a: Vec2, b: Vec2)

  /** One tick of draw-button input and the mouse in world space. */
  datatype StrokeInput = StrokeInput(
    pressed: bool,    // draw button went down this tick
    held: bool,       // draw button is down
    released: bool,   // draw button went up this tick
    straight: bool,   // a shift key is held
    pointer: Vec2)

  datatype StrokeStep = StrokeStep(stroke: Stroke, segments: seq<Segment>)

  const Idle: Stroke := Stroke(false, Vec2(0.0, 0.0), Vec2(0.0, 0.0))

  /** The tick commits a mid-stroke segment: a stroke already in progress,
      the button held, the mouse away from the start and no shift. */
  predicate EmitsMid(st: Stroke, input: StrokeInput) {
    !input.pressed && st.drawing && input.held && st.start != input.pointer && !input.straight
  }

  /** The tick ends a stroke, committing its final segment. */
  predicate EmitsFinal(st: Stroke, input: StrokeInput) {
    (input.pressed || st.drawing) && input.released
  }

  /** One tick of the gesture: press, then hold, then release, in that order. */
  function Step(st: Stroke, input: StrokeInput): (r: StrokeStep)
    ensures |r.segments| == Presses(EmitsMid(st, input)) + Presses(EmitsFinal(st, input))
    ensures EmitsMid(st, input) ==> r.segments[0] == Segment(st.start, input.pointer)
    ensures EmitsFinal(st, input) ==> r.segments[|r.segments| - 1].b == input.pointer
    ensures EmitsFinal(st, input) && !EmitsMid(st, input) ==>
      r.segments[0].a == (if input.pressed then input.pointer else st.start)
    ensures |r.segments| == 2 ==> r.segments[0].b == r.segments[1].a
    ensures r.stroke.drawing <==> (input.pressed || st.drawing) && !input.released
    ensures r.stroke.drawing && |r.segments| > 0 ==> r.stroke.start == r.segments[|r.segments| - 1].b
    ensures !input.pressed && |r.segments| == 0 ==> r.stroke.start == st.start
    ensures input.pressed && |r.segments| == 0 ==> r.stroke.start == input.pointer
    ensures (input.pressed || st.drawing) && (input.held || input.released) ==> r.stroke.end == input.pointer
  {
    var p := input.pointer;
    var pressed := if input.pressed then Stroke(true, p, st.end) else st;
    var held :=
      if pressed.drawing && input.held then
        if pressed.start != p && !input.straight then StrokeStep(Stroke(true, p, p), [Segment(pressed.start, p)])
        else StrokeStep(pressed.(end := p), [])
      else StrokeStep(pressed, []);
    if held.stroke.drawing && input.released then
      StrokeStep(Stroke(false, held.stroke.start, p), held.segments + [Segment(held.stroke.start, p)])
    else held
  }

  /** The segments a run of ticks commits, in order, and the stroke after it. */
  function Run(st: Stroke, inputs: seq<StrokeInput>): StrokeStep
    decreases |inputs|
  {
    if |inputs| == 0 then StrokeStep(st, [])
    else
      var first := Step(st, inputs[0]);
      var rest := Run(first.stroke, inputs[1..]);
      StrokeStep(rest.stroke, first.segments + rest.segments)
  }

  /** Consecutive segments share their endpoint. */
  predicate Chained(segments: seq<Segment>) {
    forall i :: 0 <= i < |segments| - 1 ==> segments[i].b == segments[i + 1].a
  }

  predicate NoPress(inputs: seq<StrokeInput>) {
    forall i :: 0 <= i < |inputs| ==> !inputs[i].pressed
  }

  /** Within one stroke the committed segments form a connected polyline
      starting at the stroke's start: between presses every segment begins
      where the previous one ended. */
  lemma {:induction false} StrokeIsConnected(st: Stroke, inputs: seq<StrokeInput>)
    requires NoPress(inputs)
    ensures Chained(Run(st, inputs).segments)
    ensures |Run(st, inputs).segments| > 0 ==> Run(st, inputs).segments[0].a == st.start
    ensures !st.drawing ==> Run(st, inputs).segments == []
    decreases |inputs|
  {
    if |inputs| > 0 {
      var first := Step(st, inputs[0]);
      var rest := Run(first.stroke, inputs[1..]);
      StrokeIsConnected(first.stroke, inputs[1..]);
      var all := first.segments + rest.segments;
      assert Run(st, inputs).segments == all;
      if |rest.segments| > 0 && |first.segments| > 0 {
        assert first.stroke.drawing;
        assert first.segments[|first.segments| - 1].b == rest.segments[0].a;
      }
      forall i | 0 <= i < |all| - 1 ensures all[i].b == all[i + 1].a {
        if i + 1 < |first.segments| {
          assert all[i] == first.segments[i] && all[i + 1] == first.segments[i + 1];
        } else if i >= |first.segments| {
          assert all[i] == rest.segments[i - |first.segments|];
          assert all[i + 1] == rest.segments[i + 1 - |first.segments|];
        }
      }
    }
  }

  /** Holding shift through a stroke commits nothing until the release,
      which commits one straight segment from where the stroke started. */
  lemma StraightLine(st: Stroke, hold: seq<StrokeInput>, release: StrokeInput)
    requires st.drawing
    requires forall i :: 0 <= i < |hold| ==> !hold[i].pressed && hold[i].held && !hold[i].released && hold[i].straight
    requires !release.pressed && release.released && release.straight
    ensures Run(st, hold + [release]).segments == [Segment(st.start, release.pointer)]
    ensures !Run(st, hold + [release]).stroke.drawing
  {
    HoldStraight(st, hold);
    RunAppend(st, hold, release);
  }

  lemma {:induction false} HoldStraight(st: Stroke, hold: seq<StrokeInput>)
    requires st.drawing
    requires forall i :: 0 <= i < |hold| ==> !hold[i].pressed && hold[i].held && !hold[i].released && hold[i].straight
    ensures Run(st, hold).segments == []
    ensures Run(st, hold).stroke.drawing && Run(st, hold).stroke.start == st.start
    decreases |hold|
  {
    if |hold| > 0 {
      HoldStraight(Step(st, hold[0]).stroke, hold[1..]);
    }
  }

  /** Running a tick after a run is running the longer sequence. */
  lemma {:induction false} RunAppend(st: Stroke, inputs: seq<StrokeInput>, last: StrokeInput)
    ensures var before := Run(st, inputs);
      var final := Step(before.stroke, last);
      Run(st, inputs + [last]) == StrokeStep(final.stroke, before.segments + final.segments)
    decreases |inputs|
  {
    if |inputs| == 0 {
      assert inputs + [last] == [last];
    } else {
      assert (inputs + [last])[1..] == inputs[1..] + [last];
      RunAppend(Step(st, inputs[0]).stroke, inputs[1..], last);
    }
  }
}
