/** One update tick of the canvas, composed in the order the game runs it:
    the camera update, then undo, then the stroke gesture, whose segments
    are committed to the line store one after the other. */
module Canvas {
  import opened Geometry
  import opened Wrappers
  import opened LineStore
  import opened CameraControl
  import opened StrokeMachine

  /** Half the stroke thickness, in screen pixels. */
  const BrushRadius: real := 10.0

  /** Everything a tick reads from outside: the camera's input, the undo
      chord (control + Z pressed), the draw button and shift, and the
      camera's screen-to-world scale after its update. */
  datatype Input = Input(
    camera: CameraInput,
    undo: bool,
    drawPressed: bool,
    drawHeld: bool,
    drawReleased: bool,
    straight: bool,
    worldScale: real)

  /** The brush radius in world units for this tick's camera scale. */
  function LineRadius(input: Input): real {
    BrushRadius * input.worldScale
  }

  datatype State = State(store: Store, stroke: Stroke, camera: Camera)

  const Initial: State := State(LineStore.Empty, Idle, CameraControl.Initial)

  /** The invariant every reachable state keeps. */
  ghost predicate Inv(g: State) {
    Valid(g.store) && ZoomInRange(g.camera)
  }

  /** Commits the segments in order, each under the next id. */
  function CommitAll(s: Store, segments: seq<Segment>, radius: real): (r: Result<Store>)
    ensures r.Success? ==> r.value.nextId == s.nextId + |segments|
    ensures r.Success? ==> forall k :: k in s.lines ==> k in r.value.lines && r.value.lines[k] == s.lines[k]
    decreases |segments|
  {
    if |segments| == 0 then Success(s)
    else
      var next :- Emit(s, segments[0].a, segments[0].b, radius);
      CommitAll(next, segments[1..], radius)
  }

  /** The i-th committed segment becomes the line with id nextId + i, with
      the segment's endpoints and the tick's radius. */
  lemma {:induction false} CommitAllLines(s: Store, segments: seq<Segment>, radius: real, i: nat)
    requires CommitAll(s, segments, radius).Success?
    requires i < |segments|
    ensures var r := CommitAll(s, segments, radius).value;
      && s.nextId + i in r.lines
      && r.lines[s.nextId + i].id == s.nextId + i
      && r.lines[s.nextId + i].a == segments[i].a
      && r.lines[s.nextId + i].b == segments[i].b
      && r.lines[s.nextId + i].radius == radius
    decreases |segments|
  {
    var next := Emit(s, segments[0].a, segments[0].b, radius).value;
    if i > 0 {
      CommitAllLines(next, segments[1..], radius, i - 1);
      assert segments[1..][i - 1] == segments[i];
    }
  }

  /** On a valid store committing never faults, keeps the invariant and adds
      exactly one line per segment. */
  lemma {:induction false} CommitAllStep(s: Store, segments: seq<Segment>, radius: real)
    requires Valid(s)
    ensures CommitAll(s, segments, radius).Success?
    ensures Valid(CommitAll(s, segments, radius).value)
    ensures |CommitAll(s, segments, radius).value.lines| == |s.lines| + |segments|
    decreases |segments|
  {
    if |segments| > 0 {
      EmitStep(s, segments[0].a, segments[0].b, radius);
      CommitAllStep(Emit(s, segments[0].a, segments[0].b, radius).value, segments[1..], radius);
    }
  }

  /** The undo control: the store after it, or the runtime's exception. */
  function UndoIf(s: Store, pressed: bool): Result<Store>
  {
    if pressed then Undo(s) else Success(s)
  }

  /** The segments the gesture commits this tick, and the gesture after it. */
  function Gesture(g: State, input: Input, pointer: Vec2): StrokeStep
  {
    Step(g.stroke, StrokeInput(input.drawPressed, input.drawHeld, input.drawReleased, input.straight, pointer))
  }

  /** Update: camera, undo, stroke, commits. A fault is an exception the
      runtime would raise out of the update loop. */
  function Tick(g: State, input: Input): (r: Result<State>)
    ensures r.Success? ==> r.value.camera == UpdateCamera(g.camera, input.camera).camera
  {
    var cam := UpdateCamera(g.camera, input.camera);
    var store :- UndoIf(g.store, input.undo);
    var gesture := Gesture(g, input, cam.pointer);
    var store' :- CommitAll(store, gesture.segments, LineRadius(input));
    Success(State(store', gesture.stroke, cam.camera))
  }

  /** The segments a tick commits. */
  function Committed(g: State, input: Input): seq<Segment>
  {
    Gesture(g, input, UpdateCamera(g.camera, input.camera).pointer).segments
  }

  /** Tick in terms of its parts, once neither part has raised. */
  lemma TickUnfold(g: State, input: Input)
    requires UndoIf(g.store, input.undo).Success?
    requires CommitAll(UndoIf(g.store, input.undo).value, Committed(g, input), LineRadius(input)).Success?
    ensures Tick(g, input) == Success(State(
      CommitAll(UndoIf(g.store, input.undo).value, Committed(g, input), LineRadius(input)).value,
      Gesture(g, input, UpdateCamera(g.camera, input.camera).pointer).stroke,
      UpdateCamera(g.camera, input.camera).camera))
  {
  }

  /** How many lines the undo control removes: one when pressed with a line
      present, none otherwise. */
  function Undone(s: Store, pressed: bool): nat {
    if pressed && |s.lines| > 0 then 1 else 0
  }

  /** Undo on a valid store: never faults, keeps the invariant and removes
      one line exactly when it was pressed and there was a line. */
  lemma UndoIfStep(s: Store, pressed: bool)
    requires Valid(s)
    ensures UndoIf(s, pressed).Success? && Valid(UndoIf(s, pressed).value)
    ensures |UndoIf(s, pressed).value.lines| == |s.lines| - Undone(s, pressed)
    ensures UndoIf(s, pressed).value.nextId == s.nextId - Undone(s, pressed)
  {
    UndoStep(s);
  }

  /** A tick from a state with the invariant never raises and keeps the
      invariant; the line count moves by the undo and the committed segments. */
  lemma TickStep(g: State, input: Input)
    requires Inv(g)
    ensures Tick(g, input).Success? && Inv(Tick(g, input).value)
    ensures |Tick(g, input).value.store.lines| ==
      |g.store.lines| - Undone(g.store, input.undo) + |Committed(g, input)|
  {
    UndoIfStep(g.store, input.undo);
    var store := UndoIf(g.store, input.undo).value;
    CommitAllStep(store, Committed(g, input), LineRadius(input));
    TickUnfold(g, input);
  }

  /** On a state with the invariant both parts of a tick succeed, and the
      tick's store is the committed store. */
  lemma TickParts(g: State, input: Input)
    requires Inv(g)
    ensures UndoIf(g.store, input.undo).Success?
    ensures CommitAll(UndoIf(g.store, input.undo).value, Committed(g, input), LineRadius(input)).Success?
    ensures Tick(g, input).Success?
    ensures Tick(g, input).value.store ==
      CommitAll(UndoIf(g.store, input.undo).value, Committed(g, input), LineRadius(input)).value
  {
    UndoIfStep(g.store, input.undo);
    CommitAllStep(UndoIf(g.store, input.undo).value, Committed(g, input), LineRadius(input));
    TickUnfold(g, input);
  }

  /** The tick succeeded and its store holds, under id, a line drawn along
      the segment with the given radius. */
  predicate HoldsLine(r: Result<State>, id: int, segment: Segment, radius: real) {
    && r.Success?
    && id in r.value.store.lines
    && var l := r.value.store.lines[id];
       l.id == id && l.a == segment.a && l.b == segment.b && l.radius == radius
  }

  /** The segments of a tick's gesture become the newest lines, in order,
      with consecutive ids starting at the counter left by the undo (which
      UndoIfStep relates to the counter before the tick), each with the
      brush radius scaled to world units. */
  lemma TickCommitsGesture(g: State, input: Input, i: nat)
    requires Inv(g)
    requires i < |Committed(g, input)|
    ensures UndoIf(g.store, input.undo).Success?
    ensures HoldsLine(Tick(g, input), UndoIf(g.store, input.undo).value.nextId + i,
                      Committed(g, input)[i], LineRadius(input))
  {
    TickParts(g, input);
    PartsCommitGesture(g, input, i);
  }

  /** TickCommitsGesture once both parts of the tick are known to succeed. */
  lemma PartsCommitGesture(g: State, input: Input, i: nat)
    requires i < |Committed(g, input)|
    requires UndoIf(g.store, input.undo).Success?
    requires CommitAll(UndoIf(g.store, input.undo).value, Committed(g, input), LineRadius(input)).Success?
    requires Tick(g, input).Success?
    requires Tick(g, input).value.store ==
      CommitAll(UndoIf(g.store, input.undo).value, Committed(g, input), LineRadius(input)).value
    ensures HoldsLine(Tick(g, input), UndoIf(g.store, input.undo).value.nextId + i,
                      Committed(g, input)[i], LineRadius(input))
  {
    CommitAllLines(UndoIf(g.store, input.undo).value, Committed(g, input), LineRadius(input), i);
  }

  /** The state after a run of ticks, or the first fault. */
  function Run(g: State, inputs: seq<Input>): Result<State>
    decreases |inputs|
  {
    if |inputs| == 0 then Success(g)
    else
      var next :- Tick(g, inputs[0]);
      Run(next, inputs[1..])
  }

  /** The game starts in a state with the invariant. */
  lemma InitialInv()
    ensures Inv(Initial)
  {
    EmptyValid();
  }

  /** No sequence of inputs makes the update loop raise: the dictionary
      never sees a duplicate key or a missing key and the tree never a dead
      leaf, and every reachable state keeps the store invariant and the zoom
      range. */
  lemma {:induction false} RunNeverFaults(g: State, inputs: seq<Input>)
    requires Inv(g)
    ensures Run(g, inputs).Success? && Inv(Run(g, inputs).value)
    decreases |inputs|
  {
    if |inputs| > 0 {
      TickStep(g, inputs[0]);
      RunNeverFaults(Tick(g, inputs[0]).value, inputs[1..]);
    }
  }

  /** From start-up, every reachable state has dense ids, a tree in step
      with the dictionary and a zoom inside [-4, 4]. */
  lemma Reachable(inputs: seq<Input>)
    ensures Run(Initial, inputs).Success?
    ensures Inv(Run(Initial, inputs).value)
    ensures |Run(Initial, inputs).value.store.lines| == Run(Initial, inputs).value.store.nextId
  {
    InitialInv();
    RunNeverFaults(Initial, inputs);
    CountIsNextId(Run(Initial, inputs).value.store);
  }
}
