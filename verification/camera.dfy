/** The camera controller of the update loop: scroll moves the zoom
    target, two keys turn the rotation target by a fixed step, the middle
    button drags the world, and every tick the zoom exponent and rotation
    chase their targets. The world position of the mouse and the camera's
    screen/world conversions come from the camera library and enter the
    model as per-tick inputs. */
module CameraControl {
  import opened Geometry
  import opened Smoothing
  import opened Controls

  const Speed: real := 0.08
  const SnapDistance: real := 0.001
  /** Zoom exponent change per unit of scroll-wheel delta. */
  const ExpPerScroll: real := 0.002
  /** The zoom target range; the source names the lower bound _maxExp and the
      upper bound _minExp. */
  const LowestExp: real := -4.0
  const HighestExp: real := 4.0
  /** MathHelper.PiOver4 as the single-precision value the source adds. */
  const RotationStep: real := 0.785398185253143310546875

  datatype Camera = Camera(
    xy: Vec2,
    exponent: real,      // zoom as an exponent: scale = e^(-exponent)
    rotation: real,
    targetExp: real,
    targetRotation: real,
    dragAnchor: Vec2,
    dragging: bool)

  /** One tick of camera input. */
  datatype CameraInput = CameraInput(
    scrollDelta: int,    // wheel change since the last tick; non-zero means Scrolled()
    rotateLeft: bool,    // comma pressed this tick
    rotateRight: bool,   // period pressed this tick
    dragPressed: bool,   // middle button went down this tick
    dragHeldOnly: bool,  // middle button down on this and the previous tick
    dragReleased: bool,  // middle button went up this tick
    pointer: Vec2)       // the mouse in world space, from the camera library

  datatype CameraStep = CameraStep(camera: Camera, pointer: Vec2)

  const Initial: Camera := Camera(Vec2(0.0, 0.0), 0.0, 0.0, 0.0, 0.0, Vec2(0.0, 0.0), false)

  /** The zoom target and the current exponent stay in the allowed range. */
  predicate ZoomInRange(c: Camera) {
    LowestExp <= c.targetExp <= HighestExp && LowestExp <= c.exponent <= HighestExp
  }

  /** The zoom target after a tick's scroll: unchanged without scrolling,
      otherwise moved against the wheel and kept inside the range. */
  function ScrollTarget(targetExp: real, scrollDelta: int): (r: real)
    ensures scrollDelta == 0 ==> r == targetExp
    ensures scrollDelta != 0 ==> LowestExp <= r <= HighestExp
    ensures scrollDelta != 0 && Between(targetExp - scrollDelta as real * ExpPerScroll, LowestExp, HighestExp) ==>
      r == targetExp - scrollDelta as real * ExpPerScroll
    ensures scrollDelta != 0 && targetExp - scrollDelta as real * ExpPerScroll > HighestExp ==> r == HighestExp
    ensures scrollDelta != 0 && targetExp - scrollDelta as real * ExpPerScroll < LowestExp ==> r == LowestExp
  {
    if scrollDelta != 0 then Clamp(targetExp - scrollDelta as real * ExpPerScroll, LowestExp, HighestExp)
    else targetExp
  }

  /** The rotation target after a tick: one step up per rotate-left press and
      one step down per rotate-right press. */
  function RotateTarget(targetRotation: real, left: bool, right: bool): (r: real)
    ensures r - targetRotation == (Presses(left) - Presses(right)) as real * RotationStep
  {
    var afterLeft := if left then targetRotation + RotationStep else targetRotation;
    if right then afterLeft - RotationStep else afterLeft
  }

  /** UpdateCamera: retargets, applies the drag, then smooths zoom and
      rotation one step. Returns the camera and the mouse world position the
      rest of the tick sees (pinned to the drag anchor while dragging). */
  function UpdateCamera(c: Camera, input: CameraInput): (r: CameraStep)
    ensures ZoomInRange(c) ==> ZoomInRange(r.camera)
    ensures r.camera.targetExp == ScrollTarget(c.targetExp, input.scrollDelta)
    ensures r.camera.targetRotation == RotateTarget(c.targetRotation, input.rotateLeft, input.rotateRight)
    ensures r.camera.dragAnchor == if input.dragPressed then input.pointer else c.dragAnchor
    ensures r.camera.exponent == Interpolate(c.exponent, r.camera.targetExp, Speed, SnapDistance)
    ensures r.camera.rotation == Interpolate(c.rotation, r.camera.targetRotation, Speed, SnapDistance)
    ensures Between(r.camera.exponent, c.exponent, r.camera.targetExp)
    ensures Between(r.camera.rotation, c.rotation, r.camera.targetRotation)
    ensures r.camera.dragging <==> (c.dragging || input.dragPressed) && !input.dragReleased
    ensures (c.dragging || input.dragPressed) && input.dragHeldOnly ==>
      && r.pointer == r.camera.dragAnchor
      && r.camera.xy == Vec2(c.xy.x + (r.camera.dragAnchor.x - input.pointer.x),
                             c.xy.y + (r.camera.dragAnchor.y - input.pointer.y))
    ensures !((c.dragging || input.dragPressed) && input.dragHeldOnly) ==>
      r.pointer == input.pointer && r.camera.xy == c.xy
  {
    var targetExp := ScrollTarget(c.targetExp, input.scrollDelta);
    var targetRotation := RotateTarget(c.targetRotation, input.rotateLeft, input.rotateRight);
    var anchor := if input.dragPressed then input.pointer else c.dragAnchor;
    var dragging := c.dragging || input.dragPressed;
    var moved := dragging && input.dragHeldOnly;
    var xy := if moved then Vec2(c.xy.x + (anchor.x - input.pointer.x), c.xy.y + (anchor.y - input.pointer.y)) else c.xy;
    var pointer := if moved then anchor else input.pointer;
    var stillDragging := if dragging && input.dragReleased then false else dragging;
    var exponent := Interpolate(c.exponent, targetExp, Speed, SnapDistance);
    var rotation := Interpolate(c.rotation, targetRotation, Speed, SnapDistance);
    CameraStep(Camera(xy, exponent, rotation, targetExp, targetRotation, anchor, stillDragging), pointer)
  }

  /** The camera after a run of ticks. */
  function CameraRun(c: Camera, inputs: seq<CameraInput>): Camera
    decreases |inputs|
  {
    if |inputs| == 0 then c else CameraRun(UpdateCamera(c, inputs[0]).camera, inputs[1..])
  }

  function NetTurns(inputs: seq<CameraInput>): int
    decreases |inputs|
  {
    if |inputs| == 0 then 0
    else Presses(inputs[0].rotateLeft) - Presses(inputs[0].rotateRight) + NetTurns(inputs[1..])
  }

  /** Over any run the rotation target has moved by exactly one step per
      rotate-left press minus one per rotate-right press. */
  lemma {:induction false} RotationTargetRun(c: Camera, inputs: seq<CameraInput>)
    ensures CameraRun(c, inputs).targetRotation == c.targetRotation + NetTurns(inputs) as real * RotationStep
    decreases |inputs|
  {
    if |inputs| > 0 {
      var next := UpdateCamera(c, inputs[0]).camera;
      RotationTargetRun(next, inputs[1..]);
    }
  }

  /** The zoom target and exponent never leave [-4, 4] on any run that
      starts inside it, whatever is scrolled. */
  lemma {:induction false} ZoomRangeRun(c: Camera, inputs: seq<CameraInput>)
    requires ZoomInRange(c)
    ensures ZoomInRange(CameraRun(c, inputs))
    decreases |inputs|
  {
    if |inputs| > 0 {
      ZoomRangeRun(UpdateCamera(c, inputs[0]).camera, inputs[1..]);
    }
  }

  predicate NoScroll(inputs: seq<CameraInput>) {
    forall i :: 0 <= i < |inputs| ==> inputs[i].scrollDelta == 0
  }

  /** Without scrolling the zoom exponent follows the smoothing chase toward
      a fixed target. */
  lemma {:induction false} ExponentChases(c: Camera, inputs: seq<CameraInput>)
    requires NoScroll(inputs)
    ensures CameraRun(c, inputs).targetExp == c.targetExp
    ensures CameraRun(c, inputs).exponent == Chase(c.exponent, c.targetExp, Speed, SnapDistance, |inputs|)
    decreases |inputs|
  {
    if |inputs| > 0 {
      ExponentChases(UpdateCamera(c, inputs[0]).camera, inputs[1..]);
    }
  }

  predicate NoRotate(inputs: seq<CameraInput>) {
    forall i :: 0 <= i < |inputs| ==> !inputs[i].rotateLeft && !inputs[i].rotateRight
  }

  /** Without rotate presses the rotation target is fixed and the rotation
      follows the smoothing chase toward it. */
  lemma {:induction false} RotationChases(c: Camera, inputs: seq<CameraInput>)
    requires NoRotate(inputs)
    ensures CameraRun(c, inputs).targetRotation == c.targetRotation
    ensures CameraRun(c, inputs).rotation == Chase(c.rotation, c.targetRotation, Speed, SnapDistance, |inputs|)
    decreases |inputs|
  {
    if |inputs| > 0 {
      RotationChases(UpdateCamera(c, inputs[0]).camera, inputs[1..]);
    }
  }

  /** A zoom target anywhere in range is reached exactly within 100000 ticks
      of not scrolling: 100000 * Speed * SnapDistance covers the width of
      the range. */
  lemma ZoomSettles(c: Camera, inputs: seq<CameraInput>)
    requires ZoomInRange(c)
    requires NoScroll(inputs) && |inputs| >= 100000
    ensures CameraRun(c, inputs).exponent == c.targetExp
  {
    ExponentChases(c, inputs);
    ChaseAcrossRange(c.exponent, c.targetExp, |inputs|);
  }

  /** The camera's chase crosses the whole zoom range within 100000 ticks. */
  lemma ChaseAcrossRange(from: real, target: real, n: nat)
    requires LowestExp <= from <= HighestExp && LowestExp <= target <= HighestExp
    requires n >= 100000
    ensures Chase(from, target, Speed, SnapDistance, n) == target
  {
    assert Speed == 0.08 && SnapDistance == 0.001;
    assert (n as real) * Speed * SnapDistance == (n as real) * 0.00008;
    assert Abs(target - from) <= 8.0 <= (n as real) * 0.00008;
    ChaseReaches(from, target, Speed, SnapDistance, n);
  }

  /** A scroll that asks for a zoom target beyond the upper bound is clamped
      before it is chased: once scrolling stops the exponent settles exactly
      on the bound, not on the requested value. */
  lemma OverscrollSettlesAtBound(c: Camera, first: CameraInput, rest: seq<CameraInput>)
    requires ZoomInRange(c)
    requires first.scrollDelta != 0
    requires c.targetExp - first.scrollDelta as real * ExpPerScroll > HighestExp
    requires NoScroll(rest) && |rest| >= 100000
    ensures CameraRun(c, [first] + rest).exponent == HighestExp
  {
    var next := UpdateCamera(c, first).camera;
    assert ([first] + rest)[1..] == rest;
    assert CameraRun(c, [first] + rest) == CameraRun(next, rest);
    ZoomSettles(next, rest);
  }
}
