# Mitten canvas core, modelled in Dafny

Mitten is an infinite drawing canvas. Every update tick, `GameRoot.Update`
does these steps in order:

- moves the camera;
- applies the undo chord (control + Z);
- runs the stroke gesture of the left mouse button.

Each segment of a stroke becomes a `Line`. The line gets the next id from the
counter `_nextId`. It is stored in the dictionary `_lines`, and its bounding
box goes into an AABB tree. The draw pass queries the tree with the view
rectangle and paints the lines it reports in ascending id order.

This project models that core as pure functions over immutable records.
Floats are modelled as `real`.

| file | module | what it holds |
|---|---|---|
| `controls.dfy` | `Controls` | the per-tick count of a fired input condition |
| `wrappers.dfy` | `Wrappers` | `Result` and the faults a tick can run into |
| `geometry.dfy` | `Geometry` | points and rectangles, and `Line.ComputeAABB` |
| `spatial.dfy` | `SpatialIndex` | the tree through its interface: add, remove and query |
| `store.dfy` | `LineStore` | `CreateLine`, the id counter, undo, and the store invariant |
| `draw_order.dfy` | `DrawOrder` | the id-ordered draw sequence |
| `smoothing.dfy` | `Smoothing` | `Interpolate`, `MathHelper.Clamp` and `Lerp` |
| `camera.dfy` | `CameraControl` | `UpdateCamera`: zoom and rotation targets, drag, smoothing |
| `stroke.dfy` | `StrokeMachine` | the press / hold / release stroke logic |
| `game.dfy` | `Canvas` | the whole update tick and runs of ticks |
| `scenarios.dfy` | `Scenarios` | worked examples stated as lemmas |

Faults are returned as `Failure` values instead of being thrown. There are
three of them:

- a duplicate key in `Dictionary.Add`, which throws;
- a missing key in the dictionary indexer, which throws;
- removing a handle that is not live from the tree. The tree library is not
  part of this model, so whether it throws is not known. The model's abstract
  tree reports this misuse as a fault so that it is visible.

The main result, `Canvas.RunNeverFaults` and `Canvas.Reachable`, is that no
input sequence ever raises one of these. Every reachable state also keeps the
store invariant `LineStore.Valid`:

- the keys of the dictionary are exactly 0 .. `_nextId`-1;
- every line is stored under its own id, with its box computed from its geometry;
- the live leaves of the tree are exactly the lines' leaves, and each leaf
  carries its line's box and id.

Modelling choices where the code could be read more than one way:

- The tree is generic over its payload. The code stores the `Line` object
  itself (`Game/GameRoot.cs:167`); the model stores the line's id and
  resolves it through the dictionary. On a valid store both give the same
  line, because every leaf's id names the line that owns the leaf.
- The code passes `_maxExp = -4` as the lower bound of `Clamp` and
  `_minExp = 4` as the upper bound. The names are swapped, but the range is
  [-4, 4]. The model calls the bounds `LowestExp` and `HighestExp`.
- `MathHelper.Clamp` applies the upper bound first, then the lower bound.
  `Smoothing.Clamp` does the same.

## Model

| member | source | states |
|---|---|---|
| `Geometry.ComputeAABB` | Game/GameRoot.cs:188-195 | width is the x-extent of the segment plus twice the radius, and height likewise for y; with a non-negative radius both are non-negative and both endpoints lie inside the box |
| `Geometry.AabbSymmetric` | Game/GameRoot.cs:188-195 | swapping the two endpoints gives the same box |
| `Geometry.ThickSegmentInside` | Game/GameRoot.cs:188-195 | every point of the drawn thick line (a point of the segment moved by at most the radius on each axis) lies inside the box, so the box is a sound culling proxy for what is painted |
| `Geometry.BetweenEndpoints` | Game/GameRoot.cs:188-195 | a convex combination of two coordinates lies between their minimum and maximum, the coordinate fact behind the box's soundness |
| `SpatialIndex.Add` | Game/GameRoot.cs:167 | the returned handle is not live in a well-formed tree; it now holds exactly the given box and payload; every other leaf is unchanged |
| `SpatialIndex.Remove` | Game/GameRoot.cs:63 | succeeds exactly when the handle is live, otherwise raises the dead-leaf fault; on success only that handle disappears and every other leaf is unchanged |
| `SpatialIndex.QueryEmpty` | Game/GameRoot.cs:43 | a fresh tree reports nothing for any rectangle |
| `SpatialIndex.AddThenQuery` | Game/GameRoot.cs:167 | after an insert, a query (`QueryIds`, the payloads of the leaves whose boxes overlap the rectangle) reports the new payload exactly when the new box overlaps the query, plus everything it reported before |
| `SpatialIndex.RemoveThenQuery` | Game/GameRoot.cs:63 | after a remove, the query hits are the old hits minus the removed handle |
| `LineStore.CreateLine` | Game/GameRoot.cs:164-169 | succeeds exactly when the id is not yet a key, otherwise raises the duplicate-key fault; on success the new key maps to a line with the given id, endpoints, radius and computed box, the old lines are untouched, and the tree gains one fresh leaf carrying that box and id |
| `LineStore.Emit` | Game/GameRoot.cs:74 | a committed segment takes the counter as its id and advances the counter by one; the dictionary only gains that one key |
| `LineStore.EmitStep` | Game/GameRoot.cs:164-169 | on a valid store creation never faults and keeps the invariant; the tree gains exactly one fresh leaf and the count grows by one |
| `LineStore.Undo` | Game/GameRoot.cs:59-64 | with no lines nothing changes; otherwise a successful undo removes the key `_nextId`-1 and that line's leaf, and steps the counter back |
| `LineStore.UndoStep` | Game/GameRoot.cs:59-64 | on a valid store undo never faults and keeps the invariant; with lines present it removes exactly the entry with the highest id and its leaf, steps the counter back by one, and lowers the count by one |
| `LineStore.EmptyValid` | Game/GameRoot.cs:42-43 | the empty dictionary, counter 0 and empty tree satisfy the invariant |
| `LineStore.CountIsNextId` | Game/GameRoot.cs:59 | on a valid store the dictionary count equals the counter, so `_lines.Count > 0` is the same test as `_nextId > 0` |
| `LineStore.RangeSize` | Game/GameRoot.cs:59 | the id range 0 .. n-1 has n elements, the counting step behind `CountIsNextId`'s reading of the `_lines.Count > 0` test |
| `LineStore.CreateUndoRoundTrip` | Game/GameRoot.cs:59-64 | create followed by undo restores the counter, the dictionary and the live leaves, and the next create reuses the same id |
| `LineStore.QueryInStore` | Game/GameRoot.cs:95 | on a valid store the tree's query `QueryIds` reports an id exactly when that id is a stored line whose box overlaps the query |
| `LineStore.UndoneNeverReported` | Game/GameRoot.cs:59-64 | in the state right after the undo, no query reports the undone id (the next create hands the id out again) |
| `DrawOrder.Insert` | Game/GameRoot.cs:95 | inserting into an id-sorted sequence keeps it sorted and adds exactly one element |
| `DrawOrder.SortById` | Game/GameRoot.cs:95 | `OrderBy(e => e.Id)` returns an id-sorted permutation of its input |
| `DrawOrder.Resolve` | Game/GameRoot.cs:95 | when every reported id is stored, the i-th resolved line is the line stored under the i-th id; every resolved line is the stored line of some reported id |
| `DrawOrder.DrawListSpec` | Game/GameRoot.cs:95 | whatever order the tree enumerates its answer in, what `DrawList` paints (the query answer resolved and sorted by `SortById`) is a permutation of the reported lines, has one entry per reported id, is strictly ascending by id, and contains exactly the stored lines whose boxes overlap the view |
| `DrawOrder.ResolveDistinct` | Game/GameRoot.cs:95 | distinct stored ids resolve to distinct lines, each under its own id |
| `DrawOrder.DistinctPerm` | Game/GameRoot.cs:95 | a permutation of a sequence without repeats has no repeats, so sorting cannot paint a line twice |
| `Smoothing.Clamp` | Game/GameRoot.cs:146-148 | the result lies in [min, max] when min <= max, equals the value inside the range, and is the bound that was crossed outside it |
| `Smoothing.LerpBetween` | Game/GameRoot.cs:143 | a lerp with a factor in [0, 1] stays between its ends and leaves the fraction 1 - t of the distance still to go |
| `Smoothing.Interpolate` | Game/GameRoot.cs:142-156 | the result lies between from and target and is never farther from target; it is exactly target when from equals target or lies within snapNear of it; a result short of target is at least snapNear away and keeps the fraction 1 - speed of the old distance; with a speed in [0, 1], a lerp that stays at least snapNear from target is returned as is (both directions of the snap test) |
| `Smoothing.FastStepLands` | Game/GameRoot.cs:142-156 | a speed of one or more lands on the target in one step |
| `Smoothing.InterpolateProgress` | Game/GameRoot.cs:142-156 | each step that misses the target closes the distance by at least speed times snapNear |
| `Smoothing.ChaseReaches` | Game/GameRoot.cs:139-140 | repeated smoothing lands exactly on the target whenever n times speed times snapNear covers the starting distance (it may land earlier through the snap) |
| `Smoothing.ChaseStaysBetween` | Game/GameRoot.cs:139-140 | every point of a chase lies between its start and the target |
| `CameraControl.ScrollTarget` | Game/GameRoot.cs:114-116 | without a scroll the zoom target is unchanged; after any scroll it lies in [-4, 4], equal to the requested value when that is in range and to the crossed bound otherwise |
| `CameraControl.RotateTarget` | Game/GameRoot.cs:118-123 | the rotation target moves by one step per rotate-left press minus one per rotate-right press, so pressing both is a no-op |
| `CameraControl.UpdateCamera` | Game/GameRoot.cs:113-140 | the new zoom target is `ScrollTarget` of the old one and the scroll, and the new rotation target is `RotateTarget` of the old one and the two presses; it keeps the zoom target and exponent in range; on every tick, scroll or press included, the exponent and the rotation each take one `Interpolate` step toward their new targets, so they end between their old values and those targets; a drag press captures the mouse as the anchor; dragging starts on press and ends on release; while it is held the pointer the rest of the tick sees is pinned to the anchor and the camera moves by anchor minus mouse |
| `CameraControl.RotationTargetRun` | Game/GameRoot.cs:118-123 | over any run of ticks the rotation target has moved by exactly the net number of presses times the step |
| `CameraControl.ZoomRangeRun` | Game/GameRoot.cs:115 | over any run of ticks starting in range, the zoom target and exponent never leave [-4, 4] |
| `CameraControl.ExponentChases` | Game/GameRoot.cs:139 | without scrolling the zoom target is fixed and the exponent follows the smoothing chase toward it |
| `CameraControl.RotationChases` | Game/GameRoot.cs:140 | without rotate presses the rotation target is fixed and the rotation follows the smoothing chase toward it |
| `CameraControl.ChaseAcrossRange` | Game/GameRoot.cs:259-263 | with speed 0.08 and snap distance 0.001, 100000 ticks cover the whole zoom range |
| `CameraControl.ZoomSettles` | Game/GameRoot.cs:139 | after 100000 ticks without scrolling the exponent sits exactly on the zoom target |
| `CameraControl.OverscrollSettlesAtBound` | Game/GameRoot.cs:115 | a scroll past the upper bound settles the exponent on the bound, not on the requested value |
| `StrokeMachine.Step` | Game/GameRoot.cs:66-83 | a tick commits one mid-stroke segment exactly when a stroke is held, the mouse has left the start and shift is up, and one final segment exactly when a stroke is released; the mid segment runs from the old start to the mouse, the final one ends at the mouse, and two segments in one tick share their joint; the stroke is drawing afterwards exactly when it was started or continuing and not released |
| `StrokeMachine.StrokeIsConnected` | Game/GameRoot.cs:70-77 | between presses the committed segments form a connected polyline from the stroke's start, and an idle gesture commits nothing |
| `StrokeMachine.HoldStraight` | Game/GameRoot.cs:73 | holding shift during a stroke commits nothing and keeps the start |
| `StrokeMachine.StraightLine` | Game/GameRoot.cs:78-83 | a shift-held stroke commits exactly one segment, from where it started to the release point, and ends the stroke |
| `StrokeMachine.RunAppend` | Game/GameRoot.cs:66-83 | a run followed by one more tick is the run of the longer input sequence |
| `Canvas.CommitAll` | Game/GameRoot.cs:66-83 | committing a tick's segments advances the counter by their number and keeps the existing lines |
| `Canvas.CommitAllLines` | Game/GameRoot.cs:66-83 | the i-th committed segment becomes the line with id counter + i, with that segment's endpoints and the tick's radius |
| `Canvas.CommitAllStep` | Game/GameRoot.cs:66-83 | on a valid store committing never faults, keeps the invariant and adds one line per segment |
| `Canvas.UndoIfStep` | Game/GameRoot.cs:59-64 | the undo control never faults on a valid store, keeps the invariant, and removes one line exactly when pressed with a line present |
| `Canvas.TickParts` | Game/GameRoot.cs:57-83 | on a state with the invariant, both the undo and the commit parts of `Tick` succeed, and the store `Tick` returns is the undo-then-commit store |
| `Canvas.TickStep` | Game/GameRoot.cs:48-87 | `Tick`, the update loop, never raises and keeps the invariant; the line count moves by minus the undo plus the committed segments |
| `Canvas.TickCommitsGesture` | Game/GameRoot.cs:66-83 | the tick's gesture segments become the newest lines, in order, with consecutive ids after the undo's counter and the brush radius scaled to world units |
| `Canvas.PartsCommitGesture` | Game/GameRoot.cs:74 | once both parts succeed, the i-th gesture segment is stored under counter + i with its endpoints and the tick's radius |
| `Canvas.InitialInv` | Game/GameRoot.cs:42-45 | the state after content loading satisfies the invariant |
| `Canvas.RunNeverFaults` | Game/GameRoot.cs:48-87 | no input sequence makes the update loop raise, and the invariant and zoom range hold throughout |
| `Canvas.Reachable` | Game/GameRoot.cs:48-87 | every reachable state keeps the invariant and has as many lines as the counter |
| `Scenarios.FirstLineQueries` | Game/GameRoot.cs:164-169 | the segment (0,0)-(10,0) of radius 1 becomes line 0 with box (-1,-1) 12x2; a view around the origin reports it and one at (20,20) does not |
| `Scenarios.UndoReusesId` | Game/GameRoot.cs:59-64 | after lines 0, 1, 2 an undo leaves 0, 1 and counter 2; the next line gets id 2 again and there are three lines |
| `Scenarios.UndoOnEmpty` | Game/GameRoot.cs:59 | undo with no lines changes nothing |

## Left out

- The AABB tree's internals (Apos.Spatial) are not modelled: node layout, balancing, box fattening and handle recycling. The tree is a map from handles to (box, payload) leaves with fresh handles. Only the library's interface is used, and the library source is not part of this model.
- The camera library calls are per-tick inputs: `ScreenToWorld`, `ZToScale`/`ScaleToZ`, `ScreenToWorldScale` and `ViewRect`. The mouse's world position is an input. The brush's world radius is `BrushRadius` times an input scale. The view rectangle is a parameter of the draw lemmas.
- `ScaleToExp`/`ExpToScale` are left out because they are transcendental. The camera's zoom is kept as its exponent, which assumes the round trip through `Z` at line 139 is exact.
- Single-precision float rounding is not modelled. `RotationStep` is the exact value of the float `MathHelper.PiOver4`.
- Overflow of the 32-bit `_nextId` is not modelled. Ids are unbounded integers.
- Input conditions are booleans for the tick (Apos.Input polling and consumption). `Scrolled()` is taken as a non-zero scroll delta.
- Exit, the FPS counter, window setup, fonts and content loading are I/O.
- Rendering is left out, including `FillLine` and the preview of the stroke in progress (lines 99-101). The draw pass is modelled only as the sequence it paints.
- `Canvas.Tick`: its own contract only pins the camera. What a tick does to the store is stated by `Canvas.TickStep`, `Canvas.TickParts` and `Canvas.TickCommitsGesture`.
- `LineStore.CreateLine` returns a failure on a duplicate key and drops the tree insert that the code already made. In the code the exception leaves the update loop, so that state is never observed.
- Redo and save have no behaviour to model: `_redo` is declared but never read.
