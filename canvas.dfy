/**
 * The stroke canvas (components/Canvas.tsx): the stroke lists its pointer
 * handlers hand to the host, and the gesture engine itself, whose handlers
 * update the component's state and return the command they emit
 * (`onStrokesChange` or `onPan`).
 */
module Canvas {
  import opened Types
  import opened Geometry
  import Strings

  const PANNING_FRICTION: real := 1.2
  const INERTIA_FRICTION: real := 0.95
  const MIN_VELOCITY_THRESHOLD: real := 0.1
  /** The nominal frame duration an inertia frame scrolls for, in milliseconds. */
  const FRAME_MS: real := 16.0

  function Abs(x: real): real {
    if x < 0.0 then -x else x
  }

  // ---------------------------------------------------------------------------
  // Stroke lists emitted by the handlers

  /** `strokes.filter(s => s.selected)` */
  function SelectedStrokes(strokes: seq<Stroke>): (r: seq<Stroke>)
    ensures |r| <= |strokes|
    ensures forall s :: s in r <==> s in strokes && IsSelected(s)
  {
    if strokes == [] then []
    else (if IsSelected(strokes[0]) then [strokes[0]] else []) + SelectedStrokes(strokes[1..])
  }

  /** The move hit test of pointer-down: some stroke is selected and the point
      lies in the UNPADDED bounding box of the selected strokes. */
  predicate HitsSelection(strokes: seq<Stroke>, p: Point) {
    var selected := SelectedStrokes(strokes);
    var box := if |selected| > 0 then BoundingBox(selected) else None;
    box.Some? && InBox(box.value, p)
  }

  /** The hit test, stated without the box: some selected point is at or left
      of `p`, some at or right of it, some at or above it and some at or below it. */
  lemma HitsSelectionIff(strokes: seq<Stroke>, p: Point)
    ensures var pts := Flatten(SelectedStrokes(strokes));
      HitsSelection(strokes, p) <==>
        && (exists q :: q in pts && q.x <= p.x)
        && (exists q :: q in pts && q.x >= p.x)
        && (exists q :: q in pts && q.y <= p.y)
        && (exists q :: q in pts && q.y >= p.y)
  {
    var selected := SelectedStrokes(strokes);
    var pts := Flatten(selected);
    if |selected| == 0 {
      assert pts == [];
    } else if pts != [] {
      var b := BoundingBox(selected).value;
      if (exists q :: q in pts && q.x <= p.x) && (exists q :: q in pts && q.x >= p.x)
        && (exists q :: q in pts && q.y <= p.y) && (exists q :: q in pts && q.y >= p.y)
      {
        var q1 :| q1 in pts && q1.x <= p.x;
        var q2 :| q2 in pts && q2.x >= p.x;
        var q3 :| q3 in pts && q3.y <= p.y;
        var q4 :| q4 in pts && q4.y >= p.y;
        assert InBox(b, q1) && InBox(b, q2) && InBox(b, q3) && InBox(b, q4);
      }
    }
  }

  /** A selected stroke moved by (dx, dy): every point shifted, pressure kept. */
  function Translate(s: Stroke, dx: real, dy: real): (r: Stroke)
    ensures r.id == s.id && r.color == s.color && r.width == s.width && r.selected == s.selected
    ensures |r.points| == |s.points|
    ensures forall k :: 0 <= k < |s.points| ==>
      r.points[k] == Point(s.points[k].x + dx, s.points[k].y + dy, s.points[k].pressure)
  {
    s.(points := seq(|s.points|, k requires 0 <= k < |s.points| => s.points[k].(x := s.points[k].x + dx, y := s.points[k].y + dy)))
  }

  /** The list a move step emits (Canvas.tsx:256-264). */
  function MoveSelected(strokes: seq<Stroke>, dx: real, dy: real): (r: seq<Stroke>)
    ensures |r| == |strokes|
    ensures forall i :: 0 <= i < |strokes| && !IsSelected(strokes[i]) ==> r[i] == strokes[i]
    ensures forall i :: 0 <= i < |strokes| && IsSelected(strokes[i]) ==> r[i] == Translate(strokes[i], dx, dy)
    ensures forall i :: 0 <= i < |strokes| ==> (IsSelected(r[i]) <==> IsSelected(strokes[i]))
  {
    seq(|strokes|, i requires 0 <= i < |strokes| =>
      if IsSelected(strokes[i]) then Translate(strokes[i], dx, dy) else strokes[i])
  }

  /** A zero move would hand back the very same list, which is why the handler
      emits nothing for it. */
  lemma MoveByZeroIsIdentity(strokes: seq<Stroke>)
    ensures MoveSelected(strokes, 0.0, 0.0) == strokes
  {
    var r := MoveSelected(strokes, 0.0, 0.0);
    forall i | 0 <= i < |strokes| ensures r[i] == strokes[i] {
      if IsSelected(strokes[i]) {
        assert r[i].points == strokes[i].points;
      }
    }
  }

  /** Two successive move steps are one step by the sum of their deltas: since
      the anchor is reset after each step, a drag moves the selection by the
      sum of the per-event deltas. */
  lemma MoveSteps(strokes: seq<Stroke>, dx1: real, dy1: real, dx2: real, dy2: real)
    ensures MoveSelected(MoveSelected(strokes, dx1, dy1), dx2, dy2) == MoveSelected(strokes, dx1 + dx2, dy1 + dy2)
  {
    var a := MoveSelected(MoveSelected(strokes, dx1, dy1), dx2, dy2);
    var b := MoveSelected(strokes, dx1 + dx2, dy1 + dy2);
    forall i | 0 <= i < |strokes| ensures a[i] == b[i] {
      if IsSelected(strokes[i]) {
        assert a[i].points == b[i].points;
      }
    }
  }

  /** The list a pen release emits (Canvas.tsx:291-298): every old stroke
      deselected and otherwise unchanged, then the new unselected stroke. */
  function CommitPenStroke(strokes: seq<Stroke>, points: seq<Point>, color: string, width: real, id: string): (r: seq<Stroke>)
    ensures |r| == |strokes| + 1
    ensures forall i :: 0 <= i < |strokes| ==> r[i] == WithSelected(strokes[i], false)
    ensures r[|strokes|] == Stroke(id, points, color, width, Some(false))
    ensures forall i :: 0 <= i < |r| ==> !IsSelected(r[i])
  {
    Deselect(strokes) + [Stroke(id, points, color, width, Some(false))]
  }

  /** `stroke.points.some(point => isPointInPolygon(point, lasso))` */
  predicate AnyInside(points: seq<Point>, lasso: seq<Point>) {
    exists q :: q in points && PointInPolygon(q, lasso)
  }

  /** The list a lasso release emits (Canvas.tsx:302-305): geometry untouched,
      each stroke selected exactly when one of its points is inside the lasso. */
  function ApplyLasso(strokes: seq<Stroke>, lasso: seq<Point>): (r: seq<Stroke>)
    ensures |r| == |strokes|
    ensures forall i :: 0 <= i < |strokes| ==>
      r[i] == WithSelected(strokes[i], exists q :: q in strokes[i].points && PointInPolygon(q, lasso))
  {
    seq(|strokes|, i requires 0 <= i < |strokes| => WithSelected(strokes[i], AnyInside(strokes[i].points, lasso)))
  }

  /** With the square lasso, a stroke through its centre is selected and a
      stroke far outside it is not, whatever the pressures sampled. */
  lemma SquareLassoSelects(inner: Stroke, outer: Stroke, square: seq<Point>)
    requires IsSquareLasso(square)
    requires exists q :: q in inner.points && q.x == 5.0 && q.y == 5.0
    requires forall q :: q in outer.points ==> q.x == 20.0 && q.y == 20.0
    ensures var r := ApplyLasso([inner, outer], square);
      IsSelected(r[0]) && !IsSelected(r[1])
  {
    var c :| c in inner.points && c.x == 5.0 && c.y == 5.0;
    forall q | q in outer.points ensures !PointInPolygon(q, square) {
      SquareLassoExample(square, c, q);
    }
    SquareLassoExample(square, c, Point(20.0, 20.0, 0.0));
  }

  // ---------------------------------------------------------------------------
  // Inertial scrolling after a pan

  /** The inertia loop started with velocity `v` stops within `k` frames. */
  predicate StopsWithin(v: real, k: nat)
    decreases k
  {
    k > 0 && (Abs(v * INERTIA_FRICTION) <= MIN_VELOCITY_THRESHOLD || StopsWithin(v * INERTIA_FRICTION, k - 1))
  }

  /** Each frame takes at least 0.005 off a speed above the threshold, so the
      loop always stops; `k` frames suffice once `|v| <= 0.1 + 0.005 * (k - 1)`. */
  lemma {:induction false} InertiaTerminates(v: real, k: nat)
    requires Abs(v) <= MIN_VELOCITY_THRESHOLD + 0.005 * k as real
    ensures StopsWithin(v, k + 1)
    decreases k
  {
    if Abs(v * INERTIA_FRICTION) > MIN_VELOCITY_THRESHOLD {
      assert k > 0;
      assert Abs(v * INERTIA_FRICTION) == 0.95 * Abs(v);
      InertiaTerminates(v * INERTIA_FRICTION, k - 1);
    }
  }

  // ---------------------------------------------------------------------------
  // The gesture engine

  /** What a handler asks of the host: nothing, `onStrokesChange(list)` or `onPan(dy)`. */
  datatype Command = Nothing | StrokesChange(strokes: seq<Stroke>) | Pan(dy: real)

  /** The parts of a pointer event the handlers read: `point` is the canvas-local
      position `getPoint` computes, `clientY` the raw viewport ordinate panning uses. */
  datatype PointerEvent = PointerEvent(pointerId: int, isTouch: bool, point: Point, clientY: real)

  /** The component's props at the time of the event. */
  datatype Props = Props(strokes: seq<Stroke>, tool: Tool, color: string, width: real, fingerDrawing: bool)

  /** The interaction state of one canvas: its React state, its refs, and
      whether an inertia animation frame is scheduled. */
  class CanvasEngine {
    var isDrawing: bool
    var isMoving: bool
    var isPanning: bool
    var currentPoints: seq<Point>
    var moveStartPoint: Option<Point>
    var activePointers: set<int>
    var lastPanY: Option<real>
    var velocity: real
    var lastPanTime: int
    var inertiaRunning: bool

    ghost predicate Valid()
      reads this
    {
      && (isMoving <==> moveStartPoint.Some?)
      && (isPanning <==> lastPanY.Some?)
      && (isDrawing <==> currentPoints != [])
      && (inertiaRunning ==> !isPanning && Abs(velocity) > MIN_VELOCITY_THRESHOLD)
    }

    /** The state at mount. */
    constructor ()
      ensures Valid()
      ensures !isDrawing && !isMoving && !isPanning && !inertiaRunning
      ensures activePointers == {} && currentPoints == [] && velocity == 0.0
    {
      isDrawing, isMoving, isPanning := false, false, false;
      currentPoints, moveStartPoint := [], None;
      activePointers, lastPanY := {}, None;
      velocity, lastPanTime, inertiaRunning := 0.0, 0, false;
    }

    /** `handlePointerDown` (Canvas.tsx:182-216): a touch with finger drawing off
        pans, and only as the sole active pointer; otherwise a lasso press on the
        selection starts a move; otherwise drawing starts. Nothing is emitted. */
    method PointerDown(e: PointerEvent, props: Props, now: int)
      requires Valid()
      modifies this
      ensures Valid()
      ensures activePointers == old(activePointers) + {e.pointerId}
      ensures e.isTouch && !props.fingerDrawing ==>
        && isDrawing == old(isDrawing) && currentPoints == old(currentPoints)
        && isMoving == old(isMoving) && moveStartPoint == old(moveStartPoint)
        && (if |activePointers| == 1 then
              isPanning && lastPanY == Some(e.clientY) && velocity == 0.0 && lastPanTime == now && !inertiaRunning
            else
              isPanning == old(isPanning) && lastPanY == old(lastPanY) && velocity == old(velocity)
              && lastPanTime == old(lastPanTime) && inertiaRunning == old(inertiaRunning))
      ensures !(e.isTouch && !props.fingerDrawing) ==>
        && isPanning == old(isPanning) && lastPanY == old(lastPanY) && velocity == old(velocity)
        && lastPanTime == old(lastPanTime) && inertiaRunning == old(inertiaRunning)
        && (if props.tool == Lasso && HitsSelection(props.strokes, e.point) then
              isMoving && moveStartPoint == Some(e.point)
              && isDrawing == old(isDrawing) && currentPoints == old(currentPoints)
            else
              isDrawing && currentPoints == [e.point]
              && isMoving == old(isMoving) && moveStartPoint == old(moveStartPoint))
    {
      activePointers := activePointers + {e.pointerId};
      if e.isTouch && !props.fingerDrawing {
        if |activePointers| == 1 {
          inertiaRunning := false;
          isPanning := true;
          lastPanY := Some(e.clientY);
          velocity := 0.0;
          lastPanTime := now;
        }
        return;
      }
      if props.tool == Lasso && HitsSelection(props.strokes, e.point) {
        isMoving := true;
        moveStartPoint := Some(e.point);
        return;
      }
      isDrawing := true;
      currentPoints := [e.point];
    }

    /** `handlePointerMove` (Canvas.tsx:218-270). A pan step with one active
        pointer requests a pan of `(lastY - y) * 1.2` and smooths the velocity;
        with several pointers the pan is dropped. Otherwise a drawing gesture
        buffers the point, and a move gesture with a non-zero delta emits the
        shifted list and re-anchors at the current point. */
    method PointerMove(e: PointerEvent, props: Props, now: int) returns (cmd: Command)
      requires Valid()
      modifies this
      ensures Valid()
      ensures activePointers == old(activePointers) && inertiaRunning == old(inertiaRunning)
      ensures old(isPanning) ==>
        && isDrawing == old(isDrawing) && currentPoints == old(currentPoints)
        && isMoving == old(isMoving) && moveStartPoint == old(moveStartPoint)
        && (if |activePointers| > 1 then
              && cmd == Nothing && !isPanning && lastPanY == None
              && velocity == old(velocity) && lastPanTime == old(lastPanTime)
            else
              && cmd == Pan((old(lastPanY).value - e.clientY) * PANNING_FRICTION)
              && isPanning && lastPanY == Some(e.clientY) && lastPanTime == now
              && velocity == (if now - old(lastPanTime) > 0
                              then old(velocity) * 0.8 + (cmd.dy / (now - old(lastPanTime)) as real) * 0.2
                              else old(velocity)))
      ensures !old(isPanning) ==>
        && isPanning == old(isPanning) && lastPanY == old(lastPanY)
        && velocity == old(velocity) && lastPanTime == old(lastPanTime)
      ensures !old(isPanning) && old(isDrawing) ==>
        && cmd == Nothing && isDrawing && currentPoints == old(currentPoints) + [e.point]
        && isMoving == old(isMoving) && moveStartPoint == old(moveStartPoint)
      ensures !old(isPanning) && !old(isDrawing) ==>
        && isDrawing == old(isDrawing) && currentPoints == old(currentPoints) && isMoving == old(isMoving)
      ensures !old(isPanning) && !old(isDrawing) && old(isMoving) ==>
        var dx := e.point.x - old(moveStartPoint).value.x;
        var dy := e.point.y - old(moveStartPoint).value.y;
        if dx == 0.0 && dy == 0.0 then
          cmd == Nothing && moveStartPoint == old(moveStartPoint)
        else
          cmd == StrokesChange(MoveSelected(props.strokes, dx, dy)) && moveStartPoint == Some(e.point)
      ensures !old(isPanning) && !old(isDrawing) && !old(isMoving) ==>
        cmd == Nothing && moveStartPoint == old(moveStartPoint)
    {
      cmd := Nothing;
      if isPanning && lastPanY.Some? {
        if |activePointers| > 1 {
          isPanning := false;
          lastPanY := None;
          return;
        }
        var timeDelta := now - lastPanTime;
        var dy := lastPanY.value - e.clientY;
        var panAmount := dy * PANNING_FRICTION;
        cmd := Pan(panAmount);
        if timeDelta > 0 {
          var currentVelocity := panAmount / timeDelta as real;
          velocity := velocity * 0.8 + currentVelocity * 0.2;
        }
        lastPanY := Some(e.clientY);
        lastPanTime := now;
        return;
      }
      if isDrawing {
        currentPoints := currentPoints + [e.point];
      } else if isMoving && moveStartPoint.Some? {
        var dx := e.point.x - moveStartPoint.value.x;
        var dy := e.point.y - moveStartPoint.value.y;
        if dx == 0.0 && dy == 0.0 {
          return;
        }
        cmd := StrokesChange(MoveSelected(props.strokes, dx, dy));
        moveStartPoint := Some(e.point);
      }
    }

    /** `handlePointerUp`, also the cancel handler (Canvas.tsx:272-316). Lifting
        the last pointer of a pan ends it and starts inertia when the speed is
        above the threshold; a pen gesture of two or more points commits a
        stroke; a lasso of three or more points re-selects; the gesture state is
        cleared. */
    method PointerUp(e: PointerEvent, props: Props, now: nat) returns (cmd: Command)
      requires Valid()
      modifies this
      ensures Valid()
      ensures activePointers == old(activePointers) - {e.pointerId}
      ensures !isDrawing && !isMoving && moveStartPoint == None && currentPoints == []
      ensures velocity == old(velocity) && lastPanTime == old(lastPanTime)
      ensures if old(isPanning) && activePointers == {} then
          !isPanning && lastPanY == None && inertiaRunning == (Abs(velocity) > MIN_VELOCITY_THRESHOLD)
        else
          isPanning == old(isPanning) && lastPanY == old(lastPanY) && inertiaRunning == old(inertiaRunning)
      ensures cmd ==
        if old(isDrawing) && props.tool == Pen && |old(currentPoints)| > 1 then
          StrokesChange(CommitPenStroke(props.strokes, old(currentPoints), props.color, props.width,
                                        "stroke-" + Strings.Decimal(now)))
        else if old(isDrawing) && props.tool == Lasso && |old(currentPoints)| > 2 then
          StrokesChange(ApplyLasso(props.strokes, old(currentPoints)))
        else Nothing
    {
      activePointers := activePointers - {e.pointerId};
      cmd := Nothing;
      if isPanning && |activePointers| == 0 {
        isPanning := false;
        lastPanY := None;
        if Abs(velocity) > MIN_VELOCITY_THRESHOLD {
          inertiaRunning := true;
        }
      }
      if isDrawing {
        isDrawing := false;
        if props.tool == Pen && |currentPoints| > 1 {
          var id := "stroke-" + Strings.Decimal(now);
          cmd := StrokesChange(CommitPenStroke(props.strokes, currentPoints, props.color, props.width, id));
        }
        if props.tool == Lasso && |currentPoints| > 2 {
          cmd := StrokesChange(ApplyLasso(props.strokes, currentPoints));
        }
      }
      if isMoving {
        isMoving := false;
        moveStartPoint := None;
      }
      currentPoints := [];
    }

    /** One frame of the inertia loop (Canvas.tsx:154-167), run only while a frame
        is scheduled: pan by velocity times the frame duration, apply friction,
        and stop (velocity reset to zero) once the speed is at or below 0.1. */
    method InertiaFrame() returns (cmd: Command)
      requires Valid()
      modifies this
      ensures Valid()
      ensures !old(inertiaRunning) ==> cmd == Nothing && velocity == old(velocity) && !inertiaRunning
      ensures old(inertiaRunning) ==>
        && cmd == Pan(old(velocity) * FRAME_MS)
        && inertiaRunning == (Abs(old(velocity) * INERTIA_FRICTION) > MIN_VELOCITY_THRESHOLD)
        && velocity == (if inertiaRunning then old(velocity) * INERTIA_FRICTION else 0.0)
      ensures isDrawing == old(isDrawing) && isMoving == old(isMoving) && isPanning == old(isPanning)
      ensures currentPoints == old(currentPoints) && moveStartPoint == old(moveStartPoint)
      ensures activePointers == old(activePointers) && lastPanY == old(lastPanY) && lastPanTime == old(lastPanTime)
    {
      if !inertiaRunning {
        return Nothing;
      }
      cmd := Pan(velocity * FRAME_MS);
      velocity := velocity * INERTIA_FRICTION;
      if Abs(velocity) <= MIN_VELOCITY_THRESHOLD {
        velocity := 0.0;
        inertiaRunning := false;
      }
    }
  }

  /** The number of frames within which inertia started at velocity `v` stops. */
  function InertiaFrameBound(v: real): (n: nat)
    ensures Abs(v) <= MIN_VELOCITY_THRESHOLD + 0.005 * (n - 1) as real
  {
    var k := (Abs(v) * 200.0).Floor;
    assert k as real <= Abs(v) * 200.0 < k as real + 1.0;
    k + 1
  }

  /** The animation loop `startInertiaScroll` runs (Canvas.tsx:153-171): frames
      follow one another while one is scheduled. It always comes to rest, with
      the velocity reset to zero, within `InertiaFrameBound` frames. */
  method RunInertia(engine: CanvasEngine) returns (frames: nat)
    requires engine.Valid()
    modifies engine
    ensures engine.Valid() && !engine.inertiaRunning
    ensures !old(engine.inertiaRunning) ==> frames == 0 && engine.velocity == old(engine.velocity)
    ensures old(engine.inertiaRunning) ==> engine.velocity == 0.0 && 1 <= frames <= InertiaFrameBound(old(engine.velocity))
  {
    frames := 0;
    if !engine.inertiaRunning {
      return;
    }
    var bound := InertiaFrameBound(engine.velocity);
    InertiaTerminates(engine.velocity, bound - 1);
    var n := bound;
    while engine.inertiaRunning
      invariant engine.Valid()
      invariant engine.inertiaRunning ==> StopsWithin(engine.velocity, n)
      invariant !engine.inertiaRunning ==> engine.velocity == 0.0 && frames >= 1
      invariant frames + n == bound
      decreases n
    {
      var _ := engine.InertiaFrame();
      frames := frames + 1;
      n := n - 1;
    }
  }
}
