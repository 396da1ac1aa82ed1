/**
 * Client checks of the canvas engine: worked gestures, derived
 * from the handlers' contracts alone, as a host calling them would see them.
 */
module CanvasScenarios {
  import opened Types
  import opened Geometry
  import opened Canvas

  /** Drawing [(0,0), (5,5), (10,10)] with the pen commits exactly one new
      unselected stroke with those points, and deselects every old stroke. */
  method PenStrokeScenario(strokes: seq<Stroke>)
  {
    var engine := new CanvasEngine();
    var props := Props(strokes, Pen, "#FFFFFF", 3.0, false);
    var p0, p1, p2 := Point(0.0, 0.0, 0.5), Point(5.0, 5.0, 0.5), Point(10.0, 10.0, 0.5);
    engine.PointerDown(PointerEvent(1, false, p0, 0.0), props, 100);
    var c1 := engine.PointerMove(PointerEvent(1, false, p1, 5.0), props, 116);
    var c2 := engine.PointerMove(PointerEvent(1, false, p2, 10.0), props, 132);
    var c3 := engine.PointerUp(PointerEvent(1, false, p2, 10.0), props, 148);
    assert c1 == Nothing && c2 == Nothing;
    assert c3.StrokesChange?;
    var r := c3.strokes;
    assert |r| == |strokes| + 1;
    assert r[|strokes|].points == [p0, p1, p2];
    assert r[|strokes|].color == "#FFFFFF" && r[|strokes|].width == 3.0;
    assert forall i :: 0 <= i < |r| ==> !IsSelected(r[i]);
    assert !engine.isDrawing && engine.currentPoints == [];
  }

  /** A single tap with the pen commits nothing. */
  method PenTapScenario(strokes: seq<Stroke>)
  {
    var engine := new CanvasEngine();
    var props := Props(strokes, Pen, "#FFFFFF", 3.0, false);
    var p := Point(1.0, 2.0, 0.5);
    engine.PointerDown(PointerEvent(7, false, p, 2.0), props, 10);
    var c := engine.PointerUp(PointerEvent(7, false, p, 2.0), props, 20);
    assert c == Nothing;
  }

  /** A press at (5,5) hits a selected stroke spanning (0,0)-(20,20). */
  lemma PressHitsSpanningStroke(s: Stroke, a: Point)
    requires IsSelected(s)
    requires s.points == [Point(0.0, 0.0, 1.0), Point(20.0, 20.0, 1.0)]
    requires a.x == 5.0 && a.y == 5.0
    ensures HitsSelection([s], a)
  {
    assert SelectedStrokes([s]) == [s];
    assert Flatten([s]) == Flatten([s][..0]) + s.points;
    HitsSelectionIff([s], a);
  }

  /** Moving the selected spanning stroke by (10,10) puts it at (10,10)-(30,30). */
  lemma SpanningStrokeMoved(s: Stroke)
    requires IsSelected(s)
    requires s.points == [Point(0.0, 0.0, 1.0), Point(20.0, 20.0, 1.0)]
    ensures MoveSelected([s], 10.0, 10.0)[0].points == [Point(10.0, 10.0, 1.0), Point(30.0, 30.0, 1.0)]
  {
    assert MoveSelected([s], 10.0, 10.0)[0] == Translate(s, 10.0, 10.0);
  }

  /** With one selected stroke spanning (0,0)-(20,20), dragging from (5,5) to
      (15,5) and then to (15,15) moves it by (10,10) in all. */
  method MoveScenario(s: Stroke)
    requires IsSelected(s)
    requires s.points == [Point(0.0, 0.0, 1.0), Point(20.0, 20.0, 1.0)]
  {
    var engine := new CanvasEngine();
    var a := Point(5.0, 5.0, 1.0);
    PressHitsSpanningStroke(s, a);
    engine.PointerDown(PointerEvent(1, false, a, 5.0), Props([s], Lasso, "#FFFFFF", 3.0, false), 0);
    var moved := DragTwice(engine, [s]);
    MoveSteps([s], 10.0, 0.0, 0.0, 10.0);
    SpanningStrokeMoved(s);
    assert moved[0].points == [Point(10.0, 10.0, 1.0), Point(30.0, 30.0, 1.0)];
  }

  /** The drag of `MoveScenario`, from an engine anchored at (5,5): to (15,5),
      then to (15,15), each step handing the emitted list back as the props. */
  method DragTwice(engine: CanvasEngine, strokes: seq<Stroke>) returns (moved: seq<Stroke>)
    requires engine.Valid() && !engine.isPanning && !engine.isDrawing
    requires engine.isMoving && engine.moveStartPoint.value.x == 5.0 && engine.moveStartPoint.value.y == 5.0
    modifies engine
    ensures moved == MoveSelected(MoveSelected(strokes, 10.0, 0.0), 0.0, 10.0)
  {
    var b, c := Point(15.0, 5.0, 1.0), Point(15.0, 15.0, 1.0);
    var c1 := engine.PointerMove(PointerEvent(1, false, b, 5.0), Props(strokes, Lasso, "#FFFFFF", 3.0, false), 16);
    assert c1 == StrokesChange(MoveSelected(strokes, 10.0, 0.0));
    var c2 := engine.PointerMove(PointerEvent(1, false, c, 15.0), Props(c1.strokes, Lasso, "#FFFFFF", 3.0, false), 32);
    assert c2 == StrokesChange(MoveSelected(c1.strokes, 0.0, 10.0));
    moved := c2.strokes;
  }

  /** A second finger during a pan does not end it by itself: the pan is
      dropped at the next move while both fingers are down, and then no pan
      is requested and lifting the fingers starts no inertia. */
  method MultiTouchCancelsPanScenario(strokes: seq<Stroke>)
  {
    var engine := new CanvasEngine();
    var props := Props(strokes, Pen, "#FFFFFF", 3.0, false);
    var p := Point(0.0, 0.0, 0.5);
    engine.PointerDown(PointerEvent(1, true, p, 300.0), props, 0);
    var c1 := engine.PointerMove(PointerEvent(1, true, p, 200.0), props, 10);
    assert c1 == Pan(120.0);
    engine.PointerDown(PointerEvent(2, true, p, 400.0), props, 20);
    assert engine.isPanning && !engine.isDrawing;
    var c2 := engine.PointerMove(PointerEvent(1, true, p, 100.0), props, 30);
    assert c2 == Nothing && !engine.isPanning;
    var c3 := engine.PointerUp(PointerEvent(2, true, p, 100.0), props, 40);
    var c4 := engine.PointerUp(PointerEvent(1, true, p, 100.0), props, 50);
    assert c3 == Nothing && c4 == Nothing;
    assert !engine.inertiaRunning;
  }

  /** Without a move in between, a second finger leaves the pan running: lifting
      both fingers ends the pan as a one-finger pan would, and inertia starts
      with the velocity of the last pan step (120 px over 10 ms, smoothed to 2.4). */
  method SecondFingerWithoutMoveKeepsInertia(strokes: seq<Stroke>)
  {
    var engine := new CanvasEngine();
    var props := Props(strokes, Pen, "#FFFFFF", 3.0, false);
    var p := Point(0.0, 0.0, 0.5);
    engine.PointerDown(PointerEvent(1, true, p, 300.0), props, 0);
    var c1 := engine.PointerMove(PointerEvent(1, true, p, 200.0), props, 10);
    assert c1 == Pan(120.0) && engine.velocity == 2.4;
    engine.PointerDown(PointerEvent(2, true, p, 200.0), props, 20);
    var c2 := engine.PointerUp(PointerEvent(2, true, p, 200.0), props, 30);
    assert engine.isPanning;
    var c3 := engine.PointerUp(PointerEvent(1, true, p, 200.0), props, 40);
    assert c2 == Nothing && c3 == Nothing;
    assert !engine.isPanning && engine.inertiaRunning && engine.velocity == 2.4;
  }
}
