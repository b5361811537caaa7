/**
 * The mouse handler of handlers/mouse_input.py: it turns pointer gestures
 * into brush strokes, stroke and area erasures and radius changes, and
 * records each edit on the undo stack that handlers/undo_redo.py consumes.
 *
 * The pointer position, the state of the left button and the event fields
 * are parameters; the toolbar margins and the canvas size form a Frame.
 */
module MouseInput {
  import opened Wrappers
  import opened Strokes
  import opened VectorLayers
  import opened UndoRedo
  import opened Constants
  import Quadtree
  import opened MouseEdits

  // ---------------------------------------------------------------------
  // The handler
  // ---------------------------------------------------------------------

  /** The stroke eraser branch: `erase_near`, `rebuild_quadtree`, and a record when a stroke was removed. */
  method EraseStrokeAt(cx: int, cy: int, radius: int, f: Frame, layer: VectorLayer, stacks: Stacks,
                   ghost st0: EditState, ghost SP0: seq<seq<Point>>, ghost T0: Option<Quadtree.QuadtreeNode>)
    requires layer.Valid()
    requires st0 == State(layer, stacks) && SP0 == PointLists(layer.strokes) && T0 == layer.quadtree
    modifies layer, stacks
    ensures layer.Valid() && Rebuilt(f, layer) == true
    ensures EraseOutcome(StrokeMode, f, cx, cy, radius, st0, SP0, T0, layer, stacks) == true
  {
    ghost var goal := StrokeEraseStep(State(layer, stacks), layer.quadtree, cx, cy, radius);
    ghost var recorded := if goal.undo == stacks.undo then null else goal.undo[|goal.undo| - 1].stroke;
    var removed := layer.EraseNear(cx, cy, radius, 0, 0);
    assert layer.strokes == goal.strokes && removed == recorded;
    if removed != null {
      stacks.undo := stacks.undo + [RemoveStroke(removed)];
      stacks.redo := [];
    }
    assert State(layer, stacks) == goal;
    layer.RebuildQuadtree(f.width, f.height);
  }

  /** The area eraser branch: `partial_erase` with the toolbar offset, `rebuild_quadtree`, and a record on a result. */
  method EraseAreaAt(x: int, y: int, radius: int, f: Frame, layer: VectorLayer, stacks: Stacks, ghost cx: int, ghost cy: int,
                   ghost st0: EditState, ghost SP0: seq<seq<Point>>, ghost T0: Option<Quadtree.QuadtreeNode>)
    requires layer.Valid() && cx == x - f.left && cy == y - f.top
    requires st0 == State(layer, stacks) && SP0 == PointLists(layer.strokes) && T0 == layer.quadtree
    modifies layer, stacks
    ensures layer.Valid() && Rebuilt(f, layer) == true
    ensures EraseOutcome(AreaMode, f, cx, cy, radius, st0, SP0, T0, layer, stacks) == true
  {
    SplitAndRecord(x, y, radius, f, layer, stacks, cx, cy, st0, SP0, T0);
    ghost var st, ps := State(layer, stacks), NewestParts(stacks.undo);
    ghost var newest := PointLists(ps);
    label recorded:
    layer.RebuildQuadtree(f.width, f.height);
    assert forall i :: 0 <= i < |ps| ==> ps[i].points == old@recorded(ps[i].points);
    assert State(layer, stacks) == st && PointLists(ps) == newest;
  }

  /** `partial_erase` with the toolbar offset and the record of its result, before the rebuild. */
  method SplitAndRecord(x: int, y: int, radius: int, f: Frame, layer: VectorLayer, stacks: Stacks,
                        ghost cx: int, ghost cy: int,
                        ghost st0: EditState, ghost SP0: seq<seq<Point>>, ghost T0: Option<Quadtree.QuadtreeNode>)
    requires layer.Valid() && cx == x - f.left && cy == y - f.top
    requires st0 == State(layer, stacks) && SP0 == PointLists(layer.strokes) && T0 == layer.quadtree
    modifies layer, stacks
    ensures layer.Valid()
    ensures EraseOutcome(AreaMode, f, cx, cy, radius, st0, SP0, T0, layer, stacks) == true
  {
    var result := layer.PartialErase(x, y, radius, f.left, f.top);
    PushSplit(f, layer, stacks, result, st0, SP0, T0, cx, cy, radius, PartLists(result), layer.quadtree);
  }

  /**
   * The record of a `partial_erase` result: a split is pushed and clears
   * the redo stack; no result leaves both stacks alone. Together with what
   * `partial_erase` did, that is an area erasure.
   */
  method PushSplit(f: Frame, layer: VectorLayer, stacks: Stacks, result: Option<(Stroke, seq<Stroke>)>, ghost st0: EditState,
                   ghost SP0: seq<seq<Point>>, ghost T0: Option<Quadtree.QuadtreeNode>, ghost cx: int, ghost cy: int, ghost r: int,
                   ghost PP: seq<seq<Point>>, ghost T': Option<Quadtree.QuadtreeNode>)
    requires PartiallyErased(st0.strokes, SP0, T0, cx, cy, r, result, PP, layer.strokes, T') == true
    requires PP == PartLists(result) && stacks.undo == st0.undo && stacks.redo == st0.redo
    modifies stacks
    ensures EraseOutcome(AreaMode, f, cx, cy, r, st0, SP0, T0, layer, stacks) == true
  {
    ghost var strokes' := layer.strokes;
    if result.Some? {
      stacks.undo := stacks.undo + [SplitStroke(result.value.0, result.value.1)];
      stacks.redo := [];
      assert NewestParts(stacks.undo) == result.value.1;
    }
    RecordSplitErases(st0, SP0, T0, cx, cy, r, result, PP, strokes', T', State(layer, stacks), PointLists(NewestParts(stacks.undo)));
  }

  /** The brush release branch: `add_stroke`, `rebuild_quadtree`, and the add record. */
  method Commit(c: Stroke, f: Frame, layer: VectorLayer, stacks: Stacks)
    requires layer.Valid()
    modifies layer, stacks
    ensures layer.Valid() && Rebuilt(f, layer) == true
    ensures State(layer, stacks) == ReleaseStep(old(State(layer, stacks)), c)
  {
    layer.AddStroke(c);
    stacks.undo := stacks.undo + [AddStroke(c)];
    stacks.redo := [];
    layer.RebuildQuadtree(f.width, f.height);
  }

  /** The eraser branch shared by a press and a drag at window position (x, y). */
  method Erase(x: int, y: int, radius: int, mode: EraserMode, f: Frame, layer: VectorLayer, stacks: Stacks,
                   ghost st0: EditState, ghost SP0: seq<seq<Point>>, ghost T0: Option<Quadtree.QuadtreeNode>)
    requires layer.Valid() && InCanvas(f, x, y)
    requires st0 == State(layer, stacks) && SP0 == PointLists(layer.strokes) && T0 == layer.quadtree
    modifies layer, stacks
    ensures layer.Valid() && (mode != OtherMode ==> Rebuilt(f, layer) == true)
    ensures EraseOutcome(mode, f, Relative(f, x, y).x, Relative(f, x, y).y, radius, st0, SP0, T0, layer, stacks) == true
  {
    if mode == StrokeMode {
      EraseStrokeAt(Relative(f, x, y).x, Relative(f, x, y).y, radius, f, layer, stacks, st0, SP0, T0);
    } else if mode == AreaMode {
      EraseAreaAt(x, y, radius, f, layer, stacks, Relative(f, x, y).x, Relative(f, x, y).y, st0, SP0, T0);
    }
  }

  /** A left press inside the canvas. */
  predicate Pressing(ev: MouseEvent, f: Frame, x: int, y: int) {
    ev.ButtonDown? && ev.button == 1 && InCanvas(f, x, y)
  }

  /** A motion inside the canvas with the left button held. */
  predicate Dragging(ev: MouseEvent, leftHeld: bool, f: Frame, x: int, y: int) {
    ev.Motion? && leftHeld && InCanvas(f, x, y)
  }

  /** A left release with the brush and a stroke in progress. */
  predicate Releasing(ev: MouseEvent, tool: Tool, current: Stroke?) {
    ev.ButtonUp? && ev.button == 1 && tool == Brush && current != null
  }

  /** A left press inside the canvas: the brush starts a stroke, the eraser erases. */
  method Press(x: int, y: int, tool: Tool, mode: EraserMode, f: Frame, color: Color, brushRadius: int, eraserRadius: int,
               layer: VectorLayer, stacks: Stacks)
    returns (started: Stroke?)
    requires layer.Valid() && InCanvas(f, x, y)
    modifies layer, stacks
    ensures layer.Valid()
    ensures tool == Brush ==>
              started != null && fresh(started) && started.color == color && started.radius == brushRadius &&
              started.points == [Relative(f, x, y)]
    ensures tool == Eraser && mode != OtherMode ==> Rebuilt(f, layer) == true
    ensures tool == Eraser ==>
              EraseOutcome(mode, f, Relative(f, x, y).x, Relative(f, x, y).y, eraserRadius, old(State(layer, stacks)), old(PointLists(layer.strokes)),
                           old(layer.quadtree), layer, stacks) == true
    ensures tool != Eraser ==> State(layer, stacks) == old(State(layer, stacks)) && layer.quadtree == old(layer.quadtree)
  {
    started := null;
    if tool == Brush {
      var p := Relative(f, x, y);
      started := new Stroke(color, brushRadius);
      started.AddPoint(p.x, p.y);
    } else if tool == Eraser {
      Erase(x, y, eraserRadius, mode, f, layer, stacks, State(layer, stacks), PointLists(layer.strokes), layer.quadtree);
    }
  }

  /** A motion inside the canvas with the left button held: the brush extends its stroke, the eraser erases. */
  method Drag(x: int, y: int, tool: Tool, mode: EraserMode, f: Frame, eraserRadius: int,
              layer: VectorLayer, stacks: Stacks, current: Stroke?)
    requires layer.Valid() && InCanvas(f, x, y)
    modifies layer, stacks, current
    ensures layer.Valid()
    ensures tool == Brush && current != null ==>
              current.points == old(current.points) + Densify(old(current.points), current.radius, Relative(f, x, y))
    ensures current != null && tool != Brush ==> current.points == old(current.points)
    ensures tool == Eraser && mode != OtherMode ==> Rebuilt(f, layer) == true
    ensures tool == Eraser ==>
              EraseOutcome(mode, f, Relative(f, x, y).x, Relative(f, x, y).y, eraserRadius, old(State(layer, stacks)), old(PointLists(layer.strokes)),
                           old(layer.quadtree), layer, stacks) == true
    ensures tool != Eraser ==> State(layer, stacks) == old(State(layer, stacks)) && layer.quadtree == old(layer.quadtree)
  {
    if tool == Brush && current != null {
      var p := Relative(f, x, y);
      current.AddPoint(p.x, p.y);
    } else if tool == Eraser {
      Erase(x, y, eraserRadius, mode, f, layer, stacks, State(layer, stacks), PointLists(layer.strokes), layer.quadtree);
    }
  }

  /**
   * `handle_mouse_input` for one event at window position (x, y); returns
   * the stroke in progress and the two radii.
   */
  method HandleMouseInput(ev: MouseEvent, x: int, y: int, leftHeld: bool, tool: Tool, mode: EraserMode,
                          f: Frame, color: Color, brushRadius: int, eraserRadius: int,
                          layer: VectorLayer, stacks: Stacks, current: Stroke?)
    returns (current': Stroke?, brushRadius': int, eraserRadius': int)
    requires layer.Valid()
    modifies layer, stacks, current
    ensures layer.Valid()
    // a brush press starts a fresh stroke at the press point
    ensures Pressing(ev, f, x, y) && tool == Brush ==>
              current' != null && fresh(current') && current'.color == color && current'.radius == brushRadius &&
              current'.points == [Relative(f, x, y)]
    // a brush drag extends the stroke in progress
    ensures Dragging(ev, leftHeld, f, x, y) && tool == Brush && current != null ==>
              current.points == old(current.points) + Densify(old(current.points), current.radius, Relative(f, x, y))
    ensures current != null && !(Dragging(ev, leftHeld, f, x, y) && tool == Brush) ==>
              current.points == old(current.points)
    // the erasers
    ensures (Pressing(ev, f, x, y) || Dragging(ev, leftHeld, f, x, y)) && tool == Eraser && mode != OtherMode ==>
              Rebuilt(f, layer) == true
    ensures (Pressing(ev, f, x, y) || Dragging(ev, leftHeld, f, x, y)) && tool == Eraser ==>
              EraseOutcome(mode, f, Relative(f, x, y).x, Relative(f, x, y).y, eraserRadius, old(State(layer, stacks)), old(PointLists(layer.strokes)),
                           old(layer.quadtree), layer, stacks) == true
    // a brush release commits the stroke in progress
    ensures Releasing(ev, tool, current) ==>
              Rebuilt(f, layer) == true && State(layer, stacks) == ReleaseStep(old(State(layer, stacks)), current) && current' == null
    // nothing else changes the layer, the stacks or the stroke in progress
    ensures !((Pressing(ev, f, x, y) || Dragging(ev, leftHeld, f, x, y)) && tool == Eraser) && !Releasing(ev, tool, current) ==>
              State(layer, stacks) == old(State(layer, stacks)) && layer.quadtree == old(layer.quadtree)
    ensures !(Pressing(ev, f, x, y) && tool == Brush) && !Releasing(ev, tool, current) ==> current' == current
    // the event loop's invariant: a stroke in progress is never empty
    ensures (current == null || |old(current.points)| > 0) ==> (current' == null || |current'.points| > 0)
    // so the stroke a release records as `("add_stroke", s)` has at least one point
    ensures Releasing(ev, tool, current) && |old(current.points)| > 0 ==>
              stacks.undo == old(stacks.undo) + [AddStroke(current)] && |current.points| > 0
    // the wheel adjusts the active tool's radius
    ensures brushRadius' == if ev.Wheel? && tool == Brush then Clamp(brushRadius + ev.dy) else brushRadius
    ensures eraserRadius' == if ev.Wheel? && tool == Eraser then Clamp(eraserRadius + ev.dy) else eraserRadius
  {
    current', brushRadius', eraserRadius' := current, brushRadius, eraserRadius;
    if ev.ButtonDown? && ev.button == 1 {
      if InCanvas(f, x, y) {
        var started := Press(x, y, tool, mode, f, color, brushRadius, eraserRadius, layer, stacks);
        if tool == Brush {
          current' := started;
        }
      }
    } else if ev.Motion? {
      if leftHeld && InCanvas(f, x, y) {
        Drag(x, y, tool, mode, f, eraserRadius, layer, stacks, current);
      }
    } else if ev.ButtonUp? && ev.button == 1 {
      if tool == Brush && current != null {
        Commit(current, f, layer, stacks);
        current' := null;
      }
    }
    if ev.Wheel? {
      if tool == Brush {
        brushRadius' := Clamp(brushRadius + ev.dy);
      } else if tool == Eraser {
        eraserRadius' := Clamp(eraserRadius + ev.dy);
      }
    }
  }
}
