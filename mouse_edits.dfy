/**
 * What the mouse handler of handlers/mouse_input.py does, stated on values:
 * the gestures and tools it distinguishes, the radius clamp, and the stroke
 * list, stacks and tree each edit leaves behind.
 */
module MouseEdits {
  import opened Wrappers
  import opened Strokes
  import opened VectorLayers
  import opened UndoRedo
  import opened Constants
  import Quadtree

  datatype Tool = Brush | Eraser | OtherTool

  datatype EraserMode = StrokeMode | AreaMode | OtherMode

  /** The pygame events the handler looks at; `dy` is a wheel event's `y`. */
  datatype MouseEvent = ButtonDown(button: int) | Motion | ButtonUp(button: int) | Wheel(dy: int) | OtherMouseEvent

  /** TOOLBAR_LEFT, TOOLBAR_TOP, CANVAS_WIDTH and CANVAS_HEIGHT as the handler receives them. */
  datatype Frame = Frame(left: int, top: int, width: int, height: int)

  /** The application's own frame. */
  const APP_FRAME: Frame := Frame(TOOLBAR_LEFT, TOOLBAR_TOP, CANVAS_WIDTH, CANVAS_HEIGHT)

  /** The half-open drawing-area test applied to window coordinates. */
  predicate InCanvas(f: Frame, x: int, y: int) {
    f.left <= x < f.left + f.width && f.top <= y < f.top + f.height
  }

  /** Window coordinates translated to canvas-relative ones: they land inside the canvas. */
  function Relative(f: Frame, x: int, y: int): (p: Point)
    requires InCanvas(f, x, y)
    ensures 0 <= p.x < f.width && 0 <= p.y < f.height
  {
    Point(x - f.left, y - f.top)
  }

  /** `max(MIN_RADIUS, min(MAX_RADIUS, r))`. */
  function Clamp(r: int): (c: int)
    ensures MIN_RADIUS <= c <= MAX_RADIUS
    ensures MIN_RADIUS <= r <= MAX_RADIUS ==> c == r
    ensures r < MIN_RADIUS ==> c == MIN_RADIUS
    ensures r > MAX_RADIUS ==> c == MAX_RADIUS
  {
    var m := if MAX_RADIUS < r then MAX_RADIUS else r;
    if MIN_RADIUS > m then MIN_RADIUS else m
  }

  // ---------------------------------------------------------------------
  // The edits, on values
  // ---------------------------------------------------------------------

  /** The stroke list and both stacks, read from the objects that hold them. */
  ghost function State(layer: VectorLayer, stacks: Stacks): EditState
    reads layer, stacks
  {
    EditState(layer.strokes, stacks.undo, stacks.redo)
  }

  /** Whether the tree is the one `rebuild_quadtree(f.width, f.height)` builds from the current strokes. */
  ghost predicate Rebuilt(f: Frame, layer: VectorLayer)
    reads layer, set s | s in layer.strokes
  {
    layer.quadtree == Some(IndexStrokes(Quadtree.NewNode(0, 0, f.width, f.height), PointLists(layer.strokes), 0))
  }

  /**
   * The stroke eraser at canvas point (cx, cy), with tree T: every in-range
   * touched stroke goes, and only the highest-indexed one is recorded.
   */
  ghost function StrokeEraseStep(st: EditState, T: Option<Quadtree.QuadtreeNode>, cx: int, cy: int, r: int): EditState {
    if T.None? then st
    else
      var D := HitStrokes(Quadtree.Within(Quadtree.Contents(T.value), cx, cy, r));
      var m := HighestBelow(D, |st.strokes|);
      if m < 0 then st.(strokes := Survivors(st.strokes, D, 0))
      else EditState(Survivors(st.strokes, D, 0), st.undo + [RemoveStroke(st.strokes[m])], [])
  }

  /** The (original, parts) pair of the split entry that turns undo into undo', if that is what happened. */
  function Recorded(undo: seq<HistoryEntry>, undo': seq<HistoryEntry>): Option<(Stroke, seq<Stroke>)> {
    if |undo'| == |undo| + 1 && undo'[|undo|].SplitStroke? then Some((undo'[|undo|].original, undo'[|undo|].parts))
    else None
  }

  /**
   * Whether st' is what the area eraser at canvas point (cx, cy), with tree
   * T, makes of st: the highest-indexed touched stroke is split, and the
   * entry pushed names it and its parts, whose point lists are PP; with no
   * such stroke nothing is pushed.
   */
  ghost predicate AreaErased(st: EditState, SP: seq<seq<Point>>, T: Option<Quadtree.QuadtreeNode>, cx: int, cy: int, r: int,
                             st': EditState, PP: seq<seq<Point>>)
  {
    |SP| == |st.strokes| &&
    if T.None? then st' == st
    else
      var result := Recorded(st.undo, st'.undo);
      SplitsHighest(st.strokes, SP, Quadtree.Within(Quadtree.Contents(T.value), cx, cy, r), result, PP, st'.strokes) == true &&
      (result.None? ==> st'.undo == st.undo && st'.redo == st.redo) &&
      (result.Some? ==> st'.undo[..|st.undo|] == st.undo && st'.redo == [])
  }

  /** The stacks after the area eraser: a split result is pushed and clears the redo stack; no result changes neither. */
  function RecordSplit(st: EditState, strokes': seq<Stroke>, result: Option<(Stroke, seq<Stroke>)>): EditState {
    if result.Some? then EditState(strokes', st.undo + [SplitStroke(result.value.0, result.value.1)], [])
    else EditState(strokes', st.undo, st.redo)
  }

  /**
   * Recording what `partial_erase` did completes an area erasure; PP' is
   * whatever the newest entry's parts hold, PP when a split was recorded.
   */
  lemma RecordSplitErases(st: EditState, SP: seq<seq<Point>>, T: Option<Quadtree.QuadtreeNode>, cx: int, cy: int, r: int,
                          result: Option<(Stroke, seq<Stroke>)>, PP: seq<seq<Point>>, strokes': seq<Stroke>,
                          T': Option<Quadtree.QuadtreeNode>, st': EditState, PP': seq<seq<Point>>)
    requires PartiallyErased(st.strokes, SP, T, cx, cy, r, result, PP, strokes', T')
    requires result.Some? ==> PP' == PP
    requires st' == RecordSplit(st, strokes', result)
    ensures AreaErased(st, SP, T, cx, cy, r, st', PP')
  {
    assert Recorded(st.undo, st'.undo) == result;
  }

  /** The parts of the newest entry, when it is a split. */
  function NewestParts(undo: seq<HistoryEntry>): seq<Stroke> {
    if undo != [] && undo[|undo| - 1].SplitStroke? then undo[|undo| - 1].parts else []
  }

  /** A brush release committing stroke c. */
  function ReleaseStep(st: EditState, c: Stroke): (st': EditState)
    ensures UndoStep(st') == EditState(RemoveFirst(st.strokes + [c], c), st.undo, [RemoveStroke(c)])
  {
    EditState(st.strokes + [c], st.undo + [AddStroke(c)], [])
  }

  /** Undoing a fresh commit takes exactly that stroke off again. */
  lemma ReleaseThenUndo(st: EditState, c: Stroke)
    requires c !in st.strokes
    ensures UndoStep(ReleaseStep(st, c)) == EditState(st.strokes, st.undo, [RemoveStroke(c)])
  {
    var s := st.strokes + [c];
    RemoveFirstAt(s, c);
    assert forall k :: 0 <= k < |st.strokes| ==> s[k] == st.strokes[k];
    var i := IndexOf(s, c);
    assert i == |st.strokes|;
    assert s[..i] == st.strokes;
  }

  /**
   * The stroke eraser can lose strokes for good: a touched stroke other than
   * the recorded one is not brought back by undoing the erasure.
   */
  lemma StrokeEraseUndoLosesOthers(st: EditState, T: Option<Quadtree.QuadtreeNode>, cx: int, cy: int, r: int, i: int)
    requires T.Some? && 0 <= i < |st.strokes|
    requires i in HitStrokes(Quadtree.Within(Quadtree.Contents(T.value), cx, cy, r))
    requires i != HighestBelow(HitStrokes(Quadtree.Within(Quadtree.Contents(T.value), cx, cy, r)), |st.strokes|)
    requires forall j :: 0 <= j < |st.strokes| && j != i ==> st.strokes[j] != st.strokes[i]
    ensures st.strokes[i] !in UndoStep(StrokeEraseStep(st, T, cx, cy, r)).strokes
  {
    var D := HitStrokes(Quadtree.Within(Quadtree.Contents(T.value), cx, cy, r));
    var m := HighestBelow(D, |st.strokes|);
    SurvivorsMembers(st.strokes, D, 0, st.strokes[i]);
    assert UndoStep(StrokeEraseStep(st, T, cx, cy, r)).strokes == Survivors(st.strokes, D, 0) + [st.strokes[m]];
  }

  /** The tree a rebuild over three one-point strokes at (0, 0), (50, 50) and (10, 10) gives: one node holding all three. */
  lemma ThreeStrokeTree()
    ensures Quadtree.Contents(IndexStrokes(Quadtree.NewNode(0, 0, 100, 100), [[Point(0, 0)], [Point(50, 50)], [Point(10, 10)]], 0))
            == [Quadtree.Entry(0, 0, 0, 0), Quadtree.Entry(1, 0, 50, 50), Quadtree.Entry(2, 0, 10, 10)]
  {
    var R := Quadtree.NewNode(0, 0, 100, 100);
    var pa, pc, pb := [Point(0, 0)], [Point(50, 50)], [Point(10, 10)];
    assert [pa, pc, pb] == [pa, pc] + [pb] && [pa, pc] == [pa] + [pc] && [pa] == [] + [pa];
    IndexStrokesSnoc(R, [], pa, 0);
    IndexStrokesSnoc(R, [pa], pc, 0);
    IndexStrokesSnoc(R, [pa, pc], pb, 0);
    assert pa[..0] == [] && pc[..0] == [] && pb[..0] == [];
    var T1 := IndexStrokes(R, [pa], 0);
    assert T1 == Quadtree.Insert(R, Quadtree.Entry(0, 0, 0, 0)).0;
    assert T1.points == [Quadtree.Entry(0, 0, 0, 0)] && T1.quads.Undivided? && Quadtree.SameFrame(T1, R);
    var T2 := IndexStrokes(R, [pa, pc], 0);
    assert T2 == Quadtree.Insert(T1, Quadtree.Entry(1, 0, 50, 50)).0;
    assert T2.points == [Quadtree.Entry(0, 0, 0, 0), Quadtree.Entry(1, 0, 50, 50)] && T2.quads.Undivided?;
    var T := IndexStrokes(R, [pa, pc, pb], 0);
    assert T == Quadtree.Insert(T2, Quadtree.Entry(2, 0, 10, 10)).0;
    assert T.points == [Quadtree.Entry(0, 0, 0, 0), Quadtree.Entry(1, 0, 50, 50), Quadtree.Entry(2, 0, 10, 10)] && T.quads.Undivided?;
  }

  /** Of those three entries, only stroke 1's lies within radius 1 of (50, 50). */
  lemma ThreeStrokeHits()
    ensures HitStrokes(Quadtree.Within([Quadtree.Entry(0, 0, 0, 0), Quadtree.Entry(1, 0, 50, 50), Quadtree.Entry(2, 0, 10, 10)], 50, 50, 1)) == {1}
  {
    var e0, e1, e2 := Quadtree.Entry(0, 0, 0, 0), Quadtree.Entry(1, 0, 50, 50), Quadtree.Entry(2, 0, 10, 10);
    assert [e0][..0] == [] && [e0, e1][..1] == [e0] && [e0, e1, e2][..2] == [e0, e1];
    assert Quadtree.Within([e0], 50, 50, 1) == [];
    assert Quadtree.Within([e0, e1], 50, 50, 1) == [e1];
    assert Quadtree.Within([e0, e1, e2], 50, 50, 1) == [e1];
  }

  /**
   * Undo and redo do not rebuild the tree, so a later stroke erase can hit
   * the wrong stroke. Commit a, b and c, stroke-erase b and undo that: the
   * list is [a, c, b] and the tree holds a under 0, c under 1 and b under 2.
   * Undoing the commit of c leaves [a, b] and the same tree, and an erase on
   * c's point, where b has no point, then removes b.
   */
  lemma StaleTreeErasesWrongStroke(a: Stroke, b: Stroke, c: Stroke, undo: seq<HistoryEntry>)
    requires a != b && b != c && a != c
    requires a.points == [Point(0, 0)] && b.points == [Point(10, 10)] && c.points == [Point(50, 50)]
    ensures var T := Some(IndexStrokes(Quadtree.NewNode(0, 0, 100, 100), PointLists([a, c, b]), 0));
            var st := EditState([a, c, b], undo + [AddStroke(c)], []);
            UndoStep(st).strokes == [a, b] &&
            UndoTree(st.strokes, T, AddStroke(c)) == T &&
            StrokeEraseStep(UndoStep(st), T, 50, 50, 1).strokes == [a]
  {
    var st := EditState([a, c, b], undo + [AddStroke(c)], []);
    UndoCommitOfMiddle(a, c, b);
    assert UndoStep(st).strokes == [a, b];
    PointListsOfThree(a, c, b);
    ThreeStrokeTree();
    ThreeStrokeHits();
    var T := IndexStrokes(Quadtree.NewNode(0, 0, 100, 100), PointLists([a, c, b]), 0);
    assert HitStrokes(Quadtree.Within(Quadtree.Contents(T), 50, 50, 1)) == {1};
    assert HighestBelow({1}, 2) == 1;
    assert Survivors([a, b], {1}, 0) == [a];
  }

  /** Taking c out of [a, c, b] by identity leaves [a, b]. */
  lemma UndoCommitOfMiddle(a: Stroke, c: Stroke, b: Stroke)
    requires a != c && b != c
    ensures RemoveFirst([a, c, b], c) == [a, b]
  {
    assert [a, c, b][1..] == [c, b] && [c, b][1..] == [b];
  }

  /** The point lists of a three-stroke list. */
  lemma PointListsOfThree(a: Stroke, c: Stroke, b: Stroke)
    ensures PointLists([a, c, b]) == [a.points, c.points, b.points]
  {
    PointListsSnoc([], a);
    PointListsSnoc([a], c);
    PointListsSnoc([a, c], b);
    assert [] + [a] == [a] && [a] + [c] == [a, c] && [a, c] + [b] == [a, c, b];
  }

  /**
   * What the eraser in `mode` makes of a layer whose strokes and stacks were
   * st0, whose point lists were SP0 and whose tree was T0, at canvas point (cx, cy).
   */
  ghost predicate EraseOutcome(mode: EraserMode, f: Frame, cx: int, cy: int, r: int,
                               st0: EditState, SP0: seq<seq<Point>>, T0: Option<Quadtree.QuadtreeNode>,
                               layer: VectorLayer, stacks: Stacks)
    reads layer, stacks, set p | p in NewestParts(stacks.undo)
  {
    match mode
    case StrokeMode => State(layer, stacks) == StrokeEraseStep(st0, T0, cx, cy, r)
    case AreaMode =>
      AreaErased(st0, SP0, T0, cx, cy, r, State(layer, stacks), PointLists(NewestParts(stacks.undo))) == true
    case OtherMode => State(layer, stacks) == st0 && layer.quadtree == T0
  }
}
