/**
 * The undo/redo protocol of handlers/undo_redo.py.  The undo and redo
 * stacks hold history entries recorded by the mouse handler; Ctrl+Z pops
 * the newest undo entry and inverts it on the layer's stroke list,
 * Ctrl+Shift+Z pops the newest redo entry and applies it again.  Strokes
 * are compared by identity (Stroke defines no equality), so membership and
 * removal work on references.  Neither direction rebuilds the index: a
 * removal leaves the tree as it was, and a re-added stroke is indexed by
 * `add_stroke` under its new position.
 */
module UndoRedo {
  import opened Wrappers
  import opened Strokes
  import opened VectorLayers
  import Quadtree

  /** ("add_stroke", s), ("remove_stroke", s) or ("split_stroke", original, parts). */
  datatype HistoryEntry =
    | AddStroke(stroke: Stroke)
    | RemoveStroke(stroke: Stroke)
    | SplitStroke(original: Stroke, parts: seq<Stroke>)

  /** A keyboard event as the handler sees it: KEYDOWN with its key and the Ctrl and Shift modifiers, or anything else. */
  datatype KeyEvent = KeyDown(isZ: bool, ctrl: bool, shift: bool) | OtherEvent

  datatype Command = Undo | Redo | NoCommand

  /** Ctrl+Z undoes, Ctrl+Shift+Z redoes, every other event does nothing. */
  function CommandOf(ev: KeyEvent): Command {
    if ev.KeyDown? && ev.isZ && ev.ctrl then (if ev.shift then Redo else Undo) else NoCommand
  }

  /** The position of the first occurrence of x in s. */
  function IndexOf<T(==)>(s: seq<T>, x: T): (i: int)
    requires x in s
    ensures 0 <= i < |s| && s[i] == x && x !in s[..i]
  {
    if s[0] == x then 0
    else
      var j := IndexOf(s[1..], x);
      assert s[..j + 1] == [s[0]] + s[1..][..j];
      j + 1
  }

  /** Adding an element other than x commutes with taking one x out. */
  lemma ConsMinus<T>(a: T, M: multiset<T>, x: T)
    requires a != x
    ensures multiset{a} + (M - multiset{x}) == (multiset{a} + M) - multiset{x}
  {
    assert forall y :: (multiset{a} + (M - multiset{x}))[y] == ((multiset{a} + M) - multiset{x})[y];
  }

  /** Taking out X and then Y is taking out X + Y. */
  lemma MinusMinus<T>(M: multiset<T>, X: multiset<T>, Y: multiset<T>)
    ensures (M - X) - Y == M - (X + Y)
  {
    assert forall y :: ((M - X) - Y)[y] == (M - (X + Y))[y];
  }

  /**
   * `if x in s: s.remove(x)`: drops one occurrence of x (the first, see
   * RemoveFirstAt); s itself when x does not occur.
   */
  function RemoveFirst<T(==)>(s: seq<T>, x: T): (r: seq<T>)
    ensures multiset(r) == multiset(s) - multiset{x}
    ensures x !in s ==> r == s
  {
    if s == [] then []
    else if s[0] == x then
      assert s == [x] + s[1..];
      assert multiset(s) - multiset{x} == multiset(s[1..]);
      s[1..]
    else
      var t := s[1..];
      assert s == [s[0]] + t;
      ConsMinus(s[0], multiset(t), x);
      [s[0]] + RemoveFirst(t, x)
  }

  /** RemoveFirst removes the first occurrence and keeps the order of everything else. */
  lemma {:induction false} RemoveFirstAt<T>(s: seq<T>, x: T)
    requires x in s
    ensures RemoveFirst(s, x) == s[..IndexOf(s, x)] + s[IndexOf(s, x) + 1..]
  {
    if s[0] == x {
      assert s[..0] + s[1..] == s[1..];
    } else {
      var t := s[1..];
      RemoveFirstAt(t, x);
      var j := IndexOf(t, x);
      assert IndexOf(s, x) == j + 1;
      assert RemoveFirst(s, x) == [s[0]] + RemoveFirst(t, x);
      DropAfterHead(s, j);
    }
  }

  lemma DropAfterHead<T>(s: seq<T>, j: int)
    requires 0 <= j < |s| - 1
    ensures [s[0]] + (s[1..][..j] + s[1..][j + 1..]) == s[..j + 1] + s[j + 2..]
  {
    assert [s[0]] + s[1..][..j] == s[..j + 1];
  }

  /** `for p in xs: if p in s: s.remove(p)`. */
  function RemoveEach<T(==)>(s: seq<T>, xs: seq<T>): (r: seq<T>)
    ensures multiset(r) == multiset(s) - multiset(xs)
    decreases |xs|
  {
    if xs == [] then s
    else
      var n := |xs| - 1;
      assert xs == xs[..n] + [xs[n]];
      MinusMinus(multiset(s), multiset(xs[..n]), multiset{xs[n]});
      RemoveFirst(RemoveEach(s, xs[..n]), xs[n])
  }

  /** The entry pushed onto the other stack: add and remove swap, a split stays the same. */
  function Inverse(e: HistoryEntry): HistoryEntry {
    match e
    case AddStroke(s) => RemoveStroke(s)
    case RemoveStroke(s) => AddStroke(s)
    case SplitStroke(_, _) => e
  }

  /** The stroke list after undoing e. */
  function UndoStrokes(S: seq<Stroke>, e: HistoryEntry): seq<Stroke> {
    match e
    case AddStroke(s) => RemoveFirst(S, s)
    case RemoveStroke(s) => S + [s]
    case SplitStroke(o, ps) => RemoveEach(S, ps) + [o]
  }

  /** The stroke list after redoing e. */
  function RedoStrokes(S: seq<Stroke>, e: HistoryEntry): seq<Stroke> {
    match e
    case RemoveStroke(s) => S + [s]
    case AddStroke(s) => RemoveFirst(S, s)
    case SplitStroke(o, ps) => RemoveFirst(S, o) + ps
  }

  /** What the handler changes apart from the tree: the layer's stroke list and the two stacks. */
  datatype EditState = EditState(strokes: seq<Stroke>, undo: seq<HistoryEntry>, redo: seq<HistoryEntry>)

  function UndoStep(st: EditState): EditState {
    if st.undo == [] then st
    else
      var e := st.undo[|st.undo| - 1];
      EditState(UndoStrokes(st.strokes, e), st.undo[..|st.undo| - 1], st.redo + [Inverse(e)])
  }

  function RedoStep(st: EditState): EditState {
    if st.redo == [] then st
    else
      var e := st.redo[|st.redo| - 1];
      EditState(RedoStrokes(st.strokes, e), st.undo + [Inverse(e)], st.redo[..|st.redo| - 1])
  }

  function Step(c: Command, st: EditState): EditState {
    match c
    case Undo => UndoStep(st)
    case Redo => RedoStep(st)
    case NoCommand => st
  }

  /** The strokes an entry refers to. */
  function EntryStrokes(e: HistoryEntry): set<Stroke> {
    match e
    case AddStroke(s) => {s}
    case RemoveStroke(s) => {s}
    case SplitStroke(o, ps) => {o} + set p | p in ps
  }

  /** `add_stroke` of every list in turn on an optional tree: nothing happens when there is no tree. */
  function IndexStrokesInto(t: Option<Quadtree.QuadtreeNode>, lists: seq<seq<Point>>, base: int): (r: Option<Quadtree.QuadtreeNode>)
    requires t.Some? ==> Quadtree.Valid(t.value)
    ensures r.Some? ==> Quadtree.Valid(r.value)
  {
    match t
    case None => None
    case Some(n) => Some(IndexStrokes(n, lists, base))
  }

  lemma IndexStrokesIntoSnoc(t: Option<Quadtree.QuadtreeNode>, lists: seq<seq<Point>>, pts: seq<Point>, base: int)
    requires t.Some? ==> Quadtree.Valid(t.value)
    ensures IndexStrokesInto(t, lists + [pts], base) == IndexInto(IndexStrokesInto(t, lists, base), base + |lists|, pts)
  {
    if t.Some? {
      IndexStrokesSnoc(t.value, lists, pts, base);
    }
  }

  /** The tree after undoing e on stroke list S: only re-added strokes are indexed. */
  ghost function UndoTree(S: seq<Stroke>, T: Option<Quadtree.QuadtreeNode>, e: HistoryEntry): (r: Option<Quadtree.QuadtreeNode>)
    requires T.Some? ==> Quadtree.Valid(T.value)
    reads EntryStrokes(e)
    ensures r.Some? ==> Quadtree.Valid(r.value)
  {
    match e
    case AddStroke(_) => T
    case RemoveStroke(s) => IndexInto(T, |S|, s.points)
    case SplitStroke(o, ps) => IndexInto(T, |RemoveEach(S, ps)|, o.points)
  }

  /** The tree after redoing e on stroke list S: only re-added strokes are indexed. */
  ghost function RedoTree(S: seq<Stroke>, T: Option<Quadtree.QuadtreeNode>, e: HistoryEntry): (r: Option<Quadtree.QuadtreeNode>)
    requires T.Some? ==> Quadtree.Valid(T.value)
    reads EntryStrokes(e)
    ensures r.Some? ==> Quadtree.Valid(r.value)
  {
    match e
    case RemoveStroke(s) => IndexInto(T, |S|, s.points)
    case AddStroke(_) => T
    case SplitStroke(o, ps) => IndexStrokesInto(T, PointLists(ps), |RemoveFirst(S, o)|)
  }

  /** The tree after command c. */
  ghost function TreeAfter(c: Command, st: EditState, T: Option<Quadtree.QuadtreeNode>): (r: Option<Quadtree.QuadtreeNode>)
    requires T.Some? ==> Quadtree.Valid(T.value)
    reads if c == Undo && st.undo != [] then EntryStrokes(st.undo[|st.undo| - 1]) else {}
    reads if c == Redo && st.redo != [] then EntryStrokes(st.redo[|st.redo| - 1]) else {}
  {
    match c
    case Undo => if st.undo == [] then T else UndoTree(st.strokes, T, st.undo[|st.undo| - 1])
    case Redo => if st.redo == [] then T else RedoTree(st.strokes, T, st.redo[|st.redo| - 1])
    case NoCommand => T
  }

  /** The undo_stack and redo_stack lists that main.py hands to the handlers, which mutate them in place. */
  class Stacks {
    var undo: seq<HistoryEntry>
    var redo: seq<HistoryEntry>

    /** `undo_stack, redo_stack = [], []`. */
    constructor ()
      ensures undo == [] && redo == []
    {
      undo := [];
      redo := [];
    }
  }

  /** The body of the undo branch for the popped entry e; returns the entry it pushes onto the redo stack. */
  method UndoEntry(e: HistoryEntry, layer: VectorLayer) returns (pushed: HistoryEntry)
    requires layer.Valid()
    modifies layer
    ensures layer.Valid()
    ensures pushed == Inverse(e)
    ensures layer.strokes == UndoStrokes(old(layer.strokes), e)
    ensures layer.quadtree == UndoTree(old(layer.strokes), old(layer.quadtree), e)
  {
    match e
    case AddStroke(stroke) =>
      if stroke in layer.strokes {
        layer.strokes := RemoveFirst(layer.strokes, stroke);
      }
      pushed := RemoveStroke(stroke);
    case RemoveStroke(stroke) =>
      layer.AddStroke(stroke);
      pushed := AddStroke(stroke);
    case SplitStroke(original, parts) =>
      UndoSplit(original, parts, layer);
      pushed := e;
  }

  /** Undoing ("split_stroke", original, parts): removes every part still present, then re-adds the original. */
  method UndoSplit(original: Stroke, parts: seq<Stroke>, layer: VectorLayer)
    requires layer.Valid()
    modifies layer
    ensures layer.Valid()
    ensures layer.strokes == RemoveEach(old(layer.strokes), parts) + [original]
    ensures layer.quadtree == IndexInto(old(layer.quadtree), |RemoveEach(old(layer.strokes), parts)|, original.points)
  {
    var kept := RemovePresent(layer.strokes, parts);
    layer.strokes := kept;
    assert layer.Valid() && layer.quadtree == old(layer.quadtree);
    layer.AddStroke(original);
  }

  /** The loop `for s in parts: if s in strokes: strokes.remove(s)`. */
  method RemovePresent(strokes: seq<Stroke>, parts: seq<Stroke>) returns (r: seq<Stroke>)
    ensures r == RemoveEach(strokes, parts)
  {
    r := strokes;
    for i := 0 to |parts|
      invariant r == RemoveEach(strokes, parts[..i])
    {
      assert parts[..i + 1][..i] == parts[..i];
      if parts[i] in r {
        r := RemoveFirst(r, parts[i]);
      }
    }
    assert parts[..|parts|] == parts;
  }

  /** The body of the redo branch for the popped entry e; returns the entry it pushes onto the undo stack. */
  method RedoEntry(e: HistoryEntry, layer: VectorLayer) returns (pushed: HistoryEntry)
    requires layer.Valid()
    modifies layer
    ensures layer.Valid()
    ensures pushed == Inverse(e)
    ensures layer.strokes == RedoStrokes(old(layer.strokes), e)
    ensures layer.quadtree == RedoTree(old(layer.strokes), old(layer.quadtree), e)
  {
    match e
    case RemoveStroke(stroke) =>
      layer.AddStroke(stroke);
      pushed := AddStroke(stroke);
    case AddStroke(stroke) =>
      if stroke in layer.strokes {
        layer.strokes := RemoveFirst(layer.strokes, stroke);
      }
      pushed := RemoveStroke(stroke);
    case SplitStroke(original, parts) =>
      RedoSplit(original, parts, layer);
      pushed := e;
  }

  /** Redoing ("split_stroke", original, parts): removes the original if present, then adds every part in order. */
  method RedoSplit(original: Stroke, parts: seq<Stroke>, layer: VectorLayer)
    requires layer.Valid()
    modifies layer
    ensures layer.Valid()
    ensures layer.strokes == RemoveFirst(old(layer.strokes), original) + parts
    ensures layer.quadtree == IndexStrokesInto(old(layer.quadtree), PointLists(parts), |RemoveFirst(old(layer.strokes), original)|)
  {
    if original in layer.strokes {
      layer.strokes := RemoveFirst(layer.strokes, original);
    }
    AddEach(parts, layer);
  }

  /** `for s in parts: vector_layer.add_stroke(s)`. */
  method AddEach(parts: seq<Stroke>, layer: VectorLayer)
    requires layer.Valid()
    modifies layer
    ensures layer.Valid()
    ensures layer.strokes == old(layer.strokes) + parts
    ensures layer.quadtree == IndexStrokesInto(old(layer.quadtree), PointLists(parts), |old(layer.strokes)|)
  {
    ghost var lists := PointLists(parts);
    forall i | 0 <= i < |parts|
      ensures lists[i] == parts[i].points
    {
      PointListsAt(parts, i);
    }
    for i := 0 to |parts|
      invariant layer.Valid()
      invariant layer.strokes == old(layer.strokes) + parts[..i]
      invariant layer.quadtree == IndexStrokesInto(old(layer.quadtree), lists[..i], |old(layer.strokes)|)
    {
      assert lists[..i + 1] == lists[..i] + [lists[i]];
      assert parts[..i + 1] == parts[..i] + [parts[i]];
      IndexStrokesIntoSnoc(old(layer.quadtree), lists[..i], lists[i], |old(layer.strokes)|);
      layer.AddStroke(parts[i]);
    }
    assert lists[..|parts|] == lists;
    assert parts[..|parts|] == parts;
  }

  /**
   * `handle_undo_redo`: on Ctrl+Z pops the newest undo entry (if any),
   * inverts it on the layer and pushes the inverse onto the redo stack; on
   * Ctrl+Shift+Z does the same from the redo stack to the undo stack; any
   * other event changes nothing.
   */
  method HandleUndoRedo(ev: KeyEvent, stacks: Stacks, layer: VectorLayer)
    requires layer.Valid()
    modifies stacks, layer
    ensures layer.Valid()
    ensures EditState(layer.strokes, stacks.undo, stacks.redo) ==
            Step(CommandOf(ev), EditState(old(layer.strokes), old(stacks.undo), old(stacks.redo)))
    ensures layer.quadtree ==
            TreeAfter(CommandOf(ev), EditState(old(layer.strokes), old(stacks.undo), old(stacks.redo)), old(layer.quadtree))
  {
    var c := CommandOf(ev);
    if c == Undo {
      if stacks.undo != [] {
        UndoLatest(stacks, layer);
      }
    } else if c == Redo {
      if stacks.redo != [] {
        RedoLatest(stacks, layer);
      }
    }
  }

  /** The Ctrl+Z branch with a non-empty undo stack: pop, invert on the layer, push the inverse onto redo. */
  method UndoLatest(stacks: Stacks, layer: VectorLayer)
    requires layer.Valid() && stacks.undo != []
    modifies stacks, layer
    ensures layer.Valid()
    ensures EditState(layer.strokes, stacks.undo, stacks.redo) ==
            UndoStep(EditState(old(layer.strokes), old(stacks.undo), old(stacks.redo)))
    ensures layer.quadtree == UndoTree(old(layer.strokes), old(layer.quadtree), old(stacks.undo[|stacks.undo| - 1]))
  {
    var entry := stacks.undo[|stacks.undo| - 1];
    stacks.undo := stacks.undo[..|stacks.undo| - 1];
    var pushed := UndoEntry(entry, layer);
    stacks.redo := stacks.redo + [pushed];
  }

  /** The Ctrl+Shift+Z branch with a non-empty redo stack: pop, reapply on the layer, push the inverse onto undo. */
  method RedoLatest(stacks: Stacks, layer: VectorLayer)
    requires layer.Valid() && stacks.redo != []
    modifies stacks, layer
    ensures layer.Valid()
    ensures EditState(layer.strokes, stacks.undo, stacks.redo) ==
            RedoStep(EditState(old(layer.strokes), old(stacks.undo), old(stacks.redo)))
    ensures layer.quadtree == RedoTree(old(layer.strokes), old(layer.quadtree), old(stacks.redo[|stacks.redo| - 1]))
  {
    var entry := stacks.redo[|stacks.redo| - 1];
    stacks.redo := stacks.redo[..|stacks.redo| - 1];
    var pushed := RedoEntry(entry, layer);
    stacks.undo := stacks.undo + [pushed];
  }

  // ---------------------------------------------------------------------
  // Undo followed by redo
  // ---------------------------------------------------------------------

  /** Whether undoing e on stroke list S and redoing it gives back the same strokes. */
  predicate Restorable(S: seq<Stroke>, e: HistoryEntry) {
    match e
    case AddStroke(s) => s in S
    case RemoveStroke(_) => true
    case SplitStroke(_, ps) => multiset(ps) <= multiset(S)
  }

  /** Adding P and taking it out again gives A back. */
  lemma AddThenSubtract<T>(A: multiset<T>, P: multiset<T>)
    ensures (A + P) - P == A
  {
    assert forall x :: ((A + P) - P)[x] == A[x];
  }

  /** Taking P out of A and putting it back gives A exactly when P is part of A. */
  lemma SubtractThenAdd<T>(A: multiset<T>, P: multiset<T>)
    ensures (A - P) + P == A <==> P <= A
  {
    if P <= A {
      assert forall x :: ((A - P) + P)[x] == A[x];
    } else {
      var x :| P[x] > A[x];
      assert ((A - P) + P)[x] == P[x];
    }
  }

  /** Redoing what an undo of e pushed gives back the strokes of S exactly when e is restorable. */
  lemma UndoRedoStrokes(S: seq<Stroke>, e: HistoryEntry)
    ensures multiset(RedoStrokes(UndoStrokes(S, e), Inverse(e))) == multiset(S) <==> Restorable(S, e)
  {
    var M := multiset(S);
    match e
    case AddStroke(s) =>
      SubtractThenAdd(M, multiset{s});
      assert multiset{s} <= M <==> s in S;
      assert multiset(RedoStrokes(UndoStrokes(S, e), Inverse(e))) == (M - multiset{s}) + multiset{s};
    case RemoveStroke(s) =>
      AddThenSubtract(M, multiset{s});
      assert multiset(RedoStrokes(UndoStrokes(S, e), Inverse(e))) == (M + multiset{s}) - multiset{s};
    case SplitStroke(o, ps) =>
      var P := multiset(ps);
      SubtractThenAdd(M, P);
      AddThenSubtract(M - P, multiset{o});
      assert multiset(RemoveEach(S, ps) + [o]) - multiset{o} == M - P;
      assert multiset(RedoStrokes(UndoStrokes(S, e), Inverse(e))) == (M - P) + P;
  }

  /** Whether redoing e on stroke list S and undoing it gives back the same strokes. */
  predicate RedoRestorable(S: seq<Stroke>, e: HistoryEntry) {
    match e
    case AddStroke(s) => s in S
    case RemoveStroke(_) => true
    case SplitStroke(o, _) => o in S
  }

  /** Undoing what a redo of e pushed gives back the strokes of S exactly when e is redo-restorable. */
  lemma RedoUndoStrokes(S: seq<Stroke>, e: HistoryEntry)
    ensures multiset(UndoStrokes(RedoStrokes(S, e), Inverse(e))) == multiset(S) <==> RedoRestorable(S, e)
  {
    match e
    case AddStroke(s) => ReAddRemoved(S, s);
    case RemoveStroke(s) => RemoveAdded(S, s);
    case SplitStroke(o, ps) => UnsplitResplit(S, o, ps);
  }

  /** Taking s out and appending it again keeps the multiset exactly when s was there. */
  lemma ReAddRemoved(S: seq<Stroke>, s: Stroke)
    ensures multiset(RemoveFirst(S, s) + [s]) == multiset(S) <==> s in S
  {
    var M := multiset(S);
    SubtractThenAdd(M, multiset{s});
    assert multiset{s} <= M <==> s in S;
    assert multiset(RemoveFirst(S, s) + [s]) == (M - multiset{s}) + multiset{s};
  }

  /** Appending s and taking it out again keeps the multiset. */
  lemma RemoveAdded(S: seq<Stroke>, s: Stroke)
    ensures multiset(RemoveFirst(S + [s], s)) == multiset(S)
  {
    var M := multiset(S);
    AddThenSubtract(M, multiset{s});
    assert multiset(RemoveFirst(S + [s], s)) == (M + multiset{s}) - multiset{s};
  }

  /** Replacing o by ps and then ps by o keeps the multiset exactly when o was there. */
  lemma UnsplitResplit(S: seq<Stroke>, o: Stroke, ps: seq<Stroke>)
    ensures multiset(RemoveEach(RemoveFirst(S, o) + ps, ps) + [o]) == multiset(S) <==> o in S
  {
    var M := multiset(S);
    var P := multiset(ps);
    SubtractThenAdd(M, multiset{o});
    AddThenSubtract(M - multiset{o}, P);
    assert multiset{o} <= M <==> o in S;
    assert multiset(RemoveFirst(S, o) + ps) - P == M - multiset{o};
    assert multiset(RemoveEach(RemoveFirst(S, o) + ps, ps) + [o]) == (M - multiset{o}) + multiset{o};
  }

  /**
   * Undo immediately followed by redo puts both stacks back exactly, and
   * gives back the same strokes (up to order, since restored strokes go to
   * the end) exactly when the entry is restorable: an undone add must still
   * be on the layer, an undone split's parts must all still be there.
   */
  lemma UndoThenRedo(st: EditState)
    requires st.undo != []
    ensures RedoStep(UndoStep(st)).undo == st.undo
    ensures RedoStep(UndoStep(st)).redo == st.redo
    ensures multiset(RedoStep(UndoStep(st)).strokes) == multiset(st.strokes) <==>
            Restorable(st.strokes, st.undo[|st.undo| - 1])
  {
    var e := st.undo[|st.undo| - 1];
    var mid := UndoStep(st);
    assert mid.redo[|mid.redo| - 1] == Inverse(e);
    assert mid.redo[..|mid.redo| - 1] == st.redo;
    assert st.undo[..|st.undo| - 1] + [Inverse(Inverse(e))] == st.undo;
    assert RedoStep(mid).strokes == RedoStrokes(UndoStrokes(st.strokes, e), Inverse(e));
    UndoRedoStrokes(st.strokes, e);
  }

  /**
   * Redo immediately followed by undo puts both stacks back exactly, and
   * gives back the same strokes exactly when the redone removal (of an
   * added stroke, or of a split's original) finds its stroke on the layer.
   */
  lemma RedoThenUndo(st: EditState)
    requires st.redo != []
    ensures UndoStep(RedoStep(st)).undo == st.undo
    ensures UndoStep(RedoStep(st)).redo == st.redo
    ensures multiset(UndoStep(RedoStep(st)).strokes) == multiset(st.strokes) <==>
            RedoRestorable(st.strokes, st.redo[|st.redo| - 1])
  {
    var e := st.redo[|st.redo| - 1];
    var mid := RedoStep(st);
    assert mid.undo[|mid.undo| - 1] == Inverse(e);
    assert mid.undo[..|mid.undo| - 1] == st.undo;
    assert st.redo[..|st.redo| - 1] + [Inverse(Inverse(e))] == st.redo;
    assert UndoStep(mid).strokes == UndoStrokes(RedoStrokes(st.strokes, e), Inverse(e));
    RedoUndoStrokes(st.strokes, e);
  }
}
