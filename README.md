# Pygame-Canvas vector engine, modelled in Dafny

This project models the drawing core of Pygame-Canvas, a small pygame
painting program. It has two near-identical copies, `project/` and
`project_Doxygen/`. Once comments and docstrings are removed, the logic of
the quadtree, the vector layer, the undo/redo handler, the mouse handler and
the history is the same in both. The model describes that logic once and
cites the `project_Doxygen/` lines.

What is modelled:

- **Quadtree** (`engine/quadtree.py`, module `Quadtree`): a region quadtree
  of indexed sample points `(stroke_idx, point_idx, x, y)`.
  - Node capacity is 4.
  - A full node splits into four floor-halved quadrants.
  - `insert` tries the children in the order NW, NE, SW, SE.
  - `query_circle` reports every stored point within the radius and prunes
    subtrees with `_intersects_circle`.
- **Stroke** (`engine/stroke.py`, module `Strokes`): a class with a colour, a
  radius and a point list. `add_point` appends either the new point or
  evenly spaced samples towards it.
- **VectorLayer** (`engine/vectorlayer.py`, module `VectorLayers`): an
  ordered list of `Stroke` references and an optional index tree, with these
  operations:
  - `add_stroke`;
  - `rebuild_quadtree`;
  - `erase_near`, the whole-stroke eraser;
  - `partial_erase`, the area eraser;
  - `split_stroke`, which splits a stroke into its maximal runs of kept points.
- **Undo/redo handler** (`handlers/undo_redo.py`, module `UndoRedo`):
  - Ctrl+Z pops the newest history entry, inverts it on the layer and pushes
    it onto the redo list.
  - Ctrl+Shift+Z does the same from the redo list to the undo list.
  - The entries are `("add_stroke", s)`, `("remove_stroke", s)` and
    `("split_stroke", original, parts)`.
  - The handler matches strokes by object identity.
- **Mouse handler** (`handlers/mouse_input.py`, modules `MouseEdits` and
  `MouseInput`):
  - A left press or a drag inside the drawing area starts or extends the
    brush stroke, or runs the stroke eraser or the area eraser, rebuilds the
    index and records the edit.
  - A left release commits the brush stroke.
  - The wheel adjusts the active tool's radius, clamped to [1, 100].
- **History** (`engine/history.py`, module `History`): a bounded undo/redo
  pair of deques of commands.
- **DrawCommand** (`engine/tools.py`, module `Tools`): a command that writes
  a stored copy of a layer's pixels back into the layer's buffer in place.
  `Layers.Layer` (`engine/layer.py`) is the buffer it acts on.
- **Canvas layer bookkeeping** (`engine/canvas.py`, module `Canvases`): a
  layer list with an optional active index.

How the source's forms carry over:

- **Classes.** The source's mutable objects become Dafny classes: `Stroke`,
  `VectorLayer`, the `undo_stack`/`redo_stack` pair (`UndoRedo.Stacks`),
  `History`, `DrawCommand`, `Layer` and `Canvas`. Their methods update
  fields in place.
- **Loops.** The source's loops become `while`/`for` loops with invariants:
  - the interpolation loop of `add_point`;
  - the descending pop loop of `erase_near`;
  - the `affected` grouping and the key search of `partial_erase`;
  - the run-collecting loop of `split_stroke`;
  - the indexing loops;
  - the `remove` loops of the undo handler;
  - the element-wise overwrite of `layer.pixels[:] = state`.
- **Specification functions.** Each such method is proved against a
  function, and the properties the program relies on are lemmas about those
  functions:
  - `Within` and `Contents` for the tree;
  - `Survivors`, `Runs` and `HighestBelow` for the erasers;
  - `UndoStep`/`RedoStep` for the undo handler;
  - `ExecuteStep`/`UndoStep`/`RedoStep` over `Stacks` for the history.
  The lemmas prove that queries are exact, that a split is a partition into
  maximal runs, that undo followed by redo restores the state, and that the
  history keeps its bound.

## Model

| member | source | states |
|---|---|---|
| Quadtree.NewNode | project_Doxygen/engine/quadtree.py:22-25 | A new node is valid and empty, is undivided, keeps the given boundary and capacity, and (with positive capacity) accepts exactly the points of its half-open rectangle |
| Quadtree.Subdivide | project_Doxygen/engine/quadtree.py:58-64 | Splitting keeps the node valid and its stored entries unchanged, and the four children together accept exactly the points of the four floor-halved quadrants |
| Quadtree.Insert | project_Doxygen/engine/quadtree.py:40-52 | `insert` succeeds exactly when the point can be stored. On success the subtree holds the entry once more, and otherwise nothing changes in what it stores. An out-of-bounds point leaves the node untouched. A node with room appends to its own list. A full node never changes its own list, and a divided node stays divided |
| Quadtree.InsertFrom | project_Doxygen/engine/quadtree.py:47-52 | The `or` chain from child i succeeds exactly when one of children i..3 can store the entry; children before i are untouched; the entry is added once |
| Quadtree.InsertInto | project_Doxygen/engine/quadtree.py:48 | Inserting into one child changes only that child and adds the entry once, exactly when that child can store it |
| Quadtree.ChainIsAny | project_Doxygen/engine/quadtree.py:47-52 | Trying NW, NE, SW, SE in turn succeeds exactly when some child can store the point |
| Quadtree.ReplaceChild | project_Doxygen/engine/quadtree.py:48-51 | Replacing a child by its updated version keeps the parent valid and adds to the parent what the child gained |
| Quadtree.ContentsInRect | project_Doxygen/engine/quadtree.py:40-41 | Every entry stored in a subtree lies within the node's boundary |
| Quadtree.QueryCircle | project_Doxygen/engine/quadtree.py:78-89 | `query_circle` returns exactly the stored entries within the radius, in pre-order, even though it prunes subtrees |
| Quadtree.FilterInCircle | project_Doxygen/engine/quadtree.py:81-83 | The loop over a node's own points keeps exactly those within the radius, in order |
| Quadtree.WithinCount | project_Doxygen/engine/quadtree.py:82 | The radius filter is sound and complete: each entry occurs in the result as often as in the input when it is inside the circle, and never otherwise |
| Quadtree.NoIntersectionNoHit | project_Doxygen/engine/quadtree.py:103-107 | When `_intersects_circle` fails, no point inside the rectangle lies in the circle, so pruning loses nothing |
| Quadtree.CentreInsideIntersects | project_Doxygen/engine/quadtree.py:103-107 | A circle centred inside the rectangle is never pruned |
| Quadtree.QueryExactlyOnce | project_Doxygen/engine/quadtree.py:78-89 | Each entry is reported as many times as the tree stores it when it lies within the radius, and never otherwise |
| Quadtree.CountIsContents | project_Doxygen/engine/quadtree.py:24 | The per-entry count agrees with the pre-order listing of the subtree |
| Quadtree.ZeroRadiusFindsStoredPoint | project_Doxygen/engine/quadtree.py:82 | A zero-radius query at a stored point reports that point |
| Quadtree.FullUnitNodeRejectsInBoundsPoint | project_Doxygen/engine/quadtree.py:45-52 | A full 1 x 1 node rejects a fifth point inside its boundary, because its children are 0 x 0 |
| Strokes.Stroke.constructor | project_Doxygen/engine/stroke.py:16-18 | A new stroke keeps the colour and radius and has no points |
| Strokes.Stroke.AddPoint | project_Doxygen/engine/stroke.py:29-55 | `add_point` appends exactly `Densify` of the old points and changes nothing else |
| Strokes.FirstPointKept | project_Doxygen/engine/stroke.py:30-32 | The first point of a stroke is stored as given |
| Strokes.ShortMoveAppendsPoint | project_Doxygen/engine/stroke.py:45-55 | A move of at most 3 pixels appends exactly the new point |
| Strokes.LongMoveAppendsSteps | project_Doxygen/engine/stroke.py:45-53 | A longer move appends exactly `steps` samples, the largest count whose spacing fits the move, and the last sample is the new point |
| Strokes.StepsIsFloor | project_Doxygen/engine/stroke.py:47-48 | `steps` is the floor of distance over spacing: exactly the counts up to it fit |
| Strokes.StepsFrom | project_Doxygen/engine/stroke.py:48 | The upward search finds a count that fits while the next one does not |
| Strokes.FitsMonotone | project_Doxygen/engine/stroke.py:47-48 | If k samples fit in a move, so does any smaller count |
| Strokes.InterpolateEnd | project_Doxygen/engine/stroke.py:50-52 | The last interpolated sample (t = 1) is the target point itself |
| Strokes.Samples | project_Doxygen/engine/stroke.py:49-53 | The interpolation loop produces exactly n samples |
| Strokes.TruncDivExact | project_Doxygen/engine/stroke.py:51-52 | `int()` truncation of an exact quotient gives the quotient back |
| Strokes.WideBrushDropsShortMove | project_Doxygen/engine/stroke.py:45-48 | With radius 30, a 4-pixel move appends nothing at all, not even the new point |
| Strokes.RadiusTenExample | project_Doxygen/engine/stroke.py:45-53 | With radius 10, a 10-pixel move appends six truncated samples ending at the target |
| VectorLayers.VectorLayer.constructor | project_Doxygen/engine/vectorlayer.py:17-18 | A new layer has no strokes and no tree |
| VectorLayers.VectorLayer.AddStroke | project_Doxygen/engine/vectorlayer.py:27-30 | The stroke is appended. With a tree, each of its points is inserted under the new last index; with no tree, the tree stays absent |
| VectorLayers.VectorLayer.RebuildQuadtree | project_Doxygen/engine/vectorlayer.py:56-59 | The tree becomes a fresh (0, 0, width, height) root indexing every point of every stroke under its current position; the strokes are unchanged |
| VectorLayers.VectorLayer.EraseNear | project_Doxygen/engine/vectorlayer.py:74-84 | With no tree, nothing changes and the result is None. With a tree, exactly the strokes whose in-range index the query touches are removed and the others keep their order. The result is the stroke at the highest such index, or None |
| VectorLayers.VectorLayer.PartialErase | project_Doxygen/engine/vectorlayer.py:99-119 | With no tree, nothing changes and the result is None. Otherwise only the highest in-range touched stroke is popped, and its maximal runs of untouched points are appended as new strokes and indexed under their new positions. The result is (original, parts), or None when no touched index is in range |
| VectorLayers.VectorLayer.SplitStroke | project_Doxygen/engine/vectorlayer.py:133-150 | With no erased indices the result is `[stroke]` itself. Otherwise the parts are new, pairwise distinct strokes of the parent's colour and radius, and their point lists are the maximal runs of kept points |
| VectorLayers.CollectRuns | project_Doxygen/engine/vectorlayer.py:135-145 | The loop's closed parts, followed by the run still open, are exactly the maximal runs of kept points |
| VectorLayers.ClosePart | project_Doxygen/engine/vectorlayer.py:139-143 | Closing the current run appends one new stroke, of the parent's style, holding that run |
| VectorLayers.NewPart | project_Doxygen/engine/vectorlayer.py:140-141 | A part is a new stroke with the parent's colour and radius and the given points |
| VectorLayers.RunsFlatten | project_Doxygen/engine/vectorlayer.py:135-150 | The parts put back together are the original points minus the erased positions, in order |
| VectorLayers.RunsNonEmpty | project_Doxygen/engine/vectorlayer.py:139-149 | No part is empty |
| VectorLayers.RunsCount | project_Doxygen/engine/vectorlayer.py:137-145 | There is one part per run start, so the parts are maximal runs |
| VectorLayers.RunsBound | project_Doxygen/engine/vectorlayer.py:137-145 | There are at most one more parts than erased positions |
| VectorLayers.SplitMiddleExample | project_Doxygen/engine/vectorlayer.py:133-150 | Erasing the middle one of three points leaves two one-point parts |
| VectorLayers.PopDescending | project_Doxygen/engine/vectorlayer.py:79-84 | Popping the touched indices from the highest down removes exactly the in-range ones and keeps the order of the others. The first popped stroke is the one at the highest in-range index, and nothing is popped when no touched index is in range |
| VectorLayers.PopMaintains | project_Doxygen/engine/vectorlayer.py:81-83 | Taking the largest remaining index, and popping it when it is a position of the list, keeps the loop invariant |
| VectorLayers.PopStep | project_Doxygen/engine/vectorlayer.py:83 | Popping the highest remaining touched index removes the right stroke and leaves the lower part intact |
| VectorLayers.SurvivorsMembers | project_Doxygen/engine/vectorlayer.py:81-83 | A stroke survives exactly when it sits at some position outside the removed set |
| VectorLayers.HighestBelow | project_Doxygen/engine/vectorlayer.py:79-84 | The chosen index is in the set and in range, and no in-range member is higher; -1 when there is none |
| VectorLayers.Largest | project_Doxygen/engine/vectorlayer.py:81 | One step of `sorted(..., reverse=True)` yields the largest remaining key |
| VectorLayers.GroupHits | project_Doxygen/engine/vectorlayer.py:104-106 | `affected` has exactly the touched stroke indices as keys, and each key maps to a non-empty list of exactly that stroke's touched point indices |
| VectorLayers.HighestInRange | project_Doxygen/engine/vectorlayer.py:107-108 | The descending key search stops at the highest key that is a valid position, or finds none |
| VectorLayers.SplitNear | project_Doxygen/engine/vectorlayer.py:100-119 | `partial_erase` on a list and a tree: a query at the offset-corrected point, then the split of the highest touched stroke, as `PartiallyErased` states |
| VectorLayers.SplitHighest | project_Doxygen/engine/vectorlayer.py:104-119 | After the query, only the highest in-range touched stroke is split at its touched points, and the new tree indexes the parts |
| VectorLayers.SplitAt | project_Doxygen/engine/vectorlayer.py:109-118 | Popping stroke m, splitting it and appending the parts gives the list without S[m] followed by the parts, with the parts indexed under their new positions |
| VectorLayers.SplitMember | project_Doxygen/engine/vectorlayer.py:109-111 | The popped stroke is S[m] and its parts hold the maximal runs of its untouched points |
| VectorLayers.IndexAll | project_Doxygen/engine/vectorlayer.py:112-117 | The indexing loop inserts every point of every list, list i under index base + i |
| VectorLayers.IndexStroke | project_Doxygen/engine/vectorlayer.py:29-30 | One `insert` per point of a stroke, in point order |
| VectorLayers.IndexPointsAddsOnlySamples | project_Doxygen/engine/vectorlayer.py:29-30 | Indexing a stroke keeps every entry the tree had and adds nothing but that stroke's samples, each at most once |
| VectorLayers.IndexStrokesAddsOnlySamples | project_Doxygen/engine/vectorlayer.py:57-59 | Indexing a list of strokes adds nothing but their samples, each at most once |
| VectorLayers.AddAfterRebuildIsRebuild | project_Doxygen/engine/vectorlayer.py:27-30 | `add_stroke` on a freshly rebuilt tree gives the same tree as rebuilding over the extended stroke list, so a tree stays rebuilt through `add_stroke` |
| VectorLayers.RebuiltQueryFindsOnlyCurrentPoints | project_Doxygen/engine/vectorlayer.py:56-59 | After a rebuild, every entry a query reports is a current point of the stroke at the reported index, and it lies within the radius |
| VectorLayers.PointListsAt | project_Doxygen/engine/vectorlayer.py:57 | Entry i of the point lists is the points of stroke i |
| UndoRedo.Stacks.constructor | project_Doxygen/main.py:53 | Both lists start empty |
| UndoRedo.HandleUndoRedo | project_Doxygen/handlers/undo_redo.py:20-79 | Ctrl+Z, Ctrl+Shift+Z and every other event change the strokes and both stacks exactly as `Step` says, and the tree as `TreeAfter` says. An empty stack makes the command do nothing |
| UndoRedo.UndoLatest | project_Doxygen/handlers/undo_redo.py:25-49 | Undo with a non-empty stack pops the newest entry, inverts it on the layer and pushes its inverse onto redo |
| UndoRedo.RedoLatest | project_Doxygen/handlers/undo_redo.py:53-77 | Redo with a non-empty stack pops the newest entry, reapplies it on the layer and pushes its inverse onto undo |
| UndoRedo.UndoEntry | project_Doxygen/handlers/undo_redo.py:29-49 | Undoing an add removes the stroke if present. Undoing a removal re-adds the stroke through `add_stroke`. Undoing a split removes the parts that are present and re-adds the original. The entry pushed is the inverse |
| UndoRedo.RedoEntry | project_Doxygen/handlers/undo_redo.py:57-77 | Redoing a removal re-adds the stroke. Redoing an add removes it if present. Redoing a split removes the original if present and re-adds every part. The entry pushed is the inverse |
| UndoRedo.UndoSplit | project_Doxygen/handlers/undo_redo.py:43-47 | The parts still present are removed, then the original is appended and indexed |
| UndoRedo.RedoSplit | project_Doxygen/handlers/undo_redo.py:71-75 | The original is removed if present, then every part is appended and indexed in order |
| UndoRedo.RemovePresent | project_Doxygen/handlers/undo_redo.py:44-46 | The loop removes one occurrence of each part that is present |
| UndoRedo.AddEach | project_Doxygen/handlers/undo_redo.py:74-75 | Each part is appended through `add_stroke`, in order |
| UndoRedo.RemoveFirst | project_Doxygen/handlers/undo_redo.py:31-32 | `if s in strokes: strokes.remove(s)` takes exactly one occurrence of s out, and leaves the list alone when s is absent |
| UndoRedo.RemoveFirstAt | project_Doxygen/handlers/undo_redo.py:32 | The removal drops the first occurrence and keeps the order of everything else |
| UndoRedo.RemoveEach | project_Doxygen/handlers/undo_redo.py:44-46 | Removing each part takes their multiset out of the list |
| UndoRedo.IndexOf | project_Doxygen/handlers/undo_redo.py:32 | The position found holds the stroke, and no earlier position does |
| UndoRedo.UndoThenRedo | project_Doxygen/handlers/undo_redo.py:24-77 | Undo followed by redo restores both stacks exactly. It restores the strokes, up to order, exactly when the undone entry can be restored |
| UndoRedo.RedoThenUndo | project_Doxygen/handlers/undo_redo.py:24-77 | Redo followed by undo restores both stacks exactly. It restores the strokes exactly when the redone removal finds its stroke |
| UndoRedo.UndoRedoStrokes | project_Doxygen/handlers/undo_redo.py:29-77 | Per entry kind: redoing the inverse of an undo gives back the same strokes exactly when the entry is restorable |
| UndoRedo.RedoUndoStrokes | project_Doxygen/handlers/undo_redo.py:29-77 | Per entry kind: undoing the inverse of a redo gives back the same strokes exactly when the entry is redo-restorable |
| UndoRedo.ReAddRemoved | project_Doxygen/handlers/undo_redo.py:63-68 | Removing a stroke and re-adding it restores the multiset exactly when the stroke was present |
| UndoRedo.RemoveAdded | project_Doxygen/handlers/undo_redo.py:57-61 | Adding a stroke and removing it again restores the multiset |
| UndoRedo.UnsplitResplit | project_Doxygen/handlers/undo_redo.py:42-77 | Replacing the original by its parts and then the parts by the original restores the multiset exactly when the original was present |
| UndoRedo.IndexStrokesInto | project_Doxygen/handlers/undo_redo.py:74-75 | Re-adding parts keeps any tree valid and leaves an absent tree absent |
| UndoRedo.UndoTree | project_Doxygen/handlers/undo_redo.py:29-47 | The tree after an undo indexes only the strokes that `add_stroke` re-added, and stays valid |
| UndoRedo.RedoTree | project_Doxygen/handlers/undo_redo.py:57-75 | The tree after a redo indexes only the strokes that `add_stroke` re-added, and stays valid |
| MouseEdits.Relative | project_Doxygen/handlers/mouse_input.py:51-52 | A window point inside the drawing area translates to a canvas point inside [0, width) x [0, height) |
| MouseEdits.Clamp | project_Doxygen/handlers/mouse_input.py:103-109 | The radius ends up in [MIN_RADIUS, MAX_RADIUS]. It is unchanged when already inside, and set to the nearer bound otherwise |
| MouseEdits.ReleaseStep | project_Doxygen/handlers/mouse_input.py:97-100 | Undoing the record of a committed stroke takes that stroke off and leaves the pushed removal on redo |
| MouseEdits.ReleaseThenUndo | project_Doxygen/handlers/mouse_input.py:97-100 | Committing a new stroke and undoing gives back the strokes and the undo stack exactly |
| MouseEdits.StrokeEraseUndoLosesOthers | project_Doxygen/handlers/mouse_input.py:58-62 | The stroke eraser removes every touched stroke but records only one, so undo cannot bring back the others |
| MouseEdits.StaleTreeErasesWrongStroke | project_Doxygen/handlers/undo_redo.py:29-34 | Undoing a commit removes the stroke without rebuilding the tree, so the stale tree can make a later stroke erase remove the wrong stroke: with strokes [a, c, b] indexed 0, 1, 2, undoing the commit of c and then erasing on c's point removes b |
| MouseEdits.RecordSplitErases | project_Doxygen/handlers/mouse_input.py:64-69 | What `partial_erase` did, together with pushing its result and clearing redo, is exactly an area erasure |
| MouseInput.HandleMouseInput | project_Doxygen/handlers/mouse_input.py:48-111 | For one event:<br>- A brush press inside the area starts a fresh stroke at the press point.<br>- A brush drag extends the stroke by `Densify`.<br>- An eraser press or drag inside the area erases as `EraseOutcome` says, then rebuilds the tree.<br>- A brush release commits the stroke and records it.<br>- The wheel clamps the active tool's radius.<br>- Nothing else changes the layer, the stacks or the stroke in progress.<br>- A stroke in progress that has points keeps having points, and a brush press gives one point, so every stroke a release records as `("add_stroke", s)` has at least one point. |
| MouseInput.Press | project_Doxygen/handlers/mouse_input.py:52-69 | A brush press starts a stroke holding the relative point; an eraser press erases at it |
| MouseInput.Drag | project_Doxygen/handlers/mouse_input.py:74-93 | A brush drag extends the stroke in progress; an eraser drag erases at the relative point |
| MouseInput.Erase | project_Doxygen/handlers/mouse_input.py:56-69 | The stroke eraser or the area eraser, chosen by mode, at the canvas-relative point |
| MouseInput.EraseStrokeAt | project_Doxygen/handlers/mouse_input.py:57-62 | Every in-range touched stroke is removed and the tree rebuilt. Only the stroke at the highest index is recorded, with redo cleared; nothing is recorded when none was removed |
| MouseInput.EraseAreaAt | project_Doxygen/handlers/mouse_input.py:63-69 | The highest touched stroke is split, the tree rebuilt, and the split recorded with redo cleared; nothing is recorded without a result |
| MouseInput.SplitAndRecord | project_Doxygen/handlers/mouse_input.py:64-69 | `partial_erase` with the toolbar offset, followed by the record of its result, is an area erasure |
| MouseInput.PushSplit | project_Doxygen/handlers/mouse_input.py:66-69 | A result is pushed as a split entry and clears redo; no result leaves both stacks alone |
| MouseInput.Commit | project_Doxygen/handlers/mouse_input.py:97-100 | The stroke is appended, the tree rebuilt, an add entry pushed and redo cleared |
| History.Newest | project_Doxygen/engine/history.py:17-18 | A deque of `maxlen=n` keeps the newest min(len, n) entries, in order |
| History.AppendWithRoom | project_Doxygen/engine/history.py:29 | Appending to a deque that is not full keeps every entry |
| History.AppendWhenFull | project_Doxygen/engine/history.py:29 | Appending to a full deque drops exactly the oldest entry |
| History.StepsKeepBound | project_Doxygen/engine/history.py:17-48 | `execute`, `undo` and `redo` keep len(undo) + len(redo) <= max_size |
| History.UndoMoves | project_Doxygen/engine/history.py:36-39 | Within the bound, `undo` evicts nothing: it moves one command from undo to redo |
| History.RedoMoves | project_Doxygen/engine/history.py:45-48 | Within the bound, `redo` evicts nothing: it moves one command from redo to undo |
| History.UndoThenRedo | project_Doxygen/engine/history.py:36-48 | Undo followed by redo restores both stacks exactly |
| History.RedoThenUndo | project_Doxygen/engine/history.py:36-48 | Redo followed by undo restores both stacks exactly |
| History.NewestAppend | project_Doxygen/engine/history.py:29 | Appending to a truncated deque is truncating the appended sequence |
| History.ExecuteAllKeepsNewest | project_Doxygen/engine/history.py:28-30 | A run of executes leaves the newest max_size of the old undo stack followed by the commands, and an empty redo stack |
| History.ManyExecutesKeepLast | project_Doxygen/engine/history.py:17-29 | At least max_size executes leave exactly the max_size most recent commands on undo |
| History.AppendReady | project_Doxygen/engine/history.py:29 | Appending a runnable command to a deque of runnable commands keeps them all runnable |
| History.UndoKeepsReady | project_Doxygen/engine/history.py:36-39 | `undo` keeps the bound and keeps every stored command runnable |
| History.RedoKeepsReady | project_Doxygen/engine/history.py:45-48 | `redo` keeps the bound and keeps every stored command runnable |
| History.History.constructor | project_Doxygen/engine/history.py:17-18 | Two empty deques whose maxlen is max_size (default 50) |
| History.History.Execute | project_Doxygen/engine/history.py:28-30 | The command has run on its layer, it is appended to undo (evicting the oldest when full), and redo is empty |
| History.History.Undo | project_Doxygen/engine/history.py:36-39 | An empty undo stack changes nothing. Otherwise the newest command is undone on its layer and moved to redo |
| History.History.Redo | project_Doxygen/engine/history.py:45-48 | An empty redo stack changes nothing. Otherwise the newest undone command is re-executed and moved to undo |
| Tools.Overwrite | project_Doxygen/engine/tools.py:26 | `target[:] = source` overwrites every byte of the target in place |
| Tools.Copy | project_Doxygen/engine/tools.py:18-19 | `.copy()` gives a fresh buffer with the same bytes |
| Tools.DrawCommand.constructor | project_Doxygen/engine/tools.py:17-19 | The command keeps the layer reference and independent fresh copies of both states |
| Tools.DrawCommand.Execute | project_Doxygen/engine/tools.py:26 | The layer's pixels become the new state, whatever they were before, so executing twice is executing once. The stored states are unchanged |
| Tools.DrawCommand.Undo | project_Doxygen/engine/tools.py:33 | The layer's pixels become the previous state, whatever they were before. The stored states are unchanged |
| Tools.ExecuteThenUndo | project_Doxygen/engine/tools.py:21-33 | Execute followed by undo leaves the pixels equal to the previous state, regardless of their earlier content |
| Layers.Layer.constructor | project_Doxygen/engine/layer.py:18-20 | A new layer has an all-zero buffer of height x width x 4 bytes, is visible and is named "Layer" |
| Canvases.Canvas.constructor | project_Doxygen/engine/canvas.py:18-21 | A new canvas has no layers and no active layer |
| Canvases.Canvas.AddLayer | project_Doxygen/engine/canvas.py:30-33 | A fresh zeroed layer of the canvas size is appended and made active. It is named `name`, or "Layer n" with n the previous count when `name` is None or empty |
| Canvases.Canvas.DeleteLayer | project_Doxygen/engine/canvas.py:42-47 | An out-of-range index changes nothing. Otherwise exactly that layer is removed, and the active index becomes None when no layer is left, else min(index, len - 1) |
| Canvases.Canvas.SelectLayer | project_Doxygen/engine/canvas.py:56-57 | The active index changes only to a valid index; the layers are unchanged |
| Canvases.Canvas.GetActiveLayer | project_Doxygen/engine/canvas.py:66-68 | None exactly when there are no layers, otherwise the layer at the active index |
| Canvases.Decimal | project_Doxygen/engine/canvas.py:31 | `str(n)` is a non-empty string of decimal digits with no leading zero unless n is 0 |
| Canvases.DecimalRoundTrip | project_Doxygen/engine/canvas.py:31 | Reading the digits of `str(n)` back gives n |
| Canvases.DefaultNamesDistinct | project_Doxygen/engine/canvas.py:31 | Default names given at different layer counts differ |

Every class invariant (`Valid`) holds after every method above. Among them:
the quadtree shape; `active_layer_index` is None exactly when there are no
layers, and otherwise a valid index; len(undo) + len(redo) <= max_size; a
`DrawCommand`'s two stored buffers are distinct from each other and from its
layer's buffer.

## Left out

- Rendering is not modelled: `VectorLayer.render`, `QuadtreeNode.draw`,
  `Canvas.draw_circle`, `Canvas.render`, `Canvas.alpha_blend`, `utils/ui.py`
  and the `main.py` event loop. They are pygame and numpy drawing calls with
  float alpha blending and nothing to prove.
- File and terminal I/O (`utils/helpers.py`, `run.py`), the key bindings of
  `handlers/color_tool.py` and the `print` logging in the handlers are left
  out.
- pygame's event queue, `mouse.get_pos`, `mouse.get_pressed` and
  `key.get_mods` become parameters: the pointer position, whether the left
  button is held, and the Ctrl/Shift flags of a key event.
- `pygame.Rect.collidepoint` is modelled as a half-open integer rectangle
  test. This matches pygame for non-negative sizes; rectangles with negative
  sizes are not modelled.
- Strokes.Stroke.AddPoint does not model float rounding.
  - The source computes `sqrt`, `radius * 0.15`, `dist // spacing` and
    `int(x0 + (i / steps) * dx)` in floating point.
  - The model uses exact integer arithmetic: squared distances, spacing as
    3r/20, and truncation toward zero of the exact quotient.
  - It can therefore differ from the source by one sample, or by one pixel
    in an interpolated coordinate, where float rounding crosses an integer
    boundary.
- The quadtree is a value (a datatype returned by `Insert`), not a graph of
  node objects updated in place.
  - Nodes are never shared or reachable from outside the layer's tree, so
    no aliasing is lost.
  - The layer field `quadtree` is reassigned wherever the source mutates
    the tree.
- The tree after an undo or redo is only described through `UndoTree` and
  `RedoTree`.
  - The handler calls `add_stroke` without `rebuild_quadtree`, so the tree
    can keep stale indices after a removal.
  - The model states exactly which strokes are added to it, and proves no
    query property for that stale tree beyond the example
    `MouseEdits.StaleTreeErasesWrongStroke`, where it makes an erase remove
    the wrong stroke.
- Points are integers. Mouse positions are ints and interpolation truncates,
  so no real arithmetic arises in the modelled paths.
- History is specialised to `DrawCommand`. The source's `History` is duck
  typed and accepts any object with `execute` and `undo`. Dafny has no
  traits here, and `DrawCommand` is the only command class in the
  repository.
- History.History.Execute, History.History.Undo and History.History.Redo
  assume each stored command's two states have the shape of its layer's
  buffer (`Ready`).
  - numpy raises an error on a shape mismatch in `layer.pixels[:] = state`;
    the model makes that a precondition.
  - numpy broadcasting of smaller shapes into the buffer is not modelled.
- Tools.DrawCommand.Execute and Tools.DrawCommand.Undo require equal
  lengths for the same reason, and treat the (height, width, 4) buffer as a
  flat byte array.
- Canvases.Canvas.constructor takes natural width and height. The source
  accepts any value but fails in `np.zeros` at the first `add_layer` when a
  size is negative.
- Canvases.Canvas.AddLayer models `name` as an optional string. `None` and
  `""` are its only falsy values, and other non-string names are not
  modelled.
- Canvases.Canvas.GetActiveLayer requires the class invariant, which every
  method keeps. Without it, the source's `self.layers[index]` could raise.
- `Layer` keeps only what `DrawCommand` and `Canvas` use: the pixel buffer,
  `visible` and `name`.
- In the mouse handler, the undo entries are pushed before the rebuild in
  the model's reading order. Pushing an entry and rebuilding the tree touch
  disjoint state, so the end state is the same.
- In VectorLayers.VectorLayer.PartialErase, all parts are appended at once
  and then indexed in order. The source interleaves appending and indexing,
  but each part is indexed under the same position (its index in the final
  list), so the resulting list and tree are the same.
- The `project/` copies of the core files are not cited row by row. Their
  logic is the same as the `project_Doxygen/` copies cited above.
