/**
 * The vector layer of engine/vectorlayer.py: an ordered list of stroke
 * references and an optional point quadtree that indexes every stroke point
 * as (stroke_idx, point_idx, x, y).
 *
 * The index is only as fresh as its last rebuild: `add_stroke` and
 * `partial_erase` extend it, `rebuild_quadtree` recreates it, and removals
 * from the list do not touch it.  Whatever the tree holds, the erasers only
 * ever pop in-range positions.
 */
module VectorLayers {
  import opened Wrappers
  import opened Strokes
  import Quadtree

  // ---------------------------------------------------------------------
  // What the index holds
  // ---------------------------------------------------------------------

  /** The point lists of a stroke list, in list order. */
  function PointLists(ss: seq<Stroke>): (r: seq<seq<Point>>)
    reads set s | s in ss
    ensures |r| == |ss|
  {
    if ss == [] then [] else PointLists(ss[..|ss| - 1]) + [ss[|ss| - 1].points]
  }

  /** Entry i of the point lists is the points of stroke i. */
  lemma {:induction false} PointListsAt(ss: seq<Stroke>, i: int)
    requires 0 <= i < |ss|
    ensures PointLists(ss)[i] == ss[i].points
  {
    if i < |ss| - 1 {
      PointListsAt(ss[..|ss| - 1], i);
    }
  }

  /** The index entry (s_idx, p_idx, x, y) of point j of a stroke with points `pts`. */
  function SampleEntry(sIdx: int, pts: seq<Point>, j: int): Quadtree.Entry
    requires 0 <= j < |pts|
  {
    Quadtree.Entry(sIdx, j, pts[j].x, pts[j].y)
  }

  /** Whether `f` is the entry of a point of stroke `sIdx`, whose points are `pts`. */
  predicate IsSample(f: Quadtree.Entry, sIdx: int, pts: seq<Point>) {
    f.strokeIdx == sIdx && 0 <= f.pointIdx < |pts| && pts[f.pointIdx] == Point(f.x, f.y)
  }

  /** Whether `f` is the entry of a point of the stroke numbered f.strokeIdx when lists[k] is numbered base + k. */
  predicate IsSampleOf(f: Quadtree.Entry, lists: seq<seq<Point>>, base: int) {
    base <= f.strokeIdx < base + |lists| && IsSample(f, f.strokeIdx, lists[f.strokeIdx - base])
  }

  /** The tree after inserting every point of `pts`, in order, under stroke index `sIdx`. */
  function IndexPoints(t: Quadtree.QuadtreeNode, sIdx: int, pts: seq<Point>): (r: Quadtree.QuadtreeNode)
    requires Quadtree.Valid(t)
    ensures Quadtree.Valid(r) && Quadtree.SameFrame(r, t)
    decreases |pts|
  {
    if pts == [] then t
    else
      var n := |pts| - 1;
      Quadtree.Insert(IndexPoints(t, sIdx, pts[..n]), SampleEntry(sIdx, pts, n)).0
  }

  /** The tree after indexing lists[0], lists[1], ... under stroke indices base, base + 1, ... */
  function IndexStrokes(t: Quadtree.QuadtreeNode, lists: seq<seq<Point>>, base: int): (r: Quadtree.QuadtreeNode)
    requires Quadtree.Valid(t)
    ensures Quadtree.Valid(r) && Quadtree.SameFrame(r, t)
    decreases |lists|
  {
    if lists == [] then t
    else
      var n := |lists| - 1;
      IndexPoints(IndexStrokes(t, lists[..n], base), base + n, lists[n])
  }

  lemma IndexStrokesSnoc(t: Quadtree.QuadtreeNode, lists: seq<seq<Point>>, pts: seq<Point>, base: int)
    requires Quadtree.Valid(t)
    ensures IndexStrokes(t, lists + [pts], base) == IndexPoints(IndexStrokes(t, lists, base), base + |lists|, pts)
  {
    assert (lists + [pts])[..|lists|] == lists;
  }

  /** Indexing a stroke into an optional tree: nothing happens when there is no tree. */
  function IndexInto(t: Option<Quadtree.QuadtreeNode>, sIdx: int, pts: seq<Point>): Option<Quadtree.QuadtreeNode>
    requires t.Some? ==> Quadtree.Valid(t.value)
  {
    match t
    case None => None
    case Some(n) => Some(IndexPoints(n, sIdx, pts))
  }

  /**
   * Indexing a stroke's points keeps every entry the tree had and adds
   * nothing but entries of that stroke, each at most once.
   */
  lemma {:induction false} IndexPointsAddsOnlySamples(t: Quadtree.QuadtreeNode, sIdx: int, pts: seq<Point>, f: Quadtree.Entry)
    requires Quadtree.Valid(t)
    ensures var r := IndexPoints(t, sIdx, pts);
            Quadtree.Count(t, f) <= Quadtree.Count(r, f) <= Quadtree.Count(t, f) + (if IsSample(f, sIdx, pts) then 1 else 0)
    decreases |pts|
  {
    if pts != [] {
      var n := |pts| - 1;
      IndexPointsAddsOnlySamples(t, sIdx, pts[..n], f);
      if IsSample(f, sIdx, pts[..n]) {
        assert IsSample(f, sIdx, pts);
      }
    }
  }

  /** The same for a whole list of strokes numbered from `base`. */
  lemma {:induction false} IndexStrokesAddsOnlySamples(t: Quadtree.QuadtreeNode, lists: seq<seq<Point>>, base: int, f: Quadtree.Entry)
    requires Quadtree.Valid(t)
    ensures var r := IndexStrokes(t, lists, base);
            Quadtree.Count(t, f) <= Quadtree.Count(r, f) <= Quadtree.Count(t, f) + (if IsSampleOf(f, lists, base) then 1 else 0)
    decreases |lists|
  {
    if lists != [] {
      var n := |lists| - 1;
      var mid := IndexStrokes(t, lists[..n], base);
      IndexStrokesAddsOnlySamples(t, lists[..n], base, f);
      IndexPointsAddsOnlySamples(mid, base + n, lists[n], f);
      if IsSampleOf(f, lists[..n], base) {
        assert IsSampleOf(f, lists, base);
        assert !IsSample(f, base + n, lists[n]);
      }
    }
  }

  /**
   * A freshly rebuilt index reports nothing stale: every entry a circle
   * query returns is a point, at its current position, of the stroke at
   * the reported index, and lies within the radius.
   */
  lemma RebuiltQueryFindsOnlyCurrentPoints(width: int, height: int, lists: seq<seq<Point>>,
                                           cx: int, cy: int, radius: int, e: Quadtree.Entry)
    requires e in Quadtree.Within(Quadtree.Contents(IndexStrokes(Quadtree.NewNode(0, 0, width, height), lists, 0)), cx, cy, radius)
    ensures IsSampleOf(e, lists, 0) && Quadtree.InCircle(e, cx, cy, radius)
  {
    var root := Quadtree.NewNode(0, 0, width, height);
    var t := IndexStrokes(root, lists, 0);
    Quadtree.QueryExactlyOnce(t, cx, cy, radius, e);
    IndexStrokesAddsOnlySamples(root, lists, 0, e);
  }

  // ---------------------------------------------------------------------
  // Removing positions from a list
  // ---------------------------------------------------------------------

  /** The elements of s at positions k, k + 1, ... that are not in D, in order. */
  function Survivors<T>(s: seq<T>, D: set<int>, k: int): (r: seq<T>)
    requires 0 <= k <= |s|
    ensures |r| <= |s| - k
    decreases |s| - k
  {
    if k == |s| then [] else (if k in D then [] else [s[k]]) + Survivors(s, D, k + 1)
  }

  /** A stretch of positions outside D survives whole. */
  lemma {:induction false} SurvivorsSkip<T>(s: seq<T>, D: set<int>, a: int, b: int)
    requires 0 <= a <= b <= |s|
    requires forall i :: a <= i < b ==> i !in D
    ensures Survivors(s, D, a) == s[a..b] + Survivors(s, D, b)
    decreases b - a
  {
    if a < b {
      SurvivorsSkip(s, D, a + 1, b);
      assert a !in D;
      calc {
        Survivors(s, D, a);
        [s[a]] + Survivors(s, D, a + 1);
        [s[a]] + (s[a + 1..b] + Survivors(s, D, b));
        { assert s[a..b] == [s[a]] + s[a + 1..b]; }
        s[a..b] + Survivors(s, D, b);
      }
    }
  }

  /** Appending an element extends the survivors by it unless its position is in D. */
  lemma {:induction false} SurvivorsSnoc<T>(s: seq<T>, x: T, D: set<int>, k: int)
    requires 0 <= k <= |s|
    ensures Survivors(s + [x], D, k) == Survivors(s, D, k) + (if |s| in D then [] else [x])
    decreases |s| - k
  {
    if k < |s| {
      SurvivorsSnoc(s, x, D, k + 1);
      assert (s + [x])[k] == s[k];
    }
  }

  /** The survivors are exactly the elements at positions outside D. */
  lemma {:induction false} SurvivorsMembers<T>(s: seq<T>, D: set<int>, k: int, x: T)
    requires 0 <= k <= |s|
    ensures x in Survivors(s, D, k) <==> exists i :: k <= i < |s| && i !in D && s[i] == x
    decreases |s| - k
  {
    if k < |s| {
      SurvivorsMembers(s, D, k + 1, x);
      var head := if k in D then [] else [s[k]];
      assert Survivors(s, D, k) == head + Survivors(s, D, k + 1);
      assert x in head <==> k !in D && s[k] == x;
    }
  }

  /** The highest position below n that is in D, or -1 when there is none. */
  function HighestBelow(D: set<int>, n: int): (m: int)
    ensures m == -1 || (m in D && 0 <= m < n)
    ensures forall j :: j in D && 0 <= j < n ==> j <= m
    decreases if n < 0 then 0 else n
  {
    if n <= 0 then -1 else if n - 1 in D then n - 1 else HighestBelow(D, n - 1)
  }

  /** The stroke indices a query result touches. */
  ghost function HitStrokes(hits: seq<Quadtree.Entry>): set<int> {
    set e | e in hits :: e.strokeIdx
  }

  /** The point indices of stroke `s` a query result touches. */
  ghost function HitPoints(hits: seq<Quadtree.Entry>, s: int): set<int> {
    set e | e in hits && e.strokeIdx == s :: e.pointIdx
  }

  function ToSet(xs: seq<int>): set<int> {
    set x | x in xs
  }

  lemma EmptyIfNoMember(s: set<int>)
    requires forall y :: y !in s
    ensures s == {}
  {
    assert forall y :: y in s <==> y in {};
  }

  lemma HasMember(s: set<int>)
    requires s != {}
    ensures exists y :: y in s
  {
    if forall y :: y !in s {
      EmptyIfNoMember(s);
      assert false;
    }
  }

  /** Picks the largest remaining value: one step of iterating over `sorted(s, reverse=True)`. */
  method Largest(s: set<int>) returns (m: int)
    requires s != {}
    ensures m in s && forall x :: x in s ==> x <= m
  {
    HasMember(s);
    m :| m in s;
    var rest := s - {m};
    while rest != {}
      invariant rest <= s && m in s
      invariant forall x :: x in s && x !in rest ==> x <= m
      decreases |rest|
    {
      HasMember(rest);
      var y :| y in rest;
      if y > m {
        m := y;
      }
      rest := rest - {y};
    }
  }

  // ---------------------------------------------------------------------
  // Splitting a stroke into maximal runs
  // ---------------------------------------------------------------------

  /**
   * The maximal runs of points whose positions are not in E, in order: a
   * kept point continues the previous run exactly when the point before it
   * was kept too.
   */
  function Runs(pts: seq<Point>, E: set<int>): seq<seq<Point>>
    decreases |pts|
  {
    if pts == [] then []
    else
      var n := |pts| - 1;
      var rs := Runs(pts[..n], E);
      if n in E then rs
      else if n > 0 && n - 1 !in E && rs != [] then rs[..|rs| - 1] + [rs[|rs| - 1] + [pts[n]]]
      else rs + [[pts[n]]]
  }

  /** All lists of a list of lists, concatenated. */
  function Flatten<T>(rs: seq<seq<T>>): seq<T>
    decreases |rs|
  {
    if rs == [] then [] else Flatten(rs[..|rs| - 1]) + rs[|rs| - 1]
  }

  /** How many kept positions below n start a run: the first position, or one right after an erased one. */
  function Starts(n: nat, E: set<int>): nat {
    if n == 0 then 0
    else Starts(n - 1, E) + (if n - 1 !in E && (n - 1 == 0 || n - 2 in E) then 1 else 0)
  }

  /** How many positions below n are erased. */
  function ErasedBelow(n: nat, E: set<int>): nat {
    if n == 0 then 0 else ErasedBelow(n - 1, E) + (if n - 1 in E then 1 else 0)
  }

  /** Appending a list appends its elements. */
  lemma FlattenSnoc<T>(rs: seq<seq<T>>, r: seq<T>)
    ensures Flatten(rs + [r]) == Flatten(rs) + r
  {
    assert (rs + [r])[..|rs|] == rs;
  }

  /** One more point adds itself to the flattened runs exactly when it is kept. */
  lemma {:induction false} RunsFlattenStep(pts: seq<Point>, E: set<int>)
    requires pts != []
    ensures Flatten(Runs(pts, E)) ==
            Flatten(Runs(pts[..|pts| - 1], E)) + (if |pts| - 1 in E then [] else [pts[|pts| - 1]])
  {
    var n := |pts| - 1;
    var rs := Runs(pts[..n], E);
    if n !in E && n > 0 && n - 1 !in E && rs != [] {
      var L := |rs| - 1;
      assert rs[..L] + [rs[L]] == rs;
      FlattenSnoc(rs[..L], rs[L]);
      FlattenSnoc(rs[..L], rs[L] + [pts[n]]);
    } else if n !in E {
      FlattenSnoc(rs, [pts[n]]);
    }
  }

  /** The runs, put back together, are the kept points in their original order. */
  lemma {:induction false} RunsFlatten(pts: seq<Point>, E: set<int>)
    ensures Flatten(Runs(pts, E)) == Survivors(pts, E, 0)
    decreases |pts|
  {
    if pts != [] {
      var n := |pts| - 1;
      RunsFlatten(pts[..n], E);
      RunsFlattenStep(pts, E);
      assert pts[..n] + [pts[n]] == pts;
      SurvivorsSnoc(pts[..n], pts[n], E, 0);
    }
  }

  /** No run is empty. */
  lemma {:induction false} RunsNonEmpty(pts: seq<Point>, E: set<int>)
    ensures forall r :: r in Runs(pts, E) ==> r != []
    decreases |pts|
  {
    if pts != [] {
      var n := |pts| - 1;
      RunsNonEmpty(pts[..n], E);
      var rs := Runs(pts[..n], E);
      if n !in E && n > 0 && n - 1 !in E && rs != [] {
        forall r | r in Runs(pts, E) ensures r != [] {
          if r != rs[|rs| - 1] + [pts[n]] {
            assert r in rs[..|rs| - 1];
            assert r in rs;
          }
        }
      }
    }
  }

  /** There is one run per run start: the runs are maximal. */
  lemma {:induction false} RunsCount(pts: seq<Point>, E: set<int>)
    ensures |Runs(pts, E)| == Starts(|pts|, E)
    decreases |pts|
  {
    if pts != [] {
      var n := |pts| - 1;
      RunsCount(pts[..n], E);
      if n > 0 && n - 1 !in E {
        var m := n - 1;
        assert pts[..n][..m] == pts[..m];
        assert Runs(pts[..n], E) != [];
      }
    }
  }

  /** Every run but the first starts right after an erased position, so there are at most one more runs than erased positions. */
  lemma {:induction false} StartsBound(n: nat, E: set<int>)
    ensures Starts(n, E) + (if n > 0 && n - 1 in E then 1 else 0) <= ErasedBelow(n, E) + 1
  {
    if n > 0 {
      StartsBound(n - 1, E);
    }
  }

  lemma RunsBound(pts: seq<Point>, E: set<int>)
    ensures |Runs(pts, E)| <= ErasedBelow(|pts|, E) + 1
  {
    RunsCount(pts, E);
    StartsBound(|pts|, E);
  }

  /** Erasing the middle of three points leaves two one-point runs. */
  lemma SplitMiddleExample()
    ensures Runs([Point(0, 0), Point(10, 0), Point(20, 0)], {1}) == [[Point(0, 0)], [Point(20, 0)]]
  {
    var pts := [Point(0, 0), Point(10, 0), Point(20, 0)];
    assert pts[..2][..1] == [Point(0, 0)];
    assert pts[..2] == [Point(0, 0), Point(10, 0)];
    assert Runs([Point(0, 0)], {1}) == [[Point(0, 0)]];
  }

  /** The run being collected, if it has begun. */
  function Pending(current: seq<Point>): seq<seq<Point>> {
    if current == [] then [] else [current]
  }

  /** One step of Runs, stated on prefixes. */
  lemma RunsStep(pts: seq<Point>, E: set<int>, i: int)
    requires 0 <= i < |pts|
    ensures Runs(pts[..i + 1], E) ==
            var rs := Runs(pts[..i], E);
            if i in E then rs
            else if i > 0 && i - 1 !in E && rs != [] then rs[..|rs| - 1] + [rs[|rs| - 1] + [pts[i]]]
            else rs + [[pts[i]]]
  {
    assert pts[..i + 1][..i] == pts[..i];
  }

  /** An erased point closes the run being collected, if any. */
  lemma RunsStepErased(pts: seq<Point>, E: set<int>, i: int, done: seq<seq<Point>>, current: seq<Point>)
    requires 0 <= i < |pts| && i in E
    requires done + Pending(current) == Runs(pts[..i], E)
    ensures done + Pending(current) == Runs(pts[..i + 1], E)
  {
    RunsStep(pts, E, i);
  }

  /** A kept point extends the run being collected, or begins one. */
  lemma RunsStepKept(pts: seq<Point>, E: set<int>, i: int, done: seq<seq<Point>>, current: seq<Point>)
    requires 0 <= i < |pts| && i !in E
    requires done + Pending(current) == Runs(pts[..i], E)
    requires current != [] <==> (i > 0 && i - 1 !in E)
    ensures done + Pending(current + [pts[i]]) == Runs(pts[..i + 1], E)
  {
    RunsStep(pts, E, i);
    var rs := done + Pending(current);
    if current != [] {
      assert rs[..|rs| - 1] == done && rs[|rs| - 1] == current;
    } else {
      assert rs == done && current + [pts[i]] == [pts[i]];
    }
  }

  lemma PointListsSnoc(ss: seq<Stroke>, s: Stroke)
    ensures PointLists(ss + [s]) == PointLists(ss) + [s.points]
  {
    assert (ss + [s])[..|ss|] == ss;
  }

  /**
   * `add_stroke` on a freshly rebuilt tree gives the tree a rebuild over the
   * extended list gives, so a tree stays rebuilt through `add_stroke`.
   */
  lemma AddAfterRebuildIsRebuild(ss: seq<Stroke>, s: Stroke, width: int, height: int)
    ensures IndexInto(Some(IndexStrokes(Quadtree.NewNode(0, 0, width, height), PointLists(ss), 0)), |ss|, s.points)
            == Some(IndexStrokes(Quadtree.NewNode(0, 0, width, height), PointLists(ss + [s]), 0))
  {
    PointListsSnoc(ss, s);
    IndexStrokesSnoc(Quadtree.NewNode(0, 0, width, height), PointLists(ss), s.points, 0);
  }

  /** `s = Stroke(stroke.color, stroke.radius); s.points = pts`. */
  method NewPart(stroke: Stroke, pts: seq<Point>) returns (s: Stroke)
    ensures fresh(s) && s.color == stroke.color && s.radius == stroke.radius && s.points == pts
  {
    s := new Stroke(stroke.color, stroke.radius);
    s.points := pts;
  }

  /** Closes the open run `current` into a new part to append to `segments`. */
  method ClosePart(stroke: Stroke, segments: seq<Stroke>, ghost done: seq<seq<Point>>, current: seq<Point>)
    returns (s: Stroke)
    requires PointLists(segments) == done
    ensures fresh(s) && s.color == stroke.color && s.radius == stroke.radius
    ensures PointLists(segments + [s]) == done + [current]
  {
    s := NewPart(stroke, current);
    PointListsSnoc(segments, s);
  }

  /**
   * The loop of `split_stroke`: walks the points, closing the current run
   * into a new stroke at every erased position; returns the closed parts
   * and the run still open at the end.
   */
  method CollectRuns(stroke: Stroke, E: set<int>) returns (segments: seq<Stroke>, current: seq<Point>)
    ensures PointLists(segments) + Pending(current) == Runs(stroke.points, E)
    ensures forall p :: p in segments ==> fresh(p) && p.color == stroke.color && p.radius == stroke.radius
    ensures forall a, b :: 0 <= a < b < |segments| ==> segments[a] != segments[b]
  {
    segments, current := [], [];
    var pts := stroke.points;
    ghost var done: seq<seq<Point>> := [];
    for i := 0 to |pts|
      invariant PointLists(segments) == done
      invariant done + Pending(current) == Runs(pts[..i], E)
      invariant current != [] <==> (i > 0 && i - 1 !in E)
      invariant forall p :: p in segments ==> fresh(p) && p.color == stroke.color && p.radius == stroke.radius
      invariant forall a, b :: 0 <= a < b < |segments| ==> segments[a] != segments[b]
    {
      if i in E {
        RunsStepErased(pts, E, i, done, current);
        if current != [] {
          var s := ClosePart(stroke, segments, done, current);
          segments := segments + [s];
          done := done + [current];
          current := [];
        }
      } else {
        RunsStepKept(pts, E, i, done, current);
        current := current + [pts[i]];
      }
    }
    assert pts[..|pts|] == pts;
  }

  /** The parts share the parent's color and radius and are pairwise distinct objects. */
  predicate SplitStyle(stroke: Stroke, parts: seq<Stroke>) {
    (forall p :: p in parts ==> p.color == stroke.color && p.radius == stroke.radius) &&
    (forall a, b :: 0 <= a < b < |parts| ==> parts[a] != parts[b])
  }

  /** `parts` are new strokes of the parent's color and radius holding the maximal runs of kept points. */
  ghost predicate IsSplit(stroke: Stroke, E: set<int>, parts: seq<Stroke>)
    reads stroke, set p | p in parts
  {
    PointLists(parts) == Runs(stroke.points, E) && SplitStyle(stroke, parts)
  }

  // ---------------------------------------------------------------------
  // The layer
  // ---------------------------------------------------------------------

  /** Inserts the points of one stroke into a tree, one `insert` per point. */
  method IndexStroke(t: Quadtree.QuadtreeNode, sIdx: int, pts: seq<Point>) returns (r: Quadtree.QuadtreeNode)
    requires Quadtree.Valid(t)
    ensures r == IndexPoints(t, sIdx, pts)
  {
    r := t;
    for j := 0 to |pts|
      invariant r == IndexPoints(t, sIdx, pts[..j])
    {
      assert pts[..j + 1][..j] == pts[..j];
      r := Quadtree.Insert(r, Quadtree.Entry(sIdx, j, pts[j].x, pts[j].y)).0;
    }
    assert pts[..|pts|] == pts;
  }

  /** Popping position m, the highest of D below lo, from a list that still holds S[..lo] leaves it holding S[..m]. */
  lemma PopStep(S: seq<Stroke>, D: set<int>, lo: int, m: int, strokes: seq<Stroke>)
    requires 0 <= m < lo <= |S| && m in D
    requires forall i :: m < i < lo ==> i !in D
    requires strokes == S[..lo] + Survivors(S, D, lo)
    ensures m < |strokes| && strokes[m] == S[m]
    ensures strokes[..m] + strokes[m + 1..] == S[..m] + Survivors(S, D, m)
  {
    var rest := Survivors(S, D, lo);
    assert Survivors(S, D, m) == S[m + 1..lo] + rest by {
      SurvivorsSkip(S, D, m + 1, lo);
    }
    assert strokes == S[..m] + [S[m]] + (S[m + 1..lo] + rest) by {
      assert S[..lo] == S[..m] + [S[m]] + S[m + 1..lo];
    }
    DropMiddle(S[..m], S[m], S[m + 1..lo] + rest);
  }

  /** Removing the element between A and B leaves A + B. */
  lemma DropMiddle<T>(A: seq<T>, x: T, B: seq<T>)
    ensures (A + [x] + B)[|A|] == x
    ensures (A + [x] + B)[..|A|] + (A + [x] + B)[|A| + 1..] == A + B
  {
    assert (A + [x] + B)[..|A|] == A;
    assert (A + [x] + B)[|A| + 1..] == B;
  }

  /**
   * The loop of `erase_near` on the stroke list: for each index of D from
   * the highest down, pops it when it is a valid position of the list as it
   * is at that moment.  Returns the list left and the popped strokes in
   * popping order.
   */
  method PopDescending(S: seq<Stroke>, D: set<int>) returns (strokes: seq<Stroke>, erased: seq<Stroke>)
    ensures strokes == Survivors(S, D, 0)
    ensures erased == [] <==> HighestBelow(D, |S|) < 0
    ensures erased != [] ==> erased[0] == S[HighestBelow(D, |S|)]
  {
    strokes, erased := S, [];
    ghost var lo := |S|;
    var remaining := D;
    while remaining != {}
      invariant Popping(S, D, remaining, lo, strokes, erased) == true
      decreases |remaining|
    {
      var m := Largest(remaining);
      PopMaintains(S, D, remaining, lo, strokes, erased, m);
      remaining := remaining - {m};
      if 0 <= m < |strokes| {
        erased := erased + [strokes[m]];
        strokes := strokes[..m] + strokes[m + 1..];
        lo := m;
      }
    }
    SurvivorsSkip(S, D, 0, lo);
    assert S[..lo] == S[0..lo];
  }

  /**
   * The state of the popping loop: the indices of D below lo are still to
   * be popped, every one left is below lo or out of range, the list is S
   * with the indices of D from lo up removed, and the first popped stroke
   * is the one at the highest index of D in range.
   */
  ghost predicate Popping(S: seq<Stroke>, D: set<int>, remaining: set<int>, lo: int, strokes: seq<Stroke>, erased: seq<Stroke>) {
    remaining <= D && 0 <= lo <= |S| &&
    (forall i :: i in D && 0 <= i < lo ==> i in remaining) &&
    (forall i :: i in remaining ==> i < lo || i >= |S|) &&
    strokes == S[..lo] + Survivors(S, D, lo) &&
    (erased == [] <==> lo == |S|) &&
    (erased != [] ==> 0 <= HighestBelow(D, |S|) && erased[0] == S[HighestBelow(D, |S|)])
  }

  /** Taking the largest remaining index m, and popping it when it is a position of the list, keeps Popping. */
  lemma PopMaintains(S: seq<Stroke>, D: set<int>, remaining: set<int>, lo: int, strokes: seq<Stroke>, erased: seq<Stroke>, m: int)
    requires Popping(S, D, remaining, lo, strokes, erased)
    requires m in remaining && forall x :: x in remaining ==> x <= m
    ensures 0 <= m < |strokes| ==>
              Popping(S, D, remaining - {m}, m, strokes[..m] + strokes[m + 1..], erased + [strokes[m]]) == true
    ensures !(0 <= m < |strokes|) ==> Popping(S, D, remaining - {m}, lo, strokes, erased) == true
  {
    if 0 <= m < |strokes| {
      assert m < lo;
      if erased == [] {
        assert m == HighestBelow(D, |S|);
      }
      PopStep(S, D, lo, m, strokes);
    }
  }

  lemma HitsSnoc(hits: seq<Quadtree.Entry>, e: Quadtree.Entry)
    ensures HitStrokes(hits + [e]) == HitStrokes(hits) + {e.strokeIdx}
    ensures HitPoints(hits + [e], e.strokeIdx) == HitPoints(hits, e.strokeIdx) + {e.pointIdx}
    ensures forall s :: s != e.strokeIdx ==> HitPoints(hits + [e], s) == HitPoints(hits, s)
  {
  }

  /**
   * The dictionary `affected` of `partial_erase`: for every stroke index a
   * query result touches, the touched point indices in result order.
   */
  method GroupHits(hits: seq<Quadtree.Entry>) returns (affected: map<int, seq<int>>)
    ensures affected.Keys == HitStrokes(hits)
    ensures forall s :: s in affected ==> affected[s] != [] && ToSet(affected[s]) == HitPoints(hits, s)
  {
    affected := map[];
    for k := 0 to |hits|
      invariant affected.Keys == HitStrokes(hits[..k])
      invariant forall s :: s in affected ==> affected[s] != [] && ToSet(affected[s]) == HitPoints(hits[..k], s)
    {
      var e := hits[k];
      assert hits[..k + 1] == hits[..k] + [e];
      HitsSnoc(hits[..k], e);
      ghost var prev := if e.strokeIdx in affected then affected[e.strokeIdx] else [];
      assert ToSet(prev + [e.pointIdx]) == ToSet(prev) + {e.pointIdx};
      affected := affected[e.strokeIdx := (if e.strokeIdx in affected then affected[e.strokeIdx] else []) + [e.pointIdx]];
    }
    assert hits[..|hits|] == hits;
  }

  /**
   * The search of `partial_erase`: walks the keys from the highest down and
   * stops at the first one that is a valid position in a list of length n;
   * -1 when there is none.
   */
  method HighestInRange(keys: set<int>, n: int) returns (m: int)
    ensures m == HighestBelow(keys, n)
  {
    var rest := keys;
    while rest != {}
      invariant rest <= keys
      invariant forall i :: i in keys && 0 <= i < n ==> i in rest
      decreases |rest|
    {
      var k := Largest(rest);
      rest := rest - {k};
      if 0 <= k < n {
        return k;
      }
    }
    return -1;
  }

  /**
   * What `partial_erase` does to stroke list S, whose point lists are SP,
   * given the query result `hits`: when the highest touched index m is in
   * range, the result is (S[m], parts) with `parts`, whose point lists are
   * PP, the split of S[m] at its touched points, and the new list is S
   * without S[m] followed by the parts; otherwise the result is None and
   * the list is unchanged.
   */
  ghost predicate SplitsHighest(S: seq<Stroke>, SP: seq<seq<Point>>, hits: seq<Quadtree.Entry>,
                                result: Option<(Stroke, seq<Stroke>)>, PP: seq<seq<Point>>, strokes: seq<Stroke>)
    requires |SP| == |S|
  {
    var m := HighestBelow(HitStrokes(hits), |S|);
    if m < 0 then
      result.None? && strokes == S
    else
      SplitsAt(S, SP, m, HitPoints(hits, m), result, PP, strokes)
  }

  /**
   * Splitting stroke m of S, whose point lists are SP, at the point indices
   * E: the result is (S[m], parts), the parts' point lists PP are the runs
   * of kept points, and the new list is S without S[m] followed by the parts.
   */
  ghost predicate SplitsAt(S: seq<Stroke>, SP: seq<seq<Point>>, m: int, E: set<int>,
                           result: Option<(Stroke, seq<Stroke>)>, PP: seq<seq<Point>>, strokes: seq<Stroke>)
    requires |SP| == |S| && 0 <= m < |S|
  {
    result.Some? && result.value.0 == S[m] &&
    PP == Runs(SP[m], E) && SplitStyle(S[m], result.value.1) &&
    strokes == S[..m] + S[m + 1..] + result.value.1
  }

  /** The point lists of the parts of a `partial_erase` result (none for None). */
  ghost function PartLists(result: Option<(Stroke, seq<Stroke>)>): seq<seq<Point>>
    reads if result.Some? then set p | p in result.value.1 else {}
  {
    if result.Some? then PointLists(result.value.1) else []
  }

  /**
   * What `partial_erase` makes of the list S, whose point lists are SP,
   * and the tree T for the circle of radius r around (cx, cy): no tree
   * changes nothing; with a tree, the highest touched stroke is split as
   * SplitsHighest says and the tree T' is T with the parts indexed.
   */
  ghost predicate PartiallyErased(S: seq<Stroke>, SP: seq<seq<Point>>, T: Option<Quadtree.QuadtreeNode>, cx: int, cy: int, r: int,
                                  result: Option<(Stroke, seq<Stroke>)>, PP: seq<seq<Point>>,
                                  strokes: seq<Stroke>, T': Option<Quadtree.QuadtreeNode>)
  {
    |SP| == |S| &&
    if T.None? then result.None? && strokes == S && T' == T
    else
      SplitsHighest(S, SP, Quadtree.Within(Quadtree.Contents(T.value), cx, cy, r), result, PP, strokes) == true &&
      Quadtree.Valid(T.value) && T' == Some(SplitTree(|S|, T.value, result, PP))
  }

  /** The tree `partial_erase` leaves: the parts' points PP indexed under their new positions |S| - 1, |S|, ... */
  ghost function SplitTree(n: int, tree: Quadtree.QuadtreeNode, result: Option<(Stroke, seq<Stroke>)>, PP: seq<seq<Point>>): (r: Quadtree.QuadtreeNode)
    requires Quadtree.Valid(tree)
    ensures Quadtree.Valid(r)
  {
    if result.None? then tree else IndexStrokes(tree, PP, n - 1)
  }

  /**
   * `partial_erase` on the list S, whose point lists are SP, with the tree T:
   * the circle query around (x - ox, y - oy), then the split of the highest
   * touched stroke.
   */
  method SplitNear(S: seq<Stroke>, ghost SP: seq<seq<Point>>, T: Quadtree.QuadtreeNode, x: int, y: int, ox: int, oy: int, r: int)
    returns (result: Option<(Stroke, seq<Stroke>)>, strokes: seq<Stroke>, t: Quadtree.QuadtreeNode)
    requires Quadtree.Valid(T) && SP == PointLists(S)
    ensures PartiallyErased(S, SP, Some(T), x - ox, y - oy, r, result, PartLists(result), strokes, Some(t)) == true
    ensures result.Some? ==> forall p :: p in result.value.1 ==> fresh(p)
  {
    var nearPoints := Quadtree.QueryCircle(T, x - ox, y - oy, r);
    assert nearPoints == Quadtree.Within(Quadtree.Contents(T), x - ox, y - oy, r);
    result, strokes, t := SplitHighest(S, SP, T, nearPoints);
  }

  /**
   * The work of `partial_erase` once the query has run: groups the hits by
   * stroke, finds the highest touched index in range, pops that stroke,
   * splits it at its touched points, appends the parts and indexes them.
   */
  method SplitHighest(S: seq<Stroke>, ghost SP: seq<seq<Point>>, tree: Quadtree.QuadtreeNode, hits: seq<Quadtree.Entry>)
    returns (result: Option<(Stroke, seq<Stroke>)>, strokes: seq<Stroke>, t: Quadtree.QuadtreeNode)
    requires Quadtree.Valid(tree) && SP == PointLists(S)
    ensures SplitsHighest(S, SP, hits, result, PartLists(result), strokes)
    ensures t == SplitTree(|S|, tree, result, PartLists(result))
    ensures result.Some? ==> forall p :: p in result.value.1 ==> fresh(p)
  {
    var affected := GroupHits(hits);
    var m := HighestInRange(affected.Keys, |S|);
    if m < 0 {
      return None, S, tree;
    }
    var indices := affected[m];
    assert indices != [] && ToSet(indices) == HitPoints(hits, m);
    result, strokes, t := SplitAt(S, SP, tree, m, indices);
  }

  /** Pops stroke m of S, splits it at the point indices `indices`, appends the parts and indexes them. */
  method SplitAt(S: seq<Stroke>, ghost SP: seq<seq<Point>>, tree: Quadtree.QuadtreeNode, m: int, indices: seq<int>)
    returns (result: Option<(Stroke, seq<Stroke>)>, strokes: seq<Stroke>, t: Quadtree.QuadtreeNode)
    requires Quadtree.Valid(tree) && SP == PointLists(S) && 0 <= m < |S| && indices != []
    ensures SplitsAt(S, SP, m, ToSet(indices), result, PartLists(result), strokes) == true
    ensures t == SplitTree(|S|, tree, result, PartLists(result))
    ensures result.Some? ==> forall p :: p in result.value.1 ==> fresh(p)
  {
    var stroke, parts, lists := SplitMember(S, SP, m, indices);
    var kept := S[..m] + S[m + 1..];
    assert |kept| == |S| - 1;
    strokes := kept + parts;
    t := IndexAll(tree, lists, |kept|);
    result := Some((stroke, parts));
    assert PartLists(result) == lists;
    assert SplitsAt(S, SP, m, ToSet(indices), result, lists, strokes);
  }

  /** `split_stroke` on stroke m of S at the given point indices, with the parts' point lists. */
  method SplitMember(S: seq<Stroke>, ghost SP: seq<seq<Point>>, m: int, indices: seq<int>)
    returns (stroke: Stroke, parts: seq<Stroke>, lists: seq<seq<Point>>)
    requires SP == PointLists(S) && 0 <= m < |S| && indices != []
    ensures stroke == S[m] && SplitStyle(stroke, parts) && (forall p :: p in parts ==> fresh(p))
    ensures lists == PointLists(parts) && lists == Runs(SP[m], ToSet(indices))
  {
    stroke := S[m];
    assert SP[m] == stroke.points by { PointListsAt(S, m); }
    parts := VectorLayer.SplitStroke(stroke, indices);
    lists := PointLists(parts);
  }

  /** Inserts every point of every point list, list i under stroke index base + i. */
  method IndexAll(root: Quadtree.QuadtreeNode, lists: seq<seq<Point>>, base: int) returns (t: Quadtree.QuadtreeNode)
    requires Quadtree.Valid(root)
    ensures t == IndexStrokes(root, lists, base)
  {
    t := root;
    for i := 0 to |lists|
      invariant t == IndexStrokes(root, lists[..i], base)
    {
      assert lists[..i + 1] == lists[..i] + [lists[i]];
      IndexStrokesSnoc(root, lists[..i], lists[i], base);
      t := IndexStroke(t, base + i, lists[i]);
    }
    assert lists[..|lists|] == lists;
  }

  class VectorLayer {
    var strokes: seq<Stroke>
    var quadtree: Option<Quadtree.QuadtreeNode>

    ghost predicate Valid()
      reads this
    {
      quadtree.Some? ==> Quadtree.Valid(quadtree.value)
    }

    /** `VectorLayer()`: no strokes and no tree. */
    constructor ()
      ensures Valid() && strokes == [] && quadtree == None
    {
      strokes := [];
      quadtree := None;
    }

    /** `add_stroke`: appends the stroke and, when there is a tree, indexes its points under the new last index. */
    method AddStroke(stroke: Stroke)
      requires Valid()
      modifies this
      ensures Valid()
      ensures strokes == old(strokes) + [stroke]
      ensures quadtree == IndexInto(old(quadtree), |old(strokes)|, stroke.points)
    {
      strokes := strokes + [stroke];
      if quadtree.Some? {
        var t := IndexStroke(quadtree.value, |strokes| - 1, stroke.points);
        quadtree := Some(t);
      }
    }

    /** `rebuild_quadtree`: a fresh (0, 0, width, height) root indexing every point of every stroke at its current position. */
    method RebuildQuadtree(width: int, height: int)
      modifies this
      ensures Valid() && strokes == old(strokes)
      ensures quadtree == Some(IndexStrokes(Quadtree.NewNode(0, 0, width, height), PointLists(strokes), 0))
    {
      var t := IndexAll(Quadtree.NewNode(0, 0, width, height), PointLists(strokes), 0);
      quadtree := Some(t);
    }

    /**
     * `erase_near`: with a tree, pops every in-range stroke index the circle
     * query around (x - ox, y - oy) touches, highest first, so the other
     * strokes keep their order; returns the first stroke popped (the one at
     * the highest such index), or null.
     */
    method EraseNear(x: int, y: int, radius: int, ox: int, oy: int) returns (removed: Stroke?)
      requires Valid()
      modifies this
      ensures Valid() && quadtree == old(quadtree)
      ensures old(quadtree).None? ==> strokes == old(strokes) && removed == null
      ensures old(quadtree).Some? ==>
                var D := HitStrokes(Quadtree.Within(Quadtree.Contents(old(quadtree).value), x - ox, y - oy, radius));
                var m := HighestBelow(D, |old(strokes)|);
                strokes == Survivors(old(strokes), D, 0) &&
                removed == (if m < 0 then null else old(strokes)[m])
    {
      var cx, cy := x - ox, y - oy;
      if quadtree.None? {
        return null;
      }
      var nearPoints := Quadtree.QueryCircle(quadtree.value, cx, cy, radius);
      var strokeIndices := set e | e in nearPoints :: e.strokeIdx;
      var kept, erased := PopDescending(strokes, strokeIndices);
      strokes := kept;
      removed := if erased == [] then null else erased[0];
    }

    /**
     * `partial_erase`: with a tree, takes only the highest in-range stroke
     * index the circle query around (x - ox, y - oy) touches, pops that
     * stroke, appends its split parts at the end and indexes them under
     * their new positions, and returns (original, parts); None when no
     * touched index is in range.
     */
    method PartialErase(x: int, y: int, radius: int, ox: int, oy: int) returns (result: Option<(Stroke, seq<Stroke>)>)
      requires Valid()
      modifies this
      ensures Valid()
      ensures PartiallyErased(old(strokes), old(PointLists(strokes)), old(quadtree), x - ox, y - oy, radius,
                              result, PartLists(result), strokes, quadtree) == true
      ensures result.Some? ==> forall p :: p in result.value.1 ==> fresh(p)
    {
      if quadtree.None? {
        return None;
      }
      var s, t;
      result, s, t := SplitNear(strokes, PointLists(strokes), quadtree.value, x, y, ox, oy, radius);
      ghost var PP := PartLists(result);
      strokes, quadtree := s, Some(t);
      assert PartLists(result) == PP;
    }

    /**
     * `split_stroke`: with no erased indices, the stroke itself; otherwise
     * one new stroke, of the parent's color and radius, per maximal run of
     * points whose positions are not erased.
     */
    static method SplitStroke(stroke: Stroke, erasedIndices: seq<int>) returns (parts: seq<Stroke>)
      ensures erasedIndices == [] ==> parts == [stroke]
      ensures erasedIndices != [] ==>
                IsSplit(stroke, ToSet(erasedIndices), parts) && forall p :: p in parts ==> fresh(p)
    {
      if erasedIndices == [] {
        return [stroke];
      }
      var erasedSet := set i | i in erasedIndices;
      var segments, current := CollectRuns(stroke, erasedSet);
      if current != [] {
        var s := ClosePart(stroke, segments, PointLists(segments), current);
        segments := segments + [s];
      }
      parts := segments;
    }
  }
}
