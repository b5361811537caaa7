/**
 * The point quadtree of engine/quadtree.py (QuadtreeNode).
 *
 * A node covers the half-open rectangle [x, x + width) x [y, y + height),
 * keeps up to `capacity` entries of its own and, once full, splits a single
 * time into four floor-halved children.  The ghost function `Contents` lists
 * every entry stored in the subtree in pre-order (own entries, then NW, NE,
 * SW and SE), which is exactly the order `query_circle` reports them in.
 *
 * Nodes are values: `insert` returns the updated node together with the
 * boolean the source returns, and the owner (the vector layer) stores the
 * new root in its `quadtree` field.  No node is ever shared between two
 * parents in the source, so nothing observable depends on node identity.
 */
module Quadtree {

  /** An indexed sample point: (stroke_idx, point_idx, x, y). */
  datatype Entry = Entry(strokeIdx: int, pointIdx: int, x: int, y: int)

  /** Capacity given to every node built without an explicit one. */
  const DEFAULT_CAPACITY: int := 4

  function Min(a: int, b: int): int { if a <= b then a else b }
  function Max(a: int, b: int): int { if a >= b then a else b }

  /** pygame.Rect.collidepoint: the half-open rectangle test. */
  predicate InRect(rx: int, ry: int, w: int, h: int, px: int, py: int) {
    rx <= px < rx + w && ry <= py < ry + h
  }

  function SqDist(px: int, py: int, qx: int, qy: int): int {
    (px - qx) * (px - qx) + (py - qy) * (py - qy)
  }

  /** The exact filter of query_circle: (px - cx)^2 + (py - cy)^2 <= r^2. */
  predicate InCircle(e: Entry, cx: int, cy: int, r: int) {
    SqDist(e.x, e.y, cx, cy) <= r * r
  }

  /** The entries of `es` that lie in the circle, in their original order. */
  function Within(es: seq<Entry>, cx: int, cy: int, r: int): seq<Entry>
    decreases |es|
  {
    if es == [] then []
    else
      var last := es[|es| - 1];
      Within(es[..|es| - 1], cx, cy, r) + (if InCircle(last, cx, cy, r) then [last] else [])
  }

  /**
   * `_intersects_circle`: clamp the centre into the closed rectangle and
   * compare the squared distance to that closest point with r^2.
   */
  predicate IntersectsCircle(x: int, y: int, w: int, h: int, cx: int, cy: int, r: int) {
    var closestX := Max(x, Min(cx, x + w));
    var closestY := Max(y, Min(cy, y + h));
    SqDist(closestX, closestY, cx, cy) <= r * r
  }

  /** The four rectangles `subdivide` creates, tried in this order by `insert`. */
  predicate InSomeQuadrant(x: int, y: int, w: int, h: int, px: int, py: int) {
    var hw, hh := w / 2, h / 2;
    InRect(x, y, hw, hh, px, py) || InRect(x + hw, y, hw, hh, px, py) ||
    InRect(x, y + hh, hw, hh, px, py) || InRect(x + hw, y + hh, hw, hh, px, py)
  }

  lemma {:induction false} WithinConcat(a: seq<Entry>, b: seq<Entry>, cx: int, cy: int, r: int)
    ensures Within(a + b, cx, cy, r) == Within(a, cx, cy, r) + Within(b, cx, cy, r)
    decreases |b|
  {
    if b == [] {
      assert a + b == a;
    } else {
      var b' := b[..|b| - 1];
      assert (a + b)[..|a + b| - 1] == a + b';
      WithinConcat(a, b', cx, cy, r);
    }
  }

  /**
   * Soundness, completeness and "exactly once" of the filter: an entry
   * occurs in the result as often as in the input when it lies in the
   * circle, and never otherwise.
   */
  lemma {:induction false} WithinCount(es: seq<Entry>, cx: int, cy: int, r: int, e: Entry)
    ensures multiset(Within(es, cx, cy, r))[e] == if InCircle(e, cx, cy, r) then multiset(es)[e] else 0
    decreases |es|
  {
    if es != [] {
      var init := es[..|es| - 1];
      WithinCount(init, cx, cy, r, e);
      assert es == init + [es[|es| - 1]];
    }
  }

  lemma WithinNone(es: seq<Entry>, cx: int, cy: int, r: int)
    requires forall e :: e in es ==> !InCircle(e, cx, cy, r)
    ensures Within(es, cx, cy, r) == []
    decreases |es|
  {
    if es != [] {
      WithinNone(es[..|es| - 1], cx, cy, r);
    }
  }

  lemma SquareMonotone(a: int, b: int)
    requires 0 <= a <= b
    ensures a * a <= b * b
  {
    assert a * a <= a * b;
  }

  /** Along one axis, the clamped coordinate is no farther from c than any p in [lo, hi]. */
  lemma ClampIsNearest(lo: int, hi: int, c: int, p: int)
    requires lo <= p <= hi
    ensures var q := Max(lo, Min(c, hi)); (q - c) * (q - c) <= (p - c) * (p - c)
  {
    var q := Max(lo, Min(c, hi));
    if c < lo {
      SquareMonotone(lo - c, p - c);
    } else if c > hi {
      SquareMonotone(c - hi, c - p);
    }
  }

  /**
   * The pruning test of query_circle is safe: when the rectangle fails
   * `_intersects_circle`, no point inside it lies in the circle.
   */
  lemma NoIntersectionNoHit(x: int, y: int, w: int, h: int, cx: int, cy: int, r: int, e: Entry)
    requires InRect(x, y, w, h, e.x, e.y)
    requires !IntersectsCircle(x, y, w, h, cx, cy, r)
    ensures !InCircle(e, cx, cy, r)
  {
    ClampIsNearest(x, x + w, cx, e.x);
    ClampIsNearest(y, y + h, cy, e.y);
  }

  /** A circle whose centre lies in the rectangle is never pruned, whatever its radius. */
  lemma CentreInsideIntersects(x: int, y: int, w: int, h: int, cx: int, cy: int, r: int)
    requires InRect(x, y, w, h, cx, cy)
    ensures IntersectsCircle(x, y, w, h, cx, cy, r)
  {
    assert r * r >= 0;
  }

  /** Whether `n` has the boundary and capacity that `subdivide` gives a child with corner (cx, cy). */
  predicate IsChild(c: QuadtreeNode, cx: int, cy: int, parent: QuadtreeNode) {
    c.x == cx && c.y == cy && c.width == parent.width / 2 && c.height == parent.height / 2 &&
    c.capacity == DEFAULT_CAPACITY
  }

  /** The four children of a divided node, or none before the first split. */
  datatype Quadrants =
    | Undivided
    | Divided(nw: QuadtreeNode, ne: QuadtreeNode, sw: QuadtreeNode, se: QuadtreeNode)

  /**
   * A node: its boundary rectangle (x, y, width, height), its capacity, the
   * entries it holds itself, and its children (`divided` is `quads.Divided?`).
   */
  datatype QuadtreeNode = QuadtreeNode(x: int, y: int, width: int, height: int, capacity: int,
                                       points: seq<Entry>, quads: Quadrants)

  /** Same boundary and capacity: the parts of a node that never change. */
  predicate SameFrame(a: QuadtreeNode, b: QuadtreeNode) {
    a.x == b.x && a.y == b.y && a.width == b.width && a.height == b.height && a.capacity == b.capacity
  }

  /**
   * The shape every node reachable by `__init__`, `insert` and `subdivide`
   * has: the own list stays within capacity, every own entry lies in the
   * boundary, and a divided node was full, is at least 1 x 1, and has the
   * four floor-halved children `subdivide` builds.
   */
  ghost predicate Valid(n: QuadtreeNode)
    decreases n
  {
    (|n.points| <= n.capacity || n.points == []) &&
    (forall e :: e in n.points ==> InRect(n.x, n.y, n.width, n.height, e.x, e.y)) &&
    match n.quads
    case Undivided => true
    case Divided(nw, ne, sw, se) =>
      n.width >= 1 && n.height >= 1 && |n.points| >= n.capacity &&
      IsChild(nw, n.x, n.y, n) && IsChild(ne, n.x + n.width / 2, n.y, n) &&
      IsChild(sw, n.x, n.y + n.height / 2, n) && IsChild(se, n.x + n.width / 2, n.y + n.height / 2, n) &&
      Valid(nw) && Valid(ne) && Valid(sw) && Valid(se)
  }

  /** Every entry stored in the subtree in pre-order: own entries, then NW, NE, SW, SE. */
  ghost function Contents(n: QuadtreeNode): seq<Entry>
    decreases n
  {
    n.points +
    match n.quads
    case Undivided => []
    case Divided(nw, ne, sw, se) => Contents(nw) + Contents(ne) + Contents(sw) + Contents(se)
  }

  /** How many times the subtree stores `f`. */
  ghost function Count(n: QuadtreeNode, f: Entry): nat
    decreases n
  {
    multiset(n.points)[f] +
    match n.quads
    case Undivided => 0
    case Divided(nw, ne, sw, se) => Count(nw, f) + Count(ne, f) + Count(sw, f) + Count(se, f)
  }

  /** The change an `insert` of `e` that returned `ok` makes to the count of `f`. */
  function Added(ok: bool, e: Entry, f: Entry): nat {
    if ok && f == e then 1 else 0
  }

  /**
   * Whether `insert` stores a point at (px, py): it is in the boundary and
   * either the node has room or a child on the NW, NE, SW, SE path does.  A
   * full undivided node would split first, and its new children are empty,
   * so they take exactly the points of their own rectangles.
   */
  ghost predicate CanStore(n: QuadtreeNode, px: int, py: int)
    decreases n, 1
  {
    InRect(n.x, n.y, n.width, n.height, px, py) &&
    (|n.points| < n.capacity ||
     if n.quads.Undivided? then InSomeQuadrant(n.x, n.y, n.width, n.height, px, py)
     else QuadrantsCanStore(n.quads, px, py))
  }

  ghost predicate QuadrantsCanStore(q: Quadrants, px: int, py: int)
    decreases q, 0
  {
    match q
    case Undivided => false
    case Divided(nw, ne, sw, se) =>
      CanStore(nw, px, py) || CanStore(ne, px, py) || CanStore(sw, px, py) || CanStore(se, px, py)
  }

  /** `QuadtreeNode(x, y, width, height, capacity)`: an empty, undivided node. */
  function NewNode(x: int, y: int, width: int, height: int, capacity: int := DEFAULT_CAPACITY): (n: QuadtreeNode)
    ensures Valid(n) && Contents(n) == [] && n.quads == Undivided
    ensures forall f :: Count(n, f) == 0
    ensures n.x == x && n.y == y && n.width == width && n.height == height && n.capacity == capacity
    ensures 0 < capacity ==> forall px, py :: CanStore(n, px, py) <==> InRect(x, y, width, height, px, py)
  {
    QuadtreeNode(x, y, width, height, capacity, [], Undivided)
  }

  /**
   * `subdivide`: a full node gets four empty children of size
   * (width // 2) x (height // 2); what the subtree stores is unchanged and
   * the children take exactly the points of the four quadrants.
   */
  function Subdivide(n: QuadtreeNode): (r: QuadtreeNode)
    requires Valid(n) && n.quads.Undivided? && |n.points| >= n.capacity && n.width >= 1 && n.height >= 1
    ensures Valid(r) && SameFrame(r, n) && r.points == n.points && r.quads.Divided?
    ensures Contents(r) == Contents(n) && forall f :: Count(r, f) == Count(n, f)
    ensures forall px, py :: QuadrantsCanStore(r.quads, px, py) <==> InSomeQuadrant(n.x, n.y, n.width, n.height, px, py)
  {
    var hw, hh := n.width / 2, n.height / 2;
    n.(quads := Divided(NewNode(n.x, n.y, hw, hh), NewNode(n.x + hw, n.y, hw, hh),
                        NewNode(n.x, n.y + hh, hw, hh), NewNode(n.x + hw, n.y + hh, hw, hh)))
  }

  /**
   * `insert(stroke_idx, point_idx, x, y)`, returning the updated node and
   * the result.  It succeeds exactly when `CanStore` holds, and then the
   * subtree holds the entry once more; it never loses an entry, rejects an
   * out-of-bounds point without touching the node, fills the own list
   * before splitting, never undoes a split and never makes room it did not
   * have.  It terminates because every recursive call goes to a child of
   * width width // 2 < width.
   */
  function Insert(n: QuadtreeNode, e: Entry): (r: (QuadtreeNode, bool))
    requires Valid(n)
    decreases n.width, 1
    ensures Valid(r.0) && SameFrame(r.0, n)
    ensures r.1 == CanStore(n, e.x, e.y)
    ensures forall f :: Count(r.0, f) == Count(n, f) + Added(r.1, e, f)
    ensures !InRect(n.x, n.y, n.width, n.height, e.x, e.y) ==> r.0 == n
    ensures InRect(n.x, n.y, n.width, n.height, e.x, e.y) && |n.points| < n.capacity ==>
              r.0.points == n.points + [e] && r.0.quads == n.quads
    ensures |n.points| >= n.capacity ==> r.0.points == n.points
    ensures n.quads.Divided? ==> r.0.quads.Divided?
    ensures forall qx, qy :: CanStore(r.0, qx, qy) ==> CanStore(n, qx, qy)
  {
    if !InRect(n.x, n.y, n.width, n.height, e.x, e.y) then (n, false)
    else if |n.points| < n.capacity then (n.(points := n.points + [e]), true)
    else
      var m := if n.quads.Undivided? then Subdivide(n) else n;
      var r := InsertFrom(m, 0, e);
      ChainIsAny(m.quads);
      ChainIsAny(r.0.quads);
      r
  }

  /** Child number i of a divided node, in the order NW, NE, SW, SE. */
  function Child(q: Quadrants, i: int): QuadtreeNode
    requires q.Divided? && 0 <= i < 4
  {
    if i == 0 then q.nw else if i == 1 then q.ne else if i == 2 then q.sw else q.se
  }

  /** `q` with child number i replaced by `c`. */
  function WithChild(q: Quadrants, i: int, c: QuadtreeNode): (r: Quadrants)
    requires q.Divided? && 0 <= i < 4
    ensures r.Divided? && Child(r, i) == c
    ensures forall j :: 0 <= j < 4 && j != i ==> Child(r, j) == Child(q, j)
  {
    if i == 0 then q.(nw := c) else if i == 1 then q.(ne := c) else if i == 2 then q.(sw := c) else q.(se := c)
  }

  /** Whether one of children i, ..., 3 would store a point at (px, py). */
  ghost predicate CanStoreFrom(q: Quadrants, i: int, px: int, py: int)
    requires q.Divided? && 0 <= i <= 4
    decreases 4 - i
  {
    i < 4 && (CanStore(Child(q, i), px, py) || CanStoreFrom(q, i + 1, px, py))
  }

  /** Trying the children in turn finds one that stores the point iff one exists. */
  lemma ChainIsAny(q: Quadrants)
    requires q.Divided?
    ensures forall px, py :: CanStoreFrom(q, 0, px, py) == QuadrantsCanStore(q, px, py)
  {
    forall px, py
      ensures CanStoreFrom(q, 0, px, py) == QuadrantsCanStore(q, px, py)
    {
      assert CanStoreFrom(q, 3, px, py) == CanStore(q.se, px, py);
    }
  }

  /** Children i, ..., 3 alike means the same answer from child i on. */
  lemma {:induction false} CanStoreFromSame(q: Quadrants, q': Quadrants, i: int)
    requires q.Divided? && q'.Divided? && 0 <= i <= 4
    requires forall j :: i <= j < 4 ==> Child(q, j) == Child(q', j)
    ensures forall qx, qy :: CanStoreFrom(q, i, qx, qy) == CanStoreFrom(q', i, qx, qy)
    decreases 4 - i
  {
    if i < 4 {
      CanStoreFromSame(q, q', i + 1);
    }
  }

  /**
   * Putting back child i after `insert` changed it keeps the node valid,
   * and the subtree gains what the child gained.
   */
  lemma ReplaceChild(m: QuadtreeNode, i: int, c: QuadtreeNode, ok: bool, e: Entry)
    requires Valid(m) && m.quads.Divided? && 0 <= i < 4
    requires Valid(c) && SameFrame(c, Child(m.quads, i))
    requires forall f :: Count(c, f) == Count(Child(m.quads, i), f) + Added(ok, e, f)
    ensures Valid(m.(quads := WithChild(m.quads, i, c)))
    ensures forall f :: Count(m.(quads := WithChild(m.quads, i, c)), f) == Count(m, f) + Added(ok, e, f)
  {
    forall f
      ensures Count(m.(quads := WithChild(m.quads, i, c)), f) == Count(m, f) + Added(ok, e, f)
    {
      ReplaceChildCount(m, i, c, ok, e, f);
    }
  }

  /** The count of one entry after child i is replaced by c. */
  lemma ReplaceChildCount(m: QuadtreeNode, i: int, c: QuadtreeNode, ok: bool, e: Entry, f: Entry)
    requires m.quads.Divided? && 0 <= i < 4
    requires Count(c, f) == Count(Child(m.quads, i), f) + Added(ok, e, f)
    ensures Count(m.(quads := WithChild(m.quads, i, c)), f) == Count(m, f) + Added(ok, e, f)
  {
    var m' := m.(quads := WithChild(m.quads, i, c));
    ChildCounts(m, f);
    ChildCounts(m', f);
    assert forall j :: 0 <= j < 4 && j != i ==> Child(m'.quads, j) == Child(m.quads, j);
  }

  lemma ChildCounts(m: QuadtreeNode, f: Entry)
    requires m.quads.Divided?
    ensures Count(m, f) == multiset(m.points)[f] + Count(Child(m.quads, 0), f) + Count(Child(m.quads, 1), f) +
                           Count(Child(m.quads, 2), f) + Count(Child(m.quads, 3), f)
  {
  }

  /**
   * The `or` chain of `insert` from child i on: try NW, NE, SW, SE in turn
   * and stop at the first child that stores `e`.  A child tried and failed
   * is still replaced, because a failed `insert` may have split it.
   */
  function InsertFrom(m: QuadtreeNode, i: int, e: Entry): (r: (QuadtreeNode, bool))
    requires Valid(m) && m.quads.Divided? && 0 <= i <= 4
    decreases m.width, 0, 4 - i
    ensures Valid(r.0) && SameFrame(r.0, m) && r.0.points == m.points && r.0.quads.Divided?
    ensures r.1 == CanStoreFrom(m.quads, i, e.x, e.y)
    ensures forall f :: Count(r.0, f) == Count(m, f) + Added(r.1, e, f)
    ensures forall j :: 0 <= j < i ==> Child(r.0.quads, j) == Child(m.quads, j)
    ensures forall qx, qy :: CanStoreFrom(r.0.quads, i, qx, qy) ==> CanStoreFrom(m.quads, i, qx, qy)
  {
    if i == 4 then (m, false)
    else
      var (m', ok) := InsertInto(m, i, e);
      CanStoreFromSame(m'.quads, m.quads, i + 1);
      if ok then (m', true) else InsertFrom(m', i + 1, e)
  }

  /** One link of the chain: `insert` into child i, which is replaced by the result. */
  function InsertInto(m: QuadtreeNode, i: int, e: Entry): (r: (QuadtreeNode, bool))
    requires Valid(m) && m.quads.Divided? && 0 <= i < 4
    decreases m.width, 0, 0
    ensures Valid(r.0) && SameFrame(r.0, m) && r.0.points == m.points && r.0.quads.Divided?
    ensures r.1 == CanStore(Child(m.quads, i), e.x, e.y)
    ensures forall f :: Count(r.0, f) == Count(m, f) + Added(r.1, e, f)
    ensures forall j :: 0 <= j < 4 && j != i ==> Child(r.0.quads, j) == Child(m.quads, j)
    ensures forall qx, qy :: CanStore(Child(r.0.quads, i), qx, qy) ==> CanStore(Child(m.quads, i), qx, qy)
  {
    var (c, ok) := Insert(Child(m.quads, i), e);
    ReplaceChild(m, i, c, ok, e);
    (m.(quads := WithChild(m.quads, i, c)), ok)
  }

  /** Every entry of the subtree lies in the node's boundary: children cover part of their parent. */
  lemma {:induction false} ContentsInRect(n: QuadtreeNode)
    requires Valid(n)
    ensures forall e :: e in Contents(n) ==> InRect(n.x, n.y, n.width, n.height, e.x, e.y)
    decreases n
  {
    match n.quads {
      case Undivided =>
      case Divided(nw, ne, sw, se) =>
        ContentsInRect(nw);
        ContentsInRect(ne);
        ContentsInRect(sw);
        ContentsInRect(se);
    }
  }

  /** The own entries of `es` that `query_circle`'s loop keeps, as computed one step further. */
  lemma WithinStep(es: seq<Entry>, i: int, cx: int, cy: int, r: int)
    requires 0 <= i < |es|
    ensures Within(es[..i + 1], cx, cy, r) ==
            Within(es[..i], cx, cy, r) + if InCircle(es[i], cx, cy, r) then [es[i]] else []
  {
    assert es[..i + 1][..i] == es[..i];
  }

  /**
   * `query_circle(cx, cy, radius)`: the entries of the subtree within
   * `radius` of (cx, cy), in pre-order.  A node whose rectangle misses the
   * circle is skipped with its whole subtree, which loses nothing.
   */
  method QueryCircle(n: QuadtreeNode, cx: int, cy: int, radius: int) returns (found: seq<Entry>)
    requires Valid(n)
    ensures found == Within(Contents(n), cx, cy, radius)
    decreases n
  {
    if !IntersectsCircle(n.x, n.y, n.width, n.height, cx, cy, radius) {
      ContentsInRect(n);
      forall e | e in Contents(n)
        ensures !InCircle(e, cx, cy, radius)
      {
        NoIntersectionNoHit(n.x, n.y, n.width, n.height, cx, cy, radius, e);
      }
      WithinNone(Contents(n), cx, cy, radius);
      return [];
    }
    found := FilterInCircle(n.points, cx, cy, radius);
    match n.quads {
      case Undivided =>
        assert Contents(n) == n.points;
      case Divided(nw, ne, sw, se) =>
        var a := QueryCircle(nw, cx, cy, radius);
        var b := QueryCircle(ne, cx, cy, radius);
        var c := QueryCircle(sw, cx, cy, radius);
        var d := QueryCircle(se, cx, cy, radius);
        found := found + a + b + c + d;
        WithinOfDivided(n, cx, cy, radius);
    }
  }

  /** The loop of `query_circle` over the node's own entries. */
  method FilterInCircle(points: seq<Entry>, cx: int, cy: int, radius: int) returns (found: seq<Entry>)
    ensures found == Within(points, cx, cy, radius)
  {
    found := [];
    var i := 0;
    while i < |points|
      invariant 0 <= i <= |points|
      invariant found == Within(points[..i], cx, cy, radius)
    {
      var e := points[i];
      WithinStep(points, i, cx, cy, radius);
      if (e.x - cx) * (e.x - cx) + (e.y - cy) * (e.y - cy) <= radius * radius {
        found := found + [e];
      }
      i := i + 1;
    }
    assert points[..i] == points;
  }

  /** The filter over a divided node's listing splits into its own part and the four children's. */
  lemma WithinOfDivided(n: QuadtreeNode, cx: int, cy: int, r: int)
    requires n.quads.Divided?
    ensures Within(Contents(n), cx, cy, r) ==
            Within(n.points, cx, cy, r) + Within(Contents(n.quads.nw), cx, cy, r) +
            Within(Contents(n.quads.ne), cx, cy, r) + Within(Contents(n.quads.sw), cx, cy, r) +
            Within(Contents(n.quads.se), cx, cy, r)
  {
    var q := n.quads;
    var p, a, b, c, d := n.points, Contents(q.nw), Contents(q.ne), Contents(q.sw), Contents(q.se);
    assert Contents(n) == p + a + b + c + d;
    WithinConcat(p + a + b + c, d, cx, cy, r);
    WithinConcat(p + a + b, c, cx, cy, r);
    WithinConcat(p + a, b, cx, cy, r);
    WithinConcat(p, a, cx, cy, r);
  }

  /** Count agrees with the pre-order listing. */
  lemma {:induction false} CountIsContents(n: QuadtreeNode, f: Entry)
    ensures Count(n, f) == multiset(Contents(n))[f]
    decreases n
  {
    match n.quads {
      case Undivided =>
      case Divided(nw, ne, sw, se) =>
        CountIsContents(nw, f);
        CountIsContents(ne, f);
        CountIsContents(sw, f);
        CountIsContents(se, f);
        assert Contents(n) == n.points + Contents(nw) + Contents(ne) + Contents(sw) + Contents(se);
    }
  }

  /**
   * Soundness and completeness of `query_circle`: an entry is reported as
   * many times as it is stored when it lies within the radius, and never
   * otherwise.  Since `insert` adds an entry at most once, an entry inserted
   * once is reported exactly once.
   */
  lemma QueryExactlyOnce(n: QuadtreeNode, cx: int, cy: int, radius: int, f: Entry)
    requires Valid(n)
    ensures multiset(Within(Contents(n), cx, cy, radius))[f] ==
            if InCircle(f, cx, cy, radius) then Count(n, f) else 0
  {
    WithinCount(Contents(n), cx, cy, radius, f);
    CountIsContents(n, f);
  }

  /** A zero-radius query centred on a stored point reports that point. */
  lemma ZeroRadiusFindsStoredPoint(n: QuadtreeNode, f: Entry)
    requires Valid(n) && Count(n, f) > 0
    ensures f in Within(Contents(n), f.x, f.y, 0)
  {
    QueryExactlyOnce(n, f.x, f.y, 0, f);
  }

  /**
   * `insert` can reject a point inside the boundary: a full 1 x 1 node
   * splits into four 0 x 0 children, which contain no point at all.
   */
  lemma FullUnitNodeRejectsInBoundsPoint()
    ensures var e := Entry(0, 4, 0, 0);
            var full := QuadtreeNode(0, 0, 1, 1, 4, [Entry(0, 0, 0, 0), Entry(0, 1, 0, 0), Entry(0, 2, 0, 0), Entry(0, 3, 0, 0)], Undivided);
            Valid(full) && InRect(0, 0, 1, 1, e.x, e.y) && !Insert(full, e).1
  {
    var full := QuadtreeNode(0, 0, 1, 1, 4, [Entry(0, 0, 0, 0), Entry(0, 1, 0, 0), Entry(0, 2, 0, 0), Entry(0, 3, 0, 0)], Undivided);
    assert !InSomeQuadrant(0, 0, 1, 1, 0, 0);
    assert !CanStore(full, 0, 0);
  }
}
