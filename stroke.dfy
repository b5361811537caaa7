/**
 * A brush stroke of engine/stroke.py: a colour, a radius and the list of
 * sampled pixel positions, densified as the pointer moves.
 *
 * `add_point` computes with floats: dist = sqrt(dx^2 + dy^2),
 * spacing = max(1.0, radius * 0.15), steps = int(dist // spacing) and the
 * truncated interpolation int(x0 + i / steps * dx).  The model computes the
 * same quantities exactly over the integers: dist > 3 is d2 > 9,
 * k <= dist / spacing is k^2 * spacing^2 <= d2, and the interpolated
 * coordinate is (x0 * steps + i * dx) / steps truncated toward zero.
 */
module Strokes {

  /** A sampled pixel position (x, y). */
  datatype Point = Point(x: int, y: int)

  /** An (R, G, B, A) colour tuple. */
  datatype Color = Color(r: int, g: int, b: int, a: int)

  /** Pointer moves longer than this many pixels are densified. */
  const SPEED_THRESHOLD: int := 3

  /** Python's int() on a quotient: division truncating toward zero. */
  function TruncDiv(n: int, d: int): int
    requires d > 0
  {
    if n >= 0 then n / d else -((-n) / d)
  }

  /** A multiple of d that lies in [0, d) is zero times d. */
  lemma SmallMultiple(k: int, d: int)
    requires d > 0 && 0 <= k * d < d
    ensures k == 0
  {
    assert k >= 1 ==> (k - 1) * d >= 0 && k * d == (k - 1) * d + d;
    assert k <= -1 ==> (-k - 1) * d >= 0 && k * d == -((-k - 1) * d) - d;
  }

  lemma DivExact(n: nat, d: int)
    requires d > 0
    ensures (n * d) / d == n
  {
    var q, r := (n * d) / d, (n * d) % d;
    assert q * d + r == n * d && 0 <= r < d;
    assert (n - q) * d == r;
    SmallMultiple(n - q, d);
  }

  lemma TruncDivExact(a: int, d: int)
    requires d > 0
    ensures TruncDiv(a * d, d) == a
  {
    if a < 0 {
      assert -(a * d) == (-a) * d;
      DivExact(-a, d);
    } else {
      DivExact(a, d);
    }
  }

  /** Squared distance between two points. */
  function SqDist(p: Point, q: Point): int {
    (q.x - p.x) * (q.x - p.x) + (q.y - p.y) * (q.y - p.y)
  }

  /**
   * Whether k samples of spacing max(1, 0.15 * radius) fit into a move of
   * squared length d2: k * spacing <= sqrt(d2), squared and cleared of
   * fractions (0.15 = 3 / 20).
   */
  predicate Fits(k: int, d2: int, radius: int) {
    if 3 * radius <= 20 then k * k <= d2 else 9 * k * k * radius * radius <= 400 * d2
  }

  lemma FitsBound(k: nat, d2: int, radius: int)
    requires Fits(k, d2, radius)
    ensures k * k <= d2
  {
    if 3 * radius > 20 {
      assert radius * radius >= 49 by {
        assert radius >= 7;
        assert radius * radius >= 7 * radius;
      }
      assert 9 * (radius * radius) >= 441;
      assert 9 * k * k * radius * radius == (k * k) * (9 * (radius * radius));
      assert (k * k) * (9 * (radius * radius)) >= (k * k) * 441;
    }
  }

  /** Fits is downward closed: fewer samples always fit. */
  lemma {:induction false} FitsMonotone(j: nat, k: nat, d2: int, radius: int)
    requires j <= k && Fits(k, d2, radius)
    ensures Fits(j, d2, radius)
  {
    assert j * j <= k * k by {
      assert j * j <= j * k;
      assert j * k <= k * k;
    }
    if 3 * radius > 20 {
      var c := 9 * radius * radius;
      assert c >= 0;
      assert 9 * j * j * radius * radius == (j * j) * c;
      assert 9 * k * k * radius * radius == (k * k) * c;
      assert (j * j) * c <= (k * k) * c;
    }
  }

  /** The largest sample count that fits, searching upward from k. */
  function StepsFrom(k: nat, d2: int, radius: int): (s: nat)
    requires Fits(k, d2, radius)
    ensures k <= s && Fits(s, d2, radius) && !Fits(s + 1, d2, radius)
    decreases d2 - k
  {
    if Fits(k + 1, d2, radius) then
      FitsBound(k + 1, d2, radius);
      assert k + 1 <= (k + 1) * (k + 1);
      StepsFrom(k + 1, d2, radius)
    else k
  }

  /** steps = int(dist // spacing) for a move of squared length d2 >= 0. */
  function Steps(d2: int, radius: int): nat
    requires d2 >= 0
  {
    StepsFrom(0, d2, radius)
  }

  /** Steps is floor(dist / spacing): exactly the counts up to it fit. */
  lemma StepsIsFloor(d2: int, radius: int, k: nat)
    requires d2 >= 0
    ensures Fits(k, d2, radius) <==> k <= Steps(d2, radius)
  {
    var s := Steps(d2, radius);
    if k <= s {
      FitsMonotone(k, s, d2, radius);
    } else if Fits(k, d2, radius) {
      FitsMonotone(s + 1, k, d2, radius);
    }
  }

  /** Sample i of `steps` on the way from a to b: int(a + (i / steps) * (b - a)) per axis. */
  function Interpolate(a: Point, b: Point, i: int, steps: int): Point
    requires steps > 0
  {
    Point(TruncDiv(a.x * steps + i * (b.x - a.x), steps), TruncDiv(a.y * steps + i * (b.y - a.y), steps))
  }

  lemma InterpolateEnd(a: Point, b: Point, steps: int)
    requires steps > 0
    ensures Interpolate(a, b, steps, steps) == b
  {
    assert a.x * steps + steps * (b.x - a.x) == b.x * steps;
    assert a.y * steps + steps * (b.y - a.y) == b.y * steps;
    TruncDivExact(b.x, steps);
    TruncDivExact(b.y, steps);
  }

  /** Samples 1, ..., n of `steps` from a to b. */
  function Samples(a: Point, b: Point, n: nat, steps: int): (r: seq<Point>)
    requires steps > 0
    ensures |r| == n
  {
    if n == 0 then [] else Samples(a, b, n - 1, steps) + [Interpolate(a, b, n, steps)]
  }

  /**
   * What `add_point(x, y)` appends to a stroke holding `pts`: the point
   * itself for the first sample or a short move, otherwise `steps`
   * interpolated samples from the last point.
   */
  function Densify(pts: seq<Point>, radius: int, p: Point): seq<Point> {
    if pts == [] then [p]
    else
      var last := pts[|pts| - 1];
      var d2 := SqDist(last, p);
      if d2 > SPEED_THRESHOLD * SPEED_THRESHOLD then
        var steps := Steps(d2, radius);
        if steps == 0 then [] else Samples(last, p, steps, steps)
      else [p]
  }

  class Stroke {
    const color: Color
    const radius: int
    var points: seq<Point>

    /** `Stroke(color, radius)`: no points yet. */
    constructor (color: Color, radius: int)
      ensures this.color == color && this.radius == radius && points == []
    {
      this.color := color;
      this.radius := radius;
      points := [];
    }

    /** `add_point(x, y)`: appends `Densify(points, radius, (x, y))` and changes nothing else. */
    method AddPoint(x: int, y: int)
      modifies this
      ensures points == old(points) + Densify(old(points), radius, Point(x, y))
    {
      var p := Point(x, y);
      if points == [] {
        points := points + [p];
        return;
      }
      var last := points[|points| - 1];
      var dx, dy := x - last.x, y - last.y;
      var d2 := dx * dx + dy * dy;
      if d2 > SPEED_THRESHOLD * SPEED_THRESHOLD {
        var steps := Steps(d2, radius);
        ghost var before := points;
        var i := 1;
        while i <= steps
          invariant 1 <= i <= steps + 1
          invariant steps > 0 ==> points == before + Samples(last, p, i - 1, steps)
          invariant steps == 0 ==> points == before
        {
          points := points + [Interpolate(last, p, i, steps)];
          i := i + 1;
        }
      } else {
        points := points + [p];
      }
    }
  }

  /** The first sample of a stroke is kept as given. */
  lemma FirstPointKept(radius: int, p: Point)
    ensures Densify([], radius, p) == [p]
  {
  }

  /** A move of at most SPEED_THRESHOLD pixels appends exactly the new point. */
  lemma ShortMoveAppendsPoint(pts: seq<Point>, radius: int, p: Point)
    requires pts != [] && SqDist(pts[|pts| - 1], p) <= SPEED_THRESHOLD * SPEED_THRESHOLD
    ensures Densify(pts, radius, p) == [p]
  {
  }

  /**
   * A longer move appends exactly `steps` samples, where `steps` is the
   * largest count whose spacing fits into the move; when there is at least
   * one, the last of them is the new point itself (t = 1).
   */
  lemma LongMoveAppendsSteps(pts: seq<Point>, radius: int, p: Point)
    requires pts != [] && SqDist(pts[|pts| - 1], p) > SPEED_THRESHOLD * SPEED_THRESHOLD
    ensures var d2 := SqDist(pts[|pts| - 1], p);
            var r := Densify(pts, radius, p);
            |r| == Steps(d2, radius) && Fits(|r|, d2, radius) && !Fits(|r| + 1, d2, radius) &&
            (r != [] ==> r[|r| - 1] == p)
  {
    var last := pts[|pts| - 1];
    var steps := Steps(SqDist(last, p), radius);
    if steps > 0 {
      InterpolateEnd(last, p, steps);
    }
  }

  /** With radius 30 the spacing is 4.5, so a 4-pixel move appends nothing at all. */
  lemma WideBrushDropsShortMove()
    ensures Densify([Point(0, 0)], 30, Point(4, 0)) == []
  {
    assert !Fits(1, 16, 30);
  }

  /** Radius 10, from (0, 0) to (0, 10): spacing 1.5, six samples ending at the new point. */
  lemma RadiusTenExample()
    ensures Densify([Point(0, 0)], 10, Point(0, 10)) ==
            [Point(0, 1), Point(0, 3), Point(0, 5), Point(0, 6), Point(0, 8), Point(0, 10)]
  {
    assert Fits(6, 100, 10) && !Fits(7, 100, 10);
    assert StepsFrom(6, 100, 10) == 6;
    assert StepsFrom(5, 100, 10) == 6;
    assert StepsFrom(4, 100, 10) == 6;
    assert StepsFrom(3, 100, 10) == 6;
    assert StepsFrom(2, 100, 10) == 6;
    assert StepsFrom(1, 100, 10) == 6;
    assert Steps(100, 10) == 6;
  }
}
