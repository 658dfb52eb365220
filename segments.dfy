/**
 * Segment algorithms of the geometry library (modules/geo/geo.js):
 * segment-segment intersection, the intersections of two paths, the nearest
 * edge of a way to a point, and path length.
 */
module Segments {
  import opened Wrappers
  import opened Vector

  /** Two points: the ends of one edge of a path, or an argument of geoLineIntersection. */
  type Segment = (Point, Point)

  /** The number of segments of a path: one less than its length, and never negative. */
  function SegmentCount(path: seq<Point>): (n: nat)
    ensures n == 0 <==> |path| < 2
    ensures n > 0 ==> n + 1 == |path|
  {
    if |path| < 2 then 0 else |path| - 1
  }

  function SegmentAt(path: seq<Point>, i: nat): Segment
    requires i + 1 < |path|
  {
    (path[i], path[i + 1])
  }

  /** `pt` lies on the closed segment `seg`. */
  ghost predicate OnSegment(pt: Point, seg: Segment)
  {
    exists t :: 0.0 <= t <= 1.0 && pt == Interp(seg.0, seg.1, t)
  }

  /** The point at parameter `t` on `a` is the point at parameter `u` on `b`. */
  ghost predicate MeetAt(a: Segment, b: Segment, t: real, u: real)
  {
    Interp(a.0, a.1, t) == Interp(b.0, b.1, u)
  }

  /** The cross product of the directions of `a` and `b`; zero when they are parallel. */
  function Denominator(a: Segment, b: Segment): real
  {
    CrossProduct(Sub(a.1, a.0), Sub(b.1, b.0))
  }

  /**
   * geoLineIntersection, by the parametric cross-product method. With
   * p = a.0, r = a.1 - a.0, q = b.0, s = b.1 - b.0, the segments meet at
   * p + t r = q + u s. No point is reported when r x s = 0 (parallel or
   * collinear, even overlapping) or when (q - p) x r = 0 (q on the line
   * through a), and otherwise only when t and u are both in [0, 1].
   */
  function LineIntersection(a: Segment, b: Segment): (hit: Option<Point>)
    ensures Denominator(a, b) == 0.0 ==> hit == None
    ensures Cross(a.0, a.1, b.0) == 0.0 ==> hit == None
    ensures hit.Some? ==> OnSegment(hit.value, a) && OnSegment(hit.value, b)
  {
    var p, p2, q, q2 := a.0, a.1, b.0, b.1;
    var r, s := Sub(p2, p), Sub(q2, q);
    var uNumerator := CrossProduct(Sub(q, p), r);
    var denominator := CrossProduct(r, s);
    assert uNumerator == -Cross(p, p2, q);
    if uNumerator != 0.0 && denominator != 0.0 then
      var u := uNumerator / denominator;
      var t := CrossProduct(Sub(q, p), s) / denominator;
      if t >= 0.0 && t <= 1.0 && u >= 0.0 && u <= 1.0 then
        ParametersMeet(a, b);
        assert MeetAt(a, b, t, u);
        Some(Interp(p, p2, t))
      else
        None
    else
      None
  }

  /** The parameters geoLineIntersection computes locate the same point on both lines. */
  lemma ParametersMeet(a: Segment, b: Segment)
    requires Denominator(a, b) != 0.0
    ensures
      var r, s, w := Sub(a.1, a.0), Sub(b.1, b.0), Sub(b.0, a.0);
      MeetAt(a, b, CrossProduct(w, s) / Denominator(a, b), CrossProduct(w, r) / Denominator(a, b))
  {
    var r, s, w := Sub(a.1, a.0), Sub(b.1, b.0), Sub(b.0, a.0);
    var den := Denominator(a, b);
    var t, u := CrossProduct(w, s) / den, CrossProduct(w, r) / den;
    Decompose(r.x, r.y, s.x, s.y, w.x, w.y, den);
    MeetFromDifference(a, b, t, u);
  }

  /** Two lines meet at parameters t and u when b.0 - a.0 = t r - u s. */
  lemma MeetFromDifference(a: Segment, b: Segment, t: real, u: real)
    requires
      var r, s, w := Sub(a.1, a.0), Sub(b.1, b.0), Sub(b.0, a.0);
      w.x == t * r.x - u * s.x && w.y == t * r.y - u * s.y
    ensures MeetAt(a, b, t, u)
  {
  }

  /** When two lines meet at parameters t and u, b.0 - a.0 = t r - u s. */
  lemma DifferenceFromMeet(a: Segment, b: Segment, t: real, u: real)
    requires MeetAt(a, b, t, u)
    ensures
      var r, s, w := Sub(a.1, a.0), Sub(b.1, b.0), Sub(b.0, a.0);
      w.x == t * r.x - u * s.x && w.y == t * r.y - u * s.y
  {
    assert Interp(a.0, a.1, t).x == Interp(b.0, b.1, u).x;
    assert Interp(a.0, a.1, t).y == Interp(b.0, b.1, u).y;
  }

  /**
   * Any plane vector w is (w x s / r x s) r - (w x r / r x s) s when r and s
   * are not parallel.
   */
  lemma Decompose(rx: real, ry: real, sx: real, sy: real, wx: real, wy: real, den: real)
    requires den == rx * sy - ry * sx && den != 0.0
    ensures (wx * sy - wy * sx) / den * rx - (wx * ry - wy * rx) / den * sx == wx
    ensures (wx * sy - wy * sx) / den * ry - (wx * ry - wy * rx) / den * sy == wy
  {
    var tN, uN := wx * sy - wy * sx, wx * ry - wy * rx;
    assert tN * rx - uN * sx == wx * den;
    assert tN * ry - uN * sy == wy * den;
    var t, u := tN / den, uN / den;
    assert t * den == tN && u * den == uN;
    assert (t * rx - u * sx) * den == tN * rx - uN * sx;
    assert (t * ry - u * sy) * den == tN * ry - uN * sy;
    Cancel(t * rx - u * sx, wx, den);
    Cancel(t * ry - u * sy, wy, den);
  }

  /**
   * When the segments are not parallel and meet at parameters t in [0, 1] and
   * u in (0, 1], geoLineIntersection reports that meeting point.
   */
  lemma LineIntersectionFindsCrossing(a: Segment, b: Segment, t: real, u: real)
    requires Denominator(a, b) != 0.0
    requires 0.0 <= t <= 1.0 && 0.0 < u <= 1.0
    requires MeetAt(a, b, t, u)
    ensures LineIntersection(a, b) == Some(Interp(a.0, a.1, t))
  {
    MeetingParameters(a, b, t, u);
    LineIntersectionReports(a, b);
  }

  /** A meeting point determines the parameters geoLineIntersection computes. */
  lemma MeetingParameters(a: Segment, b: Segment, t: real, u: real)
    requires Denominator(a, b) != 0.0 && u != 0.0
    requires MeetAt(a, b, t, u)
    ensures CrossProduct(Sub(b.0, a.0), Sub(b.1, b.0)) / Denominator(a, b) == t
    ensures CrossProduct(Sub(b.0, a.0), Sub(a.1, a.0)) / Denominator(a, b) == u
    ensures CrossProduct(Sub(b.0, a.0), Sub(a.1, a.0)) != 0.0
  {
    var r, s, w := Sub(a.1, a.0), Sub(b.1, b.0), Sub(b.0, a.0);
    var den := Denominator(a, b);
    DifferenceFromMeet(a, b, t, u);
    Parameters(r, s, w, t, u, den);
    ProductNonZero(u, den);
  }

  /** The branch of geoLineIntersection that reports a point. */
  lemma LineIntersectionReports(a: Segment, b: Segment)
    requires Denominator(a, b) != 0.0
    requires CrossProduct(Sub(b.0, a.0), Sub(a.1, a.0)) != 0.0
    requires
      var t := CrossProduct(Sub(b.0, a.0), Sub(b.1, b.0)) / Denominator(a, b);
      var u := CrossProduct(Sub(b.0, a.0), Sub(a.1, a.0)) / Denominator(a, b);
      0.0 <= t <= 1.0 && 0.0 <= u <= 1.0
    ensures
      var t := CrossProduct(Sub(b.0, a.0), Sub(b.1, b.0)) / Denominator(a, b);
      LineIntersection(a, b) == Some(Interp(a.0, a.1, t))
  {
  }

  lemma ProductNonZero(a: real, b: real)
    requires a != 0.0 && b != 0.0
    ensures a * b != 0.0
  {
    if a * b == 0.0 {
      ProductZero(a, b);
    }
  }

  /** If w = t r - u s then w x s = t (r x s) and w x r = u (r x s). */
  lemma Parameters(r: Point, s: Point, w: Point, t: real, u: real, den: real)
    requires den == CrossProduct(r, s) && den != 0.0
    requires w.x == t * r.x - u * s.x && w.y == t * r.y - u * s.y
    ensures CrossProduct(w, s) == t * den && CrossProduct(w, s) / den == t
    ensures CrossProduct(w, r) == u * den && CrossProduct(w, r) / den == u
  {
    assert CrossProduct(w, s) == (t * r.x - u * s.x) * s.y - (t * r.y - u * s.y) * s.x;
    assert CrossProduct(w, r) == (t * r.x - u * s.x) * r.y - (t * r.y - u * s.y) * r.x;
  }

  /**
   * geoLineIntersection exactly: a point is reported if and only if the
   * segments are not parallel and meet at parameters t in [0, 1] on `a` and
   * u in (0, 1] on `b`; a meeting at b's start point (u = 0) is not reported.
   */
  lemma LineIntersectionExact(a: Segment, b: Segment)
    ensures LineIntersection(a, b).Some? <==>
      Denominator(a, b) != 0.0 &&
      exists t, u :: 0.0 <= t <= 1.0 && 0.0 < u <= 1.0 && MeetAt(a, b, t, u)
    ensures LineIntersection(a, b).Some? ==>
      exists t :: 0.0 <= t <= 1.0 && LineIntersection(a, b).value == Interp(a.0, a.1, t)
  {
    var r, s, w := Sub(a.1, a.0), Sub(b.1, b.0), Sub(b.0, a.0);
    var den := Denominator(a, b);
    if LineIntersection(a, b).Some? {
      var t, u := CrossProduct(w, s) / den, CrossProduct(w, r) / den;
      ParametersMeet(a, b);
      assert CrossProduct(w, r) != 0.0;
      assert u * den == CrossProduct(w, r);
      assert u != 0.0;
      assert MeetAt(a, b, t, u);
    }
    if den != 0.0 && exists t, u :: 0.0 <= t <= 1.0 && 0.0 < u <= 1.0 && MeetAt(a, b, t, u) {
      var t, u :| 0.0 <= t <= 1.0 && 0.0 < u <= 1.0 && MeetAt(a, b, t, u);
      LineIntersectionFindsCrossing(a, b, t, u);
    }
  }

  /** A meeting at b's start point is never reported, whatever the parameter on `a`. */
  lemma StartOfBNotReported(a: Segment, b: Segment, t: real)
    requires b.0 == Interp(a.0, a.1, t)
    ensures LineIntersection(a, b) == None
  {
    assert Cross(a.0, a.1, b.0) == 0.0;
  }

  // geoPathIntersections

  /** What one segment pair adds to the list: its reported intersection, if any. */
  function HitList(hit: Option<Point>): seq<Point>
  {
    if hit.Some? then [hit.value] else []
  }

  /** The intersections of segment `a` with the first `m` segments of `path2`, in order. */
  function RowHits(a: Segment, path2: seq<Point>, m: nat): (hits: seq<Point>)
    requires m <= SegmentCount(path2)
    ensures |hits| <= m
  {
    if m == 0 then []
    else RowHits(a, path2, m - 1) + HitList(LineIntersection(a, SegmentAt(path2, m - 1)))
  }

  /**
   * The intersections of the first `n` segments of `path1` with every segment
   * of `path2`: ordered by the segment of `path1` first and of `path2` second,
   * with no deduplication.
   */
  function PathHits(path1: seq<Point>, path2: seq<Point>, n: nat): seq<Point>
    requires n <= SegmentCount(path1)
  {
    if n == 0 then []
    else PathHits(path1, path2, n - 1) + RowHits(SegmentAt(path1, n - 1), path2, SegmentCount(path2))
  }

  /** At most one point per segment pair: (segments of path1 covered) x (segments of path2). */
  lemma {:induction false} PathHitsBound(path1: seq<Point>, path2: seq<Point>, n: nat)
    requires n <= SegmentCount(path1)
    ensures |PathHits(path1, path2, n)| <= n * SegmentCount(path2)
  {
    if n > 0 {
      var m := SegmentCount(path2);
      PathHitsBound(path1, path2, n - 1);
      PathHitsStep(path1, path2, n - 1);
      OneMoreRow(n, m);
    }
  }

  lemma OneMoreRow(n: nat, m: nat)
    requires n > 0
    ensures (n - 1) * m + m == n * m
  {
  }

  /** Segment `i` of `path1` and segment `j` of `path2` intersect at `x`. */
  ghost predicate HitBetween(path1: seq<Point>, path2: seq<Point>, i: int, j: int, x: Point)
  {
    0 <= i && i + 1 < |path1| && 0 <= j && j + 1 < |path2| &&
    LineIntersection(SegmentAt(path1, i), SegmentAt(path2, j)) == Some(x)
  }

  /** geoPathIntersections: the loops push exactly the hits of PathHits. */
  method PathIntersections(path1: seq<Point>, path2: seq<Point>) returns (intersections: seq<Point>)
    ensures intersections == PathHits(path1, path2, SegmentCount(path1))
  {
    intersections := [];
    var i := 0;
    while i < |path1| - 1
      invariant 0 <= i <= SegmentCount(path1)
      invariant intersections == PathHits(path1, path2, i)
    {
      var row := RowIntersections((path1[i], path1[i + 1]), path2);
      intersections := intersections + row;
      PathHitsStep(path1, path2, i);
      i := i + 1;
    }
  }

  /** The inner loop of geoPathIntersections: one segment of `path1` against every segment of `path2`. */
  method RowIntersections(a: Segment, path2: seq<Point>) returns (row: seq<Point>)
    ensures row == RowHits(a, path2, SegmentCount(path2))
  {
    row := [];
    var j := 0;
    while j < |path2| - 1
      invariant 0 <= j <= SegmentCount(path2)
      invariant row == RowHits(a, path2, j)
    {
      var hit := LineIntersection(a, (path2[j], path2[j + 1]));
      if hit.Some? {
        row := row + [hit.value];
      }
      RowHitsStep(a, path2, j);
      j := j + 1;
    }
  }

  /** One more segment of `path2` appends its reported intersection, if any. */
  lemma RowHitsStep(a: Segment, path2: seq<Point>, j: nat)
    requires j < SegmentCount(path2)
    ensures RowHits(a, path2, j + 1) == RowHits(a, path2, j) + HitList(LineIntersection(a, (path2[j], path2[j + 1])))
  {
  }

  /** One more segment of `path1` appends its row of intersections. */
  lemma PathHitsStep(path1: seq<Point>, path2: seq<Point>, i: nat)
    requires i < SegmentCount(path1)
    ensures PathHits(path1, path2, i + 1) == PathHits(path1, path2, i) + RowHits(SegmentAt(path1, i), path2, SegmentCount(path2))
  {
  }

  lemma {:induction false} RowHitsMember(path1: seq<Point>, path2: seq<Point>, i: nat, m: nat, x: Point)
    requires i + 1 < |path1| && m <= SegmentCount(path2)
    ensures x in RowHits(SegmentAt(path1, i), path2, m) <==> exists j :: 0 <= j < m && HitBetween(path1, path2, i, j, x)
  {
    if m > 0 {
      RowHitsMember(path1, path2, i, m - 1, x);
      if HitBetween(path1, path2, i, m - 1, x) {
        assert x in HitList(LineIntersection(SegmentAt(path1, i), SegmentAt(path2, m - 1)));
      }
    }
  }

  /**
   * Every element of PathHits is the reported intersection of some segment
   * pair, and every reported intersection of the segments it covers is in it.
   */
  lemma {:induction false} PathHitsMember(path1: seq<Point>, path2: seq<Point>, n: nat, x: Point)
    requires n <= SegmentCount(path1)
    ensures x in PathHits(path1, path2, n) <==> exists i, j :: 0 <= i < n && HitBetween(path1, path2, i, j, x)
  {
    if x in PathHits(path1, path2, n) {
      var i, j := PathHitFound(path1, path2, n, x);
    }
    if exists i, j :: 0 <= i < n && HitBetween(path1, path2, i, j, x) {
      var i, j :| 0 <= i < n && HitBetween(path1, path2, i, j, x);
      RowHitKept(path1, path2, i, SegmentCount(path2), j, x);
      PathHitKept(path1, path2, n, i, x);
    }
  }

  /** Every element of PathHits comes from a segment pair. */
  lemma {:induction false} PathHitFound(path1: seq<Point>, path2: seq<Point>, n: nat, x: Point) returns (i: nat, j: nat)
    requires n <= SegmentCount(path1) && x in PathHits(path1, path2, n)
    ensures i < n && HitBetween(path1, path2, i, j, x)
  {
    PathHitsStep(path1, path2, n - 1);
    if x in PathHits(path1, path2, n - 1) {
      i, j := PathHitFound(path1, path2, n - 1, x);
    } else {
      RowHitsMember(path1, path2, n - 1, SegmentCount(path2), x);
      i := n - 1;
      j :| 0 <= j < SegmentCount(path2) && HitBetween(path1, path2, i, j, x);
    }
  }

  /** The row of every covered segment of `path1` is kept in PathHits. */
  lemma {:induction false} PathHitKept(path1: seq<Point>, path2: seq<Point>, n: nat, i: nat, x: Point)
    requires n <= SegmentCount(path1) && i < n
    requires x in RowHits(SegmentAt(path1, i), path2, SegmentCount(path2))
    ensures x in PathHits(path1, path2, n)
  {
    var before, row := PathHits(path1, path2, n - 1), RowHits(SegmentAt(path1, n - 1), path2, SegmentCount(path2));
    PathHitsStep(path1, path2, n - 1);
    if i < n - 1 {
      PathHitKept(path1, path2, n - 1, i, x);
      assert x in before;
    } else {
      assert x in row;
    }
  }

  /** The reported intersection of segment `i` with each of the first `m` segments of `path2` is in its row. */
  lemma {:induction false} RowHitKept(path1: seq<Point>, path2: seq<Point>, i: nat, m: nat, j: nat, x: Point)
    requires i + 1 < |path1| && m <= SegmentCount(path2) && j < m && HitBetween(path1, path2, i, j, x)
    ensures x in RowHits(SegmentAt(path1, i), path2, m)
  {
    RowHitsStep(SegmentAt(path1, i), path2, m - 1);
    if j < m - 1 {
      RowHitKept(path1, path2, i, m - 1, j, x);
    }
  }

  /** geoPathIntersections is empty when either path has fewer than two points. */
  lemma PathHitsEmpty(path1: seq<Point>, path2: seq<Point>)
    requires |path1| < 2 || |path2| < 2
    ensures PathHits(path1, path2, SegmentCount(path1)) == []
  {
    PathHitsBound(path1, path2, SegmentCount(path1));
  }

  /** The hits of earlier segments of `path1` come before those of later ones. */
  lemma {:induction false} PathHitsPrefix(path1: seq<Point>, path2: seq<Point>, n: nat, n': nat)
    requires n <= n' <= SegmentCount(path1)
    ensures PathHits(path1, path2, n) <= PathHits(path1, path2, n')
  {
    if n < n' {
      PathHitsPrefix(path1, path2, n, n' - 1);
    }
  }

  // geoChooseEdge

  /** A node of a way: all geoChooseEdge reads of it is its location. */
  datatype Node = Node(loc: Point)

  /** The result of geoChooseEdge when some edge was chosen. */
  datatype EdgeChoice = EdgeChoice(index: nat, loc: Point, distance: real)

  /** A segment of zero length: geoChooseEdge's division by its squared length gives NaN. */
  predicate Degenerate(o: Point, e: Point)
  {
    Dot(Sub(e, o), Sub(e, o)) == 0.0
  }

  lemma DegenerateIsZeroLength(o: Point, e: Point)
    ensures Degenerate(o, e) <==> o == e
  {
    assert Dot(Sub(e, o), Sub(e, o)) == SquaredDistance(e, o);
  }

  lemma SquaredLengthPositive(o: Point, e: Point)
    requires !Degenerate(o, e)
    ensures Dot(Sub(e, o), Sub(e, o)) > 0.0
  {
    var s := Sub(e, o);
    SquareNonNegative(s.x);
    SquareNonNegative(s.y);
  }

  /** The scalar projection of `point` onto the segment, clamped to [0, 1]. */
  function ClampedParameter(o: Point, e: Point, point: Point): (c: real)
    requires !Degenerate(o, e)
    ensures 0.0 <= c <= 1.0
  {
    var s, v := Sub(e, o), Sub(point, o);
    var proj := Dot(v, s) / Dot(s, s);
    if proj < 0.0 then 0.0 else if proj > 1.0 then 1.0 else proj
  }

  /** The clamped parameter is `c` in [0, 1] when the projection's dot products are in ratio `c`. */
  lemma ClampedParameterWithin(o: Point, e: Point, point: Point, c: real)
    requires !Degenerate(o, e) && 0.0 <= c <= 1.0
    requires Dot(Sub(point, o), Sub(e, o)) == c * Dot(Sub(e, o), Sub(e, o))
    ensures ClampedParameter(o, e, point) == c
  {
    SquaredLengthPositive(o, e);
    var S, V := Dot(Sub(e, o), Sub(e, o)), Dot(Sub(point, o), Sub(e, o));
    assert V / S == c;
  }

  /** The clamped parameter is 1 when the projection falls beyond `e`. */
  lemma ClampedParameterBeyond(o: Point, e: Point, point: Point)
    requires !Degenerate(o, e)
    requires Dot(Sub(point, o), Sub(e, o)) > Dot(Sub(e, o), Sub(e, o))
    ensures ClampedParameter(o, e, point) == 1.0
  {
    SquaredLengthPositive(o, e);
    var S, V := Dot(Sub(e, o), Sub(e, o)), Dot(Sub(point, o), Sub(e, o));
    var q := V / S;
    assert q * S == V;
    if q <= 1.0 {
      MulNonNegative(1.0 - q, S);
    }
  }

  /**
   * The point geoChooseEdge measures `point` against on the segment from `o`
   * to `e`: its orthogonal projection, or the nearer end when the projection
   * falls outside. It is the segment's point at the clamped parameter.
   */
  function ClampedProjection(o: Point, e: Point, point: Point): (p: Point)
    requires !Degenerate(o, e)
    ensures p == Interp(o, e, ClampedParameter(o, e, point))
    ensures OnSegment(p, (o, e))
  {
    var s, v := Sub(e, o), Sub(point, o);
    var proj := Dot(v, s) / Dot(s, s);
    if proj < 0.0 then o
    else if proj > 1.0 then e
    else Point(o.x + proj * s.x, o.y + proj * s.y)
  }

  /** The distance geoChooseEdge computes for one segment. */
  function SegmentDistance(sqrt: real -> real, o: Point, e: Point, point: Point): (d: real)
    requires IsSqrt(sqrt) && !Degenerate(o, e)
    ensures d >= 0.0
  {
    EuclideanDistance(sqrt, ClampedProjection(o, e, point), point)
  }

  /** The clamped projection is the point of the segment nearest to `point`. */
  lemma ClampedProjectionIsNearest(o: Point, e: Point, point: Point, t: real)
    requires !Degenerate(o, e) && 0.0 <= t <= 1.0
    ensures SquaredDistance(ClampedProjection(o, e, point), point) <= SquaredDistance(Interp(o, e, t), point)
  {
    var s, v := Sub(e, o), Sub(point, o);
    var c := ClampedParameter(o, e, point);
    var S, V, W := Dot(s, s), Dot(v, s), Dot(v, v);
    ClampedIsMinimal(o, e, point, t);
    assert (t - c) * (S * (t + c) - 2.0 * V) >= 0.0;
    CompareQuadratics(S, V, W, t, c);
    QuadraticDistance(o, e, point, t);
    QuadraticDistance(o, e, point, c);
    assert ClampedProjection(o, e, point) == Interp(o, e, c);
  }

  /** The clamped parameter minimises the quadratic part of the squared distance over [0, 1]. */
  lemma ClampedIsMinimal(o: Point, e: Point, point: Point, t: real)
    requires !Degenerate(o, e) && 0.0 <= t <= 1.0
    ensures
      var s, v := Sub(e, o), Sub(point, o);
      var c := ClampedParameter(o, e, point);
      (t - c) * (Dot(s, s) * (t + c) - 2.0 * Dot(v, s)) >= 0.0
  {
    SquaredLengthPositive(o, e);
    var s, v := Sub(e, o), Sub(point, o);
    ClampedIsMinimum(Dot(s, s), Dot(v, s), t, ClampedParameter(o, e, point));
  }

  /** On [0, 1], S t^2 - 2 V t is least at t = V / S clamped to [0, 1]. */
  lemma ClampedIsMinimum(S: real, V: real, t: real, c: real)
    requires S > 0.0 && 0.0 <= t <= 1.0
    requires c == (if V / S < 0.0 then 0.0 else if V / S > 1.0 then 1.0 else V / S)
    ensures (t - c) * (S * (t + c) - 2.0 * V) >= 0.0
  {
    if V / S < 0.0 {
      NegativeProjection(S, V);
      MulNonNegative(S, t);
      MulNonNegative(t, S * t - 2.0 * V);
    } else if V / S > 1.0 {
      BeyondProjection(S, V, t);
      MulNonNegative(1.0 - t, 2.0 * V - S * (t + 1.0));
      assert (t - 1.0) * (S * (t + 1.0) - 2.0 * V) == (1.0 - t) * (2.0 * V - S * (t + 1.0));
    } else {
      InteriorProjection(S, V, t, c);
    }
  }

  /** S t^2 - 2 V t + W. */
  function Quadratic(S: real, V: real, W: real, t: real): real
  {
    S * t * t - 2.0 * V * t + W
  }

  lemma CompareQuadratics(S: real, V: real, W: real, t: real, c: real)
    requires (t - c) * (S * (t + c) - 2.0 * V) >= 0.0
    ensures Quadratic(S, V, W, c) <= Quadratic(S, V, W, t)
  {
    assert (S * t * t - 2.0 * V * t) - (S * c * c - 2.0 * V * c) == (t - c) * (S * (t + c) - 2.0 * V);
  }

  /** The squared distance to the segment's point at `t`, as a quadratic in `t`. */
  lemma QuadraticDistance(o: Point, e: Point, point: Point, t: real)
    ensures
      var s, v := Sub(e, o), Sub(point, o);
      SquaredDistance(Interp(o, e, t), point) == Quadratic(Dot(s, s), Dot(v, s), Dot(v, v), t)
  {
    var s, v := Sub(e, o), Sub(point, o);
    var q := Interp(o, e, t);
    var dx, dy := q.x - point.x, q.y - point.y;
    assert SquaredDistance(q, point) == dx * dx + dy * dy;
    assert dx == s.x * t - v.x && dy == s.y * t - v.y;
    ExpandSquares(s, v, t);
  }

  lemma ExpandSquares(s: Point, v: Point, t: real)
    ensures (s.x * t - v.x) * (s.x * t - v.x) + (s.y * t - v.y) * (s.y * t - v.y)
         == Dot(s, s) * t * t - 2.0 * Dot(v, s) * t + Dot(v, v)
  {
  }

  lemma NegativeProjection(S: real, V: real)
    requires S > 0.0 && V / S < 0.0
    ensures V < 0.0
  {
  }

  /** With V / S > 1 and t <= 1: S (t + 1) <= 2 S < 2 V. */
  lemma BeyondProjection(S: real, V: real, t: real)
    requires S > 0.0 && V / S > 1.0 && 0.0 <= t <= 1.0
    ensures 2.0 * V - S * (t + 1.0) >= 0.0
  {
    assert V > S;
    MulNonNegative(S, 1.0 - t);
  }

  lemma InteriorProjection(S: real, V: real, t: real, c: real)
    requires S > 0.0 && c == V / S
    ensures (t - c) * (S * (t + c) - 2.0 * V) >= 0.0
  {
    assert S * c == V;
    assert (t - c) * (S * (t + c) - 2.0 * V) == S * ((t - c) * (t - c));
    SquareNonNegative(t - c);
    MulNonNegative(S, (t - c) * (t - c));
  }

  /** The distance geoChooseEdge computes for a segment is the distance to the segment. */
  lemma SegmentDistanceIsMinimal(sqrt: real -> real, o: Point, e: Point, point: Point, t: real)
    requires IsSqrt(sqrt) && !Degenerate(o, e) && 0.0 <= t <= 1.0
    ensures SegmentDistance(sqrt, o, e, point) <= EuclideanDistance(sqrt, Interp(o, e, t), point)
  {
    ClampedProjectionIsNearest(o, e, point, t);
    EuclideanDistanceMonotonic(sqrt, ClampedProjection(o, e, point), point, Interp(o, e, t), point);
  }

  /** A bound on the distances geoChooseEdge computes bounds the distance to every point of every edge. */
  lemma NearestOverAll(sqrt: real -> real, points: seq<Point>, point: Point, dist: real)
    requires IsSqrt(sqrt) && AtMostAll(sqrt, points, point, dist, SegmentCount(points))
    ensures forall i :: 0 <= i && i + 1 < |points| && !Degenerate(points[i], points[i + 1]) ==>
      AtMostOnSegment(sqrt, SegmentAt(points, i), point, dist)
  {
    forall i | 0 <= i && i + 1 < |points| && !Degenerate(points[i], points[i + 1])
      ensures AtMostOnSegment(sqrt, SegmentAt(points, i), point, dist)
    {
      var seg := SegmentAt(points, i);
      forall t | 0.0 <= t <= 1.0
        ensures dist <= EuclideanDistance(sqrt, Interp(seg.0, seg.1, t), point)
      {
        SegmentDistanceIsMinimal(sqrt, seg.0, seg.1, point, t);
      }
    }
  }

  /** The nodes' locations under `projection`, in order. */
  function Projected(nodes: seq<Node>, projection: Point -> Point): (points: seq<Point>)
    ensures |points| == |nodes|
    ensures forall i :: 0 <= i < |nodes| ==> points[i] == projection(nodes[i].loc)
  {
    seq(|nodes|, i requires 0 <= i < |nodes| => projection(nodes[i].loc))
  }

  /**
   * `choice` is what geoChooseEdge reports for edge `choice.index`: the
   * segment from `points[index - 1]` to `points[index]`, the distance to its
   * clamped projection, and that projection mapped back by `invert`.
   */
  ghost predicate ChoiceOf(points: seq<Point>, point: Point, invert: Point -> Point, sqrt: real -> real, choice: EdgeChoice)
    requires IsSqrt(sqrt)
  {
    var k := choice.index;
    1 <= k < |points| && !Degenerate(points[k - 1], points[k]) &&
    choice.distance == SegmentDistance(sqrt, points[k - 1], points[k], point) &&
    choice.loc == invert(ClampedProjection(points[k - 1], points[k], point))
  }

  /** No segment among the first `n` of `points` has positive length. */
  ghost predicate AllDegenerate(points: seq<Point>, n: nat)
    requires n <= SegmentCount(points)
  {
    forall k :: 0 <= k < n ==> Degenerate(points[k], points[k + 1])
  }

  /** `dist` is at most the distance of `point` to each of the first `n` segments of positive length. */
  ghost predicate AtMostAll(sqrt: real -> real, points: seq<Point>, point: Point, dist: real, n: nat)
    requires IsSqrt(sqrt) && n <= SegmentCount(points)
  {
    forall k :: 0 <= k < n && !Degenerate(points[k], points[k + 1]) ==>
      dist <= SegmentDistance(sqrt, points[k], points[k + 1], point)
  }

  /** `dist` is below the distance of `point` to each of the first `n` segments of positive length. */
  ghost predicate BelowAll(sqrt: real -> real, points: seq<Point>, point: Point, dist: real, n: nat)
    requires IsSqrt(sqrt) && n <= SegmentCount(points)
  {
    forall k :: 0 <= k < n && !Degenerate(points[k], points[k + 1]) ==>
      dist < SegmentDistance(sqrt, points[k], points[k + 1], point)
  }

  /** `dist` is at most the distance of `point` to every point of `seg`. */
  ghost predicate AtMostOnSegment(sqrt: real -> real, seg: Segment, point: Point, dist: real)
    requires IsSqrt(sqrt)
  {
    forall t :: 0.0 <= t <= 1.0 ==> dist <= EuclideanDistance(sqrt, Interp(seg.0, seg.1, t), point)
  }

  lemma AllDegenerateStep(points: seq<Point>, n: nat)
    requires n < SegmentCount(points)
    requires Degenerate(points[n], points[n + 1])
    ensures AllDegenerate(points, n + 1) <==> AllDegenerate(points, n)
  {
  }

  lemma NotAllDegenerate(points: seq<Point>, n: nat)
    requires n < SegmentCount(points)
    requires !Degenerate(points[n], points[n + 1])
    ensures !AllDegenerate(points, n + 1)
  {
  }

  lemma AtMostAllStep(sqrt: real -> real, points: seq<Point>, point: Point, dist: real, n: nat)
    requires IsSqrt(sqrt) && n < SegmentCount(points)
    requires AtMostAll(sqrt, points, point, dist, n)
    requires !Degenerate(points[n], points[n + 1]) ==> dist <= SegmentDistance(sqrt, points[n], points[n + 1], point)
    ensures AtMostAll(sqrt, points, point, dist, n + 1)
  {
  }

  lemma AtMostAllLower(sqrt: real -> real, points: seq<Point>, point: Point, dist: real, dist': real, n: nat)
    requires IsSqrt(sqrt) && n <= SegmentCount(points)
    requires AtMostAll(sqrt, points, point, dist, n) && dist' < dist
    ensures BelowAll(sqrt, points, point, dist', n)
    ensures AtMostAll(sqrt, points, point, dist', n)
  {
  }

  /**
   * The body of geoChooseEdge's loop for one edge of positive length: the
   * clamped projection of `point` and its distance from `point`.
   */
  method MeasureEdge(o: Point, e: Point, point: Point, sqrt: real -> real) returns (p: Point, d: real)
    requires IsSqrt(sqrt) && !Degenerate(o, e)
    ensures p == ClampedProjection(o, e, point) && OnSegment(p, (o, e))
    ensures d == SegmentDistance(sqrt, o, e, point) && d == EuclideanDistance(sqrt, p, point)
  {
    var s, v := Sub(e, o), Sub(point, o);
    var proj := Dot(v, s) / Dot(s, s);
    if proj < 0.0 {
      p := o;
    } else if proj > 1.0 {
      p := e;
    } else {
      p := Point(o.x + proj * s.x, o.y + proj * s.y);
    }
    d := EuclideanDistance(sqrt, p, point);
  }

  /**
   * What geoChooseEdge reports for `points`: None (index undefined, distance
   * Infinity) exactly when no edge has positive length; otherwise an edge of
   * positive length whose distance is at most that of every edge of positive
   * length, below that of every earlier edge of positive length (the first
   * minimum wins), and at most the distance from `point` to any point of any
   * edge of positive length.
   */
  ghost predicate ChoosesEdge(points: seq<Point>, point: Point, invert: Point -> Point, sqrt: real -> real, choice: Option<EdgeChoice>)
    requires IsSqrt(sqrt)
  {
    (choice == None <==> AllDegenerate(points, SegmentCount(points))) &&
    (choice.Some? ==>
      ChoiceOf(points, point, invert, sqrt, choice.value) &&
      AtMostAll(sqrt, points, point, choice.value.distance, SegmentCount(points)) &&
      BelowAll(sqrt, points, point, choice.value.distance, choice.value.index - 1) &&
      forall i :: 0 <= i && i + 1 < |points| && !Degenerate(points[i], points[i + 1]) ==>
        AtMostOnSegment(sqrt, SegmentAt(points, i), point, choice.value.distance))
  }

  /** With fewer than two points there is no edge to choose. */
  lemma ChoosesNoEdge(points: seq<Point>, point: Point, invert: Point -> Point, sqrt: real -> real, choice: Option<EdgeChoice>)
    requires IsSqrt(sqrt) && |points| < 2 && ChoosesEdge(points, point, invert, sqrt, choice)
    ensures choice == None
  {
  }

  /**
   * geoChooseEdge: the edge of the way whose clamped projection is nearest to
   * `point`, the earliest one on a tie. Zero-length edges are skipped, as the
   * library's NaN distance for them never compares below the minimum.
   */
  method ChooseEdge(nodes: seq<Node>, point: Point, projection: Point -> Point, invert: Point -> Point, sqrt: real -> real)
    returns (choice: Option<EdgeChoice>)
    requires IsSqrt(sqrt)
    ensures |nodes| < 2 ==> choice == None
    ensures ChoosesEdge(Projected(nodes, projection), point, invert, sqrt, choice)
  {
    var points := Projected(nodes, projection);
    choice := NearestEdge(points, point, invert, sqrt);
    if |nodes| < 2 {
      ChoosesNoEdge(points, point, invert, sqrt, choice);
    }
  }

  /** The loop of geoChooseEdge over the projected points. */
  method NearestEdge(points: seq<Point>, point: Point, invert: Point -> Point, sqrt: real -> real)
    returns (choice: Option<EdgeChoice>)
    requires IsSqrt(sqrt)
    ensures ChoosesEdge(points, point, invert, sqrt, choice)
  {
    choice := None;
    var i := 0;
    while i < |points| - 1
      invariant 0 <= i <= SegmentCount(points)
      invariant choice == None <==> AllDegenerate(points, i)
      invariant choice.Some? ==> ChoiceOf(points, point, invert, sqrt, choice.value) && choice.value.index <= i
      invariant choice.Some? ==> AtMostAll(sqrt, points, point, choice.value.distance, i)
      invariant choice.Some? ==> BelowAll(sqrt, points, point, choice.value.distance, choice.value.index - 1)
    {
      var o, e := points[i], points[i + 1];
      var s := Sub(e, o);
      if Dot(s, s) != 0.0 {
        var p, d := MeasureEdge(o, e, point, sqrt);
        if choice == None || d < choice.value.distance {
          if choice.Some? {
            AtMostAllLower(sqrt, points, point, choice.value.distance, d, i);
          }
          choice := Some(EdgeChoice(i + 1, invert(p), d));
        }
        NotAllDegenerate(points, i);
      } else {
        AllDegenerateStep(points, i);
      }
      if choice.Some? {
        AtMostAllStep(sqrt, points, point, choice.value.distance, i);
      }
      i := i + 1;
    }
    if choice.Some? {
      NearestOverAll(sqrt, points, point, choice.value.distance);
    }
  }

  // geoPathLength

  /** The sum of the lengths of the segments of `path`, taken from the first. */
  function Length(sqrt: real -> real, path: seq<Point>): (len: real)
    requires IsSqrt(sqrt)
    ensures len >= 0.0
    decreases |path|
  {
    if |path| < 2 then 0.0
    else Length(sqrt, path[..|path| - 1]) + EuclideanDistance(sqrt, path[|path| - 2], path[|path| - 1])
  }

  /** Path length is additive: splitting a path at a vertex splits its length. */
  lemma {:induction false} LengthSplit(sqrt: real -> real, path: seq<Point>, k: nat)
    requires IsSqrt(sqrt) && k < |path|
    ensures Length(sqrt, path[..k + 1]) + Length(sqrt, path[k..]) == Length(sqrt, path)
    decreases |path|
  {
    var n := |path|;
    if k == n - 1 {
      assert path[..k + 1] == path;
    } else {
      var init, tail := path[..n - 1], path[k..];
      LengthSplit(sqrt, init, k);
      assert init[..k + 1] == path[..k + 1];
      assert tail[..|tail| - 1] == init[k..];
      assert tail[|tail| - 2] == path[n - 2] && tail[|tail| - 1] == path[n - 1];
    }
  }

  /** geoPathLength: the loop accumulates Length segment by segment. */
  method PathLength(sqrt: real -> real, path: seq<Point>) returns (length: real)
    requires IsSqrt(sqrt)
    ensures length == Length(sqrt, path)
  {
    length := 0.0;
    var i := 0;
    while i < |path| - 1
      invariant 0 <= i <= SegmentCount(path)
      invariant |path| > 0 ==> length == Length(sqrt, path[..i + 1])
      invariant |path| == 0 ==> length == 0.0
    {
      length := length + EuclideanDistance(sqrt, path[i], path[i + 1]);
      assert path[..i + 2][..i + 1] == path[..i + 1];
      i := i + 1;
    }
    if |path| > 0 {
      assert path[..i + 1] == path;
    }
  }
}
