/**
 * Concrete cases of the geometry library's behaviour, worked out on the
 * model: crossing and parallel segments, the asymmetric treatment of a
 * T-junction, a path length, the boundary of a square, and two polygons
 * that only the segment test finds to intersect.
 */
module Scenarios {
  // Each concrete case takes its segments or rings as parameters fixed by a
  // `requires`: stated directly on literals, the arithmetic of
  // LineIntersection unfolds into terms the solver handles poorly, while a
  // parameter lets the proof go through the general lemmas.

  import opened Wrappers
  import opened Vector
  import opened Segments
  import opened Polygons

  /** The diagonals of the square [0, 2] x [0, 2] cross at its centre. */
  lemma DiagonalsCross(a: Segment, b: Segment)
    requires a == (Point(0.0, 0.0), Point(2.0, 2.0)) && b == (Point(0.0, 2.0), Point(2.0, 0.0))
    ensures LineIntersection(a, b) == Some(Point(1.0, 1.0))
  {
    DiagonalsMeet(a, b);
    CrossingReported(a, b, 0.5, 0.5, Point(1.0, 1.0));
  }

  lemma DiagonalsMeet(a: Segment, b: Segment)
    requires a == (Point(0.0, 0.0), Point(2.0, 2.0)) && b == (Point(0.0, 2.0), Point(2.0, 0.0))
    ensures Denominator(a, b) != 0.0
    ensures Interp(a.0, a.1, 0.5) == Point(1.0, 1.0) == Interp(b.0, b.1, 0.5)
  {
  }

  /** A crossing at parameters in range is reported at its point `p`. */
  lemma CrossingReported(a: Segment, b: Segment, t: real, u: real, p: Point)
    requires Denominator(a, b) != 0.0 && 0.0 <= t <= 1.0 && 0.0 < u <= 1.0
    requires Interp(a.0, a.1, t) == p == Interp(b.0, b.1, u)
    ensures LineIntersection(a, b) == Some(p)
  {
    LineIntersectionFindsCrossing(a, b, t, u);
  }

  /** Parallel segments never intersect. */
  lemma ParallelSegmentsMiss(a: Segment, b: Segment)
    requires a == (Point(0.0, 0.0), Point(1.0, 0.0)) && b == (Point(0.0, 1.0), Point(1.0, 1.0))
    ensures LineIntersection(a, b) == None
  {
    HorizontalSegmentsMiss(a, b);
  }

  /** Two horizontal segments are parallel, so no point is reported. */
  lemma HorizontalSegmentsMiss(a: Segment, b: Segment)
    requires a.0.y == a.1.y && b.0.y == b.1.y
    ensures LineIntersection(a, b) == None
  {
    assert Denominator(a, b) == 0.0;
  }

  /** A T-junction is reported when the stem `b` ends on the bar `a`... */
  lemma StemEndingOnBar(a: Segment, b: Segment)
    requires a == (Point(0.0, 0.0), Point(2.0, 0.0)) && b == (Point(1.0, 1.0), Point(1.0, 0.0))
    ensures LineIntersection(a, b) == Some(Point(1.0, 0.0))
  {
    StemMeetsBar(a, b);
    CrossingReported(a, b, 0.5, 1.0, Point(1.0, 0.0));
  }

  lemma StemMeetsBar(a: Segment, b: Segment)
    requires a == (Point(0.0, 0.0), Point(2.0, 0.0)) && b == (Point(1.0, 1.0), Point(1.0, 0.0))
    ensures Denominator(a, b) != 0.0
    ensures Interp(a.0, a.1, 0.5) == Point(1.0, 0.0) == Interp(b.0, b.1, 1.0)
  {
  }

  /** ...and not when the stem starts there. */
  lemma StemStartingOnBar(a: Segment, b: Segment)
    requires a == (Point(0.0, 0.0), Point(2.0, 0.0)) && b == (Point(1.0, 0.0), Point(1.0, 1.0))
    ensures LineIntersection(a, b) == None
  {
    assert b.0 == Interp(a.0, a.1, 0.5);
    StartOfBNotReported(a, b, 0.5);
  }

  /** The path (0, 0) -> (3, 0) -> (3, 4) is 3 + 4 long. */
  lemma RightAnglePathLength(sqrt: real -> real)
    requires IsSqrt(sqrt)
    ensures Length(sqrt, [Point(0.0, 0.0), Point(3.0, 0.0), Point(3.0, 4.0)]) == 7.0
  {
    var path := [Point(0.0, 0.0), Point(3.0, 0.0), Point(3.0, 4.0)];
    SqrtUnique(sqrt, 9.0, 3.0);
    SqrtUnique(sqrt, 16.0, 4.0);
    assert path[..2][..1] == [Point(0.0, 0.0)];
    assert Length(sqrt, path[..2]) == 3.0;
  }

  /**
   * Of a way's two edges, the second is chosen when it is strictly nearer.
   * For the way (0, 0) -> (1, 0) -> (2, 0) and the point (1.5, 1),
   * HorizontalBeyond puts the first edge farther than 1 and HorizontalWithin
   * puts the second at exactly 1, measured at (1.5, 0); so index 2 and
   * distance 1 are chosen.
   */
  lemma SecondOfTwoChosen(points: seq<Point>, point: Point, invert: Point -> Point, sqrt: real -> real, choice: Option<EdgeChoice>)
    requires |points| == 3 && IsSqrt(sqrt) && ChoosesEdge(points, point, invert, sqrt, choice)
    requires !Degenerate(points[0], points[1]) && !Degenerate(points[1], points[2])
    requires SegmentDistance(sqrt, points[1], points[2], point) < SegmentDistance(sqrt, points[0], points[1], point)
    ensures choice == Some(EdgeChoice(2, invert(ClampedProjection(points[1], points[2], point)),
                                      SegmentDistance(sqrt, points[1], points[2], point)))
  {
    assert !AllDegenerate(points, SegmentCount(points));
    assert choice.value.index == 2;
  }

  /**
   * On a left-to-right horizontal segment, a point above its span projects
   * straight down and is measured at its height above the segment.
   */
  lemma HorizontalWithin(o: Point, e: Point, point: Point, sqrt: real -> real, h: real)
    requires o.y == e.y && o.x < point.x < e.x && h == point.y - o.y && 0.0 <= h && IsSqrt(sqrt)
    ensures !Degenerate(o, e) && ClampedProjection(o, e, point) == Point(point.x, o.y)
    ensures SegmentDistance(sqrt, o, e, point) == h
  {
    var w := e.x - o.x;
    var c := (point.x - o.x) / w;
    assert c * w == point.x - o.x;
    assert Dot(Sub(e, o), Sub(e, o)) == w * w;
    MulPositive(w, w);
    assert Dot(Sub(point, o), Sub(e, o)) == c * (w * w);
    ClampedParameterWithin(o, e, point, c);
    var foot := Point(point.x, o.y);
    assert SquaredDistance(foot, point) == h * h;
    DistanceIs(sqrt, foot, point, h);
  }

  /**
   * On a left-to-right horizontal segment, a point beyond its right end is
   * measured against that end, so it is farther than its height `h` above it.
   */
  lemma HorizontalBeyond(o: Point, e: Point, point: Point, sqrt: real -> real, h: real)
    requires o.y == e.y && o.x < e.x < point.x && h == point.y - o.y && 0.0 <= h && IsSqrt(sqrt)
    ensures !Degenerate(o, e) && ClampedProjection(o, e, point) == e
    ensures SegmentDistance(sqrt, o, e, point) > h
  {
    var w := e.x - o.x;
    DegenerateIsZeroLength(o, e);
    SquaredLengthPositive(o, e);
    var S, V := Dot(Sub(e, o), Sub(e, o)), Dot(Sub(point, o), Sub(e, o));
    assert S == w * w;
    assert V == (point.x - o.x) * w;
    assert V - S == (point.x - e.x) * w;
    PositiveDifference(V, S, point.x - e.x, w);
    ClampedParameterBeyond(o, e, point);
    var d := e.x - point.x;
    MulPositive(point.x - e.x, point.x - e.x);
    assert SquaredDistance(e, point) == d * d + h * h;
    DistanceAbove(sqrt, e, point, h);
  }


  /** The closed ring of the square [0, 2] x [0, 2]. */
  function Square(): seq<Point>
  {
    [Point(0.0, 0.0), Point(0.0, 2.0), Point(2.0, 2.0), Point(2.0, 0.0), Point(0.0, 0.0)]
  }

  /**
   * The centre of the square is inside and a point beyond its corner is not.
   * On the boundary the ray test is one-sided: a point on the left edge
   * counts as inside, the matching point on the right edge does not.
   */
  lemma SquareMembership()
    ensures Inside(Point(1.0, 1.0), Square())
    ensures !Inside(Point(3.0, 3.0), Square())
    ensures Inside(Point(0.0, 1.0), Square())
    ensures !Inside(Point(2.0, 1.0), Square())
  {
    var sq := Square();
    SquareToggles(Point(1.0, 1.0), true);
    SquareToggles(Point(0.0, 1.0), true);
    SquareToggles(Point(2.0, 1.0), false);
    OutsideHeightsNotInside(Point(3.0, 3.0), sq);
  }

  /**
   * At a height in [0, 2) the ray from `pt` can only cross the square's left
   * edge (vertex 1) and right edge (vertex 3); for x >= 0 it misses the left
   * one, so `pt` is inside exactly when it crosses the right edge.
   */
  lemma SquareToggles(pt: Point, crossesRight: bool)
    requires 0.0 <= pt.y < 2.0 && 0.0 <= pt.x
    requires crossesRight <==> pt.x < 2.0
    ensures Inside(pt, Square()) == crossesRight
  {
    var sq := Square();
    assert !EdgeCrosses(pt, sq, 0);
    assert !EdgeCrosses(pt, sq, 1);
    assert !EdgeCrosses(pt, sq, 2);
    assert EdgeCrosses(pt, sq, 3) == crossesRight;
    assert !EdgeCrosses(pt, sq, 4);
    assert Toggled(pt, sq, 1) == false;
    assert Toggled(pt, sq, 2) == false;
    assert Toggled(pt, sq, 3) == false;
    assert Toggled(pt, sq, 4) == crossesRight;
  }

  /** A ring inside the square: the square [0.5, 1.5] x [0.5, 1.5]. */
  function InnerSquare(): seq<Point>
  {
    [Point(0.5, 0.5), Point(0.5, 1.5), Point(1.5, 1.5), Point(1.5, 0.5), Point(0.5, 0.5)]
  }

  /**
   * The inner square is contained in the square; with its corner (1.5, 1.5)
   * pushed out to (3, 1.5) it no longer is, though it still intersects it.
   */
  lemma InnerSquareContained(inner: seq<Point>, pushed: seq<Point>)
    requires inner == InnerSquare() && pushed == inner[2 := Point(3.0, 1.5)]
    ensures PolygonContainsPolygon(Square(), inner)
    ensures !PolygonContainsPolygon(Square(), pushed)
    ensures TestPoints(Square(), pushed)
  {
    forall k | 0 <= k < |inner|
      ensures Inside(inner[k], Square())
    {
      SquareToggles(inner[k], true);
    }
    SquareToggles(pushed[2], false);
    SquareToggles(pushed[0], true);
  }

  /** A wide bar: [0, 4] x [1, 3]. */
  function Bar(): seq<Point>
  {
    [Point(0.0, 1.0), Point(4.0, 1.0), Point(4.0, 3.0), Point(0.0, 3.0), Point(0.0, 1.0)]
  }

  /** A tall bar: [1, 2] x [-1, 3], crossing the wide one like a plus sign. */
  function Post(): seq<Point>
  {
    [Point(1.0, -1.0), Point(2.0, -1.0), Point(2.0, 3.0), Point(1.0, 3.0), Point(1.0, -1.0)]
  }

  /**
   * No vertex of the tall bar lies inside the wide one, yet their edges
   * cross: geoPolygonIntersectsPolygon finds them intersecting only with
   * `checkSegments` set.
   */
  lemma BarsMeet(a: Segment, b: Segment)
    requires a == (Point(0.0, 1.0), Point(4.0, 1.0)) && b == (Point(2.0, -1.0), Point(2.0, 3.0))
    ensures Denominator(a, b) != 0.0
    ensures Interp(a.0, a.1, 0.5) == Point(2.0, 1.0) == Interp(b.0, b.1, 0.5)
  {
  }

  lemma PlusShapeNeedsSegmentTest(bar: seq<Point>, post: seq<Point>)
    requires bar == Bar() && post == Post()
    ensures !TestPoints(bar, post)
    ensures SegmentsCross(bar, post)
  {
    NoPostVertexInBar(bar, post);
    assert SegmentAt(bar, 0) == (Point(0.0, 1.0), Point(4.0, 1.0));
    assert SegmentAt(post, 1) == (Point(2.0, -1.0), Point(2.0, 3.0));
    BarCrossesPost(SegmentAt(bar, 0), SegmentAt(post, 1));
    assert HitBetween(bar, post, 0, 1, Point(2.0, 1.0));
    assert PairHits(bar, post, 0, 1);
  }

  lemma NoPostVertexInBar(bar: seq<Point>, post: seq<Point>)
    requires bar == Bar() && post == Post()
    ensures !TestPoints(bar, post)
  {
    forall k | 0 <= k < |post|
      ensures !Inside(post[k], bar)
    {
      PostHeights(post, k);
      OffBarHeights(post[k], bar);
    }
  }

  /** Every vertex of the tall bar is level with the top of the wide bar or below it. */
  lemma PostHeights(post: seq<Point>, k: int)
    requires post == Post() && 0 <= k < |post|
    ensures post[k].y == 3.0 || post[k].y < 1.0
  {
  }

  /** A point level with the top of the wide bar, or below it, is not inside. */
  lemma OffBarHeights(pt: Point, bar: seq<Point>)
    requires bar == Bar() && (pt.y == 3.0 || pt.y < 1.0)
    ensures !Inside(pt, bar)
  {
    if pt.y == 3.0 {
      assert forall m :: 0 <= m < |bar| ==> bar[m].y <= pt.y;
    } else {
      assert forall m :: 0 <= m < |bar| ==> bar[m].y > pt.y;
    }
    OutsideHeightsNotInside(pt, bar);
  }

  /** The bottom edge of the wide bar crosses the right edge of the tall one at (2, 1). */
  lemma BarCrossesPost(a: Segment, b: Segment)
    requires a == (Point(0.0, 1.0), Point(4.0, 1.0)) && b == (Point(2.0, -1.0), Point(2.0, 3.0))
    ensures LineIntersection(a, b) == Some(Point(2.0, 1.0))
  {
    BarsMeet(a, b);
    CrossingReported(a, b, 0.5, 0.5, Point(2.0, 1.0));
  }
}
