/**
 * Polygon predicates of the geometry library (modules/geo/geo.js):
 * ray-casting point-in-polygon, polygon containment and polygon
 * intersection. A polygon is its ring of vertices; the ring may or may not
 * repeat its first vertex at the end.
 */
module Polygons {
  import opened Vector
  import opened Segments

  // geoPointInPolygon

  /** The index before `i` on a ring of `n` vertices: the loop's `j`. */
  function Prev(n: nat, i: nat): (j: nat)
    requires i < n
    ensures j < n
    ensures i > 0 ==> j + 1 == i
    ensures i == 0 ==> j == n - 1
  {
    if i == 0 then n - 1 else i - 1
  }

  /**
   * The x-coordinate at height `y` of the line through `a` and `b`, computed
   * as the ray-casting test computes it.
   */
  function Intercept(a: Point, b: Point, y: real): real
    requires a.y != b.y
  {
    (b.x - a.x) * (y - a.y) / (b.y - a.y) + a.x
  }

  /** The intercept lies on the line through `a` and `b`, at `a` and `b` at their own heights. */
  lemma InterceptOnLine(a: Point, b: Point, y: real)
    requires a.y != b.y
    ensures (Intercept(a, b, y) - a.x) * (b.y - a.y) == (b.x - a.x) * (y - a.y)
    ensures y == a.y ==> Intercept(a, b, y) == a.x
    ensures y == b.y ==> Intercept(a, b, y) == b.x
  {
    var D := b.y - a.y;
    var q := (b.x - a.x) * (y - a.y) / D;
    assert q * D == (b.x - a.x) * (y - a.y);
    if y == b.y {
      assert (b.x - a.x) * D / D == b.x - a.x;
    }
  }

  /**
   * The test of geoPointInPolygon's loop for the edge from vertex `a` to the
   * vertex `b` before it: the edge straddles the horizontal line through
   * `pt` (one end above, the other not) and meets it to the right of `pt`.
   * The straddle keeps the division defined: it is only reached when
   * `a.y != b.y`. A crossed edge lies partly to the right of `pt`.
   */
  predicate Crosses(pt: Point, a: Point, b: Point): (r: bool)
    ensures r ==> (a.y <= pt.y < b.y) || (b.y <= pt.y < a.y)
    ensures r ==> pt.x < a.x || pt.x < b.x
  {
    if (a.y > pt.y) != (b.y > pt.y) then
      InterceptBetween(a, b, pt.y);
      pt.x < Intercept(a, b, pt.y)
    else
      false
  }

  /** The ray from `pt` crosses the edge ending at vertex `i` of `polygon`. */
  predicate EdgeCrosses(pt: Point, polygon: seq<Point>, i: nat)
    requires i < |polygon|
  {
    Crosses(pt, polygon[i], polygon[Prev(|polygon|, i)])
  }

  /** `inside` after the loop has visited the first `n` vertices. */
  function Toggled(pt: Point, polygon: seq<Point>, n: nat): bool
    requires n <= |polygon|
  {
    if n == 0 then false
    else Toggled(pt, polygon, n - 1) != EdgeCrosses(pt, polygon, n - 1)
  }

  /** What geoPointInPolygon returns. */
  predicate Inside(pt: Point, polygon: seq<Point>)
  {
    Toggled(pt, polygon, |polygon|)
  }

  /** The edges among the first `n` that the ray from `pt` crosses. */
  ghost function CrossedEdges(pt: Point, polygon: seq<Point>, n: nat): set<nat>
    requires n <= |polygon|
  {
    set i: nat | i < n && EdgeCrosses(pt, polygon, i)
  }

  /** The toggling loop computes the parity of the number of crossed edges. */
  lemma {:induction false} ToggledIsParity(pt: Point, polygon: seq<Point>, n: nat)
    requires n <= |polygon|
    ensures Toggled(pt, polygon, n) <==> |CrossedEdges(pt, polygon, n)| % 2 == 1
  {
    if n > 0 {
      ToggledIsParity(pt, polygon, n - 1);
      var k := |CrossedEdges(pt, polygon, n - 1)|;
      CrossedEdgesStep(pt, polygon, n);
      if EdgeCrosses(pt, polygon, n - 1) {
        OddSuccessor(k);
      }
    }
  }

  /** Visiting one more vertex adds its edge to the crossed ones exactly when the ray crosses it. */
  lemma CrossedEdgesStep(pt: Point, polygon: seq<Point>, n: nat)
    requires 0 < n <= |polygon|
    ensures |CrossedEdges(pt, polygon, n)| ==
      |CrossedEdges(pt, polygon, n - 1)| + (if EdgeCrosses(pt, polygon, n - 1) then 1 else 0)
  {
    var before := CrossedEdges(pt, polygon, n - 1);
    if EdgeCrosses(pt, polygon, n - 1) {
      assert CrossedEdges(pt, polygon, n) == before + {n - 1};
      assert n - 1 !in before;
    } else {
      assert CrossedEdges(pt, polygon, n) == before;
    }
  }

  lemma OddSuccessor(k: nat)
    ensures (k + 1) % 2 == 1 <==> k % 2 != 1
  {
  }

  /** A point is inside exactly when its ray crosses an odd number of edges. */
  lemma InsideIsOddCrossings(pt: Point, polygon: seq<Point>)
    ensures Inside(pt, polygon) <==> |CrossedEdges(pt, polygon, |polygon|)| % 2 == 1
  {
    ToggledIsParity(pt, polygon, |polygon|);
  }

  /**
   * geoPointInPolygon: the ray-casting loop, `j` trailing `i` around the
   * ring and `inside` flipped at each crossed edge.
   */
  method PointInPolygon(point: Point, polygon: seq<Point>) returns (inside: bool)
    ensures inside == Inside(point, polygon)
  {
    inside := false;
    var i, j := 0, |polygon| - 1;
    while i < |polygon|
      invariant 0 <= i <= |polygon|
      invariant i < |polygon| ==> j == Prev(|polygon|, i)
      invariant inside == Toggled(point, polygon, i)
    {
      var intersect := Crosses(point, polygon[i], polygon[j]);
      if intersect {
        inside := !inside;
      }
      j := i;
      i := i + 1;
    }
  }

  /** The ray test does not depend on the direction the edge is walked. */
  lemma CrossesSymmetric(pt: Point, a: Point, b: Point)
    ensures Crosses(pt, a, b) == Crosses(pt, b, a)
  {
    if a.y != b.y {
      InterceptSymmetric(a, b, pt.y);
    }
  }

  lemma InterceptSymmetric(a: Point, b: Point, y: real)
    requires a.y != b.y
    ensures Intercept(a, b, y) == Intercept(b, a, y)
  {
    var D, k := b.y - a.y, b.x - a.x;
    var L, R := Intercept(a, b, y), Intercept(b, a, y);
    InterceptOnLine(a, b, y);
    InterceptOnLine(b, a, y);
    assert (L - a.x) * D == k * (y - a.y);
    assert (R - b.x) * D == k * (y - b.y) by {
      assert (R - b.x) * (a.y - b.y) == (a.x - b.x) * (y - b.y);
    }
    assert k * (y - a.y) - k * (y - b.y) + (a.x - b.x) * D == 0.0;
    assert (L - R) * D == (L - a.x) * D - (R - b.x) * D + (a.x - b.x) * D;
    ProductZero(L - R, D);
  }


  /** A ring of at most two vertices has no inside: its edges cancel out in pairs. */
  lemma NoInsideBelowThreeVertices(pt: Point, polygon: seq<Point>)
    requires |polygon| <= 2
    ensures !Inside(pt, polygon)
  {
    if |polygon| == 2 {
      CrossesSymmetric(pt, polygon[0], polygon[1]);
      assert Toggled(pt, polygon, 1) == EdgeCrosses(pt, polygon, 0);
    } else if |polygon| == 1 {
      assert Toggled(pt, polygon, 1) == EdgeCrosses(pt, polygon, 0);
    }
  }

  /** No edge is crossed by a ray at or above every vertex, or below every vertex. */
  lemma {:induction false} NoCrossingOutsideHeights(pt: Point, polygon: seq<Point>, n: nat)
    requires n <= |polygon|
    requires (forall k :: 0 <= k < |polygon| ==> polygon[k].y <= pt.y) ||
             (forall k :: 0 <= k < |polygon| ==> polygon[k].y > pt.y)
    ensures !Toggled(pt, polygon, n)
  {
    if n > 0 {
      NoCrossingOutsideHeights(pt, polygon, n - 1);
      assert polygon[n - 1].y <= pt.y <==> polygon[Prev(|polygon|, n - 1)].y <= pt.y;
    }
  }

  /** A point at or above every vertex, or below every vertex, is not inside. */
  lemma OutsideHeightsNotInside(pt: Point, polygon: seq<Point>)
    requires (forall k :: 0 <= k < |polygon| ==> polygon[k].y <= pt.y) ||
             (forall k :: 0 <= k < |polygon| ==> polygon[k].y > pt.y)
    ensures !Inside(pt, polygon)
  {
    NoCrossingOutsideHeights(pt, polygon, |polygon|);
  }

  /** Where an edge straddles height `y`, its intercept lies between its ends' x-coordinates. */
  lemma InterceptBetween(a: Point, b: Point, y: real)
    requires (a.y > y) != (b.y > y)
    ensures Intercept(a, b, y) <= a.x || Intercept(a, b, y) <= b.x
    ensures a.x <= Intercept(a, b, y) || b.x <= Intercept(a, b, y)
  {
    var D := b.y - a.y;
    var lambda := (y - a.y) / D;
    assert 0.0 <= lambda <= 1.0 by {
      if D > 0.0 {
        assert 0.0 <= y - a.y <= D;
      } else {
        assert D <= y - a.y <= 0.0;
      }
    }
    assert (b.x - a.x) * (y - a.y) / D == (b.x - a.x) * lambda;
    if b.x >= a.x {
      MulNonNegative(b.x - a.x, 1.0 - lambda);
      MulNonNegative(b.x - a.x, lambda);
    } else {
      MulNonNegative(a.x - b.x, lambda);
      MulNonNegative(a.x - b.x, 1.0 - lambda);
    }
  }

  /** No edge is crossed by a ray starting at or right of every vertex. */
  lemma {:induction false} NoCrossingRightOfAll(pt: Point, polygon: seq<Point>, n: nat)
    requires n <= |polygon|
    requires forall k :: 0 <= k < |polygon| ==> polygon[k].x <= pt.x
    ensures !Toggled(pt, polygon, n)
  {
    if n > 0 {
      NoCrossingRightOfAll(pt, polygon, n - 1);
      var a, b := polygon[n - 1], polygon[Prev(|polygon|, n - 1)];
      if (a.y > pt.y) != (b.y > pt.y) {
        InterceptBetween(a, b, pt.y);
      }
    }
  }

  /** A point at or right of the whole ring is not inside. */
  lemma RightOfAllNotInside(pt: Point, polygon: seq<Point>)
    requires forall k :: 0 <= k < |polygon| ==> polygon[k].x <= pt.x
    ensures !Inside(pt, polygon)
  {
    NoCrossingRightOfAll(pt, polygon, |polygon|);
  }

  /**
   * Repeating the first vertex at the end of a ring (closing it, as GeoJSON
   * rings are) does not change which points are inside.
   */
  lemma ClosingRingKeepsInside(pt: Point, polygon: seq<Point>)
    requires |polygon| > 0
    ensures Inside(pt, polygon + [polygon[0]]) == Inside(pt, polygon)
  {
    var m := |polygon|;
    var closed := polygon + [polygon[0]];
    assert !EdgeCrosses(pt, closed, 0);
    ClosedPrefix(pt, polygon, m);
    assert EdgeCrosses(pt, closed, m) == EdgeCrosses(pt, polygon, 0);
  }

  /**
   * Over its first `n` vertices, the closed ring toggles as the open one
   * does except for the open ring's wrap-around edge at vertex 0.
   */
  lemma {:induction false} ClosedPrefix(pt: Point, polygon: seq<Point>, n: nat)
    requires 1 <= n <= |polygon|
    ensures Toggled(pt, polygon + [polygon[0]], n) == (Toggled(pt, polygon, n) != EdgeCrosses(pt, polygon, 0))
  {
    var closed := polygon + [polygon[0]];
    if n == 1 {
      assert !EdgeCrosses(pt, closed, 0);
      assert Toggled(pt, polygon, 1) == EdgeCrosses(pt, polygon, 0);
    } else {
      ClosedPrefix(pt, polygon, n - 1);
      assert EdgeCrosses(pt, closed, n - 1) == EdgeCrosses(pt, polygon, n - 1);
    }
  }

  // geoPolygonContainsPolygon

  /** geoPolygonContainsPolygon: every vertex of `inner` is inside `outer` (`_every`). */
  function PolygonContainsPolygon(outer: seq<Point>, inner: seq<Point>): (r: bool)
    ensures r <==> forall k :: 0 <= k < |inner| ==> Inside(inner[k], outer)
  {
    if |inner| == 0 then true
    else
      var rest := PolygonContainsPolygon(outer, inner[1..]);
      assert forall k :: 1 <= k < |inner| ==> inner[k] == inner[1..][k - 1];
      Inside(inner[0], outer) && rest
  }

  // geoPolygonIntersectsPolygon

  /** testPoints: some vertex of `inner` is inside `outer` (`_some`). */
  function TestPoints(outer: seq<Point>, inner: seq<Point>): (r: bool)
    ensures r <==> exists k :: 0 <= k < |inner| && Inside(inner[k], outer)
  {
    if |inner| == 0 then false
    else
      var rest := TestPoints(outer, inner[1..]);
      assert forall k :: 1 <= k < |inner| ==> inner[k] == inner[1..][k - 1];
      Inside(inner[0], outer) || rest
  }

  /** Segment `i` of `outer` and segment `j` of `inner` have a reported intersection. */
  ghost predicate PairHits(outer: seq<Point>, inner: seq<Point>, i: int, j: int)
  {
    exists x :: HitBetween(outer, inner, i, j, x)
  }

  /** Some segment of `outer` and some segment of `inner` have a reported intersection. */
  ghost predicate SegmentsCross(outer: seq<Point>, inner: seq<Point>)
  {
    exists i, j :: PairHits(outer, inner, i, j)
  }

  /** testSegments: the nested loops, returning as soon as a pair has a reported intersection. */
  method TestSegments(outer: seq<Point>, inner: seq<Point>) returns (found: bool)
    ensures found <==> SegmentsCross(outer, inner)
  {
    var i := 0;
    while i < |outer| - 1
      invariant 0 <= i <= SegmentCount(outer)
      invariant forall i', j :: 0 <= i' < i ==> !PairHits(outer, inner, i', j)
    {
      var j := 0;
      while j < |inner| - 1
        invariant 0 <= j <= SegmentCount(inner)
        invariant forall j' :: 0 <= j' < j ==> !PairHits(outer, inner, i, j')
      {
        var a, b := (outer[i], outer[i + 1]), (inner[j], inner[j + 1]);
        if LineIntersection(a, b).Some? {
          assert HitBetween(outer, inner, i, j, LineIntersection(a, b).value);
          assert PairHits(outer, inner, i, j);
          return true;
        }
        assert !PairHits(outer, inner, i, j);
        j := j + 1;
      }
      assert forall j' :: !PairHits(outer, inner, i, j');
      i := i + 1;
    }
    return false;
  }

  /**
   * geoPolygonIntersectsPolygon: some vertex of `inner` is inside `outer`,
   * or, when `checkSegments` is set, some pair of their segments has a
   * reported intersection.
   */
  method PolygonIntersectsPolygon(outer: seq<Point>, inner: seq<Point>, checkSegments: bool) returns (r: bool)
    ensures r <==> (exists k :: 0 <= k < |inner| && Inside(inner[k], outer)) ||
                   (checkSegments && SegmentsCross(outer, inner))
  {
    r := TestPoints(outer, inner);
    if !r && checkSegments {
      r := TestSegments(outer, inner);
    }
  }

  /** A polygon that contains a non-empty polygon intersects it, with or without the segment test. */
  lemma ContainsImpliesIntersects(outer: seq<Point>, inner: seq<Point>)
    requires |inner| > 0 && PolygonContainsPolygon(outer, inner)
    ensures TestPoints(outer, inner)
  {
    assert Inside(inner[0], outer);
  }

  /** The segment test finds a pair exactly when geoPathIntersections of the two rings is non-empty. */
  lemma SegmentsCrossIffPathsIntersect(outer: seq<Point>, inner: seq<Point>)
    ensures SegmentsCross(outer, inner) <==> |PathHits(outer, inner, SegmentCount(outer))| > 0
  {
    var n := SegmentCount(outer);
    if SegmentsCross(outer, inner) {
      var i, j :| PairHits(outer, inner, i, j);
      var x :| HitBetween(outer, inner, i, j, x);
      PathHitsMember(outer, inner, n, x);
    }
    if |PathHits(outer, inner, n)| > 0 {
      var x := PathHits(outer, inner, n)[0];
      PathHitsMember(outer, inner, n, x);
      var i, j :| 0 <= i < n && HitBetween(outer, inner, i, j, x);
      assert PairHits(outer, inner, i, j);
    }
  }
}
