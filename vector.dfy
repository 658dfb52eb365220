/**
 * Vector primitives of the geometry library: coordinate pairs, the 2D cross
 * product, linear interpolation, Euclidean distance, coordinate rounding and
 * edge equality (modules/geo/geo.js, the functions geoRoundCoords, geoInterp,
 * geoCross, geoEuclideanDistance and geoEdgeEqual).
 */
module Vector {

  /** A coordinate pair: [lon, lat] in geographic space, [x, y] in a planar one. */
  datatype Point = Point(x: real, y: real)

  /** The vector from `b` to `a` (geoLineIntersection's `subtractPoints`). */
  function Sub(a: Point, b: Point): Point
  {
    Point(a.x - b.x, a.y - b.y)
  }

  /** Adding the difference `a - b` back to `b` gives `a`. */
  lemma SubAddsBack(a: Point, b: Point)
    ensures Point(b.x + Sub(a, b).x, b.y + Sub(a, b).y) == a
  {
  }

  /** geoChooseEdge's `dot`; a vector's dot product with itself is its squared length. */
  function Dot(p: Point, q: Point): real
  {
    p.x * q.x + p.y * q.y
  }

  /** The dot product of a vector with itself is its squared length: non-negative, and zero only for the zero vector. */
  lemma DotSelf(p: Point)
    ensures Dot(p, p) == SquaredDistance(p, Point(0.0, 0.0))
    ensures Dot(p, p) >= 0.0
    ensures Dot(p, p) == 0.0 <==> p == Point(0.0, 0.0)
  {
    assert Dot(p, p) == SquaredDistance(p, Point(0.0, 0.0));
  }

  /**
   * z-component of the 3D cross product of two plane vectors
   * (geoLineIntersection's `crossProduct`); zero for a vector and itself.
   */
  function CrossProduct(p: Point, q: Point): (r: real)
    ensures p == q ==> r == 0.0
  {
    p.x * q.y - p.y * q.x
  }

  /** The vector `p` scaled by `k`. */
  function Scale(k: real, p: Point): Point
  {
    Point(k * p.x, k * p.y)
  }

  /** With a d == b c and a != 0, the factor c / a takes (a, b) to (c, d). */
  lemma RatioScales(a: real, b: real, c: real, d: real)
    requires a != 0.0 && a * d == b * c
    ensures (c / a) * a == c && (c / a) * b == d
  {
    var k := c / a;
    var m := k * a;
    assert m == c;
    assert (k * b) * a == m * b;
    assert m * b == c * b;
    assert (k * b) * a == d * a;
    Cancel(k * b, d, a);
  }

  /** The cross product of a non-zero vector `p` with `q` is zero exactly when `q` is a multiple of `p`. */
  lemma CrossProductZeroIsParallel(p: Point, q: Point)
    requires p != Point(0.0, 0.0)
    ensures CrossProduct(p, q) == 0.0 <==> exists k :: q == Scale(k, p)
  {
    if CrossProduct(p, q) == 0.0 {
      assert p.x * q.y == p.y * q.x;
      if p.x != 0.0 {
        RatioScales(p.x, p.y, q.x, q.y);
        assert q == Scale(q.x / p.x, p);
      } else {
        RatioScales(p.y, p.x, q.y, q.x);
        assert q == Scale(q.y / p.y, p);
      }
    } else {
      forall k ensures q != Scale(k, p) {
        assert CrossProduct(p, Scale(k, p)) == k * (p.x * p.y - p.y * p.x);
      }
    }
  }

  function Abs(x: real): real
  {
    if x < 0.0 then -x else x
  }

  /** geoRoundCoords: both coordinates floored (Math.floor). */
  function RoundCoords(c: Point): (r: Point)
    ensures r.x <= c.x < r.x + 1.0 && r.x == r.x.Floor as real
    ensures r.y <= c.y < r.y + 1.0 && r.y == r.y.Floor as real
  {
    Point(c.x.Floor as real, c.y.Floor as real)
  }

  lemma RoundCoordsIdempotent(c: Point)
    ensures RoundCoords(RoundCoords(c)) == RoundCoords(c)
  {
  }

  /**
   * geoInterp: the point at parameter `t` on the line from `p1` to `p2`; `t`
   * is not clamped, so values outside [0, 1] extrapolate.
   */
  function Interp(p1: Point, p2: Point, t: real): (r: Point)
    ensures t == 0.0 ==> r == p1
    ensures t == 1.0 ==> r == p2
  {
    Point(p1.x + (p2.x - p1.x) * t, p1.y + (p2.y - p1.y) * t)
  }

  /** Every interpolated point lies on the line through the two ends. */
  lemma InterpCollinear(p1: Point, p2: Point, t: real)
    ensures Cross(p1, p2, Interp(p1, p2, t)) == 0.0
  {
    var dx, dy := p2.x - p1.x, p2.y - p1.y;
    assert Cross(p1, p2, Interp(p1, p2, t)) == dx * (dy * t) - dy * (dx * t);
  }

  /**
   * geoCross: (a - o) x (b - o); positive for a counter-clockwise turn
   * o -> a -> b, negative for a clockwise one, zero when collinear.
   */
  function Cross(o: Point, a: Point, b: Point): (r: real)
    ensures r == CrossProduct(Sub(a, o), Sub(b, o))
    ensures a == o || b == o || a == b ==> r == 0.0
  {
    (a.x - o.x) * (b.y - o.y) - (a.y - o.y) * (b.x - o.x)
  }

  lemma CrossAntisymmetric(o: Point, a: Point, b: Point)
    ensures Cross(o, a, b) == -Cross(o, b, a)
  {
  }

  /** Math.sqrt, given as a parameter: a non-negative square root. */
  ghost predicate IsSqrt(sqrt: real -> real)
  {
    forall x :: 0.0 <= x ==> 0.0 <= sqrt(x) && sqrt(x) * sqrt(x) == x
  }

  // Helpers for the non-linear steps the solver does not take on its own:
  // each moves one product fact into a form that is linear in the product.

  lemma MulPositive(a: real, b: real)
    requires a > 0.0 && b > 0.0
    ensures a * b > 0.0
  {
  }

  lemma MulNonNegative(a: real, b: real)
    requires a >= 0.0 && b >= 0.0
    ensures a * b >= 0.0
  {
    if a > 0.0 && b > 0.0 {
      MulPositive(a, b);
    }
  }

  lemma PositiveDifference(v: real, s: real, g: real, w: real)
    requires g > 0.0 && w > 0.0 && v - s == g * w
    ensures v > s
  {
    MulPositive(g, w);
  }

  lemma ProductZero(a: real, b: real)
    ensures a * b == 0.0 ==> a == 0.0 || b == 0.0
  {
    if a != 0.0 && b != 0.0 {
      MulPositive(if a > 0.0 then a else -a, if b > 0.0 then b else -b);
    }
  }

  lemma SquareNonNegative(a: real)
    ensures a * a >= 0.0
  {
    if a < 0.0 {
      MulPositive(-a, -a);
      assert a * a == (-a) * (-a);
    }
  }

  lemma Cancel(a: real, b: real, c: real)
    requires c != 0.0 && a * c == b * c
    ensures a == b
  {
    assert (a - b) * c == a * c - b * c;
    ProductZero(a - b, c);
  }

  lemma SumZero(p: real, q: real)
    requires p >= 0.0 && q >= 0.0 && p + q == 0.0
    ensures p == 0.0 && q == 0.0
  {
  }

  lemma SumOfSquaresZero(x: real, y: real)
    ensures x * x + y * y == 0.0 ==> x == 0.0 && y == 0.0
  {
    SquareNonNegative(x);
    SquareNonNegative(y);
    if x * x + y * y == 0.0 {
      SumZero(x * x, y * y);
      ProductZero(x, x);
      ProductZero(y, y);
    }
  }

  /** Of two non-negative numbers, the one with the larger square is the larger. */
  lemma SquareMonotonic(r: real, s: real)
    requires 0.0 <= r && 0.0 <= s && r * r <= s * s
    ensures r <= s
  {
    if r > s {
      assert (r - s) * (r + s) == r * r - s * s;
      MulPositive(r - s, r + s);
    }
  }

  /** The square root of a non-negative number is unique. */
  lemma SqrtUnique(sqrt: real -> real, x: real, s: real)
    requires IsSqrt(sqrt) && 0.0 <= x
    requires 0.0 <= s && s * s == x
    ensures sqrt(x) == s
  {
    SquareMonotonic(sqrt(x), s);
    SquareMonotonic(s, sqrt(x));
  }

  lemma SqrtMonotonic(sqrt: real -> real, a: real, b: real)
    requires IsSqrt(sqrt) && 0.0 <= a <= b
    ensures sqrt(a) <= sqrt(b)
  {
    SquareMonotonic(sqrt(a), sqrt(b));
  }

  /** Squared Euclidean distance; what the square root in geoEuclideanDistance is taken of. */
  function SquaredDistance(a: Point, b: Point): (r: real)
    ensures r >= 0.0
    ensures r == 0.0 <==> a == b
  {
    var x, y := a.x - b.x, a.y - b.y;
    SquareNonNegative(x);
    SquareNonNegative(y);
    SumOfSquaresZero(x, y);
    x * x + y * y
  }

  /** geoEuclideanDistance. */
  function EuclideanDistance(sqrt: real -> real, a: Point, b: Point): (d: real)
    requires IsSqrt(sqrt)
    ensures d >= 0.0 && d * d == SquaredDistance(a, b)
    ensures d == 0.0 <==> a == b
  {
    var x, y := a.x - b.x, a.y - b.y;
    var d := sqrt((x * x) + (y * y));
    assert d * d == SquaredDistance(a, b);
    ProductZero(d, d);
    d
  }

  lemma EuclideanDistanceSymmetric(sqrt: real -> real, a: Point, b: Point)
    requires IsSqrt(sqrt)
    ensures EuclideanDistance(sqrt, a, b) == EuclideanDistance(sqrt, b, a)
  {
    assert (a.x - b.x) * (a.x - b.x) == (b.x - a.x) * (b.x - a.x);
    assert (a.y - b.y) * (a.y - b.y) == (b.y - a.y) * (b.y - a.y);
  }

  /** A point that is nearer in squared distance is nearer in distance. */
  lemma EuclideanDistanceMonotonic(sqrt: real -> real, a: Point, b: Point, c: Point, d: Point)
    requires IsSqrt(sqrt)
    requires SquaredDistance(a, b) <= SquaredDistance(c, d)
    ensures EuclideanDistance(sqrt, a, b) <= EuclideanDistance(sqrt, c, d)
  {
    DistanceIsRootOfSquared(sqrt, a, b);
    DistanceIsRootOfSquared(sqrt, c, d);
    SqrtMonotonic(sqrt, SquaredDistance(a, b), SquaredDistance(c, d));
  }

  lemma DistanceIsRootOfSquared(sqrt: real -> real, a: Point, b: Point)
    requires IsSqrt(sqrt)
    ensures EuclideanDistance(sqrt, a, b) == sqrt(SquaredDistance(a, b))
  {
  }

  /** A squared distance of r * r is a distance of r. */
  lemma DistanceIs(sqrt: real -> real, a: Point, b: Point, r: real)
    requires IsSqrt(sqrt) && 0.0 <= r && SquaredDistance(a, b) == r * r
    ensures EuclideanDistance(sqrt, a, b) == r
  {
    DistanceIsRootOfSquared(sqrt, a, b);
    SqrtUnique(sqrt, r * r, r);
  }

  /** A squared distance above r * r is a distance above r. */
  lemma DistanceAbove(sqrt: real -> real, a: Point, b: Point, r: real)
    requires IsSqrt(sqrt) && 0.0 <= r && SquaredDistance(a, b) > r * r
    ensures EuclideanDistance(sqrt, a, b) > r
  {
    var d := EuclideanDistance(sqrt, a, b);
    SquareMonotonic(r, d);
  }

  /**
   * geoEdgeEqual: two edges (pairs of node ids) are equal when they have the
   * same two ends, in either order; that is, the same multiset of ends.
   */
  function EdgeEqual<T(==)>(a: (T, T), b: (T, T)): (r: bool)
    ensures r <==> multiset{a.0, a.1} == multiset{b.0, b.1}
  {
    (a.0 == b.0 && a.1 == b.1) || (a.0 == b.1 && a.1 == b.0)
  }

  lemma EdgeEqualIgnoresOrientation<T>(x: T, y: T)
    ensures EdgeEqual((x, y), (y, x))
  {
  }

  lemma EdgeEqualSymmetric<T>(a: (T, T), b: (T, T))
    ensures EdgeEqual(a, b) == EdgeEqual(b, a)
  {
  }

  lemma EdgeEqualTransitive<T>(a: (T, T), b: (T, T), c: (T, T))
    requires EdgeEqual(a, b) && EdgeEqual(b, c)
    ensures EdgeEqual(a, c)
  {
  }
}
