# Verified model of the geometry library `geo.js`

This project models the 2D geometry library of the editor
(`modules/geo/geo.js`) in Dafny and proves what its functions promise. Points
are pairs of `real`s. Segments are pairs of points. Paths and polygon rings
are sequences of points. The library's four groups of functions become four
modules:

- `Vector` (`vector.dfy`): the vector primitives. It covers coordinate
  flooring, linear interpolation, the orientation cross product, Euclidean
  distance and edge equality.
- `Units` (`units.dfy`): the conversions between degrees of latitude or
  longitude and meters, and between tile-pixel offsets and meters. The
  constants are kept exactly as the library writes them.
- `Segments` (`segments.dfy`): segment intersection, the intersections of
  two paths, the nearest edge of a way to a point, and path length.
- `Polygons` (`polygons.dfy`): the ray-casting point-in-polygon test,
  polygon containment and polygon intersection.

`Wrappers` (`wrappers.dfy`) holds the `Option` type. `None` stands for
`null` and for the undefined index of a failed edge choice. `Scenarios`
(`scenarios.dfy`) works concrete inputs through the model.

Pure functions of the library are Dafny functions with contracts. Each
function that works by a loop is a method with that loop. This applies to
geoChooseEdge, geoPathIntersections, geoPointInPolygon, geoPathLength and
the inner `testSegments`. Each such method is proved against a specification
function, and lemmas prove what the library promises about that function.

`Math.sqrt` and `Math.cos` are function parameters. The ghost predicate
`IsSqrt` pins `sqrt` down as the non-negative square root. `IsCosine` only
requires `cos` to be positive strictly between -PI/2 and PI/2. A map
`projection`, and its inverse for geoChooseEdge, are parameters too.

## Model

| member | source | states |
|---|---|---|
| Vector.RoundCoords | modules/geo/geo.js:5-7 | each coordinate becomes an integer value at most the input and within 1 of it |
| Vector.RoundCoordsIdempotent | modules/geo/geo.js:5-7 | flooring twice is flooring once |
| Vector.Interp | modules/geo/geo.js:10-13 | parameter 0 gives the first point and parameter 1 the second |
| Vector.InterpCollinear | modules/geo/geo.js:10-13 | every interpolated point is collinear with the two ends (zero cross product) |
| Vector.Cross | modules/geo/geo.js:16-21 | the result is the cross product of a - o and b - o; it is 0 when a = o, b = o or a = b |
| Vector.CrossAntisymmetric | modules/geo/geo.js:16-21 | swapping a and b negates the result, so the turn direction flips |
| Vector.SubAddsBack | modules/geo/geo.js:172-174 | subtractPoints gives the vector from point2 to point1: adding it back to point2 recovers point1 |
| Vector.CrossProduct | modules/geo/geo.js:175-177 | the cross product of a vector with itself is 0 |
| Vector.CrossProductZeroIsParallel | modules/geo/geo.js:175-177 | for a non-zero p, the cross product p x q is 0 exactly when q is a scalar multiple of p; this is why a zero denominator means parallel segments |
| Vector.DotSelf | modules/geo/geo.js:130-132 | the dot product of a vector with itself is its squared length: non-negative, and 0 only for the zero vector |
| Vector.SquaredDistance | modules/geo/geo.js:25-28 | the sum of squares under the root is non-negative and 0 exactly when the points coincide |
| Vector.EuclideanDistance | modules/geo/geo.js:25-28 | the distance is non-negative, squares to the squared distance, and is 0 exactly for equal points |
| Vector.EuclideanDistanceSymmetric | modules/geo/geo.js:25-28 | the distance from a to b equals that from b to a |
| Vector.EuclideanDistanceMonotonic | modules/geo/geo.js:25-28 | a smaller squared distance gives a smaller or equal distance |
| Vector.SqrtUnique | modules/geo/geo.js:27 | the square root of x is the only non-negative number whose square is x |
| Vector.EdgeEqual | modules/geo/geo.js:93-96 | two edges are equal exactly when they have the same multiset of ends |
| Vector.EdgeEqualIgnoresOrientation | modules/geo/geo.js:93-96 | an edge equals its reverse |
| Vector.EdgeEqualSymmetric | modules/geo/geo.js:93-96 | edge equality is symmetric |
| Vector.EdgeEqualTransitive | modules/geo/geo.js:93-96 | edge equality is transitive |
| Units.LatToMeters | modules/geo/geo.js:31-35 | the meters have the sign of the degrees and are 0 exactly for 0 degrees |
| Units.MetersToLat | modules/geo/geo.js:46-50 | converting the result back to meters gives the input |
| Units.LatRoundTrip | modules/geo/geo.js:33-50 | degrees to meters and back is the identity |
| Units.LatitudeScalePositive | modules/geo/geo.js:42 | off the poles the cosine factor is strictly positive, so the division in geoMetersToLon is defined |
| Units.LonToMeters | modules/geo/geo.js:38-43 | exactly 0 at or beyond the poles; elsewhere it has the sign of the degrees and is 0 only for 0 degrees |
| Units.MetersToLon | modules/geo/geo.js:53-58 | exactly 0 at or beyond the poles; elsewhere converting the result back gives the input |
| Units.LonRoundTrip | modules/geo/geo.js:40-58 | off the poles, degrees to meters and back is the identity |
| Units.PoleGuard | modules/geo/geo.js:40-58 | both longitude conversions return exactly 0 whenever the absolute latitude is at least 90 |
| Units.OffsetToMeters | modules/geo/geo.js:61-70 | x keeps its sign, y changes sign: each coordinate is positive, zero or negative exactly as the offset's x (or the negated offset's y) is |
| Units.MetersToOffset | modules/geo/geo.js:73-82 | converting the result back to meters gives the input |
| Units.OffsetRoundTrip | modules/geo/geo.js:61-82 | offset to meters and back is the identity, including the negated y |
| Segments.SegmentCount | modules/geo/geo.js:203-204 | the loops visit no segment for paths shorter than 2 and one fewer segment than points otherwise |
| Segments.LineIntersection | modules/geo/geo.js:171-198 | null for parallel or collinear segments and when b's start lies on a's line; any point returned lies on both segments |
| Segments.LineIntersectionExact | modules/geo/geo.js:171-198 | a point is returned if and only if the segments are not parallel and meet at t in [0, 1] on a and u in (0, 1] on b; the point is a's point at some t in [0, 1] |
| Segments.LineIntersectionFindsCrossing | modules/geo/geo.js:188-194 | when non-parallel segments meet at t in [0, 1] and u in (0, 1], the returned point is a's point at t |
| Segments.StartOfBNotReported | modules/geo/geo.js:185-188 | a touch at b's start point is never reported |
| Segments.ParametersMeet | modules/geo/geo.js:189-190 | the computed t and u locate the same point on both lines |
| Segments.MeetingParameters | modules/geo/geo.js:189-190 | a meeting point determines t and u, and u's numerator is non-zero when u is |
| Segments.RowHits | modules/geo/geo.js:204-209 | one segment of path1 contributes at most one point per segment of path2 |
| Segments.PathHitsBound | modules/geo/geo.js:201-212 | the result has at most (segments of path1) x (segments of path2) points |
| Segments.PathIntersections | modules/geo/geo.js:201-212 | the nested loops return exactly PathHits: hits ordered by path1's segment, then path2's, with no deduplication |
| Segments.RowIntersections | modules/geo/geo.js:204-210 | the inner loop over path2 returns exactly RowHits for one segment of path1 |
| Segments.RowHitsMember | modules/geo/geo.js:204-209 | a point is among one row's hits exactly when geoLineIntersection of that segment with some segment of path2 reports that point |
| Segments.PathHitsMember | modules/geo/geo.js:201-212 | a point is in the result exactly when geoLineIntersection reports it for some segment pair |
| Segments.PathHitFound | modules/geo/geo.js:201-212 | every point of the result is the reported intersection of some segment pair, which the lemma returns |
| Segments.PathHitKept | modules/geo/geo.js:201-212 | a hit of segment i of path1 stays in the result of every later outer iteration |
| Segments.RowHitKept | modules/geo/geo.js:204-209 | the reported intersection of segment i with segment j of path2 is among row i's hits once the inner loop has passed j |
| Segments.PathHitsEmpty | modules/geo/geo.js:201-212 | the result is empty when either path has fewer than two points |
| Segments.PathHitsPrefix | modules/geo/geo.js:201-212 | the hits of earlier segments of path1 are a prefix of the result |
| Segments.DegenerateIsZeroLength | modules/geo/geo.js:140 | the squared length the projection divides by is 0 exactly for a zero-length segment |
| Segments.ClampedParameter | modules/geo/geo.js:140-149 | the clamped projection parameter lies in [0, 1] |
| Segments.ClampedParameterWithin | modules/geo/geo.js:140-149 | when v . s = c (s . s) with c in [0, 1], the parameter is c itself, unclamped |
| Segments.ClampedParameterBeyond | modules/geo/geo.js:140-146 | when v . s exceeds s . s, the parameter is clamped to 1, so the segment's end is measured |
| Segments.ClampedProjection | modules/geo/geo.js:140-149 | the measured point is the segment's point at the clamped parameter, so it lies on the segment |
| Segments.SegmentDistance | modules/geo/geo.js:151 | the distance measured for a segment is non-negative |
| Segments.ClampedProjectionIsNearest | modules/geo/geo.js:140-151 | no point of the segment is nearer to `point` than the clamped projection |
| Segments.SegmentDistanceIsMinimal | modules/geo/geo.js:140-151 | the measured distance is at most the distance from `point` to any point of the segment |
| Segments.MeasureEdge | modules/geo/geo.js:135-151 | the loop body computes the clamped projection and its distance |
| Segments.ChooseEdge | modules/geo/geo.js:124-164 | None for fewer than two nodes; otherwise what ChoosesEdge states of the projected nodes |
| Segments.NearestEdge | modules/geo/geo.js:134-157 | None exactly when every segment has zero length; otherwise an index in [1, n-1] of a positive-length segment, its inverted projection, and a distance at most every positive-length segment's, strictly below every earlier positive-length segment's, and at most the distance to any point of any positive-length segment |
| Segments.ChoosesNoEdge | modules/geo/geo.js:134 | with fewer than two points no edge is chosen |
| Segments.NearestOverAll | modules/geo/geo.js:134-157 | a bound on every positive-length segment's measured distance bounds the distance to every point of every positive-length segment |
| Segments.Projected | modules/geo/geo.js:126 | the projected points are the nodes' projected locations, one per node, in order |
| Segments.Length | modules/geo/geo.js:271-277 | the length of a path is non-negative |
| Segments.LengthSplit | modules/geo/geo.js:271-277 | splitting a path at a vertex splits its length into the two parts' lengths |
| Segments.PathLength | modules/geo/geo.js:271-277 | the accumulating loop returns Length |
| Polygons.Prev | modules/geo/geo.js:229 | the loop's j is the index before i around the ring: i - 1 for i > 0, and the last index n - 1 for i = 0 (the wrap-around of `j = polygon.length - 1`) |
| Polygons.InterceptOnLine | modules/geo/geo.js:234 | the x at which the line through the edge reaches height y: (x - xi)(yj - yi) = (xj - xi)(y - yi); it is xi at height yi and xj at height yj |
| Polygons.Crosses | modules/geo/geo.js:233-234 | an edge toggles the result only if it straddles the point's height, one end at or below and the other above; that test guards the division by (yj - yi); and some end lies right of the point |
| Polygons.PointInPolygon | modules/geo/geo.js:224-239 | the loop returns Inside: the toggle parity over every edge from vertex j to vertex i |
| Polygons.ToggledIsParity | modules/geo/geo.js:229-236 | toggling gives true exactly when an odd number of edges is crossed |
| Polygons.InsideIsOddCrossings | modules/geo/geo.js:224-239 | a point is inside exactly when its ray crosses an odd number of edges |
| Polygons.CrossedEdgesStep | modules/geo/geo.js:229-236 | each visited vertex adds one to the crossing count exactly when its edge is crossed |
| Polygons.CrossesSymmetric | modules/geo/geo.js:233-234 | the crossing test gives the same answer for an edge walked in either direction |
| Polygons.InterceptSymmetric | modules/geo/geo.js:234 | the computed x-intercept does not depend on the edge's direction |
| Polygons.NoInsideBelowThreeVertices | modules/geo/geo.js:224-239 | a ring of zero, one or two vertices contains no point |
| Polygons.OutsideHeightsNotInside | modules/geo/geo.js:224-239 | a point at or above every vertex, or below every vertex, is not inside |
| Polygons.InterceptBetween | modules/geo/geo.js:233-234 | where an edge straddles the ray's height its intercept lies between the edge's x-coordinates |
| Polygons.RightOfAllNotInside | modules/geo/geo.js:224-239 | a point at or right of every vertex is not inside |
| Polygons.ClosingRingKeepsInside | modules/geo/geo.js:224-239 | repeating the first vertex at the end of a ring does not change which points are inside |
| Polygons.PolygonContainsPolygon | modules/geo/geo.js:242-246 | true exactly when every vertex of inner is inside outer, so true for an empty inner |
| Polygons.TestPoints | modules/geo/geo.js:262-266 | true exactly when some vertex of inner is inside outer |
| Polygons.TestSegments | modules/geo/geo.js:250-260 | the nested loops with early return find a pair exactly when geoLineIntersection reports a point for some segment of outer and some segment of inner |
| Polygons.PolygonIntersectsPolygon | modules/geo/geo.js:249-268 | true exactly when some vertex of inner is inside outer, or checkSegments is set and geoLineIntersection reports a point for some segment pair |
| Polygons.ContainsImpliesIntersects | modules/geo/geo.js:242-268 | containment of a non-empty inner ring implies intersection whatever checkSegments is |
| Polygons.SegmentsCrossIffPathsIntersect | modules/geo/geo.js:250-260 | the segment test succeeds exactly when geoPathIntersections of the two rings is non-empty |
| Scenarios.DiagonalsCross | modules/geo/geo.js:171-198 | geoLineIntersection reports that the diagonals of the square [0, 2] x [0, 2] meet at (1, 1) |
| Scenarios.ParallelSegmentsMiss | modules/geo/geo.js:188 | two parallel segments give null |
| Scenarios.HorizontalSegmentsMiss | modules/geo/geo.js:186-188 | any two horizontal segments have a zero denominator, so null is returned |
| Scenarios.StemEndingOnBar | modules/geo/geo.js:171-198 | a stem that ends on a bar is reported at the touching point |
| Scenarios.StemStartingOnBar | modules/geo/geo.js:185-188 | the same stem walked from the bar is not reported |
| Scenarios.RightAnglePathLength | modules/geo/geo.js:271-277 | the path (0, 0), (3, 0), (3, 4) has length 7 |
| Scenarios.SquareMembership | modules/geo/geo.js:224-239 | the centre of a square is inside and a far point is not; a point on the left edge counts as inside and one on the right edge does not |
| Scenarios.SquareToggles | modules/geo/geo.js:229-236 | for a point with x >= 0 and height in [0, 2), only the right edge can toggle the result, so it is inside exactly when x < 2 |
| Scenarios.InnerSquareContained | modules/geo/geo.js:242-246 | the square [0.5, 1.5] x [0.5, 1.5] is contained in [0, 2] x [0, 2]; moving one of its vertices to (3, 1.5) makes containment false while a vertex is still inside |
| Scenarios.SecondOfTwoChosen | modules/geo/geo.js:134-163 | for a three-node way whose second edge is strictly nearer, the chosen edge has index 2, the inverted nearest point on that edge, and its distance (the lemma's comment works by hand, through HorizontalBeyond and HorizontalWithin, the way (0, 0), (1, 0), (2, 0) and the point (1.5, 1), giving index 2 and distance 1; no lemma states that concrete result) |
| Scenarios.HorizontalWithin | modules/geo/geo.js:140-151 | on a left-to-right horizontal segment, a point above its span projects straight down and is measured at its height |
| Scenarios.HorizontalBeyond | modules/geo/geo.js:140-151 | a point beyond the right end is measured against that end, so farther than its height |
| Scenarios.PlusShapeNeedsSegmentTest | modules/geo/geo.js:249-268 | for two bars crossing like a plus sign, no vertex is inside, but geoLineIntersection reports a point for a segment pair, so only the segment test finds them intersecting |

## Left out

- geoSphericalDistance, geoAngle and geoRotate are not modelled. Their substance is trigonometry and floating-point approximation.
- `Math.sqrt`, `Math.cos` and the projection are parameters. Only the properties stated by `IsSqrt` and `IsCosine` are assumed of them. No relation is assumed between the projection and its inverse.
- Units.LonToMeters, Units.MetersToLon: of the cosine only its positivity off the poles is used, so the contracts say nothing about the exact scale factor.
- `Math.PI` is the decimal literal 3.141592653589793, as JavaScript prints it, not the real number pi.
- IEEE-754 arithmetic is not modelled. Coordinates are exact reals, so there is no rounding, no overflow and no NaN or Infinity.
- geoChooseEdge's `Infinity` minimum and undefined index become `None`. A zero-length segment is skipped. In the library it gives a NaN distance that never compares below the minimum, which has the same effect.
- Segments.ChooseEdge: nodes carry only their location, since that is all the function reads.
- Polygons.PointInPolygon: the crossing test is written as a call to `Crosses`, which holds exactly the library's expression for one edge.
- Polygons.PolygonIntersectsPolygon: its contract states the result, not that the segment test is skipped when a vertex is already inside. The short-circuit is in the method body.
- lodash's `_every` and `_some` become recursion over the sequence, with quantified contracts.
- Rings are not required to be closed. `Polygons.ClosingRingKeepsInside` shows that closing a ring does not change the result.
- modules/validations/index.js is not part of this model. It only re-exports rule modules.
