/**
 * Unit conversions of the geometry library (modules/geo/geo.js):
 * latitude and longitude degrees to meters and back, and tile-pixel offsets
 * to meters and back.
 */
module Units {
  import opened Vector

  /** Math.PI, as JavaScript prints it. */
  const PI: real := 3.141592653589793

  /** 2 * PI * r / 360 for the WGS84 polar radius (6356752.314245179 m). */
  const LatMetersPerDegree: real := 110946.257617

  /** 2 * PI * r / 360 for the WGS84 equatorial radius (6378137.0 m). */
  const LonMetersPerDegree: real := 111319.490793

  // geoOffsetToMeters and geoMetersToOffset name their radii the other way
  // round (the "equatorial" one holds the polar value); the values are kept
  // exactly as the library has them.
  const EquatRadius: real := 6356752.314245179
  const PolarRadius: real := 6378137.0
  const TileSize: real := 256.0

  /**
   * Math.cos, given as a parameter. All the conversions need of it is that it
   * is positive strictly between -PI/2 and PI/2, which keeps the division in
   * geoMetersToLon defined everywhere off the poles.
   */
  ghost predicate IsCosine(cos: real -> real)
  {
    forall x :: -PI / 2.0 < x < PI / 2.0 ==> cos(x) > 0.0
  }

  /** The cosine factor of a longitude conversion at latitude `atLat`. */
  function LatitudeScale(cos: real -> real, atLat: real): real
  {
    Abs(cos(atLat * (PI / 180.0)))
  }

  lemma LatitudeScalePositive(cos: real -> real, atLat: real)
    requires IsCosine(cos) && Abs(atLat) < 90.0
    ensures LatitudeScale(cos, atLat) > 0.0
  {
    assert -PI / 2.0 < atLat * (PI / 180.0) < PI / 2.0;
  }

  /** geoLatToMeters. */
  function LatToMeters(dLat: real): (m: real)
    ensures m > 0.0 <==> dLat > 0.0
    ensures m == 0.0 <==> dLat == 0.0
  {
    dLat * LatMetersPerDegree
  }

  /** geoMetersToLat: the inverse of geoLatToMeters. */
  function MetersToLat(m: real): (dLat: real)
    ensures LatToMeters(dLat) == m
  {
    m / LatMetersPerDegree
  }

  lemma LatRoundTrip(dLat: real)
    ensures MetersToLat(LatToMeters(dLat)) == dLat
  {
  }

  /**
   * geoLonToMeters: exactly 0 at or beyond the poles; elsewhere the degrees
   * scaled by the equatorial constant and |cos(atLat)|.
   */
  function LonToMeters(dLon: real, atLat: real, cos: real -> real): (m: real)
    requires IsCosine(cos)
    ensures Abs(atLat) >= 90.0 ==> m == 0.0
    ensures Abs(atLat) < 90.0 ==> (m > 0.0 <==> dLon > 0.0) && (m == 0.0 <==> dLon == 0.0)
  {
    if Abs(atLat) >= 90.0 then
      0.0
    else
      LatitudeScalePositive(cos, atLat);
      ScaleSign(dLon * LonMetersPerDegree, LatitudeScale(cos, atLat));
      dLon * LonMetersPerDegree * LatitudeScale(cos, atLat)
  }

  /** geoMetersToLon: the inverse of geoLonToMeters off the poles, 0 at or beyond them. */
  function MetersToLon(m: real, atLat: real, cos: real -> real): (dLon: real)
    requires IsCosine(cos)
    ensures Abs(atLat) >= 90.0 ==> dLon == 0.0
    ensures Abs(atLat) < 90.0 ==> LonToMeters(dLon, atLat, cos) == m
  {
    if Abs(atLat) >= 90.0 then
      0.0
    else
      LatitudeScalePositive(cos, atLat);
      var c := LatitudeScale(cos, atLat);
      var dLon := m / LonMetersPerDegree / c;
      DivideThenScale(m / LonMetersPerDegree, c);
      dLon
  }

  lemma LonRoundTrip(dLon: real, atLat: real, cos: real -> real)
    requires IsCosine(cos) && Abs(atLat) < 90.0
    ensures MetersToLon(LonToMeters(dLon, atLat, cos), atLat, cos) == dLon
  {
    LatitudeScalePositive(cos, atLat);
    var c := LatitudeScale(cos, atLat);
    ScaleThenDivide(dLon * LonMetersPerDegree, c);
  }

  /** The pole guard: both longitude conversions give exactly 0 at |atLat| >= 90. */
  lemma PoleGuard(dLon: real, m: real, atLat: real, cos: real -> real)
    requires IsCosine(cos) && Abs(atLat) >= 90.0
    ensures LonToMeters(dLon, atLat, cos) == 0.0
    ensures MetersToLon(m, atLat, cos) == 0.0
  {
  }

  /** geoOffsetToMeters: the y axis flips (offsets grow downwards, meters upwards). */
  function OffsetToMeters(offset: Point): (meters: Point)
    ensures meters.x > 0.0 <==> offset.x > 0.0
    ensures meters.y < 0.0 <==> offset.y > 0.0
    ensures meters.x == 0.0 <==> offset.x == 0.0
    ensures meters.y == 0.0 <==> offset.y == 0.0
    ensures meters == Point(0.0, 0.0) <==> offset == Point(0.0, 0.0)
  {
    Point(offset.x * 2.0 * PI * EquatRadius / TileSize,
          -offset.y * 2.0 * PI * PolarRadius / TileSize)
  }

  /** geoMetersToOffset: the inverse of geoOffsetToMeters. */
  function MetersToOffset(meters: Point): (offset: Point)
    ensures OffsetToMeters(offset) == meters
  {
    Point(meters.x * TileSize / (2.0 * PI * EquatRadius),
          -meters.y * TileSize / (2.0 * PI * PolarRadius))
  }

  lemma OffsetRoundTrip(offset: Point)
    ensures MetersToOffset(OffsetToMeters(offset)) == offset
  {
  }

  // Helpers for products with a positive factor.

  lemma ScaleSign(a: real, c: real)
    requires c > 0.0
    ensures a * c > 0.0 <==> a > 0.0
    ensures a * c == 0.0 <==> a == 0.0
  {
    if a > 0.0 {
      MulPositive(a, c);
    } else if a < 0.0 {
      MulPositive(-a, c);
    }
  }

  lemma DivideThenScale(a: real, c: real)
    requires c > 0.0
    ensures a / c * c == a
  {
  }

  lemma ScaleThenDivide(a: real, c: real)
    requires c > 0.0
    ensures a * c / c == a
  {
  }
}
