/**
 The normalised point record of the converter (class WayPoint): position in degrees,
 elevation in metres (NaN when unknown), timestamp, optional name, and the cumulative
 distance that the conversion pass stamps onto it. Also the semicircle encoding of a
 coordinate used by every positional field of a course file, and the 2D / 3D distances
 between two points.
 */
module WayPoints {
  import opened JavaMath
  import opened GeoMath

  /** Milliseconds since the Unix epoch of the FIT epoch 1989-12-31T00:00:00Z
      (the SDK's DateTime.OFFSET). It is the time of every point that has none, and the
      base of the fallback timestamps of the emitted messages. */
  const REF: int := 631065600000

  /** 2^31, the number of semicircles in 180 degrees. */
  const SEMICIRCLES_PER_180: real := 2147483648.0

  datatype Point = Point(
    name: Option<string>,
    lat: real,
    lon: real,
    ele: Option<real>,        // None: NaN, the elevation is unknown
    time: int,                // milliseconds since the Unix epoch; never missing
    totalDist: Option<real>)  // None: NaN, not yet stamped by the conversion pass

  /** A point as the GPX reader delivers it: elevation, time and name may be absent. */
  datatype GpxPoint = GpxPoint(
    lat: real,
    lon: real,
    ele: Option<real>,
    time: Option<int>,
    name: Option<string>)

  /** `new WayPoint(name, lat, lon, ele, time)`: a missing time becomes REF; the
      elevation is taken as given, NaN included. */
  function NewPoint(name: Option<string>, lat: real, lon: real, ele: Option<real>, time: Option<int>): (p: Point)
    ensures time.None? ==> p.time == REF
    ensures time.Some? ==> p.time == time.value
    ensures p.ele == ele && p.name == name && p.lat == lat && p.lon == lon
    ensures p.totalDist.None?
  {
    Point(name, lat, lon, ele, time.GetOr(REF), None)
  }

  /** `new WayPoint(lat, lon)`: no name, elevation 0, time REF. */
  function NewLatLon(lat: real, lon: real): (p: Point)
    ensures p.time == REF && p.ele == Some(0.0) && p.name.None?
    ensures p.lat == lat && p.lon == lon && p.totalDist.None?
  {
    NewPoint(None, lat, lon, Some(0.0), None)
  }

  /** `new WayPoint(jpx point)`: a missing elevation becomes 0 (not NaN), a missing time
      becomes REF. */
  function FromGpx(g: GpxPoint): (p: Point)
    ensures p.ele.Some?
    ensures g.ele.Some? ==> p.ele == g.ele
    ensures g.ele.None? ==> p.ele == Some(0.0)
    ensures g.time.None? ==> p.time == REF
    ensures g.time.Some? ==> p.time == g.time.value
    ensures p.lat == g.lat && p.lon == g.lon && p.name == g.name && p.totalDist.None?
  {
    Point(g.name, g.lat, g.lon, Some(g.ele.GetOr(0.0)), g.time.GetOr(REF), None)
  }

  function SetLat(p: Point, lat: real): (r: Point)
    ensures r.lat == lat && r.(lat := p.lat) == p
  {
    p.(lat := lat)
  }

  function SetLon(p: Point, lon: real): (r: Point)
    ensures r.lon == lon && r.(lon := p.lon) == p
  {
    p.(lon := lon)
  }

  /** The only way an elevation becomes unknown (NaN) after construction. */
  function SetEle(p: Point, ele: Option<real>): (r: Point)
    ensures r.ele == ele && r.(ele := p.ele) == p
  {
    p.(ele := ele)
  }

  function SetTime(p: Point, time: int): (r: Point)
    ensures r.time == time && r.(time := p.time) == p
  {
    p.(time := time)
  }

  function SetTotalDist(p: Point, d: real): (r: Point)
    ensures r.totalDist == Some(d) && r.(totalDist := p.totalDist) == p
  {
    p.(totalDist := Some(d))
  }

  /** `toSemiCircles`: degrees times 2^31/180, cast to a Java int (toward zero, saturating). */
  function ToSemiCircles(deg: real): (s: int)
    ensures INT_MIN <= s <= INT_MAX
  {
    ToInt(deg * SEMICIRCLES_PER_180 / 180.0)
  }

  /** `getLatSemi`: the latitude in semicircles, within ±2^30 for a valid latitude. */
  function LatSemi(p: Point): (s: int)
    ensures INT_MIN <= s <= INT_MAX
    ensures -90.0 <= p.lat <= 90.0 ==> -0x4000_0000 <= s <= 0x4000_0000
  {
    if -90.0 <= p.lat <= 90.0 then SemiCirclesOfLatitude(p.lat); ToSemiCircles(p.lat)
    else ToSemiCircles(p.lat)
  }

  /** `getLonSemi`: the longitude in semicircles; the prime meridian is 0. */
  function LonSemi(p: Point): (s: int)
    ensures INT_MIN <= s <= INT_MAX
    ensures p.lon == 0.0 ==> s == 0
  {
    SemiCirclesOfZero();
    ToSemiCircles(p.lon)
  }

  lemma SemiCirclesOfZero()
    ensures ToSemiCircles(0.0) == 0
  {
  }

  lemma SemiCirclesMonotone(x: real, y: real)
    requires x <= y
    ensures ToSemiCircles(x) <= ToSemiCircles(y)
  {
    NarrowCastMonotone(x * SEMICIRCLES_PER_180 / 180.0, y * SEMICIRCLES_PER_180 / 180.0, INT_MIN, INT_MAX);
  }

  /** Strictly inside (-180, 180) the cast never saturates, so the encoding is odd. */
  lemma SemiCirclesOdd(x: real)
    requires -180.0 < x < 180.0
    ensures ToSemiCircles(-x) == -ToSemiCircles(x)
  {
    var y := x * SEMICIRCLES_PER_180 / 180.0;
    assert -x * SEMICIRCLES_PER_180 / 180.0 == -y;
    TruncOdd(y);
  }

  /** Every latitude maps into [-2^30, 2^30]. */
  lemma SemiCirclesOfLatitude(lat: real)
    requires -90.0 <= lat <= 90.0
    ensures -0x4000_0000 <= ToSemiCircles(lat) <= 0x4000_0000
  {
    var y := lat * SEMICIRCLES_PER_180 / 180.0;
    assert -1073741824.0 <= y <= 1073741824.0;
  }

  /** 180 degrees is 2^31 semicircles, one more than a Java int holds: the cast saturates.
      -180 degrees is exactly the smallest int. */
  lemma SemiCirclesSaturate()
    ensures ToSemiCircles(180.0) == INT_MAX
    ensures ToSemiCircles(-180.0) == INT_MIN
  {
    assert 180.0 * SEMICIRCLES_PER_180 / 180.0 == 2147483648.0;
    assert -180.0 * SEMICIRCLES_PER_180 / 180.0 == -2147483648.0;
  }

  /** `distance`: the geodesic distance from this point to the other, on latitude and
      longitude only. */
  function Distance(geo: Geodesic, a: Point, b: Point): (d: real)
    ensures GeodesicLaws(geo) ==> d >= 0.0
    ensures GeodesicLaws(geo) && a.lat == b.lat && a.lon == b.lon ==> d == 0.0
  {
    geo(a.lat, a.lon, b.lat, b.lon)
  }

  /** `Math.sqrt(d * d + h * h)`. */
  function Hypot(sqrt: SquareRoot, d: real, h: real): (r: real)
    ensures SqrtLaws(sqrt) ==> r >= 0.0 && r * r == d * d + h * h
  {
    assert d * d + h * h >= 0.0;
    sqrt(d * d + h * h)
  }

  /** `distance3D`: with both elevations known, the hypotenuse of the geodesic distance
      and the elevation difference; otherwise the geodesic distance alone. */
  function Distance3D(g: Geometry, a: Point, b: Point): (r: real)
    ensures a.ele.None? || b.ele.None? ==> r == Distance(g.geodesic, a, b)
    ensures GeodesicLaws(g.geodesic) && SqrtLaws(g.sqrt) ==> r >= 0.0
  {
    if a.ele.Some? && b.ele.Some? then
      Hypot(g.sqrt, Distance(g.geodesic, a, b), a.ele.value - b.ele.value)
    else
      Distance(g.geodesic, a, b)
  }

  /** With both elevations known and a lawful square root, the 3D distance r is the
      hypotenuse over the 2D distance d and the elevation difference h: r >= 0,
      r * r == d * d + h * h, hence r >= |d|. */
  lemma Distance3DIsHypotenuse(g: Geometry, a: Point, b: Point)
    requires SqrtLaws(g.sqrt) && a.ele.Some? && b.ele.Some?
    ensures var d := Distance(g.geodesic, a, b);
            var h := a.ele.value - b.ele.value;
            var r := Distance3D(g, a, b);
            && r >= 0.0
            && r * r == d * d + h * h
            && r >= Abs(d)
  {
    var d := Distance(g.geodesic, a, b);
    var h := a.ele.value - b.ele.value;
    var r := Distance3D(g, a, b);
    assert r == Hypot(g.sqrt, d, h);
    HypotenuseBound(r, d, h);
  }

  /** The 3D distance reads only positions and elevations: the time and the cumulative
      distance stamped on a point do not change it. */
  lemma Distance3DReadsPlaceOnly(g: Geometry, a: Point, b: Point, b2: Point)
    requires b.lat == b2.lat && b.lon == b2.lon && b.ele == b2.ele
    ensures Distance3D(g, a, b) == Distance3D(g, a, b2)
  {
    assert Distance(g.geodesic, a, b) == Distance(g.geodesic, a, b2);
  }

  lemma HypotenuseBound(r: real, d: real, h: real)
    requires r >= 0.0 && r * r == d * d + h * h
    ensures r >= Abs(d)
  {
    var a := Abs(d);
    assert a * a == d * d;
    assert h * h >= 0.0;
    if r < a {
      SquareStrictlyMonotone(r, a);
    }
  }

  lemma SquareStrictlyMonotone(x: real, y: real)
    requires 0.0 <= x < y
    ensures x * x < y * y
  {
    var xx, xy, yy := x * x, x * y, y * y;
    assert xx <= xy;
    assert xy < yy;
  }
}
