/**
 The forward pass of writeFit over the aggregate point list (class Gpx2Fit). In one walk it

 - stamps every point with its cumulative distance from the first point, 2D or 3D;
 - tracks the elevation range and the bounding box (the box starts from the sentinels
   +1000 / -1000 degrees);
 - adds each segment's elevation change to the total ascent (when positive) or descent
   (otherwise); either stays unknown until a segment with both elevations known adds to it;
 - when speed is forced, rewrites every later point's time with a synthetic time obtained by
   walking the 2D distance at the configured speed, optionally scaled by the walking-grade
   factor of the segment.

 `Pass` is the walk as a fold over the list, `Visit` being one iteration. Every variable of
 the loop is then followed on its own: the pass leaves each one equal to a fold over the
 list that reads only the input points (`PassTotal`, `PassEnd`, `PassLast`, `PassPoints`, `PassBox`,
 `PassElevations`, `PassClimbs`), and these folds are in turn related to independent
 definitions of what the values mean: `PathLength`, `Gain`, `Loss`, `Climbs`, `Falls`,
 the least and greatest coordinates and elevations.
 */
module ConversionPass {
  import opened JavaMath
  import opened GeoMath
  import opened WayPoints
  import opened Gpx2FitOptions

  /** getWalkingGradeFactor: Minetti's energy cost of walking at grade g (joules per
      kilogram and metre), relative to its value on the level. */
  function WalkingGradeFactor(g: real): (f: real)
    ensures 3.6 * f == 155.4 * g * g * g * g * g - 30.4 * g * g * g * g - 43.3 * g * g * g + 46.3 * g * g + 19.5 * g + 3.6
  {
    1.0 + (g * (19.5 + g * (46.3 + g * (-43.3 + g * (-30.4 + g * 155.4))))) / 3.6
  }

  /** On the level the factor is 1; a 10% climb raises it above 1 and a 100% descent makes
      it negative, so a scaled speed can be negative. */
  lemma WalkingGradeFactorSamples()
    ensures WalkingGradeFactor(0.0) == 1.0
    ensures WalkingGradeFactor(0.1) > 1.0
    ensures WalkingGradeFactor(-1.0) < 0.0
  {
    assert 3.6 * WalkingGradeFactor(0.1) > 3.6;
    assert 3.6 * WalkingGradeFactor(-1.0) < 0.0;
  }

  /** The time step `(long) (d / gspeed * 1000.0)` of a forced-speed segment: a zero
      distance or a NaN speed (None) gives 0, and a zero speed, taken as +0.0, gives an
      infinite quotient that saturates the cast. Reals have no -0.0, so the sign of a
      zero speed is not kept. */
  function TimeStep(d: real, gspeed: Option<real>): (ms: int)
    ensures LONG_MIN <= ms <= LONG_MAX
    ensures d == 0.0 || gspeed.None? ==> ms == 0
    ensures d > 0.0 && gspeed == Some(0.0) ==> ms == LONG_MAX
    ensures d < 0.0 && gspeed == Some(0.0) ==> ms == LONG_MIN
    ensures d >= 0.0 && gspeed.Some? && gspeed.value > 0.0 ==> ms >= 0
    ensures gspeed.Some? && gspeed.value != 0.0 && d != 0.0 ==> ms == ToLong(d / gspeed.value * 1000.0)
  {
    if d == 0.0 || gspeed.None? then 0
    else if gspeed.value == 0.0 then (if d > 0.0 then LONG_MAX else LONG_MIN)
    else ToLong(d / gspeed.value * 1000.0)
  }

  /** Elevation change from `last` to `p` (`ele - last.getEle()`), when both are known. */
  function Rise(last: Point, p: Point): (r: Option<real>)
    ensures r.Some? <==> last.ele.Some? && p.ele.Some?
  {
    if p.ele.Some? && last.ele.Some? then Some(p.ele.value - last.ele.value) else None
  }

  /** The length a segment adds to the cumulative distance: never negative when the
      geodesic and the square root are lawful, and the 2D distance unless 3D is asked for
      and both elevations are known. */
  function SegmentLength(g: Geometry, use3d: bool, last: Point, p: Point): (r: real)
    ensures GeodesicLaws(g.geodesic) && SqrtLaws(g.sqrt) ==> r >= 0.0
    ensures !use3d || last.ele.None? || p.ele.None? ==> r == Distance(g.geodesic, p, last)
  {
    if use3d then Distance3D(g, p, last) else Distance(g.geodesic, p, last)
  }

  /** The speed for a forced-speed segment of 2D length d: with the walking grade on and
      both elevations known, the configured speed times the grade factor. `None` stands for
      a speed that is not finite: NaN when no speed is configured, and, for d == 0, the
      product of the speed with the factor of an infinite grade (±Infinity) or of the
      NaN grade 0/0. The time step is 0 then whatever the speed. */
  function SegmentSpeed(opts: Options, rise: Option<real>, d: real): (s: Option<real>)
    ensures !opts.walkingGrade || rise.None? ==> s == opts.speed
    ensures opts.speed.None? ==> s.None?
  {
    if !opts.walkingGrade || rise.None? then opts.speed
    else if d == 0.0 || opts.speed.None? then None
    else Some(WalkingGradeFactor(rise.value / d) * opts.speed.value)
  }

  /** The synthetic time, in milliseconds, spent walking from `last` to `p`: a Java long,
      0 without a configured speed or between two points at the same place. */
  function Step(g: Geometry, opts: Options, last: Point, p: Point): (ms: int)
    ensures LONG_MIN <= ms <= LONG_MAX
    ensures opts.speed.None? ==> ms == 0
    ensures GeodesicLaws(g.geodesic) && last.lat == p.lat && last.lon == p.lon ==> ms == 0
  {
    var d := Distance(g.geodesic, p, last);
    TimeStep(d, SegmentSpeed(opts, Rise(last, p), d))
  }

  /** Speed is forced when asked for, or when the first and last point share their time
      and a speed (not NaN) is configured; so a single point with a speed is always forced,
      and without a speed only the option forces it. */
  function IsForced(opts: Options, a: seq<Point>): (f: bool)
    requires |a| > 0
    ensures opts.forceSpeed ==> f
    ensures opts.speed.None? ==> (f <==> opts.forceSpeed)
    ensures |a| == 1 && opts.speed.Some? ==> f
  {
    opts.forceSpeed || (a[0].time == a[|a| - 1].time && opts.speed.Some?)
  }

  /** The local variables of the loop of writeFit. */
  datatype Acc = Acc(
    points: seq<Point>,       // the points visited so far, as the loop left them
    last: Option<Point>,      // `last`: the point visited before, as the loop left it
    minEle: Option<real>,
    maxEle: Option<real>,
    ascent: Option<real>,
    descent: Option<real>,
    totalDist: real,
    minLat: real,
    minLon: real,
    maxLat: real,
    maxLon: real,
    endDate: int)

  /** The locals before the loop: no point visited, no distance, every elevation
      quantity NaN, and a bounding box of sentinels that any real coordinate replaces. */
  function Init(endDate: int): (acc: Acc)
    ensures acc.points == [] && acc.last.None? && acc.totalDist == 0.0 && acc.endDate == endDate
    ensures acc.minEle.None? && acc.maxEle.None? && acc.ascent.None? && acc.descent.None?
    ensures forall lat, lon :: -180.0 <= lat <= 180.0 && -180.0 <= lon <= 180.0 ==>
              Min(acc.minLat, lat) == lat && Max(acc.maxLat, lat) == lat &&
              Min(acc.minLon, lon) == lon && Max(acc.maxLon, lon) == lon
  {
    Acc([], None, None, None, None, None, 0.0, 1000.0, 1000.0, -1000.0, -1000.0, endDate)
  }

  /** `if (!isNaN(ele)) { if (minEle > ele || isNaN(minEle)) minEle = ele; }` */
  function LowerEle(m: Option<real>, e: Option<real>): (r: Option<real>)
    ensures e.None? ==> r == m
    ensures e.Some? ==> r.Some? && r.value <= e.value
    ensures e.Some? && m.Some? ==> r.value <= m.value && (r == m || r == e)
  {
    if e.Some? && (m.None? || m.value > e.value) then e else m
  }

  /** `if (!isNaN(ele)) { if (maxEle < ele || isNaN(maxEle)) maxEle = ele; }` */
  function UpperEle(m: Option<real>, e: Option<real>): (r: Option<real>)
    ensures e.None? ==> r == m
    ensures e.Some? ==> r.Some? && r.value >= e.value
    ensures e.Some? && m.Some? ==> r.value >= m.value && (r == m || r == e)
  {
    if e.Some? && (m.None? || m.value < e.value) then e else m
  }

  /** `if (isNaN(total)) total = 0; total += x;` */
  function AddTo(total: Option<real>, x: real): (r: Option<real>)
    ensures r.Some? && r.value == total.GetOr(0.0) + x
  {
    Some(total.GetOr(0.0) + x)
  }

  /** `totalDist` after visiting p: grown by the segment from `last`, 2D or 3D, unless p
      is the first point. */
  function TotalAfter(g: Geometry, opts: Options, acc: Acc, p: Point): real {
    if acc.last.Some? then acc.totalDist + SegmentLength(g, opts.use3dDistance, acc.last.value, p)
    else acc.totalDist
  }

  /** `endDate` after visiting p: when speed is forced, grown by the time step of the
      segment from `last`, unless p is the first point. */
  function EndAfter(g: Geometry, opts: Options, forced: bool, acc: Acc, p: Point): int {
    if forced && acc.last.Some? then acc.endDate + Step(g, opts, acc.last.value, p)
    else acc.endDate
  }

  /** The elevation change of the segment from `last` to p, if there is one. */
  function RiseTo(acc: Acc, p: Point): Option<real> {
    if acc.last.Some? then Rise(acc.last.value, p) else None
  }

  function AscentAfter(acc: Acc, p: Point): Option<real> {
    var r := RiseTo(acc, p);
    if r.Some? && r.value > 0.0 then AddTo(acc.ascent, r.value) else acc.ascent
  }

  function DescentAfter(acc: Acc, p: Point): Option<real> {
    var r := RiseTo(acc, p);
    if r.Some? && r.value <= 0.0 then AddTo(acc.descent, Abs(r.value)) else acc.descent
  }

  /** The point p as the iteration leaves it: stamped with distance 0 when it is the first
      point, else with the new total distance and, when speed is forced, the new end date. */
  function Visited(g: Geometry, opts: Options, forced: bool, acc: Acc, p: Point): Point {
    if acc.last.None? then SetTotalDist(p, 0.0)
    else
      var q := SetTotalDist(p, TotalAfter(g, opts, acc, p));
      if forced then SetTime(q, EndAfter(g, opts, forced, acc, p)) else q
  }

  /** One iteration of the loop, on point p. */
  function Visit(g: Geometry, opts: Options, forced: bool, acc: Acc, p: Point): (r: Acc)
    ensures |r.points| == |acc.points| + 1
  {
    var q := Visited(g, opts, forced, acc, p);
    Acc(
      acc.points + [q],
      Some(q),
      LowerEle(acc.minEle, p.ele),
      UpperEle(acc.maxEle, p.ele),
      AscentAfter(acc, p),
      DescentAfter(acc, p),
      TotalAfter(g, opts, acc, p),
      Min(acc.minLat, p.lat),
      Min(acc.minLon, p.lon),
      Max(acc.maxLat, p.lat),
      Max(acc.maxLon, p.lon),
      EndAfter(g, opts, forced, acc, p))
  }

  /** The loop of writeFit over the aggregate list a, starting with `endDate0` as the end
      date. */
  function Pass(g: Geometry, opts: Options, forced: bool, endDate0: int, a: seq<Point>): (acc: Acc)
    ensures |acc.points| == |a|
    decreases |a|
  {
    if |a| == 0 then Init(endDate0)
    else Visit(g, opts, forced, Pass(g, opts, forced, endDate0, a[..|a| - 1]), a[|a| - 1])
  }

  // ---------------------------------------------------------------------------------------
  // Reference definitions.

  /** The length of the path through a, segment by segment. */
  function PathLength(g: Geometry, use3d: bool, a: seq<Point>): real
    decreases |a|
  {
    if |a| <= 1 then 0.0 else SegmentLength(g, use3d, a[0], a[1]) + PathLength(g, use3d, a[1..])
  }

  /** The sum of the positive elevation changes between consecutive points. */
  function Gain(a: seq<Point>): (s: real)
    ensures s >= 0.0
    decreases |a|
  {
    if |a| <= 1 then 0.0
    else
      var r := Rise(a[0], a[1]);
      (if r.Some? && r.value > 0.0 then r.value else 0.0) + Gain(a[1..])
  }

  /** The sum of the sizes of the zero or negative elevation changes. */
  function Loss(a: seq<Point>): (s: real)
    ensures s >= 0.0
    decreases |a|
  {
    if |a| <= 1 then 0.0
    else
      var r := Rise(a[0], a[1]);
      (if r.Some? && r.value <= 0.0 then -r.value else 0.0) + Loss(a[1..])
  }

  /** The rise of the k-th segment, from a[k] to a[k + 1]. */
  function RiseAt(a: seq<Point>, k: int): Option<real>
    requires 0 <= k < |a| - 1
  {
    Rise(a[k], a[k + 1])
  }

  /** Some segment has both elevations known and rises. */
  ghost predicate Climbs(a: seq<Point>) {
    exists k :: 0 <= k < |a| - 1 && RiseAt(a, k).Some? && RiseAt(a, k).value > 0.0
  }

  /** Some segment has both elevations known and does not rise. */
  ghost predicate Falls(a: seq<Point>) {
    exists k :: 0 <= k < |a| - 1 && RiseAt(a, k).Some? && RiseAt(a, k).value <= 0.0
  }

  /** The end date after walking a at the forced speed from `endDate0`: the sum of the
      time steps of its segments. */
  function ForcedEnd(g: Geometry, opts: Options, endDate0: int, a: seq<Point>): int
    decreases |a|
  {
    if |a| <= 1 then endDate0
    else ForcedEnd(g, opts, endDate0, a[..|a| - 1]) + Step(g, opts, a[|a| - 2], a[|a| - 1])
  }

  /** The last point of a as the pass leaves it: stamped with the length of the path up
      to it and, when speed is forced and it is not the first point, with the forced end
      date at it. */
  function Stamp(g: Geometry, opts: Options, forced: bool, endDate0: int, a: seq<Point>): Point
    requires |a| > 0
  {
    var p := a[|a| - 1].(totalDist := Some(PathLength(g, opts.use3dDistance, a)));
    if forced && |a| > 1 then p.(time := ForcedEnd(g, opts, endDate0, a)) else p
  }

  /** Every point of a stamped as `Stamp` says. */
  function Stamped(g: Geometry, opts: Options, forced: bool, endDate0: int, a: seq<Point>): (s: seq<Point>)
    ensures |s| == |a|
    decreases |a|
  {
    if |a| == 0 then []
    else Stamped(g, opts, forced, endDate0, a[..|a| - 1]) + [Stamp(g, opts, forced, endDate0, a)]
  }

  /** `Math.min` folded over xs, from `init`. */
  function Lowest(init: real, xs: seq<real>): real
    decreases |xs|
  {
    if |xs| == 0 then init else Min(Lowest(init, xs[..|xs| - 1]), xs[|xs| - 1])
  }

  /** `Math.max` folded over xs, from `init`. */
  function Highest(init: real, xs: seq<real>): real
    decreases |xs|
  {
    if |xs| == 0 then init else Max(Highest(init, xs[..|xs| - 1]), xs[|xs| - 1])
  }

  /** `LowerEle` folded over es, from NaN. */
  function LowestKnown(es: seq<Option<real>>): Option<real>
    decreases |es|
  {
    if |es| == 0 then None else LowerEle(LowestKnown(es[..|es| - 1]), es[|es| - 1])
  }

  /** `UpperEle` folded over es, from NaN. */
  function HighestKnown(es: seq<Option<real>>): Option<real>
    decreases |es|
  {
    if |es| == 0 then None else UpperEle(HighestKnown(es[..|es| - 1]), es[|es| - 1])
  }

  function Lats(a: seq<Point>): (xs: seq<real>)
    ensures |xs| == |a| && forall j :: 0 <= j < |a| ==> xs[j] == a[j].lat
  {
    seq(|a|, j requires 0 <= j < |a| => a[j].lat)
  }

  function Lons(a: seq<Point>): (xs: seq<real>)
    ensures |xs| == |a| && forall j :: 0 <= j < |a| ==> xs[j] == a[j].lon
  {
    seq(|a|, j requires 0 <= j < |a| => a[j].lon)
  }

  function Eles(a: seq<Point>): (es: seq<Option<real>>)
    ensures |es| == |a| && forall j :: 0 <= j < |a| ==> es[j] == a[j].ele
  {
    seq(|a|, j requires 0 <= j < |a| => a[j].ele)
  }

  /** The ascent after walking a: unknown until a segment with both elevations known
      rises, each such rise then added. */
  function Ascent(a: seq<Point>): Option<real>
    decreases |a|
  {
    if |a| <= 1 then None
    else
      var r := Rise(a[|a| - 2], a[|a| - 1]);
      var s := Ascent(a[..|a| - 1]);
      if r.Some? && r.value > 0.0 then AddTo(s, r.value) else s
  }

  /** The descent after walking a: unknown until a segment with both elevations known does
      not rise, the size of each such change then added. */
  function Descent(a: seq<Point>): Option<real>
    decreases |a|
  {
    if |a| <= 1 then None
    else
      var r := Rise(a[|a| - 2], a[|a| - 1]);
      var s := Descent(a[..|a| - 1]);
      if r.Some? && r.value <= 0.0 then AddTo(s, Abs(r.value)) else s
  }

  /** Two points that agree on position and elevation (they may differ in time and
      distance stamp). */
  predicate SamePlace(p: Point, q: Point) {
    p.lat == q.lat && p.lon == q.lon && p.ele == q.ele
  }

  /** Length, rise and time step of a segment depend only on where its ends are, not on
      the time or distance stamped on them. */
  lemma SamePlaceSameLength(g: Geometry, use3d: bool, p: Point, p2: Point, q: Point)
    requires SamePlace(p, p2)
    ensures SegmentLength(g, use3d, p, q) == SegmentLength(g, use3d, p2, q)
  {
    assert Distance(g.geodesic, q, p) == Distance(g.geodesic, q, p2);
    Distance3DReadsPlaceOnly(g, q, p, p2);
  }

  lemma SamePlaceSameStep(g: Geometry, opts: Options, p: Point, p2: Point, q: Point)
    requires SamePlace(p, p2)
    ensures Step(g, opts, p, q) == Step(g, opts, p2, q)
  {
    assert Distance(g.geodesic, q, p) == Distance(g.geodesic, q, p2);
  }

  /** The path length of a list is that of the list without its last point plus the
      last segment. */
  lemma {:induction false} PathLengthLast(g: Geometry, use3d: bool, a: seq<Point>)
    requires |a| >= 2
    ensures PathLength(g, use3d, a) == PathLength(g, use3d, a[..|a| - 1]) + SegmentLength(g, use3d, a[|a| - 2], a[|a| - 1])
    decreases |a|
  {
    if |a| > 2 {
      var t := a[1..];
      PathLengthLast(g, use3d, t);
      assert t[..|t| - 1] == a[..|a| - 1][1..];
    }
  }

  // ---------------------------------------------------------------------------------------
  // The loop follows the folds.

  /** After the pass, `last` is there exactly when a is not empty, and then it is at the
      place of the last point. */
  lemma PassLastPlace(g: Geometry, opts: Options, forced: bool, endDate0: int, a: seq<Point>)
    ensures var acc := Pass(g, opts, forced, endDate0, a);
            && (acc.last.Some? <==> |a| > 0)
            && (|a| > 0 ==> SamePlace(acc.last.value, a[|a| - 1]))
  {
  }

  /** After the pass, the total distance is the length of the path. */
  lemma {:induction false} PassTotal(g: Geometry, opts: Options, forced: bool, endDate0: int, a: seq<Point>)
    ensures Pass(g, opts, forced, endDate0, a).totalDist == PathLength(g, opts.use3dDistance, a)
    decreases |a|
  {
    var n := |a|;
    if n > 0 {
      var prefix := a[..n - 1];
      PassTotal(g, opts, forced, endDate0, prefix);
      if n > 1 {
        PassLastPlace(g, opts, forced, endDate0, prefix);
        var last := Pass(g, opts, forced, endDate0, prefix).last.value;
        SamePlaceSameLength(g, opts.use3dDistance, last, a[n - 2], a[n - 1]);
        PathLengthLast(g, opts.use3dDistance, a);
      }
    }
  }

  /** After the pass, the end date is the forced end date when speed is forced and the
      initial one otherwise. */
  lemma {:induction false} PassEnd(g: Geometry, opts: Options, forced: bool, endDate0: int, a: seq<Point>)
    ensures Pass(g, opts, forced, endDate0, a).endDate == (if forced then ForcedEnd(g, opts, endDate0, a) else endDate0)
    decreases |a|
  {
    var n := |a|;
    if n > 0 {
      var prefix := a[..n - 1];
      var acc := Pass(g, opts, forced, endDate0, prefix);
      PassEnd(g, opts, forced, endDate0, prefix);
      PassLastPlace(g, opts, forced, endDate0, prefix);
      assert Pass(g, opts, forced, endDate0, a).endDate == EndAfter(g, opts, forced, acc, a[n - 1]);
      if n > 1 && forced {
        SamePlaceSameStep(g, opts, acc.last.value, a[n - 2], a[n - 1]);
      }
    }
  }

  /** After the pass, `last` is the last point as `Stamp` stamps it. */
  lemma PassLast(g: Geometry, opts: Options, forced: bool, endDate0: int, a: seq<Point>)
    requires |a| > 0
    ensures Pass(g, opts, forced, endDate0, a).last == Some(Stamp(g, opts, forced, endDate0, a))
  {
    PassTotal(g, opts, forced, endDate0, a);
    PassEnd(g, opts, forced, endDate0, a);
    PassLastPlace(g, opts, forced, endDate0, a[..|a| - 1]);
  }

  /** The pass leaves the points stamped as `Stamped` says. */
  lemma {:induction false} PassPoints(g: Geometry, opts: Options, forced: bool, endDate0: int, a: seq<Point>)
    ensures Pass(g, opts, forced, endDate0, a).points == Stamped(g, opts, forced, endDate0, a)
    decreases |a|
  {
    if |a| > 0 {
      PassPoints(g, opts, forced, endDate0, a[..|a| - 1]);
      PassLast(g, opts, forced, endDate0, a);
    }
  }

  /** The pass leaves the bounding box as the folds of `Math.min` and `Math.max` over the
      coordinates, from the sentinels. */
  lemma {:induction false} PassBox(g: Geometry, opts: Options, forced: bool, endDate0: int, a: seq<Point>)
    ensures var acc := Pass(g, opts, forced, endDate0, a);
            && acc.minLat == Lowest(1000.0, Lats(a)) && acc.minLon == Lowest(1000.0, Lons(a))
            && acc.maxLat == Highest(-1000.0, Lats(a)) && acc.maxLon == Highest(-1000.0, Lons(a))
    decreases |a|
  {
    if |a| > 0 {
      var prefix := a[..|a| - 1];
      PassBox(g, opts, forced, endDate0, prefix);
      assert Lats(a)[..|a| - 1] == Lats(prefix);
      assert Lons(a)[..|a| - 1] == Lons(prefix);
    }
  }

  /** The pass leaves the elevation range as the folds of `LowerEle` and `UpperEle` over
      the elevations. */
  lemma {:induction false} PassElevations(g: Geometry, opts: Options, forced: bool, endDate0: int, a: seq<Point>)
    ensures var acc := Pass(g, opts, forced, endDate0, a);
            acc.minEle == LowestKnown(Eles(a)) && acc.maxEle == HighestKnown(Eles(a))
    decreases |a|
  {
    if |a| > 0 {
      var prefix := a[..|a| - 1];
      PassElevations(g, opts, forced, endDate0, prefix);
      assert Eles(a)[..|a| - 1] == Eles(prefix);
    }
  }

  /** The pass leaves ascent and descent as `Ascent` and `Descent` say. */
  lemma {:induction false} PassClimbs(g: Geometry, opts: Options, forced: bool, endDate0: int, a: seq<Point>)
    ensures var acc := Pass(g, opts, forced, endDate0, a);
            acc.ascent == Ascent(a) && acc.descent == Descent(a)
    decreases |a|
  {
    var n := |a|;
    if n > 0 {
      var prefix := a[..n - 1];
      PassClimbs(g, opts, forced, endDate0, prefix);
      PassLastPlace(g, opts, forced, endDate0, prefix);
    }
  }

  // ---------------------------------------------------------------------------------------
  // What the folds mean.

  /** The j-th stamped point is the last point of the first j + 1 points, stamped. */
  lemma {:induction false} StampedAt(g: Geometry, opts: Options, forced: bool, endDate0: int, a: seq<Point>, j: int)
    requires 0 <= j < |a|
    ensures Stamped(g, opts, forced, endDate0, a)[j] == Stamp(g, opts, forced, endDate0, a[..j + 1])
    decreases |a|
  {
    if j < |a| - 1 {
      var prefix := a[..|a| - 1];
      StampedAt(g, opts, forced, endDate0, prefix, j);
      assert prefix[..j + 1] == a[..j + 1];
    } else {
      assert a[..j + 1] == a;
    }
  }

  /** The least of `init` and xs: at most each of them, and one of them. */
  lemma {:induction false} LowestBounds(init: real, xs: seq<real>)
    ensures Lowest(init, xs) <= init
    ensures forall j :: 0 <= j < |xs| ==> Lowest(init, xs) <= xs[j]
    ensures Lowest(init, xs) == init || exists j :: 0 <= j < |xs| && Lowest(init, xs) == xs[j]
    decreases |xs|
  {
    if |xs| > 0 {
      var prefix := xs[..|xs| - 1];
      LowestBounds(init, prefix);
      assert forall j :: 0 <= j < |prefix| ==> prefix[j] == xs[j];
    }
  }

  /** The greatest of `init` and xs: at least each of them, and one of them. */
  lemma {:induction false} HighestBounds(init: real, xs: seq<real>)
    ensures Highest(init, xs) >= init
    ensures forall j :: 0 <= j < |xs| ==> Highest(init, xs) >= xs[j]
    ensures Highest(init, xs) == init || exists j :: 0 <= j < |xs| && Highest(init, xs) == xs[j]
    decreases |xs|
  {
    if |xs| > 0 {
      var prefix := xs[..|xs| - 1];
      HighestBounds(init, prefix);
      assert forall j :: 0 <= j < |prefix| ==> prefix[j] == xs[j];
    }
  }

  /** The least known elevation: unknown exactly when none is known, and otherwise at most
      each known one and one of them. */
  lemma {:induction false} LowestKnownBounds(es: seq<Option<real>>)
    ensures LowestKnown(es).None? <==> forall j :: 0 <= j < |es| ==> es[j].None?
    ensures LowestKnown(es).Some? ==>
              && (forall j :: 0 <= j < |es| && es[j].Some? ==> LowestKnown(es).value <= es[j].value)
              && exists j :: 0 <= j < |es| && es[j] == LowestKnown(es)
    decreases |es|
  {
    if |es| > 0 {
      var n := |es|;
      var prefix := es[..n - 1];
      LowestKnownBounds(prefix);
      assert forall j :: 0 <= j < n - 1 ==> prefix[j] == es[j];
      var m := LowestKnown(es);
      if m.Some? {
        if m == LowestKnown(prefix) {
          var j :| 0 <= j < n - 1 && prefix[j] == m;
          assert es[j] == m;
        } else {
          assert es[n - 1] == m;
        }
      }
    }
  }

  /** The greatest known elevation: unknown exactly when none is known, and otherwise at
      least each known one and one of them. */
  lemma {:induction false} HighestKnownBounds(es: seq<Option<real>>)
    ensures HighestKnown(es).None? <==> forall j :: 0 <= j < |es| ==> es[j].None?
    ensures HighestKnown(es).Some? ==>
              && (forall j :: 0 <= j < |es| && es[j].Some? ==> HighestKnown(es).value >= es[j].value)
              && exists j :: 0 <= j < |es| && es[j] == HighestKnown(es)
    decreases |es|
  {
    if |es| > 0 {
      var n := |es|;
      var prefix := es[..n - 1];
      HighestKnownBounds(prefix);
      assert forall j :: 0 <= j < n - 1 ==> prefix[j] == es[j];
      var m := HighestKnown(es);
      if m.Some? {
        if m == HighestKnown(prefix) {
          var j :| 0 <= j < n - 1 && prefix[j] == m;
          assert es[j] == m;
        } else {
          assert es[n - 1] == m;
        }
      }
    }
  }

  /** Gain and loss of a list are those without its last point plus the last segment's
      contribution. */
  lemma {:induction false} GainLossLast(a: seq<Point>)
    requires |a| >= 2
    ensures var r := Rise(a[|a| - 2], a[|a| - 1]);
            && Gain(a) == Gain(a[..|a| - 1]) + (if r.Some? && r.value > 0.0 then r.value else 0.0)
            && Loss(a) == Loss(a[..|a| - 1]) + (if r.Some? && r.value <= 0.0 then -r.value else 0.0)
    decreases |a|
  {
    if |a| > 2 {
      var t := a[1..];
      GainLossLast(t);
      assert t[..|t| - 1] == a[..|a| - 1][1..];
    }
  }

  /** A path that never climbs gains nothing; one that never falls loses nothing. */
  lemma {:induction false} NoClimbNoGain(a: seq<Point>)
    ensures !Climbs(a) ==> Gain(a) == 0.0
    ensures !Falls(a) ==> Loss(a) == 0.0
    decreases |a|
  {
    if |a| > 1 {
      var t := a[1..];
      NoClimbNoGain(t);
      assert forall k :: 0 <= k < |t| - 1 ==> RiseAt(t, k) == RiseAt(a, k + 1);
      assert RiseAt(a, 0) == Rise(a[0], a[1]);
    }
  }

  /** A path climbs when its prefix does or when its last segment rises, and likewise for
      falling. */
  lemma ClimbsFallsSnoc(a: seq<Point>)
    requires |a| >= 2
    ensures var r := Rise(a[|a| - 2], a[|a| - 1]);
            && (Climbs(a) <==> Climbs(a[..|a| - 1]) || (r.Some? && r.value > 0.0))
            && (Falls(a) <==> Falls(a[..|a| - 1]) || (r.Some? && r.value <= 0.0))
  {
    var n := |a|;
    var prefix := a[..n - 1];
    assert forall k :: 0 <= k < n - 2 ==> RiseAt(prefix, k) == RiseAt(a, k);
    assert RiseAt(a, n - 2) == Rise(a[n - 2], a[n - 1]);
  }

  /** One step of a running sum that stays unknown until its first term. */
  lemma SumStep(s0: Option<real>, s: Option<real>, c0: bool, c: bool, total0: real, total: real, t: Option<real>)
    requires s0 == (if c0 then Some(total0) else None)
    requires !c0 ==> total0 == 0.0
    requires c == (c0 || t.Some?)
    requires total == total0 + t.GetOr(0.0)
    requires s == (if t.Some? then Some(s0.GetOr(0.0) + t.value) else s0)
    ensures s == (if c then Some(total) else None)
  {
  }

  /** The ascent is unknown until a segment with both elevations known rises, and is then
      the sum of all rises. */
  lemma {:induction false} AscentIsGain(a: seq<Point>)
    ensures Ascent(a) == (if Climbs(a) then Some(Gain(a)) else None)
    decreases |a|
  {
    var n := |a|;
    if n > 1 {
      var prefix := a[..n - 1];
      AscentIsGain(prefix);
      var r := Rise(a[n - 2], a[n - 1]);
      GainLossLast(a);
      ClimbsFallsSnoc(a);
      NoClimbNoGain(prefix);
      SumStep(Ascent(prefix), Ascent(a), Climbs(prefix), Climbs(a),
              Gain(prefix), Gain(a), if r.Some? && r.value > 0.0 then Some(r.value) else None);
    } else {
      assert !Climbs(a);
    }
  }

  /** The descent is unknown until a segment with both elevations known does not rise (a
      level segment counts), and is then the sum of all falls. */
  lemma {:induction false} DescentIsLoss(a: seq<Point>)
    ensures Descent(a) == (if Falls(a) then Some(Loss(a)) else None)
    decreases |a|
  {
    var n := |a|;
    if n > 1 {
      var prefix := a[..n - 1];
      DescentIsLoss(prefix);
      var r := Rise(a[n - 2], a[n - 1]);
      GainLossLast(a);
      ClimbsFallsSnoc(a);
      NoClimbNoGain(prefix);
      SumStep(Descent(prefix), Descent(a), Falls(prefix), Falls(a),
              Loss(prefix), Loss(a), if r.Some? && r.value <= 0.0 then Some(-r.value) else None);
    } else {
      assert !Falls(a);
    }
  }

  // ---------------------------------------------------------------------------------------
  // What the pass computes.

  /** The pass changes the j-th point only in its cumulative distance, which becomes the
      length of the path up to it, and in its time, which it leaves alone unless speed is
      forced and the point is not the first. */
  lemma PassPointAt(g: Geometry, opts: Options, forced: bool, endDate0: int, a: seq<Point>, j: int)
    requires 0 <= j < |a|
    ensures var q := Pass(g, opts, forced, endDate0, a).points[j];
            && SamePlace(q, a[j]) && q.name == a[j].name
            && q.totalDist == Some(PathLength(g, opts.use3dDistance, a[..j + 1]))
            && q.time == (if forced && j > 0 then ForcedEnd(g, opts, endDate0, a[..j + 1]) else a[j].time)
  {
    PassPoints(g, opts, forced, endDate0, a);
    StampedAt(g, opts, forced, endDate0, a, j);
    assert a[..j + 1][j] == a[j];
  }

  /** The bounding box contains every point and each of its sides is either its sentinel
      or the coordinate of some point. */
  lemma PassBoundingBox(g: Geometry, opts: Options, forced: bool, endDate0: int, a: seq<Point>)
    ensures var acc := Pass(g, opts, forced, endDate0, a);
            && (forall j :: 0 <= j < |a| ==> acc.minLat <= a[j].lat <= acc.maxLat && acc.minLon <= a[j].lon <= acc.maxLon)
            && acc.minLat <= 1000.0 && acc.minLon <= 1000.0 && acc.maxLat >= -1000.0 && acc.maxLon >= -1000.0
            && (acc.minLat == 1000.0 || exists j :: 0 <= j < |a| && acc.minLat == a[j].lat)
            && (acc.minLon == 1000.0 || exists j :: 0 <= j < |a| && acc.minLon == a[j].lon)
            && (acc.maxLat == -1000.0 || exists j :: 0 <= j < |a| && acc.maxLat == a[j].lat)
            && (acc.maxLon == -1000.0 || exists j :: 0 <= j < |a| && acc.maxLon == a[j].lon)
  {
    PassBox(g, opts, forced, endDate0, a);
    LowestBounds(1000.0, Lats(a));
    LowestBounds(1000.0, Lons(a));
    HighestBounds(-1000.0, Lats(a));
    HighestBounds(-1000.0, Lons(a));
  }

  /** The elevation range is unknown exactly when no point has a known elevation, and
      otherwise runs from the least to the greatest known elevation. */
  lemma PassElevationRange(g: Geometry, opts: Options, forced: bool, endDate0: int, a: seq<Point>)
    ensures var acc := Pass(g, opts, forced, endDate0, a);
            && (acc.minEle.None? <==> forall j :: 0 <= j < |a| ==> a[j].ele.None?)
            && (acc.maxEle.None? <==> forall j :: 0 <= j < |a| ==> a[j].ele.None?)
            && (acc.minEle.Some? ==>
                  && (forall j :: 0 <= j < |a| && a[j].ele.Some? ==> acc.minEle.value <= a[j].ele.value <= acc.maxEle.value)
                  && (exists j :: 0 <= j < |a| && a[j].ele == acc.minEle)
                  && (exists j :: 0 <= j < |a| && a[j].ele == acc.maxEle))
  {
    PassElevations(g, opts, forced, endDate0, a);
    LowestKnownBounds(Eles(a));
    HighestKnownBounds(Eles(a));
  }

  /** Ascent and descent are unknown until a segment with both elevations known rises
      (respectively does not rise), and are then the sums of the rises and of the falls. */
  lemma PassAscentDescent(g: Geometry, opts: Options, forced: bool, endDate0: int, a: seq<Point>)
    ensures var acc := Pass(g, opts, forced, endDate0, a);
            && acc.ascent == (if Climbs(a) then Some(Gain(a)) else None)
            && acc.descent == (if Falls(a) then Some(Loss(a)) else None)
  {
    PassClimbs(g, opts, forced, endDate0, a);
    AscentIsGain(a);
    DescentIsLoss(a);
  }

  /** With speed forced and the walk starting from the first point's time, each later
      point's time is the previous point's time plus the step for the segment between
      them. */
  lemma PassForcedStep(g: Geometry, opts: Options, a: seq<Point>, j: int)
    requires 0 < j < |a|
    ensures var acc := Pass(g, opts, true, a[0].time, a);
            acc.points[j].time == acc.points[j - 1].time + Step(g, opts, a[j - 1], a[j])
  {
    PassPointAt(g, opts, true, a[0].time, a, j);
    PassPointAt(g, opts, true, a[0].time, a, j - 1);
    assert a[..j + 1][..j] == a[..j];
  }

  /** With speed forced, the end date is the last point's time. */
  lemma PassForcedEnd(g: Geometry, opts: Options, a: seq<Point>)
    requires |a| > 0
    ensures var acc := Pass(g, opts, true, a[0].time, a);
            acc.endDate == acc.points[|a| - 1].time
  {
    PassEnd(g, opts, true, a[0].time, a);
    PassPointAt(g, opts, true, a[0].time, a, |a| - 1);
    assert a[..|a|] == a;
  }

  /** The speed of the segment from `last` to `p` is positive or not finite: the walk
      moves forward (or not at all) in time along it. */
  predicate Forward(g: Geometry, opts: Options, last: Point, p: Point) {
    var s := SegmentSpeed(opts, Rise(last, p), Distance(g.geodesic, p, last));
    s.None? || s.value > 0.0
  }

  /** Every segment of a is `Forward`. */
  predicate ForwardAlong(g: Geometry, opts: Options, a: seq<Point>) {
    forall i :: 1 <= i < |a| ==> Forward(g, opts, a[i - 1], a[i])
  }

  /** A positive configured speed without the walking grade makes every segment forward. */
  lemma ConstantSpeedIsForward(g: Geometry, opts: Options, a: seq<Point>)
    requires opts.speed.Some? && opts.speed.value > 0.0 && !opts.walkingGrade
    ensures ForwardAlong(g, opts, a)
  {
  }

  /** Over a forward segment, with non-negative distances, a time step is never
      negative. */
  lemma StepNonNegative(g: Geometry, opts: Options, p: Point, q: Point)
    requires GeodesicLaws(g.geodesic)
    requires Forward(g, opts, p, q)
    ensures Step(g, opts, p, q) >= 0
  {
    assert Distance(g.geodesic, q, p) >= 0.0;
  }

  /** Along forward segments the forced end date grows along the list. */
  lemma {:induction false} ForcedEndGrows(g: Geometry, opts: Options, endDate0: int, a: seq<Point>, j: int, k: int)
    requires 0 <= j <= k < |a|
    requires GeodesicLaws(g.geodesic)
    requires ForwardAlong(g, opts, a)
    ensures ForcedEnd(g, opts, endDate0, a[..j + 1]) <= ForcedEnd(g, opts, endDate0, a[..k + 1])
    decreases k
  {
    if j < k {
      ForcedEndGrows(g, opts, endDate0, a, j, k - 1);
      var b := a[..k + 1];
      assert b[..|b| - 1] == a[..k];
      StepNonNegative(g, opts, a[k - 1], a[k]);
    }
  }

  /** Along forward segments, with non-negative distances, forced times never
      decrease. */
  lemma ForcedTimesNonDecreasing(g: Geometry, opts: Options, a: seq<Point>)
    requires |a| >= 1
    requires GeodesicLaws(g.geodesic)
    requires ForwardAlong(g, opts, a)
    ensures var acc := Pass(g, opts, true, a[0].time, a);
            forall j, k :: 0 <= j <= k < |a| ==> acc.points[j].time <= acc.points[k].time
  {
    var ps := Pass(g, opts, true, a[0].time, a).points;
    forall j, k | 0 <= j <= k < |a|
      ensures ps[j].time <= ps[k].time
    {
      PassPointAt(g, opts, true, a[0].time, a, j);
      PassPointAt(g, opts, true, a[0].time, a, k);
      ForcedEndGrows(g, opts, a[0].time, a, j, k);
    }
  }
}
