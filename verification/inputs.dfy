/**
 The three point lists a converter is built from (constructor of class Gpx2Fit), and the
 rule that picks the one list the conversion pass walks over: the track points when there
 are any, else the route points, else the waypoints.

 Reading and parsing the GPX document is not part of this model: a parsed document is given
 as its three lists of `GpxPoint`s, tracks and segments already flattened in document order.
 */
module Inputs {
  import opened JavaMath
  import opened WayPoints
  import opened Gpx2FitOptions

  datatype Lists = Lists(trk: seq<Point>, rte: seq<Point>, wpt: seq<Point>)

  /** `map(WayPoint::new)` over a list of parsed points. */
  function FromGpxAll(s: seq<GpxPoint>): (r: seq<Point>)
    ensures |r| == |s|
    ensures forall j :: 0 <= j < |s| ==> r[j] == FromGpx(s[j])
  {
    seq(|s|, j requires 0 <= j < |s| => FromGpx(s[j]))
  }

  /** The lists the constructor keeps: each one is empty unless its option is on. */
  function Load(opts: Options, trk: seq<GpxPoint>, rte: seq<GpxPoint>, wpt: seq<GpxPoint>): (l: Lists)
    ensures l.trk == (if opts.tracks then FromGpxAll(trk) else [])
    ensures l.rte == (if opts.routes then FromGpxAll(rte) else [])
    ensures l.wpt == (if opts.waypoints then FromGpxAll(wpt) else [])
  {
    Lists(
      if opts.tracks then FromGpxAll(trk) else [],
      if opts.routes then FromGpxAll(rte) else [],
      if opts.waypoints then FromGpxAll(wpt) else [])
  }

  /** Every loaded point has a known elevation (a missing one reads as 0) and no cumulative
      distance yet, so an unknown elevation never comes out of a GPX document. */
  lemma LoadedPointsHaveElevation(opts: Options, trk: seq<GpxPoint>, rte: seq<GpxPoint>, wpt: seq<GpxPoint>)
    ensures var l := Load(opts, trk, rte, wpt);
            && (forall j :: 0 <= j < |l.trk| ==> l.trk[j].ele.Some? && l.trk[j].totalDist.None?)
            && (forall j :: 0 <= j < |l.rte| ==> l.rte[j].ele.Some? && l.rte[j].totalDist.None?)
            && (forall j :: 0 <= j < |l.wpt| ==> l.wpt[j].ele.Some? && l.wpt[j].totalDist.None?)
  {
  }

  /** `pointsToUse`: the first non-empty list among track, route and waypoints. */
  function Aggregate(l: Lists): (a: seq<Point>)
    ensures a == l.trk || a == l.rte || a == l.wpt
    ensures |a| == 0 <==> |l.trk| == 0 && |l.rte| == 0 && |l.wpt| == 0
    ensures |l.trk| > 0 ==> a == l.trk
    ensures |l.trk| == 0 && |l.rte| > 0 ==> a == l.rte
  {
    if |l.trk| > 0 then l.trk
    else if |l.rte| > 0 then l.rte
    else l.wpt
  }
}
