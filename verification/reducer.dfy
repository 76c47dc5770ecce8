/**
 Douglas-Peucker simplification of a point list (class Reducer).

 `Reduce` keeps the first and last point of a span and, when the interior point farthest
 from the chord between them lies beyond the tolerance, keeps that point too and
 simplifies the two halves on either side of it; otherwise the span collapses to its
 two end points. A span whose largest deviation is below EPSILON is treated as straight
 and split at its middle index instead.

 The distance of a point from a chord is a parameter `D(p, s, e)`, so `Reduce` and its
 lemmas hold for any element type and any distance. `DistancePointLine` is the distance
 the source plugs in: its degenerate-chord branch is modelled, the planar
 foot-of-perpendicular computation behind the other branch is a parameter too.
 */
module Reducer {
  import opened JavaMath
  import opened GeoMath
  import opened WayPoints

  /** Below this largest deviation a span counts as a straight line. */
  const EPSILON: real := 0.00000001

  /** The planar (longitude, latitude) foot-of-perpendicular distance of p from the line
      through s and e, measured geodesically from p to the foot. */
  type Planar = (Point, Point, Point) -> real

  /** The guard of the degenerate-chord branch of getDistancePointLine. The longitude
      test uses 1e-6, the latitude test 1e6. */
  predicate MeasuresToStart(s: Point, e: Point) {
    Abs(s.lon - e.lon) < 0.000001 && Abs(s.lat - e.lat) < 1000000.0
  }

  /** getDistancePointLine(p, s, e). */
  function DistancePointLine(geo: Geodesic, planar: Planar, p: Point, s: Point, e: Point): (d: real)
    ensures MeasuresToStart(s, e) ==> d == Distance(geo, s, p)
    ensures !MeasuresToStart(s, e) ==> d == planar(p, s, e)
  {
    if MeasuresToStart(s, e) then geo(s.lat, s.lon, p.lat, p.lon) else planar(p, s, e)
  }

  /** For real latitudes the latitude test always passes, so the start-point branch is
      taken exactly when the two longitudes agree to within 1e-6 degrees, even when the
      latitudes differ and the chord is a genuine north-south line. */
  lemma StartBranchDependsOnLongitudeOnly(s: Point, e: Point)
    requires -90.0 <= s.lat <= 90.0 && -90.0 <= e.lat <= 90.0
    ensures MeasuresToStart(s, e) <==> Abs(s.lon - e.lon) < 0.000001
  {
  }

  /** On a north-south chord (longitudes equal, latitudes 10 degrees apart) the guard
      passes, so a point halfway along the chord is measured from the chord's start
      instead of from the chord. */
  lemma NorthSouthChordMeasuredFromStart(geo: Geodesic, planar: Planar)
    ensures var s := NewLatLon(0.0, 0.0);
            var e := NewLatLon(10.0, 0.0);
            var p := NewLatLon(5.0, 0.0);
            && MeasuresToStart(s, e)
            && Abs(s.lat - e.lat) == 10.0
            && DistancePointLine(geo, planar, p, s, e) == geo(0.0, 0.0, 5.0, 0.0)
  {
  }

  /** The guard as its comment describes it: start and end are the same point, to within
      1e-6 degrees in both coordinates. */
  predicate SameEnds(s: Point, e: Point) {
    Abs(s.lon - e.lon) < 0.000001 && Abs(s.lat - e.lat) < 0.000001
  }

  /** getDistancePointLine with the latitude tolerance 1e-6 that its comment describes. */
  function DistancePointLineIntended(geo: Geodesic, planar: Planar, p: Point, s: Point, e: Point): (d: real)
    ensures SameEnds(s, e) ==> d == Distance(geo, s, p)
    ensures !SameEnds(s, e) ==> d == planar(p, s, e)
  {
    if SameEnds(s, e) then geo(s.lat, s.lon, p.lat, p.lon) else planar(p, s, e)
  }

  /** With the intended guard a chord whose ends are apart in either coordinate is
      measured as a chord, and the intended guard is the original one narrowed in latitude
      only. */
  lemma IntendedMeasuresChordWhenEndsApart(geo: Geodesic, planar: Planar, p: Point, s: Point, e: Point)
    ensures Abs(s.lat - e.lat) >= 0.000001 || Abs(s.lon - e.lon) >= 0.000001 ==>
              DistancePointLineIntended(geo, planar, p, s, e) == planar(p, s, e)
    ensures SameEnds(s, e) ==> MeasuresToStart(s, e)
    ensures SameEnds(s, e) ==> DistancePointLineIntended(geo, planar, p, s, e) == DistancePointLine(geo, planar, p, s, e)
  {
  }

  /** Deviation of the j-th point of a span from the span's chord. */
  function Deviation<T>(t: seq<T>, D: (T, T, T) -> real, j: int): real
    requires 0 <= j < |t|
  {
    D(t[j], t[0], t[|t| - 1])
  }

  /** The scan loop of getPointIndexWithBiggestDistanceToLine from interior index i on,
      with the largest deviation seen so far and its index. A point replaces the current
      maximum only when it is strictly larger, so the first maximal point wins. */
  function MaxScan<T>(t: seq<T>, D: (T, T, T) -> real, i: nat, maxD: real, maxI: nat): (res: (real, nat))
    requires 1 <= i <= |t|
    ensures res.0 >= maxD
    ensures forall j :: i <= j < |t| - 1 ==> Deviation(t, D, j) <= res.0
    ensures || (res.0 == maxD && res.1 == maxI)
            || (&& i <= res.1 < |t| - 1
                && res.0 == Deviation(t, D, res.1)
                && res.0 > maxD
                && forall j :: i <= j < res.1 ==> Deviation(t, D, j) < res.0)
    decreases |t| - i
  {
    if i >= |t| - 1 then
      (maxD, maxI)
    else
      var d := Deviation(t, D, i);
      if d > maxD then MaxScan(t, D, i + 1, d, i) else MaxScan(t, D, i + 1, maxD, maxI)
  }

  /** getPointIndexWithBiggestDistanceToLine: the first interior point of largest
      deviation, or the middle index when no interior point deviates by EPSILON or more. */
  function SplitIndex<T>(t: seq<T>, D: (T, T, T) -> real): (p: nat)
    requires |t| >= 1
    ensures p < |t|
    ensures |t| >= 3 ==> 1 <= p <= |t| - 2
    ensures (exists j :: 1 <= j < |t| - 1 && Deviation(t, D, j) >= EPSILON) ==>
              && 1 <= p < |t| - 1
              && (forall j :: 1 <= j < |t| - 1 ==> Deviation(t, D, j) <= Deviation(t, D, p))
              && (forall j :: 1 <= j < p ==> Deviation(t, D, j) < Deviation(t, D, p))
    ensures (forall j :: 1 <= j < |t| - 1 ==> Deviation(t, D, j) < EPSILON) ==> p == |t| / 2
  {
    var (m, k) := MaxScan(t, D, 1, 0.0, 0);
    var p := if |t| <= 2 then 0 else k;
    if m < EPSILON then |t| / 2 else p
  }

  /** reduce(t, tolerance). */
  function Reduce<T>(t: seq<T>, tolerance: real, D: (T, T, T) -> real): (r: seq<T>)
    ensures tolerance <= 0.0 || |t| <= 2 ==> r == t
    ensures |t| >= 2 ==> 2 <= |r| <= |t|
    ensures |t| >= 1 ==> |r| >= 1 && r[0] == t[0] && r[|r| - 1] == t[|t| - 1]
    ensures |t| >= 3 && tolerance > 0.0 && Deviation(t, D, SplitIndex(t, D)) <= tolerance ==>
              r == [t[0], t[|t| - 1]]
    decreases |t|
  {
    if tolerance <= 0.0 || |t| <= 2 then
      t
    else
      var p := SplitIndex(t, D);
      if Deviation(t, D, p) > tolerance then
        var left := Reduce(t[..p + 1], tolerance, D);
        var right := Reduce(t[p..], tolerance, D);
        left + right[1..]
      else
        [t[0], t[|t| - 1]]
  }

  /** When the span is split, the halves share the split point and the result keeps it
      once: the right half's first element is dropped. */
  lemma ReduceKeepsSplitPointOnce<T>(t: seq<T>, tolerance: real, D: (T, T, T) -> real)
    requires tolerance > 0.0 && |t| >= 3
    requires Deviation(t, D, SplitIndex(t, D)) > tolerance
    ensures var p := SplitIndex(t, D);
            var left := Reduce(t[..p + 1], tolerance, D);
            var right := Reduce(t[p..], tolerance, D);
            && left[|left| - 1] == t[p] == right[0]
            && Reduce(t, tolerance, D) == left + right[1..]
            && |Reduce(t, tolerance, D)| == |left| + |right| - 1
  {
  }

  /** idx lists, in increasing order, the positions in t of the elements of r. */
  ghost predicate Embedding<T>(r: seq<T>, t: seq<T>, idx: seq<int>) {
    && |idx| == |r|
    && (forall k {:trigger idx[k]} :: 0 <= k < |idx| ==> 0 <= idx[k] < |t| && r[k] == t[idx[k]])
    && (forall k, l :: 0 <= k < l < |idx| ==> idx[k] < idx[l])
  }

  ghost predicate IsSubsequence<T>(r: seq<T>, t: seq<T>) {
    exists idx :: Embedding(r, t, idx)
  }

  /** Every point of t strictly between positions a and b lies within `tolerance` of the
      chord from t[a] to t[b]. */
  ghost predicate SpanWithin<T>(t: seq<T>, a: int, b: int, D: (T, T, T) -> real, tolerance: real) {
    forall j :: 0 <= a < j < b < |t| ==> D(t[j], t[a], t[b]) <= tolerance
  }

  /** Every point of t strictly between two consecutive kept positions lies within
      `tolerance` of the chord joining them. */
  ghost predicate ChordsWithin<T>(t: seq<T>, idx: seq<int>, D: (T, T, T) -> real, tolerance: real) {
    forall k, l :: 0 <= k < l < |idx| && l == k + 1 ==> SpanWithin(t, idx[k], idx[l], D, tolerance)
  }

  /** The result of `Reduce` is an order-preserving selection of the input that keeps both
      end points; and when the tolerance is at least EPSILON every dropped point lies
      within the tolerance of the chord of the kept points around it, which is what the
      documentation of reduce promises. */
  lemma {:induction false} ReduceSimplifies<T>(t: seq<T>, tolerance: real, D: (T, T, T) -> real)
    returns (idx: seq<int>)
    requires |t| >= 1
    ensures Embedding(Reduce(t, tolerance, D), t, idx)
    ensures |idx| >= 1 && idx[0] == 0 && idx[|idx| - 1] == |t| - 1
    ensures tolerance >= EPSILON ==> ChordsWithin(t, idx, D, tolerance)
    decreases |t|
  {
    if tolerance <= 0.0 || |t| <= 2 {
      idx := IdentityEmbedding(t, D, tolerance);
    } else {
      var p := SplitIndex(t, D);
      if Deviation(t, D, p) > tolerance {
        var left := Reduce(t[..p + 1], tolerance, D);
        var right := Reduce(t[p..], tolerance, D);
        var idx1 := ReduceSimplifies(t[..p + 1], tolerance, D);
        var idx2 := ReduceSimplifies(t[p..], tolerance, D);
        assert Reduce(t, tolerance, D) == left + right[1..];
        idx := SplitSimplifies(t, p, left, right, idx1, idx2, D, tolerance, tolerance >= EPSILON);
      } else {
        idx := CollapseSimplifies(t, tolerance, D);
      }
    }
  }

  /** The split case of ReduceSimplifies: the embeddings of the two halves, which share
      the split point p, join into an embedding of the whole span. */
  lemma SplitSimplifies<T>(t: seq<T>, p: int, left: seq<T>, right: seq<T>, idx1: seq<int>, idx2: seq<int>,
                           D: (T, T, T) -> real, tolerance: real, chords: bool)
    returns (idx: seq<int>)
    requires 0 < p < |t| - 1
    requires Embedding(left, t[..p + 1], idx1)
    requires |idx1| >= 1 && idx1[0] == 0 && idx1[|idx1| - 1] == p
    requires Embedding(right, t[p..], idx2)
    requires |idx2| >= 1 && idx2[0] == 0 && idx2[|idx2| - 1] == |t| - 1 - p
    requires chords ==> ChordsWithin(t[..p + 1], idx1, D, tolerance) && ChordsWithin(t[p..], idx2, D, tolerance)
    ensures Embedding(left + right[1..], t, idx)
    ensures |idx| >= 1 && idx[0] == 0 && idx[|idx| - 1] == |t| - 1
    ensures chords ==> ChordsWithin(t, idx, D, tolerance)
  {
    idx := JoinEmbeddings(t, p, left, right, idx1, idx2);
    if chords {
      JoinChords(t, p, idx1, idx2, D, tolerance);
    }
  }

  /** The collapse case of ReduceSimplifies. */
  lemma CollapseSimplifies<T>(t: seq<T>, tolerance: real, D: (T, T, T) -> real) returns (idx: seq<int>)
    requires tolerance > 0.0 && |t| >= 3
    requires Deviation(t, D, SplitIndex(t, D)) <= tolerance
    ensures Embedding(Reduce(t, tolerance, D), t, idx)
    ensures |idx| >= 1 && idx[0] == 0 && idx[|idx| - 1] == |t| - 1
    ensures tolerance >= EPSILON ==> ChordsWithin(t, idx, D, tolerance)
  {
    idx := [0, |t| - 1];
    if tolerance >= EPSILON {
      CollapsedChordWithin(t, D, tolerance);
    }
  }

  lemma IdentityEmbedding<T>(t: seq<T>, D: (T, T, T) -> real, tolerance: real) returns (idx: seq<int>)
    ensures Embedding(t, t, idx)
    ensures ChordsWithin(t, idx, D, tolerance)
    ensures |t| >= 1 ==> |idx| >= 1 && idx[0] == 0 && idx[|idx| - 1] == |t| - 1
  {
    idx := seq(|t|, k => k);
  }

  function Shifted(idx2: seq<int>, p: int): (s: seq<int>)
    requires |idx2| >= 1
    ensures |s| == |idx2| - 1
    ensures forall k :: 0 <= k < |s| ==> s[k] == p + idx2[k + 1]
  {
    seq(|idx2| - 1, k requires 0 <= k < |idx2| - 1 => p + idx2[k + 1])
  }

  lemma JoinEmbeddings<T>(t: seq<T>, p: int, left: seq<T>, right: seq<T>, idx1: seq<int>, idx2: seq<int>)
    returns (idx: seq<int>)
    requires 0 <= p < |t|
    requires Embedding(left, t[..p + 1], idx1) && |idx1| >= 1 && idx1[|idx1| - 1] == p
    requires Embedding(right, t[p..], idx2) && |idx2| >= 1 && idx2[0] == 0
    ensures idx == idx1 + Shifted(idx2, p)
    ensures Embedding(left + right[1..], t, idx)
    ensures idx[0] == idx1[0]
    ensures |idx2| >= 2 ==> idx[|idx| - 1] == p + idx2[|idx2| - 1]
  {
    idx := idx1 + Shifted(idx2, p);
    var r := left + right[1..];
    forall k | 0 <= k < |idx|
      ensures 0 <= idx[k] < |t| && r[k] == t[idx[k]]
    {
      if k < |idx1| {
        assert t[..p + 1][idx1[k]] == t[idx1[k]];
      } else {
        var m := k - |idx1| + 1;
        assert idx[k] == p + idx2[m];
        assert t[p..][idx2[m]] == t[p + idx2[m]];
      }
    }
    forall k, l | 0 <= k < l < |idx|
      ensures idx[k] < idx[l]
    {
      if l < |idx1| {
      } else if k < |idx1| {
        var m := l - |idx1| + 1;
        assert idx2[0] < idx2[m];
        assert idx1[k] <= p;
      } else {
        assert idx2[k - |idx1| + 1] < idx2[l - |idx1| + 1];
      }
    }
  }

  lemma JoinChords<T>(t: seq<T>, p: int, idx1: seq<int>, idx2: seq<int>, D: (T, T, T) -> real, tolerance: real)
    requires 0 <= p < |t|
    requires |idx1| >= 1 && idx1[|idx1| - 1] == p
    requires forall k :: 0 <= k < |idx1| ==> 0 <= idx1[k] < p + 1
    requires |idx2| >= 1 && idx2[0] == 0
    requires forall k :: 0 <= k < |idx2| ==> 0 <= idx2[k] < |t| - p
    requires ChordsWithin(t[..p + 1], idx1, D, tolerance)
    requires ChordsWithin(t[p..], idx2, D, tolerance)
    ensures ChordsWithin(t, idx1 + Shifted(idx2, p), D, tolerance)
  {
    var idx := idx1 + Shifted(idx2, p);
    forall k, l | 0 <= k < l < |idx| && l == k + 1
      ensures SpanWithin(t, idx[k], idx[l], D, tolerance)
    {
      if l < |idx1| {
        var u := t[..p + 1];
        assert SpanWithin(u, idx1[k], idx1[l], D, tolerance);
        forall j | 0 <= idx[k] < j < idx[l] < |t|
          ensures D(t[j], t[idx[k]], t[idx[l]]) <= tolerance
        {
          assert u[j] == t[j] && u[idx1[k]] == t[idx1[k]] && u[idx1[l]] == t[idx1[l]];
        }
      } else {
        var m := k - |idx1| + 1;
        var v := t[p..];
        assert idx[k] == p + idx2[m] && idx[l] == p + idx2[m + 1];
        assert SpanWithin(v, idx2[m], idx2[m + 1], D, tolerance);
        forall j | 0 <= idx[k] < j < idx[l] < |t|
          ensures D(t[j], t[idx[k]], t[idx[l]]) <= tolerance
        {
          assert v[j - p] == t[j] && v[idx2[m]] == t[idx[k]] && v[idx2[m + 1]] == t[idx[l]];
          assert D(v[j - p], v[idx2[m]], v[idx2[m + 1]]) <= tolerance;
        }
      }
    }
  }

  /** A span collapses only when its chosen point is within tolerance; with a tolerance of
      at least EPSILON that bounds every interior point. */
  lemma CollapsedChordWithin<T>(t: seq<T>, D: (T, T, T) -> real, tolerance: real)
    requires |t| >= 3 && tolerance >= EPSILON
    requires Deviation(t, D, SplitIndex(t, D)) <= tolerance
    ensures ChordsWithin(t, [0, |t| - 1], D, tolerance)
  {
    var idx := [0, |t| - 1];
    forall j | 0 < j < |t| - 1
      ensures D(t[j], t[0], t[|t| - 1]) <= tolerance
    {
      assert Deviation(t, D, j) == D(t[j], t[0], t[|t| - 1]);
    }
    assert SpanWithin(t, idx[0], idx[1], D, tolerance);
  }

  lemma ReduceIsSubsequence<T>(t: seq<T>, tolerance: real, D: (T, T, T) -> real)
    ensures IsSubsequence(Reduce(t, tolerance, D), t)
  {
    if |t| == 0 {
      assert Embedding(Reduce(t, tolerance, D), t, []);
    } else {
      var idx := ReduceSimplifies(t, tolerance, D);
    }
  }

  /** Below EPSILON the guarantee fails: here the only deviating point (index 1, at 5e-9)
      is below EPSILON, so the split falls on the middle point, which lies on the
      chord; the span collapses and drops index 1 although it is farther than the
      tolerance 1e-9 from the chord. */
  lemma BelowEpsilonDropsDeviatingPoint()
    ensures var t := [0, 1, 2, 3, 4];
            var D := (p: int, s: int, e: int) => if p == 1 then 0.000000005 else 0.0;
            && Reduce(t, 0.000000001, D) == [0, 4]
            && D(t[1], t[0], t[4]) > 0.000000001
  {
    var t := [0, 1, 2, 3, 4];
    var D := (p: int, s: int, e: int) => if p == 1 then 0.000000005 else 0.0;
    assert MaxScan(t, D, 1, 0.0, 0) == (0.000000005, 1);
    assert SplitIndex(t, D) == 2;
  }
}
