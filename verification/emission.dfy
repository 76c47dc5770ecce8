/**
 The message-writing half of writeFit, after the lap: the two distance thresholds, the
 course points for waypoints and route points, the course points injected along the
 track, and the track records. The loops are written as the code walks them; lemmas then
 say what each one emits in terms of the thinning of module Thinning.

 `ps` is always the track list as the conversion pass left it: each point carries the
 cumulative distance the pass stamped on it and, when speed was forced, its synthetic
 time.
 */
module Emission {
  import opened JavaMath
  import opened WayPoints
  import opened FitMessages
  import opened Thinning

  // ---------------------------------------------------------------------------------------
  // Thresholds.

  /** `cp_min_dist`: a 48th of the course length, raised to the configured minimum. */
  function CoursePointGap(totalDist: real, minCoursePointDistance: real): (gap: real)
    ensures gap >= minCoursePointDistance && gap >= totalDist / 48.0
    ensures gap == minCoursePointDistance || gap == totalDist / 48.0
  {
    var share := totalDist / 48.0;
    if share < minCoursePointDistance then minCoursePointDistance else share
  }

  /** `pt_min_dist`: the course length shared out over the point budget (0 without a
      budget), raised to the configured minimum. */
  function RecordGap(totalDist: real, maxPoints: int, minRoutePointDistance: real): (gap: real)
    ensures gap >= minRoutePointDistance
    ensures maxPoints != 0 ==> gap >= totalDist / maxPoints as real
    ensures maxPoints == 0 ==> gap >= 0.0
    ensures gap == minRoutePointDistance || (maxPoints != 0 && gap == totalDist / maxPoints as real)
                                         || (maxPoints == 0 && gap == 0.0)
  {
    var share := if maxPoints != 0 then totalDist / maxPoints as real else 0.0;
    if share < minRoutePointDistance then minRoutePointDistance else share
  }

  /** `skipExtraCP`: the waypoint and route point course points are left out when there is
      a point budget and the three lists together exceed it. */
  predicate SkipCues(maxPoints: int, trkSize: nat, rteSize: nat, wptSize: nat) {
    maxPoints != 0 && trkSize + rteSize + wptSize > maxPoints
  }

  // ---------------------------------------------------------------------------------------
  // Course points for waypoints and route points.

  /** The course point for a waypoint or route point: position and name (empty when the
      point has none), no distance and no timestamp. */
  function Cue(p: Point): (m: Msg)
    ensures m.CoursePoint? && m.distance.None? && m.timestamp.None?
    ensures m.lat == LatSemi(p) && m.lon == LonSemi(p)
    ensures p.name.Some? ==> m.name == p.name.value
    ensures p.name.None? ==> m.name == ""
  {
    CoursePoint(LatSemi(p), LonSemi(p), p.name.GetOr(""), None, None)
  }

  /** One course point per point, in list order. */
  function Cues(ps: seq<Point>): (ms: seq<Msg>)
    ensures |ms| == |ps|
    ensures forall j :: 0 <= j < |ps| ==> ms[j] == Cue(ps[j])
    decreases |ps|
  {
    if |ps| == 0 then [] else [Cue(ps[0])] + Cues(ps[1..])
  }

  // ---------------------------------------------------------------------------------------
  // The track loops.

  /** The cumulative distance the pass stamped on a track point. The pass stamps every
      point it visits (ConversionPass.PassPointAt), so the fallback 0 is never taken. */
  function Dist(p: Point): real {
    p.totalDist.GetOr(0.0)
  }

  function Dists(ps: seq<Point>): (ds: seq<real>)
    ensures |ds| == |ps|
    ensures forall j :: 0 <= j < |ps| ==> ds[j] == Dist(ps[j])
  {
    seq(|ps|, j requires 0 <= j < |ps| => Dist(ps[j]))
  }

  /** The timestamp of the j-th track point (0-based) in both track loops: its own time
      when the course has a duration, else one second per point after REF, counting from
      one. */
  function StampTime(ps: seq<Point>, duration: int, j: int): (ts: int)
    requires 0 <= j < |ps|
    ensures duration != 0 ==> ts == ps[j].time
    ensures duration == 0 ==> ts == REF + (j + 1) * 1000
  {
    if duration != 0 then ps[j].time else REF + (j + 1) * 1000
  }

  /** The name an injected course point carries. */
  datatype Label = Start | End | Unnamed

  function LabelName(l: Label): string {
    match l
    case Start => "Start"
    case End => "End"
    case Unnamed => ""
  }

  /** An injected course point before it becomes a message: the index of the track point
      it is placed at, and its kind. */
  datatype Spot = Spot(at: nat, kind: Label)

  /** The injection loop from track point j on, over the track's cumulative distances ds,
      `lc` being the distance of the last unnamed course point (initially 0). Point 0
      yields "Start"; the last point yields "End" (a one-point track yields both); any other
      point yields an unnamed course point when it is more than `gap` beyond `lc`, and only
      those move `lc`. */
  function InjectLoop(ds: seq<real>, gap: real, j: nat, lc: real): (spots: seq<Spot>)
    requires j <= |ds|
    ensures j < |ds| <==> |spots| > 0
    ensures j == 0 < |ds| ==> spots[0] == Spot(0, Start)
    decreases |ds| - j
  {
    if j == |ds| then []
    else
      var keep := j < |ds| - 1 && ds[j] - lc > gap;
      var here := if j == |ds| - 1 then [Spot(j, End)] else if keep then [Spot(j, Unnamed)] else [];
      var rest := here + InjectLoop(ds, gap, j + 1, if keep then ds[j] else lc);
      if j == 0 then [Spot(0, Start)] + rest else rest
  }

  /** Unnamed course points at the given track indices, followed by `tail`. */
  function UnnamedThen(idx: seq<nat>, tail: seq<Spot>): (spots: seq<Spot>)
    ensures |spots| == |idx| + |tail|
  {
    if |idx| == 0 then tail else [Spot(idx[0], Unnamed)] + UnnamedThen(idx[1..], tail)
  }

  lemma {:induction false} UnnamedThenAt(idx: seq<nat>, tail: seq<Spot>)
    ensures forall k :: 0 <= k < |idx| ==> UnnamedThen(idx, tail)[k] == Spot(idx[k], Unnamed)
    ensures forall k :: |idx| <= k < |idx| + |tail| ==> UnnamedThen(idx, tail)[k] == tail[k - |idx|]
  {
    if |idx| > 0 {
      UnnamedThenAt(idx[1..], tail);
    }
  }

  /** The injection loop places "Start" at the first track point, then an unnamed course
      point at each point before the last that the thinning with the course point gap keeps
      (starting from distance 0), then "End" at the last point. */
  lemma InjectedLayout(ds: seq<real>, gap: real)
    requires |ds| > 0
    ensures InjectLoop(ds, gap, 0, 0.0)
              == [Spot(0, Start)] + UnnamedThen(Greedy(ds[..|ds| - 1], 0, 0.0, gap), [Spot(|ds| - 1, End)])
  {
    var e := ds[..|ds| - 1];
    if |ds| == 1 {
      assert Greedy(e, 0, 0.0, gap) == [];
    } else if ds[0] - 0.0 > gap {
      InjectTail(ds, gap, 1, ds[0]);
      InjectKeep(ds, gap, 0, 0.0);
    } else {
      InjectTail(ds, gap, 1, 0.0);
      assert Greedy(e, 0, 0.0, gap) == Greedy(e, 1, 0.0, gap);
    }
  }

  /** From track point j >= 1 on, the loop places an unnamed course point at each point
      before the last that the thinning keeps from j with reference `lc`, then "End". */
  lemma {:induction false} InjectTail(ds: seq<real>, gap: real, j: nat, lc: real)
    requires 1 <= j < |ds|
    ensures InjectLoop(ds, gap, j, lc) == UnnamedThen(Greedy(ds[..|ds| - 1], j, lc, gap), [Spot(|ds| - 1, End)])
    decreases |ds| - j
  {
    var e := ds[..|ds| - 1];
    if j == |ds| - 1 {
      assert Greedy(e, j, lc, gap) == [];
    } else if ds[j] - lc > gap {
      InjectTail(ds, gap, j + 1, ds[j]);
      InjectKeep(ds, gap, j, lc);
    } else {
      InjectTail(ds, gap, j + 1, lc);
      assert Greedy(e, j, lc, gap) == Greedy(e, j + 1, lc, gap);
    }
  }

  /** Keeping a point before the last puts it in front of what is kept after it. */
  lemma InjectKeep(ds: seq<real>, gap: real, j: nat, lc: real)
    requires j < |ds| - 1 && ds[j] - lc > gap
    ensures UnnamedThen(Greedy(ds[..|ds| - 1], j, lc, gap), [Spot(|ds| - 1, End)])
            == [Spot(j, Unnamed)] + UnnamedThen(Greedy(ds[..|ds| - 1], j + 1, ds[j], gap), [Spot(|ds| - 1, End)])
  {
    var g := Greedy(ds[..|ds| - 1], j + 1, ds[j], gap);
    assert Greedy(ds[..|ds| - 1], j, lc, gap) == [j] + g;
    assert ([j] + g)[1..] == g;
  }

  /** The injection loop only places course points on track points from j on. */
  lemma {:induction false} InjectBounds(ds: seq<real>, gap: real, j: nat, lc: real)
    requires j <= |ds|
    ensures forall k :: 0 <= k < |InjectLoop(ds, gap, j, lc)| ==> j <= InjectLoop(ds, gap, j, lc)[k].at < |ds|
    decreases |ds| - j
  {
    if j < |ds| {
      var lc' := if j < |ds| - 1 && ds[j] - lc > gap then ds[j] else lc;
      InjectBounds(ds, gap, j + 1, lc');
    }
  }

  /** An injected course point at track point j. */
  function Mark(ps: seq<Point>, duration: int, j: int, name: string): (m: Msg)
    requires 0 <= j < |ps|
    ensures m.CoursePoint? && m.name == name
    ensures m.lat == LatSemi(ps[j]) && m.lon == LonSemi(ps[j])
    ensures ps[j].totalDist.Some? ==> m.distance == Some(ps[j].totalDist.value)
    ensures duration != 0 ==> m.timestamp == Some(ps[j].time)
    ensures duration == 0 ==> m.timestamp == Some(REF + (j + 1) * 1000)
  {
    CoursePoint(LatSemi(ps[j]), LonSemi(ps[j]), name, Some(Dist(ps[j])), Some(StampTime(ps, duration, j)))
  }

  /** The course points for a run of spots, in order. */
  function Marks(ps: seq<Point>, duration: int, spots: seq<Spot>): (ms: seq<Msg>)
    requires forall k :: 0 <= k < |spots| ==> spots[k].at < |ps|
    ensures |ms| == |spots|
  {
    if |spots| == 0 then []
    else [Mark(ps, duration, spots[0].at, LabelName(spots[0].kind))] + Marks(ps, duration, spots[1..])
  }

  lemma {:induction false} MarksAt(ps: seq<Point>, duration: int, spots: seq<Spot>)
    requires forall k :: 0 <= k < |spots| ==> spots[k].at < |ps|
    ensures forall k :: 0 <= k < |spots| ==>
              Marks(ps, duration, spots)[k] == Mark(ps, duration, spots[k].at, LabelName(spots[k].kind))
  {
    if |spots| > 0 {
      MarksAt(ps, duration, spots[1..]);
    }
  }

  /** The injected course points of a track, as messages. */
  function Injected(ps: seq<Point>, duration: int, gap: real): (ms: seq<Msg>)
  {
    InjectBounds(Dists(ps), gap, 0, 0.0);
    Marks(ps, duration, InjectLoop(Dists(ps), gap, 0, 0.0))
  }

  /** A non-empty track gets a "Start" course point at its first point, then an unnamed one
      at each point before the last that the thinning with the course point gap keeps,
      then "End" at its last point, each with the point's position, cumulative distance and
      timestamp. */
  lemma InjectedCoursePoints(ps: seq<Point>, duration: int, gap: real)
    requires |ps| > 0
    ensures var ms := Injected(ps, duration, gap);
            var idx := Greedy(Dists(ps)[..|ps| - 1], 0, 0.0, gap);
            && |ms| == |idx| + 2
            && ms[0] == Mark(ps, duration, 0, "Start")
            && (forall k :: 0 <= k < |idx| ==> ms[k + 1] == Mark(ps, duration, idx[k], ""))
            && ms[|ms| - 1] == Mark(ps, duration, |ps| - 1, "End")
  {
    var ds := Dists(ps);
    var spots := InjectLoop(ds, gap, 0, 0.0);
    InjectedSpots(ds, gap);
    InjectBounds(ds, gap, 0, 0.0);
    MarksAt(ps, duration, spots);
  }

  /** The spots of the injection loop one by one. */
  lemma InjectedSpots(ds: seq<real>, gap: real)
    requires |ds| > 0
    ensures var spots := InjectLoop(ds, gap, 0, 0.0);
            var idx := Greedy(ds[..|ds| - 1], 0, 0.0, gap);
            && |spots| == |idx| + 2
            && spots[0] == Spot(0, Start)
            && (forall k :: 0 <= k < |idx| ==> spots[k + 1] == Spot(idx[k], Unnamed))
            && spots[|idx| + 1] == Spot(|ds| - 1, End)
  {
    var idx := Greedy(ds[..|ds| - 1], 0, 0.0, gap);
    var x := UnnamedThen(idx, [Spot(|ds| - 1, End)]);
    InjectedLayout(ds, gap);
    UnnamedThenAt(idx, [Spot(|ds| - 1, End)]);
    assert x[|idx|] == Spot(|ds| - 1, End);
  }

  /** A record at a position, distance, timestamp and elevation, with the speed over the
      distance and time since the previous record (`lDist`, `lts`); 0 when no time has
      passed. */
  function RecordOf(lat: int, lon: int, dist: real, ts: int, ele: Option<real>, lDist: real, lts: int): (m: Msg)
    ensures m.Record? && m.lat == lat && m.lon == lon && m.recDistance == dist
    ensures m.recTimestamp == ts && m.altitude == ele
    ensures ts == lts ==> m.speed == 0.0
    ensures ts != lts ==> m.speed * (ts - lts) as real == (dist - lDist) * 1000.0
  {
    Record(lat, lon, dist, ts, ele, if lts != ts then (dist - lDist) / (ts - lts) as real * 1000.0 else 0.0)
  }

  /** The record for track point p, recorded at `ts`. */
  function RecordAt(p: Point, ts: int, lDist: real, lts: int): (m: Msg)
    ensures m.Record? && m.lat == LatSemi(p) && m.lon == LonSemi(p)
    ensures m.recDistance == Dist(p) && m.recTimestamp == ts && m.altitude == p.ele
  {
    RecordOf(LatSemi(p), LonSemi(p), Dist(p), ts, p.ele, lDist, lts)
  }

  /** The record loop from track point j on, (`lDist`, `lts`) being the distance and
      timestamp of the last record (initially 0 and the start date). Point 0 is always
      recorded; a later point when it is more than `gap` beyond the last record. */
  function RecordLoop(ps: seq<Point>, duration: int, gap: real, j: nat, lDist: real, lts: int): (rs: seq<Msg>)
    requires j <= |ps|
    ensures |rs| <= |ps| - j
    ensures forall k :: 0 <= k < |rs| ==> rs[k].Record?
    decreases |ps| - j
  {
    if j == |ps| then []
    else
      var ts := StampTime(ps, duration, j);
      if j == 0 || Dist(ps[j]) - lDist > gap then
        [RecordAt(ps[j], ts, lDist, lts)] + RecordLoop(ps, duration, gap, j + 1, Dist(ps[j]), ts)
      else
        RecordLoop(ps, duration, gap, j + 1, lDist, lts)
  }

  /** Speed m reports the average over the distance and time since (d0, t0): zero when
      no time has passed, else such that speed times elapsed milliseconds is a thousand
      times the distance covered. */
  ghost predicate SpeedSince(m: Msg, d0: real, t0: int)
    requires m.Record?
  {
    if m.recTimestamp == t0 then m.speed == 0.0
    else m.speed * (m.recTimestamp - t0) as real == (m.recDistance - d0) * 1000.0
  }

  /** A record's speed is the average since (lDist, lts). */
  lemma SpeedOf(lat: int, lon: int, dist: real, ts: int, ele: Option<real>, lDist: real, lts: int)
    ensures var m := RecordOf(lat, lon, dist, ts, ele, lDist, lts); m.Record? && SpeedSince(m, lDist, lts)
  {
    var m := RecordOf(lat, lon, dist, ts, ele, lDist, lts);
    if lts != ts {
      var dt := (ts - lts) as real;
      var dd := dist - lDist;
      assert m.speed == dd / dt * 1000.0;
      assert dd / dt * dt == dd;
      assert m.speed * dt == dd * 1000.0;
    }
  }

  /** The records at the track indices idx, in order, the first with its speed since
      (lDist, lts), each later one since the record before. */
  function RecordsAt(ps: seq<Point>, duration: int, idx: seq<nat>, lDist: real, lts: int): (rs: seq<Msg>)
    requires forall k :: 0 <= k < |idx| ==> idx[k] < |ps|
    ensures |rs| == |idx|
    decreases |idx|
  {
    if |idx| == 0 then []
    else
      var j := idx[0];
      var ts := StampTime(ps, duration, j);
      [RecordAt(ps[j], ts, lDist, lts)] + RecordsAt(ps, duration, idx[1..], Dist(ps[j]), ts)
  }

  /** The record loop from point j > 0 on writes the records at the indices the thinning
      keeps from j. */
  lemma {:induction false} RecordLoopIsRecordsAt(ps: seq<Point>, duration: int, gap: real, j: nat, lDist: real, lts: int)
    requires 1 <= j <= |ps|
    ensures RecordLoop(ps, duration, gap, j, lDist, lts) == RecordsAt(ps, duration, Greedy(Dists(ps), j, lDist, gap), lDist, lts)
    decreases |ps| - j
  {
    if j < |ps| {
      var ds := Dists(ps);
      var ts := StampTime(ps, duration, j);
      if ds[j] - lDist > gap {
        RecordLoopIsRecordsAt(ps, duration, gap, j + 1, ds[j], ts);
        var rest := Greedy(ds, j + 1, ds[j], gap);
        assert ([j] + rest)[1..] == rest;
      } else {
        RecordLoopIsRecordsAt(ps, duration, gap, j + 1, lDist, lts);
      }
    }
  }
}
