/**
 writeFit of class Gpx2Fit: the messages of a FIT course file, in the order the encoder
 receives them.

 A converter holds the course name, the options and the three lists its constructor loaded
 (module Inputs). `WriteFit` writes nothing when the aggregate list is empty. Otherwise it
 writes the file id, the course, the lap summarising the conversion pass over the aggregate
 list, the course points for waypoints and route points (unless the point budget is
 exceeded), the timer start, the course points injected along the track (when asked), the
 track records, and the timer stop.

 The two track loops walk the track list. When the track is not empty it is the aggregate
 list, and the loops see its points as the pass left them (the code shares the point
 objects); when it is empty they emit nothing.

 The lemmas say what the messages mean in terms of the input lists: the lap in terms of
 path length, gain and loss, elevation range and bounding box; the course points and
 records in terms of the thinning of module Thinning over the cumulative path lengths; and
 the order of the message kinds.
 */
module Gpx2Fit {
  import opened JavaMath
  import opened GeoMath
  import opened WayPoints
  import opened Gpx2FitOptions
  import opened Inputs
  import opened FitMessages
  import opened ConversionPass
  import opened Thinning
  import opened Emission

  /** An instance of class Gpx2Fit. */
  datatype Converter = Converter(courseName: string, lists: Lists, opts: Options)

  /** The constructor: the name and options kept, the lists loaded as the options say. The
      aggregate list is empty, and so nothing will be written, exactly when every list the
      options ask for is empty in the document. */
  function NewConverter(name: string, opts: Options, trk: seq<GpxPoint>, rte: seq<GpxPoint>, wpt: seq<GpxPoint>): (c: Converter)
    ensures c.courseName == name && c.opts == opts
    ensures c.lists == Load(opts, trk, rte, wpt)
    ensures |Aggregate(c.lists)| == 0 <==>
              (!opts.tracks || |trk| == 0) && (!opts.routes || |rte| == 0) && (!opts.waypoints || |wpt| == 0)
  {
    Converter(name, Load(opts, trk, rte, wpt), opts)
  }

  /** The end date the pass starts from: the start date when speed is forced, else the
      last point's own time. */
  function EndDate0(opts: Options, a: seq<Point>): (e: int)
    requires |a| > 0
    ensures e == a[0].time || e == a[|a| - 1].time
    ensures opts.forceSpeed || a[0].time == a[|a| - 1].time ==> e == a[0].time
    ensures !opts.forceSpeed && opts.speed.None? ==> e == a[|a| - 1].time
  {
    if IsForced(opts, a) then a[0].time else a[|a| - 1].time
  }

  /** The state of writeFit after the conversion pass over the aggregate list a. */
  function Walk(g: Geometry, opts: Options, a: seq<Point>): Acc
    requires |a| > 0
  {
    Pass(g, opts, IsForced(opts, a), EndDate0(opts, a), a)
  }

  /** `duration`: the end date after the pass minus the start date. */
  function Duration(a: seq<Point>, acc: Acc): int
    requires |a| > 0
  {
    acc.endDate - a[0].time
  }

  /** The duration of the course in milliseconds, from the inputs alone: from the first
      point's time to the forced end date when speed is forced, else to the last point's
      time. */
  function CourseDuration(g: Geometry, opts: Options, a: seq<Point>): int
    requires |a| > 0
  {
    (if IsForced(opts, a) then ForcedEnd(g, opts, a[0].time, a) else a[|a| - 1].time) - a[0].time
  }

  /** A known speed, in metres per second, covers `dist` metres in `d` milliseconds. */
  predicate Covers(speed: Option<real>, dist: real, d: int) {
    speed.Some? ==> speed.value * d as real == dist * 1000.0
  }

  /** `(int) (x + 0.5)` applied to a known total ascent or descent: rounded to the nearest
      metre, as a Java int. */
  function RoundClimb(x: Option<real>): (r: Option<int>)
    ensures r.Some? <==> x.Some?
    ensures x.Some? && x.value >= 0.0 ==>
              && 0 <= r.value
              && (r.value < INT_MAX ==> r.value as real - 0.5 <= x.value < r.value as real + 0.5)
  {
    if x.Some? then Some(ToInt(x.value + 0.5)) else None
  }

  /** The lap message for the aggregate list a, from the state `acc` the pass left. */
  function LapOf(a: seq<Point>, acc: Acc): (lap: Lap)
    requires |a| > 0
    ensures lap.timestamp == a[0].time && lap.startTime == a[0].time
    ensures lap.startLat == LatSemi(a[0]) && lap.startLon == LonSemi(a[0])
    ensures lap.endLat == LatSemi(a[|a| - 1]) && lap.endLon == LonSemi(a[|a| - 1])
    ensures lap.totalDistance == acc.totalDist
    ensures lap.totalTimerTime * 1000.0 == Duration(a, acc) as real && lap.totalElapsedTime == lap.totalTimerTime
    ensures lap.avgSpeed.Some? <==> Duration(a, acc) != 0
    ensures Covers(lap.avgSpeed, lap.totalDistance, Duration(a, acc))
  {
    var duration := Duration(a, acc);
    var seconds := duration as real / 1000.0;
    Lap(
      timestamp := a[0].time,
      startTime := a[0].time,
      startLat := LatSemi(a[0]),
      startLon := LonSemi(a[0]),
      endLat := LatSemi(a[|a| - 1]),
      endLon := LonSemi(a[|a| - 1]),
      totalTimerTime := seconds,
      totalDistance := acc.totalDist,
      avgSpeed := if duration != 0 then Some(acc.totalDist * 1000.0 / duration as real) else None,
      totalElapsedTime := seconds,
      totalAscent := RoundClimb(acc.ascent),
      totalDescent := RoundClimb(acc.descent),
      maxAltitude := acc.maxEle,
      minAltitude := acc.minEle,
      boundMaxLat := ToSemiCircles(acc.maxLat),
      boundMaxLon := ToSemiCircles(acc.maxLon),
      boundMinLat := ToSemiCircles(acc.minLat),
      boundMinLon := ToSemiCircles(acc.minLon))
  }

  /** The course points for waypoints, then for route points, unless the point budget is
      exceeded. */
  function CueMsgs(c: Converter): (ms: seq<Msg>)
    ensures |ms| == CueCount(c)
  {
    var l := c.lists;
    if SkipCues(c.opts.maxPoints, |l.trk|, |l.rte|, |l.wpt|) then [] else Cues(l.wpt) + Cues(l.rte)
  }

  /** The budget test in the terms of the options: no budget keeps every cue, a budget
      the three lists fit into keeps every cue, one they exceed drops them all, and so
      does a negative budget. */
  lemma CueBudget(c: Converter)
    ensures var l := c.lists;
            c.opts.maxPoints == 0 || |l.trk| + |l.rte| + |l.wpt| <= c.opts.maxPoints ==>
              CueMsgs(c) == Cues(l.wpt) + Cues(l.rte)
    ensures var l := c.lists;
            c.opts.maxPoints != 0 && |l.trk| + |l.rte| + |l.wpt| > c.opts.maxPoints ==> CueMsgs(c) == []
    ensures c.opts.maxPoints < 0 ==> CueMsgs(c) == []
  {
  }

  /** How many course points the waypoints and route points get. */
  function CueCount(c: Converter): nat {
    var l := c.lists;
    if SkipCues(c.opts.maxPoints, |l.trk|, |l.rte|, |l.wpt|) then 0 else |l.wpt| + |l.rte|
  }

  /** The track as the two track loops see it: when there is one, it is the aggregate list
      and its points are as the pass left them. */
  function Track(c: Converter, acc: Acc): seq<Point> {
    if |c.lists.trk| > 0 then acc.points else []
  }

  /** The course points injected along the track, when asked for. */
  function InjectMsgs(c: Converter, a: seq<Point>, acc: Acc): seq<Msg>
    requires |a| > 0
  {
    if c.opts.injectCoursePoints && |c.lists.trk| > 0 then
      Injected(Track(c, acc), Duration(a, acc), CoursePointGap(acc.totalDist, c.opts.minCoursePointDistance))
    else []
  }

  /** The track records. */
  function RecordMsgs(c: Converter, a: seq<Point>, acc: Acc): seq<Msg>
    requires |a| > 0
  {
    var gap := RecordGap(acc.totalDist, c.opts.maxPoints, c.opts.minRoutePointDistance);
    RecordLoop(Track(c, acc), Duration(a, acc), gap, 0, 0.0, a[0].time)
  }

  /** The timestamp of the timer stop: the one the track loops gave the last track point,
      or REF when there is no track. */
  function StopTime(c: Converter, a: seq<Point>, acc: Acc): (ts: int)
    requires |a| > 0
    ensures |c.lists.trk| == 0 || |acc.points| == 0 ==> ts == REF
    ensures |c.lists.trk| > 0 && |acc.points| > 0 && Duration(a, acc) != 0 ==> ts == acc.points[|acc.points| - 1].time
    ensures |c.lists.trk| > 0 && Duration(a, acc) == 0 ==> ts == REF + |acc.points| * 1000
  {
    var ps := Track(c, acc);
    if |ps| > 0 then StampTime(ps, Duration(a, acc), |ps| - 1) else REF
  }

  /** The messages of a non-empty file, block by block. */
  function Assemble(name: string, lap: Lap, cues: seq<Msg>, startTs: int, inj: seq<Msg>, recs: seq<Msg>, stopTs: int): (ms: seq<Msg>)
    ensures |ms| == 5 + |cues| + |inj| + |recs|
    ensures ms[0] == FileId(12345, 12345) && ms[1] == Course(name) && ms[2] == LapMsg(lap)
    ensures ms[|ms| - 1] == TimerStop(stopTs)
  {
    [FileId(12345, 12345), Course(name), LapMsg(lap)] + cues + [TimerStart(startTs)] + inj + recs + [TimerStop(stopTs)]
  }

  /** The messages of a non-empty conversion of the aggregate list a, the pass having left
      `acc`. */
  function Messages(c: Converter, a: seq<Point>, acc: Acc): (ms: seq<Msg>)
    requires |a| > 0
    ensures |ms| == 5 + CueCount(c) + |InjectMsgs(c, a, acc)| + |RecordMsgs(c, a, acc)|
    ensures ms[2] == LapMsg(LapOf(a, acc)) && ms[3 + CueCount(c)] == TimerStart(a[0].time)
  {
    Assemble(c.courseName, LapOf(a, acc), CueMsgs(c), a[0].time, InjectMsgs(c, a, acc), RecordMsgs(c, a, acc), StopTime(c, a, acc))
  }

  /** writeFit: the messages handed to the encoder. */
  function WriteFit(g: Geometry, c: Converter): (ms: seq<Msg>)
    ensures |ms| == 0 <==> |c.lists.trk| == 0 && |c.lists.rte| == 0 && |c.lists.wpt| == 0
  {
    var a := Aggregate(c.lists);
    if |a| == 0 then [] else Messages(c, a, Walk(g, c.opts, a))
  }

  // ---------------------------------------------------------------------------------------
  // The order of the messages.

  /** The place of a message kind in a course file: file id, course, lap, the course points
      for waypoints and route points (no timestamp), timer start, the course points along
      the track (with a timestamp), records, timer stop. */
  function Rank(m: Msg): int {
    match m
    case FileId(_, _) => 0
    case Course(_) => 1
    case LapMsg(_) => 2
    case CoursePoint(_, _, _, _, ts) => if ts.None? then 3 else 5
    case TimerStart(_) => 4
    case Record(_, _, _, _, _, _) => 6
    case TimerStop(_) => 7
  }

  /** The kinds that may occur more than once. */
  predicate Repeats(r: int) {
    r == 3 || r == 5 || r == 6
  }

  /** Message kinds come in rank order, and a kind that does not repeat occurs at most
      once. */
  ghost predicate Layout(ms: seq<Msg>) {
    forall i, j :: 0 <= i < j < |ms| ==>
      Rank(ms[i]) < Rank(ms[j]) || (Rank(ms[i]) == Rank(ms[j]) && Repeats(Rank(ms[i])))
  }

  /** Appending a block of messages of one rank r above every rank so far keeps the layout. */
  lemma AppendBlock(x: seq<Msg>, y: seq<Msg>, r0: int, r: int)
    requires Layout(x) && r0 < r
    requires forall i :: 0 <= i < |x| ==> Rank(x[i]) <= r0
    requires forall i :: 0 <= i < |y| ==> Rank(y[i]) == r
    requires Repeats(r) || |y| <= 1
    ensures Layout(x + y)
    ensures forall i :: 0 <= i < |x + y| ==> Rank((x + y)[i]) <= r
  {
    var z := x + y;
    forall i, j | 0 <= i < j < |z|
      ensures Rank(z[i]) < Rank(z[j]) || (Rank(z[i]) == Rank(z[j]) && Repeats(Rank(z[i])))
    {
      if j < |x| {
        assert z[i] == x[i] && z[j] == x[j];
      } else if i < |x| {
        assert z[i] == x[i] && z[j] == y[j - |x|];
      } else {
        assert z[i] == y[i - |x|] && z[j] == y[j - |x|];
      }
    }
  }

  lemma CueRanks(c: Converter)
    ensures forall i :: 0 <= i < |CueMsgs(c)| ==> Rank(CueMsgs(c)[i]) == 3
  {
    var l := c.lists;
    if !SkipCues(c.opts.maxPoints, |l.trk|, |l.rte|, |l.wpt|) {
      var x := Cues(l.wpt);
      var y := Cues(l.rte);
      forall i | 0 <= i < |x + y|
        ensures Rank((x + y)[i]) == 3
      {
        if i < |x| {
          assert (x + y)[i] == Cue(l.wpt[i]);
        } else {
          assert (x + y)[i] == Cue(l.rte[i - |x|]);
        }
      }
    }
  }

  lemma InjectRanks(c: Converter, a: seq<Point>, acc: Acc)
    requires |a| > 0
    ensures forall i :: 0 <= i < |InjectMsgs(c, a, acc)| ==> Rank(InjectMsgs(c, a, acc)[i]) == 5
  {
    if c.opts.injectCoursePoints && |c.lists.trk| > 0 {
      var ps := Track(c, acc);
      var gap := CoursePointGap(acc.totalDist, c.opts.minCoursePointDistance);
      var ds := Dists(ps);
      InjectBounds(ds, gap, 0, 0.0);
      MarksAt(ps, Duration(a, acc), InjectLoop(ds, gap, 0, 0.0));
    }
  }

  /** Blocks of ranks 3, 5 and 6 between the fixed messages make a layout that holds every
      kind that does not repeat. */
  lemma AssembleLayout(name: string, lap: Lap, cues: seq<Msg>, startTs: int, inj: seq<Msg>, recs: seq<Msg>, stopTs: int)
    requires forall i :: 0 <= i < |cues| ==> Rank(cues[i]) == 3
    requires forall i :: 0 <= i < |inj| ==> Rank(inj[i]) == 5
    requires forall i :: 0 <= i < |recs| ==> Rank(recs[i]) == 6
    ensures var ms := Assemble(name, lap, cues, startTs, inj, recs, stopTs);
            && Layout(ms)
            && forall r :: 0 <= r <= 7 && !Repeats(r) ==> exists i :: 0 <= i < |ms| && Rank(ms[i]) == r
  {
    var head := [FileId(12345, 12345), Course(name), LapMsg(lap)];
    var x1 := head + cues;
    var x2 := x1 + [TimerStart(startTs)];
    var x3 := x2 + inj;
    var x4 := x3 + recs;
    var ms := x4 + [TimerStop(stopTs)];
    assert Layout(head);
    AppendBlock(head, cues, 2, 3);
    AppendBlock(x1, [TimerStart(startTs)], 3, 4);
    AppendBlock(x2, inj, 4, 5);
    AppendBlock(x3, recs, 5, 6);
    AppendBlock(x4, [TimerStop(stopTs)], 6, 7);
    forall r | 0 <= r <= 7 && !Repeats(r)
      ensures exists i :: 0 <= i < |ms| && Rank(ms[i]) == r
    {
      if r <= 2 {
        assert ms[r] == head[r];
      } else if r == 4 {
        assert ms[|x1|] == TimerStart(startTs);
      } else {
        assert ms[|ms| - 1] == TimerStop(stopTs);
      }
    }
  }

  /** A written file lays its message kinds out in rank order, each non-repeating kind at
      most once; a non-empty file starts with the file id and the course, ends with the
      timer stop, and holds every kind that does not repeat. */
  lemma WriteFitLayout(g: Geometry, c: Converter)
    ensures var ms := WriteFit(g, c);
            && Layout(ms)
            && (|ms| > 0 ==> ms[0] == FileId(12345, 12345) && ms[1] == Course(c.courseName) && ms[|ms| - 1].TimerStop?)
            && (|ms| > 0 ==> forall r :: 0 <= r <= 7 && !Repeats(r) ==> exists i :: 0 <= i < |ms| && Rank(ms[i]) == r)
  {
    var a := Aggregate(c.lists);
    if |a| > 0 {
      var acc := Walk(g, c.opts, a);
      CueRanks(c);
      InjectRanks(c, a, acc);
      AssembleLayout(c.courseName, LapOf(a, acc), CueMsgs(c), a[0].time, InjectMsgs(c, a, acc), RecordMsgs(c, a, acc), StopTime(c, a, acc));
    }
  }

  /** Where each block sits in the messages of a non-empty file. */
  lemma AssembleAt(name: string, lap: Lap, cues: seq<Msg>, startTs: int, inj: seq<Msg>, recs: seq<Msg>, stopTs: int)
    ensures var ms := Assemble(name, lap, cues, startTs, inj, recs, stopTs);
            && |ms| == 5 + |cues| + |inj| + |recs|
            && ms[..3] == [FileId(12345, 12345), Course(name), LapMsg(lap)]
            && ms[3..3 + |cues|] == cues
            && ms[3 + |cues|] == TimerStart(startTs)
            && ms[4 + |cues|..4 + |cues| + |inj|] == inj
            && ms[4 + |cues| + |inj|..|ms| - 1] == recs
            && ms[|ms| - 1] == TimerStop(stopTs)
  {
    var x1 := [FileId(12345, 12345), Course(name), LapMsg(lap)] + cues;
    var x2 := x1 + [TimerStart(startTs)];
    var x3 := x2 + inj;
    var x4 := x3 + recs;
    var ms := x4 + [TimerStop(stopTs)];
    assert ms[..|x4|] == x4;
    assert x4[..|x3|] == x3;
    assert x3[..|x2|] == x2;
    assert x1[3..] == cues;
    assert x3[|x2|..] == inj;
    assert x4[|x3|..] == recs;
  }

  // ---------------------------------------------------------------------------------------
  // The lap.

  /** The lap starts at the first point's time; its distance is the length of the path; its
      duration runs to the forced end date when speed is forced and to the last point's
      time otherwise; its average speed is the distance over the duration, and is absent when
      the duration is zero (Java's quotient is then +Infinity, or NaN for a zero
      distance). */
  lemma LapTotals(g: Geometry, opts: Options, a: seq<Point>)
    requires |a| > 0
    ensures var lap := LapOf(a, Walk(g, opts, a));
            var d := CourseDuration(g, opts, a);
            && lap.timestamp == a[0].time && lap.startTime == a[0].time
            && lap.totalDistance == PathLength(g, opts.use3dDistance, a)
            && lap.totalTimerTime * 1000.0 == d as real && lap.totalElapsedTime == lap.totalTimerTime
            && (lap.avgSpeed.Some? <==> d != 0)
            && Covers(lap.avgSpeed, lap.totalDistance, d)
  {
    WalkTotals(g, opts, a);
  }

  /** The pass over the aggregate list leaves the path length as total distance, and the
      end date the lap's duration runs to. */
  lemma WalkTotals(g: Geometry, opts: Options, a: seq<Point>)
    requires |a| > 0
    ensures var acc := Walk(g, opts, a);
            && acc.totalDist == PathLength(g, opts.use3dDistance, a)
            && Duration(a, acc) == CourseDuration(g, opts, a)
  {
    var forced := IsForced(opts, a);
    PassTotal(g, opts, forced, EndDate0(opts, a), a);
    PassEnd(g, opts, forced, EndDate0(opts, a), a);
  }

  /** Total ascent and descent are written only once a segment with both elevations known
      rises (respectively does not rise), and are then the rounded sums of the rises and of
      the falls. */
  lemma LapClimbs(g: Geometry, opts: Options, a: seq<Point>)
    requires |a| > 0
    ensures var lap := LapOf(a, Walk(g, opts, a));
            && lap.totalAscent == RoundClimb(if Climbs(a) then Some(Gain(a)) else None)
            && lap.totalDescent == RoundClimb(if Falls(a) then Some(Loss(a)) else None)
  {
    PassAscentDescent(g, opts, IsForced(opts, a), EndDate0(opts, a), a);
  }

  /** The altitude range is written only when some point has a known elevation, and then
      runs from the least to the greatest known elevation. */
  lemma LapAltitudes(g: Geometry, opts: Options, a: seq<Point>)
    requires |a| > 0
    ensures var lap := LapOf(a, Walk(g, opts, a));
            && (lap.minAltitude.None? <==> forall j :: 0 <= j < |a| ==> a[j].ele.None?)
            && (lap.maxAltitude.None? <==> forall j :: 0 <= j < |a| ==> a[j].ele.None?)
            && (lap.minAltitude.Some? ==>
                  && (forall j :: 0 <= j < |a| && a[j].ele.Some? ==> lap.minAltitude.value <= a[j].ele.value <= lap.maxAltitude.value)
                  && (exists j :: 0 <= j < |a| && a[j].ele == lap.minAltitude)
                  && (exists j :: 0 <= j < |a| && a[j].ele == lap.maxAltitude))
  {
    PassElevationRange(g, opts, IsForced(opts, a), EndDate0(opts, a), a);
  }

  /** 1000 degrees, the sentinel of the lower sides of the box, saturates to the largest
      int; -1000 degrees to the smallest. */
  lemma SentinelsSaturate()
    ensures ToSemiCircles(1000.0) == INT_MAX && ToSemiCircles(-1000.0) == INT_MIN
  {
    assert 1000.0 * SEMICIRCLES_PER_180 / 180.0 > INT_MAX as real + 1.0;
    assert -1000.0 * SEMICIRCLES_PER_180 / 180.0 < INT_MIN as real - 1.0;
  }

  /** The box written into the lap contains every point, and each of its sides is the
      encoding of some point's coordinate or the saturated sentinel. */
  lemma LapBoundingBox(g: Geometry, opts: Options, a: seq<Point>)
    requires |a| > 0
    ensures var lap := LapOf(a, Walk(g, opts, a));
            && (forall j :: 0 <= j < |a| ==>
                  && lap.boundMinLat <= LatSemi(a[j]) <= lap.boundMaxLat
                  && lap.boundMinLon <= LonSemi(a[j]) <= lap.boundMaxLon)
            && (lap.boundMinLat == INT_MAX || exists j :: 0 <= j < |a| && lap.boundMinLat == LatSemi(a[j]))
            && (lap.boundMinLon == INT_MAX || exists j :: 0 <= j < |a| && lap.boundMinLon == LonSemi(a[j]))
            && (lap.boundMaxLat == INT_MIN || exists j :: 0 <= j < |a| && lap.boundMaxLat == LatSemi(a[j]))
            && (lap.boundMaxLon == INT_MIN || exists j :: 0 <= j < |a| && lap.boundMaxLon == LonSemi(a[j]))
  {
    var acc := Walk(g, opts, a);
    PassBoundingBox(g, opts, IsForced(opts, a), EndDate0(opts, a), a);
    LapBox(a, acc);
  }

  /** Encoding a box that contains every point, with sides that are a point's coordinate
      or the sentinel, gives the lap's box. */
  lemma LapBox(a: seq<Point>, acc: Acc)
    requires |a| > 0
    requires forall j :: 0 <= j < |a| ==> acc.minLat <= a[j].lat <= acc.maxLat && acc.minLon <= a[j].lon <= acc.maxLon
    requires acc.minLat == 1000.0 || exists j :: 0 <= j < |a| && acc.minLat == a[j].lat
    requires acc.minLon == 1000.0 || exists j :: 0 <= j < |a| && acc.minLon == a[j].lon
    requires acc.maxLat == -1000.0 || exists j :: 0 <= j < |a| && acc.maxLat == a[j].lat
    requires acc.maxLon == -1000.0 || exists j :: 0 <= j < |a| && acc.maxLon == a[j].lon
    ensures var lap := LapOf(a, acc);
            && (forall j :: 0 <= j < |a| ==>
                  && lap.boundMinLat <= LatSemi(a[j]) <= lap.boundMaxLat
                  && lap.boundMinLon <= LonSemi(a[j]) <= lap.boundMaxLon)
            && (lap.boundMinLat == INT_MAX || exists j :: 0 <= j < |a| && lap.boundMinLat == LatSemi(a[j]))
            && (lap.boundMinLon == INT_MAX || exists j :: 0 <= j < |a| && lap.boundMinLon == LonSemi(a[j]))
            && (lap.boundMaxLat == INT_MIN || exists j :: 0 <= j < |a| && lap.boundMaxLat == LatSemi(a[j]))
            && (lap.boundMaxLon == INT_MIN || exists j :: 0 <= j < |a| && lap.boundMaxLon == LonSemi(a[j]))
  {
    SentinelsSaturate();
    forall j | 0 <= j < |a|
      ensures ToSemiCircles(acc.minLat) <= LatSemi(a[j]) <= ToSemiCircles(acc.maxLat)
      ensures ToSemiCircles(acc.minLon) <= LonSemi(a[j]) <= ToSemiCircles(acc.maxLon)
    {
      SemiCirclesMonotone(acc.minLat, a[j].lat);
      SemiCirclesMonotone(a[j].lat, acc.maxLat);
      SemiCirclesMonotone(acc.minLon, a[j].lon);
      SemiCirclesMonotone(a[j].lon, acc.maxLon);
    }
    if acc.minLat != 1000.0 {
      var j :| 0 <= j < |a| && acc.minLat == a[j].lat;
      assert ToSemiCircles(acc.minLat) == LatSemi(a[j]);
    }
    if acc.minLon != 1000.0 {
      var j :| 0 <= j < |a| && acc.minLon == a[j].lon;
      assert ToSemiCircles(acc.minLon) == LonSemi(a[j]);
    }
    if acc.maxLat != -1000.0 {
      var j :| 0 <= j < |a| && acc.maxLat == a[j].lat;
      assert ToSemiCircles(acc.maxLat) == LatSemi(a[j]);
    }
    if acc.maxLon != -1000.0 {
      var j :| 0 <= j < |a| && acc.maxLon == a[j].lon;
      assert ToSemiCircles(acc.maxLon) == LonSemi(a[j]);
    }
  }

  // ---------------------------------------------------------------------------------------
  // The file, block by block.

  /** A non-empty file writes the lap of the aggregate list third, then one course point
      per waypoint and per route point in list order unless the point budget is exceeded,
      then the timer start at the first point's time. */
  lemma WriteFitCues(g: Geometry, c: Converter)
    requires |Aggregate(c.lists)| > 0
    ensures var ms := WriteFit(g, c);
            var l := c.lists;
            var a := Aggregate(l);
            var skip := c.opts.maxPoints != 0 && |l.trk| + |l.rte| + |l.wpt| > c.opts.maxPoints;
            var k := if skip then 0 else |l.wpt| + |l.rte|;
            && ms[2] == LapMsg(LapOf(a, Walk(g, c.opts, a)))
            && (!skip ==> forall j :: 0 <= j < |l.wpt| ==> ms[3 + j] == Cue(l.wpt[j]))
            && (!skip ==> forall j :: 0 <= j < |l.rte| ==> ms[3 + |l.wpt| + j] == Cue(l.rte[j]))
            && ms[3 + k] == TimerStart(a[0].time)
  {
    var a := Aggregate(c.lists);
    var acc := Walk(g, c.opts, a);
    AssembleCues(c, LapOf(a, acc), a[0].time, InjectMsgs(c, a, acc), RecordMsgs(c, a, acc), StopTime(c, a, acc));
  }

  lemma AssembleCues(c: Converter, lap: Lap, startTs: int, inj: seq<Msg>, recs: seq<Msg>, stopTs: int)
    ensures var ms := Assemble(c.courseName, lap, CueMsgs(c), startTs, inj, recs, stopTs);
            var l := c.lists;
            var skip := c.opts.maxPoints != 0 && |l.trk| + |l.rte| + |l.wpt| > c.opts.maxPoints;
            var k := if skip then 0 else |l.wpt| + |l.rte|;
            && ms[2] == LapMsg(lap)
            && (!skip ==> forall j :: 0 <= j < |l.wpt| ==> ms[3 + j] == Cue(l.wpt[j]))
            && (!skip ==> forall j :: 0 <= j < |l.rte| ==> ms[3 + |l.wpt| + j] == Cue(l.rte[j]))
            && ms[3 + k] == TimerStart(startTs)
  {
    var l := c.lists;
    var cues := CueMsgs(c);
    var ms := Assemble(c.courseName, lap, cues, startTs, inj, recs, stopTs);
    AssembleAt(c.courseName, lap, cues, startTs, inj, recs, stopTs);
    assert ms[2] == ms[..3][2];
    if !SkipCues(c.opts.maxPoints, |l.trk|, |l.rte|, |l.wpt|) {
      forall j | 0 <= j < |l.wpt|
        ensures ms[3 + j] == Cue(l.wpt[j])
      {
        assert ms[3 + j] == ms[3..3 + |cues|][j] == cues[j];
      }
      forall j | 0 <= j < |l.rte|
        ensures ms[3 + |l.wpt| + j] == Cue(l.rte[j])
      {
        assert ms[3 + |l.wpt| + j] == ms[3..3 + |cues|][|l.wpt| + j] == cues[|l.wpt| + j];
      }
    }
  }

  // ---------------------------------------------------------------------------------------
  // The track, in terms of the input list.

  /** The path length up to each point of a. */
  function PathLengths(g: Geometry, use3d: bool, a: seq<Point>): (ls: seq<real>)
    ensures |ls| == |a|
    ensures forall j :: 0 <= j < |a| ==> ls[j] == PathLength(g, use3d, a[..j + 1])
  {
    seq(|a|, j requires 0 <= j < |a| => PathLength(g, use3d, a[..j + 1]))
  }

  /** The timestamp the track loops give track point j, from the input alone: one second
      per point after REF, counting from one, when the course has no duration; else the
      forced end date at the point when speed is forced; else the point's own time. */
  function TrackStamp(g: Geometry, opts: Options, t: seq<Point>, j: int): int
    requires 0 <= j < |t|
  {
    if CourseDuration(g, opts, t) == 0 then REF + (j + 1) * 1000
    else if IsForced(opts, t) && j > 0 then ForcedEnd(g, opts, t[0].time, t[..j + 1])
    else t[j].time
  }

  /** The course point injected at track point j, from the input alone. */
  function TrackMark(g: Geometry, opts: Options, t: seq<Point>, j: int, name: string): Msg
    requires 0 <= j < |t|
  {
    CoursePoint(LatSemi(t[j]), LonSemi(t[j]), name, Some(PathLength(g, opts.use3dDistance, t[..j + 1])), Some(TrackStamp(g, opts, t, j)))
  }

  /** The track points, before the last, that get an unnamed course point: those the
      thinning of the path lengths with the course point gap keeps from 0. */
  function InjectIndices(g: Geometry, use3d: bool, t: seq<Point>, gap: real): (idx: seq<nat>)
    requires |t| > 0
    ensures forall k :: 0 <= k < |idx| ==> idx[k] < |t| - 1
  {
    Greedy(PathLengths(g, use3d, t)[..|t| - 1], 0, 0.0, gap)
  }

  /** The course points injected along track t, from the input alone: "Start" at its
      first point, an unnamed one at each of `InjectIndices`, "End" at its last point. */
  function CoursePointsAlong(g: Geometry, opts: Options, t: seq<Point>, gap: real): (ms: seq<Msg>)
    requires |t| > 0
    ensures |ms| == |InjectIndices(g, opts.use3dDistance, t, gap)| + 2
  {
    var idx := InjectIndices(g, opts.use3dDistance, t, gap);
    [TrackMark(g, opts, t, 0, "Start")]
      + seq(|idx|, k requires 0 <= k < |idx| => TrackMark(g, opts, t, idx[k], ""))
      + [TrackMark(g, opts, t, |t| - 1, "End")]
  }

  /** The track points that get a record: point 0, then those the thinning of the path
      lengths with the record gap keeps from point 1 on. */
  function RecordIndicesOf(g: Geometry, use3d: bool, t: seq<Point>, gap: real): (idx: seq<nat>)
    requires |t| > 0
    ensures 0 < |idx| <= |t| && idx[0] == 0
    ensures forall k :: 0 <= k < |idx| ==> idx[k] < |t|
  {
    [0] + Greedy(PathLengths(g, use3d, t), 1, 0.0, gap)
  }

  /** The record at track point j, from the input alone: at its position, elevation, path
      length and `TrackStamp`, with the speed since the record at (lDist, lts). */
  function TrackRecord(g: Geometry, opts: Options, t: seq<Point>, j: int, lDist: real, lts: int): Msg
    requires 0 <= j < |t|
  {
    RecordOf(LatSemi(t[j]), LonSemi(t[j]), PathLength(g, opts.use3dDistance, t[..j + 1]), TrackStamp(g, opts, t, j), t[j].ele, lDist, lts)
  }

  /** The records at the track points idx, in order, the first with its speed since
      (lDist, lts), each later one since the record before. */
  function RecordsFrom(g: Geometry, opts: Options, t: seq<Point>, idx: seq<nat>, lDist: real, lts: int): (rs: seq<Msg>)
    requires forall k :: 0 <= k < |idx| ==> idx[k] < |t|
    ensures |rs| == |idx|
    decreases |idx|
  {
    if |idx| == 0 then []
    else
      var j := idx[0];
      [TrackRecord(g, opts, t, j, lDist, lts)]
        + RecordsFrom(g, opts, t, idx[1..], PathLength(g, opts.use3dDistance, t[..j + 1]), TrackStamp(g, opts, t, j))
  }

  /** The records of track t, from the input alone: one at each of `RecordIndicesOf`, the
      first with its speed since distance 0 at the start date. */
  function RecordsAlong(g: Geometry, opts: Options, t: seq<Point>, gap: real): (rs: seq<Msg>)
    requires |t| > 0
  {
    RecordsFrom(g, opts, t, RecordIndicesOf(g, opts.use3dDistance, t, gap), 0.0, t[0].time)
  }

  /** The track points ps, with duration d, are the input points t as the track loops see
      them: same places, the path length up to each as its distance, `TrackStamp` as the
      timestamp the loops give it. */
  ghost predicate Agree(g: Geometry, opts: Options, t: seq<Point>, ps: seq<Point>, d: int) {
    && |ps| == |t|
    && forall j :: 0 <= j < |t| ==>
         && LatSemi(ps[j]) == LatSemi(t[j]) && LonSemi(ps[j]) == LonSemi(t[j]) && ps[j].ele == t[j].ele
         && Dist(ps[j]) == PathLength(g, opts.use3dDistance, t[..j + 1])
         && StampTime(ps, d, j) == TrackStamp(g, opts, t, j)
  }

  /** Track point j as the pass left it is where the input point is, carries the path
      length up to it, and the track loops stamp it with `TrackStamp`. */
  lemma TrackAt(g: Geometry, opts: Options, t: seq<Point>, j: int)
    requires 0 <= j < |t|
    ensures var acc := Walk(g, opts, t);
            var ps := acc.points;
            && |ps| == |t|
            && LatSemi(ps[j]) == LatSemi(t[j]) && LonSemi(ps[j]) == LonSemi(t[j]) && ps[j].ele == t[j].ele
            && Dist(ps[j]) == PathLength(g, opts.use3dDistance, t[..j + 1])
            && StampTime(ps, Duration(t, acc), j) == TrackStamp(g, opts, t, j)
  {
    PassPointAt(g, opts, IsForced(opts, t), EndDate0(opts, t), t, j);
    WalkTotals(g, opts, t);
  }

  /** The track the loops walk agrees with the input track. */
  lemma TrackAgrees(g: Geometry, opts: Options, t: seq<Point>)
    requires |t| > 0
    ensures var acc := Walk(g, opts, t); Agree(g, opts, t, acc.points, Duration(t, acc))
  {
    forall j | 0 <= j < |t|
      ensures var acc := Walk(g, opts, t);
              && LatSemi(acc.points[j]) == LatSemi(t[j]) && LonSemi(acc.points[j]) == LonSemi(t[j])
              && acc.points[j].ele == t[j].ele
              && Dist(acc.points[j]) == PathLength(g, opts.use3dDistance, t[..j + 1])
              && StampTime(acc.points, Duration(t, acc), j) == TrackStamp(g, opts, t, j)
    {
      TrackAt(g, opts, t, j);
    }
  }

  lemma AgreeDists(g: Geometry, opts: Options, t: seq<Point>, ps: seq<Point>, d: int)
    requires Agree(g, opts, t, ps, d)
    ensures Dists(ps) == PathLengths(g, opts.use3dDistance, t)
  {
    assert forall j :: 0 <= j < |t| ==> Dists(ps)[j] == PathLengths(g, opts.use3dDistance, t)[j];
  }

  /** The injection loop over agreeing track points injects `CoursePointsAlong`. */
  lemma AgreeInjected(g: Geometry, opts: Options, t: seq<Point>, ps: seq<Point>, d: int, gap: real)
    requires |t| > 0 && Agree(g, opts, t, ps, d)
    ensures Injected(ps, d, gap) == CoursePointsAlong(g, opts, t, gap)
  {
    var ms := Injected(ps, d, gap);
    var ref := CoursePointsAlong(g, opts, t, gap);
    var idx := InjectIndices(g, opts.use3dDistance, t, gap);
    AgreeDists(g, opts, t, ps, d);
    InjectedCoursePoints(ps, d, gap);
    forall i | 0 <= i < |ms|
      ensures ms[i] == ref[i]
    {
      if i == 0 {
      } else if i < |ms| - 1 {
        assert ms[i] == Mark(ps, d, idx[i - 1], "");
      }
    }
  }

  /** Over agreeing track points, the records at any indices are those of the input. */
  lemma {:induction false} AgreeRecordsAt(g: Geometry, opts: Options, t: seq<Point>, ps: seq<Point>, d: int, idx: seq<nat>, lDist: real, lts: int)
    requires Agree(g, opts, t, ps, d)
    requires forall k :: 0 <= k < |idx| ==> idx[k] < |t|
    ensures RecordsAt(ps, d, idx, lDist, lts) == RecordsFrom(g, opts, t, idx, lDist, lts)
    decreases |idx|
  {
    if |idx| > 0 {
      var j := idx[0];
      AgreeRecordsAt(g, opts, t, ps, d, idx[1..], Dist(ps[j]), StampTime(ps, d, j));
    }
  }

  /** The record loop over agreeing track points writes `RecordsAlong`. */
  lemma AgreeRecords(g: Geometry, opts: Options, t: seq<Point>, ps: seq<Point>, d: int, gap: real)
    requires |t| > 0 && Agree(g, opts, t, ps, d)
    ensures RecordLoop(ps, d, gap, 0, 0.0, t[0].time) == RecordsAlong(g, opts, t, gap)
  {
    var ts := StampTime(ps, d, 0);
    var idx := RecordIndicesOf(g, opts.use3dDistance, t, gap);
    AgreeDists(g, opts, t, ps, d);
    assert Dist(ps[0]) == 0.0;
    RecordLoopIsRecordsAt(ps, d, gap, 1, 0.0, ts);
    assert idx[1..] == Greedy(Dists(ps), 1, 0.0, gap);
    AgreeRecordsAt(g, opts, t, ps, d, idx, 0.0, t[0].time);
  }

  /** Record k of `RecordsFrom` is the record at track point idx[k] with the speed since
      the record at idx[k - 1], or since (lDist, lts) for the first. */
  lemma {:induction false} RecordsFromAt(g: Geometry, opts: Options, t: seq<Point>, idx: seq<nat>, lDist: real, lts: int)
    requires forall k :: 0 <= k < |idx| ==> idx[k] < |t|
    ensures var rs := RecordsFrom(g, opts, t, idx, lDist, lts);
            forall k :: 0 <= k < |rs| ==>
              rs[k] == TrackRecord(g, opts, t, idx[k],
                                   if k == 0 then lDist else PathLength(g, opts.use3dDistance, t[..idx[k - 1] + 1]),
                                   if k == 0 then lts else TrackStamp(g, opts, t, idx[k - 1]))
    decreases |idx|
  {
    if |idx| > 0 {
      var j := idx[0];
      var dist := PathLength(g, opts.use3dDistance, t[..j + 1]);
      var ts := TrackStamp(g, opts, t, j);
      var rest := RecordsFrom(g, opts, t, idx[1..], dist, ts);
      var rs := RecordsFrom(g, opts, t, idx, lDist, lts);
      RecordsFromAt(g, opts, t, idx[1..], dist, ts);
      forall k | 0 < k < |rs|
        ensures rs[k] == TrackRecord(g, opts, t, idx[k], PathLength(g, opts.use3dDistance, t[..idx[k - 1] + 1]), TrackStamp(g, opts, t, idx[k - 1]))
      {
        assert rs[k] == rest[k - 1];
        assert idx[k] == idx[1..][k - 1];
        if k > 1 {
          assert idx[k - 1] == idx[1..][k - 2];
        }
      }
    }
  }

  /** The records of a track: one at each of `RecordIndicesOf`, starting at point 0, each
      the `TrackRecord` of its point with the speed since the record before (since distance
      0 at the start date for the first); each recorded point lies more than the record gap
      of path length beyond the one recorded before it. */
  lemma RecordsAlongMeaning(g: Geometry, opts: Options, t: seq<Point>, gap: real)
    requires |t| > 0
    ensures var rs := RecordsAlong(g, opts, t, gap);
            var idx := RecordIndicesOf(g, opts.use3dDistance, t, gap);
            && 0 < |rs| == |idx| <= |t|
            && idx[0] == 0
            && (forall k :: 0 <= k < |rs| ==>
                  rs[k] == TrackRecord(g, opts, t, idx[k],
                                       if k == 0 then 0.0 else PathLength(g, opts.use3dDistance, t[..idx[k - 1] + 1]),
                                       if k == 0 then t[0].time else TrackStamp(g, opts, t, idx[k - 1])))
            && (forall k, l :: 0 <= k && l == k + 1 && l < |idx| ==>
                  PathLength(g, opts.use3dDistance, t[..idx[l] + 1]) - PathLength(g, opts.use3dDistance, t[..idx[k] + 1]) > gap)
  {
    var idx := RecordIndicesOf(g, opts.use3dDistance, t, gap);
    RecordsFromAt(g, opts, t, idx, 0.0, t[0].time);
    RecordIndicesApart(g, opts.use3dDistance, t, gap);
  }

  /** The fields of the record at track point j, and its speed since (lDist, lts). */
  lemma TrackRecordFields(g: Geometry, opts: Options, t: seq<Point>, j: int, lDist: real, lts: int)
    requires 0 <= j < |t|
    ensures var m := TrackRecord(g, opts, t, j, lDist, lts);
            && m.Record?
            && m.lat == LatSemi(t[j]) && m.lon == LonSemi(t[j])
            && m.recDistance == PathLength(g, opts.use3dDistance, t[..j + 1])
            && m.recTimestamp == TrackStamp(g, opts, t, j)
            && m.altitude == t[j].ele
            && SpeedSince(m, lDist, lts)
  {
    SpeedOf(LatSemi(t[j]), LonSemi(t[j]), PathLength(g, opts.use3dDistance, t[..j + 1]), TrackStamp(g, opts, t, j), t[j].ele, lDist, lts);
  }

  /** Each record index is more than the record gap of path length beyond the one before. */
  lemma RecordIndicesApart(g: Geometry, use3d: bool, t: seq<Point>, gap: real)
    requires |t| > 0
    ensures var idx := RecordIndicesOf(g, use3d, t, gap);
            forall k, l :: 0 <= k && l == k + 1 && l < |idx| ==>
              PathLength(g, use3d, t[..idx[l] + 1]) - PathLength(g, use3d, t[..idx[k] + 1]) > gap
  {
    var idx := RecordIndicesOf(g, use3d, t, gap);
    var ls := PathLengths(g, use3d, t);
    var kept := Greedy(ls, 1, 0.0, gap);
    GreedyGaps(ls, 1, 0.0, gap);
    assert ls[0] == 0.0;
    forall k, l | 0 <= k && l == k + 1 && l < |idx|
      ensures PathLength(g, use3d, t[..idx[l] + 1]) - PathLength(g, use3d, t[..idx[k] + 1]) > gap
    {
      assert idx[l] == kept[k];
      if k > 0 {
        assert idx[k] == kept[k - 1];
      }
    }
  }

  // ---------------------------------------------------------------------------------------
  // The track blocks of the file.

  lemma AssembleInjected(name: string, lap: Lap, cues: seq<Msg>, startTs: int, inj: seq<Msg>, recs: seq<Msg>, stopTs: int)
    ensures var ms := Assemble(name, lap, cues, startTs, inj, recs, stopTs);
            && |ms| >= 4 + |cues| + |inj|
            && ms[4 + |cues|..4 + |cues| + |inj|] == inj
  {
    AssembleAt(name, lap, cues, startTs, inj, recs, stopTs);
  }

  lemma AssembleRecords(name: string, lap: Lap, cues: seq<Msg>, startTs: int, inj: seq<Msg>, recs: seq<Msg>, stopTs: int)
    ensures var ms := Assemble(name, lap, cues, startTs, inj, recs, stopTs);
            && |ms| >= |recs| + 1
            && ms[|ms| - 1 - |recs|..|ms| - 1] == recs
            && ms[|ms| - 1] == TimerStop(stopTs)
  {
    AssembleAt(name, lap, cues, startTs, inj, recs, stopTs);
  }

  /** The track loops of a converter with a track walk the track as the pass left it, with
      the thresholds of the track's path length. */
  lemma TrackBlocks(g: Geometry, c: Converter)
    requires |c.lists.trk| > 0
    ensures var t := c.lists.trk;
            var acc := Walk(g, c.opts, t);
            var use3d := c.opts.use3dDistance;
            && (c.opts.injectCoursePoints ==>
                  InjectMsgs(c, t, acc) == CoursePointsAlong(g, c.opts, t, CoursePointGap(PathLength(g, use3d, t), c.opts.minCoursePointDistance)))
            && RecordMsgs(c, t, acc) == RecordsAlong(g, c.opts, t, RecordGap(PathLength(g, use3d, t), c.opts.maxPoints, c.opts.minRoutePointDistance))
            && StopTime(c, t, acc) == TrackStamp(g, c.opts, t, |t| - 1)
  {
    var t := c.lists.trk;
    var acc := Walk(g, c.opts, t);
    var d := Duration(t, acc);
    WalkTotals(g, c.opts, t);
    TrackAgrees(g, c.opts, t);
    AgreeInjected(g, c.opts, t, acc.points, d, CoursePointGap(acc.totalDist, c.opts.minCoursePointDistance));
    AgreeRecords(g, c.opts, t, acc.points, d, RecordGap(acc.totalDist, c.opts.maxPoints, c.opts.minRoutePointDistance));
    assert StampTime(acc.points, d, |t| - 1) == TrackStamp(g, c.opts, t, |t| - 1);
  }

  /** With injection asked for and a track, the timer start is followed by the course
      points injected along the track (`CoursePointsAlong`, with the course point gap of
      the track's path length). */
  lemma WriteFitInjected(g: Geometry, c: Converter)
    requires c.opts.injectCoursePoints && |c.lists.trk| > 0
    ensures var ms := WriteFit(g, c);
            var t := c.lists.trk;
            var gap := CoursePointGap(PathLength(g, c.opts.use3dDistance, t), c.opts.minCoursePointDistance);
            var n := |InjectIndices(g, c.opts.use3dDistance, t, gap)| + 2;
            var s := 4 + CueCount(c);
            && |ms| >= s + n
            && ms[s..s + n] == CoursePointsAlong(g, c.opts, t, gap)
  {
    var t := c.lists.trk;
    var acc := Walk(g, c.opts, t);
    assert WriteFit(g, c) == Messages(c, t, acc);
    TrackBlocks(g, c);
    MessagesInjected(c, t, acc);
  }

  lemma MessagesInjected(c: Converter, a: seq<Point>, acc: Acc)
    requires |a| > 0
    ensures var ms := Messages(c, a, acc);
            var inj := InjectMsgs(c, a, acc);
            && |ms| >= 4 + CueCount(c) + |inj|
            && ms[4 + CueCount(c)..4 + CueCount(c) + |inj|] == inj
  {
    AssembleInjected(c.courseName, LapOf(a, acc), CueMsgs(c), a[0].time, InjectMsgs(c, a, acc), RecordMsgs(c, a, acc), StopTime(c, a, acc));
  }

  /** With a track, the records of the track (`RecordsAlong`, with the record gap of the
      track's path length) come last before the timer stop, and the timer stop carries
      the timestamp of the last track point. */
  lemma WriteFitRecords(g: Geometry, c: Converter)
    requires |c.lists.trk| > 0
    ensures var ms := WriteFit(g, c);
            var t := c.lists.trk;
            var gap := RecordGap(PathLength(g, c.opts.use3dDistance, t), c.opts.maxPoints, c.opts.minRoutePointDistance);
            var n := |RecordIndicesOf(g, c.opts.use3dDistance, t, gap)|;
            && |ms| >= n + 1
            && ms[|ms| - 1 - n..|ms| - 1] == RecordsAlong(g, c.opts, t, gap)
            && ms[|ms| - 1] == TimerStop(TrackStamp(g, c.opts, t, |t| - 1))
  {
    var t := c.lists.trk;
    var acc := Walk(g, c.opts, t);
    assert WriteFit(g, c) == Messages(c, t, acc);
    TrackBlocks(g, c);
    AssembleRecords(c.courseName, LapOf(t, acc), CueMsgs(c), t[0].time, InjectMsgs(c, t, acc), RecordMsgs(c, t, acc), StopTime(c, t, acc));
  }

  /** In the messages of a non-empty file, records occur exactly when the record block is
      not empty, and timestamped course points exactly when the injected block is not. */
  lemma AssembleKinds(name: string, lap: Lap, cues: seq<Msg>, startTs: int, inj: seq<Msg>, recs: seq<Msg>, stopTs: int)
    requires forall i :: 0 <= i < |cues| ==> Rank(cues[i]) == 3
    requires forall i :: 0 <= i < |inj| ==> Rank(inj[i]) == 5
    requires forall i :: 0 <= i < |recs| ==> recs[i].Record?
    ensures var ms := Assemble(name, lap, cues, startTs, inj, recs, stopTs);
            && ((exists i :: 0 <= i < |ms| && ms[i].Record?) <==> |recs| > 0)
            && ((exists i :: 0 <= i < |ms| && Rank(ms[i]) == 5) <==> |inj| > 0)
  {
    var ms := Assemble(name, lap, cues, startTs, inj, recs, stopTs);
    AssembleAt(name, lap, cues, startTs, inj, recs, stopTs);
    var s := 4 + |cues|;
    var r := s + |inj|;
    forall i | 0 <= i < |ms|
      ensures ms[i].Record? ==> |recs| > 0
      ensures Rank(ms[i]) == 5 ==> |inj| > 0
    {
      if i < 3 {
        assert ms[i] == ms[..3][i];
      } else if i < 3 + |cues| {
        assert ms[i] == ms[3..3 + |cues|][i - 3];
      } else if s <= i < r {
        assert ms[i] == ms[s..r][i - s];
      } else if r <= i < |ms| - 1 {
        assert ms[i] == ms[r..|ms| - 1][i - r];
      }
    }
    if |recs| > 0 {
      assert ms[r] == ms[r..|ms| - 1][0];
    }
    if |inj| > 0 {
      assert ms[s] == ms[s..r][0];
    }
  }

  /** Records come only from the track, and always from a non-empty one; course points
      with a timestamp come only from the track, and only when injection is asked for;
      without a track the timer stop carries REF. */
  lemma WriteFitTrackOnly(g: Geometry, c: Converter)
    requires |Aggregate(c.lists)| > 0
    ensures var ms := WriteFit(g, c);
            && ((exists i :: 0 <= i < |ms| && ms[i].Record?) <==> |c.lists.trk| > 0)
            && ((exists i :: 0 <= i < |ms| && Rank(ms[i]) == 5) <==> c.opts.injectCoursePoints && |c.lists.trk| > 0)
            && (|c.lists.trk| == 0 ==> ms[|ms| - 1] == TimerStop(REF))
  {
    var a := Aggregate(c.lists);
    var acc := Walk(g, c.opts, a);
    assert WriteFit(g, c) == Messages(c, a, acc);
    MessagesKinds(c, a, acc);
  }

  lemma MessagesKinds(c: Converter, a: seq<Point>, acc: Acc)
    requires |a| > 0 && (|c.lists.trk| > 0 ==> |acc.points| > 0)
    ensures var ms := Messages(c, a, acc);
            && ((exists i :: 0 <= i < |ms| && ms[i].Record?) <==> |c.lists.trk| > 0)
            && ((exists i :: 0 <= i < |ms| && Rank(ms[i]) == 5) <==> c.opts.injectCoursePoints && |c.lists.trk| > 0)
            && (|c.lists.trk| == 0 ==> ms[|ms| - 1] == TimerStop(REF))
  {
    var inj := InjectMsgs(c, a, acc);
    var recs := RecordMsgs(c, a, acc);
    CueRanks(c);
    InjectRanks(c, a, acc);
    AssembleKinds(c.courseName, LapOf(a, acc), CueMsgs(c), a[0].time, inj, recs, StopTime(c, a, acc));
    AssembleRecords(c.courseName, LapOf(a, acc), CueMsgs(c), a[0].time, inj, recs, StopTime(c, a, acc));
    if |c.lists.trk| > 0 {
      assert |recs| > 0;
      if c.opts.injectCoursePoints {
        InjectedCoursePoints(acc.points, Duration(a, acc), CoursePointGap(acc.totalDist, c.opts.minCoursePointDistance));
        assert |inj| > 0;
      } else {
        assert |inj| == 0;
      }
    } else {
      assert |recs| == 0 && |inj| == 0;
    }
  }
}
