/**
 The configuration of one conversion run (class Gpx2FitOptions). Every field is a plain
 value with a getter and a setter; no setter validates its argument, so a zero or NaN
 speed, a negative tolerance or a negative point budget are kept as given.
 */
module Gpx2FitOptions {
  import opened JavaMath

  datatype Options = Options(
    speed: Option<real>,            // metres per second; None is NaN
    use3dDistance: bool,
    forceSpeed: bool,
    injectCoursePoints: bool,
    walkingGrade: bool,
    minRoutePointDistance: real,    // metres
    minCoursePointDistance: real,   // metres
    maxPoints: int,                 // 0: no point budget
    tolerance: real,                // metres; 0: no simplification
    tracks: bool,
    routes: bool,
    waypoints: bool)

  /** The state after `new Gpx2FitOptions()`. */
  function Default(): (o: Options)
    ensures o.speed.Some? && o.speed.value * 14.0 * 60.0 == 1000.0
    ensures o.use3dDistance && !o.forceSpeed && !o.injectCoursePoints && !o.walkingGrade
    ensures o.minRoutePointDistance == 1.0 && o.minCoursePointDistance == 1000.0
    ensures o.maxPoints == 1000 && o.tolerance == 0.0
    ensures o.tracks && o.routes && o.waypoints
  {
    Options(
      speed := Some(1000.0 / 14.0 / 60.0),
      use3dDistance := true,
      forceSpeed := false,
      injectCoursePoints := false,
      walkingGrade := false,
      minRoutePointDistance := 1.0,
      minCoursePointDistance := 1000.0,
      maxPoints := 1000,
      tolerance := 0.0,
      tracks := true,
      routes := true,
      waypoints := true)
  }

  /** The default speed is 14 minutes per kilometre, a little under 1.2 m/s. */
  lemma DefaultSpeedIsFourteenMinutesPerKilometre()
    ensures 1.19 < Default().speed.value < 1.2
  {
  }

  // Setters. The getters are the fields themselves. Each setter stores its argument
  // unchecked and leaves every other field as it was.

  function SetSpeed(o: Options, speed: Option<real>): (r: Options)
    ensures r.speed == speed && r.(speed := o.speed) == o
  {
    o.(speed := speed)
  }

  function SetUse3dDistance(o: Options, use3dDistance: bool): (r: Options)
    ensures r.use3dDistance == use3dDistance && r.(use3dDistance := o.use3dDistance) == o
  {
    o.(use3dDistance := use3dDistance)
  }

  function SetForceSpeed(o: Options, forceSpeed: bool): (r: Options)
    ensures r.forceSpeed == forceSpeed && r.(forceSpeed := o.forceSpeed) == o
  {
    o.(forceSpeed := forceSpeed)
  }

  function SetInjectCoursePoints(o: Options, injectCoursePoints: bool): (r: Options)
    ensures r.injectCoursePoints == injectCoursePoints && r.(injectCoursePoints := o.injectCoursePoints) == o
  {
    o.(injectCoursePoints := injectCoursePoints)
  }

  function SetMinRoutePointDistance(o: Options, d: real): (r: Options)
    ensures r.minRoutePointDistance == d && r.(minRoutePointDistance := o.minRoutePointDistance) == o
  {
    o.(minRoutePointDistance := d)
  }

  function SetMinCoursePointDistance(o: Options, d: real): (r: Options)
    ensures r.minCoursePointDistance == d && r.(minCoursePointDistance := o.minCoursePointDistance) == o
  {
    o.(minCoursePointDistance := d)
  }

  function SetWalkingGrade(o: Options, walkingGrade: bool): (r: Options)
    ensures r.walkingGrade == walkingGrade && r.(walkingGrade := o.walkingGrade) == o
  {
    o.(walkingGrade := walkingGrade)
  }

  function SetMaxPoints(o: Options, maxPoints: int): (r: Options)
    ensures r.maxPoints == maxPoints && r.(maxPoints := o.maxPoints) == o
  {
    o.(maxPoints := maxPoints)
  }

  function SetTracks(o: Options, tracks: bool): (r: Options)
    ensures r.tracks == tracks && r.(tracks := o.tracks) == o
  {
    o.(tracks := tracks)
  }

  function SetRoutes(o: Options, routes: bool): (r: Options)
    ensures r.routes == routes && r.(routes := o.routes) == o
  {
    o.(routes := routes)
  }

  function SetWaypoints(o: Options, waypoints: bool): (r: Options)
    ensures r.waypoints == waypoints && r.(waypoints := o.waypoints) == o
  {
    o.(waypoints := waypoints)
  }

  function SetTolerance(o: Options, tolerance: real): (r: Options)
    ensures r.tolerance == tolerance && r.(tolerance := o.tolerance) == o
  {
    o.(tolerance := tolerance)
  }
}
