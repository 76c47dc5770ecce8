/**
 The course-file messages writeFit hands to its encoder, reduced to the fields it sets.
 Positions are semicircles, distances metres, times milliseconds since the Unix epoch.
 Fields the converter sets to constants (manufacturer GARMIN, file type COURSE, sport
 GENERIC, course point type GENERIC, event group 0, local message number 0) are not
 repeated here; an `Option` field is one the converter may leave unset.
 */
module FitMessages {
  import opened JavaMath

  /** The one lap of a course: its summary and, in four undocumented fields, its bounding
      box. */
  datatype Lap = Lap(
    timestamp: int,
    startTime: int,
    startLat: int,
    startLon: int,
    endLat: int,
    endLon: int,
    totalTimerTime: real,       // seconds
    totalDistance: real,
    avgSpeed: Option<real>,     // metres per second; None: not finite (zero duration)
    totalElapsedTime: real,     // seconds
    totalAscent: Option<int>,
    totalDescent: Option<int>,
    maxAltitude: Option<real>,
    minAltitude: Option<real>,
    boundMaxLat: int,
    boundMaxLon: int,
    boundMinLat: int,
    boundMinLon: int)

  datatype Msg =
    | FileId(product: int, serialNumber: int)
    | Course(name: string)
    | LapMsg(lap: Lap)
    | CoursePoint(lat: int, lon: int, name: string, distance: Option<real>, timestamp: Option<int>)
    | TimerStart(startTs: int)
    | Record(lat: int, lon: int, recDistance: real, recTimestamp: int, altitude: Option<real>, speed: real)
    | TimerStop(stopTs: int)
}
