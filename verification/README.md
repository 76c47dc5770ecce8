# gpx2fit in Dafny

A model of the conversion core of gpx2fit, a Java tool that turns a GPX document (tracks,
routes, waypoints) into a Garmin FIT course file. The model covers:

- the point record (`WayPoint`): its constructors, setters, semicircle encoding and 2D/3D
  distances (module `WayPoints`);
- the options of a run (`Gpx2FitOptions`): defaults and setters (module `Gpx2FitOptions`);
- the converter's constructor rule that picks the aggregate point list (module `Inputs`);
- `writeFit` as a pure function from a converter to the sequence of messages it hands to
  the encoder (module `Gpx2Fit`), split into the conversion pass that accumulates the lap
  summary and stamps distances and synthetic times onto the points (module
  `ConversionPass`), and the message-writing loops after the lap (module `Emission`);
- the distance thinning both track loops apply (module `Thinning`);
- the Douglas-Peucker simplification of class `Reducer` (module `Reducer`), which writeFit
  does not call.

Messages are the datatype `FitMessages.Msg`, reduced to the fields the converter sets.
Java's NaN doubles are `Option<real>` (`None` is NaN); where a quotient can also be infinite
(a lap's average speed, a walking-grade speed over a zero-length segment) `None` stands for
any value that is not finite. Doubles are otherwise exact reals;
Java's `(int)` and `(long)` casts are written out as truncation toward zero with
saturation (`JavaMath`). The ellipsoidal geodesic distance and `Math.sqrt` are
function-typed parameters (`GeoMath.Geometry`); laws about them are explicit hypotheses of
the lemmas that need them.

Each operation has a partner stated independently of its body, with a lemma connecting
them. The conversion pass is related to folds over the input list: path length, gain and
loss, elevation range, bounding box and forced end date. The injection and record loops are
related to `Thinning.Greedy` and its loop-free description `Thinning.GreedyChoice`. The
whole `WriteFit` output is related to reference definitions over the input track:
`Gpx2Fit.CoursePointsAlong`, `Gpx2Fit.RecordsAlong` and `Gpx2Fit.TrackStamp`. A
separate `Gpx2Fit.Layout` predicate gives the order of message kinds.

Waypoint and route point names are written unshortened (Gpx2Fit.java:283-309). The timer
stop is stamped with the timestamp the record loop computed for the last track point,
whether or not that point was recorded; with no track it is stamped with REF
(Gpx2Fit.java:415-424).

The code reads `WayPoint.RefMilliSec`, which the `WayPoint` class it ships with does not
declare. That class's reference date is the FIT epoch, `DateTime.OFFSET`. The model uses
that value, 631065600000 ms, as `WayPoints.REF`.

## Model

| member | source | states |
|---|---|---|
| JavaMath.Min | src/main/java/ch/bubendorf/gpx2fit/Gpx2Fit.java:166-167 | `Math.min`: at most both arguments and equal to one of them |
| JavaMath.Max | src/main/java/ch/bubendorf/gpx2fit/Gpx2Fit.java:168-169 | `Math.max`: at least both arguments and equal to one of them |
| JavaMath.Abs | src/main/java/ch/bubendorf/gpx2fit/Gpx2Fit.java:194 | `Math.abs`: non-negative and equal to x or -x |
| JavaMath.Trunc | src/main/java/ch/bubendorf/gpx2fit/WayPoint.java:73 | rounding toward zero: within one unit of x, on x's side of zero |
| JavaMath.NarrowCast | src/main/java/ch/bubendorf/gpx2fit/WayPoint.java:73 | a Java narrowing cast is the truncation when in range, else the nearer bound |
| JavaMath.ToInt | src/main/java/ch/bubendorf/gpx2fit/WayPoint.java:73 | `(int) d` always lies in the int range |
| JavaMath.ToLong | src/main/java/ch/bubendorf/gpx2fit/Gpx2Fit.java:204 | `(long) d` always lies in the long range |
| JavaMath.TruncMonotone | src/main/java/ch/bubendorf/gpx2fit/WayPoint.java:73 | truncation preserves order |
| JavaMath.TruncOdd | src/main/java/ch/bubendorf/gpx2fit/WayPoint.java:73 | truncation commutes with negation |
| JavaMath.NarrowCastMonotone | src/main/java/ch/bubendorf/gpx2fit/WayPoint.java:73 | a saturating narrowing cast preserves order |
| JavaMath.NarrowCastOfNonNegative | src/main/java/ch/bubendorf/gpx2fit/WayPoint.java:73 | below the upper bound a non-negative value casts to its floor |
| Gpx2FitOptions.Default | src/main/java/ch/bubendorf/gpx2fit/Gpx2FitOptions.java:14-28 | defaults: 14 min/km speed, 3D distance on, no forced speed, no injection, no walking grade, minimum distances 1 m and 1000 m, 1000 points, tolerance 0, all three lists read |
| Gpx2FitOptions.DefaultSpeedIsFourteenMinutesPerKilometre | src/main/java/ch/bubendorf/gpx2fit/Gpx2FitOptions.java:19 | the default speed lies between 1.19 and 1.2 m/s |
| Gpx2FitOptions.SetSpeed | src/main/java/ch/bubendorf/gpx2fit/Gpx2FitOptions.java:34-36 | stores the speed unchecked; every other option unchanged |
| Gpx2FitOptions.SetUse3dDistance | src/main/java/ch/bubendorf/gpx2fit/Gpx2FitOptions.java:42-44 | stores the flag; every other option unchanged |
| Gpx2FitOptions.SetForceSpeed | src/main/java/ch/bubendorf/gpx2fit/Gpx2FitOptions.java:50-52 | stores the flag; every other option unchanged |
| Gpx2FitOptions.SetInjectCoursePoints | src/main/java/ch/bubendorf/gpx2fit/Gpx2FitOptions.java:58-60 | stores the flag; every other option unchanged |
| Gpx2FitOptions.SetMinRoutePointDistance | src/main/java/ch/bubendorf/gpx2fit/Gpx2FitOptions.java:66-68 | stores the distance unchecked; every other option unchanged |
| Gpx2FitOptions.SetMinCoursePointDistance | src/main/java/ch/bubendorf/gpx2fit/Gpx2FitOptions.java:74-76 | stores the distance unchecked; every other option unchanged |
| Gpx2FitOptions.SetWalkingGrade | src/main/java/ch/bubendorf/gpx2fit/Gpx2FitOptions.java:82-84 | stores the flag; every other option unchanged |
| Gpx2FitOptions.SetMaxPoints | src/main/java/ch/bubendorf/gpx2fit/Gpx2FitOptions.java:90-92 | stores the budget unchecked; every other option unchanged |
| Gpx2FitOptions.SetTracks | src/main/java/ch/bubendorf/gpx2fit/Gpx2FitOptions.java:98-100 | stores the flag; every other option unchanged |
| Gpx2FitOptions.SetRoutes | src/main/java/ch/bubendorf/gpx2fit/Gpx2FitOptions.java:106-108 | stores the flag; every other option unchanged |
| Gpx2FitOptions.SetWaypoints | src/main/java/ch/bubendorf/gpx2fit/Gpx2FitOptions.java:114-116 | stores the flag; every other option unchanged |
| Gpx2FitOptions.SetTolerance | src/main/java/ch/bubendorf/gpx2fit/Gpx2FitOptions.java:118-120 | stores the tolerance unchecked; every other option unchanged |
| WayPoints.NewPoint | src/main/java/ch/bubendorf/gpx2fit/WayPoint.java:31-40 | keeps name, position and elevation (NaN included); a missing time becomes REF; no distance yet |
| WayPoints.NewLatLon | src/main/java/ch/bubendorf/gpx2fit/WayPoint.java:27-29 | no name, elevation 0, time REF |
| WayPoints.FromGpx | src/main/java/ch/bubendorf/gpx2fit/WayPoint.java:42-49 | a missing elevation becomes 0, never NaN; a missing time becomes REF |
| WayPoints.SetLat | src/main/java/ch/bubendorf/gpx2fit/WayPoint.java:83-85 | sets the latitude; nothing else changes |
| WayPoints.SetLon | src/main/java/ch/bubendorf/gpx2fit/WayPoint.java:87-89 | sets the longitude; nothing else changes |
| WayPoints.SetEle | src/main/java/ch/bubendorf/gpx2fit/WayPoint.java:91-93 | sets the elevation; nothing else changes |
| WayPoints.SetTime | src/main/java/ch/bubendorf/gpx2fit/WayPoint.java:95-97 | sets the time; nothing else changes |
| WayPoints.SetTotalDist | src/main/java/ch/bubendorf/gpx2fit/WayPoint.java:122-124 | stamps the cumulative distance; nothing else changes |
| WayPoints.ToSemiCircles | src/main/java/ch/bubendorf/gpx2fit/WayPoint.java:71-74 | the encoding is a Java int |
| WayPoints.LatSemi | src/main/java/ch/bubendorf/gpx2fit/WayPoint.java:63-65 | a Java int; a latitude in [-90, 90] encodes within ±2^30 |
| WayPoints.LonSemi | src/main/java/ch/bubendorf/gpx2fit/WayPoint.java:67-69 | a Java int; the prime meridian encodes to 0 |
| WayPoints.SemiCirclesOfZero | src/main/java/ch/bubendorf/gpx2fit/WayPoint.java:71-74 | 0 degrees is 0 semicircles |
| WayPoints.SemiCirclesMonotone | src/main/java/ch/bubendorf/gpx2fit/WayPoint.java:71-74 | the encoding preserves order |
| WayPoints.SemiCirclesOdd | src/main/java/ch/bubendorf/gpx2fit/WayPoint.java:71-74 | strictly inside ±180 degrees the encoding is odd (truncation toward zero) |
| WayPoints.SemiCirclesOfLatitude | src/main/java/ch/bubendorf/gpx2fit/WayPoint.java:71-74 | every latitude encodes into [-2^30, 2^30] |
| WayPoints.SemiCirclesSaturate | src/main/java/ch/bubendorf/gpx2fit/WayPoint.java:71-74 | +180 degrees saturates to the largest int, -180 is exactly the smallest |
| WayPoints.Distance | src/main/java/ch/bubendorf/gpx2fit/WayPoint.java:99-104 | under the geodesic's laws, non-negative and 0 between two points at the same place |
| WayPoints.Hypot | src/main/java/ch/bubendorf/gpx2fit/WayPoint.java:114 | with a lawful square root, the non-negative r with r² = d² + h² |
| WayPoints.Distance3D | src/main/java/ch/bubendorf/gpx2fit/WayPoint.java:106-116 | with an elevation unknown, the 2D distance |
| WayPoints.Distance3DIsHypotenuse | src/main/java/ch/bubendorf/gpx2fit/WayPoint.java:106-116 | with both elevations known, the hypotenuse over 2D distance and elevation difference, so at least the 2D distance |
| WayPoints.Distance3DReadsPlaceOnly | src/main/java/ch/bubendorf/gpx2fit/WayPoint.java:106-116 | only position and elevation matter: name, time and stamped distance do not affect the 3D distance |
| Inputs.FromGpxAll | src/main/java/ch/bubendorf/gpx2fit/Gpx2Fit.java:42-59 | one converted point per parsed point, in order |
| Inputs.Load | src/main/java/ch/bubendorf/gpx2fit/Gpx2Fit.java:42-59 | each list is empty unless its option is on, else the converted parsed list |
| Inputs.LoadedPointsHaveElevation | src/main/java/ch/bubendorf/gpx2fit/Gpx2Fit.java:42-59 | every loaded point has a known elevation and no distance stamp |
| Inputs.Aggregate | src/main/java/ch/bubendorf/gpx2fit/Gpx2Fit.java:61-67 | the track list if non-empty, else the route list if non-empty, else the waypoints; empty exactly when all three are |
| ConversionPass.WalkingGradeFactor | src/main/java/ch/bubendorf/gpx2fit/Gpx2Fit.java:81-83 | the nested form equals Minetti's degree-5 polynomial divided by 3.6 |
| ConversionPass.WalkingGradeFactorSamples | src/main/java/ch/bubendorf/gpx2fit/Gpx2Fit.java:81-83 | factor 1 on the level, above 1 at a 10% climb, negative at a 100% descent |
| ConversionPass.TimeStep | src/main/java/ch/bubendorf/gpx2fit/Gpx2Fit.java:204 | `(long)(d / gspeed * 1000)`: 0 for zero distance or NaN speed, saturated toward the sign of d for a positive-zero speed, non-negative for non-negative d and positive speed |
| ConversionPass.SegmentLength | src/main/java/ch/bubendorf/gpx2fit/Gpx2Fit.java:175-180 | the 3D or 2D length a segment adds; non-negative under the geometry laws; the 2D distance unless 3D is asked for with both elevations known |
| ConversionPass.Rise | src/main/java/ch/bubendorf/gpx2fit/Gpx2Fit.java:185-186 | an elevation change exists exactly when both elevations are known |
| ConversionPass.SegmentSpeed | src/main/java/ch/bubendorf/gpx2fit/Gpx2Fit.java:171-200 | the configured speed unless the walking grade applies; `None` (not finite) for a NaN speed or a zero-length graded segment |
| ConversionPass.Step | src/main/java/ch/bubendorf/gpx2fit/Gpx2Fit.java:175-204 | a segment's forced time step is a Java long; 0 without a configured speed and between two points at the same place |
| ConversionPass.IsForced | src/main/java/ch/bubendorf/gpx2fit/Gpx2Fit.java:144-148 | forced when the option says so; without a speed only then; a single point with a speed always |
| ConversionPass.Init | src/main/java/ch/bubendorf/gpx2fit/Gpx2Fit.java:103-113 | no point visited, distance 0, every elevation quantity NaN, and a box of sentinels any real coordinate replaces |
| ConversionPass.LowerEle | src/main/java/ch/bubendorf/gpx2fit/Gpx2Fit.java:159-161 | an unknown elevation leaves the minimum alone; a known one bounds the new minimum |
| ConversionPass.UpperEle | src/main/java/ch/bubendorf/gpx2fit/Gpx2Fit.java:162-163 | an unknown elevation leaves the maximum alone; a known one bounds the new maximum |
| ConversionPass.AddTo | src/main/java/ch/bubendorf/gpx2fit/Gpx2Fit.java:188-190 | a NaN running total starts at 0 before the addition |
| ConversionPass.Visit | src/main/java/ch/bubendorf/gpx2fit/Gpx2Fit.java:157-209 | one loop iteration visits exactly one more point |
| ConversionPass.Gain | src/main/java/ch/bubendorf/gpx2fit/Gpx2Fit.java:185-190 | the summed rises are non-negative |
| ConversionPass.Loss | src/main/java/ch/bubendorf/gpx2fit/Gpx2Fit.java:191-194 | the summed falls are non-negative |
| ConversionPass.Stamped | src/main/java/ch/bubendorf/gpx2fit/Gpx2Fit.java:172-206 | one stamped point per input point |
| ConversionPass.Pass | src/main/java/ch/bubendorf/gpx2fit/Gpx2Fit.java:157-209 | the loop visits every point of the list |
| ConversionPass.SamePlaceSameLength | src/main/java/ch/bubendorf/gpx2fit/Gpx2Fit.java:175-181 | segment lengths depend on the ends' places only |
| ConversionPass.SamePlaceSameStep | src/main/java/ch/bubendorf/gpx2fit/Gpx2Fit.java:175-204 | forced time steps depend on the ends' places only |
| ConversionPass.PathLengthLast | src/main/java/ch/bubendorf/gpx2fit/Gpx2Fit.java:175-183 | the path length is that of the prefix plus the last segment |
| ConversionPass.PassLastPlace | src/main/java/ch/bubendorf/gpx2fit/Gpx2Fit.java:208 | `last` is set exactly for a non-empty list, at its last point's place |
| ConversionPass.PassTotal | src/main/java/ch/bubendorf/gpx2fit/Gpx2Fit.java:175-183 | the total distance after the loop is the path length, 2D or 3D as configured |
| ConversionPass.PassEnd | src/main/java/ch/bubendorf/gpx2fit/Gpx2Fit.java:149-206 | the end date after the loop is the forced end date when forced, else unchanged |
| ConversionPass.PassLast | src/main/java/ch/bubendorf/gpx2fit/Gpx2Fit.java:172-208 | `last` is the stamped last point |
| ConversionPass.PassPoints | src/main/java/ch/bubendorf/gpx2fit/Gpx2Fit.java:172-206 | the loop leaves each point stamped as the prefix reference `Stamped` says |
| ConversionPass.PassBox | src/main/java/ch/bubendorf/gpx2fit/Gpx2Fit.java:166-169 | the box is the min/max folds over the coordinates from the ±1000 sentinels |
| ConversionPass.PassElevations | src/main/java/ch/bubendorf/gpx2fit/Gpx2Fit.java:158-164 | the elevation range is the NaN-skipping folds over the elevations |
| ConversionPass.PassClimbs | src/main/java/ch/bubendorf/gpx2fit/Gpx2Fit.java:185-196 | ascent and descent are the reference sums `Ascent` and `Descent` |
| ConversionPass.StampedAt | src/main/java/ch/bubendorf/gpx2fit/Gpx2Fit.java:172-206 | point j is stamped from the prefix up to it alone |
| ConversionPass.LowestBounds | src/main/java/ch/bubendorf/gpx2fit/Gpx2Fit.java:166-167 | the min fold is at most every element and the start, and equals one of them |
| ConversionPass.HighestBounds | src/main/java/ch/bubendorf/gpx2fit/Gpx2Fit.java:168-169 | the max fold is at least every element and the start, and equals one of them |
| ConversionPass.LowestKnownBounds | src/main/java/ch/bubendorf/gpx2fit/Gpx2Fit.java:159-161 | NaN exactly when no elevation is known; else the least known one |
| ConversionPass.HighestKnownBounds | src/main/java/ch/bubendorf/gpx2fit/Gpx2Fit.java:162-163 | NaN exactly when no elevation is known; else the greatest known one |
| ConversionPass.GainLossLast | src/main/java/ch/bubendorf/gpx2fit/Gpx2Fit.java:185-195 | gain and loss grow by the last segment's rise or fall |
| ConversionPass.NoClimbNoGain | src/main/java/ch/bubendorf/gpx2fit/Gpx2Fit.java:185-195 | no rising segment means no gain; no falling one means no loss |
| ConversionPass.ClimbsFallsSnoc | src/main/java/ch/bubendorf/gpx2fit/Gpx2Fit.java:185-195 | a list climbs (falls) when its prefix does or its last segment does |
| ConversionPass.SumStep | src/main/java/ch/bubendorf/gpx2fit/Gpx2Fit.java:188-194 | one step of a NaN-started running sum keeps it "unknown or the sum" |
| ConversionPass.AscentIsGain | src/main/java/ch/bubendorf/gpx2fit/Gpx2Fit.java:185-190 | the ascent is NaN until a segment rises, then the sum of all rises |
| ConversionPass.DescentIsLoss | src/main/java/ch/bubendorf/gpx2fit/Gpx2Fit.java:191-194 | the descent is NaN until a segment does not rise, then the sum of all falls |
| ConversionPass.PassPointAt | src/main/java/ch/bubendorf/gpx2fit/Gpx2Fit.java:172-206 | point j keeps place and name, gets the path length up to it, and its time changes only when forced and j > 0 |
| ConversionPass.PassBoundingBox | src/main/java/ch/bubendorf/gpx2fit/Gpx2Fit.java:166-169 | the box contains every point; each side is a sentinel or some point's coordinate |
| ConversionPass.PassElevationRange | src/main/java/ch/bubendorf/gpx2fit/Gpx2Fit.java:158-164 | the range is NaN exactly when no elevation is known; else the least and greatest known elevations |
| ConversionPass.PassAscentDescent | src/main/java/ch/bubendorf/gpx2fit/Gpx2Fit.java:185-195 | ascent and descent are NaN until a segment rises (falls), then the sums of rises (falls) |
| ConversionPass.PassForcedStep | src/main/java/ch/bubendorf/gpx2fit/Gpx2Fit.java:203-206 | with forced speed each point's time is the previous one's plus the segment's step |
| ConversionPass.PassForcedEnd | src/main/java/ch/bubendorf/gpx2fit/Gpx2Fit.java:203-206 | with forced speed the end date is the last point's time |
| ConversionPass.ConstantSpeedIsForward | src/main/java/ch/bubendorf/gpx2fit/Gpx2Fit.java:171-206 | without the walking grade a positive speed makes every segment forward |
| ConversionPass.StepNonNegative | src/main/java/ch/bubendorf/gpx2fit/Gpx2Fit.java:171-204 | over a segment whose speed (walking grade included) is positive or not finite, the time step is never negative |
| ConversionPass.ForcedEndGrows | src/main/java/ch/bubendorf/gpx2fit/Gpx2Fit.java:203-206 | when every segment's speed is positive or not finite, the forced end date grows along the list |
| ConversionPass.ForcedTimesNonDecreasing | src/main/java/ch/bubendorf/gpx2fit/Gpx2Fit.java:203-206 | when every segment's speed is positive or not finite, forced times never decrease |
| Thinning.Greedy | src/main/java/ch/bubendorf/gpx2fit/Gpx2Fit.java:386-410 | the kept indices lie in the walked range and are no more than it |
| Thinning.GreedyIncreasing | src/main/java/ch/bubendorf/gpx2fit/Gpx2Fit.java:386-410 | kept indices are strictly increasing |
| Thinning.GreedyGaps | src/main/java/ch/bubendorf/gpx2fit/Gpx2Fit.java:386-410 | each kept distance is more than the gap beyond the previous kept one (the first beyond the start reference) |
| Thinning.RefAtAfterHead | src/main/java/ch/bubendorf/gpx2fit/Gpx2Fit.java:359-367 | past a kept index the reference in force is that index's distance |
| Thinning.ChoiceKeep | src/main/java/ch/bubendorf/gpx2fit/Gpx2Fit.java:359-367 | keeping an index beyond the gap extends a loop-free choice |
| Thinning.ChoiceSkip | src/main/java/ch/bubendorf/gpx2fit/Gpx2Fit.java:359-367 | skipping an index within the gap keeps a loop-free choice |
| Thinning.GreedyMeetsChoice | src/main/java/ch/bubendorf/gpx2fit/Gpx2Fit.java:386-410 | the walk keeps exactly the indices beyond the gap from the reference in force, in order |
| Thinning.ChoiceHead | src/main/java/ch/bubendorf/gpx2fit/Gpx2Fit.java:386-410 | the first index is kept exactly when it is beyond the gap, and then first |
| Thinning.ChoiceIsGreedy | src/main/java/ch/bubendorf/gpx2fit/Gpx2Fit.java:386-410 | the loop-free description has only the walk's result as solution |
| Thinning.ChoiceAfterKept | src/main/java/ch/bubendorf/gpx2fit/Gpx2Fit.java:386-410 | after a kept first index the rest is a choice from its distance |
| Thinning.ChoiceAfterSkipped | src/main/java/ch/bubendorf/gpx2fit/Gpx2Fit.java:386-410 | after a skipped first index the same choice holds from the next |
| Emission.CoursePointGap | src/main/java/ch/bubendorf/gpx2fit/Gpx2Fit.java:268-270 | the larger of a 48th of the course length and the configured minimum |
| Emission.SkipCues | src/main/java/ch/bubendorf/gpx2fit/Gpx2Fit.java:272-279 | `skipExtraCP`: a non-zero budget the three lists together exceed; its effect on the cues is `Gpx2Fit.CueBudget` |
| Emission.RecordGap | src/main/java/ch/bubendorf/gpx2fit/Gpx2Fit.java:272-280 | the larger of the length per budgeted point (0 without budget) and the configured minimum |
| Emission.Cue | src/main/java/ch/bubendorf/gpx2fit/Gpx2Fit.java:285-293 | position in semicircles, the name or "" when absent, no distance, no timestamp |
| Emission.Cues | src/main/java/ch/bubendorf/gpx2fit/Gpx2Fit.java:284-294 | one cue per point, in list order |
| Emission.Dist | src/main/java/ch/bubendorf/gpx2fit/WayPoint.java:118-120 | `getTotalDist`, 0 for a point not yet stamped; `Gpx2Fit.AgreeDists` proves the stamped distances are the path lengths |
| Emission.StampTime | src/main/java/ch/bubendorf/gpx2fit/Gpx2Fit.java:379-382 | the point's time with a duration, else REF plus one second per point counting from one |
| Emission.UnnamedThenAt | src/main/java/ch/bubendorf/gpx2fit/Gpx2Fit.java:359-368 | unnamed spots at the given indices come before the tail, one each |
| Emission.UnnamedThen | src/main/java/ch/bubendorf/gpx2fit/Gpx2Fit.java:359-368 | one spot per index plus the tail |
| Emission.Mark | src/main/java/ch/bubendorf/gpx2fit/Gpx2Fit.java:339-367 | a course point with the given name at point j's semicircle position, its stamped distance, and its time (REF plus j+1 seconds without a duration) |
| Emission.Marks | src/main/java/ch/bubendorf/gpx2fit/Gpx2Fit.java:338-366 | one course point per spot |
| Emission.InjectedLayout | src/main/java/ch/bubendorf/gpx2fit/Gpx2Fit.java:326-370 | the injection loop is "Start", unnamed points at the thinned indices before the last, then "End" |
| Emission.InjectLoop | src/main/java/ch/bubendorf/gpx2fit/Gpx2Fit.java:326-374 | the loop from point j places a course point exactly when points remain, the first being "Start" at point 0; its full layout is `Emission.InjectedSpots` |
| Emission.InjectTail | src/main/java/ch/bubendorf/gpx2fit/Gpx2Fit.java:340-369 | from point j ≥ 1 the loop is the thinned unnamed points, then "End" |
| Emission.InjectKeep | src/main/java/ch/bubendorf/gpx2fit/Gpx2Fit.java:359-368 | a point before the last beyond the gap is kept and moves the reference |
| Emission.InjectBounds | src/main/java/ch/bubendorf/gpx2fit/Gpx2Fit.java:326-370 | injected points sit on track points from j on |
| Emission.Injected | src/main/java/ch/bubendorf/gpx2fit/Gpx2Fit.java:326-370 | the injected course points of a track; `Emission.InjectedCoursePoints` gives them as Start, the thinned unnamed points and End |
| Emission.MarksAt | src/main/java/ch/bubendorf/gpx2fit/Gpx2Fit.java:338-366 | each spot becomes the course point at its track point |
| Emission.InjectedCoursePoints | src/main/java/ch/bubendorf/gpx2fit/Gpx2Fit.java:326-370 | the injected messages are Start, the thinned unnamed points and End, with position, distance and timestamp |
| Emission.InjectedSpots | src/main/java/ch/bubendorf/gpx2fit/Gpx2Fit.java:326-370 | the injection spots one by one |
| Emission.RecordLoop | src/main/java/ch/bubendorf/gpx2fit/Gpx2Fit.java:376-413 | the record loop writes at most one record per remaining point, only records |
| Emission.RecordOf | src/main/java/ch/bubendorf/gpx2fit/Gpx2Fit.java:387-405 | a record at the given position, distance, timestamp and elevation, whose speed times the elapsed milliseconds is 1000 times the distance since the last record, 0 when no time passed |
| Emission.RecordAt | src/main/java/ch/bubendorf/gpx2fit/Gpx2Fit.java:387-396 | the record of a track point carries its semicircle position, stamped distance and elevation |
| Emission.RecordsAt | src/main/java/ch/bubendorf/gpx2fit/Gpx2Fit.java:386-410 | one record per recorded index |
| Emission.SpeedOf | src/main/java/ch/bubendorf/gpx2fit/Gpx2Fit.java:398-405 | a record's speed times the elapsed time is 1000 times the distance covered since the last record; 0 when no time passed |
| Emission.RecordLoopIsRecordsAt | src/main/java/ch/bubendorf/gpx2fit/Gpx2Fit.java:376-413 | after point 0 the loop records exactly the thinned indices, each with speed since the previous record |
| Gpx2Fit.CueBudget | src/main/java/ch/bubendorf/gpx2fit/Gpx2Fit.java:272-309 | no budget, or one the lists fit into, keeps every waypoint and route point cue; an exceeded or negative budget drops them all |
| Gpx2Fit.CueMsgs | src/main/java/ch/bubendorf/gpx2fit/Gpx2Fit.java:283-309 | waypoints and route points get a cue each unless the budget is exceeded |
| Gpx2Fit.EndDate0 | src/main/java/ch/bubendorf/gpx2fit/Gpx2Fit.java:144-155 | the end date starts at the first or the last point's time: the first when the forceSpeed option is set or both times agree, the last without forcing or speed |
| Gpx2Fit.Duration | src/main/java/ch/bubendorf/gpx2fit/Gpx2Fit.java:225 | end date after the pass minus start date; `Gpx2Fit.WalkTotals` proves it equals `CourseDuration` of the input |
| Gpx2Fit.NewConverter | src/main/java/ch/bubendorf/gpx2fit/Gpx2Fit.java:35-66 | the constructor keeps name and options and loads the lists; the aggregate is empty exactly when every requested list of the document is |
| Gpx2Fit.Assemble | src/main/java/ch/bubendorf/gpx2fit/Gpx2Fit.java:121-424 | file id, course and lap first, timer stop last, five fixed messages plus the blocks |
| Gpx2Fit.Messages | src/main/java/ch/bubendorf/gpx2fit/Gpx2Fit.java:121-424 | a non-empty file: the lap third, the timer start at the first point's time after the cues, five messages plus the blocks |
| Gpx2Fit.InjectMsgs | src/main/java/ch/bubendorf/gpx2fit/Gpx2Fit.java:326-374 | the injected block, empty without injection or track; `Gpx2Fit.WriteFitInjected` proves it is `CoursePointsAlong` of the input track |
| Gpx2Fit.RecordMsgs | src/main/java/ch/bubendorf/gpx2fit/Gpx2Fit.java:376-413 | the record block; `Gpx2Fit.WriteFitRecords` proves it is `RecordsAlong` of the input track |
| Gpx2Fit.StopTime | src/main/java/ch/bubendorf/gpx2fit/Gpx2Fit.java:415-424 | REF without a track; the last track point's time when the course has a duration; else REF plus one second per track point |
| Gpx2Fit.CueRanks | src/main/java/ch/bubendorf/gpx2fit/Gpx2Fit.java:283-309 | every cue message is a course point of the cue block |
| Gpx2Fit.WriteFit | src/main/java/ch/bubendorf/gpx2fit/Gpx2Fit.java:98-101 | nothing is written exactly when all three lists are empty |
| Gpx2Fit.AppendBlock | src/main/java/ch/bubendorf/gpx2fit/Gpx2Fit.java:121-424 | appending a block of a higher rank keeps the message layout |
| Gpx2Fit.AssembleLayout | src/main/java/ch/bubendorf/gpx2fit/Gpx2Fit.java:121-424 | the blocks between the fixed messages are in kind order with every single message present |
| Gpx2Fit.WriteFitLayout | src/main/java/ch/bubendorf/gpx2fit/Gpx2Fit.java:121-424 | file id, course, lap, cues, start, injected points, records, stop: in this order, single kinds once; a non-empty file holds each single kind |
| Gpx2Fit.AssembleAt | src/main/java/ch/bubendorf/gpx2fit/Gpx2Fit.java:121-424 | where each block of a non-empty file sits |
| Gpx2Fit.LapTotals | src/main/java/ch/bubendorf/gpx2fit/Gpx2Fit.java:211-230 | lap start at the first point's time; distance the path length; duration to the (forced) end; speed covers the distance in the duration, absent for zero duration (Java's quotient is then +Infinity, or NaN for zero distance) |
| Gpx2Fit.LapOf | src/main/java/ch/bubendorf/gpx2fit/Gpx2Fit.java:211-264 | lap start at the first point's time and position, end at the last point's position; timer and elapsed time the duration in seconds; speed covers the distance, absent for zero duration |
| Gpx2Fit.RoundClimb | src/main/java/ch/bubendorf/gpx2fit/Gpx2Fit.java:232-239 | present exactly when the sum is; a non-negative sum is rounded half up to the nearest metre (below the int bound) |
| Gpx2Fit.WalkTotals | src/main/java/ch/bubendorf/gpx2fit/Gpx2Fit.java:149-209 | the pass leaves the path length and the course duration |
| Gpx2Fit.LapClimbs | src/main/java/ch/bubendorf/gpx2fit/Gpx2Fit.java:232-239 | ascent/descent written only after a rise/fall, as `(int)(sum + 0.5)` |
| Gpx2Fit.LapAltitudes | src/main/java/ch/bubendorf/gpx2fit/Gpx2Fit.java:240-246 | altitudes written only if some elevation is known; then the least and greatest |
| Gpx2Fit.SentinelsSaturate | src/main/java/ch/bubendorf/gpx2fit/Gpx2Fit.java:112-113 | the ±1000 degree sentinels encode to the int bounds |
| Gpx2Fit.LapBoundingBox | src/main/java/ch/bubendorf/gpx2fit/Gpx2Fit.java:248-261 | the lap box contains every point's encoding; each side is some point's or the saturated sentinel |
| Gpx2Fit.LapBox | src/main/java/ch/bubendorf/gpx2fit/Gpx2Fit.java:258-261 | encoding a containing box gives a containing lap box |
| Gpx2Fit.WriteFitCues | src/main/java/ch/bubendorf/gpx2fit/Gpx2Fit.java:266-318 | lap third, then one cue per waypoint and per route point in order unless skipped, then the timer start at the first point's time |
| Gpx2Fit.AssembleCues | src/main/java/ch/bubendorf/gpx2fit/Gpx2Fit.java:283-318 | the cue block sits between the lap and the timer start |
| Gpx2Fit.PathLengths | src/main/java/ch/bubendorf/gpx2fit/Gpx2Fit.java:338 | each entry is the path length up to that point |
| Gpx2Fit.InjectIndices | src/main/java/ch/bubendorf/gpx2fit/Gpx2Fit.java:359-368 | unnamed course points only on points before the last |
| Gpx2Fit.InjectRanks | src/main/java/ch/bubendorf/gpx2fit/Gpx2Fit.java:326-370 | every injected message is a course point of the injected block |
| Gpx2Fit.CoursePointsAlong | src/main/java/ch/bubendorf/gpx2fit/Gpx2Fit.java:326-370 | two more course points than thinned indices |
| Gpx2Fit.RecordIndicesOf | src/main/java/ch/bubendorf/gpx2fit/Gpx2Fit.java:386 | point 0 is always recorded; every recorded index is a track index |
| Gpx2Fit.RecordsFrom | src/main/java/ch/bubendorf/gpx2fit/Gpx2Fit.java:386-410 | one record per index |
| Gpx2Fit.TrackAt | src/main/java/ch/bubendorf/gpx2fit/Gpx2Fit.java:172-209 | a track point after the pass keeps its place, carries the path length, and the loops stamp it with `TrackStamp` |
| Gpx2Fit.TrackAgrees | src/main/java/ch/bubendorf/gpx2fit/Gpx2Fit.java:172-209 | the track the loops walk agrees with the input track |
| Gpx2Fit.AgreeDists | src/main/java/ch/bubendorf/gpx2fit/Gpx2Fit.java:338 | the stamped distances are the path lengths |
| Gpx2Fit.AgreeInjected | src/main/java/ch/bubendorf/gpx2fit/Gpx2Fit.java:326-370 | the injection loop writes `CoursePointsAlong` of the input track |
| Gpx2Fit.AgreeRecordsAt | src/main/java/ch/bubendorf/gpx2fit/Gpx2Fit.java:386-410 | records at any indices match the input reference |
| Gpx2Fit.AgreeRecords | src/main/java/ch/bubendorf/gpx2fit/Gpx2Fit.java:376-413 | the record loop writes `RecordsAlong` of the input track |
| Gpx2Fit.RecordsFromAt | src/main/java/ch/bubendorf/gpx2fit/Gpx2Fit.java:386-410 | record k is at point idx[k] with speed since the record at idx[k-1] |
| Gpx2Fit.RecordsAlongMeaning | src/main/java/ch/bubendorf/gpx2fit/Gpx2Fit.java:376-413 | records start at point 0, each at its point with speed since the previous record, recorded points more than the gap apart |
| Gpx2Fit.TrackRecordFields | src/main/java/ch/bubendorf/gpx2fit/Gpx2Fit.java:387-405 | a record carries its point's position, path length, timestamp, elevation, and the average speed since the previous record |
| Gpx2Fit.RecordIndicesApart | src/main/java/ch/bubendorf/gpx2fit/Gpx2Fit.java:386 | consecutive recorded points are more than the record gap of path length apart |
| Gpx2Fit.AssembleInjected | src/main/java/ch/bubendorf/gpx2fit/Gpx2Fit.java:311-370 | the injected block follows the timer start |
| Gpx2Fit.AssembleRecords | src/main/java/ch/bubendorf/gpx2fit/Gpx2Fit.java:376-424 | the record block ends just before the timer stop |
| Gpx2Fit.TrackBlocks | src/main/java/ch/bubendorf/gpx2fit/Gpx2Fit.java:326-424 | the track blocks and the stop time are the input references |
| Gpx2Fit.WriteFitInjected | src/main/java/ch/bubendorf/gpx2fit/Gpx2Fit.java:326-370 | with injection on, the file holds `CoursePointsAlong` right after the timer start |
| Gpx2Fit.MessagesInjected | src/main/java/ch/bubendorf/gpx2fit/Gpx2Fit.java:326-370 | the injected block sits right after the timer start |
| Gpx2Fit.WriteFitRecords | src/main/java/ch/bubendorf/gpx2fit/Gpx2Fit.java:376-424 | the file ends with `RecordsAlong` of the track and the timer stop at the last track point's timestamp |
| Gpx2Fit.AssembleKinds | src/main/java/ch/bubendorf/gpx2fit/Gpx2Fit.java:326-413 | records occur exactly when the record block is non-empty, injected points exactly when that block is |
| Gpx2Fit.WriteFitTrackOnly | src/main/java/ch/bubendorf/gpx2fit/Gpx2Fit.java:320-424 | records exist exactly with a track; injected points exactly with a track and injection on; without a track the stop is at REF |
| Gpx2Fit.MessagesKinds | src/main/java/ch/bubendorf/gpx2fit/Gpx2Fit.java:326-424 | the kind facts for any pass state that visited the track |
| Reducer.DistancePointLine | src/main/java/ch/bubendorf/gpx2fit/Reducer.java:105-150 | distance from the start point when the guard passes, else the planar distance |
| Reducer.MeasuresToStart | src/main/java/ch/bubendorf/gpx2fit/Reducer.java:122-125 | the degenerate-chord guard as written; characterised by `Reducer.StartBranchDependsOnLongitudeOnly` |
| Reducer.StartBranchDependsOnLongitudeOnly | src/main/java/ch/bubendorf/gpx2fit/Reducer.java:123 | for real latitudes the guard reduces to the longitude test |
| Reducer.NorthSouthChordMeasuredFromStart | src/main/java/ch/bubendorf/gpx2fit/Reducer.java:122-125 | a point on a north-south chord 10 degrees long is measured from the chord's start |
| Reducer.DistancePointLineIntended | src/main/java/ch/bubendorf/gpx2fit/Reducer.java:122-125 | the start-point branch only when the ends coincide to 1e-6 in both coordinates |
| Reducer.IntendedMeasuresChordWhenEndsApart | src/main/java/ch/bubendorf/gpx2fit/Reducer.java:122-125 | with the intended guard distinct ends are measured as a chord; it agrees with the original where it takes the start branch |
| Reducer.Deviation | src/main/java/ch/bubendorf/gpx2fit/Reducer.java:46 | an interior point's distance to the chord of the whole list, as also used at line 79; `Reducer.MaxScan` and `Reducer.SplitIndex` state how it picks the split |
| Reducer.MaxScan | src/main/java/ch/bubendorf/gpx2fit/Reducer.java:39-51 | the scan returns the first strict maximum of the interior deviations, or the start values |
| Reducer.SplitIndex | src/main/java/ch/bubendorf/gpx2fit/Reducer.java:38-60 | the first interior point of largest deviation, or the middle index when every deviation is below EPSILON |
| Reducer.Reduce | src/main/java/ch/bubendorf/gpx2fit/Reducer.java:72-95 | unchanged for tolerance ≤ 0 or ≤ 2 points; keeps both ends; collapses to the ends when the split point is within tolerance |
| Reducer.ReduceKeepsSplitPointOnce | src/main/java/ch/bubendorf/gpx2fit/Reducer.java:81-90 | the halves share the split point and the join keeps it once |
| Reducer.ReduceSimplifies | src/main/java/ch/bubendorf/gpx2fit/Reducer.java:62-95 | the result is an order-preserving selection keeping both ends; with tolerance ≥ EPSILON every dropped point is within tolerance of its chord |
| Reducer.SplitSimplifies | src/main/java/ch/bubendorf/gpx2fit/Reducer.java:81-90 | the two halves' selections join into one for the span |
| Reducer.CollapseSimplifies | src/main/java/ch/bubendorf/gpx2fit/Reducer.java:93-94 | the two end points are a selection of the span |
| Reducer.IdentityEmbedding | src/main/java/ch/bubendorf/gpx2fit/Reducer.java:73-74 | an unreduced list is a selection of itself |
| Reducer.Shifted | src/main/java/ch/bubendorf/gpx2fit/Reducer.java:85-89 | the right half's positions shifted to the whole span |
| Reducer.JoinEmbeddings | src/main/java/ch/bubendorf/gpx2fit/Reducer.java:87-89 | the joined result embeds into the span |
| Reducer.JoinChords | src/main/java/ch/bubendorf/gpx2fit/Reducer.java:87-89 | chord bounds of the halves carry over to the join |
| Reducer.CollapsedChordWithin | src/main/java/ch/bubendorf/gpx2fit/Reducer.java:93-94 | a collapsed span has every interior point within tolerance |
| Reducer.ReduceIsSubsequence | src/main/java/ch/bubendorf/gpx2fit/Reducer.java:72-95 | the result is a subsequence of the input |
| Reducer.BelowEpsilonDropsDeviatingPoint | src/main/java/ch/bubendorf/gpx2fit/Reducer.java:55-58 | below EPSILON a point farther than the tolerance can be dropped |

## Left out

- The GPX reader (jpx) is not modelled. A parsed document is given as three lists of points, its tracks and segments flattened in document order.
- Main and CommandLineArguments are not part of this model.
- The encoders (`FitEncoder`, `FitBufferEncoder`, `FitFileEncoder`), the byte encoding of the FIT format, and the output stream or file are not modelled. `WriteFit` returns the messages in the order they are written.
- The file id's `number` (`pointsToUse.hashCode()`) and `timeCreated` (the current clock) are not modelled. They depend on object identity and the clock.
- Message fields the code sets to constants (manufacturer, file type, sport, course point type, event kinds, event group, local message number) are not repeated in the messages.
- The FIT `DateTime` keeps whole seconds since the FIT epoch. Timestamps here stay in milliseconds, including the record loop's `l` read back from the timestamp. Sub-second times are therefore kept, and the speed's "no time passed" test compares milliseconds. The SDK's DateTime class is not part of this model.
- Floating-point rounding is not modelled: doubles are exact reals, and the `(float)` casts of message fields are the identity. NaN is modelled as `None`. Infinities are modelled only where the source produces them: the saturated cast of an infinite quotient in `ConversionPass.TimeStep`, the non-finite speed of a zero-length graded segment in `ConversionPass.SegmentSpeed`, and the absent average speed of a zero-duration lap (+Infinity, or NaN for zero distance).
- The geodesic distance of the gavaghan library and `Math.sqrt` are parameters. `GeoCalculator` is not part of this model.
- The planar foot-of-perpendicular branch of `getDistancePointLine` is a parameter `Planar`. Its slope arithmetic, including division by zero for a vertical or horizontal chord, is not modelled.
- ConversionPass.TimeStep: the sign of a zero speed is not kept. In Java a zero configured speed times a negative walking-grade factor, or a configured speed of -0.0, gives gspeed = -0.0, so `d / gspeed` is -Infinity for positive d and the cast gives LONG_MIN; the model treats every zero speed as +0.0 and gives LONG_MAX.
- ConversionPass.ForcedEnd: adds time steps as unbounded integers. Java's `long` addition wrap-around for end dates beyond about 292 million years is not modelled.
- Emission.StampTime: `REF + i * 1000` is computed without `long` overflow, which needs more than 10^15 points to occur.
- Gpx2Fit.LapOf: the four bounding-box fields are always written. The code adds them by reflection and silently skips them if reflection fails; that failure path is not modelled.
- `Reducer.reduce` is modelled on its own. writeFit never calls it, and the `tolerance` option has no effect on the conversion.
- `WayPoint.equals` is object identity. The model decides the injected "End" point by index: it is the last track point, which is `lastWayPoint` whenever the track is not empty.

## Findings

| source | as written | input that shows it | evidently intended | confidence | as-written member | corrected member |
|---|---|---|---|---|---|---|
| src/main/java/ch/bubendorf/gpx2fit/Reducer.java:123 | the latitude test of the "start equals end" guard is `< 1e6`, so for real latitudes only the longitudes are compared | start (0, 0), end (10, 0), point (5, 0): the point lies on the chord but is measured from the start | `< 1e-6`, as for the longitude and as the comment "if the start and the end are the same" says | high (not executed) | Reducer.NorthSouthChordMeasuredFromStart | Reducer.DistancePointLineIntended |

`Reducer.Reduce` and its lemmas take the chord distance as a parameter, so they hold with
either `Reducer.DistancePointLine` or `Reducer.DistancePointLineIntended` plugged in.
