/**
 The numerical collaborators the converter calls but does not implement.

 - The ellipsoidal (WGS84) geodesic distance of the gavaghan geodesy library, taking
   `(lat1, lon1, lat2, lon2)` in degrees and returning metres. It is an uninterpreted
   function here: nothing about it is a fact of this code.
 - `Math.sqrt`, used to combine a horizontal distance with an elevation difference.

 Both are passed around in a `Geometry` value. The laws one may expect of them are
 stated as explicit assumptions (`GeodesicLaws`, `SqrtLaws`) and are required only by
 the lemmas that need them.
 */
module GeoMath {

  type Geodesic = (real, real, real, real) -> real

  type SquareRoot = real -> real

  datatype Geometry = Geometry(geodesic: Geodesic, sqrt: SquareRoot)

  /** Assumed of the geodesic distance: it is never negative, and zero from a point to itself. */
  ghost predicate GeodesicLaws(geo: Geodesic) {
    && (forall lat1, lon1, lat2, lon2 :: geo(lat1, lon1, lat2, lon2) >= 0.0)
    && (forall lat, lon :: geo(lat, lon, lat, lon) == 0.0)
  }

  /** Assumed of `Math.sqrt`: the non-negative square root of a non-negative argument. */
  ghost predicate SqrtLaws(sqrt: SquareRoot) {
    forall x :: x >= 0.0 ==> sqrt(x) >= 0.0 && sqrt(x) * sqrt(x) == x
  }

  ghost predicate Laws(g: Geometry) {
    GeodesicLaws(g.geodesic) && SqrtLaws(g.sqrt)
  }
}
