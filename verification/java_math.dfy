/**
 Numeric conventions of the Java code, made explicit.

 - A `double` that may hold NaN is modelled as `Option<real>`: `None` stands for NaN,
   `Some(x)` for the number x. The converter uses NaN as its "unknown" marker
   (elevation, ascent, descent, cumulative distance before it is stamped). Where a
   quotient can also be infinite (a lap's average speed, a walking-grade speed over a
   zero-length segment) `None` stands for any value that is not finite, as the member
   concerned says.
 - Java's narrowing casts `(int) d` and `(long) d` round toward zero and saturate at the
   range of the target type (Java Language Specification, section 5.1.3).
 - Floating-point rounding is not modelled: doubles are exact reals.
 */
module JavaMath {

  /** A value that may be missing; for doubles, `None` is NaN. */
  datatype Option<+T> = None | Some(value: T) {

    /** The value, or `default` when there is none. */
    function GetOr(default: T): T {
      match this
      case Some(v) => v
      case None => default
    }
  }

  const INT_MIN: int := -0x8000_0000
  const INT_MAX: int := 0x7fff_ffff
  const LONG_MIN: int := -0x8000_0000_0000_0000
  const LONG_MAX: int := 0x7fff_ffff_ffff_ffff

  function Min(a: real, b: real): (r: real)
    ensures r <= a && r <= b
    ensures r == a || r == b
  {
    if a <= b then a else b
  }

  function Max(a: real, b: real): (r: real)
    ensures a <= r && b <= r
    ensures r == a || r == b
  {
    if a >= b then a else b
  }

  function Abs(x: real): (r: real)
    ensures 0.0 <= r
    ensures r == x || r == -x
  {
    if x < 0.0 then -x else x
  }

  /** Rounding toward zero: the integer part of x. */
  function Trunc(x: real): (r: int)
    ensures 0.0 <= x ==> 0 <= r && r as real <= x < r as real + 1.0
    ensures x <= 0.0 ==> r <= 0 && r as real - 1.0 < x <= r as real
  {
    if x >= 0.0 then x.Floor else -((-x).Floor)
  }

  /** Java's `(int)` / `(long)` cast of a non-NaN double, for a target range [lo, hi]. */
  function NarrowCast(x: real, lo: int, hi: int): (r: int)
    requires lo <= 0 <= hi
    ensures lo <= r <= hi
    ensures lo <= Trunc(x) <= hi ==> r == Trunc(x)
    ensures Trunc(x) < lo ==> r == lo
    ensures hi < Trunc(x) ==> r == hi
  {
    var t := Trunc(x);
    if t < lo then lo else if hi < t then hi else t
  }

  /** `(int) x` */
  function ToInt(x: real): (r: int)
    ensures INT_MIN <= r <= INT_MAX
  {
    NarrowCast(x, INT_MIN, INT_MAX)
  }

  /** `(long) x` */
  function ToLong(x: real): (r: int)
    ensures LONG_MIN <= r <= LONG_MAX
  {
    NarrowCast(x, LONG_MIN, LONG_MAX)
  }

  lemma TruncMonotone(x: real, y: real)
    requires x <= y
    ensures Trunc(x) <= Trunc(y)
  {
  }

  lemma TruncOdd(x: real)
    ensures Trunc(-x) == -Trunc(x)
  {
  }

  lemma NarrowCastMonotone(x: real, y: real, lo: int, hi: int)
    requires lo <= 0 <= hi
    requires x <= y
    ensures NarrowCast(x, lo, hi) <= NarrowCast(y, lo, hi)
  {
    TruncMonotone(x, y);
  }

  /** For a non-negative argument the cast is the floor (clamped at the top). */
  lemma NarrowCastOfNonNegative(x: real, lo: int, hi: int)
    requires lo <= 0 <= hi
    requires 0.0 <= x < hi as real + 1.0
    ensures NarrowCast(x, lo, hi) == x.Floor
  {
  }
}
