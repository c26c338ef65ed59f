/** Points, the half-pixel grid shift and the scalar helpers of the scan converter
    (fill_curve.cpp:28-38). Coordinates are exact rationals: every branch of the
    algorithm is an exact-equality test on the shifted grid. */
module Geometry {

  /** A curve vertex. */
  datatype Point = Point(x: real, y: real)

  /** The alignment shift `delta = (-0.5, -0.5)` applied to every vertex before any integer test. */
  function Shift(pt: Point): Point
  {
    Point(pt.x - 0.5, pt.y - 0.5)
  }

  /** The C++ conversion `(int)f`: truncation toward zero (overflow is not modelled). */
  function Trunc(f: real): (r: int)
    ensures 0.0 <= f ==> r as real <= f < r as real + 1.0
    ensures f < 0.0 ==> r as real - 1.0 < f <= r as real
  {
    if 0.0 <= f then f.Floor else -((-f).Floor)
  }

  /** `is_integer`: f equals its own truncation. */
  function IsInteger(f: real): (r: bool)
    ensures r <==> f == f.Floor as real
  {
    TruncExact(f);
    f == Trunc(f) as real
  }

  /** f is its own truncation exactly when it is its own floor. */
  lemma TruncExact(f: real)
    ensures f == Trunc(f) as real <==> f == f.Floor as real
  {
    if f < 0.0 && f == f.Floor as real {
      assert (-f).Floor == -f.Floor;
    }
  }

  /** `sign(f1, f2)`: +1 when f1 < f2 and -1 otherwise; it is never 0. */
  function Sign(f1: real, f2: real): (r: int)
    ensures r == 1 || r == -1
    ensures r == 1 <==> f1 < f2
  {
    if f1 < f2 then 1 else -1
  }

  /** How a y coordinate is turned into a row index by the edge walker. `TowardZero` is the
      C++ `(int)` of the code; `Downward` is the floor, under which every interpolated bound
      stays on the edge (see `PolyIterator.EdgeBoundsBetween`). */
  datatype RowCast = TowardZero | Downward

  function RowOf(cast: RowCast, y: real): (r: int)
    ensures cast == Downward || 0.0 <= y ==> r as real <= y < r as real + 1.0
    ensures cast == TowardZero && y < 0.0 ==> r as real - 1.0 < y <= r as real
    ensures IsInteger(y) ==> r as real == y
  {
    match cast
    case TowardZero => Trunc(y)
    case Downward => y.Floor
  }

  /** Both row casts are monotone. */
  lemma RowOfMonotone(cast: RowCast, y1: real, y2: real)
    requires y1 <= y2
    ensures RowOf(cast, y1) <= RowOf(cast, y2)
  {
  }

  function Min(a: real, b: real): real { if a <= b then a else b }

  function Max(a: real, b: real): real { if a <= b then b else a }
}
