/** The interval table: one growable list of bound x-coordinates per raster row
    (fill_curve.cpp:74-87). */
module InterTable {

  /** Row iy of the table holds the x-coordinates recorded for that row, unsorted. */
  type Table = seq<seq<real>>

  /** Every row of `after` starts with the corresponding row of `before`: bounds are only appended. */
  predicate Extends(before: Table, after: Table)
  {
    |after| == |before| && forall k :: 0 <= k < |before| ==> before[k] <= after[k]
  }

  /** `init_inter`: resize to `size` rows and clear every row. The previous contents of a reused
      table play no part in the result. */
  function InitInter(inter: Table, size: nat): (r: Table)
    ensures |r| == size
    ensures forall iy :: 0 <= iy < size ==> r[iy] == []
  {
    seq(size, _ => [])
  }

  /** `bound`: append x to row iy when that row exists; rows outside the table are dropped. */
  function Bound(inter: Table, x: real, iy: int): (r: Table)
    ensures |r| == |inter|
    ensures 0 <= iy < |inter| ==> r[iy] == inter[iy] + [x]
    ensures forall k :: 0 <= k < |inter| && k != iy ==> r[k] == inter[k]
    ensures !(0 <= iy < |inter|) ==> r == inter
  {
    if 0 <= iy < |inter| then inter[iy := inter[iy] + [x]] else inter
  }
}
