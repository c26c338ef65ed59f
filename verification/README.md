# Curve filling for level-line extraction, in Dafny

This project models the scan converter that fills the interior of a closed polyline (a level
line) into a raster image (`fill_curve.cpp`), together with the `blank_border` helper of the
extraction program (`main_extraction.cpp`). It proves properties of that model.

The converter works in three stages:

1. It shifts every vertex by (-0.5, -0.5), so that pixel centres lie on integer coordinates.
2. A small state machine, `PolyIterator`, walks the polygon edge by edge. For every raster row an
   edge crosses, it records the x of the crossing in a per-row table. A horizontal edge lying on a
   row records its start x when it enters a run with the direction code the walker already had,
   and when it turns back within a run; otherwise it records nothing. A sloped edge leaving a run
   records the start x on the run's row when its vertical direction code differs from the run's.
   A vertex on a row passed in the same vertical direction is recorded once, and a local peak
   twice. The far end of an edge is left to the next edge.
3. `fill_line` sorts each row's bounds. It then paints the pixels between them by the even-odd
   rule, plus any pixel that a bound hits exactly.

Modules and files:

- `geometry.dfy` (`Geometry`): points, the half-pixel shift, the truncating `(int)` cast,
  `is_integer` and `sign`. It also has `RowCast`, the choice of how the walker turns a y
  coordinate into a row index.
- `inter_table.dfy` (`InterTable`): the per-row bound table, `init_inter` and `bound`.
- `poly_iterator.dfy` (`PolyIterator`):
  - `last_point` and the walker's constructor
  - `add_point`, split into the horizontal step, the start marks, the first row and the
    interpolation loop
  - the walk over a whole curve
  - the geometric properties of the recorded bounds
- `row_bounds.dfy` (`RowBounds`):
  - sorting a row
  - counting the bounds left of a column
  - `Painted`, the pointwise characterisation of the columns `fill_line` paints
  - the condition under which its assertion fails
- `row_filler.dfy` (`RowFiller`): `fill_line` as a method with loops.
- `raster.dfy` (`Raster`): a w x h buffer as a flat row-major sequence, and its pixel, row-slice
  and row-splice operations.
- `curve_fill.dfy` (`CurveFill`): `fill_point`, `fill_inter` and `fill_curve`.
- `blank_border.dfy` (`Border`): `blank_border` on an 8-bit image.

Coordinates are modelled as exact rationals (`real`). The algorithm branches only on exact
equalities and orderings of shifted coordinates, so every branch of the code has a counterpart.
A buffer `T*` of w*h pixels is a `seq<T>` of that length. Methods return the new buffer. The
optional caller-owned table of `fill_curve` is an `Option<Table>` in and out.

The assertion in `fill_line` (fill_curve.cpp:164) is modelled as a returned `violated` flag. The
flag is set exactly when the assertion fails. The row then ends as it does in a build with
assertions disabled.

A column of a row is painted when an odd number of bounds lie strictly left of it or a bound lies
exactly on it. The sweep stops at the last bound, so on a row with an odd number of bounds the
columns right of every bound keep their pixels; `RowBounds.Painted` states this. On a row with an
even number of bounds the two descriptions agree (`RowBounds.EvenRowParity`). A closed curve is meant
to leave an even number of bounds on every row; that is not proved here.

The row cast of the walker is a parameter:

- `TowardZero` is the code's `(int)` cast.
- `Downward` is the floor.

Every result stated for `fill_curve` holds for either cast. The two casts differ only on negative,
non-integer y (see Findings).

## Model

| member | source | states |
|---|---|---|
| Geometry.Trunc | fill_curve.cpp:112-113 | the `(int)` cast truncates toward zero: for f >= 0 it is the greatest integer not above f, for f < 0 the least integer not below f |
| Geometry.IsInteger | fill_curve.cpp:35-38 | `is_integer(f)` holds exactly when f is a whole number, although it compares f with its truncation toward zero |
| Geometry.Sign | fill_curve.cpp:30-33 | `sign` is always +1 or -1 and never 0; it is +1 exactly when f1 < f2 |
| Geometry.RowOf | fill_curve.cpp:112-113 | the row index of y: the floor when y >= 0 or when flooring; the ceiling for negative y under truncation; y itself when y is whole |
| InterTable.InitInter | fill_curve.cpp:74-81 | after `init_inter` the table has exactly `size` rows, all empty, whatever it held before |
| InterTable.Bound | fill_curve.cpp:83-87 | `bound` appends x to row iy when 0 <= iy < rows and changes no other row; an out-of-range row leaves the table unchanged |
| PolyIterator.LastFrom | fill_curve.cpp:52-57 | the backward scan stops at the first index (from i down) whose point differs from the first point, and at 0 when there is none |
| PolyIterator.LastPoint | fill_curve.cpp:49-58 | `last_point` is the greatest index whose point differs from the first; it is 0 exactly when all points coincide, and every point after it equals the first |
| PolyIterator.NewWalker | fill_curve.cpp:60-72 | the constructor sets the start vertex to the shifted first point; its direction is +1 or -1, taken from x on a horizontal closing edge and from y otherwise; a horizontal state lies on a grid row; an all-equal curve gets direction -1 |
| PolyIterator.Crossings | fill_curve.cpp:128-136 | the interpolation loop appends to each row k exactly one x (the edge's x at height k) when k is among the rows visited and strictly before the far end, and nothing otherwise |
| PolyIterator.SlopedStep | fill_curve.cpp:111-136 | after a sloped edge the walker is at the new vertex, not horizontal, with direction sign(q.y, p.y); bounds are only appended. Leaving a horizontal run, the run's row gets the start x once if the vertical direction code differs from the run's and nothing otherwise; a start vertex on a row passed in the same vertical direction gets its x once; the far end's row gets nothing. Unless the row cast overshoots, every appended bound lies on the edge and rows outside the edge's y-range are unchanged |
| PolyIterator.AddPoint | fill_curve.cpp:89-137 | `add_point` only appends bounds and moves to the shifted point; it keeps the walker's invariant. A horizontal edge on a row records exactly one bound, at its start x on that row, when it enters a run in the previous direction or turns back within a run, and none otherwise. A zero-length or off-row horizontal edge records nothing. A sloped edge sets the vertical direction; leaving a run it records the start x once on the run's row exactly when the direction code changes; a start vertex on a row passed in the same vertical direction gets its x once; the far end's row gets nothing; a local peak appends its x twice on its row |
| PolyIterator.Walk | fill_curve.cpp:201-203 | adding the points in order only appends bounds, keeps the walker's invariant and ends at the last point |
| PolyIterator.WalkCurve | fill_curve.cpp:195-204 | the walk of a non-empty curve, closed back to its first vertex, yields a table of exactly h rows and a valid walker standing on the first vertex |
| PolyIterator.WalkInPlace | fill_curve.cpp:96-108 | edges of zero length change neither the walker nor the table |
| PolyIterator.ConstantCurveRecordsNothing | fill_curve.cpp:187-204 | a curve whose points all coincide leaves every row of the table empty |
| PolyIterator.InterpolationBetween | fill_curve.cpp:133-134 | for a row within the edge's y-range, the interpolated x lies between the edge's end x values |
| PolyIterator.CrossingsOnEdge | fill_curve.cpp:128-136 | when the loop starts at or past q.y, every bound it appends lies on the segment q-p |
| PolyIterator.StartMarksOnEdge | fill_curve.cpp:116-124 | the bounds recorded at the start vertex lie on the edge; every one of them is the vertex's x on the vertex's own row |
| PolyIterator.SlopedLeavesRun | fill_curve.cpp:116-120 | leaving a horizontal run, the run's row gets the start x once when the direction code changes and nothing otherwise, since the loop starts one row further |
| PolyIterator.SlopedPassesVertex | fill_curve.cpp:121-135 | a start vertex on a grid row, passed in the same vertical direction, puts its own x on that row exactly once, from the loop's first row |
| PolyIterator.SlopedSkipsFarRow | fill_curve.cpp:128-132 | the row of the far end of a sloped edge, when it is a grid row, gets nothing from the edge |
| PolyIterator.SlopedOnEdge | fill_curve.cpp:111-136 | unless the row cast overshoots, every bound of a sloped edge lies on the edge and rows outside its y-range are unchanged |
| PolyIterator.EdgeBoundsBetween | fill_curve.cpp:111-136 | every bound recorded by a sloped edge lies on a row within the edge's y-range and at an x between its end x values (the assertion of line 134), except in the overshoot case of the Findings |
| PolyIterator.SlopedCrossesEveryRow | fill_curve.cpp:111-136 | under either row cast, a sloped edge appends to every row strictly inside its y-range exactly one x, the one interpolated at line 133 |
| PolyIterator.FlooredEdgeBoundsBetween | fill_curve.cpp:112-134 | with rows taken by floor, every bound of every sloped edge lies on the edge, with no exception |
| PolyIterator.TowardZeroOvershoot | fill_curve.cpp:112-134 | under the code's cast, the upward edge from shifted (1.5,-0.5) to (4.5,-3.5) records x = 1.0 on row 0, which the edge does not reach; the floored walker records nothing |
| RowBounds.Insert | fill_curve.cpp:150 | inserting into a sorted row keeps it sorted and adds exactly that element |
| RowBounds.Sort | fill_curve.cpp:150 | the sorted row is ascending and a permutation of the bounds |
| RowBounds.CountBelowSort | fill_curve.cpp:150-154 | sorting does not change how many bounds lie left of any point |
| RowBounds.SortKeepsPainting | fill_curve.cpp:150 | sorting changes neither which columns are painted nor whether the sweep's assertion fails |
| RowBounds.CountBelowSorted | fill_curve.cpp:152-154 | in a sorted row the bounds left of x form a prefix, so their count is the length of that prefix |
| RowBounds.PaintedAt | fill_curve.cpp:160-169 | with the sweep on bound k, column i is painted exactly when k is odd or bound k lies exactly on i |
| RowBounds.EvenRowParity | fill_curve.cpp:147-171 | for a row with an even number of bounds, a column is painted exactly when an odd number of bounds lie strictly left of it or a bound lies on it |
| RowFiller.FillSpan | fill_curve.cpp:156-157 | `std::fill` sets the first m columns to the value and keeps the rest |
| RowFiller.SkipLeft | fill_curve.cpp:151-154 | the first loop skips exactly the negative bounds, and the inside flag is the parity of their number |
| RowFiller.Sweep | fill_curve.cpp:158-170 | the main loop leaves every column equal to the even-odd rule's value, and stops with the assertion failing exactly when the row's bounds run out while inside |
| RowFiller.FillLine | fill_curve.cpp:147-171 | `fill_line` sorts the bounds and gives each column either the value or its old pixel, as the even-odd rule says; a row whose bounds are all negative is unchanged; the assertion fails exactly when a bound is non-negative, all lie left of the last column, and their number is odd |
| Raster.RowSlice | fill_curve.cpp:179 | `[im+i*w, im+(i+1)*w)` holds exactly the pixels of row i |
| Raster.SpliceRow | fill_curve.cpp:179 | writing a line into row i changes that row only |
| Raster.UpdatePixel | main_extraction.cpp:33 | writing one offset changes exactly one pixel |
| CurveFill.FillPoint | fill_curve.cpp:139-145 | `fill_point` writes the value at (row, column) of the shifted point when both coordinates are whole, and changes nothing else; otherwise the buffer is unchanged |
| CurveFill.FillPointExamples | fill_curve.cpp:139-145 | vertex (5.5, 3.5) in an 8-wide buffer writes offset 29; vertex (5.3, 3.5) writes nothing |
| CurveFill.FillRow | fill_curve.cpp:177-179 | one iteration of `fill_inter` fills row i by its bounds and leaves every other row unchanged |
| CurveFill.FillInter | fill_curve.cpp:173-180 | `fill_inter` fills each row by its own bounds; empty rows are untouched, so an all-empty table leaves the buffer unchanged; each row's bounds end sorted; the assertion fails exactly when it fails for some row |
| CurveFill.FillCurve | fill_curve.cpp:182-209 | an empty curve leaves the buffer, the table and the flag unchanged. Otherwise each pixel gets the even-odd rule's value for the bounds of the closed walk on its row; a caller's table is returned with h rows, each holding those bounds sorted; the assertion fails exactly when it fails on some row. A curve whose points all coincide leaves the buffer unchanged with no failure |
| Border.WritesInRange | main_extraction.cpp:31-39 | every offset `blank_border` writes lies inside the w*h buffer exactly when w >= 1 and h >= 1, or w = 0 and h <= 1 |
| Border.BlankBorder | main_extraction.cpp:30-39 | `blank_border` sets every pixel of the first and last rows and of the first and last columns to 0, and leaves every interior pixel unchanged |

## Left out

- Floating-point arithmetic: coordinates are exact rationals. The rounding of `float` in the slope
  and the interpolated x is not modelled. Nor is the `float` column counter `i` of `fill_line`
  losing precision on rows wider than 2^24.
- Integer widths: `(int)` of an out-of-range float, `int` against `size_t` comparisons, and the
  overflow of `i*w` are not modelled; integers are unbounded. For `blank_border` the `size_t`
  wrap-around of `i*w-1` (w = 0) and of `(h-1)*w` (h = 0) is stated as a negative offset in
  `Border.WritesInRange`.
- Memory management: `new`/`delete` of the temporary table in `fill_curve` is left out. An absent
  table is `None`.
- The sort algorithm: `std::sort` is replaced by an insertion sort with the same result.
- The template parameter `T` is a Dafny type parameter. `blank_border`'s `unsigned char` is a
  0..255 newtype.
- The single-vertex branch `p.dir==0` of `fill_curve` (fill_curve.cpp:190): `sign` never returns
  0, so this branch and its call to `fill_point` are never reached, although the code's own
  comment on that line calls it the single-vertex case; the model follows the code.
  `CurveFill.FillPoint` models `fill_point` on its own. An all-equal curve takes the general path and fills nothing
  (`CurveFill.FillCurve`).
- PolyIterator.AddPoint: the assertion at fill_curve.cpp:134 is neither checked nor reported; the walk
  records the bound and continues, as a build with assertions disabled does. Where it can fail
  (the overshoot of the Findings, with q.x != p.x) a build with assertions enabled aborts inside
  `add_point`, before any row is filled; `CurveFill.FillCurve`'s `violated` flag does not
  include it.
- RowFiller.FillLine: the assertion at line 164 does not abort; `violated` reports it and the row
  ends there.
- PolyIterator.EdgeBoundsBetween: this is weaker than the assertion at line 134, because it
  excludes the overshoot case, where the assertion as written can fail (see Findings).
- Border.BlankBorder: this requires the dimensions for which every write is in range. The
  out-of-range writes of the other dimensions are characterised by `Border.WritesInRange`
  rather than modelled as memory corruption.
- Whole-region properties are not proved: invariance of the filled set under reversing the
  curve's orientation, and the even number of bounds on every row of a closed curve. The
  even-odd rule is stated for even rows (`RowBounds.EvenRowParity`). For odd rows, `Painted`
  describes what the sweep does.
- The rest of `main_extraction.cpp` (argument parsing, smoothing, tree extraction, image I/O) and
  `io_tiff.h` are not part of this model.

## Findings

| source | as written | input that shows it | evidently intended | confidence | as-written member | corrected member |
|---|---|---|---|---|---|---|
| fill_curve.cpp:112-134 | the first row of a sloped edge is `(int)q.y`. For a negative, non-integer q.y this is the ceiling, a row of larger y than the start vertex. Upward means toward smaller y (line 44), so for an upward edge that row lies behind its start. The loop still visits that row. When q.x != p.x the x it interpolates there lies outside [min(q.x, p.x), max(q.x, p.x)], so the assertion of line 134 fails; a vertical edge (q.x == p.x) interpolates q.x itself and passes the assertion, but records the row just the same. When q.y lies in (-1, 0) the row is row 0, which then receives a bound from an edge that never reaches it, whether or not the edge is vertical. When q.y < -1 the row is negative and `bound` drops it (line 85), so only the assertion fails | walker at shifted (1.5, -0.5), not horizontal, direction -1; next vertex (5.0, -3.0), shifted to (4.5, -3.5). Row 0 receives x = 1.0 | taking rows by floor: every recorded bound lies on the edge, and this edge records nothing on row 0 | not executed | PolyIterator.TowardZeroOvershoot | PolyIterator.FlooredEdgeBoundsBetween |
