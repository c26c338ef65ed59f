/** The edge walker `PolyIterator` (fill_curve.cpp:40-137): a small state machine that walks the
    closed polyline edge by edge and records, for every row an edge crosses, the x of the crossing. */
module PolyIterator {
  import opened Geometry
  import opened InterTable

  /** Walker state: the current (shifted) vertex, whether the last edge was a horizontal edge lying
      on a grid row, and the direction: right(+1)/left(-1) after a horizontal edge, down(+1)/up(-1)
      otherwise. */
  datatype Walker = Walker(p: Point, horizontal: bool, dir: int)

  /** The invariant the walker keeps: a direction is never 0, and a horizontal run lies on a row. */
  predicate Valid(w: Walker)
  {
    (w.dir == 1 || w.dir == -1) && (w.horizontal ==> IsInteger(w.p.y))
  }

  /** Predicate shared by `curve[0]` and every later point: all vertices coincide. */
  predicate Constant(curve: seq<Point>)
  {
    forall j :: 0 <= j < |curve| ==> curve[j] == curve[0]
  }

  // ---------------------------------------------------------------------------------------------
  // Construction

  /** Backward scan from index i for a point different from `curve[0]`. */
  function LastFrom(curve: seq<Point>, i: nat): (r: nat)
    requires i < |curve|
    ensures r <= i
    ensures r == 0 || curve[r] != curve[0]
    ensures forall j :: r < j <= i ==> curve[j] == curve[0]
    decreases i
  {
    if i == 0 || curve[i] != curve[0] then i else LastFrom(curve, i - 1)
  }

  /** `last_point`: the greatest index whose point differs from `curve[0]`, or 0 when every point
      equals `curve[0]`. */
  function LastPoint(curve: seq<Point>): (r: nat)
    requires |curve| > 0
    ensures r < |curve|
    ensures r == 0 <==> Constant(curve)
    ensures r > 0 ==> curve[r] != curve[0]
    ensures forall j :: r < j < |curve| ==> curve[j] == curve[0]
  {
    LastFrom(curve, |curve| - 1)
  }

  /** The constructor: the state is that left by the closing edge, from the last vertex distinct
      from the first back to the first. */
  function NewWalker(curve: seq<Point>): (r: Walker)
    requires |curve| > 0
    ensures Valid(r)
    ensures r.p == Shift(curve[0])
    ensures var q := Shift(curve[LastPoint(curve)]);
      if q.y == r.p.y then r.horizontal == IsInteger(r.p.y) && (r.dir == 1 <==> q.x < r.p.x)
      else !r.horizontal && (r.dir == 1 <==> q.y < r.p.y)
    ensures Constant(curve) ==> r.dir == -1 && (r.horizontal <==> IsInteger(r.p.y))
  {
    var q := Shift(curve[LastPoint(curve)]);
    var p := Shift(curve[0]);
    if q.y == p.y then Walker(p, IsInteger(p.y), Sign(q.x, p.x))
    else Walker(p, false, Sign(q.y, p.y))
  }

  // ---------------------------------------------------------------------------------------------
  // One edge

  /** Row k is one of those the loop `for(j=from; j!=to; j+=dir)` passes through. */
  predicate Visits(dir: int, from: int, to: int, k: int)
  {
    if dir > 0 then from <= k < to else to < k <= from
  }

  /** Row k lies strictly before the far end y of the edge in the direction of travel. */
  predicate Reaches(dir: int, y: real, k: int)
  {
    if dir > 0 then (k as real) < y else y < k as real
  }

  /** x of the edge q-p on row k, by the slope `a = (q.x-p.x)/(q.y-p.y)`. */
  function Interpolate(q: Point, p: Point, k: int): real
    requires q.y != p.y
  {
    q.x + (q.x - p.x) / (q.y - p.y) * (k as real - q.y)
  }

  /** The interpolation loop (fill_curve.cpp:128-136) from row j to row `to`, exclusive. */
  function Crossings(inter: Table, q: Point, p: Point, dir: int, j: int, to: int): (r: Table)
    requires q.y != p.y
    requires dir == 1 || dir == -1
    requires if dir > 0 then j <= to else to <= j
    ensures |r| == |inter|
    ensures forall k :: 0 <= k < |inter| ==>
      r[k] == inter[k] + (if Visits(dir, j, to, k) && Reaches(dir, p.y, k) then [Interpolate(q, p, k)] else [])
    decreases if dir > 0 then to - j else j - to
  {
    if j == to then inter
    else
      var next := if Reaches(dir, p.y, j) then Bound(inter, Interpolate(q, p, j), j) else inter;
      Crossings(next, q, p, dir, j + dir, to)
  }

  /** The edge ends on the row of its start vertex, has length, and that row is a grid row. */
  predicate HorizontalEdge(w: Walker, pt: Point)
  {
    w.p.y == Shift(pt).y && w.p.x != Shift(pt).x && IsInteger(w.p.y)
  }

  /** A sloped edge reverses the previous direction at a vertex lying on a grid row. */
  predicate LocalPeak(w: Walker, pt: Point)
  {
    !w.horizontal && w.p.y != Shift(pt).y && Sign(w.p.y, Shift(pt).y) != w.dir && IsInteger(w.p.y)
  }

  /** Horizontal edge (fill_curve.cpp:96-108). */
  function HorizontalStep(cast: RowCast, w: Walker, p: Point, inter: Table): (Walker, Table)
    requires w.p.y == p.y
  {
    var q := w.p;
    if q.x != p.x && IsInteger(q.y) then
      var dir := Sign(q.x, p.x);
      var emit := if w.horizontal then w.dir != dir else w.dir == dir;
      (Walker(p, true, dir), if emit then Bound(inter, q.x, RowOf(cast, q.y)) else inter)
    else
      (w.(p := p), inter)
  }

  /** Bounds recorded at the start vertex when leaving a horizontal run or at a local peak
      (fill_curve.cpp:116-124). */
  function StartMarks(w: Walker, q: Point, dir: int, iy1: int, inter: Table): Table
  {
    if w.horizontal then (if w.dir != dir then Bound(inter, q.x, iy1) else inter)
    else if dir != w.dir && q.y == iy1 as real then Bound(Bound(inter, q.x, iy1), q.x, iy1)
    else inter
  }

  /** First row of the interpolation loop (fill_curve.cpp:116-126). */
  function FirstRow(w: Walker, q: Point, dir: int, iy1: int): int
  {
    if w.horizontal || (dir != w.dir && q.y == iy1 as real) || (dir > 0 && (iy1 as real) < q.y)
    then iy1 + dir
    else iy1
  }

  /** The bounds a sloped edge records (fill_curve.cpp:111-136): the marks at the start vertex,
      then the interpolation loop from the first row to the row past the far end. */
  function SlopedTable(cast: RowCast, w: Walker, p: Point, inter: Table): (t: Table)
    requires w.p.y != p.y
    ensures Extends(inter, t)
  {
    var q := w.p;
    var dir := Sign(q.y, p.y);
    var iy1 := RowOf(cast, q.y);
    var iy2 := RowOf(cast, p.y) + dir;
    var start := FirstRow(w, q, dir, iy1);
    assert if dir > 0 then start <= iy2 else iy2 <= start by {
      if dir > 0 { RowOfMonotone(cast, q.y, p.y); } else { RowOfMonotone(cast, p.y, q.y); }
    }
    var marked := StartMarks(w, q, dir, iy1, inter);
    assert Extends(inter, marked);
    Crossings(marked, q, p, dir, start, iy2)
  }

  /** Sloped edge (fill_curve.cpp:111-136). */
  function SlopedStep(cast: RowCast, w: Walker, p: Point, inter: Table): (r: (Walker, Table))
    requires w.p.y != p.y
    ensures r.0 == Walker(p, false, Sign(w.p.y, p.y))
    ensures Extends(inter, r.1)
    // unless the row cast overshoots, every bound lies on the edge, and rows outside its y-range
    // are left as they were
    ensures Valid(w) && !Overshoots(cast, w, p) ==> AppendsOnEdge(inter, r.1, w.p, p)
    ensures Valid(w) && !Overshoots(cast, w, p) ==>
      forall k :: 0 <= k < |inter| && !(Min(w.p.y, p.y) <= k as real <= Max(w.p.y, p.y)) ==> r.1[k] == inter[k]
    // leaving a horizontal run: its row gets the start x once if the direction code changes
    ensures Valid(w) && w.horizontal && 0 <= w.p.y.Floor < |inter| ==>
      r.1[w.p.y.Floor] == inter[w.p.y.Floor] + (if w.dir != r.0.dir then [w.p.x] else [])
    // passing a vertex on a grid row in the same vertical direction: its row gets the start x once
    ensures Valid(w) && !w.horizontal && IsInteger(w.p.y) && w.dir == r.0.dir && 0 <= w.p.y.Floor < |inter| ==>
      r.1[w.p.y.Floor] == inter[w.p.y.Floor] + [w.p.x]
    // the far end on a grid row gets nothing from this edge
    ensures Valid(w) && IsInteger(p.y) && 0 <= p.y.Floor < |inter| ==> r.1[p.y.Floor] == inter[p.y.Floor]
  {
    SlopedLeavesRun(cast, w, p, inter);
    SlopedPassesVertex(cast, w, p, inter);
    SlopedSkipsFarRow(cast, w, p, inter);
    SlopedOnEdge(cast, w, p, inter);
    (Walker(p, false, Sign(w.p.y, p.y)), SlopedTable(cast, w, p, inter))
  }

  /** Leaving a horizontal run, the run's row gets the start x once when the direction code
      changes and nothing otherwise: the loop starts one row past it (fill_curve.cpp:116-120). */
  lemma SlopedLeavesRun(cast: RowCast, w: Walker, p: Point, inter: Table)
    requires w.p.y != p.y
    ensures Valid(w) && w.horizontal && 0 <= w.p.y.Floor < |inter| ==>
      SlopedTable(cast, w, p, inter)[w.p.y.Floor] ==
        inter[w.p.y.Floor] + (if w.dir != Sign(w.p.y, p.y) then [w.p.x] else [])
  {
    if Valid(w) && w.horizontal && 0 <= w.p.y.Floor < |inter| {
      var q := w.p;
      var dir := Sign(q.y, p.y);
      var iy1 := RowOf(cast, q.y);
      var iy2 := RowOf(cast, p.y) + dir;
      var start := FirstRow(w, q, dir, iy1);
      var marked := StartMarks(w, q, dir, iy1, inter);
      assert if dir > 0 then start <= iy2 else iy2 <= start by {
        if dir > 0 { RowOfMonotone(cast, q.y, p.y); } else { RowOfMonotone(cast, p.y, q.y); }
      }
      assert SlopedTable(cast, w, p, inter) == Crossings(marked, q, p, dir, start, iy2);
      assert iy1 == q.y.Floor;
      assert !Visits(dir, start, iy2, iy1);
    }
  }

  /** On the row of the start vertex, the interpolation gives the start vertex's x. */
  lemma InterpolateAtStart(q: Point, p: Point, k: int)
    requires q.y != p.y && k as real == q.y
    ensures Interpolate(q, p, k) == q.x
  {
    var slope := (q.x - p.x) / (q.y - p.y);
    assert slope * (k as real - q.y) == slope * 0.0 == 0.0;
  }

  /** A vertex on a grid row passed in the same vertical direction puts its x on that row once:
      the loop starts on that row, where the interpolation gives the vertex itself
      (fill_curve.cpp:125-135). */
  lemma SlopedPassesVertex(cast: RowCast, w: Walker, p: Point, inter: Table)
    requires w.p.y != p.y
    ensures (Valid(w) && !w.horizontal && IsInteger(w.p.y) && w.dir == Sign(w.p.y, p.y) &&
             0 <= w.p.y.Floor < |inter|) ==>
      SlopedTable(cast, w, p, inter)[w.p.y.Floor] == inter[w.p.y.Floor] + [w.p.x]
  {
    if Valid(w) && !w.horizontal && IsInteger(w.p.y) && w.dir == Sign(w.p.y, p.y) && 0 <= w.p.y.Floor < |inter| {
      var q := w.p;
      var dir := Sign(q.y, p.y);
      var iy1 := RowOf(cast, q.y);
      var iy2 := RowOf(cast, p.y) + dir;
      var start := FirstRow(w, q, dir, iy1);
      var marked := StartMarks(w, q, dir, iy1, inter);
      assert if dir > 0 then start <= iy2 else iy2 <= start by {
        if dir > 0 { RowOfMonotone(cast, q.y, p.y); } else { RowOfMonotone(cast, p.y, q.y); }
      }
      assert SlopedTable(cast, w, p, inter) == Crossings(marked, q, p, dir, start, iy2);
      assert iy1 == q.y.Floor && iy1 as real == q.y;
      InterpolateAtStart(q, p, iy1);
      assert marked == inter && start == iy1;
      assert Visits(dir, start, iy2, iy1) && Reaches(dir, p.y, iy1);
    }
  }

  /** The far end of a sloped edge on a grid row gets nothing from the edge: the loop skips the
      row of p.y (fill_curve.cpp:129-132). */
  lemma SlopedSkipsFarRow(cast: RowCast, w: Walker, p: Point, inter: Table)
    requires w.p.y != p.y
    ensures Valid(w) && IsInteger(p.y) && 0 <= p.y.Floor < |inter| ==>
      SlopedTable(cast, w, p, inter)[p.y.Floor] == inter[p.y.Floor]
  {
    if Valid(w) && IsInteger(p.y) && 0 <= p.y.Floor < |inter| {
      var q := w.p;
      var dir := Sign(q.y, p.y);
      var iy1 := RowOf(cast, q.y);
      var iy2 := RowOf(cast, p.y) + dir;
      var start := FirstRow(w, q, dir, iy1);
      var marked := StartMarks(w, q, dir, iy1, inter);
      assert if dir > 0 then start <= iy2 else iy2 <= start by {
        if dir > 0 { RowOfMonotone(cast, q.y, p.y); } else { RowOfMonotone(cast, p.y, q.y); }
      }
      assert SlopedTable(cast, w, p, inter) == Crossings(marked, q, p, dir, start, iy2);
      assert !Reaches(dir, p.y, p.y.Floor);
      assert marked[p.y.Floor] == inter[p.y.Floor];
    }
  }

  /** Unless the row cast overshoots, every bound of a sloped edge lies on the edge, so rows
      outside the edge's y-range get nothing. */
  lemma SlopedOnEdge(cast: RowCast, w: Walker, p: Point, inter: Table)
    requires w.p.y != p.y
    ensures Valid(w) && !Overshoots(cast, w, p) ==> AppendsOnEdge(inter, SlopedTable(cast, w, p, inter), w.p, p)
    ensures Valid(w) && !Overshoots(cast, w, p) ==>
      forall k :: 0 <= k < |inter| && !(Min(w.p.y, p.y) <= k as real <= Max(w.p.y, p.y)) ==>
        SlopedTable(cast, w, p, inter)[k] == inter[k]
  {
    if Valid(w) && !Overshoots(cast, w, p) {
      var q := w.p;
      var dir := Sign(q.y, p.y);
      var iy1 := RowOf(cast, q.y);
      var iy2 := RowOf(cast, p.y) + dir;
      var start := FirstRow(w, q, dir, iy1);
      var marked := StartMarks(w, q, dir, iy1, inter);
      assert if dir > 0 then start <= iy2 else iy2 <= start by {
        if dir > 0 { RowOfMonotone(cast, q.y, p.y); } else { RowOfMonotone(cast, p.y, q.y); }
      }
      assert SlopedTable(cast, w, p, inter) == Crossings(marked, q, p, dir, start, iy2);
      var crossed := Crossings(marked, q, p, dir, start, iy2);
      StartMarksOnEdge(w, q, p, dir, iy1, inter);
      CrossingsOnEdge(marked, q, p, dir, start, iy2);
      AppendsOnEdgeTrans(inter, marked, crossed, q, p);
      OffEdgeUnchanged(inter, crossed, q, p);
    }
  }

  /** `add_point`: process the edge from the current vertex to `pt`. */
  function AddPoint(cast: RowCast, w: Walker, pt: Point, inter: Table): (r: (Walker, Table))
    ensures Extends(inter, r.1)
    ensures r.0.p == Shift(pt)
    ensures Valid(w) ==> Valid(r.0)
    // a horizontal edge on a grid row starts or continues a run in its x direction; it records
    // its start x on its row on entering a run in the previous direction code and at a half-turn
    ensures HorizontalEdge(w, pt) ==> r.0.horizontal && (r.0.dir == 1 <==> w.p.x < Shift(pt).x)
    ensures HorizontalEdge(w, pt) ==>
      r.1 == (if (if w.horizontal then w.dir != r.0.dir else w.dir == r.0.dir)
              then Bound(inter, w.p.x, w.p.y.Floor) else inter)
    // a zero-length or off-grid horizontal edge only moves the current vertex
    ensures w.p.y == Shift(pt).y && !HorizontalEdge(w, pt) ==> r.0 == w.(p := Shift(pt)) && r.1 == inter
    // a sloped edge sets the vertical direction and ends any horizontal run
    ensures w.p.y != Shift(pt).y ==> !r.0.horizontal && (r.0.dir == 1 <==> w.p.y < Shift(pt).y)
    // leaving a horizontal run: its row gets the start x once if the direction code changes
    ensures Valid(w) && w.horizontal && w.p.y != Shift(pt).y && 0 <= w.p.y.Floor < |inter| ==>
      r.1[w.p.y.Floor] == inter[w.p.y.Floor] + (if w.dir != r.0.dir then [w.p.x] else [])
    // passing a vertex on a grid row in the same vertical direction: its row gets the start x once
    ensures (Valid(w) && !w.horizontal && IsInteger(w.p.y) && w.p.y != Shift(pt).y && w.dir == r.0.dir &&
             0 <= w.p.y.Floor < |inter|) ==> r.1[w.p.y.Floor] == inter[w.p.y.Floor] + [w.p.x]
    // the far end of a sloped edge on a grid row gets nothing from this edge
    ensures Valid(w) && w.p.y != Shift(pt).y && IsInteger(Shift(pt).y) && 0 <= Shift(pt).y.Floor < |inter| ==>
      r.1[Shift(pt).y.Floor] == inter[Shift(pt).y.Floor]
    // a local peak records its x twice on its own row
    ensures LocalPeak(w, pt) && 0 <= w.p.y.Floor < |inter| ==>
      r.1[w.p.y.Floor] == inter[w.p.y.Floor] + [w.p.x, w.p.x]
  {
    var p := Shift(pt);
    if w.p.y == p.y then HorizontalStep(cast, w, p, inter) else SlopedStep(cast, w, p, inter)
  }

  // ---------------------------------------------------------------------------------------------
  // The whole curve

  /** `add_point` for each of `pts` in order. */
  function Walk(cast: RowCast, w: Walker, pts: seq<Point>, inter: Table): (r: (Walker, Table))
    ensures Extends(inter, r.1)
    ensures Valid(w) ==> Valid(r.0)
    ensures r.0.p == if pts == [] then w.p else Shift(pts[|pts| - 1])
    decreases |pts|
  {
    if pts == [] then (w, inter)
    else
      var s := AddPoint(cast, w, pts[0], inter);
      Walk(cast, s.0, pts[1..], s.1)
  }

  /** The edge walk of `fill_curve` (fill_curve.cpp:189, 195-204): construct the walker, start from
      an all-empty table of h rows, add every vertex after the first, then close the polygon. */
  function WalkCurve(cast: RowCast, curve: seq<Point>, h: nat): (r: (Walker, Table))
    requires |curve| > 0
    ensures |r.1| == h
    ensures Valid(r.0)
    ensures r.0.p == Shift(curve[0])
  {
    Walk(cast, NewWalker(curve), curve[1..] + [curve[0]], InitInter([], h))
  }

  // ---------------------------------------------------------------------------------------------
  // Properties

  /** Walking vertices equal to the current one changes nothing. */
  lemma {:induction false} WalkInPlace(cast: RowCast, w: Walker, pts: seq<Point>, inter: Table)
    requires forall j :: 0 <= j < |pts| ==> Shift(pts[j]) == w.p
    ensures Walk(cast, w, pts, inter) == (w, inter)
    decreases |pts|
  {
    if pts != [] {
      assert Shift(pts[0]) == w.p;
      assert AddPoint(cast, w, pts[0], inter) == (w, inter);
      WalkInPlace(cast, w, pts[1..], inter);
    }
  }

  /** A curve whose points all coincide records no bound on any row. */
  lemma ConstantCurveRecordsNothing(cast: RowCast, curve: seq<Point>, h: nat)
    requires |curve| > 0 && Constant(curve)
    ensures forall k :: 0 <= k < h ==> WalkCurve(cast, curve, h).1[k] == []
  {
    var pts := curve[1..] + [curve[0]];
    var w := NewWalker(curve);
    forall j | 0 <= j < |pts| ensures Shift(pts[j]) == w.p {
      if j < |pts| - 1 { assert pts[j] == curve[j + 1]; }
    }
    WalkInPlace(cast, w, pts, InitInter([], h));
  }

  /** An upward edge (toward smaller y) to the shifted vertex p starts at a negative, non-integer
      y: truncation toward zero then takes the row of larger y, which lies behind the start of the
      edge, as the first row of its loop. */
  predicate Overshoots(cast: RowCast, w: Walker, p: Point)
  {
    cast == TowardZero && !w.horizontal && p.y < w.p.y && w.p.y < 0.0 && !IsInteger(w.p.y)
  }

  /** x lies on row k of the segment q-p: k within its y-range and x within its x-range. */
  predicate OnEdge(q: Point, p: Point, k: int, x: real)
  {
    Min(q.y, p.y) <= k as real <= Max(q.y, p.y) && Min(q.x, p.x) <= x <= Max(q.x, p.x)
  }

  /** Every bound appended between `before` and `after` lies on the segment q-p. */
  predicate AppendsOnEdge(before: Table, after: Table, q: Point, p: Point)
    requires Extends(before, after)
  {
    forall k, m :: 0 <= k < |before| && |before[k]| <= m < |after[k]| ==> OnEdge(q, p, k, after[k][m])
  }

  lemma MulNonneg(x: real, y: real)
    requires 0.0 <= x && 0.0 <= y
    ensures 0.0 <= x * y
  {
  }

  lemma MulPos(x: real, y: real)
    requires 0.0 < x && 0.0 < y
    ensures 0.0 < x * y
  {
  }

  lemma MulGt(x: real, y: real)
    requires 1.0 < x && 0.0 < y
    ensures y < x * y
  {
    MulPos(x - 1.0, y);
  }

  /** s/d is a fraction in [0, 1] when 0 <= s <= d. */
  lemma UnitRatio(s: real, d: real)
    requires 0.0 < d && 0.0 <= s <= d
    ensures 0.0 <= s / d <= 1.0
  {
    var t := s / d;
    assert t * d == s;
    if t < 0.0 {
      MulPos(-t, d);
    } else if t > 1.0 {
      MulGt(t, d);
    }
  }

  lemma DivNeg(u: real, d: real)
    requires d != 0.0
    ensures (-u) / (-d) == u / d
  {
  }

  lemma DivSwap(u: real, d: real, s: real)
    requires d != 0.0
    ensures (u / d) * s == u * (s / d)
  {
  }

  /** A point a fraction t of the way from a to b lies between them. */
  lemma Convex(a: real, b: real, t: real)
    requires 0.0 <= t <= 1.0
    ensures Min(a, b) <= a + (b - a) * t <= Max(a, b)
  {
    assert (b - a) * t + (b - a) * (1.0 - t) == b - a;
    if a <= b {
      MulNonneg(b - a, t);
      MulNonneg(b - a, 1.0 - t);
    } else {
      MulNonneg(a - b, t);
      MulNonneg(a - b, 1.0 - t);
    }
  }

  /** `a*(y-q.y)` moves from q.x toward p.x by the fraction of the way y lies from q.y to p.y. */
  lemma InterpolationBetween(q: Point, p: Point, k: int)
    requires q.y != p.y
    requires Min(q.y, p.y) <= k as real <= Max(q.y, p.y)
    ensures OnEdge(q, p, k, Interpolate(q, p, k))
  {
    var d := p.y - q.y;
    var s := k as real - q.y;
    var t := s / d;
    if d > 0.0 {
      UnitRatio(s, d);
    } else {
      DivNeg(s, d);
      UnitRatio(-s, -d);
    }
    DivNeg(p.x - q.x, d);
    assert q.x - p.x == -(p.x - q.x) && q.y - p.y == -d;
    DivSwap(p.x - q.x, d, s);
    Convex(q.x, p.x, t);
  }

  /** The interpolation loop records only points of the segment when it starts at or past q.y. */
  lemma CrossingsOnEdge(inter: Table, q: Point, p: Point, dir: int, j: int, to: int)
    requires q.y != p.y
    requires dir == Sign(q.y, p.y)
    requires if dir > 0 then j <= to else to <= j
    requires if dir > 0 then q.y <= j as real else j as real <= q.y
    ensures Extends(inter, Crossings(inter, q, p, dir, j, to))
    ensures AppendsOnEdge(inter, Crossings(inter, q, p, dir, j, to), q, p)
  {
    var r := Crossings(inter, q, p, dir, j, to);
    forall k, m | 0 <= k < |inter| && |inter[k]| <= m < |r[k]| ensures OnEdge(q, p, k, r[k][m]) {
      assert Visits(dir, j, to, k) && Reaches(dir, p.y, k);
      InterpolationBetween(q, p, k);
    }
  }

  /** The start marks are the start vertex itself, on its own row, when that row is a grid row. */
  lemma StartMarksOnEdge(w: Walker, q: Point, p: Point, dir: int, iy1: int, inter: Table)
    requires q == w.p && q.y != p.y
    requires w.horizontal ==> IsInteger(q.y)
    requires IsInteger(q.y) ==> iy1 as real == q.y
    ensures Extends(inter, StartMarks(w, q, dir, iy1, inter))
    ensures AppendsOnEdge(inter, StartMarks(w, q, dir, iy1, inter), q, p)
    ensures forall k, m :: 0 <= k < |inter| && |inter[k]| <= m < |StartMarks(w, q, dir, iy1, inter)[k]| ==>
      k == iy1 && StartMarks(w, q, dir, iy1, inter)[k][m] == q.x
  {
  }

  /** Rows outside the segment's y-range receive nothing when every appended bound lies on it. */
  lemma OffEdgeUnchanged(a: Table, b: Table, q: Point, p: Point)
    requires Extends(a, b) && AppendsOnEdge(a, b, q, p)
    ensures forall k :: 0 <= k < |a| && !(Min(q.y, p.y) <= k as real <= Max(q.y, p.y)) ==> b[k] == a[k]
  {
    forall k | 0 <= k < |a| && !(Min(q.y, p.y) <= k as real <= Max(q.y, p.y)) ensures b[k] == a[k] {
      assert |a[k]| < |b[k]| ==> OnEdge(q, p, k, b[k][|a[k]|]);
    }
  }

  /** Appending in two stages keeps every appended bound on the segment. */
  lemma AppendsOnEdgeTrans(a: Table, b: Table, c: Table, q: Point, p: Point)
    requires Extends(a, b) && Extends(b, c)
    requires AppendsOnEdge(a, b, q, p) && AppendsOnEdge(b, c, q, p)
    ensures Extends(a, c) && AppendsOnEdge(a, c, q, p)
  {
    forall k, m | 0 <= k < |a| && |a[k]| <= m < |c[k]| ensures OnEdge(q, p, k, c[k][m]) {
      if m < |b[k]| {
        assert c[k][m] == b[k][m];
      }
    }
  }

  /** The assertion of fill_curve.cpp:134, strengthened: every bound a sloped edge records lies on
      a row within the edge's y-range and at an x between its end points, unless the row cast
      overshoots. */
  lemma EdgeBoundsBetween(cast: RowCast, w: Walker, pt: Point, inter: Table)
    requires Valid(w)
    requires w.p.y != Shift(pt).y
    requires !Overshoots(cast, w, Shift(pt))
    ensures AppendsOnEdge(inter, AddPoint(cast, w, pt, inter).1, w.p, Shift(pt))
  {
    assert AddPoint(cast, w, pt, inter) == SlopedStep(cast, w, Shift(pt), inter);
  }

  /** A sloped edge records its crossing on every row strictly inside its y-range: exactly one x,
      the interpolated one, appended to that row. This holds under either row cast. */
  lemma SlopedCrossesEveryRow(cast: RowCast, w: Walker, pt: Point, inter: Table, k: int)
    requires Valid(w)
    requires w.p.y != Shift(pt).y
    requires 0 <= k < |inter|
    requires Min(w.p.y, Shift(pt).y) < k as real < Max(w.p.y, Shift(pt).y)
    ensures AddPoint(cast, w, pt, inter).1[k] == inter[k] + [Interpolate(w.p, Shift(pt), k)]
  {
    var q := w.p;
    var p := Shift(pt);
    var dir := Sign(q.y, p.y);
    var iy1 := RowOf(cast, q.y);
    var iy2 := RowOf(cast, p.y) + dir;
    var start := FirstRow(w, q, dir, iy1);
    var marked := StartMarks(w, q, dir, iy1, inter);
    assert if dir > 0 then start <= iy2 else iy2 <= start by {
      if dir > 0 { RowOfMonotone(cast, q.y, p.y); } else { RowOfMonotone(cast, p.y, q.y); }
    }
    assert AddPoint(cast, w, pt, inter).1 == Crossings(marked, q, p, dir, start, iy2);
    assert marked[k] == inter[k];
    assert Visits(dir, start, iy2, k) && Reaches(dir, p.y, k);
  }

  /** The corrected walker: with rows taken by floor, every bound of a sloped edge lies on the edge. */
  lemma FlooredEdgeBoundsBetween(w: Walker, pt: Point, inter: Table)
    requires Valid(w)
    requires w.p.y != Shift(pt).y
    ensures AppendsOnEdge(inter, AddPoint(Downward, w, pt, inter).1, w.p, Shift(pt))
  {
    EdgeBoundsBetween(Downward, w, pt, inter);
  }

  /** The code as written: the upward edge from shifted (1.5,-0.5) to (4.5,-3.5) spans no part of
      row 0, yet records x = 1.0 on row 0, left of both end points; the floored walker records
      nothing. */
  lemma TowardZeroOvershoot()
    ensures AddPoint(TowardZero, Walker(Point(1.5, -0.5), false, -1), Point(5.0, -3.0), [[]]).1 == [[1.0]]
    ensures AddPoint(Downward, Walker(Point(1.5, -0.5), false, -1), Point(5.0, -3.0), [[]]).1 == [[]]
  {
    var w := Walker(Point(1.5, -0.5), false, -1);
    var q := Point(1.5, -0.5);
    var p := Point(4.5, -3.5);
    assert Shift(Point(5.0, -3.0)) == p;
    assert Sign(q.y, p.y) == -1;
    assert RowOf(TowardZero, -0.5) == 0 && RowOf(TowardZero, -3.5) == -3;
    assert FirstRow(w, q, -1, 0) == 0 && StartMarks(w, q, -1, 0, [[]]) == [[]];
    assert Interpolate(q, p, 0) == 1.0;
    var c := Crossings([[]], q, p, -1, 0, -4);
    assert Visits(-1, 0, -4, 0) && Reaches(-1, p.y, 0);
    assert c[0] == [] + [1.0];
    assert c == [c[0]];
    assert c[0] == [1.0];
    assert c == [[1.0]];
    assert AddPoint(TowardZero, w, Point(5.0, -3.0), [[]]) == SlopedStep(TowardZero, w, p, [[]]);
    assert SlopedStep(TowardZero, w, p, [[]]).1 == c;
    assert RowOf(Downward, -0.5) == -1 && RowOf(Downward, -3.5) == -4;
    assert FirstRow(w, q, -1, -1) == -1 && StartMarks(w, q, -1, -1, [[]]) == [[]];
    var d := Crossings([[]], q, p, -1, -1, -5);
    assert !Visits(-1, -1, -5, 0);
    assert d[0] == [];
    assert d == [d[0]];
    assert SlopedStep(Downward, w, p, [[]]).1 == d;
  }
}
