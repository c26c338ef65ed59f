/** The entry point `fill_curve` and its helpers `fill_inter` and `fill_point`
    (fill_curve.cpp:139-209). */
module CurveFill {
  import opened Geometry
  import opened InterTable
  import opened PolyIterator
  import opened RowBounds
  import opened RowFiller
  import opened Raster

  /** The optional caller-owned interval table. */
  datatype Option<T> = None | Some(value: T)

  /** `fill_point`: a single vertex fills the pixel it lands on when both shifted coordinates are
      integers, and nothing otherwise. The offset is not checked against the buffer by the code;
      the caller must make it valid. */
  function FillPoint<T>(pt: Point, value: T, buf: seq<T>, w: nat): (r: seq<T>)
    requires IsInteger(Shift(pt).x) && IsInteger(Shift(pt).y) ==>
      0 <= Shift(pt).y.Floor * w + Shift(pt).x.Floor < |buf|
    ensures |r| == |buf|
    ensures IsInteger(Shift(pt).x) && IsInteger(Shift(pt).y) ==>
      r[Shift(pt).y.Floor * w + Shift(pt).x.Floor] == value &&
      forall i :: 0 <= i < |buf| && i != Shift(pt).y.Floor * w + Shift(pt).x.Floor ==> r[i] == buf[i]
    ensures !(IsInteger(Shift(pt).x) && IsInteger(Shift(pt).y)) ==> r == buf
  {
    var p := Shift(pt);
    if IsInteger(p.x) && IsInteger(p.y) then buf[Trunc(p.y) * w + Trunc(p.x) := value] else buf
  }

  /** The single-vertex examples: (5.5, 3.5) lands on pixel (5, 3); (5.3, 3.5) lands on none. */
  lemma FillPointExamples(buf: seq<int>)
    requires |buf| == 64
    ensures FillPoint(Point(5.5, 3.5), 1, buf, 8) == buf[29 := 1]
    ensures FillPoint(Point(5.3, 3.5), 1, buf, 8) == buf
  {
    assert Shift(Point(5.5, 3.5)) == Point(5.0, 3.0);
    assert Trunc(5.0) == 5 && Trunc(3.0) == 3;
    assert !IsInteger(5.3 - 0.5) by {
      assert (5.3 - 0.5).Floor == 4;
    }
  }

  /** Row r of `out` is row r of `buf` filled by `bounds`. */
  ghost predicate RowFilled<T>(value: T, out: seq<T>, buf: seq<T>, w: nat, h: nat, bounds: seq<real>, r: nat)
    requires |out| == w * h && |buf| == w * h && r < h
  {
    forall c :: 0 <= c < w ==> Pixel(out, w, h, r, c) == LinePixel(value, Pixel(buf, w, h, r, c), bounds, c)
  }

  /** Row r is the same in both buffers. */
  ghost predicate SameRow<T>(a: seq<T>, b: seq<T>, w: nat, h: nat, r: nat)
    requires |a| == w * h && |b| == w * h && r < h
  {
    forall c :: 0 <= c < w ==> Pixel(a, w, h, r, c) == Pixel(b, w, h, r, c)
  }

  /** One iteration of `fill_inter`: `fill_line` on row i of the buffer. */
  method FillRow<T>(value: T, cur: seq<T>, w: nat, h: nat, i: nat, bounds: seq<real>)
    returns (out: seq<T>, rowSorted: seq<real>, bad: bool)
    requires |cur| == w * h && i < h
    ensures |out| == w * h
    ensures RowFilled(value, out, cur, w, h, bounds, i)
    ensures forall r :: 0 <= r < h && r != i ==> SameRow(out, cur, w, h, r)
    ensures rowSorted == Sort(bounds)
    ensures bad <==> AssertFails(bounds, w)
  {
    var line;
    line, rowSorted, bad := FillLine(value, RowSlice(cur, w, h, i), bounds);
    out := SpliceRow(cur, w, h, i, line);
  }

  /** `fill_inter`: fill every row whose bound list is non-empty. Also returns the table as the
      in-place sorts leave it, and whether any row's sweep assertion fails. */
  method FillInter<T>(value: T, buf: seq<T>, w: nat, h: nat, inter: Table)
    returns (out: seq<T>, sorted: Table, violated: bool)
    requires |buf| == w * h
    requires |inter| == h
    ensures |out| == |buf| && |sorted| == h
    ensures forall r :: 0 <= r < h ==> RowFilled(value, out, buf, w, h, inter[r], r)
    ensures (forall r :: 0 <= r < h ==> inter[r] == []) ==> out == buf
    ensures forall r :: 0 <= r < h ==> sorted[r] == Sort(inter[r])
    ensures violated <==> exists r :: 0 <= r < h && AssertFails(inter[r], w)
  {
    out := buf;
    sorted := inter;
    violated := false;
    var i := 0;
    while i < h
      invariant 0 <= i <= h
      invariant |out| == w * h && |sorted| == h
      invariant forall r :: 0 <= r < i ==> RowFilled(value, out, buf, w, h, inter[r], r)
      invariant forall r :: i <= r < h ==> SameRow(out, buf, w, h, r)
      invariant (forall r :: 0 <= r < h ==> inter[r] == []) ==> out == buf
      invariant forall r :: 0 <= r < i ==> sorted[r] == Sort(inter[r])
      invariant forall r :: i <= r < h ==> sorted[r] == inter[r]
      invariant violated <==> exists r :: 0 <= r < i && AssertFails(inter[r], w)
    {
      if inter[i] != [] {
        var next, rowSorted, bad := FillRow(value, out, w, h, i, inter[i]);
        forall r | 0 <= r < h && r != i
          ensures r < i ==> RowFilled(value, next, buf, w, h, inter[r], r)
          ensures r > i ==> SameRow(next, buf, w, h, r)
        {
          assert SameRow(next, out, w, h, r);
          if r < i {
            assert RowFilled(value, out, buf, w, h, inter[r], r);
          } else {
            assert SameRow(out, buf, w, h, r);
          }
        }
        assert RowFilled(value, next, buf, w, h, inter[i], i) by {
          assert SameRow(out, buf, w, h, i);
        }
        out := next;
        sorted := sorted[i := rowSorted];
        violated := violated || bad;
      } else {
        assert Sort(inter[i]) == [];
        assert RowFilled(value, out, buf, w, h, inter[i], i) by {
          assert SameRow(out, buf, w, h, i);
          forall c | 0 <= c < w ensures !Painted(inter[i], c) { }
        }
      }
      i := i + 1;
    }
  }

  /** `fill_curve`: fill the interior of the closed curve into the w x h buffer. The caller's table,
      when given, is cleared and reused and is left holding the sorted bounds of this curve; the
      model returns it. The branch `p.dir==0` that would call `fill_point` is never taken, since
      the walker's direction is never 0 (`PolyIterator.NewWalker` ensures `Valid`). */
  method FillCurve<T>(cast: RowCast, curve: seq<Point>, value: T, buf: seq<T>, w: nat, h: nat, inter: Option<Table>)
    returns (out: seq<T>, interOut: Option<Table>, violated: bool)
    requires |buf| == w * h
    ensures |out| == |buf|
    ensures curve == [] ==> out == buf && interOut == inter && !violated
    ensures curve != [] ==> (interOut.Some? <==> inter.Some?)
    ensures curve != [] ==>
      var table := WalkCurve(cast, curve, h).1;
      (forall r, c :: 0 <= r < h && 0 <= c < w ==>
        Pixel(out, w, h, r, c) == LinePixel(value, Pixel(buf, w, h, r, c), table[r], c)) &&
      (interOut.Some? ==> |interOut.value| == h && forall r :: 0 <= r < h ==> interOut.value[r] == Sort(table[r])) &&
      (violated <==> exists r :: 0 <= r < h && AssertFails(table[r], w))
    ensures curve != [] && Constant(curve) ==> out == buf && !violated
  {
    if curve == [] {
      return buf, inter, false;
    }
    var walker := NewWalker(curve);
    var table := match inter case Some(t) => InitInter(t, h) case None => InitInter([], h);
    assert table == InitInter([], h);
    var walked := Walk(cast, walker, curve[1..] + [curve[0]], table);
    assert walked == WalkCurve(cast, curve, h);
    var sorted;
    out, sorted, violated := FillInter(value, buf, w, h, walked.1);
    interOut := if inter.Some? then Some(sorted) else None;
    forall r, c | 0 <= r < h && 0 <= c < w
      ensures Pixel(out, w, h, r, c) == LinePixel(value, Pixel(buf, w, h, r, c), walked.1[r], c)
    {
      assert RowFilled(value, out, buf, w, h, walked.1[r], r);
    }
    if Constant(curve) {
      ConstantCurveRecordsNothing(cast, curve, h);
      assert !exists r :: 0 <= r < h && AssertFails(walked.1[r], w) by {
        forall r | 0 <= r < h ensures !AssertFails(walked.1[r], w) {
          assert walked.1[r] == [];
        }
      }
    }
  }
}
