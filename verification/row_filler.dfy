/** The row filler `fill_line` (fill_curve.cpp:147-171): sort one row's bounds and sweep the row
    left to right, toggling inside/outside at every bound. */
module RowFiller {
  import opened Geometry
  import opened RowBounds

  /** The row with columns [0, m) filled with `value`: `std::fill(im, im+m, value)`. */
  method FillSpan<T>(value: T, row: seq<T>, m: nat) returns (out: seq<T>)
    requires m <= |row|
    ensures |out| == |row|
    ensures forall i :: 0 <= i < m ==> out[i] == value
    ensures forall i :: m <= i < |row| ==> out[i] == row[i]
  {
    out := row;
    var c := 0;
    while c < m
      invariant 0 <= c <= m
      invariant |out| == |row|
      invariant forall i :: 0 <= i < c ==> out[i] == value
      invariant forall i :: c <= i < |row| ==> out[i] == row[i]
    {
      out := out[c := value];
      c := c + 1;
    }
  }

  /** The first loop of `fill_line`: skip the bounds left of the row, toggling the state. */
  method SkipLeft(b: seq<real>) returns (k: nat, inside: bool)
    requires Sorted(b)
    ensures k <= |b|
    ensures inside <==> k % 2 == 1
    ensures forall j :: 0 <= j < k ==> b[j] < 0.0
    ensures k < |b| ==> 0.0 <= b[k]
  {
    inside := false;
    k := 0;
    while k < |b| && b[k] < 0.0
      invariant 0 <= k <= |b|
      invariant inside <==> k % 2 == 1
      invariant forall j :: 0 <= j < k ==> b[j] < 0.0
    {
      inside := !inside;
      k := k + 1;
    }
  }

  /** When every bound lies left of column lo, no column from lo on is painted. */
  lemma NothingPaintedFrom(b: seq<real>, lo: int, i: int)
    requires forall j :: 0 <= j < |b| ==> b[j] < lo as real
    requires lo <= i
    ensures !Painted(b, i)
  {
    forall x | x in b ensures x < i as real {
      var j :| 0 <= j < |b| && b[j] == x;
    }
  }

  /** The main loop of `fill_line` over columns s, s+1, ... of a sorted row (lines 158-170). */
  method Sweep<T>(value: T, row: seq<T>, prefilled: seq<T>, b: seq<real>, k0: nat, inside0: bool, s: int)
    returns (out: seq<T>, violated: bool)
    requires Sorted(b) && k0 < |b|
    requires 0 <= s && s as real <= b[k0]
    requires forall j :: 0 <= j < k0 ==> b[j] < s as real
    requires inside0 <==> k0 % 2 == 1
    requires |prefilled| == |row|
    requires forall c :: 0 <= c < |row| && c < s ==> prefilled[c] == LinePixel(value, row[c], b, c)
    requires forall c :: s <= c < |row| ==> prefilled[c] == row[c]
    ensures |out| == |row|
    ensures forall c :: 0 <= c < |row| ==> out[c] == LinePixel(value, row[c], b, c)
    ensures violated <==> AssertFails(b, |row|)
  {
    var w := |row|;
    out := prefilled;
    violated := false;
    var k := k0;
    var inside := inside0;
    var i := s;
    while i < w
      invariant s <= i
      invariant 0 <= k < |b|
      invariant inside <==> k % 2 == 1
      invariant forall j :: 0 <= j < k ==> b[j] < i as real
      invariant (i - 1) as real <= b[k]
      invariant |out| == w
      invariant forall c :: 0 <= c < w && c < i ==> out[c] == LinePixel(value, row[c], b, c)
      invariant forall c :: i <= c < w ==> out[c] == row[c]
    {
      while b[k] < i as real
        invariant 0 <= k < |b|
        invariant inside <==> k % 2 == 1
        invariant forall j :: 0 <= j < k ==> b[j] < i as real
        decreases |b| - k
      {
        inside := !inside;
        k := k + 1;
        if k == |b| {
          // every bound lies left of column i: no column from i on is painted
          forall c | i <= c < w ensures !Painted(b, c) {
            NothingPaintedFrom(b, i, c);
          }
          forall x | x in b ensures x < (w - 1) as real {
            var j :| 0 <= j < |b| && b[j] == x;
          }
          assert b[k0] in b;
          violated := inside;
          return;
        }
      }
      PaintedAt(b, k, i);
      if inside || b[k] == i as real {
        out := out[i := value];
      }
      i := i + 1;
    }
    assert b[k] in b && !(b[k] < (w - 1) as real);
  }

  /** `fill_line` on a row of width |row|. Besides the new row it returns the row's bounds as the
      in-place sort leaves them, and whether the assertion `!bIn` of line 164 fails (a build with
      assertions disabled returns right there; the model does the same). */
  method FillLine<T>(value: T, row: seq<T>, bounds: seq<real>)
    returns (out: seq<T>, sorted: seq<real>, violated: bool)
    ensures sorted == Sort(bounds)
    ensures |out| == |row|
    ensures forall i :: 0 <= i < |row| ==> out[i] == LinePixel(value, row[i], bounds, i)
    ensures forall i :: 0 <= i < |row| ==> out[i] == value || out[i] == row[i]
    ensures (forall b :: b in bounds ==> b < 0.0) ==> out == row
    ensures violated <==> AssertFails(bounds, |row|)
  {
    sorted := Sort(bounds);
    SortKeepsPainting(bounds);
    var w := |row|;
    var k, inside := SkipLeft(sorted);
    if k == |sorted| {
      // every bound lies left of the row
      forall i | 0 <= i < w ensures !Painted(sorted, i) {
        NothingPaintedFrom(sorted, 0, i);
      }
      out := row;
      violated := false;
      return;
    }
    var s := Trunc(sorted[k]);
    var prefilled := row;
    if inside {
      prefilled := FillSpan(value, row, if s < w then s else w);
    }
    forall c | 0 <= c < w && c < s ensures prefilled[c] == LinePixel(value, row[c], sorted, c) {
      PaintedAt(sorted, k, c);
    }
    out, violated := Sweep(value, row, prefilled, sorted, k, inside, s);
  }
}
