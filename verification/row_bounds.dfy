/** The even-odd rule on one row (fill_curve.cpp:147-171): sorting a row's bounds, counting the
    bounds left of a column, and which columns the sweep paints. */
module RowBounds {

  predicate Sorted(s: seq<real>)
  {
    forall i, j :: 0 <= i < j < |s| ==> s[i] <= s[j]
  }

  /** A sequence stays sorted when an element no greater than any of its own is put in front. */
  lemma SortedCons(a: real, t: seq<real>)
    requires Sorted(t)
    requires forall j :: 0 <= j < |t| ==> a <= t[j]
    ensures Sorted([a] + t)
  {
    var r := [a] + t;
    forall i, j | 0 <= i < j < |r| ensures r[i] <= r[j] {
      if i > 0 {
        assert r[i] == t[i - 1] && r[j] == t[j - 1];
      } else {
        assert r[j] == t[j - 1];
      }
    }
  }

  /** Insert x into a sorted sequence. */
  function Insert(x: real, s: seq<real>): (r: seq<real>)
    requires Sorted(s)
    ensures Sorted(r)
    ensures multiset(r) == multiset(s) + multiset{x}
    ensures |r| == |s| + 1
  {
    if s == [] then [x]
    else if x <= s[0] then
      SortedCons(x, s);
      [x] + s
    else
      var tail := s[1..];
      assert Sorted(tail);
      var t := Insert(x, tail);
      assert forall j :: 0 <= j < |t| ==> s[0] <= t[j] by {
        forall j | 0 <= j < |t| ensures s[0] <= t[j] {
          assert t[j] in multiset(t);
          if t[j] != x {
            assert t[j] in multiset(tail);
            var m :| 0 <= m < |tail| && tail[m] == t[j];
            assert s[0] <= s[m + 1];
          }
        }
      }
      SortedCons(s[0], t);
      assert s == [s[0]] + tail;
      [s[0]] + t
  }

  /** The `std::sort` of a row: its bounds in ascending order. */
  function Sort(s: seq<real>): (r: seq<real>)
    ensures Sorted(r)
    ensures multiset(r) == multiset(s)
    ensures |r| == |s|
  {
    if s == [] then []
    else
      assert s == [s[0]] + s[1..];
      Insert(s[0], Sort(s[1..]))
  }

  /** Number of bounds strictly left of x. */
  function CountBelow(s: seq<real>, x: real): (n: nat)
    ensures n <= |s|
  {
    if s == [] then 0 else (if s[0] < x then 1 else 0) + CountBelow(s[1..], x)
  }

  /** Column i is painted by the sweep: an odd number of bounds lie strictly left of i or a bound
      sits exactly on i, and the sweep still holds a bound at or right of i. */
  predicate Painted(bounds: seq<real>, i: int)
  {
    (CountBelow(bounds, i as real) % 2 == 1 || (i as real) in bounds)
    && exists b :: b in bounds && i as real <= b
  }

  /** The new value of column i of a row filled with `value` by the bounds. */
  function LinePixel<T>(value: T, prior: T, bounds: seq<real>, i: int): T
  {
    if Painted(bounds, i) then value else prior
  }

  /** The sweep of a row of width w runs out of bounds before its last column: some bound is not
      negative (so the sweep starts) and all lie left of column w-1. */
  predicate Exhausts(bounds: seq<real>, w: int)
  {
    (exists b :: b in bounds && 0.0 <= b) && forall b :: b in bounds ==> b < (w - 1) as real
  }

  /** The assertion `!bIn` (fill_curve.cpp:164) is reached and fails. */
  predicate AssertFails(bounds: seq<real>, w: int)
  {
    Exhausts(bounds, w) && |bounds| % 2 == 1
  }

  // ---------------------------------------------------------------------------------------------
  // Counting

  lemma {:induction false} CountBelowInsert(y: real, s: seq<real>, x: real)
    requires Sorted(s)
    ensures CountBelow(Insert(y, s), x) == CountBelow(s, x) + (if y < x then 1 else 0)
  {
    if s != [] && y > s[0] {
      CountBelowInsert(y, s[1..], x);
      assert Insert(y, s)[1..] == Insert(y, s[1..]);
    }
  }

  /** Sorting keeps the number of bounds left of every point. */
  lemma {:induction false} CountBelowSort(s: seq<real>, x: real)
    ensures CountBelow(Sort(s), x) == CountBelow(s, x)
  {
    if s != [] {
      CountBelowSort(s[1..], x);
      CountBelowInsert(s[0], Sort(s[1..]), x);
    }
  }

  /** In a sorted row, the bounds left of x are exactly a prefix. */
  lemma {:induction false} CountBelowSorted(s: seq<real>, k: nat, x: real)
    requires Sorted(s) && k <= |s|
    requires forall j :: 0 <= j < k ==> s[j] < x
    requires k < |s| ==> x <= s[k]
    ensures CountBelow(s, x) == k
  {
    if s != [] {
      if k == 0 {
        CountBelowSorted(s[1..], 0, x);
      } else {
        CountBelowSorted(s[1..], k - 1, x);
      }
    }
  }

  /** When every bound lies left of x, all of them count. */
  lemma {:induction false} CountBelowAll(s: seq<real>, x: real)
    requires forall j :: 0 <= j < |s| ==> s[j] < x
    ensures CountBelow(s, x) == |s|
  {
    if s != [] {
      CountBelowAll(s[1..], x);
    }
  }

  /** Painting and exhaustion depend only on the multiset of bounds, so sorting changes neither. */
  lemma SortKeepsPainting(s: seq<real>)
    ensures forall i :: Painted(Sort(s), i) <==> Painted(s, i)
    ensures forall w :: Exhausts(Sort(s), w) <==> Exhausts(s, w)
    ensures forall w :: AssertFails(Sort(s), w) <==> AssertFails(s, w)
  {
    forall b: real ensures b in Sort(s) <==> b in s {
      assert b in Sort(s) <==> b in multiset(Sort(s));
      assert b in s <==> b in multiset(s);
    }
    forall x: real ensures CountBelow(Sort(s), x) == CountBelow(s, x) {
      CountBelowSort(s, x);
    }
  }

  /** In a sorted row whose first k bounds lie left of column i and whose bound k lies at or right
      of it, column i is painted exactly when k is odd or bound k sits on i. */
  lemma PaintedAt(s: seq<real>, k: nat, i: int)
    requires Sorted(s) && k < |s|
    requires forall j :: 0 <= j < k ==> s[j] < i as real
    requires i as real <= s[k]
    ensures Painted(s, i) <==> k % 2 == 1 || s[k] == i as real
  {
    CountBelowSorted(s, k, i as real);
    assert s[k] in s;
    if (i as real) in s {
      var j :| 0 <= j < |s| && s[j] == i as real;
      assert k <= j;
      assert s[k] <= s[j];
    }
  }

  /** The even-odd rule for a row with an even number of bounds: column i is painted exactly when
      an odd number of bounds lie left of it or a bound sits on it. */
  lemma EvenRowParity(bounds: seq<real>, i: int)
    requires |bounds| % 2 == 0
    ensures Painted(bounds, i) <==> CountBelow(bounds, i as real) % 2 == 1 || (i as real) in bounds
  {
    if !exists b :: b in bounds && i as real <= b {
      forall j | 0 <= j < |bounds| ensures bounds[j] < i as real {
        assert bounds[j] in bounds;
      }
      CountBelowAll(bounds, i as real);
    }
  }
}
