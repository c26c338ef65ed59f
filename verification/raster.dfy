/** A w x h raster buffer stored row-major in one flat sequence, as the C++ `T*` buffers are. */
module Raster {

  lemma MulLe(a: nat, b: nat, w: nat)
    requires a <= b
    ensures a * w <= b * w
  {
  }

  /** Offset of pixel (r, c): row r starts at r*w. */
  function Index(w: nat, h: nat, r: nat, c: nat): (i: nat)
    requires r < h && c < w
    ensures i < w * h
    ensures r * w <= i < r * w + w
  {
    MulLe(r + 1, h, w);
    r * w + c
  }

  /** Distinct pixels have distinct offsets. */
  lemma IndexInjective(w: nat, h: nat, r1: nat, c1: nat, r2: nat, c2: nat)
    requires r1 < h && c1 < w && r2 < h && c2 < w
    requires Index(w, h, r1, c1) == Index(w, h, r2, c2)
    ensures r1 == r2 && c1 == c2
  {
    if r1 < r2 {
      MulLe(r1 + 1, r2, w);
    } else if r2 < r1 {
      MulLe(r2 + 1, r1, w);
    }
  }

  function Pixel<T>(buf: seq<T>, w: nat, h: nat, r: nat, c: nat): T
    requires |buf| == w * h && r < h && c < w
  {
    buf[Index(w, h, r, c)]
  }

  /** Writing one offset changes exactly one pixel. */
  lemma UpdatePixel<T>(buf: seq<T>, w: nat, h: nat, r: nat, c: nat, v: T)
    requires |buf| == w * h && r < h && c < w
    ensures var out := buf[Index(w, h, r, c) := v];
      forall r2, c2 :: 0 <= r2 < h && 0 <= c2 < w ==>
        Pixel(out, w, h, r2, c2) == if r2 == r && c2 == c then v else Pixel(buf, w, h, r2, c2)
  {
    var out := buf[Index(w, h, r, c) := v];
    forall r2, c2 | 0 <= r2 < h && 0 <= c2 < w
      ensures Pixel(out, w, h, r2, c2) == if r2 == r && c2 == c then v else Pixel(buf, w, h, r2, c2)
    {
      if Index(w, h, r2, c2) == Index(w, h, r, c) {
        IndexInjective(w, h, r2, c2, r, c);
      }
    }
  }

  /** Row i of the buffer, the C++ range `[im + i*w, im + (i+1)*w)`. */
  function RowSlice<T>(buf: seq<T>, w: nat, h: nat, i: nat): (line: seq<T>)
    requires |buf| == w * h && i < h
    ensures |line| == w
    ensures forall c :: 0 <= c < w ==> line[c] == Pixel(buf, w, h, i, c)
  {
    MulLe(i + 1, h, w);
    buf[i * w .. i * w + w]
  }

  /** The buffer with row i replaced by `line`. */
  function SpliceRow<T>(buf: seq<T>, w: nat, h: nat, i: nat, line: seq<T>): (out: seq<T>)
    requires |buf| == w * h && i < h && |line| == w
    ensures |out| == w * h
    ensures forall r, c :: 0 <= r < h && 0 <= c < w ==>
      Pixel(out, w, h, r, c) == if r == i then line[c] else Pixel(buf, w, h, r, c)
  {
    MulLe(i + 1, h, w);
    var out := buf[.. i * w] + line + buf[i * w + w ..];
    assert forall r, c :: 0 <= r < h && 0 <= c < w ==>
      Pixel(out, w, h, r, c) == if r == i then line[c] else Pixel(buf, w, h, r, c) by {
      forall r, c | 0 <= r < h && 0 <= c < w
        ensures Pixel(out, w, h, r, c) == if r == i then line[c] else Pixel(buf, w, h, r, c)
      {
        if r < i {
          MulLe(r + 1, i, w);
        } else if r > i {
          MulLe(i + 1, r, w);
        }
      }
    }
    out
  }
}
