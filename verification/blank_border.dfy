/** `blank_border` (main_extraction.cpp:30-39): zero the one-pixel frame of a w x h 8-bit image. */
module Border {
  import opened Raster

  newtype Byte = x: int | 0 <= x < 256

  /** Pixel (r, c) lies on the frame of a w x h image. */
  predicate OnBorder(w: nat, h: nat, r: nat, c: nat)
  {
    r == 0 || r == h - 1 || c == 0 || c == w - 1
  }

  /** Offset of the start of row i: `i*w`. */
  function Offset(i: int, w: nat): int
  {
    i * w
  }

  /** Offset idx is assigned by one of the three loops. The arithmetic is on unbounded integers:
      the `size_t` wrap-around of `i*w-1` with w = 0 and of `(h-1)*w` with h = 0 moves the pointer
      to the same negative offsets. */
  predicate Written(w: nat, h: nat, idx: int)
  {
    (exists i :: 1 <= i < h && (idx == Offset(i, w) - 1 || idx == Offset(i, w)))
    || (0 <= idx < w)
    || (Offset(h - 1, w) <= idx < Offset(h - 1, w) + w)
  }

  /** The dimensions for which every write stays in the buffer. */
  predicate SafeDims(w: nat, h: nat)
  {
    (1 <= w && 1 <= h) || (w == 0 && h <= 1)
  }

  /** Every offset written lies in [0, w*h) exactly when the image has a pixel in each direction
      (or is empty with at most one row): with h = 0 the first row is written out of range, and
      with w = 0, h >= 2 offset -1 is written. */
  lemma WritesInRange(w: nat, h: nat)
    ensures SafeDims(w, h) <==> forall idx :: Written(w, h, idx) ==> 0 <= idx < w * h
  {
    if SafeDims(w, h) {
      forall idx | Written(w, h, idx) ensures 0 <= idx < w * h {
        if exists i :: 1 <= i < h && (idx == Offset(i, w) - 1 || idx == Offset(i, w)) {
          var i :| 1 <= i < h && (idx == Offset(i, w) - 1 || idx == Offset(i, w));
          MulLe(1, i, w);
          MulLe(i, h - 1, w);
        } else if Offset(h - 1, w) <= idx < Offset(h - 1, w) + w {
          assert Offset(h - 1, w) + w == w * h;
        } else {
          MulLe(1, h, w);
        }
      }
    } else if h == 0 {
      assert Written(w, h, 0);
    } else {
      assert Offset(1, 0) == 0;
      assert Written(w, h, -1);
    }
  }

  /** The frame condition after the vertical-strip loop has run for rows 1..i-1. */
  predicate StripDone(w: nat, i: int, r: nat, c: nat)
  {
    (c == w - 1 && r < i - 1) || (c == 0 && 1 <= r < i)
  }

  /** `blank_border`: every frame pixel becomes 0 and every interior pixel keeps its value. */
  method BlankBorder(data: seq<Byte>, w: nat, h: nat) returns (out: seq<Byte>)
    requires |data| == w * h
    requires SafeDims(w, h)
    ensures |out| == |data|
    ensures forall r, c :: 0 <= r < h && 0 <= c < w ==>
      Pixel(out, w, h, r, c) == if OnBorder(w, h, r, c) then 0 else Pixel(data, w, h, r, c)
  {
    out := data;
    // vertical strips: the last pixel of row i-1 and the first pixel of row i
    var i := 1;
    while i < h
      invariant 1 <= i && (1 <= h ==> i <= h)
      invariant |out| == w * h
      invariant forall r, c :: 0 <= r < h && 0 <= c < w ==>
        Pixel(out, w, h, r, c) == if StripDone(w, i, r, c) then 0 else Pixel(data, w, h, r, c)
    {
      assert i * w == Index(w, h, i, 0);
      UpdatePixel(out, w, h, i, 0, 0);
      out := out[i * w := 0];
      assert i * w - 1 == Index(w, h, i - 1, w - 1);
      UpdatePixel(out, w, h, i - 1, w - 1, 0);
      out := out[i * w - 1 := 0];
      i := i + 1;
    }
    // first line
    i := 0;
    while i < w
      invariant 0 <= i <= w
      invariant |out| == w * h
      invariant forall r, c :: 0 <= r < h && 0 <= c < w ==>
        Pixel(out, w, h, r, c) ==
          if StripDone(w, h, r, c) || (r == 0 && c < i) then 0 else Pixel(data, w, h, r, c)
    {
      assert i == Index(w, h, 0, i);
      UpdatePixel(out, w, h, 0, i, 0);
      out := out[i := 0];
      i := i + 1;
    }
    // last line, from the pointer moved to row h-1
    var base := (h - 1) * w;
    i := 0;
    while i < w
      invariant 0 <= i <= w
      invariant |out| == w * h
      invariant forall r, c :: 0 <= r < h && 0 <= c < w ==>
        Pixel(out, w, h, r, c) ==
          if StripDone(w, h, r, c) || r == 0 || (r == h - 1 && c < i) then 0 else Pixel(data, w, h, r, c)
    {
      assert base + i == Index(w, h, h - 1, i);
      UpdatePixel(out, w, h, h - 1, i, 0);
      out := out[base + i := 0];
      i := i + 1;
    }
  }
}
