/** Pixels, 8-bit saturation, the rounding modes of C++ and OpenCV, and the
    whole-image primitives (masked copies, column shifts, comparisons,
    erosion) that the estimator applies to its buffers. An image is a grid
    of rows, each a sequence of pixels; its size is carried separately as
    `Dims`. */
module Images {

  datatype Dims = Dims(rows: nat, cols: nat)

  /** A three-channel 8-bit pixel. */
  datatype Colour = Colour(c0: int, c1: int, c2: int)

  type Grid<T> = seq<seq<T>>

  predicate Shaped<T>(g: Grid<T>, d: Dims)
  {
    |g| == d.rows && forall y :: 0 <= y < d.rows ==> |g[y]| == d.cols
  }

  /** Every image of the sequence has size `d`. */
  predicate AllShapedGrids<T>(gs: seq<Grid<T>>, d: Dims)
  {
    forall i {:trigger gs[i]} :: 0 <= i < |gs| ==> Shaped(gs[i], d)
  }

  predicate InGrid(d: Dims, y: int, x: int)
  {
    0 <= y < d.rows && 0 <= x < d.cols
  }

  predicate IsByte(v: int)
  {
    0 <= v <= 255
  }

  predicate IsColourByte(p: Colour)
  {
    IsByte(p.c0) && IsByte(p.c1) && IsByte(p.c2)
  }

  /** A single-channel uint8 image of size `d`. */
  ghost predicate IsByteImage(g: Grid<int>, d: Dims)
  {
    Shaped(g, d) && forall y, x :: InGrid(d, y, x) ==> IsByte(g[y][x])
  }

  /** A three-channel uint8 image of size `d`. */
  ghost predicate IsColourImage(g: Grid<Colour>, d: Dims)
  {
    Shaped(g, d) && forall y, x :: InGrid(d, y, x) ==> IsColourByte(g[y][x])
  }

  // ---------------------------------------------------------------------
  // Arithmetic on scalars

  /** Saturation to the uint8 range, as every 8-bit OpenCV operation does. */
  function Sat(v: int): (r: int)
    ensures IsByte(r)
    ensures IsByte(v) ==> r == v
    ensures v < 0 ==> r == 0
    ensures v > 255 ==> r == 255
  {
    if v < 0 then 0 else if v > 255 then 255 else v
  }

  function Min(a: int, b: int): int { if a <= b then a else b }

  function Max(a: int, b: int): int { if a >= b then a else b }

  function Abs(v: int): nat { if v < 0 then -v else v }

  /** C++ conversion of a floating-point value to `int`: truncation toward zero. */
  function Trunc(r: real): int
  {
    if r >= 0.0 then r.Floor else -((-r).Floor)
  }

  /** `int(d + 0.5)` for d >= 0 and `int(d - 0.5)` for d < 0: rounding half away from zero. */
  function RoundHalfAway(r: real): int
  {
    if r < 0.0 then Trunc(r - 0.5) else Trunc(r + 0.5)
  }

  /** `cvRound`, used by `saturate_cast` and by `Point2i(Point2f)`: nearest integer, ties to even. */
  function RoundNearest(r: real): int
  {
    var f := r.Floor;
    var frac := r - f as real;
    if frac < 0.5 then f
    else if frac > 0.5 then f + 1
    else if f % 2 == 0 then f
    else f + 1
  }

  lemma TruncTowardZero(r: real)
    ensures r >= 0.0 ==> 0 <= Trunc(r) && Trunc(r) as real <= r < Trunc(r) as real + 1.0
    ensures r < 0.0 ==> Trunc(r) <= 0 && Trunc(r) as real - 1.0 < r <= Trunc(r) as real
  {
    if r < 0.0 {
      assert (-r).Floor as real <= -r < (-r).Floor as real + 1.0;
    }
  }

  lemma RoundHalfAwayNearest(r: real)
    ensures -0.5 <= r - RoundHalfAway(r) as real <= 0.5
    ensures RoundHalfAway(-r) == -RoundHalfAway(r)
  {
    TruncTowardZero(r - 0.5);
    TruncTowardZero(r + 0.5);
    TruncTowardZero(-r - 0.5);
    TruncTowardZero(-r + 0.5);
  }

  lemma RoundNearestClose(r: real)
    ensures -0.5 <= r - RoundNearest(r) as real <= 0.5
  {
  }

  /** `saturate_cast<uchar>(s * v)`: the 8-bit result of multiplying by a real factor. */
  function Scale(v: int, s: real): (r: int)
    ensures IsByte(r)
  {
    Sat(RoundNearest(s * v as real))
  }

  function SatSubColour(p: Colour, q: Colour): (r: Colour)
    ensures IsColourByte(r)
  {
    Colour(Sat(p.c0 - q.c0), Sat(p.c1 - q.c1), Sat(p.c2 - q.c2))
  }

  function SatAddColour(p: Colour, q: Colour): (r: Colour)
    ensures IsColourByte(r)
  {
    Colour(Sat(p.c0 + q.c0), Sat(p.c1 + q.c1), Sat(p.c2 + q.c2))
  }

  function ScaleColour(p: Colour, s: real): (r: Colour)
    ensures IsColourByte(r)
  {
    Colour(Scale(p.c0, s), Scale(p.c1, s), Scale(p.c2, s))
  }

  // ---------------------------------------------------------------------
  // Whole-image primitives

  /** `Mat::zeros`, `setTo(v)`: a constant image. */
  function Fill<T>(d: Dims, v: T): (r: Grid<T>)
    ensures Shaped(r, d)
    ensures forall y, x {:trigger r[y][x]} :: InGrid(d, y, x) ==> r[y][x] == v
  {
    seq(d.rows, y => seq(d.cols, x => v))
  }

  /** `src.copyTo(dst, mask)`: `src` where the mask is set, `dst` elsewhere. */
  function CopyMasked<T>(dst: Grid<T>, src: Grid<T>, mask: Grid<bool>, d: Dims): (r: Grid<T>)
    requires Shaped(dst, d) && Shaped(src, d) && Shaped(mask, d)
    ensures Shaped(r, d)
    ensures forall y, x {:trigger r[y][x]} :: InGrid(d, y, x) ==> r[y][x] == if mask[y][x] then src[y][x] else dst[y][x]
  {
    seq(d.rows, y requires 0 <= y < d.rows =>
      seq(d.cols, x requires 0 <= x < d.cols => if mask[y][x] then src[y][x] else dst[y][x]))
  }

  /** `dst.setTo(v, mask)`. */
  function SetMasked<T>(dst: Grid<T>, v: T, mask: Grid<bool>, d: Dims): (r: Grid<T>)
    requires Shaped(dst, d) && Shaped(mask, d)
    ensures Shaped(r, d)
    ensures forall y, x {:trigger r[y][x]} :: InGrid(d, y, x) ==> r[y][x] == if mask[y][x] then v else dst[y][x]
  {
    CopyMasked(dst, Fill(d, v), mask, d)
  }

  /** `src(Rect(srcX, 0, width, rows)).copyTo(dst(Rect(dstX, 0, width, rows)))`:
      a band of whole columns copied between two images of the same size. */
  function CopyColumns<T>(dst: Grid<T>, src: Grid<T>, d: Dims, srcX: nat, dstX: nat, width: nat): (r: Grid<T>)
    requires Shaped(dst, d) && Shaped(src, d)
    requires srcX + width <= d.cols && dstX + width <= d.cols
    ensures Shaped(r, d)
  {
    seq(d.rows, y requires 0 <= y < d.rows =>
      seq(d.cols, x requires 0 <= x < d.cols =>
        if dstX <= x < dstX + width then src[y][x - dstX + srcX] else dst[y][x]))
  }

  /** The two-branch column translation of the source: for a negative shift the
      band starts at column `-shift` of `src`, otherwise at column `shift` of `dst`. */
  function ShiftColumns<T>(dst: Grid<T>, src: Grid<T>, d: Dims, shift: int): (r: Grid<T>)
    requires Shaped(dst, d) && Shaped(src, d)
    requires -(d.cols as int) <= shift <= d.cols
    ensures Shaped(r, d)
    ensures forall y, x {:trigger r[y][x]} :: InGrid(d, y, x) ==>
      r[y][x] == if 0 <= x - shift < d.cols then src[y][x - shift] else dst[y][x]
  {
    if shift < 0 then CopyColumns(dst, src, d, -shift, 0, d.cols + shift)
    else CopyColumns(dst, src, d, 0, shift, d.cols - shift)
  }

  /** `src(Rect(left, top, width, height)).copyTo(dst(Rect(left, top, width, height)))`. */
  function CopyRect<T>(dst: Grid<T>, src: Grid<T>, d: Dims, top: nat, left: nat, height: nat, width: nat): (r: Grid<T>)
    requires Shaped(dst, d) && Shaped(src, d)
    requires top + height <= d.rows && left + width <= d.cols
    ensures Shaped(r, d)
    ensures forall y, x {:trigger r[y][x]} :: InGrid(d, y, x) ==>
      r[y][x] == if top <= y < top + height && left <= x < left + width then src[y][x] else dst[y][x]
  {
    seq(d.rows, y requires 0 <= y < d.rows =>
      seq(d.cols, x requires 0 <= x < d.cols =>
        if top <= y < top + height && left <= x < left + width then src[y][x] else dst[y][x]))
  }

  /** `cv::compare(a, b, mask, CMP_GE)`. */
  function CompareGE(a: Grid<int>, b: Grid<int>, d: Dims): (r: Grid<bool>)
    requires Shaped(a, d) && Shaped(b, d)
    ensures Shaped(r, d)
    ensures forall y, x {:trigger r[y][x]} :: InGrid(d, y, x) ==> r[y][x] == (a[y][x] >= b[y][x])
  {
    seq(d.rows, y requires 0 <= y < d.rows => seq(d.cols, x requires 0 <= x < d.cols => a[y][x] >= b[y][x]))
  }

  /** `cv::compare(a, t, mask, CMP_LE)`. */
  function CompareLE(a: Grid<int>, t: int, d: Dims): (r: Grid<bool>)
    requires Shaped(a, d)
    ensures Shaped(r, d)
    ensures forall y, x {:trigger r[y][x]} :: InGrid(d, y, x) ==> r[y][x] == (a[y][x] <= t)
  {
    seq(d.rows, y requires 0 <= y < d.rows => seq(d.cols, x requires 0 <= x < d.cols => a[y][x] <= t))
  }

  /** `cv::compare(a, t, mask, CMP_LT)`. */
  function CompareLT(a: Grid<int>, t: int, d: Dims): (r: Grid<bool>)
    requires Shaped(a, d)
    ensures Shaped(r, d)
    ensures forall y, x {:trigger r[y][x]} :: InGrid(d, y, x) ==> r[y][x] == (a[y][x] < t)
  {
    seq(d.rows, y requires 0 <= y < d.rows => seq(d.cols, x requires 0 <= x < d.cols => a[y][x] < t))
  }

  /** `cv::compare(a, t, mask, CMP_GT)`. */
  function CompareGT(a: Grid<int>, t: int, d: Dims): (r: Grid<bool>)
    requires Shaped(a, d)
    ensures Shaped(r, d)
    ensures forall y, x {:trigger r[y][x]} :: InGrid(d, y, x) ==> r[y][x] == (a[y][x] > t)
  {
    seq(d.rows, y requires 0 <= y < d.rows => seq(d.cols, x requires 0 <= x < d.cols => a[y][x] > t))
  }

  /** `cv::compare(a, t, mask, CMP_EQ)`. */
  function CompareEQ(a: Grid<int>, t: int, d: Dims): (r: Grid<bool>)
    requires Shaped(a, d)
    ensures Shaped(r, d)
    ensures forall y, x {:trigger r[y][x]} :: InGrid(d, y, x) ==> r[y][x] == (a[y][x] == t)
  {
    seq(d.rows, y requires 0 <= y < d.rows => seq(d.cols, x requires 0 <= x < d.cols => a[y][x] == t))
  }

  /** An 8-bit image used as a mask: set wherever the pixel is nonzero. */
  function NonZero(a: Grid<int>, d: Dims): (r: Grid<bool>)
    requires Shaped(a, d)
    ensures Shaped(r, d)
    ensures forall y, x {:trigger r[y][x]} :: InGrid(d, y, x) ==> r[y][x] == (a[y][x] != 0)
  {
    seq(d.rows, y requires 0 <= y < d.rows => seq(d.cols, x requires 0 <= x < d.cols => a[y][x] != 0))
  }

  /** `cv::max(a, b, r)`. */
  function MaxImage(a: Grid<int>, b: Grid<int>, d: Dims): (r: Grid<int>)
    requires Shaped(a, d) && Shaped(b, d)
    ensures Shaped(r, d)
    ensures forall y, x {:trigger r[y][x]} :: InGrid(d, y, x) ==> r[y][x] == Max(a[y][x], b[y][x])
  {
    seq(d.rows, y requires 0 <= y < d.rows => seq(d.cols, x requires 0 <= x < d.cols => Max(a[y][x], b[y][x])))
  }

  /** `cv::subtract(a, b, r)` on 8-bit images. */
  function SatSubImage(a: Grid<int>, b: Grid<int>, d: Dims): (r: Grid<int>)
    requires Shaped(a, d) && Shaped(b, d)
    ensures IsByteImage(r, d)
    ensures forall y, x {:trigger r[y][x]} :: InGrid(d, y, x) ==> r[y][x] == Sat(a[y][x] - b[y][x])
  {
    seq(d.rows, y requires 0 <= y < d.rows => seq(d.cols, x requires 0 <= x < d.cols => Sat(a[y][x] - b[y][x])))
  }

  /** `cv::add(a, c, r)` with an integer scalar, on an 8-bit image. */
  function SatAddScalar(a: Grid<int>, c: int, d: Dims): (r: Grid<int>)
    requires Shaped(a, d)
    ensures IsByteImage(r, d)
    ensures forall y, x {:trigger r[y][x]} :: InGrid(d, y, x) ==> r[y][x] == Sat(a[y][x] + c)
  {
    seq(d.rows, y requires 0 <= y < d.rows => seq(d.cols, x requires 0 <= x < d.cols => Sat(a[y][x] + c)))
  }

  /** `cv::absdiff(a, b, r)`. */
  function AbsDiffImage(a: Grid<int>, b: Grid<int>, d: Dims): (r: Grid<int>)
    requires Shaped(a, d) && Shaped(b, d)
    ensures Shaped(r, d)
    ensures forall y, x {:trigger r[y][x]} :: InGrid(d, y, x) ==> r[y][x] == Abs(a[y][x] - b[y][x])
  {
    seq(d.rows, y requires 0 <= y < d.rows => seq(d.cols, x requires 0 <= x < d.cols => Abs(a[y][x] - b[y][x])))
  }

  /** `cv::multiply(a, s, r)` on an 8-bit single-channel image. */
  function ScaleImage(a: Grid<int>, s: real, d: Dims): (r: Grid<int>)
    requires Shaped(a, d)
    ensures IsByteImage(r, d)
    ensures forall y, x {:trigger r[y][x]} :: InGrid(d, y, x) ==> r[y][x] == Scale(a[y][x], s)
  {
    seq(d.rows, y requires 0 <= y < d.rows => seq(d.cols, x requires 0 <= x < d.cols => Scale(a[y][x], s)))
  }

  /** `cv::multiply(a, s, r)` on an 8-bit colour image, channel by channel. */
  function ScaleColourImage(a: Grid<Colour>, s: real, d: Dims): (r: Grid<Colour>)
    requires Shaped(a, d)
    ensures IsColourImage(r, d)
    ensures forall y, x {:trigger r[y][x]} :: InGrid(d, y, x) ==> r[y][x] == ScaleColour(a[y][x], s)
  {
    seq(d.rows, y requires 0 <= y < d.rows => seq(d.cols, x requires 0 <= x < d.cols => ScaleColour(a[y][x], s)))
  }

  /** `cv::subtract(a, b, r)` on colour images. */
  function SatSubColourImage(a: Grid<Colour>, b: Grid<Colour>, d: Dims): (r: Grid<Colour>)
    requires Shaped(a, d) && Shaped(b, d)
    ensures IsColourImage(r, d)
    ensures forall y, x {:trigger r[y][x]} :: InGrid(d, y, x) ==> r[y][x] == SatSubColour(a[y][x], b[y][x])
  {
    seq(d.rows, y requires 0 <= y < d.rows => seq(d.cols, x requires 0 <= x < d.cols => SatSubColour(a[y][x], b[y][x])))
  }

  /** `cv::add(a, b, r)` on colour images. */
  function SatAddColourImage(a: Grid<Colour>, b: Grid<Colour>, d: Dims): (r: Grid<Colour>)
    requires Shaped(a, d) && Shaped(b, d)
    ensures IsColourImage(r, d)
    ensures forall y, x {:trigger r[y][x]} :: InGrid(d, y, x) ==> r[y][x] == SatAddColour(a[y][x], b[y][x])
  {
    seq(d.rows, y requires 0 <= y < d.rows => seq(d.cols, x requires 0 <= x < d.cols => SatAddColour(a[y][x], b[y][x])))
  }

  /** One pixel of `cv::erode` with a 2x2 kernel of ones: the anchor is the
      kernel's centre (1, 1), so the window is the pixel with its upper, left
      and upper-left neighbours; neighbours outside the image are ignored
      (OpenCV's default border value for erosion is the maximum). */
  function ErodeAt(g: Grid<int>, d: Dims, y: nat, x: nat): int
    requires Shaped(g, d) && InGrid(d, y, x)
  {
    var v := g[y][x];
    var v1 := if y > 0 then Min(v, g[y - 1][x]) else v;
    var v2 := if x > 0 then Min(v1, g[y][x - 1]) else v1;
    if y > 0 && x > 0 then Min(v2, g[y - 1][x - 1]) else v2
  }

  function Erode2x2(g: Grid<int>, d: Dims): (r: Grid<int>)
    requires Shaped(g, d)
    ensures Shaped(r, d)
    ensures forall y, x {:trigger r[y][x]} :: InGrid(d, y, x) ==> r[y][x] == ErodeAt(g, d, y, x)
  {
    seq(d.rows, y requires 0 <= y < d.rows => seq(d.cols, x requires 0 <= x < d.cols => ErodeAt(g, d, y, x)))
  }

  /** Erosion is the minimum over the window: it never exceeds the pixel
      itself, and it equals one of the window's pixels. */
  lemma ErodeIsWindowMinimum(g: Grid<int>, d: Dims, y: nat, x: nat)
    requires Shaped(g, d) && InGrid(d, y, x)
    ensures var e := ErodeAt(g, d, y, x);
      && e <= g[y][x]
      && (y > 0 ==> e <= g[y - 1][x])
      && (x > 0 ==> e <= g[y][x - 1])
      && (y > 0 && x > 0 ==> e <= g[y - 1][x - 1])
      && (e == g[y][x] || (y > 0 && e == g[y - 1][x]) || (x > 0 && e == g[y][x - 1])
          || (y > 0 && x > 0 && e == g[y - 1][x - 1]))
  {
  }

  /** Two images of the same size that agree at every pixel are equal. */
  lemma GridEquality<T>(a: Grid<T>, b: Grid<T>, d: Dims)
    requires Shaped(a, d) && Shaped(b, d)
    requires forall y, x :: InGrid(d, y, x) ==> a[y][x] == b[y][x]
    ensures a == b
  {
    forall y | 0 <= y < d.rows
      ensures a[y] == b[y]
    {
      assert forall x :: 0 <= x < d.cols ==> InGrid(d, y, x) && a[y][x] == b[y][x];
    }
  }
}
