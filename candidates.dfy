/** The arithmetic of the `DepthEstimator` constructor: the always-odd cost
    window, the evenly spaced disparity candidates, and the table of spatial
    offsets of the disparity filter (the index loop of `readAndCompileFilter`).
    Floating-point values are modelled as reals. */
module Candidates {
  import opened Images

  /** `m_filterSize` and `m_filterRadius` of the estimator. */
  const FilterSize: int := 21
  const FilterRadius: int := FilterSize / 2

  /** The C++ remainder `a % 2`, whose sign follows the dividend. */
  function CRem2(a: int): int
  {
    if a >= 0 then a % 2 else -((-a) % 2)
  }

  /** `int(upsampling * winSize) + 1 - (int(upsampling * winSize) % 2)`. */
  function WindowSize(upsampling: real, winSize: int): (w: int)
  {
    var t := Trunc(upsampling * winSize as real);
    t + 1 - CRem2(t)
  }

  /** The window is always odd; for a nonnegative scaled size it is that size
      when odd and the next integer when even. */
  lemma WindowSizeIsOdd(upsampling: real, winSize: int)
    ensures WindowSize(upsampling, winSize) % 2 == 1
    ensures var t := Trunc(upsampling * winSize as real);
      t >= 0 ==> WindowSize(upsampling, winSize) == (if t % 2 == 1 then t else t + 1)
  {
  }

  /** `m_zCount = a - b + 1.5`, truncated by the conversion to `int`. */
  function ZCount(a: real, b: real): int
  {
    Trunc(a - b + 1.5)
  }

  /** `(b - a) / (m_zCount - 1)`. */
  function Step(a: real, b: real, zCount: int): real
    requires zCount >= 2
  {
    (b - a) / (zCount - 1) as real
  }

  lemma ZCountAtLeastTwo(a: real, b: real)
    requires a - b >= 0.5
    ensures ZCount(a, b) >= 2
    ensures (ZCount(a, b) - 1) as real - 0.5 <= a - b < (ZCount(a, b) - 1) as real + 0.5
  {
    TruncTowardZero(a - b + 1.5);
  }

  /** The candidate loop of the constructor: `m_disparities[i] = a + i * step`
      for `a = coef / maxZ` and `b = coef / minZ`. The list starts at `a`, ends
      exactly at `b`, and every consecutive difference is the same negative
      step. */
  method BuildCandidates(a: real, b: real) returns (zCount: int, disparities: seq<real>)
    requires a - b >= 0.5
    ensures zCount == ZCount(a, b) && zCount >= 2 && |disparities| == zCount
    ensures forall i :: 0 <= i < zCount ==> disparities[i] == a + (i as real) * Step(a, b, zCount)
    ensures disparities[0] == a && disparities[zCount - 1] == b
    ensures forall i :: 0 <= i < zCount - 1 ==>
      disparities[i + 1] - disparities[i] == Step(a, b, zCount) && disparities[i + 1] < disparities[i]
  {
    ZCountAtLeastTwo(a, b);
    zCount := ZCount(a, b);
    var step := Step(a, b, zCount);
    var ds := new real[zCount];
    for i := 0 to zCount
      invariant forall k :: 0 <= k < i ==> ds[k] == CandidateOf(a, step, k)
    {
      ds[i] := a + (i as real) * step;
    }
    disparities := ds[..];
    EvenlySpaced(a, b, zCount, disparities);
  }

  /** `a + i * step`, the candidate of index `i`. */
  function CandidateOf(a: real, step: real, i: int): real
  {
    a + (i as real) * step
  }

  lemma EvenlySpaced(a: real, b: real, n: int, ds: seq<real>)
    requires a - b >= 0.5 && n >= 2 && |ds| == n
    requires forall k :: 0 <= k < n ==> ds[k] == CandidateOf(a, Step(a, b, n), k)
    ensures forall i :: 0 <= i < n ==> ds[i] == a + (i as real) * Step(a, b, n)
    ensures ds[0] == a && ds[n - 1] == b
    ensures forall i :: 0 <= i < n - 1 ==>
      ds[i + 1] - ds[i] == Step(a, b, n) && ds[i + 1] < ds[i]
  {
    var step := Step(a, b, n);
    LastCandidateIsB(a, b, n);
    assert step < 0.0 by { NegativeStep(a, b, n); }
    forall i | 0 <= i < n - 1
      ensures ds[i + 1] - ds[i] == step && ds[i + 1] < ds[i]
    {
      ConsecutiveDifference(a, step, i);
    }
  }

  lemma NegativeStep(a: real, b: real, n: int)
    requires n >= 2 && b < a
    ensures Step(a, b, n) < 0.0
  {
  }

  lemma ConsecutiveDifference(a: real, step: real, i: int)
    ensures (a + ((i + 1) as real) * step) - (a + (i as real) * step) == step
  {
  }

  lemma ScaleStrict(s: real, t: real, m: real)
    requires s < t && m > 0.0
    ensures s * m < t * m
  {
    assert (t - s) * m > 0.0;
  }

  lemma ScaleWeak(s: real, t: real, m: real)
    requires s <= t && m > 0.0
    ensures s * m <= t * m
  {
    assert (t - s) * m >= 0.0;
  }

  lemma LastCandidateIsB(a: real, b: real, n: int)
    requires n >= 2
    ensures a + ((n - 1) as real) * Step(a, b, n) == b
  {
    var m := (n - 1) as real;
    assert m * ((b - a) / m) == b - a;
  }

  /** The candidates are about one pixel apart: the step's magnitude
      differs from 1 by at most half a pixel shared among the `zCount - 1`
      gaps, so it lies in [0.5, 1.5). */
  lemma StepIsAboutOnePixel(a: real, b: real)
    requires a - b >= 0.5
    ensures ZCount(a, b) >= 2
    ensures var n := ZCount(a, b); var m := (n - 1) as real; var s := -Step(a, b, n);
      -0.5 <= (s - 1.0) * m < 0.5 && 0.5 <= s < 1.5
  {
    ZCountAtLeastTwo(a, b);
    var n := ZCount(a, b);
    var m := (n - 1) as real;
    var s := -Step(a, b, n);
    assert s * m == a - b by {
      assert Step(a, b, n) * m == b - a;
    }
    assert (s - 1.0) * m == (a - b) - m;
    assert s >= 0.5 by {
      if s < 0.5 { ScaleStrict(s, 0.5, m); }
    }
    assert s < 1.5 by {
      assert s * m < m + 0.5 <= 1.5 * m;
      if s >= 1.5 { ScaleWeak(1.5, s, m); }
    }
  }

  // ---------------------------------------------------------------------
  // Spatial offsets of the disparity filter

  /** A point of the filter window is kept when `sqrt(i*i + j*j) <= m_filterRadius`;
      for integers this is `i*i + j*j <= 100`. */
  predicate InDisc(i: int, j: int)
  {
    i * i + j * j <= FilterRadius * FilterRadius
  }

  /** The kept points of row `i` with column below `j`, in increasing column order. */
  function RowPoints(i: int, j: int): seq<(int, int)>
    requires -FilterRadius <= j <= FilterRadius + 1
    decreases j + FilterRadius
  {
    if j == -FilterRadius then []
    else RowPoints(i, j - 1) + (if InDisc(i, j - 1) then [(i, j - 1)] else [])
  }

  /** The kept points of the rows below `i`, in row-major order. */
  function DiscPoints(i: int): seq<(int, int)>
    requires -FilterRadius <= i <= FilterRadius + 1
    decreases i + FilterRadius
  {
    if i == -FilterRadius then []
    else DiscPoints(i - 1) + RowPoints(i - 1, FilterRadius + 1)
  }

  /** All kept points, in the order the loop visits them. */
  function Disc(): seq<(int, int)>
  {
    DiscPoints(FilterRadius + 1)
  }

  lemma {:induction false} RowPointsLength(i: int, j: int)
    requires -FilterRadius <= j <= FilterRadius + 1
    ensures |RowPoints(i, j)| <= j + FilterRadius
    decreases j + FilterRadius
  {
    if j > -FilterRadius {
      RowPointsLength(i, j - 1);
    }
  }

  lemma {:induction false} RowPointsMembers(i: int, j: int, p: (int, int))
    requires -FilterRadius <= j <= FilterRadius + 1
    ensures p in RowPoints(i, j) <==> p.0 == i && -FilterRadius <= p.1 < j && InDisc(p.0, p.1)
    decreases j + FilterRadius
  {
    if j > -FilterRadius {
      RowPointsMembers(i, j - 1, p);
    }
  }

  lemma {:induction false} DiscPointsLength(i: int)
    requires -FilterRadius <= i <= FilterRadius + 1
    ensures |DiscPoints(i)| <= (i + FilterRadius) * FilterSize
    decreases i + FilterRadius
  {
    if i > -FilterRadius {
      DiscPointsLength(i - 1);
      RowPointsLength(i - 1, FilterRadius + 1);
    }
  }

  lemma {:induction false} DiscPointsMembers(i: int, p: (int, int))
    requires -FilterRadius <= i <= FilterRadius + 1
    ensures p in DiscPoints(i) <==>
      -FilterRadius <= p.0 < i && -FilterRadius <= p.1 <= FilterRadius && InDisc(p.0, p.1)
    decreases i + FilterRadius
  {
    if i > -FilterRadius {
      DiscPointsMembers(i - 1, p);
      RowPointsMembers(i - 1, FilterRadius + 1, p);
    }
  }

  /** The offset table holds exactly the points of the 21x21 window within
      distance 10 of the centre, and fits the 21*21 buffers the source fills. */
  lemma DiscIsTheWindowDisc(p: (int, int))
    ensures |Disc()| <= FilterSize * FilterSize
    ensures p in Disc() <==>
      -FilterRadius <= p.0 <= FilterRadius && -FilterRadius <= p.1 <= FilterRadius
      && p.0 * p.0 + p.1 * p.1 <= 100
  {
    DiscPointsLength(FilterRadius + 1);
    DiscPointsMembers(FilterRadius + 1, p);
  }

  /** The offset of window point `p` in a single-channel map of row stride `step`. */
  function Offset(p: (int, int), step: int): int
  {
    p.0 * step + p.1
  }

  /** The loop of `readAndCompileFilter` that fills `space_ofs1` and
      `space_ofs3` (vectors of 21*21 entries) through the running `index`;
      `step` is the row stride of the single-channel disparity map. Only the
      first `count` entries are copied into the filter's index matrices. The
      `exp` weights are not modelled. */
  method SpatialOffsets(step: int) returns (ofs1: array<int>, ofs3: array<int>, count: nat)
    ensures fresh(ofs1) && fresh(ofs3)
    ensures ofs1.Length == FilterSize * FilterSize && ofs3.Length == FilterSize * FilterSize
    ensures count == |Disc()| && count <= ofs1.Length
    ensures forall k :: 0 <= k < count ==>
      ofs1[k] == Disc()[k].0 * step + Disc()[k].1 && ofs3[k] == (Disc()[k].0 * step + Disc()[k].1) * 3
  {
    ofs1 := new int[FilterSize * FilterSize];
    ofs3 := new int[FilterSize * FilterSize];
    var index: nat := 0;
    var i := -FilterRadius;
    while i <= FilterRadius
      invariant -FilterRadius <= i <= FilterRadius + 1
      invariant index == |DiscPoints(i)| && index <= (i + FilterRadius) * FilterSize
      invariant forall k :: 0 <= k < index ==>
        ofs1[k] == Offset(DiscPoints(i)[k], step) && ofs3[k] == Offset(DiscPoints(i)[k], step) * 3
    {
      DiscPointsLength(i);
      index := RowOffsets(ofs1, ofs3, index, i, step);
      i := i + 1;
    }
    count := index;
    DiscIsTheWindowDisc((0, 0));
    forall k | 0 <= k < count
      ensures ofs1[k] == Disc()[k].0 * step + Disc()[k].1 && ofs3[k] == (Disc()[k].0 * step + Disc()[k].1) * 3
    {
      assert ofs1[k] == Offset(Disc()[k], step);
    }
  }

  /** The inner loop, over the columns `j` of row `i`: the kept points are
      appended from `index` on, and the earlier entries are left alone. */
  method RowOffsets(ofs1: array<int>, ofs3: array<int>, index0: nat, i: int, step: int) returns (index: nat)
    requires ofs1 != ofs3 && ofs1.Length == FilterSize * FilterSize && ofs3.Length == FilterSize * FilterSize
    requires -FilterRadius <= i <= FilterRadius
    requires index0 == |DiscPoints(i)| && index0 <= (i + FilterRadius) * FilterSize
    requires forall k :: 0 <= k < index0 ==>
      ofs1[k] == Offset(DiscPoints(i)[k], step) && ofs3[k] == Offset(DiscPoints(i)[k], step) * 3
    modifies ofs1, ofs3
    ensures index == |DiscPoints(i + 1)| && index <= (i + 1 + FilterRadius) * FilterSize
    ensures forall k :: 0 <= k < index ==>
      ofs1[k] == Offset(DiscPoints(i + 1)[k], step) && ofs3[k] == Offset(DiscPoints(i + 1)[k], step) * 3
  {
    ghost var done := DiscPoints(i);
    index := index0;
    var j := -FilterRadius;
    while j <= FilterRadius
      invariant -FilterRadius <= j <= FilterRadius + 1
      invariant done == DiscPoints(i) + RowPoints(i, j)
      invariant index == |done| && index <= (i + FilterRadius) * FilterSize + j + FilterRadius
      invariant forall k :: 0 <= k < index ==> ofs1[k] == Offset(done[k], step) && ofs3[k] == Offset(done[k], step) * 3
    {
      RowPointsLength(i, j);
      if InDisc(i, j) {
        ofs3[index] := (i * step + j) * 3;
        ofs1[index] := i * step + j;
        index := index + 1;
        done := done + [(i, j)];
      }
      j := j + 1;
    }
    assert DiscPoints(i + 1) == done;
  }
}
