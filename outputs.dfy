/** The per-pixel arithmetic of the estimator's accessors: `getDepth`, which
    turns the 8-bit output disparity map into depth, and the shift applied by
    `getDisparityMap` before its dilation and colour map. */
module Outputs {
  import opened Images

  /** A pixel of the `CV_32F` depth map: a value, or the infinity of a
      division by zero. */
  datatype Depth = Metric(z: real) | Infinite

  /** `convertTo(depth, CV_32F, 1. / 255., -1. / m_zCount)`, meant to map the
      disparity map to [0, 1]. */
  function DepthScale(v: real, zCount: nat): real
    requires zCount >= 1
  {
    v / 255.0 - 1.0 / zCount as real
  }

  /** Multiplying by `1/minDepth - 1/maxDepth` and adding `1/maxDepth`, where
      `1/maxDepth = m_disparities[0] / m_disparityCoef` and
      `1/minDepth = m_disparities[m_zCount - 1] / m_disparityCoef`. */
  function InverseDepth(t: real, first: real, last: real, coef: real): real
    requires coef != 0.0
  {
    t * (last / coef - first / coef) + first / coef
  }

  /** One pixel of `getDepth`: `1 / inverse depth`, and 0 where the disparity
      map is 0 (the `setTo(0., mask)` of the masked-out pixels). */
  function DepthAt(v: int, zCount: nat, first: real, last: real, coef: real): (r: Depth)
    requires zCount >= 1 && coef != 0.0
    ensures r == Metric(0.0) <==> v == 0
    ensures v != 0 && r.Metric? ==> r.z * InverseDepth(DepthScale(v as real, zCount), first, last, coef) == 1.0
  {
    if v == 0 then Metric(0.0)
    else
      var inv := InverseDepth(DepthScale(v as real, zCount), first, last, coef);
      if inv == 0.0 then Infinite else Metric(1.0 / inv)
  }

  /** `getDepth()` over the whole map: the depth of each pixel's disparity,
      and 0 exactly where the disparity map is masked out. */
  function DepthMap(sparse: Grid<int>, d: Dims, zCount: nat, first: real, last: real, coef: real): (r: Grid<Depth>)
    requires Shaped(sparse, d) && zCount >= 1 && coef != 0.0
    ensures Shaped(r, d)
    ensures forall y, x {:trigger r[y][x]} :: InGrid(d, y, x) ==> r[y][x] == DepthAt(sparse[y][x], zCount, first, last, coef)
    ensures forall y, x {:trigger r[y][x]} :: InGrid(d, y, x) ==> (r[y][x] == Metric(0.0) <==> sparse[y][x] == 0)
  {
    seq(d.rows, y requires 0 <= y < d.rows =>
      seq(d.cols, x requires 0 <= x < d.cols => DepthAt(sparse[y][x], zCount, first, last, coef)))
  }

  /** The value the output map holds for the last candidate `zCount` without
      the GPU filter: `255 / zCount * zCount` rounds to exactly 255. */
  lemma TopIndexScalesTo255(zCount: nat)
    requires 1 <= zCount
    ensures Scale(zCount, 255.0 / zCount as real) == 255
  {
    assert (255.0 / zCount as real) * zCount as real == 255.0;
  }

  /** As written, the 8-bit value 255 of the last candidate maps to
      `1 - 1/zCount` rather than 1, so its depth is not `minDepth = coef / last`
      (whenever the candidates differ). */
  lemma AsWrittenTopValueMissesMinDepth(zCount: nat, first: real, last: real, coef: real)
    requires zCount >= 2 && coef != 0.0 && first != last
    ensures DepthScale(255.0, zCount) == 1.0 - 1.0 / zCount as real < 1.0
    ensures InverseDepth(DepthScale(255.0, zCount), first, last, coef) != last / coef
  {
    var t := DepthScale(255.0, zCount);
    var g := last / coef - first / coef;
    DistinctQuotients(first, last, coef);
    ProductIsOneOnlyAtOne(t, g);
  }

  lemma DistinctQuotients(first: real, last: real, coef: real)
    requires coef != 0.0 && first != last
    ensures last / coef - first / coef != 0.0
  {
    assert (last / coef) * coef == last;
    assert (first / coef) * coef == first;
  }

  lemma ProductIsOneOnlyAtOne(t: real, g: real)
    requires g != 0.0 && t != 1.0
    ensures t * g != g
  {
    assert t * g - g == (t - 1.0) * g;
  }

  /** A concrete case: two candidates at disparities -10 and -11 with
      `coef = -100`, whose depths are 10 and 100/11. The last candidate's
      output value 255 gets inverse depth 0.105, not 0.11. */
  lemma AsWrittenTwoCandidates()
    ensures InverseDepth(DepthScale(255.0, 2), -10.0, -11.0, -100.0) == 0.105
    ensures -11.0 / -100.0 == 0.11
  {
  }

  /** The evidently intended normalisation: `(v/255 - 1/zCount) / (1 - 1/zCount)`,
      which sends the value of index 1 to 0 and the value of index `zCount`
      to 1. */
  function DepthScaleIntended(v: real, zCount: nat): real
    requires zCount >= 2
  {
    (v / 255.0 - 1.0 / zCount as real) / (1.0 - 1.0 / zCount as real)
  }

  /** With the intended normalisation the value `255 * k / zCount` of candidate
      index k (1-based) maps to `(k - 1) / (zCount - 1)`, and so to the
      inverse depth of candidate k - 1: `(first + (k - 1) * step) / coef` with
      `step = (last - first) / (zCount - 1)`. The last index gives
      `minDepth` and the first `maxDepth`. */
  lemma IntendedScaleHitsCandidates(k: nat, zCount: nat, first: real, last: real, coef: real)
    requires zCount >= 2 && 1 <= k <= zCount && coef != 0.0
    ensures DepthScaleIntended(255.0 * k as real / zCount as real, zCount) == (k - 1) as real / (zCount - 1) as real
    ensures InverseDepth((k - 1) as real / (zCount - 1) as real, first, last, coef)
      == (first + (k - 1) as real * ((last - first) / (zCount - 1) as real)) / coef
    ensures k == zCount ==> DepthScaleIntended(255.0, zCount) == 1.0
  {
    var kr, n := k as real, zCount as real;
    assert (k - 1) as real == kr - 1.0 && (zCount - 1) as real == n - 1.0;
    IntendedScaleOfIndex(kr, n);
    assert DepthScaleIntended(255.0 * kr / n, zCount) == (kr - 1.0) / (n - 1.0);
    InverseDepthOfFraction(kr - 1.0, n - 1.0, first, last, coef);
    if k == zCount {
      TopValueIsOne(n);
    }
  }

  /** The corrected normalisation is affine: a change of the value by e
      changes the result by `e / 255 / (1 - 1/zCount)`, at most 2e/255. */
  lemma IntendedScaleStep(a: real, b: real, zCount: nat)
    requires zCount >= 2 && -0.5 <= a - b <= 0.5
    ensures -1.0 / 255.0 <= DepthScaleIntended(a, zCount) - DepthScaleIntended(b, zCount) <= 1.0 / 255.0
  {
    var n := zCount as real;
    var g := 1.0 - 1.0 / n;
    assert g >= 0.5 by {
      assert 1.0 / n <= 0.5;
    }
    var e := a - b;
    assert DepthScaleIntended(a, zCount) - DepthScaleIntended(b, zCount) == (e / 255.0) / g;
    assert -0.5 / 255.0 <= e / 255.0 <= 0.5 / 255.0;
    assert (0.5 / 255.0) / g <= 1.0 / 255.0 by {
      assert (0.5 / 255.0) == ((0.5 / 255.0) / g) * g;
    }
  }

  /** The value `filterDisparity` stores for index k is the rounded
      `sat(round(k * 255 / zCount))`, not `255 * k / zCount` itself; under the
      corrected normalisation it lands within 1/255 of `(k - 1)/(zCount - 1)`,
      the fraction of candidate k. */
  lemma StoredIndexNearCandidate(k: nat, zCount: nat)
    requires zCount >= 2 && 1 <= k <= zCount
    ensures -1.0 / 255.0
      <= DepthScaleIntended(Scale(k, 255.0 / zCount as real) as real, zCount) - (k - 1) as real / (zCount - 1) as real
      <= 1.0 / 255.0
  {
    var u := 255.0 * k as real / zCount as real;
    StoredIsRounded(k, zCount, u);
    IndexFraction(k, zCount, u);
    IntendedScaleStep(Scale(k, 255.0 / zCount as real) as real, u, zCount);
  }

  /** The stored byte is the unrounded value `255 * k / zCount` to within one half. */
  lemma StoredIsRounded(k: nat, zCount: nat, u: real)
    requires zCount >= 2 && 1 <= k <= zCount && u == 255.0 * k as real / zCount as real
    ensures -0.5 <= Scale(k, 255.0 / zCount as real) as real - u <= 0.5
  {
    IndexValueInRange(k, zCount, u);
    ByteRounding(u);
  }

  /** The corrected normalisation of the unrounded value is the fraction of candidate k. */
  lemma IndexFraction(k: nat, zCount: nat, u: real)
    requires zCount >= 2 && 1 <= k <= zCount && u == 255.0 * k as real / zCount as real
    ensures DepthScaleIntended(u, zCount) == (k - 1) as real / (zCount - 1) as real
  {
    IntendedScaleHitsCandidates(k, zCount, 0.0, 0.0, 1.0);
  }

  /** `k * (255 / zCount)` is the value `255 * k / zCount`, inside [0, 255]. */
  lemma IndexValueInRange(k: nat, zCount: nat, u: real)
    requires zCount >= 2 && 1 <= k <= zCount && u == 255.0 * k as real / zCount as real
    ensures (255.0 / zCount as real) * k as real == u && 0.0 <= u <= 255.0
  {
    var kr, n := k as real, zCount as real;
    assert kr / n <= 1.0;
    assert u == 255.0 * (kr / n);
  }

  /** Rounding a value in [0, 255] gives a byte within half of it, which saturation keeps. */
  lemma ByteRounding(u: real)
    requires 0.0 <= u <= 255.0
    ensures Sat(RoundNearest(u)) == RoundNearest(u)
    ensures -0.5 <= RoundNearest(u) as real - u <= 0.5
  {
    RoundNearestClose(u);
  }


  lemma TopValueIsOne(n: real)
    requires n >= 2.0
    ensures (255.0 / 255.0 - 1.0 / n) / (1.0 - 1.0 / n) == 1.0
  {
    assert 255.0 / 255.0 == 1.0;
  }

  lemma IntendedScaleOfIndex(k: real, n: real)
    requires n >= 2.0
    ensures ((255.0 * k / n) / 255.0 - 1.0 / n) / (1.0 - 1.0 / n) == (k - 1.0) / (n - 1.0)
  {
    var a := (255.0 * k / n) / 255.0 - 1.0 / n;
    var b := 1.0 - 1.0 / n;
    assert a * n == k - 1.0;
    assert b * n == n - 1.0;
    var q := (k - 1.0) / (n - 1.0);
    assert q * (n - 1.0) == k - 1.0;
    assert (q * b) * n == a * n;
    assert q * b == a;
  }

  lemma InverseDepthOfFraction(j: real, m: real, first: real, last: real, coef: real)
    requires m > 0.0 && coef != 0.0
    ensures (j / m) * (last / coef - first / coef) + first / coef == (first + j * ((last - first) / m)) / coef
  {
    assert last / coef - first / coef == (last - first) / coef;
    assert (j / m) * ((last - first) / coef) == (j * ((last - first) / m)) / coef;
  }

  // ---------------------------------------------------------------------
  // getDisparityMap

  /** `multiply(m_sparseDisparityMap, 0.8, disparityMap)` followed by adding
      `0.25 * 255` under the mask of the nonzero pixels. */
  function ShiftedDisparity(v: int): (r: int)
    ensures IsByte(r)
  {
    var s := Scale(v, 0.8);
    if s != 0 then Sat(RoundNearest(s as real + 63.75)) else s
  }

  lemma RoundPlus6375(s: int)
    ensures RoundNearest(s as real + 63.75) == s + 64
  {
    var r := s as real + 63.75;
    assert (s + 63) as real <= r < (s + 64) as real;
    assert r.Floor == s + 63;
  }

  lemma ScaleByEightTenths(v: int)
    requires 1 <= v <= 255
    ensures 1 <= Scale(v, 0.8) <= 204
  {
    RoundNearestClose(0.8 * v as real);
  }

  /** The visualisation keeps the mask (0 exactly where the map is 0) and
      lifts every valid disparity into 65..255. */
  lemma ShiftedDisparityKeepsMask(v: int)
    requires IsByte(v)
    ensures ShiftedDisparity(v) == 0 <==> v == 0
    ensures v != 0 ==> 65 <= ShiftedDisparity(v) <= 255 && ShiftedDisparity(v) == Sat(Scale(v, 0.8) + 64)
  {
    if v != 0 {
      ScaleByEightTenths(v);
      RoundPlus6375(Scale(v, 0.8));
    } else {
      assert Scale(0, 0.8) == 0;
    }
  }

  /** The 8-bit map `getDisparityMap` hands to `dilate` and `applyColorMap`:
      masked-out pixels stay 0 and every other pixel lies in 65..255. */
  function DisparityVisual(sparse: Grid<int>, d: Dims): (r: Grid<int>)
    requires IsByteImage(sparse, d)
    ensures IsByteImage(r, d)
    ensures forall y, x {:trigger r[y][x]} :: InGrid(d, y, x) ==> r[y][x] == ShiftedDisparity(sparse[y][x])
    ensures forall y, x {:trigger r[y][x]} :: InGrid(d, y, x) ==>
      (r[y][x] == 0 <==> sparse[y][x] == 0) && (sparse[y][x] != 0 ==> 65 <= r[y][x])
  {
    seq(d.rows, y requires 0 <= y < d.rows =>
      seq(d.cols, x requires 0 <= x < d.cols =>
        ShiftedDisparityKeepsMask(sparse[y][x]); ShiftedDisparity(sparse[y][x])))
  }
}
