/** `DepthEstimator::restoreImage`: the closed-form deblending of a rectified
    image for one disparity candidate. Round k translates the current
    estimate by the rounded disparity `2^k * d`, scales it by `tau^(2^k)` and
    subtracts it (round 0) from, or adds it (round 1) to, the estimate. */
module Restoration {
  import opened Images

  /** The disparity used in round k: doubled after every round. */
  function RoundDisparity(disparity: real, k: nat): real
  {
    if k == 0 then disparity else 2.0 * RoundDisparity(disparity, k - 1)
  }

  /** The blend factor used in round k: squared after every round. */
  function RoundTau(tau: real, k: nat): real
  {
    if k == 0 then tau else RoundTau(tau, k - 1) * RoundTau(tau, k - 1)
  }

  /** The integer column shift of round k: `int(d - 0.5)` for a negative
      disparity and `int(d + 0.5)` otherwise. */
  function RoundShift(disparity: real, k: nat): int
  {
    RoundHalfAway(RoundDisparity(disparity, k))
  }

  /** The column bands of both rounds are valid `Rect`s of the image. */
  predicate ShiftsFit(disparity: real, cols: nat)
  {
    Abs(RoundShift(disparity, 0)) <= cols && Abs(RoundShift(disparity, 1)) <= cols
  }

  /** The two buffers the source passes by reference: the translation handle
      and the restored candidate. */
  datatype RestoreState = RestoreState(translated: Grid<Colour>, candidate: Grid<Colour>)

  predicate StateShaped(s: RestoreState, d: Dims)
  {
    Shaped(s.translated, d) && Shaped(s.candidate, d)
  }

  /** One round: translate into the handle (columns the band does not reach
      keep the handle's previous contents), scale the whole handle by `tau`,
      then subtract it from or add it to the candidate, saturating. */
  function Round(s: RestoreState, shift: int, tau: real, subtract: bool, d: Dims): (r: RestoreState)
    requires StateShaped(s, d)
    requires Abs(shift) <= d.cols
    ensures StateShaped(r, d)
    ensures IsColourImage(r.translated, d) && IsColourImage(r.candidate, d)
  {
    var moved := ShiftColumns(s.translated, s.candidate, d, shift);
    var scaled := ScaleColourImage(moved, tau, d);
    var candidate := if subtract then SatSubColourImage(s.candidate, scaled, d)
                     else SatAddColourImage(s.candidate, scaled, d);
    RestoreState(scaled, candidate)
  }

  /** The buffers after the first k rounds, starting from the rectified image
      and the handle's prior contents. */
  function Rounds(disparity: real, tau: real, img: Grid<Colour>, handle: Grid<Colour>, d: Dims, k: nat): (r: RestoreState)
    requires Shaped(img, d) && Shaped(handle, d)
    requires k <= 2 && ShiftsFit(disparity, d.cols)
    ensures StateShaped(r, d)
  {
    if k == 0 then RestoreState(handle, img)
    else Round(Rounds(disparity, tau, img, handle, d, k - 1), RoundShift(disparity, k - 1),
               RoundTau(tau, k - 1), k - 1 == 0, d)
  }

  /** The result of `restoreImage`. */
  function Restored(disparity: real, tau: real, img: Grid<Colour>, handle: Grid<Colour>, d: Dims): (r: RestoreState)
    requires Shaped(img, d) && Shaped(handle, d) && ShiftsFit(disparity, d.cols)
    ensures StateShaped(r, d)
    ensures IsColourImage(r.translated, d) && IsColourImage(r.candidate, d)
  {
    Rounds(disparity, tau, img, handle, d, 2)
  }

  /** `restoreImage(disparity, tau, imgRectified, translatedImg, reconsImgCandidate)`.
      The rectified image is a value parameter and is never changed; the
      handle's prior contents are an input because the columns a band does
      not reach keep them. */
  method RestoreImage(disparity: real, tau: real, imgRectified: Grid<Colour>, translatedImg: Grid<Colour>, d: Dims)
    returns (translated: Grid<Colour>, candidate: Grid<Colour>)
    requires Shaped(imgRectified, d) && Shaped(translatedImg, d)
    requires ShiftsFit(disparity, d.cols)
    ensures RestoreState(translated, candidate) == Restored(disparity, tau, imgRectified, translatedImg, d)
    ensures IsColourImage(translated, d) && IsColourImage(candidate, d)
  {
    candidate := imgRectified;
    translated := translatedImg;
    var disp := disparity;
    var tauLocal := tau;
    for k := 0 to 2
      invariant disp == RoundDisparity(disparity, k) && tauLocal == RoundTau(tau, k)
      invariant RestoreState(translated, candidate) == Rounds(disparity, tau, imgRectified, translatedImg, d, k)
    {
      // Translate the image
      var shift := if disp < 0.0 then Trunc(disp - 0.5) else Trunc(disp + 0.5);
      translated := ShiftColumns(translated, candidate, d, shift);
      // Multiply by tau
      translated := ScaleColourImage(translated, tauLocal, d);
      // Reconstruct
      if k == 0 {
        candidate := SatSubColourImage(candidate, translated, d);
      } else {
        candidate := SatAddColourImage(candidate, translated, d);
      }
      disp := disp * 2.0;
      tauLocal := tauLocal * tauLocal;
    }
  }

  // ---------------------------------------------------------------------
  // Properties

  /** One pixel of a round: the translated handle pixel comes from column
      `x - shift` of the candidate when that column exists, and otherwise is
      the handle's previous pixel. */
  lemma RoundAt(s: RestoreState, shift: int, tau: real, subtract: bool, d: Dims, y: nat, x: nat)
    requires StateShaped(s, d) && Abs(shift) <= d.cols && InGrid(d, y, x)
    ensures var r := Round(s, shift, tau, subtract, d);
      var moved := if 0 <= x - shift < d.cols then s.candidate[y][x - shift] else s.translated[y][x];
      && r.translated[y][x] == ScaleColour(moved, tau)
      && r.candidate[y][x] == (if subtract then SatSubColour(s.candidate[y][x], ScaleColour(moved, tau))
                               else SatAddColour(s.candidate[y][x], ScaleColour(moved, tau)))
  {
    var moved := ShiftColumns(s.translated, s.candidate, d, shift);
    var scaled := ScaleColourImage(moved, tau, d);
    assert scaled[y][x] == ScaleColour(moved[y][x], tau);
  }

  lemma SecondRoundTau(tau: real)
    ensures RoundTau(tau, 1) == tau * tau
  {
    assert RoundTau(tau, 0) == tau;
  }

  /** The estimate after round 0 at column u of row y, when the band of
      round 0 reaches u: `img - tau * img shifted by d0`. */
  function FirstRoundAt(img: Grid<Colour>, d: Dims, y: nat, u: int, d0: int, tau: real): Colour
    requires Shaped(img, d) && y < d.rows && 0 <= u < d.cols && 0 <= u - d0 < d.cols
  {
    SatSubColour(img[y][u], ScaleColour(img[y][u - d0], tau))
  }

  /** `restoreImage` is round 0 (subtract, shift `d0`, factor `tau`) followed by
      round 1 (add, shift `d1`, factor `tau^2`). */
  lemma RestoredIsTwoRounds(disparity: real, tau: real, img: Grid<Colour>, handle: Grid<Colour>, d: Dims)
    requires Shaped(img, d) && Shaped(handle, d) && ShiftsFit(disparity, d.cols)
    ensures Restored(disparity, tau, img, handle, d)
      == Round(Round(RestoreState(handle, img), RoundShift(disparity, 0), tau, true, d),
               RoundShift(disparity, 1), tau * tau, false, d)
  {
    assert Rounds(disparity, tau, img, handle, d, 1) == Round(RestoreState(handle, img), RoundShift(disparity, 0), tau, true, d);
    SecondRoundTau(tau);
  }

  /** Where the band of round 0 reaches column u, the estimate after round 0
      is `FirstRoundAt`. */
  lemma FirstRoundPixel(img: Grid<Colour>, handle: Grid<Colour>, d: Dims, y: nat, u: nat, d0: int, tau: real)
    requires Shaped(img, d) && Shaped(handle, d) && Abs(d0) <= d.cols
    requires y < d.rows && u < d.cols && 0 <= u - d0 < d.cols
    ensures Round(RestoreState(handle, img), d0, tau, true, d).candidate[y][u] == FirstRoundAt(img, d, y, u, d0, tau)
  {
    RoundAt(RestoreState(handle, img), d0, tau, true, d, y, u);
  }

  /** Away from the bands the shifts leave behind, the restored pixel is the
      two-round deblending formula
      `c1(x) + tau^2 * c1(x - d1)` with `c1(u) = I(u) - tau * I(u - d0)`,
      where `d0` and `d1` are the rounded disparity and doubled disparity. */
  lemma RestoredInterior(disparity: real, tau: real, img: Grid<Colour>, handle: Grid<Colour>, d: Dims, y: nat, x: nat, d0: int, d1: int)
    requires Shaped(img, d) && Shaped(handle, d) && ShiftsFit(disparity, d.cols)
    requires d0 == RoundShift(disparity, 0) && d1 == RoundShift(disparity, 1)
    requires InGrid(d, y, x) && 0 <= x - d0 < d.cols && 0 <= x - d1 < d.cols && 0 <= x - d1 - d0 < d.cols
    ensures Restored(disparity, tau, img, handle, d).candidate[y][x]
      == SatAddColour(FirstRoundAt(img, d, y, x, d0, tau), ScaleColour(FirstRoundAt(img, d, y, x - d1, d0, tau), tau * tau))
  {
    RestoredIsTwoRounds(disparity, tau, img, handle, d);
    TwoRoundsInterior(img, handle, d, y, x, d0, d1, tau, tau * tau);
  }

  /** The pixel of two rounds with shifts `d0` and `d1` where both bands reach. */
  lemma TwoRoundsInterior(img: Grid<Colour>, handle: Grid<Colour>, d: Dims, y: nat, x: nat, d0: int, d1: int, tau: real, t2: real)
    requires Shaped(img, d) && Shaped(handle, d) && Abs(d0) <= d.cols && Abs(d1) <= d.cols
    requires InGrid(d, y, x) && 0 <= x - d0 < d.cols && 0 <= x - d1 < d.cols && 0 <= x - d1 - d0 < d.cols
    ensures Round(Round(RestoreState(handle, img), d0, tau, true, d), d1, t2, false, d).candidate[y][x]
      == SatAddColour(FirstRoundAt(img, d, y, x, d0, tau), ScaleColour(FirstRoundAt(img, d, y, x - d1, d0, tau), t2))
  {
    var s1 := Round(RestoreState(handle, img), d0, tau, true, d);
    SecondRoundPixel(s1, d1, t2, d, y, x);
    FirstRoundPixel(img, handle, d, y, x, d0, tau);
    FirstRoundPixel(img, handle, d, y, x - d1, d0, tau);
  }

  /** Where the band of round 1 reaches column x, the restored pixel adds
      the scaled pixel `d1` columns to the left. */
  lemma SecondRoundPixel(s1: RestoreState, d1: int, t2: real, d: Dims, y: nat, x: nat)
    requires StateShaped(s1, d) && Abs(d1) <= d.cols && InGrid(d, y, x) && 0 <= x - d1 < d.cols
    ensures Round(s1, d1, t2, false, d).candidate[y][x]
      == SatAddColour(s1.candidate[y][x], ScaleColour(s1.candidate[y][x - d1], t2))
  {
    RoundAt(s1, d1, t2, false, d, y, x);
  }

  /** The handle's stale contents only reach the restored image inside the
      bands the shifts leave behind: elsewhere two different prior handles
      give the same pixel. */
  lemma InteriorIgnoresStaleHandle(disparity: real, tau: real, img: Grid<Colour>, h1: Grid<Colour>, h2: Grid<Colour>, d: Dims, y: nat, x: nat)
    requires Shaped(img, d) && Shaped(h1, d) && Shaped(h2, d) && ShiftsFit(disparity, d.cols)
    requires InGrid(d, y, x)
    requires var d0 := RoundShift(disparity, 0); var d1 := RoundShift(disparity, 1);
      0 <= x - d0 < d.cols && 0 <= x - d1 < d.cols && 0 <= x - d1 - d0 < d.cols
    ensures Restored(disparity, tau, img, h1, d).candidate[y][x] == Restored(disparity, tau, img, h2, d).candidate[y][x]
  {
    var d0, d1 := RoundShift(disparity, 0), RoundShift(disparity, 1);
    RestoredInterior(disparity, tau, img, h1, d, y, x, d0, d1);
    RestoredInterior(disparity, tau, img, h2, d, y, x, d0, d1);
  }

  /** Scaling by zero and then subtracting or adding leaves an 8-bit pixel as it is. */
  lemma ZeroBlendPixel(p: Colour, q: Colour)
    requires IsColourByte(p)
    ensures SatSubColour(p, ScaleColour(q, 0.0)) == p && SatAddColour(p, ScaleColour(q, 0.0)) == p
  {
  }

  /** Without a second ray (`tau = 0`) restoration returns the rectified
      8-bit image unchanged. */
  lemma NoBlendRestoresInput(disparity: real, img: Grid<Colour>, handle: Grid<Colour>, d: Dims)
    requires IsColourImage(img, d) && Shaped(handle, d) && ShiftsFit(disparity, d.cols)
    ensures Restored(disparity, 0.0, img, handle, d).candidate == img
  {
    var s0 := RestoreState(handle, img);
    var s1 := Round(s0, RoundShift(disparity, 0), 0.0, true, d);
    assert Rounds(disparity, 0.0, img, handle, d, 1) == s1;
    assert RoundTau(0.0, 1) == 0.0;
    var s2 := Round(s1, RoundShift(disparity, 1), 0.0, false, d);
    assert Restored(disparity, 0.0, img, handle, d) == s2;
    forall y, x | InGrid(d, y, x)
      ensures s1.candidate[y][x] == img[y][x]
    {
      RoundAt(s0, RoundShift(disparity, 0), 0.0, true, d, y, x);
      ZeroBlendPixel(img[y][x], if 0 <= x - RoundShift(disparity, 0) < d.cols then img[y][x - RoundShift(disparity, 0)] else handle[y][x]);
    }
    GridEquality(s1.candidate, img, d);
    forall y, x | InGrid(d, y, x)
      ensures s2.candidate[y][x] == img[y][x]
    {
      RoundAt(s1, RoundShift(disparity, 1), 0.0, false, d, y, x);
      ZeroBlendPixel(img[y][x], if 0 <= x - RoundShift(disparity, 1) < d.cols then s1.candidate[y][x - RoundShift(disparity, 1)] else s1.translated[y][x]);
    }
    GridEquality(s2.candidate, img, d);
  }
}
