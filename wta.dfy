/** The winner-takes-all selection of `reconstructDepthAndColour`: per pixel,
    the running minimum and maximum of the candidates' costs, the 1-based
    index of the winning candidate, and the winning candidate's colour.
    The comparison is `minCost >= cost` (`CMP_GE`), so a later candidate
    wins a tie. */
module WinnerTakeAll {
  import opened Images

  // ---------------------------------------------------------------------
  // One pixel: the costs of all candidates at that pixel, in candidate order

  function MinOf(s: seq<int>): int
    requires |s| > 0
  {
    if |s| == 1 then s[0] else Min(MinOf(s[..|s| - 1]), s[|s| - 1])
  }

  function MaxOf(s: seq<int>): int
    requires |s| > 0
  {
    if |s| == 1 then s[0] else Max(MaxOf(s[..|s| - 1]), s[|s| - 1])
  }

  /** The index the `>=` comparison ends on: the last candidate reaching the minimum. */
  function LastArgMin(s: seq<int>): (k: nat)
    requires |s| > 0
    ensures k < |s|
  {
    if |s| == 1 then 0
    else if MinOf(s[..|s| - 1]) >= s[|s| - 1] then |s| - 1
    else LastArgMin(s[..|s| - 1])
  }

  /** `MinOf` and `MaxOf` are the least and greatest cost, and `LastArgMin` is the
      largest index whose cost is the least one. */
  lemma {:induction false} LastArgMinIsLastMinimum(s: seq<int>)
    requires |s| > 0
    ensures s[LastArgMin(s)] == MinOf(s)
    ensures forall i :: 0 <= i < |s| ==> MinOf(s) <= s[i] <= MaxOf(s)
    ensures forall i :: LastArgMin(s) < i < |s| ==> s[i] > MinOf(s)
    ensures exists i :: 0 <= i < |s| && s[i] == MaxOf(s)
  {
    if |s| > 1 {
      var p := s[..|s| - 1];
      LastArgMinIsLastMinimum(p);
      assert forall i :: 0 <= i < |p| ==> p[i] == s[i];
      var j :| 0 <= j < |p| && p[j] == MaxOf(p);
      if MaxOf(p) < s[|s| - 1] {
        assert s[|s| - 1] == MaxOf(s);
      } else {
        assert s[j] == MaxOf(s);
      }
    }
  }

  /** When every candidate costs the same, the last candidate wins. */
  lemma AllTiesPickLast(s: seq<int>)
    requires |s| > 0
    requires forall i :: 0 <= i < |s| ==> s[i] == s[0]
    ensures LastArgMin(s) == |s| - 1
  {
    LastArgMinIsLastMinimum(s);
  }

  /** A candidate strictly cheaper than every other one wins. */
  lemma StrictWinnerPicked(s: seq<int>, k: nat)
    requires k < |s|
    requires forall i :: 0 <= i < |s| && i != k ==> s[k] < s[i]
    ensures LastArgMin(s) == k
  {
    LastArgMinIsLastMinimum(s);
  }

  // ---------------------------------------------------------------------
  // Whole images

  /** `m_minCost`, `m_maxCost`, `m_fullDisparityMap` and `m_reconsImgRectified`. */
  datatype WtaState = WtaState(minCost: Grid<int>, maxCost: Grid<int>, disparity: Grid<int>, best: Grid<Colour>)

  predicate WtaShaped(s: WtaState, d: Dims)
  {
    Shaped(s.minCost, d) && Shaped(s.maxCost, d) && Shaped(s.disparity, d) && Shaped(s.best, d)
  }

  /** Candidate 0: both cost bounds are its cost, the index map is 1 everywhere
      and the colour is its restoration. */
  function WtaSeed(cost: Grid<int>, candidate: Grid<Colour>, d: Dims): (r: WtaState)
    requires Shaped(cost, d) && Shaped(candidate, d)
    ensures WtaShaped(r, d)
  {
    WtaState(cost, cost, Fill(d, 1), candidate)
  }

  /** Candidate z > 0: `maskBest = minCost >= cost`; under the mask the cost,
      the index `z + 1` (saturated to 8 bits) and the colour are taken; the
      maximum is updated everywhere. */
  function WtaStep(s: WtaState, cost: Grid<int>, candidate: Grid<Colour>, z: int, d: Dims): (r: WtaState)
    requires WtaShaped(s, d) && Shaped(cost, d) && Shaped(candidate, d)
    ensures WtaShaped(r, d)
  {
    var maskBest := CompareGE(s.minCost, cost, d);
    WtaState(CopyMasked(s.minCost, cost, maskBest, d),
             MaxImage(s.maxCost, cost, d),
             SetMasked(s.disparity, Sat(z + 1), maskBest, d),
             CopyMasked(s.best, candidate, maskBest, d))
  }

  predicate AllShaped(costs: seq<Grid<int>>, candidates: seq<Grid<Colour>>, d: Dims)
  {
    |costs| == |candidates|
    && AllShapedGrids(costs, d) && AllShapedGrids(candidates, d)
  }

  /** The state after all the given candidates, in index order. */
  function Wta(costs: seq<Grid<int>>, candidates: seq<Grid<Colour>>, d: Dims): (r: WtaState)
    requires |costs| > 0 && AllShaped(costs, candidates, d)
    ensures WtaShaped(r, d)
  {
    var n := |costs|;
    if n == 1 then WtaSeed(costs[0], candidates[0], d)
    else WtaStep(Wta(costs[..n - 1], candidates[..n - 1], d), costs[n - 1], candidates[n - 1], n - 1, d)
  }

  /** The costs of all candidates at pixel (y, x). */
  function PixelCosts(costs: seq<Grid<int>>, d: Dims, y: nat, x: nat): (p: seq<int>)
    requires AllShapedGrids(costs, d) && InGrid(d, y, x)
    ensures |p| == |costs|
    ensures forall i :: 0 <= i < |costs| ==> p[i] == costs[i][y][x]
  {
    seq(|costs|, i requires 0 <= i < |costs| => costs[i][y][x])
  }

  /** At every pixel the selection keeps the least and the greatest cost, the
      1-based index of the last candidate reaching the least cost, and that
      candidate's colour. */
  lemma {:induction false} WtaAtPixel(costs: seq<Grid<int>>, candidates: seq<Grid<Colour>>, d: Dims, y: nat, x: nat)
    requires |costs| > 0 && AllShaped(costs, candidates, d)
    requires InGrid(d, y, x)
    ensures var s := Wta(costs, candidates, d); var p := PixelCosts(costs, d, y, x);
      && s.minCost[y][x] == MinOf(p)
      && s.maxCost[y][x] == MaxOf(p)
      && s.disparity[y][x] == Sat(LastArgMin(p) + 1)
      && s.best[y][x] == candidates[LastArgMin(p)][y][x]
  {
    var n := |costs|;
    var p := PixelCosts(costs, d, y, x);
    if n > 1 {
      var cs := costs[..n - 1];
      var ks := candidates[..n - 1];
      WtaAtPixel(cs, ks, d, y, x);
      assert PixelCosts(cs, d, y, x) == p[..n - 1];
    }
  }

  /** The selected index lies in `1..zCount` whenever the candidates fit the
      8-bit index map, and the cost spread is never negative. */
  lemma WtaIndexInRange(costs: seq<Grid<int>>, candidates: seq<Grid<Colour>>, d: Dims, y: nat, x: nat)
    requires |costs| > 0 && AllShaped(costs, candidates, d)
    requires InGrid(d, y, x) && |costs| <= 255
    ensures var s := Wta(costs, candidates, d);
      1 <= s.disparity[y][x] <= |costs| && s.minCost[y][x] <= s.maxCost[y][x]
  {
    WtaAtPixel(costs, candidates, d, y, x);
    LastArgMinIsLastMinimum(PixelCosts(costs, d, y, x));
  }

  /** A pixel where every candidate costs the same gets the last index and a
      zero cost spread. */
  lemma WtaTiedPixel(costs: seq<Grid<int>>, candidates: seq<Grid<Colour>>, d: Dims, y: nat, x: nat)
    requires |costs| > 0 && AllShaped(costs, candidates, d) && InGrid(d, y, x)
    requires forall i :: 0 <= i < |costs| ==> costs[i][y][x] == costs[0][y][x]
    ensures var s := Wta(costs, candidates, d);
      s.disparity[y][x] == Sat(|costs|) && s.minCost[y][x] == s.maxCost[y][x]
  {
    WtaAtPixel(costs, candidates, d, y, x);
    var p := PixelCosts(costs, d, y, x);
    AllTiesPickLast(p);
    LastArgMinIsLastMinimum(p);
  }
}
