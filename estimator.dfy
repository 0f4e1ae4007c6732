/** The `DepthEstimator` class: its parameters, the buffers it keeps from one
    stage and one frame to the next, and the methods that update them. Each
    stage method is proved to leave the buffers exactly as the matching
    function of `Pipeline` describes, so the properties proved there hold of
    the object after every call. */
module DepthEstimation {
  import opened Images
  import opened Candidates
  import opened Restoration
  import opened WinnerTakeAll
  import opened Pipeline
  import opened Outputs

  /** The disparity of candidate `i` of the constructor's loop. */
  function CandidateDisparity(a: real, b: real, i: int): real
    requires a - b >= 0.5
  {
    ZCountAtLeastTwo(a, b);
    a + (i as real) * Step(a, b, ZCount(a, b))
  }

  /** Every candidate the constructor creates has bands that fit. */
  lemma CandidatesFit(a: real, b: real, ds: seq<real>, cols: nat)
    requires a - b >= 0.5
    requires forall i :: 0 <= i < ZCount(a, b) ==> ShiftsFit(CandidateDisparity(a, b, i), cols)
    requires |ds| == ZCount(a, b)
    requires forall i :: 0 <= i < |ds| ==> ds[i] == a + (i as real) * Step(a, b, |ds|)
    ensures forall i :: 0 <= i < |ds| ==> ds[i] == CandidateDisparity(a, b, i)
    ensures AllShiftsFit(ds, cols)
  {
    forall i | 0 <= i < |ds|
      ensures ds[i] == CandidateDisparity(a, b, i) && ShiftsFit(ds[i], cols)
    {
    }
  }

  /** The candidate loop of `reconstructDepthAndColour`: candidate `zInd` is
      restored from the handle the previous one left, its cost computed, and
      the running minimum, maximum, index and colour updated (candidate 0
      initialises them). Returns the final handle and the four selection
      buffers, which are the chain of restorations and the winner-takes-all
      selection over their costs. */
  method SelectCandidates(ops: Ops, ds: seq<real>, tau: real, img: Grid<Colour>, handle0: Grid<Colour>, rect: Dims)
    returns (handle: Grid<Colour>, lo: Grid<int>, hi: Grid<int>, index: Grid<int>, best: Grid<Colour>)
    requires |ds| >= 1 && Shaped(img, rect) && Shaped(handle0, rect) && AllShiftsFit(ds, rect.cols)
    requires CostFits(ops, rect)
    ensures AllShapedGrids(Costs(ops, Chain(ds, tau, img, handle0, rect).candidates), rect)
    ensures handle == Chain(ds, tau, img, handle0, rect).translated
    ensures WtaState(lo, hi, index, best)
      == Wta(Costs(ops, Chain(ds, tau, img, handle0, rect).candidates), Chain(ds, tau, img, handle0, rect).candidates, rect)
  {
    handle := handle0;
    lo, hi, index, best := [], [], [], [];
    ghost var cands: seq<Grid<Colour>> := [];
    var zInd := 0;
    while zInd < |ds|
      invariant 0 <= zInd <= |ds|
      invariant Chain(ds[..zInd], tau, img, handle0, rect) == ChainResult(handle, cands)
      invariant AllShapedGrids(Costs(ops, cands), rect)
      invariant zInd > 0 ==> WtaState(lo, hi, index, best) == Wta(Costs(ops, cands), cands, rect)
    {
      var translated, candidate := RestoreImage(ds[zInd], tau, img, handle, rect);
      var cost := ops.cost(candidate);
      ghost var prev := WtaState(lo, hi, index, best);
      if zInd == 0 {
        lo, hi, index, best := cost, cost, Fill(rect, 1), candidate;
        assert WtaState(lo, hi, index, best) == WtaSeed(cost, candidate, rect);
      } else {
        lo, hi, index, best := MergeCandidate(lo, hi, index, best, cost, candidate, zInd, rect);
      }
      SelectionStep(ops, ds, tau, img, handle0, rect, zInd, handle, cands, prev, translated, candidate, WtaState(lo, hi, index, best));
      handle := translated;
      cands := cands + [candidate];
      zInd := zInd + 1;
    }
    assert ds[..|ds|] == ds;
  }

  /** The selection update for candidate `z > 0`: where `minCost >= cost`
      the cost, the index `z + 1` and the candidate's colour are taken, and
      the maximum cost is updated everywhere. */
  method MergeCandidate(minCost: Grid<int>, maxCost: Grid<int>, disparity: Grid<int>, best: Grid<Colour>,
                        cost: Grid<int>, candidate: Grid<Colour>, z: int, rect: Dims)
    returns (minCost': Grid<int>, maxCost': Grid<int>, disparity': Grid<int>, best': Grid<Colour>)
    requires WtaShaped(WtaState(minCost, maxCost, disparity, best), rect) && Shaped(cost, rect) && Shaped(candidate, rect)
    ensures WtaState(minCost', maxCost', disparity', best')
      == WtaStep(WtaState(minCost, maxCost, disparity, best), cost, candidate, z, rect)
    ensures forall y, x {:trigger minCost'[y][x]} :: InGrid(rect, y, x) ==>
      minCost'[y][x] == Min(minCost[y][x], cost[y][x]) && maxCost'[y][x] == Max(maxCost[y][x], cost[y][x])
    ensures forall y, x {:trigger disparity'[y][x]} :: InGrid(rect, y, x) && minCost[y][x] >= cost[y][x] ==>
      disparity'[y][x] == Sat(z + 1) && best'[y][x] == candidate[y][x]
    ensures forall y, x {:trigger disparity'[y][x]} :: InGrid(rect, y, x) && minCost[y][x] < cost[y][x] ==>
      disparity'[y][x] == disparity[y][x] && best'[y][x] == best[y][x]
  {
    var maskBest := CompareGE(minCost, cost, rect);
    minCost' := CopyMasked(minCost, cost, maskBest, rect);
    maxCost' := MaxImage(maxCost, cost, rect);
    disparity' := SetMasked(disparity, Sat(z + 1), maskBest, rect);
    best' := CopyMasked(best, candidate, maskBest, rect);
  }

  /** One candidate more: the chain grows by the restoration of `ds[z]` and
      the selection by its cost. */
  lemma SelectionStep(ops: Ops, ds: seq<real>, tau: real, img: Grid<Colour>, handle0: Grid<Colour>, rect: Dims, z: nat,
                      handle: Grid<Colour>, cands: seq<Grid<Colour>>, w: WtaState,
                      translated: Grid<Colour>, candidate: Grid<Colour>, w': WtaState)
    requires z < |ds| && Shaped(img, rect) && Shaped(handle0, rect) && AllShiftsFit(ds, rect.cols) && CostFits(ops, rect)
    requires Chain(ds[..z], tau, img, handle0, rect) == ChainResult(handle, cands)
    requires AllShapedGrids(Costs(ops, cands), rect)
    requires z > 0 ==> w == Wta(Costs(ops, cands), cands, rect)
    requires RestoreState(translated, candidate) == Restored(ds[z], tau, img, handle, rect)
    requires z == 0 ==> w' == WtaSeed(ops.cost(candidate), candidate, rect)
    requires z > 0 ==> w' == WtaStep(w, ops.cost(candidate), candidate, z, rect)
    ensures Chain(ds[..z + 1], tau, img, handle0, rect) == ChainResult(translated, cands + [candidate])
    ensures AllShapedGrids(Costs(ops, cands + [candidate]), rect)
    ensures w' == Wta(Costs(ops, cands + [candidate]), cands + [candidate], rect)
  {
    ChainSnoc(ds, tau, img, handle0, rect, z);
    var cands' := cands + [candidate];
    CostsShaped(ops, rect, cands');
    assert Costs(ops, cands')[..z] == Costs(ops, cands);
    assert cands'[..z] == cands;
  }

  /** Candidates a half pixel apart need a nonzero disparity coefficient. */
  lemma NonZeroCoef(coef: real, minZ: real, maxZ: real)
    requires minZ != 0.0 && maxZ != 0.0 && coef / maxZ - coef / minZ >= 0.5
    ensures coef != 0.0
  {
  }

  class DepthEstimator {
    // Parameters fixed by the constructor
    const disparityCoef: real
    const tau: real
    const winSize: int
    const zCount: int
    const disparities: seq<real>
    const threshGrad: int
    const threshCost: int
    const disparityFiltering: bool
    /** The sizes of `m_invInd1`, `m_tformInd1` and `m_invIndMask1`. */
    const cap: Dims
    const rect: Dims
    const conf: Dims
    const ops: Ops
    /** `m_filterIndCn1` and `m_filterIndCn3`: the disparity filter's offsets. */
    const filterIndCn1: seq<int>
    const filterIndCn3: seq<int>

    // Buffers
    var img: Grid<Colour>
    var imgRectified: Grid<Colour>
    var translatedImg: Grid<Colour>
    var minCost: Grid<int>
    var maxCost: Grid<int>
    var fullDisparityMap: Grid<int>
    var reconsImgRectified: Grid<Colour>
    var reconsImg: Grid<Colour>
    var reconsImgConf: Grid<Colour>
    var fullDisparityMapConf: Grid<int>
    var confidence: Grid<int>
    var minCostConf: Grid<int>
    var sparseDisparityMap: Grid<int>

    function Cfg(): Config
    {
      Config(tau, winSize, threshGrad, threshCost, disparities, disparityFiltering, cap, rect, conf, ops)
    }

    function Snapshot(): Buffers
      reads this
    {
      Buffers(img, imgRectified, translatedImg, minCost, maxCost, fullDisparityMap,
              reconsImgRectified, reconsImg, reconsImgConf, fullDisparityMapConf,
              confidence, minCostConf, sparseDisparityMap)
    }

    ghost predicate Valid()
      reads this
    {
      && ConfigValid(Cfg()) && BuffersFit(Snapshot(), Cfg())
      && zCount == |disparities| && zCount >= 2 && disparityCoef != 0.0
    }

    /** The constructor, with the lookup tables already reduced to the three
        geometries and the remaps they drive supplied as `ops`; `gpuAvailable`
        stands for the creation of the OpenCL context. */
    constructor (ops: Ops, cap: Dims, rect: Dims, conf: Dims,
                 minZ: real, maxZ: real, disparityCoef: real, tau: real, upsampling: real,
                 winSize: int, threshGrad: int, threshCost: int, gpuAvailable: bool)
      requires minZ != 0.0 && maxZ != 0.0
      requires upsampling * disparityCoef / maxZ - upsampling * disparityCoef / minZ >= 0.5
      requires var a, b := upsampling * disparityCoef / maxZ, upsampling * disparityCoef / minZ;
        forall i :: 0 <= i < ZCount(a, b) ==> ShiftsFit(CandidateDisparity(a, b, i), rect.cols)
      requires cap.rows >= 5 && cap.cols >= 40 && rect.cols > 0
      requires 0 <= Displacement(WindowSize(upsampling, winSize), conf.cols, rect.cols) <= conf.cols
      requires IsByte(threshGrad) && IsByte(threshCost)
      requires OpsFit(ops, cap, rect, conf)
      ensures Valid()
      ensures this.disparityCoef == upsampling * disparityCoef && this.tau == tau
      ensures this.winSize == WindowSize(upsampling, winSize)
      ensures this.threshGrad == threshGrad && this.threshCost == threshCost
      ensures this.cap == cap && this.rect == rect && this.conf == conf && this.ops == ops
      ensures var a, b := this.disparityCoef / maxZ, this.disparityCoef / minZ;
        && zCount == ZCount(a, b)
        && forall i :: 0 <= i < zCount ==> disparities[i] == CandidateDisparity(a, b, i)
      ensures this.disparityFiltering == gpuAvailable
      ensures gpuAvailable ==> (
        && |filterIndCn1| == |filterIndCn3| == |Disc()|
        && forall k :: 0 <= k < |Disc()| ==>
             filterIndCn1[k] == Disc()[k].0 * conf.cols + Disc()[k].1 && filterIndCn3[k] == 3 * filterIndCn1[k])
      ensures Snapshot() == ZeroBuffers(cap, rect, conf)
    {
      this.tau := tau;
      this.winSize := WindowSize(upsampling, winSize);
      this.threshGrad := threshGrad;
      this.threshCost := threshCost;
      var coef := upsampling * disparityCoef;
      this.disparityCoef := coef;
      this.cap, this.rect, this.conf, this.ops := cap, rect, conf, ops;
      var a, b := coef / maxZ, coef / minZ;
      var n, ds := BuildCandidates(a, b);
      CandidatesFit(a, b, ds, rect.cols);
      this.zCount, this.disparities := n, ds;
      var zero := ZeroBuffers(cap, rect, conf);
      img, imgRectified, translatedImg := zero.img, zero.imgRectified, zero.translatedImg;
      minCost, maxCost, fullDisparityMap := zero.minCost, zero.maxCost, zero.fullDisparityMap;
      reconsImgRectified, reconsImg, reconsImgConf := zero.reconsImgRectified, zero.reconsImg, zero.reconsImgConf;
      fullDisparityMapConf, confidence := zero.fullDisparityMapConf, zero.confidence;
      minCostConf, sparseDisparityMap := zero.minCostConf, zero.sparseDisparityMap;
      if gpuAvailable {
        var ofs1, ofs3, count := SpatialOffsets(conf.cols);
        this.filterIndCn1, this.filterIndCn3 := ofs1[..count], ofs3[..count];
      } else {
        this.filterIndCn1, this.filterIndCn3 := [], [];
      }
      this.disparityFiltering := gpuAvailable;
      NonZeroCoef(coef, minZ, maxZ);
    }

    /** `setFrame(img)`: take the frame, rectify it and run the four stages. */
    method SetFrame(frame: Grid<Colour>)
      requires Valid() && Shaped(frame, cap)
      modifies this
      ensures Snapshot() == FrameStage(Cfg(), old(Snapshot()), frame)
      ensures Valid()
    {
      img := frame;
      imgRectified := ops.rectify(frame);
      ReconstructDepthAndColour();
      UnwarpAndFixColour();
      MaskDisparityMap();
      FilterDisparity();
    }

    /** `reconstructDepthAndColour()`: restore every candidate, compute its
        cost and merge it into the selection; the buffers the loop updates are
        stored once it ends. */
    method ReconstructDepthAndColour()
      requires Valid()
      modifies this
      ensures Snapshot() == ReconstructStage(Cfg(), old(Snapshot()))
      ensures Valid()
    {
      var handle, lo, hi, index, best := RestoreAndSelect();
      translatedImg, minCost, maxCost, fullDisparityMap, reconsImgRectified := handle, lo, hi, index, best;
    }

    /** The candidate loop and the selection, on the buffers' current values. */
    method RestoreAndSelect() returns (handle: Grid<Colour>, lo: Grid<int>, hi: Grid<int>, index: Grid<int>, best: Grid<Colour>)
      requires Valid()
      ensures ReconstructStage(Cfg(), Snapshot())
        == Snapshot().(translatedImg := handle, minCost := lo, maxCost := hi, fullDisparityMap := index, reconsImgRectified := best)
    {
      ConfigCostFits(Cfg());
      handle, lo, hi, index, best := SelectCandidates(ops, disparities, tau, imgRectified, translatedImg, rect);
      ghost var ch := Chain(disparities, tau, imgRectified, translatedImg, rect);
      ReconstructStageOf(Cfg(), Snapshot(), handle, ch.candidates, WtaState(lo, hi, index, best));
    }

    /** `unwarpAndFixColour()`. */
    method UnwarpAndFixColour()
      requires Valid()
      modifies this
      ensures Snapshot() == UnwarpStage(Cfg(), old(Snapshot()))
      ensures Valid()
    {
      UnwarpColour();
      UnwarpMaps();
    }

    /** The intensity correction, the remaps of the restored image and the
        boundary patch from the captured image. */
    method UnwarpColour()
      requires Valid()
      modifies this
      ensures Snapshot() == UnwarpColourStage(Cfg(), old(Snapshot()))
      ensures Valid()
    {
      var rectified := ScaleColourImage(reconsImgRectified, IntensityFactor(tau), rect);
      var recons := PatchBoundary(ops.unwarp(rectified), img, cap);
      reconsImgRectified, reconsImg, reconsImgConf := rectified, recons, ops.unwarpConf(rectified);
    }

    /** The nearest-neighbour remaps of the index map and the cost bounds. */
    method UnwarpMaps()
      requires Valid()
      modifies this
      ensures Snapshot() == UnwarpMapsStage(Cfg(), old(Snapshot()))
      ensures Valid()
    {
      fullDisparityMapConf, confidence, minCostConf
        := ops.unwarpConfNearest(fullDisparityMap), ops.unwarpConfNearest(maxCost), ops.unwarpConfNearest(minCost);
    }

    /** `maskDisparityMap()`. */
    method MaskDisparityMap()
      requires Valid()
      modifies this
      ensures Snapshot() == MaskStage(Cfg(), old(Snapshot()))
      ensures Valid()
    {
      var raw := RawConfidence(Cfg(), Snapshot());
      var displacement := MaskDisplacement(Cfg());
      minCostConf := SatSubImage(confidence, minCostConf, conf);
      fullDisparityMapConf := ShiftColumns(fullDisparityMapConf, fullDisparityMapConf, conf, displacement);
      confidence := Erode2x2(raw, conf);
      fullDisparityMapConf := SetMasked(fullDisparityMapConf, 0, CompareEQ(confidence, 0, conf), conf);
    }

    /** `filterDisparity()`: the GPU filter and outlier removal, or only the
        rescaling when no GPU context could be created. */
    method FilterDisparity()
      requires Valid()
      modifies this
      ensures Snapshot() == FilterStage(Cfg(), old(Snapshot()))
      ensures Valid()
    {
      if disparityFiltering {
        fullDisparityMapConf := ScaleImage(fullDisparityMapConf, 255.0 / zCount as real, conf);
        sparseDisparityMap := ops.bilateral(fullDisparityMapConf, reconsImgConf);
        var f := RemoveOutliers(fullDisparityMapConf, sparseDisparityMap, conf);
        fullDisparityMapConf, sparseDisparityMap := f.diff, f.sparse;
      } else {
        sparseDisparityMap := ScaleImage(fullDisparityMapConf, 255.0 / zCount as real, conf);
      }
    }

    /** `getDepth()`: the depth in millimetres of every pixel of the output
        map, 0 where the map is masked out. */
    function GetDepth(): (r: Grid<Depth>)
      reads this
      requires Valid()
      ensures Shaped(r, conf)
      ensures forall y, x {:trigger r[y][x]} :: InGrid(conf, y, x) ==>
        r[y][x] == DepthAt(sparseDisparityMap[y][x], zCount, disparities[0], disparities[zCount - 1], disparityCoef)
      ensures forall y, x {:trigger r[y][x]} :: InGrid(conf, y, x) ==> (r[y][x] == Metric(0.0) <==> sparseDisparityMap[y][x] == 0)
    {
      DepthMap(sparseDisparityMap, conf, zCount, disparities[0], disparities[zCount - 1], disparityCoef)
    }

    /** `getDisparityMap()` before its dilation and colour map. */
    function GetDisparityMap(): (r: Grid<int>)
      reads this
      requires Valid() && IsByteImage(sparseDisparityMap, conf)
      ensures IsByteImage(r, conf)
      ensures forall y, x {:trigger r[y][x]} :: InGrid(conf, y, x) ==>
        (r[y][x] == 0 <==> sparseDisparityMap[y][x] == 0) && (sparseDisparityMap[y][x] != 0 ==> 65 <= r[y][x])
    {
      DisparityVisual(sparseDisparityMap, conf)
    }

    /** `getReconsImg()`. */
    function GetReconsImg(): (r: Grid<Colour>)
      reads this
      requires Valid()
      ensures Shaped(r, cap)
    {
      reconsImg
    }
  }
}
