/** The stages of `DepthEstimator::setFrame` as functions from the
    estimator's buffers before a stage to its buffers after it. The OpenCV
    calls whose arithmetic is not modelled (the remaps through the lookup
    tables, the gradient, grey and box filters of the cost and of the edge
    map, and the OpenCL bilateral filter) are supplied as the functions of an
    `Ops` value, constrained only by the sizes they produce. */
module Pipeline {
  import opened Images
  import opened Restoration
  import opened WinnerTakeAll

  /** The opaque image operations of the estimator. */
  datatype Ops = Ops(
    // remap(m_img, m_imgRectified, m_tformInd1, m_tformInd2, INTER_LINEAR)
    rectify: Grid<Colour> -> Grid<Colour>,
    // filter2D with both gradient kernels, add, cvtColor to grey, box filter winSize x 1 then 1 x winSize
    cost: Grid<Colour> -> Grid<int>,
    // remap(.., m_invInd1, m_invInd2, INTER_LINEAR): back to the captured geometry
    unwarp: Grid<Colour> -> Grid<Colour>,
    // remap(.., m_invIndMask1, m_invIndMask2, INTER_LINEAR): to the mask geometry
    unwarpConf: Grid<Colour> -> Grid<Colour>,
    // remap(.., m_invIndMask1, noArray(), INTER_NEAREST) of a single-channel map
    unwarpConfNearest: Grid<int> -> Grid<int>,
    // filter2D with both gradient kernels, add, cvtColor to grey
    edges: Grid<Colour> -> Grid<int>,
    // the `bilateralFilter` kernel: scaled disparity map and guide image to filtered map
    bilateral: (Grid<int>, Grid<Colour>) -> Grid<int>)

  /** What the model relies on about the opaque operations: the sizes and
      8-bit ranges OpenCV gives their outputs, and that the filter kernel
      leaves a pixel whose disparity is zero (masked out) at zero. */
  ghost predicate OpsFit(ops: Ops, cap: Dims, rect: Dims, conf: Dims)
  {
    && (forall g {:trigger ops.rectify(g)} :: Shaped(g, cap) ==> IsColourImage(ops.rectify(g), rect))
    && (forall g {:trigger ops.cost(g)} :: Shaped(g, rect) ==> IsByteImage(ops.cost(g), rect))
    && (forall g {:trigger ops.unwarp(g)} :: Shaped(g, rect) ==> IsColourImage(ops.unwarp(g), cap))
    && (forall g {:trigger ops.unwarpConf(g)} :: Shaped(g, rect) ==> IsColourImage(ops.unwarpConf(g), conf))
    && (forall g {:trigger ops.unwarpConfNearest(g)} :: Shaped(g, rect) ==> Shaped(ops.unwarpConfNearest(g), conf))
    && (forall g {:trigger ops.unwarpConfNearest(g)} :: IsByteImage(g, rect) ==> IsByteImage(ops.unwarpConfNearest(g), conf))
    && (forall g {:trigger ops.edges(g)} :: Shaped(g, conf) ==> IsByteImage(ops.edges(g), conf))
    && (forall g, c {:trigger ops.bilateral(g, c)} :: Shaped(g, conf) && Shaped(c, conf) ==> IsByteImage(ops.bilateral(g, c), conf))
    && (forall g, c, y, x {:trigger ops.bilateral(g, c)[y][x]} ::
          Shaped(g, conf) && Shaped(c, conf) && InGrid(conf, y, x) && g[y][x] == 0 ==> ops.bilateral(g, c)[y][x] == 0)
  }

  /** The estimator's parameters once constructed. `cap` is the captured
      geometry (`m_invInd1`), `rect` the rectified one (`m_tformInd1`) and
      `conf` the reduced geometry of the mask (`m_invIndMask1`). */
  datatype Config = Config(
    tau: real, winSize: int, threshGrad: int, threshCost: int,
    disparities: seq<real>, disparityFiltering: bool,
    cap: Dims, rect: Dims, conf: Dims, ops: Ops)

  /** `int(float(m_winSize * confCols) / (rectCols * 2))`: half the cost
      window, measured in columns of the mask geometry. */
  function Displacement(winSize: int, confCols: nat, rectCols: nat): int
    requires rectCols > 0
  {
    Trunc((winSize * confCols) as real / (rectCols * 2) as real)
  }

  /** Every disparity candidate's two shifted bands are valid `Rect`s. */
  predicate AllShiftsFit(ds: seq<real>, cols: nat)
  {
    forall i {:trigger ds[i]} :: 0 <= i < |ds| ==> ShiftsFit(ds[i], cols)
  }

  /** What the stages need of the parameters: at least one candidate, bands
      that fit, an image large enough for the boundary patch, a displacement
      that fits the mask, and 8-bit thresholds. */
  ghost predicate ConfigValid(cfg: Config)
  {
    && |cfg.disparities| >= 1
    && AllShiftsFit(cfg.disparities, cfg.rect.cols)
    && cfg.cap.rows >= 5 && cfg.cap.cols >= 40
    && cfg.rect.cols > 0
    && 0 <= Displacement(cfg.winSize, cfg.conf.cols, cfg.rect.cols) <= cfg.conf.cols
    && IsByte(cfg.threshGrad) && IsByte(cfg.threshCost)
    && OpsFit(cfg.ops, cfg.cap, cfg.rect, cfg.conf)
  }

  /** `m_zCount`. */
  function ZCountOf(cfg: Config): nat
  {
    |cfg.disparities|
  }

  /** The buffers that carry data from one stage, or one frame, to the next. */
  datatype Buffers = Buffers(
    img: Grid<Colour>, imgRectified: Grid<Colour>, translatedImg: Grid<Colour>,
    minCost: Grid<int>, maxCost: Grid<int>, fullDisparityMap: Grid<int>,
    reconsImgRectified: Grid<Colour>, reconsImg: Grid<Colour>, reconsImgConf: Grid<Colour>,
    fullDisparityMapConf: Grid<int>, confidence: Grid<int>, minCostConf: Grid<int>,
    sparseDisparityMap: Grid<int>)

  /** Every buffer has the size the constructor allocates it with. */
  predicate BuffersFit(b: Buffers, cfg: Config)
  {
    && Shaped(b.img, cfg.cap) && Shaped(b.reconsImg, cfg.cap)
    && Shaped(b.imgRectified, cfg.rect) && Shaped(b.translatedImg, cfg.rect)
    && Shaped(b.minCost, cfg.rect) && Shaped(b.maxCost, cfg.rect)
    && Shaped(b.fullDisparityMap, cfg.rect) && Shaped(b.reconsImgRectified, cfg.rect)
    && Shaped(b.reconsImgConf, cfg.conf) && Shaped(b.fullDisparityMapConf, cfg.conf)
    && Shaped(b.confidence, cfg.conf) && Shaped(b.minCostConf, cfg.conf)
    && Shaped(b.sparseDisparityMap, cfg.conf)
  }

  /** The buffers as the constructor leaves them: all zero. */
  function ZeroBuffers(cap: Dims, rect: Dims, conf: Dims): (b: Buffers)
    ensures forall cfg: Config :: cfg.cap == cap && cfg.rect == rect && cfg.conf == conf ==> BuffersFit(b, cfg)
  {
    var black := Colour(0, 0, 0);
    Buffers(Fill(cap, black), Fill(rect, black), Fill(rect, black),
            Fill(rect, 0), Fill(rect, 0), Fill(rect, 0),
            Fill(rect, black), Fill(cap, black), Fill(conf, black),
            Fill(conf, 0), Fill(conf, 0), Fill(conf, 0), Fill(conf, 0))
  }

  // ---------------------------------------------------------------------
  // reconstructDepthAndColour

  /** The translation handle after a run of candidates, and the restoration
      of each candidate in turn. */
  datatype ChainResult = ChainResult(translated: Grid<Colour>, candidates: seq<Grid<Colour>>)

  /** `restoreImage` for the candidates `ds` in order; the handle
      `m_translatedImg` is threaded from one call to the next. */
  function Chain(ds: seq<real>, tau: real, img: Grid<Colour>, handle: Grid<Colour>, d: Dims): (r: ChainResult)
    requires Shaped(img, d) && Shaped(handle, d) && AllShiftsFit(ds, d.cols)
    ensures Shaped(r.translated, d) && |r.candidates| == |ds| && AllShapedGrids(r.candidates, d)
  {
    var n := |ds|;
    if n == 0 then ChainResult(handle, [])
    else
      var prev := Chain(ds[..n - 1], tau, img, handle, d);
      var s := Restored(ds[n - 1], tau, img, prev.translated, d);
      ChainResult(s.translated, prev.candidates + [s.candidate])
  }

  /** Candidate i is the restoration for disparity `ds[i]` from the handle the
      first i candidates left behind. */
  lemma {:induction false} ChainCandidate(ds: seq<real>, tau: real, img: Grid<Colour>, handle: Grid<Colour>, d: Dims, i: nat)
    requires Shaped(img, d) && Shaped(handle, d) && AllShiftsFit(ds, d.cols) && i < |ds|
    ensures Chain(ds, tau, img, handle, d).candidates[i]
      == Restored(ds[i], tau, img, Chain(ds[..i], tau, img, handle, d).translated, d).candidate
  {
    var n := |ds|;
    assert ds[..n - 1][..i] == ds[..i];
    if i < n - 1 {
      ChainCandidate(ds[..n - 1], tau, img, handle, d, i);
    } else {
      assert ds[..i] == ds[..n - 1];
    }
  }

  /** One more candidate extends the chain by its restoration. */
  lemma ChainSnoc(ds: seq<real>, tau: real, img: Grid<Colour>, handle: Grid<Colour>, d: Dims, i: nat)
    requires Shaped(img, d) && Shaped(handle, d) && AllShiftsFit(ds, d.cols) && i < |ds|
    ensures var prev := Chain(ds[..i], tau, img, handle, d);
      var s := Restored(ds[i], tau, img, prev.translated, d);
      Chain(ds[..i + 1], tau, img, handle, d) == ChainResult(s.translated, prev.candidates + [s.candidate])
  {
    assert ds[..i + 1][..i] == ds[..i];
  }

  /** The cost of each candidate. */
  function Costs(ops: Ops, candidates: seq<Grid<Colour>>): (r: seq<Grid<int>>)
    ensures |r| == |candidates|
    ensures forall i :: 0 <= i < |r| ==> r[i] == ops.cost(candidates[i])
  {
    var n := |candidates|;
    if n == 0 then [] else Costs(ops, candidates[..n - 1]) + [ops.cost(candidates[n - 1])]
  }

  /** The one property of the cost operator the candidate loop relies on: it
      keeps the geometry of the rectified image. */
  ghost predicate CostFits(ops: Ops, rect: Dims)
  {
    forall g {:trigger ops.cost(g)} :: Shaped(g, rect) ==> Shaped(ops.cost(g), rect)
  }

  lemma ConfigCostFits(cfg: Config)
    requires ConfigValid(cfg)
    ensures CostFits(cfg.ops, cfg.rect)
  {
    forall g | Shaped(g, cfg.rect)
      ensures Shaped(cfg.ops.cost(g), cfg.rect)
    {
      assert IsByteImage(cfg.ops.cost(g), cfg.rect);
    }
  }

  lemma CostsShaped(ops: Ops, rect: Dims, candidates: seq<Grid<Colour>>)
    requires CostFits(ops, rect) && AllShapedGrids(candidates, rect)
    ensures AllShapedGrids(Costs(ops, candidates), rect)
  {
    var cs := Costs(ops, candidates);
    forall i | 0 <= i < |cs|
      ensures Shaped(cs[i], rect)
    {
      assert Shaped(candidates[i], rect);
    }
  }

  function ReconstructStage(cfg: Config, b: Buffers): (r: Buffers)
    requires ConfigValid(cfg) && BuffersFit(b, cfg)
    ensures BuffersFit(r, cfg)
  {
    var ch := Chain(cfg.disparities, cfg.tau, b.imgRectified, b.translatedImg, cfg.rect);
    var costs := Costs(cfg.ops, ch.candidates);
    assert AllShapedGrids(costs, cfg.rect) by { ConfigCostFits(cfg); CostsShaped(cfg.ops, cfg.rect, ch.candidates); }
    var w := Wta(costs, ch.candidates, cfg.rect);
    b.(translatedImg := ch.translated, minCost := w.minCost, maxCost := w.maxCost,
       fullDisparityMap := w.disparity, reconsImgRectified := w.best)
  }

  /** The reconstruction stage, given the chain of restorations and the
      selection over them. */
  lemma ReconstructStageOf(cfg: Config, b: Buffers, handle: Grid<Colour>, cands: seq<Grid<Colour>>, w: WtaState)
    requires ConfigValid(cfg) && BuffersFit(b, cfg)
    requires Chain(cfg.disparities, cfg.tau, b.imgRectified, b.translatedImg, cfg.rect) == ChainResult(handle, cands)
    requires AllShapedGrids(Costs(cfg.ops, cands), cfg.rect)
    requires w == Wta(Costs(cfg.ops, cands), cands, cfg.rect)
    ensures ReconstructStage(cfg, b) == b.(translatedImg := handle, minCost := w.minCost, maxCost := w.maxCost,
                                           fullDisparityMap := w.disparity, reconsImgRectified := w.best)
  {
  }

  /** The costs of all candidates of the current frame at pixel (y, x). */
  function FrameCosts(cfg: Config, b: Buffers, y: nat, x: nat): seq<int>
    requires ConfigValid(cfg) && BuffersFit(b, cfg) && InGrid(cfg.rect, y, x)
  {
    var ch := Chain(cfg.disparities, cfg.tau, b.imgRectified, b.translatedImg, cfg.rect);
    ConfigCostFits(cfg);
    CostsShaped(cfg.ops, cfg.rect, ch.candidates);
    PixelCosts(Costs(cfg.ops, ch.candidates), cfg.rect, y, x)
  }

  /** Per pixel, the reconstruction keeps the least and greatest cost over
      all candidates, the 1-based index of the last candidate with the least
      cost (at most `zCount`, at least 1, when it fits in 8 bits), and that
      candidate's restoration. */
  lemma ReconstructAtPixel(cfg: Config, b: Buffers, y: nat, x: nat, r: Buffers, ch: ChainResult, p: seq<int>)
    requires ConfigValid(cfg) && BuffersFit(b, cfg) && InGrid(cfg.rect, y, x)
    requires r == ReconstructStage(cfg, b) && p == FrameCosts(cfg, b, y, x)
    requires ch == Chain(cfg.disparities, cfg.tau, b.imgRectified, b.translatedImg, cfg.rect)
    ensures |p| == ZCountOf(cfg) == |ch.candidates|
    ensures r.minCost[y][x] == MinOf(p) && r.maxCost[y][x] == MaxOf(p)
    ensures r.fullDisparityMap[y][x] == Sat(LastArgMin(p) + 1)
    ensures r.reconsImgRectified[y][x] == ch.candidates[LastArgMin(p)][y][x]
    ensures ZCountOf(cfg) <= 255 ==> 1 <= r.fullDisparityMap[y][x] <= ZCountOf(cfg)
  {
    ConfigCostFits(cfg);
    CostsShaped(cfg.ops, cfg.rect, ch.candidates);
    var costs := Costs(cfg.ops, ch.candidates);
    var w := Wta(costs, ch.candidates, cfg.rect);
    ReconstructIsWta(cfg, b, r, ch, costs, w);
    FrameCostsArePixelCosts(cfg, b, y, x, ch, costs, p);
    WtaPixel(costs, ch.candidates, cfg.rect, y, x, w, p);
  }

  lemma ReconstructIsWta(cfg: Config, b: Buffers, r: Buffers, ch: ChainResult, costs: seq<Grid<int>>, w: WtaState)
    requires ConfigValid(cfg) && BuffersFit(b, cfg)
    requires r == ReconstructStage(cfg, b)
    requires ch == Chain(cfg.disparities, cfg.tau, b.imgRectified, b.translatedImg, cfg.rect)
    requires costs == Costs(cfg.ops, ch.candidates) && AllShapedGrids(costs, cfg.rect)
    requires w == Wta(costs, ch.candidates, cfg.rect)
    ensures r.minCost == w.minCost && r.maxCost == w.maxCost && r.fullDisparityMap == w.disparity && r.reconsImgRectified == w.best
  {
  }

  lemma FrameCostsArePixelCosts(cfg: Config, b: Buffers, y: nat, x: nat, ch: ChainResult, costs: seq<Grid<int>>, p: seq<int>)
    requires ConfigValid(cfg) && BuffersFit(b, cfg) && InGrid(cfg.rect, y, x)
    requires ch == Chain(cfg.disparities, cfg.tau, b.imgRectified, b.translatedImg, cfg.rect)
    requires costs == Costs(cfg.ops, ch.candidates) && AllShapedGrids(costs, cfg.rect)
    requires p == FrameCosts(cfg, b, y, x)
    ensures p == PixelCosts(costs, cfg.rect, y, x)
  {
  }

  /** `WtaAtPixel` and `WtaIndexInRange` for a named state and cost sequence. */
  lemma WtaPixel(costs: seq<Grid<int>>, candidates: seq<Grid<Colour>>, d: Dims, y: nat, x: nat, w: WtaState, p: seq<int>)
    requires |costs| > 0 && AllShaped(costs, candidates, d) && InGrid(d, y, x)
    requires w == Wta(costs, candidates, d) && p == PixelCosts(costs, d, y, x)
    ensures |p| == |costs|
    ensures w.minCost[y][x] == MinOf(p) && w.maxCost[y][x] == MaxOf(p)
    ensures w.disparity[y][x] == Sat(LastArgMin(p) + 1)
    ensures w.best[y][x] == candidates[LastArgMin(p)][y][x]
    ensures |costs| <= 255 ==> 1 <= w.disparity[y][x] <= |costs|
  {
    WtaAtPixel(costs, candidates, d, y, x);
    if |costs| <= 255 {
      WtaIndexInRange(costs, candidates, d, y, x);
    }
  }

  /** A pixel where every candidate costs the same gets the last candidate
      `zCount` (saturated to 8 bits), and its cost spread is zero. */
  lemma TiedPixelPicksLastCandidate(cfg: Config, b: Buffers, y: nat, x: nat)
    requires ConfigValid(cfg) && BuffersFit(b, cfg) && InGrid(cfg.rect, y, x)
    requires forall i :: 0 <= i < ZCountOf(cfg) ==> FrameCosts(cfg, b, y, x)[i] == FrameCosts(cfg, b, y, x)[0]
    ensures var r := ReconstructStage(cfg, b);
      r.fullDisparityMap[y][x] == Sat(ZCountOf(cfg)) && r.minCost[y][x] == r.maxCost[y][x]
  {
    var ch := Chain(cfg.disparities, cfg.tau, b.imgRectified, b.translatedImg, cfg.rect);
    var costs := Costs(cfg.ops, ch.candidates);
    ConfigCostFits(cfg);
    CostsShaped(cfg.ops, cfg.rect, ch.candidates);
    assert forall i :: 0 <= i < |costs| ==> costs[i][y][x] == FrameCosts(cfg, b, y, x)[i];
    WtaTiedPixel(costs, ch.candidates, cfg.rect, y, x);
  }

  // ---------------------------------------------------------------------
  // unwarpAndFixColour

  /** A pixel of the band the restoration cannot handle: the top and bottom
      5 rows and the right-most 40 columns. */
  predicate InBoundary(d: Dims, y: int, x: int)
  {
    y < 5 || y >= d.rows - 5 || x >= d.cols - 40
  }

  /** The three `copyTo`s that put the captured image back in the boundary band. */
  function PatchBoundary(recons: Grid<Colour>, img: Grid<Colour>, d: Dims): (r: Grid<Colour>)
    requires Shaped(recons, d) && Shaped(img, d) && d.rows >= 5 && d.cols >= 40
    ensures Shaped(r, d)
    ensures forall y, x {:trigger r[y][x]} :: InGrid(d, y, x) ==> r[y][x] == if InBoundary(d, y, x) then img[y][x] else recons[y][x]
  {
    var top := CopyRect(recons, img, d, 0, 0, 5, d.cols);
    var bottom := CopyRect(top, img, d, d.rows - 5, 0, 5, d.cols);
    CopyRect(bottom, img, d, 0, d.cols - 40, d.rows, 40)
  }

  /** `(1 + tau) / (1 + tau^4)`: the intensity lost by the restoration and by
      removing the second ray. */
  function IntensityFactor(tau: real): real
  {
    (1.0 + tau) / (1.0 + tau * tau * tau * tau)
  }

  /** The colour half of `unwarpAndFixColour`: the intensity correction,
      both remaps of the restored image and the boundary patch. */
  function UnwarpColourStage(cfg: Config, b: Buffers): (r: Buffers)
    requires ConfigValid(cfg) && BuffersFit(b, cfg)
    ensures BuffersFit(r, cfg)
  {
    var ops := cfg.ops;
    var reconsRect := ScaleColourImage(b.reconsImgRectified, IntensityFactor(cfg.tau), cfg.rect);
    b.(reconsImgRectified := reconsRect,
       reconsImg := PatchBoundary(ops.unwarp(reconsRect), b.img, cfg.cap),
       reconsImgConf := ops.unwarpConf(reconsRect))
  }

  /** The map half: the nearest-neighbour remaps of the index map and of both
      cost bounds to the mask geometry. */
  function UnwarpMapsStage(cfg: Config, b: Buffers): (r: Buffers)
    requires ConfigValid(cfg) && BuffersFit(b, cfg)
    ensures BuffersFit(r, cfg)
  {
    var ops := cfg.ops;
    b.(fullDisparityMapConf := ops.unwarpConfNearest(b.fullDisparityMap),
       confidence := ops.unwarpConfNearest(b.maxCost),
       minCostConf := ops.unwarpConfNearest(b.minCost))
  }

  /** `unwarpAndFixColour`: the two halves touch disjoint buffers, so their
      order does not matter. */
  function UnwarpStage(cfg: Config, b: Buffers): (r: Buffers)
    requires ConfigValid(cfg) && BuffersFit(b, cfg)
    ensures BuffersFit(r, cfg)
  {
    UnwarpMapsStage(cfg, UnwarpColourStage(cfg, b))
  }

  /** In the boundary band the restored image is the captured image; elsewhere
      it is the intensity-corrected restoration taken back to the captured
      geometry. */
  lemma UnwarpKeepsBoundary(cfg: Config, b: Buffers, y: nat, x: nat)
    requires ConfigValid(cfg) && BuffersFit(b, cfg) && InGrid(cfg.cap, y, x)
    ensures var r := UnwarpStage(cfg, b);
      r.reconsImg[y][x] == if InBoundary(cfg.cap, y, x) then b.img[y][x] else cfg.ops.unwarp(r.reconsImgRectified)[y][x]
  {
  }

  // ---------------------------------------------------------------------
  // maskDisparityMap

  function MaskDisplacement(cfg: Config): int
    requires cfg.rect.cols > 0
  {
    Displacement(cfg.winSize, cfg.conf.cols, cfg.rect.cols)
  }

  /** A pixel is reliable when the (shifted) worst cost is at least 2, the
      (unshifted) spread between worst and best cost exceeds `threshCost`, and
      the restored image has an edge of strength `threshGrad` there. */
  predicate Reliable(cfg: Config, b: Buffers, y: nat, x: nat)
    requires ConfigValid(cfg) && BuffersFit(b, cfg) && InGrid(cfg.conf, y, x)
  {
    var disp := MaskDisplacement(cfg);
    var worst := if x >= disp then b.confidence[y][x - disp] else b.confidence[y][x];
    && worst >= 2
    && Sat(b.confidence[y][x] - b.minCostConf[y][x]) > cfg.threshCost
    && cfg.ops.edges(b.reconsImgConf)[y][x] >= cfg.threshGrad
  }

  /** The cost part of the confidence map: the spread `worst - best` at or
      below `threshCost` masks a pixel out, and so does a worst cost, shifted
      right by `disp` columns, below 2 (the saturating `- 1` leaves it at 0);
      what remains is set to 1. */
  function CostConfidence(worst: Grid<int>, best: Grid<int>, disp: int, threshCost: int, d: Dims): (c: Grid<int>)
    requires Shaped(worst, d) && Shaped(best, d) && 0 <= disp <= d.cols
    ensures Shaped(c, d)
    ensures forall y, x {:trigger c[y][x]} :: InGrid(d, y, x) ==>
      c[y][x] == if (if x >= disp then worst[y][x - disp] else worst[y][x]) >= 2
                    && Sat(worst[y][x] - best[y][x]) > threshCost then 1 else 0
  {
    var spread := SatSubImage(worst, best, d);
    var lowSpread := CompareLE(spread, threshCost, d);
    var shifted := ShiftColumns(worst, worst, d, disp);
    var c1 := SatAddScalar(shifted, -1, d);
    var c2 := SetMasked(c1, 0, lowSpread, d);
    SetMasked(c2, 1, NonZero(c2, d), d)
  }

  /** The edge part of the confidence map: pixels whose edge response is
      below `threshGrad` are set to 0. */
  function EdgeGate(c: Grid<int>, edges: Grid<int>, threshGrad: int, d: Dims): (r: Grid<int>)
    requires Shaped(c, d) && Shaped(edges, d)
    ensures Shaped(r, d)
    ensures forall y, x {:trigger r[y][x]} :: InGrid(d, y, x) ==> r[y][x] == if edges[y][x] < threshGrad then 0 else c[y][x]
  {
    SetMasked(c, 0, CompareLT(edges, threshGrad, d), d)
  }

  /** The confidence map before the erosion. It is 1 exactly at the reliable
      pixels and 0 elsewhere. */
  function RawConfidence(cfg: Config, b: Buffers): (c: Grid<int>)
    requires ConfigValid(cfg) && BuffersFit(b, cfg)
    ensures Shaped(c, cfg.conf)
    ensures forall y, x {:trigger c[y][x]} :: InGrid(cfg.conf, y, x) ==> c[y][x] == if Reliable(cfg, b, y, x) then 1 else 0
  {
    var d := cfg.conf;
    var c3 := CostConfidence(b.confidence, b.minCostConf, MaskDisplacement(cfg), cfg.threshCost, d);
    EdgeGate(c3, cfg.ops.edges(b.reconsImgConf), cfg.threshGrad, d)
  }

  function MaskStage(cfg: Config, b: Buffers): (r: Buffers)
    requires ConfigValid(cfg) && BuffersFit(b, cfg)
    ensures BuffersFit(r, cfg)
  {
    var d := cfg.conf;
    var spread := SatSubImage(b.confidence, b.minCostConf, d);
    var full := ShiftColumns(b.fullDisparityMapConf, b.fullDisparityMapConf, d, MaskDisplacement(cfg));
    var confidence := Erode2x2(RawConfidence(cfg, b), d);
    b.(minCostConf := spread, confidence := confidence,
       fullDisparityMapConf := SetMasked(full, 0, CompareEQ(confidence, 0, d), d))
  }

  /** The confidence map is 1 exactly where the pixel and its in-range upper,
      left and upper-left neighbours are all reliable, and 0 elsewhere. */
  lemma MaskConfidenceExact(cfg: Config, b: Buffers, y: nat, x: nat)
    requires ConfigValid(cfg) && BuffersFit(b, cfg) && InGrid(cfg.conf, y, x)
    ensures var c := MaskStage(cfg, b).confidence;
      && (c[y][x] == 0 || c[y][x] == 1)
      && (c[y][x] == 1 <==>
            && Reliable(cfg, b, y, x)
            && (y > 0 ==> Reliable(cfg, b, y - 1, x))
            && (x > 0 ==> Reliable(cfg, b, y, x - 1))
            && (y > 0 && x > 0 ==> Reliable(cfg, b, y - 1, x - 1)))
  {
    var raw := RawConfidence(cfg, b);
    ErodeIsWindowMinimum(raw, cfg.conf, y, x);
  }

  /** The disparity map of the mask geometry is zeroed exactly where the
      confidence is zero, and elsewhere is the remapped map shifted right by
      the displacement. */
  lemma MaskedDisparityMap(cfg: Config, b: Buffers, y: nat, x: nat)
    requires ConfigValid(cfg) && BuffersFit(b, cfg) && InGrid(cfg.conf, y, x)
    ensures var r := MaskStage(cfg, b); var disp := MaskDisplacement(cfg);
      r.fullDisparityMapConf[y][x]
      == if r.confidence[y][x] == 0 then 0
         else if x >= disp then b.fullDisparityMapConf[y][x - disp] else b.fullDisparityMapConf[y][x]
  {
  }

  /** When the worst and best cost agree everywhere, no pixel is reliable: the
      confidence and the masked disparity map are zero everywhere. */
  lemma NoSpreadNoConfidence(cfg: Config, b: Buffers)
    requires ConfigValid(cfg) && BuffersFit(b, cfg)
    requires b.confidence == b.minCostConf
    ensures var r := MaskStage(cfg, b);
      r.confidence == Fill(cfg.conf, 0) && r.fullDisparityMapConf == Fill(cfg.conf, 0)
  {
    var r := MaskStage(cfg, b);
    forall y, x | InGrid(cfg.conf, y, x)
      ensures r.confidence[y][x] == 0
    {
      MaskConfidenceExact(cfg, b, y, x);
    }
    GridEquality(r.confidence, Fill(cfg.conf, 0), cfg.conf);
    GridEquality(r.fullDisparityMapConf, Fill(cfg.conf, 0), cfg.conf);
  }

  // ---------------------------------------------------------------------
  // filterDisparity

  /** `255 / m_zCount`: candidate indices to the 8-bit range. */
  function IndexScale(cfg: Config): real
    requires |cfg.disparities| >= 1
  {
    255.0 / (ZCountOf(cfg) as real)
  }

  /** The outlier removal after the GPU filter: the absolute difference
      between the scaled and the filtered map, and the filtered map with the
      pixels that moved by more than 6 set to zero. */
  datatype Filtered = Filtered(diff: Grid<int>, sparse: Grid<int>)

  function RemoveOutliers(scaled: Grid<int>, filtered: Grid<int>, d: Dims): (r: Filtered)
    requires Shaped(scaled, d) && Shaped(filtered, d)
    ensures Shaped(r.diff, d) && Shaped(r.sparse, d)
    ensures forall y, x {:trigger r.diff[y][x]} :: InGrid(d, y, x) ==> r.diff[y][x] == Abs(scaled[y][x] - filtered[y][x])
    ensures forall y, x {:trigger r.sparse[y][x]} :: InGrid(d, y, x) ==>
      r.sparse[y][x] == if Abs(scaled[y][x] - filtered[y][x]) > 6 then 0 else filtered[y][x]
  {
    var diff := AbsDiffImage(scaled, filtered, d);
    Filtered(diff, SetMasked(filtered, 0, CompareGT(diff, 6, d), d))
  }

  function FilterStage(cfg: Config, b: Buffers): (r: Buffers)
    requires ConfigValid(cfg) && BuffersFit(b, cfg)
    ensures BuffersFit(r, cfg)
  {
    var d := cfg.conf;
    var scaled := ScaleImage(b.fullDisparityMapConf, IndexScale(cfg), d);
    if cfg.disparityFiltering then
      var f := RemoveOutliers(scaled, cfg.ops.bilateral(scaled, b.reconsImgConf), d);
      b.(fullDisparityMapConf := f.diff, sparseDisparityMap := f.sparse)
    else
      b.(sparseDisparityMap := scaled)
  }

  lemma ScaleKeepsNonZero(v: int, s: real)
    requires 1 <= v && s >= 1.0
    ensures Scale(v, s) >= 1
  {
    assert s * v as real >= 1.0 by { ScaleWeakInt(1.0, s, v); }
    RoundNearestClose(s * v as real);
  }

  lemma ScaleWeakInt(s: real, t: real, v: int)
    requires s <= t && v >= 1
    ensures s * v as real <= t * v as real
  {
    assert (t - s) * v as real >= 0.0;
  }

  /** Without the GPU filter, a pixel of the output map is zero exactly when
      its index is zero (masked out), as long as the indices fit in 8 bits. */
  lemma FallbackKeepsMask(cfg: Config, b: Buffers, y: nat, x: nat)
    requires ConfigValid(cfg) && BuffersFit(b, cfg) && InGrid(cfg.conf, y, x)
    requires !cfg.disparityFiltering && ZCountOf(cfg) <= 255
    requires 0 <= b.fullDisparityMapConf[y][x]
    ensures FilterStage(cfg, b).sparseDisparityMap[y][x] == 0 <==> b.fullDisparityMapConf[y][x] == 0
  {
    var v := b.fullDisparityMapConf[y][x];
    assert IndexScale(cfg) >= 1.0;
    if v >= 1 {
      ScaleKeepsNonZero(v, IndexScale(cfg));
    }
  }

  /** With the GPU filter, a surviving pixel is the filtered value and lies
      within 6 of the scaled index; a masked-out pixel stays zero. The
      disparity map of the mask geometry is left holding the differences. */
  lemma FilterRemovesOutliers(cfg: Config, b: Buffers, y: nat, x: nat)
    requires ConfigValid(cfg) && BuffersFit(b, cfg) && InGrid(cfg.conf, y, x)
    requires cfg.disparityFiltering
    ensures var r := FilterStage(cfg, b);
      var scaled := Scale(b.fullDisparityMapConf[y][x], IndexScale(cfg));
      var filtered := cfg.ops.bilateral(ScaleImage(b.fullDisparityMapConf, IndexScale(cfg), cfg.conf), b.reconsImgConf);
      && r.fullDisparityMapConf[y][x] == Abs(scaled - filtered[y][x])
      && (r.sparseDisparityMap[y][x] == if Abs(scaled - filtered[y][x]) > 6 then 0 else filtered[y][x])
      && (r.sparseDisparityMap[y][x] != 0 ==> Abs(scaled - r.sparseDisparityMap[y][x]) <= 6)
      && (b.fullDisparityMapConf[y][x] == 0 ==> r.sparseDisparityMap[y][x] == 0)
  {
  }

  // ---------------------------------------------------------------------
  // setFrame

  /** `setFrame(img)`: rectify the frame, then the four stages in order. */
  function FrameStage(cfg: Config, b: Buffers, frame: Grid<Colour>): (r: Buffers)
    requires ConfigValid(cfg) && BuffersFit(b, cfg) && Shaped(frame, cfg.cap)
    ensures BuffersFit(r, cfg)
  {
    var loaded := b.(img := frame, imgRectified := cfg.ops.rectify(frame));
    FilterStage(cfg, MaskStage(cfg, UnwarpStage(cfg, ReconstructStage(cfg, loaded))))
  }

  /** A masked-out pixel stays zero in the output map, with or without the GPU filter. */
  lemma FilterKeepsZero(cfg: Config, b: Buffers, y: nat, x: nat)
    requires ConfigValid(cfg) && BuffersFit(b, cfg) && InGrid(cfg.conf, y, x)
    requires b.fullDisparityMapConf[y][x] == 0
    ensures FilterStage(cfg, b).sparseDisparityMap[y][x] == 0
  {
    if cfg.disparityFiltering {
      FilterRemovesOutliers(cfg, b, y, x);
    } else {
      assert Scale(0, IndexScale(cfg)) == 0;
    }
  }

  /** An all-zero disparity map of the mask geometry gives an all-zero output
      map, with or without the GPU filter. */
  lemma FilterKeepsEmptyMap(cfg: Config, b: Buffers)
    requires ConfigValid(cfg) && BuffersFit(b, cfg)
    requires b.fullDisparityMapConf == Fill(cfg.conf, 0)
    ensures FilterStage(cfg, b).sparseDisparityMap == Fill(cfg.conf, 0)
  {
    var r := FilterStage(cfg, b);
    forall y, x | InGrid(cfg.conf, y, x)
      ensures r.sparseDisparityMap[y][x] == 0
    {
      FilterKeepsZero(cfg, b, y, x);
    }
    GridEquality(r.sparseDisparityMap, Fill(cfg.conf, 0), cfg.conf);
  }

  /** Equal best and worst costs after the reconstruction leave nothing
      reliable, so the output map is empty. */
  lemma EqualCostBoundsGiveEmptyMap(cfg: Config, b: Buffers)
    requires ConfigValid(cfg) && BuffersFit(b, cfg)
    requires b.minCost == b.maxCost
    ensures FilterStage(cfg, MaskStage(cfg, UnwarpStage(cfg, b))).sparseDisparityMap == Fill(cfg.conf, 0)
  {
    var r2 := UnwarpStage(cfg, b);
    assert r2.confidence == r2.minCostConf;
    NoSpreadNoConfidence(cfg, r2);
    FilterKeepsEmptyMap(cfg, MaskStage(cfg, r2));
  }

  /** A frame on which every candidate costs the same at every pixel (a flat
      grey image, say) selects the last candidate everywhere and yields an
      empty output map: every pixel is unreliable. */
  lemma TiedFrameIsUnreliable(cfg: Config, b: Buffers, frame: Grid<Colour>)
    requires ConfigValid(cfg) && BuffersFit(b, cfg) && Shaped(frame, cfg.cap)
    requires var loaded := b.(img := frame, imgRectified := cfg.ops.rectify(frame));
      forall y, x, i :: InGrid(cfg.rect, y, x) && 0 <= i < ZCountOf(cfg) ==>
        FrameCosts(cfg, loaded, y, x)[i] == FrameCosts(cfg, loaded, y, x)[0]
    ensures var loaded := b.(img := frame, imgRectified := cfg.ops.rectify(frame));
      forall y, x :: InGrid(cfg.rect, y, x) ==> ReconstructStage(cfg, loaded).fullDisparityMap[y][x] == Sat(ZCountOf(cfg))
    ensures FrameStage(cfg, b, frame).sparseDisparityMap == Fill(cfg.conf, 0)
  {
    var loaded := b.(img := frame, imgRectified := cfg.ops.rectify(frame));
    var r1 := ReconstructStage(cfg, loaded);
    forall y, x | InGrid(cfg.rect, y, x)
      ensures r1.fullDisparityMap[y][x] == Sat(ZCountOf(cfg)) && r1.minCost[y][x] == r1.maxCost[y][x]
    {
      TiedPixelPicksLastCandidate(cfg, loaded, y, x);
    }
    GridEquality(r1.minCost, r1.maxCost, cfg.rect);
    EqualCostBoundsGiveEmptyMap(cfg, r1);
  }
}
