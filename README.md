# Single-shot monocular RGB-D estimation: a Dafny model of its core

The system recovers a depth map and a restored colour image from one photograph, taken through an uneven
birefractive plate. The plate overlays two copies of the scene: the ordinary ray, and the extraordinary
ray, which is attenuated by a factor τ and shifted horizontally by a disparity that depends on depth.

This project models the two classes that do that work:

- **`DepthEstimator`**, the per-frame pipeline on 8-bit images:
  - `setFrame` stores and rectifies the frame.
  - `reconstructDepthAndColour` restores the image once per depth candidate (`restoreImage`: two rounds of
    shift, τ-scale and saturating subtract/add), scores each restoration, and keeps per pixel the running
    minimum and maximum cost, the index of the winning candidate and its restored colour.
  - `unwarpAndFixColour` maps the results back to the capture geometry and patches the image boundary from
    the captured frame.
  - `maskDisparityMap` builds a binary confidence map from the cost spread, a right shift, an edge gate
    and a 2×2 erosion, and zeroes the index map where confidence is 0.
  - `filterDisparity` rescales the index map to 0..255 and removes outliers against the edge-aware filter
    output.
  - `getDepth` and `getDisparityMap` convert the result.
  - The constructor derives the odd cost window, the evenly spaced disparity candidates and the filter's
    table of spatial offsets.
- **`Rectifier`**, the offline builder of the lookup tables:
  - `buildRectification` normalises the calibration field by its mean horizontal displacement (the
    baseline) and builds the forward table column by column, starting from an identity column.
  - `reverseRectification` builds the inverse table. It scatters every inner entry of the enlarged forward
    table into the 3×3 cells around where it points, guarded by a per-cell best-distance table, then
    shrinks and rescales the result.

Images are values (`Grid<T> = seq<seq<T>>` with explicit `Dims`). The estimator is a class whose fields are
the buffers the stages overwrite. Each stage method is proved equal to a stage function of the buffers
(`Pipeline`), and the lemmas about those functions give the per-pixel properties. Loops the source runs
are methods with invariants:
- the candidate loop (`SelectCandidates`);
- the two rounds of `restoreImage`;
- the candidate list and the offset table;
- the forward table columns;
- the nested i/j/k scatter over `array2` tables.

The OpenCV primitives the code only calls are parameters with size and range conditions:
- `remap`, `resize`;
- the cost filter chain and the edge response;
- the GPU bilateral filter.

Floating-point values are reals. The rounding modes are written out:
- `saturate_cast`/`cvRound` rounds half to even;
- `int(x ± 0.5)` rounds half away from zero;
- `int(float)` truncates.

Two behaviours of the code the model keeps:
- **Ties in the winner-takes-all selection** go to the later candidate, because the running mask is
  `minCost >= cost`. A pixel where every cost ties selects the last candidate
  (`WinnerTakeAll.AllTiesPickLast`, `Pipeline.TiedFrameIsUnreliable`).
- **The candidate list** is arithmetic: `a + i·step`.

## Model

| member | source | states |
|---|---|---|
| Candidates.WindowSizeIsOdd | src/depth_estimator.cpp:43 | the cost window is always odd; for a nonnegative scaled size it is that size when odd and the next integer when even |
| Candidates.ZCountAtLeastTwo | src/depth_estimator.cpp:67-68 | when the disparity range a − b is at least 0.5 the truncated count is at least 2, and count − 1 is within half a pixel of a − b |
| Candidates.BuildCandidates | src/depth_estimator.cpp:67-74 | the candidate loop yields zCount entries `a + i·step`; the first is a, the last is exactly b, and every consecutive difference is the same strictly negative step |
| Candidates.EvenlySpaced | src/depth_estimator.cpp:69-74 | entries of the form `a + k·step` start at a, end at b and are evenly spaced and strictly decreasing |
| Candidates.LastCandidateIsB | src/depth_estimator.cpp:69-73 | `a + (zCount − 1)·step` is exactly b |
| Candidates.NegativeStep | src/depth_estimator.cpp:69 | the step is negative when b < a |
| Candidates.StepIsAboutOnePixel | src/depth_estimator.cpp:67-69 | the candidates are about one pixel apart: the step's magnitude lies in [0.5, 1.5) |
| Candidates.RowPointsLength | src/depth_estimator.cpp:164-172 | one row of the offset loop adds at most one point per column |
| Candidates.RowPointsMembers | src/depth_estimator.cpp:164-172 | a point is kept by a row of the loop exactly when it lies in that row, before the current column, and within radius 10 |
| Candidates.DiscPointsLength | src/depth_estimator.cpp:161-173 | the running index never exceeds 21 entries per finished row, so it stays inside the 21·21 arrays |
| Candidates.DiscPointsMembers | src/depth_estimator.cpp:162-173 | the points kept by the finished rows are exactly the in-disc points of those rows |
| Candidates.DiscIsTheWindowDisc | src/depth_estimator.cpp:162-168 | the kept points are exactly the (i, j) of the 21×21 window with i² + j² ≤ 100, and there are at most 21·21 of them |
| Candidates.SpatialOffsets | src/depth_estimator.cpp:157-173 | the offset loop fills arrays of 21·21 entries; its count is the number of disc points, entry k of `space_ofs1` is `i·step + j` for the k-th disc point and `space_ofs3` is three times that |
| Candidates.RowOffsets | src/depth_estimator.cpp:164-172 | one row of the offset loop extends the filled prefix by exactly that row's disc points, in order |
| Restoration.Round | src/depth_estimator.cpp:125-146 | one round keeps both images the frame's size with 8-bit channels |
| Restoration.RestoreImage | src/depth_estimator.cpp:118-151 | the two-round loop (disparity doubled, τ squared) leaves the handle and the candidate as the two-round restoration of the rectified image, with 8-bit channels; the rectified image is an input value and is not changed |
| Restoration.Restored | src/depth_estimator.cpp:121-150 | the two-round restoration of one candidate keeps the frame size, and the handle and the candidate hold 8-bit colour channels |
| Restoration.RoundAt | src/depth_estimator.cpp:125-146 | per pixel: a column whose source x − shift is in range takes the shifted candidate pixel scaled by τ, any other keeps its previous handle value scaled by τ, and the candidate becomes the saturating difference (round 0) or sum (round 1) |
| Restoration.SecondRoundTau | src/depth_estimator.cpp:149 | the second round uses τ² |
| Restoration.RestoredIsTwoRounds | src/depth_estimator.cpp:121-150 | the restoration is round 0 with shift round(disparity) and τ, subtracting, then round 1 with shift round(2·disparity) and τ², adding |
| Restoration.FirstRoundPixel | src/depth_estimator.cpp:126-144 | an interior pixel after round 0 is `sat(img[x] − sat(τ·img[x − d0]))` |
| Restoration.RestoredInterior | src/depth_estimator.cpp:121-149 | where all three source columns are in range, the restored pixel is `sat(R0[x] + sat(τ²·R0[x − d1]))` with R0 the first-round pixel |
| Restoration.TwoRoundsInterior | src/depth_estimator.cpp:143-146 | the same statement for any two shifts and factors |
| Restoration.SecondRoundPixel | src/depth_estimator.cpp:134-146 | an interior pixel after round 1 adds the scaled first-round pixel d1 columns to its left |
| Restoration.InteriorIgnoresStaleHandle | src/depth_estimator.cpp:129-136 | the handle's leftover columns affect only the band the shift does not reach: interior pixels are the same for any previous handle |
| Restoration.ZeroBlendPixel | src/depth_estimator.cpp:140-146 | with τ = 0 a round leaves every 8-bit pixel unchanged |
| Restoration.NoBlendRestoresInput | src/depth_estimator.cpp:121-149 | with τ = 0 the restoration returns the rectified image itself |
| WinnerTakeAll.LastArgMin | src/depth_estimator.cpp:224-228 | the selected index is a valid candidate index |
| WinnerTakeAll.LastArgMinIsLastMinimum | src/depth_estimator.cpp:213-228 | the selected cost is the minimum, every cost lies between minimum and maximum, every later candidate costs strictly more, and the maximum is attained |
| WinnerTakeAll.AllTiesPickLast | src/depth_estimator.cpp:224 | when all costs are equal the last candidate is selected, because the mask is `>=` |
| WinnerTakeAll.StrictWinnerPicked | src/depth_estimator.cpp:224-228 | a candidate strictly cheaper than all others is selected |
| WinnerTakeAll.WtaSeed | src/depth_estimator.cpp:213-220 | candidate 0 seeds minimum and maximum with its cost, the index map with 1 and the best image with its restoration |
| WinnerTakeAll.WtaStep | src/depth_estimator.cpp:221-232 | merging candidate z keeps all four buffers the frame's size |
| WinnerTakeAll.Wta | src/depth_estimator.cpp:197-233 | the selection over all candidates keeps all four buffers the frame's size |
| WinnerTakeAll.WtaAtPixel | src/depth_estimator.cpp:213-231 | after the loop a pixel holds the minimum and maximum of its costs, `sat(1 + last index of the minimum)` and that candidate's restored colour |
| WinnerTakeAll.WtaIndexInRange | src/depth_estimator.cpp:218-228 | with at most 255 candidates the index map lies in 1..zCount and minCost ≤ maxCost |
| WinnerTakeAll.WtaTiedPixel | src/depth_estimator.cpp:224-228 | a pixel where all costs tie selects zCount and has equal minimum and maximum |
| Pipeline.ZeroBuffers | src/depth_estimator.cpp:76-103 | the buffers the constructor zero-allocates have the three geometries' sizes |
| Pipeline.Chain | src/depth_estimator.cpp:197-200 | restoring the candidates in order, each from the handle the previous left, gives one restoration per candidate, all the frame's size |
| Pipeline.ChainCandidate | src/depth_estimator.cpp:197-200 | candidate i is the restoration of disparity i from the handle left by candidates 0..i − 1 |
| Pipeline.ChainSnoc | src/depth_estimator.cpp:197-200 | one more candidate extends the chain by its restoration and replaces the handle |
| Pipeline.Costs | src/depth_estimator.cpp:203-210 | one cost map per restoration, the cost operation applied to it |
| Pipeline.CostsShaped | src/depth_estimator.cpp:203-210 | cost maps have the frame's size |
| Pipeline.ReconstructStage | src/depth_estimator.cpp:195-234 | the reconstruction stage keeps every buffer its size |
| Pipeline.ReconstructStageOf | src/depth_estimator.cpp:195-234 | the stage changes exactly the handle and the four selection buffers, to the chain's handle and the selection over its costs |
| Pipeline.ReconstructAtPixel | src/depth_estimator.cpp:195-234 | after the stage a pixel holds the minimum and maximum over the zCount candidate costs, `sat(1 + last index of the minimum)` (in 1..zCount when zCount ≤ 255) and that candidate's restored colour |
| Pipeline.ReconstructIsWta | src/depth_estimator.cpp:197-233 | the stage's minimum, maximum, index and best buffers are exactly the winner-takes-all selection over the chain's cost maps |
| Pipeline.FrameCostsArePixelCosts | src/depth_estimator.cpp:203-210 | the costs of one pixel read from the frame are the per-candidate entries of the cost maps |
| Pipeline.WtaPixel | src/depth_estimator.cpp:213-231 | a pixel of the selection holds the minimum and maximum of its costs, `sat(1 + last index of the minimum)` and that candidate's colour |
| Pipeline.TiedPixelPicksLastCandidate | src/depth_estimator.cpp:224-228 | a pixel where every candidate costs the same gets index zCount and equal minimum and maximum |
| Pipeline.PatchBoundary | src/depth_estimator.cpp:249-253 | the top 5 rows, bottom 5 rows and rightmost 40 columns take the captured frame, every other pixel keeps the unwarped restoration |
| Pipeline.UnwarpColourStage | src/depth_estimator.cpp:239-253 | the colour part of `unwarpAndFixColour` keeps every buffer its size |
| Pipeline.UnwarpMapsStage | src/depth_estimator.cpp:244-246 | the nearest-neighbour remaps keep every buffer its size |
| Pipeline.UnwarpStage | src/depth_estimator.cpp:236-254 | the whole stage keeps every buffer its size |
| Pipeline.UnwarpKeepsBoundary | src/depth_estimator.cpp:249-253 | after the stage a boundary pixel of the restored image is the captured pixel and any other is the unwarped, intensity-corrected restoration |
| Pipeline.CostConfidence | src/depth_estimator.cpp:259-275 | before the edge gate, a pixel is 1 exactly when the shifted maximum cost is ≥ 2 and the unshifted `sat(max − min)` exceeds threshCost, else 0 |
| Pipeline.EdgeGate | src/depth_estimator.cpp:282-283 | pixels whose edge response is below threshGrad become 0, the others keep their value |
| Pipeline.RawConfidence | src/depth_estimator.cpp:259-283 | the pre-erosion confidence is 1 exactly at the reliable pixels (cost spread, shifted maximum and edge response all pass) and 0 elsewhere |
| Pipeline.MaskStage | src/depth_estimator.cpp:256-288 | the masking stage keeps every buffer its size |
| Pipeline.MaskConfidenceExact | src/depth_estimator.cpp:273-286 | the final confidence is 0 or 1, and 1 exactly when the pixel and its up, left and up-left neighbours (where they exist) are all reliable |
| Pipeline.MaskedDisparityMap | src/depth_estimator.cpp:264-287 | the index map is 0 where confidence is 0, and elsewhere the value displacement columns to the left (or its own for x < displacement) |
| Pipeline.NoSpreadNoConfidence | src/depth_estimator.cpp:259-287 | when the remapped maximum equals the remapped minimum everywhere, confidence and index map are all 0 |
| Pipeline.RemoveOutliers | src/depth_estimator.cpp:311-313 | the difference map is `|scaled − filtered|`, and the output is 0 where that exceeds 6 and the filtered value elsewhere |
| Pipeline.FilterStage | src/depth_estimator.cpp:290-318 | the filtering stage keeps every buffer its size |
| Pipeline.ScaleKeepsNonZero | src/depth_estimator.cpp:317 | rescaling a nonzero index by a factor of at least 1 keeps it nonzero |
| Pipeline.FallbackKeepsMask | src/depth_estimator.cpp:317 | without the GPU filter the output is 0 exactly where the index map is 0 |
| Pipeline.FilterRemovesOutliers | src/depth_estimator.cpp:298-313 | with the GPU filter: the difference buffer is `|scaled − filtered|`, the output is the filtered value or 0 past 6, a kept value is within 6 of the scaled index, and a masked-out pixel stays 0 |
| Pipeline.FilterKeepsZero | src/depth_estimator.cpp:298-317 | on both paths a pixel masked out before filtering is 0 in the output |
| Pipeline.FilterKeepsEmptyMap | src/depth_estimator.cpp:290-318 | an all-zero index map gives an all-zero output |
| Pipeline.FrameStage | src/depth_estimator.h:174-182 | the frame stage keeps every buffer its size |
| Pipeline.EqualCostBoundsGiveEmptyMap | src/depth_estimator.cpp:236-318 | when minimum and maximum cost agree everywhere, unwarp, mask and filter give an all-zero output |
| Pipeline.TiedFrameIsUnreliable | src/depth_estimator.h:174-182 | a frame on which every candidate costs the same at every pixel selects the last candidate everywhere and produces an all-zero output map |
| Outputs.DepthAt | src/depth_estimator.h:189-199 | a pixel's depth is 0 exactly when its value is 0; otherwise it is the reciprocal of the interpolated inverse depth of `v/255 − 1/zCount`, or infinite where that inverse depth is 0 |
| Outputs.DepthMap | src/depth_estimator.h:184-202 | the depth map has the output's size, is the per-pixel depth, and is 0 exactly where the output map is 0 |
| Outputs.TopIndexScalesTo255 | src/depth_estimator.cpp:298 | the largest index zCount rescales to 255 |
| Outputs.AsWrittenTopValueMissesMinDepth | src/depth_estimator.h:189-196 | as written the value 255 maps to `1 − 1/zCount`, below 1, so the nearest candidate never reaches the minimum depth |
| Outputs.AsWrittenTwoCandidates | src/depth_estimator.h:189-196 | a concrete two-candidate configuration whose top inverse depth misses `1/minDepth` |
| Outputs.IntendedScaleHitsCandidates | src/depth_estimator.h:189-196 | with the normalisation `(v/255 − 1/n)/(1 − 1/n)`, the unrounded value `255·k/n` of index k maps to `(k−1)/(n−1)`, whose inverse depth is exactly candidate k's, and 255 maps to 1 |
| Outputs.TopValueIsOne | src/depth_estimator.h:189-190 | under the corrected normalisation the value 255 maps to 1, meaning the minimum depth |
| Outputs.StoredIndexNearCandidate | src/depth_estimator.cpp:298 | the byte actually stored for index k, `sat(round(k·255/n))`, maps under the corrected normalisation to within 1/255 of `(k−1)/(n−1)` |
| Outputs.IntendedScaleStep | src/depth_estimator.h:189-190 | the corrected normalisation moves by at most 1/255 when its input moves by at most one half |
| Outputs.ByteRounding | src/depth_estimator.cpp:298 | rounding a value in [0, 255] gives a byte within half of it, which saturation leaves alone |
| Outputs.IntendedScaleOfIndex | src/depth_estimator.h:189-190 | the corrected normalisation takes `255·k/n` to `(k − 1)/(n − 1)` |
| Outputs.InverseDepthOfFraction | src/depth_estimator.h:192-194 | interpolating between `1/maxDepth` and `1/minDepth` at `j/m` gives candidate j's inverse depth |
| Outputs.ShiftedDisparity | src/depth_estimator.h:209-210 | the visualisation value of a pixel is an 8-bit value |
| Outputs.RoundPlus6375 | src/depth_estimator.h:210 | adding 63.75 to an integer and rounding adds 64 |
| Outputs.ScaleByEightTenths | src/depth_estimator.h:209 | the 0.8 scale of a nonzero 8-bit value lies in 1..204 |
| Outputs.ShiftedDisparityKeepsMask | src/depth_estimator.h:209-210 | a zero pixel stays 0 because the add is masked by the map, and a nonzero pixel becomes `sat(round(0.8·v) + 64)`, in 65..255 |
| Outputs.DisparityVisual | src/depth_estimator.h:204-210 | before dilation and colour map, the visualisation is 0 exactly where the map is 0 and at least 65 elsewhere |
| DepthEstimation.CandidatesFit | src/depth_estimator.cpp:67-74 | the constructed candidates are `a + i·step` and each one's two shifts fit the rectified width |
| DepthEstimation.SelectCandidates | src/depth_estimator.cpp:197-233 | the candidate loop leaves the handle of the last restoration and the minimum, maximum, index and best buffers of the selection over the costs of the restoration chain |
| DepthEstimation.MergeCandidate | src/depth_estimator.cpp:221-232 | per pixel, where the running minimum is at least the new cost, the minimum becomes that cost, the index `sat(z + 1)` and the colour the candidate's; elsewhere index and colour are kept, so the minimum is the smaller of the two; the maximum becomes the larger; together this is one selection step |
| DepthEstimation.SelectionStep | src/depth_estimator.cpp:197-232 | one iteration extends the chain, keeps every cost map the frame's size, and makes the running buffers the selection over one more candidate |
| DepthEstimation.DepthEstimator.constructor | src/depth_estimator.cpp:39-116 | the parameters are stored (coef scaled by the upsampling, the odd window), the candidates are the evenly spaced list, all buffers start at zero, filtering is on exactly when the GPU context exists, and then the offset table holds the disc offsets |
| DepthEstimation.DepthEstimator.SetFrame | src/depth_estimator.h:174-182 | the buffers become the four stages applied in order to the stored and rectified frame |
| DepthEstimation.DepthEstimator.ReconstructDepthAndColour | src/depth_estimator.cpp:195-234 | the buffers become the reconstruction stage of the old buffers |
| DepthEstimation.DepthEstimator.RestoreAndSelect | src/depth_estimator.cpp:197-233 | the loop's results are the reconstruction stage's new handle and selection buffers |
| DepthEstimation.DepthEstimator.UnwarpAndFixColour | src/depth_estimator.cpp:236-254 | the buffers become the unwarp stage of the old buffers |
| DepthEstimation.DepthEstimator.UnwarpColour | src/depth_estimator.cpp:239-253 | intensity correction, the two linear remaps and the boundary patch, as the colour part of the unwarp stage |
| DepthEstimation.DepthEstimator.UnwarpMaps | src/depth_estimator.cpp:244-246 | the nearest-neighbour remaps of the index map and the cost bounds, as the rest of the unwarp stage |
| DepthEstimation.DepthEstimator.MaskDisparityMap | src/depth_estimator.cpp:256-288 | the buffers become the masking stage of the old buffers |
| DepthEstimation.DepthEstimator.FilterDisparity | src/depth_estimator.cpp:290-318 | the buffers become the filtering stage of the old buffers, GPU path or fallback |
| DepthEstimation.DepthEstimator.GetDepth | src/depth_estimator.h:184-202 | the depth of every output pixel, 0 exactly where the output map is 0 |
| DepthEstimation.DepthEstimator.GetDisparityMap | src/depth_estimator.h:204-210 | the 8-bit visualisation values, 0 exactly where the output map is 0 and at least 65 elsewhere |
| DepthEstimation.DepthEstimator.GetReconsImg | src/depth_estimator.h:217-220 | the restored image buffer, of the capture size |
| Images.Sat | src/depth_estimator.cpp:143-146 | saturation to 8 bits: within 0..255, the identity on bytes, 0 below and 255 above |
| Images.ErodeIsWindowMinimum | src/depth_estimator.cpp:284 | the eroded value is at most each of the window's values and never turns 0 into nonzero |
| Images.RoundHalfAwayNearest | src/depth_estimator.cpp:128-134 | `int(d ∓ 0.5)` is within half of d and symmetric under negation |
| Images.TruncTowardZero | src/depth_estimator.cpp:68 | the conversion to int truncates toward zero |
| Rectification.NormalisedMeanIsOne | src/rectifier.cpp:51-53 | after division by the baseline the mean horizontal displacement is exactly 1 |
| Rectification.SumXScales | src/rectifier.cpp:52-53 | dividing every entry by b divides the sum of first components by b |
| Rectification.IdentityColumn | src/rectifier.cpp:55-61 | column 0 of the forward table maps row i to `(0, i)` |
| Rectification.RowsThatMeetStayTogether | src/rectifier.cpp:63-71 | each column depends only on the previous one: two rows equal in one column are equal in every later column |
| Rectification.UnitFieldIsIdentity | src/rectifier.cpp:55-71 | a field of unit horizontal displacements builds the identity table `(j, i)` |
| Rectification.ColumnsAdvance | src/rectifier.cpp:63-71 | where the field always points right, every row of the table moves strictly right from column to column |
| Rectification.BuildRectification | src/rectifier.cpp:41-74 | the forward table has the calibration rows and 30 extra columns; entry (i, j) is the identity column followed by the column recurrence over the normalised field; the baseline is the mean horizontal displacement; the inverse table is untouched |
| Rectification.FillColumn | src/rectifier.cpp:64-71 | column j becomes column j − 1 plus the field sampled where column j − 1 points, and no other column changes |
| Rectification.Initial | src/rectifier.cpp:82-83 | the tables start with the inverse map at (0, 0) and every best distance at 1, in their sizes |
| Rectification.InitialConsistent | src/rectifier.cpp:81-83 | the initial tables (all (0, 0), all best distances 1) satisfy the scatter invariant |
| Rectification.Visit | src/rectifier.cpp:101-113 | one neighbour step keeps the tables' sizes |
| Rectification.VisitUpTo | src/rectifier.cpp:101-114 | the first k neighbour steps keep the tables' sizes |
| Rectification.ScatterSource | src/rectifier.cpp:89-115 | one source keeps the tables' sizes |
| Rectification.RowPrefix | src/rectifier.cpp:85-117 | the row-major prefix of the scatter keeps the tables' sizes |
| Rectification.RowsBefore | src/rectifier.cpp:85-117 | the scatter over the first rows keeps the tables' sizes |
| Rectification.ScatterAll | src/rectifier.cpp:85-117 | the scatter over every inner source keeps the tables' sizes |
| Rectification.VisitConsistent | src/rectifier.cpp:101-113 | one neighbour step preserves the invariant: best distances in [0, 1]; a cell is matched exactly when its best distance is below 1; a matched cell holds an inner source pointing within one cell of it, at that source's distance |
| Rectification.VisitUpToConsistent | src/rectifier.cpp:101-114 | the neighbourhood loop preserves that invariant |
| Rectification.RowPrefixConsistent | src/rectifier.cpp:85-117 | the nested loops preserve that invariant |
| Rectification.RowsBeforeConsistent | src/rectifier.cpp:85-117 | the scatter over the first rows satisfies that invariant |
| Rectification.ScatterTables | src/rectifier.cpp:85-117 | after the scatter: row 0 and column 0 stay (0, 0); every best distance is in [0, 1]; a cell is not (0, 0) exactly when its best distance is below 1; a written cell holds the (j, i) of an inner source whose forward entry passes the guard and rounds to within one cell of it, with that source's distance |
| Rectification.PointedCellMatched | src/rectifier.cpp:89-117 | the converse: the cell that a guard-passing inner source rounds to ends matched, not (0, 0) and with best distance below 1, so the 3×3 scatter leaves no pointed-at cell empty |
| Rectification.CentreIsClose | src/rectifier.cpp:91-105 | a forward entry is within distance 1/4 of the cell it rounds to |
| Rectification.CentreMatchedAfterStep4 | src/rectifier.cpp:101-113 | after step 4 of a source the pointed cell is matched: step 4 either writes there, or the cell's best distance is already at most 1/4 |
| Rectification.VisitKeepsMatched | src/rectifier.cpp:101-113 | steps 5 to 8 of the same source keep a matched cell matched |
| Rectification.StaysMatched | src/rectifier.cpp:85-117 | a cell matched right after source (i, j) stays matched in every later prefix |
| Rectification.VisitUpToWrites | src/rectifier.cpp:101-113 | one source's neighbourhood loop either leaves a cell as it was or writes the source's own coordinate (j, i) there |
| Rectification.ScatterSourceWrites | src/rectifier.cpp:89-115 | the same for one whole source, guard included |
| Rectification.NotYetWritten | src/rectifier.cpp:85-115 | before source (i, j) is scattered no cell holds its coordinate (j, i) |
| Rectification.KeptSince | src/rectifier.cpp:85-115 | if a later prefix of the row-major scatter still holds (j, i) at a cell, every prefix between source (i, j) and it holds (j, i) there too |
| Rectification.LastWriterWins | src/rectifier.cpp:85-117 | when the finished inverse table holds (j, i) at a cell, (i, j) is an inner source; the cell did not hold (j, i) before that source was scattered, held it right after, and held it in every later row-major prefix: the last writer wins |
| Rectification.NeighbourNoCloser | src/rectifier.cpp:91-105 | no neighbour is closer to a forward entry than the cell it rounds to |
| Rectification.CentreWinEndsSource | src/rectifier.cpp:101-113 | writes are compared with the pointed cell's best distance, which step 4 may lower: a source that wins its centre writes none of neighbours 5 to 8 |
| Rectification.VisitStep | src/rectifier.cpp:101-113 | one in-place neighbour step changes the two arrays exactly as the tables' step |
| Rectification.VisitNeighbours | src/rectifier.cpp:101-114 | the in-place k loop changes the arrays exactly as the neighbourhood loop of the tables |
| Rectification.ScatterSourceInPlace | src/rectifier.cpp:89-115 | one in-place source, guard included, changes the arrays exactly as the tables' source step |
| Rectification.ScatterRow | src/rectifier.cpp:87-116 | the in-place j loop of row i changes the arrays exactly as the scatter of that row |
| Rectification.Scatter | src/rectifier.cpp:82-117 | fresh, zeroed and one-filled arrays, after the nested loops, hold exactly the tables of the row-major scatter |
| Rectification.ReverseRectification | src/rectifier.cpp:76-124 | the inverse table has the inverse size, and each entry is the resized scatter table of the enlarged, rescaled forward table, multiplied by 1/scale and reduced by (1, 1) |

## Left out

- The two demo programs (`src/main_demo.cpp`, `src/main_rectification.cpp`): file input and output, display and console logging are I/O.
- OpenCL, meaning context creation, reading and compiling `bilateral_filter.cl`, and the kernel launch. The kernel's source is not part of this model. Its result is the `bilateral` parameter, and whether a context exists is a constructor flag.
- The spatial `exp` weights of the filter table: they are floating-point weights of the GPU kernel only.
- The bilateral filter kernel is assumed to leave every pixel whose input disparity is 0 (masked out) at 0. `filterDisparity` clears the output map before the launch (depth_estimator.cpp:299), so a kernel that writes nothing at masked pixels leaves them 0. The kernel's source is not part of this model. The masked-out clause of `Pipeline.FilterRemovesOutliers`, and on the GPU path `Pipeline.FilterKeepsZero`, `Pipeline.FilterKeepsEmptyMap`, `Pipeline.EqualCostBoundsGiveEmptyMap` and `Pipeline.TiedFrameIsUnreliable`, rest on this assumption (`OpsFit`).
- OpenCV primitives that are only called: `remap`, `resize`, `convertMaps`, `filter2D`, `cvtColor`, `boxFilter`, `dilate` and `applyColorMap`. They are parameters with size and range conditions. The cost chain and the edge response are each one opaque operation. The 2×2 erosion is modelled concretely.
- Bit-exact floating point:
  - τ and the intensity factor `(1 + τ)/(1 + τ⁴)` act through a saturating rounded scale of reals;
  - the depth is computed in reals;
  - the rectifier works in reals;
  - the τ⁴ deblending residual is a claim about real images, not about the code.
- The lookup-table preparation in the constructor (the multiply, resizes and `convertMaps`, depth_estimator.cpp:57-64) is reduced to the three table sizes and the remaps they drive.
- DepthEstimation.DepthEstimator.constructor: requires `coef/maxZ − coef/minZ ≥ 0.5`. Otherwise zCount < 2 and the step divides by zero, a case the source does not handle. It also requires that both shifts of every candidate fit the rectified width, and that the mask displacement fits the confidence width, because otherwise the source builds a region outside the image. It further requires a capture of at least 5 rows and 40 columns, the boundary the colour fix overwrites.
- Scratch buffers that no later step reads are locals of the methods: `m_maskBest`, `m_cost`, `m_costHandle`, `m_costrgb*`, `m_edges*`, `m_ConfHandle`, `m_maskConfidence` and `m_reconsImgCandidate`.
- `m_img` shares the caller's frame (`m_img = img`); the model copies the value, so later changes by the caller are not seen.
- DepthEstimation.DepthEstimator.ReconstructDepthAndColour: the candidate loop works on values and stores the five buffers it updates when it ends. This is the same final state as the source's in-place updates.
- DepthEstimation.DepthEstimator.UnwarpAndFixColour: the model patches the boundary before the nearest-neighbour remaps, where the source runs all five remaps first. Neither group reads what the other writes, so the order does not change the result.
- Rectification.BuildRectification: the remap of a whole column through the field is one `sample` per row. Bilinear interpolation and its border handling are not modelled. It also requires a nonzero baseline: with a zero mean displacement the source divides by zero (rectifier.cpp:52-53) and fills the field with infinities or NaNs, which reals cannot represent.
- Rectification.ReverseRectification: `resize` is a parameter. Only the sizes are fixed: the enlarged size rounds, and the scatter size truncates.
- Rectification.FillColumn: each entry is written once, as column j − 1 plus the sampled field, where the source first stores the remap result in column j and then adds column j − 1 to it.
- GetReconsImg: returns the value of the buffer, not a shared handle to it.

## Findings

| source | as written | input that shows it | evidently intended | confidence | as-written member | corrected member |
|---|---|---|---|---|---|---|
| src/depth_estimator.h:189-196 | `getDepth` maps a value v to `v/255 − 1/zCount` and then interpolates between `1/maxDepth` and `1/minDepth`. The largest value, 255 (index zCount), maps to `1 − 1/zCount`, and index 1 maps to 0. | zCount = 2, disparities −10 and −11, coef −100: value 255 gives inverse depth 0.105 where `1/minDepth` is 0.11 | `(v/255 − 1/zCount)/(1 − 1/zCount)`, so that index k maps to `(k − 1)/(zCount − 1)`: index 1 to maxDepth, index zCount to minDepth, and every index to its own candidate's depth (exactly for the unrounded value `255·k/zCount`, within 1/255 after the rounding of the stored byte) | medium; not executed | Outputs.AsWrittenTopValueMissesMinDepth | Outputs.IntendedScaleHitsCandidates |

The class method `GetDepth` models the code as written (`Outputs.DepthAt`). `Outputs.DepthScaleIntended` is the corrected normalisation, and `Outputs.IntendedScaleHitsCandidates` proves that under it the unrounded value `255·k/zCount` of every index reaches its own candidate's depth. The stored byte is rounded, so it reaches its candidate's fraction only to within 1/255 (`Outputs.StoredIndexNearCandidate`); the top index is exact (`Outputs.TopIndexScalesTo255`).
