# displot detection core in Dafny

displot finds threading dislocations in electron micrographs. A neural
network scores overlapping 512 x 512 windows of a zero-padded image. A
scale-space blob extractor then finds candidate dislocations in each
window's response. Each blob is scored by the mean response over a disc
around its centre, and the candidates are pruned and merged into one
feature per dislocation. Around that pipeline sit a feature record with
box geometry and overlap ratios, the image view's rectangle symbols, the
cursor-mode registry, the feature table's model, the data dictionaries
written to `.dpa` archives, and the naming of network weight files.

This project models those pieces as pure functions on immutable datatypes
and proves their properties:

- `Tiling` (`tiling.dfy`): padding, the row-major window enumeration, the
  `passes` bookkeeping grid, and the row/column counter that maps each
  prediction back to its window.
- `Scoring` (`scoring.dfy`): `_blob_detect`'s radius clip, the disc of
  sampled pixels (Python slice semantics included, so a blob near the top
  or left edge reads an empty slice), the mean confidence, and the
  translation to image coordinates.
- `Dedup` (`dedup.dfy`): `discrimination`'s prune pass and greedy merge,
  with the in-place confidence overwrite of cluster winners.
  `DedupExamples` (`dedup_examples.dfy`) works four co-located reports
  through the whole merge.
- `Detection` (`detection.dfy`): `detection()` end to end, with the
  network's responses and the extractor's blobs as inputs.
- `Features` (`features.dfy`): the `Feature` record, `move`, `overlap`, and
  the extractor's feature list. `FeatureExamples` (`feature_examples.dfy`)
  works the overlap tests' features through both modes of `overlap`.
- `Symbols` (`symbols.dfy`): `DisplotSymbolRect` and `ExclusionBox`.
- `CursorModes` (`cursormodes.dfy`): `CursorMode`.
- `TableModel` (`tablemodel.dfy`): `ImageTabTableModel`.
- `DataIO` (`dataio.dfy`): `DisplotData` / `DisplotDataFeature`
  dictionaries and the load/save dispatch on the file extension.
- `Weights` (`weights.dfy`): weight-file paths, the file-name pattern as an
  explicit leftmost-shortest matcher, `available`, `list_weights` and
  `weights_exist`. The weights directory is a given set or list of names.
- Helpers:
  - `Wrappers`: `Option` / `Result`.
  - `Slices`: Python slice bounds, slicing, deletion and slice assignment.
  - `Sorting`: stable insertion sort, standing in for Python's `sorted`.
  - `Text`: `os.path.basename`, `rfind`, string order.
  - `Arith`: small integer and real arithmetic facts.

Confidences are `real`. The network's output is a grid of integers, with
the 0..255 range stated where it is used. `np.hypot(dx, dy) >= t` is
modelled by the exact comparison `t <= 0 or dx^2 + dy^2 >= t^2`. Errors the
source raises are `Failure` values or an `Outcome` whose `raised` field is
set.

Two consequences of the code are worth stating on their own:

- The merge's inner loop visits the seed again, so whenever 2r >
  `td_overlap` the seed is counted twice. Four co-located reports with
  confidences 0.9, 0.8, 0.7 and 0.6 and four samples therefore average
  0.9, 0.9, 0.8 and 0.7, and give one feature of confidence 0.825
  (`DedupExamples.FourAt825`).
- The right and bottom padding lie in [stride + 1, 2 * stride] for a stride
  below 512 (`Tiling.TrailingPad`). For a stride above 512 the pad can
  reach 2 * stride.

## Model

| member | source | states |
|---|---|---|
| Tiling.TrailingPad | displot/detection.py:76-81 | the trailing pad makes size + leading pad + trailing pad a multiple of the stride, lies in 1..2*stride, and is at least stride + 1 when the stride is below the window size |
| Tiling.Pad | displot/detection.py:74-81 | padding succeeds exactly for positive strides (zero and negative strides are told apart); left/top pads equal the column/row stride, and both padded sizes are multiples of their strides |
| Tiling.RowCount | displot/detection.py:135 | n_row is at least 1 and the padded height is (n_row + 1) row strides |
| Tiling.ColCount | displot/detection.py:136 | n_col is at least 1 and the padded width is (n_col + 1) column strides |
| Tiling.AxisCount | displot/detection.py:135-136 | a padded size that is a multiple of the stride and exceeds it is (n + 1) strides for some n >= 1 |
| Tiling.RangeLen | displot/detection.py:100-101 | `range(a*s, m*s, s)` has m - a elements |
| Tiling.RangeAt | displot/detection.py:100-101 | the k-th element of `range(a*s, m*s, s)` is (a + k) * s |
| Tiling.RowOfTiles | displot/detection.py:101-107 | the inner loop emits one window per column start, in order, all on the current row |
| Tiling.NestLen | displot/detection.py:100-107 | the nested loop emits len(rows) * len(cols) windows |
| Tiling.NestAt | displot/detection.py:100-107 | the window at row-major index a*len(cols) + b is (rows[a], cols[b]) |
| Tiling.NestAtStart | displot/detection.py:100-107 | the same correspondence with the row offset accumulated by repeated addition |
| Tiling.TileCount | displot/detection.py:100-107 | exactly n_row * n_col windows are cut |
| Tiling.TileAt | displot/detection.py:100-107 | window a*n_col + b starts at (a * row stride, b * column stride) |
| Tiling.TileAtIndex | displot/detection.py:100-107 | window k starts at ((k div n_col) * row stride, (k mod n_col) * column stride), with k div n_col < n_row |
| Tiling.Tiles | displot/detection.py:92-107 | the windows in loop order; `TileCount` and `TileAtIndex` state their number and where each starts |
| Tiling.AxisCover | displot/detection.py:100-107 | when the window is at least twice the stride, every padded coordinate lies in some window along that axis |
| Tiling.Coverage | displot/detection.py:70-107 | when the window is at least twice the stride, every padded pixel lies in some window |
| Tiling.TilesInside | displot/detection.py:70-107 | when the window is at most twice the stride, every window lies inside the padded image |
| Tiling.LastWindowShort | displot/detection.py:100-109 | with a stride below half a window on some axis, the last window runs past the padded image, so its slice comes back short and the windows cannot be stacked into one array |
| Tiling.BumpAllCell | displot/detection.py:105 | after all increments a cell holds its old value plus the number of windows whose 2 x 2 block covers it |
| Tiling.CoverCountAppend | displot/detection.py:100-105 | the number of windows covering a cell adds up over consecutive runs of windows |
| Tiling.HitsClosedForm | displot/detection.py:105 | along one axis, a cell is hit once by each of the (at most two) blocks starting at it or one before it |
| Tiling.CoverCountNest | displot/detection.py:100-105 | the cover count of the nested loop is the product of the per-axis hit counts |
| Tiling.Passes | displot/detection.py:92-105 | the `passes` grid after every window has bumped its 2 x 2 block; `PassesCell` and `PassesShape` state its size and contents |
| Tiling.PassesCell | displot/detection.py:92-105 | `passes` has (n_row + 1) x (n_col + 1) cells, and each holds the product of its row and column hit counts |
| Tiling.PassesShape | displot/detection.py:92-105 | `passes` ends with 1 at the four corners, 2 elsewhere on the border and 4 in the interior |
| Tiling.CounterIsDivMod | displot/detection.py:196-200 | after i predictions the (row, col) counter is (i div n_col, i mod n_col) |
| Tiling.Offsets | displot/detection.py:185-200 | the (row, column) offsets handed to prediction i; `OffsetsMatchTile` states they are window i's start minus the pads |
| Tiling.OffsetsMatchTile | displot/detection.py:185-200 | the offsets given to prediction i are its window's start minus the left/top pad |
| Tiling.StitchStartPairs | displot/detection.py:164-178 | `y_i` and `x_i` are twice the pair index k / 2 strides, for even and odd grid positions alike |
| Tiling.SlotInSheet | displot/detection.py:135-183 | every prediction's grid row and column lie in the grid, and their pair indices are a row and a column of the sheet it is written to |
| Tiling.SameParity | displot/detection.py:160-200 | with an odd number of columns, a prediction in an even column has the parity of its grid row |
| Tiling.SlotFits | displot/detection.py:143-178 | a grid position's pair indices fit the sheet its parities choose |
| Tiling.StitchesWhen | displot/detection.py:135-183 | every stitch write fits its sheet when each axis has a stride of at most half a window or at most two grid positions |
| Tiling.RowOverrun | displot/detection.py:135-183 | with a row stride above half a window and three or more grid rows, some write runs past the bottom of its sheet |
| Tiling.RowOverrunAt | displot/detection.py:157-183 | under those conditions the first prediction of the last even grid row is such a write |
| Tiling.ColOverrun | displot/detection.py:135-183 | with a column stride above half a window and three or more grid columns, some write runs past the right edge of its sheet |
| Tiling.StitchesIff | displot/detection.py:135-183 | the stitching gets through iff each axis has a stride of at most half a window or at most two grid positions |
| Tiling.CompletesIff | displot/detection.py:74-183 | padding, cutting and stitching all get through iff each stride is exactly half a window, or above half with at most two grid positions on that axis |
| Tiling.DefaultStrideCompletes | displot/detection.py:74-183 | the default stride (256, 256) gets through on every image size |
| Tiling.ShortStrideExample | displot/detection.py:74-109 | a 1000 x 1000 image with stride (200, 200) pads to 1600, has 7 columns, its window at column 1200 is only 400 wide, and detection does not get through |
| Tiling.WideStrideExample | displot/detection.py:135-183 | a 1000 x 1000 image with stride (300, 300) has a 5 x 5 grid, and prediction 3 writes columns 600 to 1112 of the 1024-wide top sheet |
| Tiling.WholeWindowStrideExample | displot/detection.py:135-183 | a 600 x 600 image with stride (512, 512) has a 3 x 3 grid, and prediction 2 writes columns 1024 to 1536 of the 1024-wide left sheet |
| Tiling.SmallImageWideStride | displot/detection.py:135-183 | a 400 x 400 image with stride (512, 512) has a 2 x 2 grid whose writes all fit |
| Scoring.Clip | displot/detection.py:384 | the radius is clipped into [min_r, max_r] when min_r <= max_r, and unchanged when already inside |
| Scoring.Trunc | displot/detection.py:388-390 | `int()` truncates toward zero |
| Scoring.SumBounds | displot/detection.py:399 | a sum of n values in 0..255 lies in 0..255n |
| Scoring.ConfidenceBounds | displot/detection.py:405-408 | the mean-over-255 confidence of samples in 0..255 lies in [0, 1] |
| Scoring.OffsetRowsSound | displot/detection.py:391-398 | every sampled offset lies in the half-open square [-r, r) x [-r, r) and passes the disc test |
| Scoring.OffsetRowsComplete | displot/detection.py:391-398 | every offset in the square that passes the disc test is sampled |
| Scoring.DiscOffsetsMembers | displot/detection.py:391-398 | (dr, dc) is sampled iff -r <= dr, dc < r and dr^2 + dc^2 <= r^2 |
| Scoring.RowSamplesArePicked | displot/detection.py:395-400 | walking one row of the slice collects the response at the centre plus each sampled offset of that row, in order |
| Scoring.SquareSamplesArePicked | displot/detection.py:391-400 | walking the whole slice collects the response at the centre plus each sampled offset, row by row |
| Scoring.DiscSamplesInside | displot/detection.py:391-400 | for a disc inside the map, the k-th sample is the response at the centre plus the k-th disc offset |
| Scoring.SquareInside | displot/detection.py:391 | for a disc inside the map, the slice is exactly the 2r x 2r square around the centre |
| Scoring.TopEdgeWraps | displot/detection.py:391-408 | on a map at least 2r tall, a centre closer than r to the top edge makes the slice start negative; Python then reads an empty slice, so the confidence is 0 |
| Scoring.ScoreBlob | displot/detection.py:384-414 | a scored blob sits at its centre plus the offsets, its radius is clipped, and its confidence is in [0, 1] for byte-valued responses |
| Scoring.ScoreTile | displot/detection.py:386-417 | one candidate per blob, each with confidence in [0, 1] for byte-valued responses |
| Scoring.ScoreTileAt | displot/detection.py:386-417 | the j-th candidate of a window is its j-th blob scored |
| Detection.WindowCandidates | displot/detection.py:185-195 | window k yields one candidate per blob, with confidences in [0, 1] for byte-valued responses |
| Detection.Windows | displot/detection.py:204-205 | the ordered map over windows yields one list per window |
| Detection.FlattenIndex | displot/detection.py:207-208 | every element of the concatenated list comes from some position of some window's list |
| Detection.Gather | displot/detection.py:204-208 | the candidates of all windows, window by window; `GatherOrigin` and `GatherConfidence` state where each comes from and its confidence range |
| Detection.GatherOrigin | displot/detection.py:185-208 | every gathered candidate is some window's blob scored with that window's offsets |
| Detection.GatherConfidence | displot/detection.py:204-208 | every gathered candidate has confidence in [0, 1] |
| Detection.Detect | displot/detection.py:74-221 | detection returns iff padding, full windows and every stitch write get through (`Tiling.Completes`); otherwise it reports a zero stride, a negative stride, a cut-short window or a stitch write past its sheet, each exactly when that is the first problem met |
| Detection.DetectReturns | displot/detection.py:74-221 | detection returns iff each stride is half a window, or above half with at most two grid positions on that axis; it never returns below half a window and always returns for the default (256, 256) |
| Detection.DetectSound | displot/detection.py:218-333 | when detection returns, every feature is inside the border bands with confidence between the tolerance and 1, and the average is at least the tolerance |
| Detection.OutcomeSound | displot/detection.py:258-333 | the same bounds for any candidate list whose confidences are at most a given bound |
| Detection.FeatureOrigin | displot/detection.py:185-413 | every feature is some window's blob, moved by that window's start minus the pads, with clipped radius |
| Detection.FeatureIsCandidate | displot/detection.py:258-323 | every feature is a candidate that survived pruning, with only its confidence changed |
| Dedup.Prune | displot/detection.py:258-268 | the first pass keeps exactly the candidates strictly inside the left/right bands, inside the top/bottom bands (inclusive at the top) and at or above 0.01 |
| Dedup.Kept | displot/detection.py:260-266 | the first-pass test; `Prune` keeps exactly the candidates it admits, in order |
| Dedup.PruneAppend | displot/detection.py:258-268 | the first pass keeps order: pruning a concatenation concatenates the pruned parts |
| Dedup.Close | displot/detection.py:293-296 | the inner loop's overlap test; `CloseSymmetric`, `CloseSelf` and `CloseIsDistance` state that it is symmetric, when a candidate overlaps itself, and that it agrees with the `hypot` comparison |
| Dedup.CloseSymmetric | displot/detection.py:293-296 | the overlap test is symmetric |
| Dedup.CloseSelf | displot/detection.py:292-299 | a candidate overlaps itself iff 2r > `td_overlap` |
| Dedup.CloseIsDistance | displot/detection.py:293-296 | the squared test agrees with `hypot(dx, dy) < r_a + r_b - td_overlap` |
| Dedup.CloseFrom | displot/detection.py:292-300 | the inner loop collects each later index exactly once when it overlaps the seed, and no other index |
| Dedup.Cluster | displot/detection.py:289-300 | the cluster starts with the seed and holds only valid indices |
| Dedup.ClusterCount | displot/detection.py:289-300 | the seed occurs once plus once more if it overlaps itself; every other index occurs once if it overlaps the seed |
| Dedup.Ranked | displot/detection.py:303-307 | the sorted cluster is a permutation of the cluster |
| Dedup.RankedHead | displot/detection.py:303-307 | the head of the ranking is the first member of maximal confidence |
| Dedup.RankedBelowHead | displot/detection.py:303-307 | no ranked member has more confidence than the head |
| Dedup.PredList | displot/detection.py:311-313 | the score list holds the top `detect_samples` confidences, then zeros |
| Dedup.MeanBounds | displot/detection.py:314 | the mean of values bounded by the first lies between first / n and first |
| Dedup.ScoreBounds | displot/detection.py:303-314 | a cluster's score lies between max / samples and max, is non-negative, and equals max for one sample |
| Dedup.CloseSet | displot/detection.py:292-300 | the indices marked visited are exactly those overlapping the seed |
| Dedup.Step | displot/detection.py:285-324 | a visited seed changes nothing; otherwise its overlaps become visited and at most one winner is appended |
| Dedup.StepEmits | displot/detection.py:303-324 | an emitting step appends the first maximal member, overwrites its confidence with the score, and the score is at least the tolerance |
| Dedup.StepDrops | displot/detection.py:317-318 | a step that emits nothing had a score below the tolerance, and only marks the overlaps visited |
| Dedup.StepInv | displot/detection.py:285-324 | one step keeps confidences in [0, hi], winners valid and at or above the tolerance, scores in [tolerance, hi] |
| Dedup.Loop | displot/detection.py:285 | `for i in range(n)` as repeated application of the loop body; `LoopKeeps` carries an invariant through it |
| Dedup.LoopKeeps | displot/detection.py:285 | a property kept by every step holds after the whole loop |
| Dedup.Merge | displot/detection.py:281-324 | the merge leaves one confidence per candidate, at most one winner per candidate, one score per winner |
| Dedup.MergeInv | displot/detection.py:281-324 | after the merge every winner's confidence and every score lie between the tolerance and the largest input confidence |
| Dedup.Mean | displot/detection.py:333 | the average is absent (NaN) exactly when nothing was emitted |
| Dedup.MeanAtLeast | displot/detection.py:333 | an average of scores at or above the tolerance is at least the tolerance |
| Dedup.Resolve | displot/detection.py:322-323 | each output is its winner candidate carrying the confidence left in it after the loop |
| Dedup.Discriminate | displot/detection.py:258-333 | no more features than pruned candidates; the average is absent exactly when there are no features |
| Dedup.DiscriminateSound | displot/detection.py:258-333 | every feature is a kept candidate with only its confidence changed, that confidence lies between the tolerance and the largest input confidence, and the average is at least the tolerance |
| DedupExamples.FourKept | displot/detection.py:258-268 | four co-located reports inside the borders all survive pruning |
| DedupExamples.FourCluster | displot/detection.py:289-300 | the first of four co-located reports gathers the cluster [0, 0, 1, 2, 3], itself twice |
| DedupExamples.DescendingRanked | displot/detection.py:303-307 | that cluster with descending confidences is already ranked |
| DedupExamples.DescendingScore | displot/detection.py:311-314 | its four-sample score is (2 c0 + c1 + c2) / 4 |
| DedupExamples.FourLoop | displot/detection.py:285-324 | the whole merge of four co-located reports is the first step; the others are already visited |
| DedupExamples.FourMergeEmits | displot/detection.py:285-333 | four co-located reports scoring at or above the tolerance give one feature carrying the score |
| DedupExamples.FourMergeDrops | displot/detection.py:317-333 | below the tolerance they give no feature and no average |
| DedupExamples.FourAt825 | displot/detection.py:218-333 | confidences 0.9, 0.8, 0.7, 0.6 with four samples give one feature of confidence 0.825 |
| Sorting.SortSorted | displot/detection.py:303-307 | the sort orders its result by the given total preorder |
| Sorting.SortHead | displot/detection.py:303-307 | the sorted list starts with the first least element of the input (stability) |
| Features.NewFeature | displot/feature/__init__.py:170-179 | a new feature has the given position and box in (row, column) order, no confidence, not unclear, cluster 0 |
| Features.ViewsAgree | displot/feature/__init__.py:188-224 | `bbox` is `bboxrc` with axes swapped, `dim` is `dimrc` swapped, and `bboxarea` is the product of `dimrc` |
| Features.Move | displot/feature/__init__.py:226-241 | `move` sets the centre and shifts every box edge by the same amount, so size, area and the other fields are unchanged |
| Features.MoveBack | displot/feature/__init__.py:226-241 | moving back to the old centre restores the feature |
| Features.MoveTwice | displot/feature/__init__.py:226-241 | two moves equal one move to the second target |
| Features.MeetSymmetric | displot/feature/__init__.py:294-298 | the box intersection and the no-overlap test do not depend on argument order |
| Features.MeetInside | displot/feature/__init__.py:294-311 | overlapping boxes have positive sides and an intersection no larger than either box, strictly smaller unless it is that box |
| Features.BoxShare | displot/feature/__init__.py:300-311 | for overlapping boxes the shared area is positive and its share lies in (0, 1] |
| Features.CountFacts | displot/feature/__init__.py:345-349 | the shared-pixel count is symmetric and at most either mask's count |
| Features.PixelShare | displot/feature/__init__.py:351-354 | the pixel share lies in [0, 1] |
| Features.PixelCounts | displot/feature/__init__.py:316-349 | the shared-pixel count is at most each placed mask's count |
| Features.RowsMatch | displot/feature/__init__.py:316-349 | the shared count over the union box equals the count read off the two placed masks' rows |
| Features.SelfRows | displot/feature/__init__.py:345-349 | a mask placed exactly in its box shares with itself exactly its own set pixels |
| Features.PixelCountsByMasks | displot/feature/__init__.py:316-349 | for masks that fit their boxes exactly, the counts are the pixels the two masks share at the same image position and each mask's set pixels |
| Features.PixelShareIoU | displot/feature/__init__.py:350-353 | short of all of either mask, the pixel share times (own a + own b - shared) is the shared count |
| Features.WithPixels | displot/feature/__init__.py:316-355 | pixel mode fails exactly when the counts do, and otherwise keeps the box entries and adds the shared count with its share in [0, 1] |
| Features.OverlapOf | displot/feature/__init__.py:269-356 | bbox-only mode never fails and has no pixel entries unless the boxes are apart; pixel mode fails without both masks, and for overlapping boxes with readable masks it fails iff the pixel count does; it then carries the shared pixel count, with a share of 1 when that is all of either mask's pixels and otherwise shared / (own a + own b - shared); both shares lie in [0, 1] |
| Features.OverlapApart | displot/feature/__init__.py:293-299 | boxes apart on either axis give (0, 0, 0, 0) in both modes |
| Features.OverlapContained | displot/feature/__init__.py:300-306 | a contained box gives its own area and share 1 |
| Features.OverlapPartial | displot/feature/__init__.py:307-311 | partial overlap gives the intersection area and share intersection / union, strictly between 0 and 1 |
| Features.OverlapSymmetric | displot/feature/__init__.py:290-356 | `overlap` fails or succeeds alike in both argument orders and gives the same result |
| Features.BoxShareSymmetric | displot/feature/__init__.py:300-311 | the box share is symmetric |
| Features.PixelCountsSymmetric | displot/feature/__init__.py:316-349 | swapping the features swaps the two own counts and keeps the shared count |
| Features.OverlapHalfBoxes | tests/feature.py:45-47 | boxes (0,0,4,4) and (2,0,6,4) share 8 pixels, a third of their union, in both orders |
| FeatureExamples.SmallPixels | tests/feature.py:11-16 | the 4 x 4 test mask has 10 set pixels |
| FeatureExamples.LargePixels | tests/feature.py:18-30 | the 9 x 9 test mask has 55 set pixels |
| FeatureExamples.OverlapTotal | tests/feature.py:39-43 | the small feature inside the larger one gives (16, None, 1, None) in bbox mode and (16, 10, 1, 1) in pixel mode, in both orders |
| FeatureExamples.OverlapHalf | tests/feature.py:45-49 | boxes sharing half their rows give (8, None, 1/3, None) and (8, 3, 1/3, 3/17), in both orders |
| FeatureExamples.OverlapQuarter | tests/feature.py:51-55 | boxes sharing a quarter give (4, None, 1/7, None) and (4, 1, 1/7, 1/19), in both orders |
| FeatureExamples.OverlapDifferentSize | tests/feature.py:57-61 | the small feature shifted right against the larger one gives (8, None, 8/89, None) and (8, 2, 8/89, 2/63), in both orders |
| FeatureExamples.OverlapNone | tests/feature.py:63-65 | boxes far apart give (0, 0, 0, 0) in pixel mode, in both orders |
| Features.GetFeatureList | displot/feature/__init__.py:53-56 | the list is returned exactly when a scan has set it; otherwise the extractor raises |
| Features.FeatureListAfterScan | displot/feature/__init__.py:42-56 | a new extractor raises, a scanned one returns its features |
| Symbols.NewRect | displot/ui/_imageview_symbols.py:32-40 | the constructor orders the corners, so width, height and area are non-negative |
| Symbols.SetWidth | displot/ui/_imageview_symbols.py:49-51 | the width setter moves only x2 |
| Symbols.SetHeight | displot/ui/_imageview_symbols.py:57-59 | the height setter moves only y2 |
| Symbols.MoveAxis | displot/ui/_imageview_symbols.py:82-100 | a negative target snaps to 0, an in-range target translates, both keeping the size; a target past the limit pins the far edge to the limit and keeps the near edge |
| Symbols.Move | displot/ui/_imageview_symbols.py:65-102 | `move` applies that rule to each axis and keeps the limits |
| Symbols.MoveAxisInside | displot/ui/_imageview_symbols.py:82-100 | an edge pair inside [0, limit] stays inside after the move rule |
| Symbols.MoveInside | displot/ui/_imageview_symbols.py:65-102 | a rectangle inside the scene stays inside after `move` |
| Symbols.MoveTranslates | displot/ui/_imageview_symbols.py:82-100 | a target that fits translates the rectangle (negative coordinates snap to 0) and keeps its size |
| Symbols.MovePastBound | displot/ui/_imageview_symbols.py:85-87 | a target past the limit keeps x1 and sets x2 to the limit, so the width is kept only if x2 was at the limit |
| Symbols.MoveIdempotent | displot/ui/_imageview_symbols.py:65-102 | repeating the same move changes nothing |
| Symbols.ResizeAxis | displot/ui/_imageview_symbols.py:115-127 | a request left of the near edge collapses to it, one at or past the limit pins to the limit, any other is taken |
| Symbols.Resize | displot/ui/_imageview_symbols.py:104-129 | `resize` never moves x1/y1 and applies that rule to x2 and y2 |
| Symbols.ResizeInside | displot/ui/_imageview_symbols.py:115-127 | a rectangle inside the scene stays inside after `resize`, and repeating it changes nothing |
| Symbols.OverlapsPoint | displot/ui/_imageview_symbols.py:131-145 | `overlapsPoint`: the closed rectangle holds the point; `SharePointIff` states when two rectangles share one |
| Symbols.SharePointIff | displot/ui/_imageview_symbols.py:142-145 | two closed rectangles share a point iff their intervals intersect on both axes |
| Symbols.OverlapsRect | displot/ui/_imageview_symbols.py:160-165 | `overlapsRect` is true iff the intersection is empty on some axis |
| Symbols.OverlapsRectSeparated | displot/ui/_imageview_symbols.py:147-165 | `overlapsRect` is true exactly when the rectangles share no point |
| Symbols.OverlapsRectNotSelf | displot/ui/_imageview_symbols.py:147-165 | a rectangle does not "overlap" itself |
| Symbols.OverlapsRectIntended | displot/ui/_imageview_symbols.py:147-158 | the documented test: true exactly when the rectangles share a point |
| Symbols.OverlapsRectIntendedSelf | displot/ui/_imageview_symbols.py:147-158 | under the documented test a rectangle overlaps itself |
| Symbols.ExclusionSetWidth | displot/ui/_imageview_symbols.py:235-239 | the exclusion box's width setter never sets a width below 12 and moves only x2 |
| Symbols.ExclusionSetHeight | displot/ui/_imageview_symbols.py:241-245 | the same for height and y2 |
| Symbols.ExclusionSettersAgree | displot/ui/_imageview_symbols.py:235-245 | for sizes of at least 12 the exclusion setters act as the base setters |
| Symbols.ExclusionResize | displot/ui/_imageview_symbols.py:247-252 | the exclusion resize raises requests below 12 to 12, then resizes as the base class |
| Symbols.ExclusionResizeFloor | displot/ui/_imageview_symbols.py:222-252 | when the limits allow it, x2 and y2 end at 12 or more |
| CursorModes.NewRegistry | displot/ui/_cursormode.py:39-51 | a new registry has only `'default'`, selected, with an empty handler list under each event type |
| CursorModes.DefineOne | displot/ui/_cursormode.py:70-78 | a string mode is refused iff already defined; otherwise it is appended with an empty list under every event type, and the registry stays valid |
| CursorModes.DefineMode | displot/ui/_cursormode.py:53-78 | `defineMode` keeps the registry valid, keeps the current mode, only adds modes, and refuses a non-string |
| CursorModes.DefineModes | displot/ui/_cursormode.py:65-68 | a list argument keeps the registry valid and only adds modes |
| CursorModes.DefineModeAtomic | displot/ui/_cursormode.py:70-78 | a refused single definition leaves the registry as it was |
| CursorModes.DefineModesFresh | displot/ui/_cursormode.py:65-78 | a list of distinct new names defines them all, in order, raising nothing |
| CursorModes.DefineModesNotAtomic | displot/ui/_cursormode.py:65-72 | `['a', 5]` raises for 5 but leaves `'a'` defined |
| CursorModes.SetMode | displot/ui/_cursormode.py:80-94 | `setMode` succeeds iff the mode is defined and then changes only the current mode |
| CursorModes.ResetMode | displot/ui/_cursormode.py:96-103 | `resetMode` selects `'default'` and changes nothing else |
| CursorModes.DefineEvent | displot/ui/_cursormode.py:105-127 | `defineEvent` succeeds iff the event type, the mode and callability check out, raising the first failing check's error |
| CursorModes.Dispatch | displot/ui/_cursormode.py:127-191 | the `onMouse*` dispatchers call the current mode's handlers for their event type, and every one of them is callable |
| CursorModes.AppendCallable | displot/ui/_cursormode.py:119-126 | appending a callable handler keeps every registered handler callable |
| CursorModes.AppendValid | displot/ui/_cursormode.py:119-126 | appending a callable handler under a defined event type and mode keeps the registry valid |
| CursorModes.DefineEventDispatch | displot/ui/_cursormode.py:127-191 | after registering, the dispatcher of that event type calls the new handler last in that mode; every other list is unchanged |
| CursorModes.DefineOneDispatch | displot/ui/_cursormode.py:76-78 | a newly defined mode dispatches nothing, and existing modes dispatch as before |
| CursorModes.NewRegistryDispatchesNothing | displot/ui/_cursormode.py:39-51 | a new registry dispatches nothing |
| TableModel.NewTable | displot/ui/_imagetab_tablemodel.py:33-38 | a new model has no rows, nothing queued and nothing selected or hidden |
| TableModel.SetModelData | displot/ui/_imagetab_tablemodel.py:40-55 | `setModelData` replaces the rows and keeps the queue |
| TableModel.GetDataObject | displot/ui/_imagetab_tablemodel.py:66-79 | a row in range gives its object; any other row, negative included, gives `None` |
| TableModel.RowCount | displot/ui/_imagetab_tablemodel.py:155-167 | `rowCount()`: the rows `getDataObject` answers for are exactly 0 .. rowCount() - 1 |
| TableModel.GetDataObjectRow | displot/ui/_imagetab_tablemodel.py:81-95 | the first row holding the object, or `None` iff it is absent |
| TableModel.IndexOf | displot/ui/_imagetab_tablemodel.py:92-95 | `list.index` finds the first occurrence, or fails iff absent |
| TableModel.SelectedInMembers | displot/ui/_imagetab_tablemodel.py:104-108 | the filter keeps exactly the selected objects |
| TableModel.GetSelectedObjects | displot/ui/_imagetab_tablemodel.py:97-108 | an object is returned iff it is in the rows and selected |
| TableModel.SelectedInAppend | displot/ui/_imagetab_tablemodel.py:104-108 | the filter keeps the rows' order |
| TableModel.SelectedInEvery | displot/ui/_imagetab_tablemodel.py:104-108 | with every row selected, all rows come back in order |
| TableModel.SelectedInNone | displot/ui/_imagetab_tablemodel.py:104-108 | with no row selected, nothing comes back |
| TableModel.AddDataObject | displot/ui/_imagetab_tablemodel.py:110-124 | `addDataObject` only queues |
| TableModel.InsertRows | displot/ui/_imagetab_tablemodel.py:314-344 | `insertRows` refuses and changes nothing iff count differs from the queue length; otherwise it splices the queue in at `row` and empties it |
| TableModel.RemoveRows | displot/ui/_imagetab_tablemodel.py:346-370 | `removeRows(row, count)` deletes count + 1 rows starting at `row` and always reports success |
| TableModel.AddInsertOne | displot/ui/_imagetab_tablemodel.py:334-344 | queueing one feature and inserting one row puts it at `row` and keeps the others in order |
| TableModel.RemoveFound | displot/ui/_imagetab_tablemodel.py:351-367 | looking up an object and removing with count 0 deletes exactly its first occurrence |
| TableModel.InsertRemoveOne | displot/ui/_imagetab_tablemodel.py:334-367 | removing, with count 0, the row a feature was just inserted at restores the rows |
| TableModel.SetData | displot/ui/_imagetab_tablemodel.py:257-312 | `setData` sets `isHidden` on column 1's decoration, sets selection on column 0's check state, changes no other object, and returns False |
| TableModel.CheckSelects | displot/ui/_imagetab_tablemodel.py:304-309 | checking a row selects its object iff the value is `Checked`; other objects keep their selection |
| Slices.Bound | displot/ui/_imagetab_tablemodel.py:340 | a Python slice bound counts a negative index from the end and clamps to [0, n] |
| Slices.Slice | displot/detection.py:391 | a Python slice has the normalised length and reads from the normalised start |
| Slices.Delete | displot/ui/_imagetab_tablemodel.py:367 | `del s[lo:hi]` removes exactly the normalised slice |
| Slices.Splice | displot/ui/_imagetab_tablemodel.py:340 | `s[at:at] = ins` keeps the prefix, inserts `ins`, and keeps the suffix |
| DataIO.NewMarker | displot/io/__init__.py:73-77 | a new marker has the given position, r = 10 and confidence 1 |
| DataIO.DefaultMarker | displot/io/__init__.py:73-77 | the default marker is at (0, 0) |
| DataIO.MarkerToDict | displot/io/__init__.py:83-89 | `toDict` has exactly the keys x, y, r and confidence, holding the fields |
| DataIO.MarkerFromDict | displot/io/__init__.py:79-81 | `fromDict` sets every given key and keeps every other attribute |
| DataIO.MarkerRoundTrip | displot/io/__init__.py:79-89 | `fromDict(toDict(m))` on a new marker restores x, y, r and confidence |
| DataIO.NewData | displot/io/__init__.py:23-28 | new data has the given image, path and meta, no markers, empty editor data |
| DataIO.Dimension | displot/io/__init__.py:30-36 | a shape entry is read iff there is an image with that many axes |
| DataIO.ImageWidth | displot/io/__init__.py:30-40 | `image_width` / `iw` is shape[1] |
| DataIO.ImageHeight | displot/io/__init__.py:34-44 | `image_height` / `ih` is shape[0] |
| DataIO.DimensionsOfShape | displot/io/__init__.py:30-44 | an image of shape (h, w, ...) has width w and height h |
| DataIO.MarkerDicts | displot/io/__init__.py:64-66 | the markers are serialised one dictionary each, in order |
| DataIO.DataToDict | displot/io/__init__.py:57-68 | `toDict` has exactly the four keys, holding path, meta, editor data and the marker dictionaries; the image is not written |
| DataIO.ReadMarkers | displot/io/__init__.py:51-55 | the markers are read iff every entry is a dictionary, each into a new marker, in order |
| DataIO.DataFromDict | displot/io/__init__.py:46-55 | `fromDict` succeeds iff the four keys are there and the markers read; it replaces the markers and keeps the image |
| DataIO.DataRoundTrip | displot/io/__init__.py:46-68 | `fromDict(toDict(d))` restores path, meta, editor data and a marker list of equal length with equal fields |
| DataIO.Ext | displot/io/__init__.py:93 | `splitext`'s extension is a suffix starting with the last dot of the last path component |
| DataIO.LowerAll | displot/io/__init__.py:93 | lower-casing maps each character |
| DataIO.ExtOfNamed | displot/io/__init__.py:93 | a named file's extension is its last dotted suffix |
| DataIO.ExtOfHidden | displot/io/__init__.py:93 | a name of only leading dots plus a suffix has no extension |
| DataIO.LoadDispatch | displot/io/__init__.py:113-118 | the archive loader is used iff the lower-cased extension is `.dpa` |
| DataIO.SaveWrites | displot/io/__init__.py:92-96 | saving writes iff loading would use the archive loader |
| DataIO.DispatchByExtension | displot/io/__init__.py:92-120 | `.dpa` in any case selects the archive, and a dot-file never does |
| Text.LastIndex | displot/io/__init__.py:93 | the last occurrence of a character, or `None` iff absent |
| Text.Basename | displot/weights/__init__.py:62 | `os.path.basename` is the slash-free suffix after the last slash |
| Text.StrLeTotal | displot/weights/__init__.py:134 | string order is total |
| Text.StrLeTrans | displot/weights/__init__.py:134 | string order is transitive |
| Weights.FileName | displot/weights/__init__.py:19 | the weight file name is m + '_' + i + '.h5' |
| Weights.PathOf | displot/weights/__init__.py:28-48 | `path` gives the bare name with `basename=True`, else the name joined to the weights directory |
| Weights.PathBasename | displot/weights/__init__.py:44-48 | the basename of the full path is the bare name |
| Weights.BasenameOfJoin | displot/weights/__init__.py:48 | joining a slash-free name to a directory keeps it as the basename |
| Weights.TailFrom | displot/weights/__init__.py:22-23 | the lazy second group grows to the first length that lets the rest of the pattern match |
| Weights.MatchFrom | displot/weights/__init__.py:22-23 | the lazy first group grows to the first length that lets the rest of the pattern match |
| Weights.Match | displot/weights/__init__.py:22-23 | the pattern matches iff some split fits, and the match found is the leftmost-shortest one |
| Weights.DecodeName | displot/weights/__init__.py:62-66 | decoding a name fails iff the pattern does not match it |
| Weights.MatchShaped | displot/weights/__init__.py:22-23 | a name m_i?h5... with m, i non-empty, m without '_', no whitespace, and no 'h5' in i plus the next character matches with groups m and i |
| Weights.DecodeOf | displot/weights/__init__.py:22-66 | any character may stand for the dot and anything may follow 'h5': such names also decode to (m, i) |
| Weights.PathDecode | displot/weights/__init__.py:51-66 | `path_decode` gives no match iff the pattern matches the basename from its start with no choice of group lengths; otherwise the groups of a match whose first group is the shortest possible and, for it, whose second group is the shortest possible |
| Weights.PathDecodeRoundTrip | displot/weights/__init__.py:44-66 | `path_decode(path(m, i))` is (m, i) with either `basename` setting, for such m and i |
| Weights.NoUnderscoreNoMatch | displot/weights/__init__.py:22-64 | a name with no '_' after its first character does not decode |
| Weights.ParseStr | displot/weights/__init__.py:87 | the decimal string of a natural number parses back to it |
| Weights.ProbesDistinct | displot/weights/__init__.py:84-87 | different probe counters give different paths |
| Weights.ProbesBounded | displot/weights/__init__.py:81-88 | at most as many probes can be taken as there are existing paths |
| Weights.ProbeFrom | displot/weights/__init__.py:81-88 | the probe loop stops at the first free path, all earlier probes being taken |
| Weights.Available | displot/weights/__init__.py:69-89 | `available` keeps the model, returns i if its path is free, else i + '_' + k for the least k >= 1 whose path is free |
| Weights.KeyLeTotalPreorder | displot/weights/__init__.py:134 | ordering by model + iteration is a total preorder |
| Weights.DecodeEach | displot/weights/__init__.py:129-130 | each listed name is decoded in turn |
| Weights.Kept | displot/weights/__init__.py:131-133 | the listing keeps exactly the decoded names, of the requested model when one is given |
| Weights.Decoded | displot/weights/__init__.py:128-133 | the listing holds exactly the decodings of listed names, restricted to the model when given |
| Weights.ListWeights | displot/weights/__init__.py:128-134 | `list_weights` is a permutation of those decodings sorted by model + iteration |
| Weights.WeightsExist | displot/weights/__init__.py:151-158 | with an iteration it checks that one path; without, it is true iff some name decodes to the model |
| Weights.ListedIff | displot/weights/__init__.py:154-158 | `list_weights(m)` is non-empty iff some listed name decodes to model m |

## Left out

- The neural network, `blob_log` and `np.squeeze` are inputs. Each window's response grid and blob list (row, column, sigma * sqrt(2)) are given; the network's uint8 range is a stated hypothesis (`Bytes`).
- The `exit(1)` on a failed prediction, the progress signals (which dereference `_qt5signals` and so crash when it is `None`) and the logging are not modelled.
- `mp.Pool.map` is an ordered sequential map.
- Detection.Detect: the contents of the stitched arrays `blob_l`/`blob_t`/`blob_r`/`blob_b` are not modelled, as nothing reads them afterwards. Their writes are: a slice that runs past its array raises, so the bounds of every write (`Tiling.Stitches`) decide whether detection returns.
- Detection.Detect: the network is taken to answer each 512 x 512 window with a 512 x 512 response; a response of another shape is not modelled.
- Detection.Detect: with a stride below half a window the cut-short windows cannot be stacked by `np.array(X)`; whether that raises at once or fails inside the prediction and reaches `exit(1)` depends on the numpy version, and both are the one `ShortWindow` failure.
- Floating point is not modelled: confidences, radii and averages are exact reals. `np.hypot` is replaced by an exact squared comparison, so ties that rounding would break differently are not modelled.
- FeatureExamples.OverlapDifferentSize: the test compares the pixel share with 0.031746031746031744, the double nearest 2/63; the model states the exact 2/63.
- Scoring.ScoreBlob: the sampled sum is the exact sum numpy 1.x computes, where `pred = 0` plus a uint8 sample promotes to a wide integer. Under numpy 2 and later (NEP 50) the sum stays uint8 and wraps modulo 256; two samples of 200 then give 144 / 2 / 255 rather than 200 / 255. `setup.py` does not pin numpy, and the wrapped sum is not modelled.
- Scoring.ScoreBlob: blob centres are integers, so the `int()` truncation of the extractor's float centre is taken as already done; `Scoring.Trunc` states the truncation itself.
- Dedup.Discriminate: requires `detect_samples >= 1`. With 0 the source averages an empty list (NaN) and then indexes an empty cluster list, which crashes; both callers pass 4 or 1.
- Features.Move: integer centres only. The `int(round(...))` of a fractional centre (from `regionprops.centroid`) is not modelled.
- Features.PixelCounts: numpy broadcasting is modelled for masks with a side of 1; other dimension mismatches are the slicing error, and the debug payload of that error is not.
- `Feature.area` reads `regionprops.area`, which is not part of this model. `Feature.transform` (float matrix product), `Feature.slice` (empty), `similarity`, `FeatureExtractor.debug`, `_feature_scale` and `_feature_extract_edges` are image processing and are left out.
- Qt notifications (`begin*`/`end*`, `dataChanged`, `modeChanged`) carry no model state and are left out. So are the handlers' own side effects when a dispatcher calls them: `Dispatch` returns the list called, in order.
- TableModel.SetData: the model index is given as (valid, row, column) and a valid one is required to name a row, as Qt guarantees. `obj.select(...)` is modelled as setting `isSelected` only.
- DataIO.DataFromDict: on failure the source has already assigned path, meta and editor data before raising; the model returns only the error. A `markers` value that is a non-list iterable is treated as an error.
- DataIO.DataRoundTrip: markers are compared through their dictionaries (x, y, r, confidence); attributes that a marker dictionary never carries are not compared.
- DataIO.LowerAll: lower-cases ASCII letters only; other Unicode case mappings are not modelled.
- Paths are POSIX paths; Windows separators and drive letters are not modelled.
- `os.listdir` and `os.path.exists` are a given list and set of names. The archive, image and CSV readers and writers in `displot/io/_io.py` are not part of this model.
- `load_weights` and `save_weights` call TensorFlow and are left out. `save_weights` uses `available`, which is modelled.
- Weights.ListWeights: states a permutation sorted by model + iteration. The order between two entries with the same concatenated key (which Python's stable sort takes from the directory listing) is not stated.
- Weights.Available: the probe loop terminates because only finitely many paths exist; the model takes the existing paths as a finite set.
- The file-name pattern's `\S` is modelled with Python's Unicode whitespace set; the matcher is written for this one pattern, not for general regular expressions.

## Findings

| source | as written | input that shows it | evidently intended | confidence | as-written member | corrected member |
|---|---|---|---|---|---|---|
| displot/ui/_imageview_symbols.py:160-165 | `overlapsRect` returns true when max(x1s) - min(x2s) >= 1 or max(y1s) - min(y2s) >= 1, that is, when the rectangles are separated | the rectangle (0, 0, 10, 10) tested against itself returns False | true exactly when the two rectangles share a point, as the docstring says | high; not executed | Symbols.OverlapsRectSeparated, Symbols.OverlapsRectNotSelf | Symbols.OverlapsRectIntended, Symbols.OverlapsRectIntendedSelf |
