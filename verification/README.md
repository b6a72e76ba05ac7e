# Hough line detector: discrete bookkeeping

A Dafny model of the integer and sequence bookkeeping inside the Hough-transform
line detector of `src/CControl/Sources/ImageProcessing/hough.c`:

- **Scores** (`hough_scores`). Every edge pixel records the flat accumulator
  index `angle * r_max + r` of each of its 181 trial-slope candidates whose
  radius is below `r_max`. The model also requires the angle bucket to be
  below 180; the source does not check it (see Findings). The pixel then adds
  one vote to every distinct recorded index. The finished grid is cut at the fraction `p` of its maximum: cells
  strictly below `max * p` become 0.
- **Cluster** (`hough_cluster`). An angle-major, radius-minor scan lists every
  cell holding more than one vote as `(angle + 1, radius + 1, votes)`. The
  `(x, y)` columns go to the density clustering routine. The cluster count
  `N` is the largest label it returns.
- **Lines** (`hough_lines`). For each label `1..N`, a running-maximum search
  picks one representative peak. The search is seeded with entry 0 and
  replaces the current best on `>=`. The scan offsets are then undone and an
  angle of exactly 90 degrees is nudged by `1e-5`.
- **Hough** (`hough`). The pipeline from pixels to lines.

Modules: `Grid` (accumulator shape and flat indexing), `HoughScores`,
`HoughCluster`, `HoughLines`, `Hough`. Votes are `nat`. The threshold
fraction `p` is a `real`. The pixel-to-cell trigonometry is abstract: every
`Pixel` carries its intensity and its list of `(angle, radius)` candidates in
trial order. The image is the row-major sequence of its pixels, which is
exactly the order the source's row/column double loop visits.

Behaviours of `hough.c` the model keeps as written:

- The fraction `p` is not clamped. Above 1, any grid with a vote is wiped out.
- Ties in the representative search go to the LATER entry, because the test is `>=`.
- Entry 0 seeds the search whatever its label.
- The duplicate check compares each recorded index with all earlier ones. It
  votes at `indexes[d]` only when `d == k`, so the vote goes to `indexes[k]`,
  the current entry.
- With no peak, the code's cluster count is undefined. See Findings.

## Model

| member | source | states |
|---|---|---|
| Grid.FlatIndex | src/CControl/Sources/ImageProcessing/hough.c:199-202 | a cell with angle below 180 and radius below `r_max` has a flat index inside the `180 * r_max` buffer |
| Grid.RowStartIsProduct | src/CControl/Sources/ImageProcessing/hough.c:202 | the rows before angle row `angle` take up exactly `angle * r_max` positions, so the flat index is the source's `angle * r_max + r` |
| Grid.FlatIndexInjective | src/CControl/Sources/ImageProcessing/hough.c:199-202 | for radii below `r_max`, two cells share a flat index exactly when they are the same cell |
| Grid.FlatIndexOnto | src/CControl/Sources/ImageProcessing/hough.c:98-113 | every position of the buffer is the flat index of some (angle < 180, radius < `r_max`) cell, so the row-by-row scan covers the whole grid |
| HoughScores.RecordCandidates | src/CControl/Sources/ImageProcessing/hough.c:174-204 | the candidate loop records the indices of the candidates with radius below `r_max` and angle below 180, in trial order, at most one per trial |
| HoughScores.DiagonalTrialPastBuffer | src/CControl/Sources/ImageProcessing/hough.c:197-202 | with only the radius checked, a candidate in angle bucket 180 at radius 0 is recorded as index `180 * r_max`, one past the accumulator; with the angle checked it is not recorded |
| HoughScores.RecordedAgrees | src/CControl/Sources/ImageProcessing/hough.c:199-203 | when every candidate with radius below `r_max` has an angle below 180, the source's recording and the angle-checked one are the same sequence |
| HoughScores.RecordedMembership | src/CControl/Sources/ImageProcessing/hough.c:199-204 | an index is recorded exactly when some candidate with angle below 180 and radius below `r_max` flattens to it, and no more indices than trials are recorded |
| HoughScores.RecordedInRange | src/CControl/Sources/ImageProcessing/hough.c:157-164 | every recorded index lies inside the `180 * r_max` accumulator, and at most one index per trial is recorded, so 181 trials fit the 181-entry index buffer |
| HoughScores.RecordedCell | src/CControl/Sources/ImageProcessing/hough.c:199-216 | deduplicating flat indices is deduplicating cells: cell (a, r) with r below `r_max` is recorded exactly when a is below 180 and Candidate(a, r) is among the pixel's candidates |
| HoughScores.VotePixel | src/CControl/Sources/ImageProcessing/hough.c:206-216 | one pixel adds exactly 1 to every distinct recorded index and nothing elsewhere; repeated indices add nothing more |
| HoughScores.Accumulate | src/CControl/Sources/ImageProcessing/hough.c:165-221 | after the sweep every cell equals the number of edge pixels (value above `FLT_EPSILON`) that record it |
| HoughScores.SupportOfCell | src/CControl/Sources/ImageProcessing/hough.c:165-221 | the votes of cell (a, r) with a below 180 are the number of edge pixels having Candidate(a, r) among their candidates, counted once per pixel; pixels at or below epsilon never vote; a position past the grid gets no vote |
| HoughScores.SupportOrderIndependent | src/CControl/Sources/ImageProcessing/hough.c:165-221 | any rearrangement of the pixels gives every cell the same vote count |
| HoughScores.AccumulatorOrderIndependent | src/CControl/Sources/ImageProcessing/hough.c:165-221 | the whole accumulator is the same for any pixel visiting order |
| HoughScores.Max | src/CControl/Sources/ImageProcessing/hough.c:224 | the grid maximum bounds every cell and is held by some cell |
| HoughScores.CutoffIsProduct | src/CControl/Sources/ImageProcessing/hough.c:224 | the cut-off is the grid maximum times `p` |
| HoughScores.Threshold | src/CControl/Sources/ImageProcessing/hough.c:224-229 | after the cut every cell is 0 or at least `max * p`, and cells at or above `max * p` keep their votes |
| HoughScores.ThresholdKeepsMax | src/CControl/Sources/ImageProcessing/hough.c:224-229 | for `p <= 1` a cell holding the maximum survives and the maximum is unchanged |
| HoughScores.ThresholdAboveOneClears | src/CControl/Sources/ImageProcessing/hough.c:224-229 | since `p` is not clamped, `p > 1` zeroes every cell of a grid whose maximum is positive |
| HoughScores.ThresholdMonotone | src/CControl/Sources/ImageProcessing/hough.c:224-229 | a larger `p` keeps only cells that a smaller `p` keeps, with the same votes |
| HoughScores.ThresholdIdempotent | src/CControl/Sources/ImageProcessing/hough.c:224-229 | cutting a second time at the same `p` changes nothing |
| HoughScores.Scores | src/CControl/Sources/ImageProcessing/hough.c:153-232 | the returned grid has `180 * r_max` cells and is the thresholded per-cell pixel support |
| HoughCluster.PeakList | src/CControl/Sources/ImageProcessing/hough.c:98-113 | every listed peak is `(angle + 1, radius + 1, votes)` with `1 <= x <= 180`, `1 <= y <= r_max`, votes above 1 and equal to that cell's value |
| HoughCluster.PeakListExact | src/CControl/Sources/ImageProcessing/hough.c:98-113 | the peaks are strictly increasing in angle-major, radius-minor order, and every cell with more than one vote is listed |
| HoughCluster.PeakListEmpty | src/CControl/Sources/ImageProcessing/hough.c:98-113 | the peak list is empty exactly when no cell holds more than one vote |
| HoughCluster.ScanPeaks | src/CControl/Sources/ImageProcessing/hough.c:96-113 | the double loop yields the find-order peak list of all cells above 1 |
| HoughCluster.Coordinates | src/CControl/Sources/ImageProcessing/hough.c:116-117 | one row per peak, in peak order, whose two columns are the peak's `angle + 1` and `radius + 1` |
| HoughCluster.CoordinatesOfPeakList | src/CControl/Sources/ImageProcessing/hough.c:98-117 | the rows handed to the clustering routine are pairwise distinct points with `1 <= x <= 180` and `1 <= y <= r_max` |
| HoughCluster.MaxLabel | src/CControl/Sources/ImageProcessing/hough.c:121-128 | seeded from the first label, `N` bounds every label and equals one of them |
| HoughCluster.ClusterCount | src/CControl/Sources/ImageProcessing/hough.c:121-128 | `N` bounds every label, equals one of them when there is a label, and is 0 when there is none |
| HoughLines.SelectRepresentative | src/CControl/Sources/ImageProcessing/hough.c:61-72 | the search returns 0 when no entry `j >= 1` of the label reaches `z[0]`; otherwise it returns the last entry `j >= 1` of the label whose votes are at least `z[0]` and at least every other entry of the label |
| HoughLines.RepresentativeUnique | src/CControl/Sources/ImageProcessing/hough.c:61-72 | that description fixes the selected index uniquely |
| HoughLines.RepresentativeIsMax | src/CControl/Sources/ImageProcessing/hough.c:61-72 | the selected entry has at least the votes of entry 0 and of every entry `j >= 1` of the label, and it is entry 0 or carries the label |
| HoughLines.SeedFromAnotherCluster | src/CControl/Sources/ImageProcessing/hough.c:62-65 | with votes (5, 3) and labels (1, 2), cluster 2 is represented by entry 0, which belongs to cluster 1 |
| HoughLines.LineOfRecoversCell | src/CControl/Sources/ImageProcessing/hough.c:74-89 | undoing the offsets gives the radius bucket as `R` and the angle bucket as the angle; only bucket 90 is nudged by `1e-5`, so the angle is never exactly 90 |
| HoughLines.ExtractLines | src/CControl/Sources/ImageProcessing/hough.c:60-91 | exactly `N` lines are produced, and line `i - 1` is the line of label `i`'s representative peak |
| Hough.Hough | src/CControl/Sources/ImageProcessing/hough.c:27-48 | `N` bounds all labels of the clustered peak list and equals one of them; with no peak `N` is 0; there are `N` lines, each from its cluster's representative in the same peak list that was clustered |
| Hough.NoEdgesNoPeaks | src/CControl/Sources/ImageProcessing/hough.c:165-229 | an image without edge pixels leaves an all-zero grid and an empty peak list |
| Hough.NoEdgesEmptyLabels | src/CControl/Sources/ImageProcessing/hough.c:115-122 | for such an image the clustering routine gets no row and returns no label |

## Findings

| source | as written | input that shows it | evidently intended | confidence | as-written member | corrected member |
|---|---|---|---|---|---|---|
| src/CControl/Sources/ImageProcessing/hough.c:197-202 | only `r < r_max` is checked before `indexes[c++] = angle_int * r_max + r`; an angle that rounds to 180 gives index `180 * r_max + r`, past the `180 * r_max` buffer of line 158, and line 214 increments it | an edge pixel on the diagonal (`i == j`): for trial 135, `K = tanf(45 degrees)` rounds to `1.0f`, so `M = +0`, `x = -0`, `y = +0`, `atan2f(+0, -0)` is pi, `angle_int = 180` and `r = 0` | every recorded index lies inside the buffer | plausible (depends on `tanf` rounding to `1.0f` and on signed zeros); not executed | HoughScores.DiagonalTrialPastBuffer (with HoughScores.RecordedAsWritten) | HoughScores.RecordedInRange (with HoughScores.Recorded) |
| src/CControl/Sources/ImageProcessing/hough.c:122 | `N = index[0]` reads the first label before checking that any peak exists | an image with no edge pixel: the grid is all zero, `k = 0`, and `index` is a zero-length buffer | no peak means no cluster, `N = 0`, and no lines | high (reading past a zero-length allocation); not executed | HoughCluster.MaxLabel (with Hough.NoEdgesNoPeaks) | HoughCluster.ClusterCount |

The rest of the model records through `Recorded`, which checks the angle
bucket as well as the radius. `RecordedAgrees` shows that this changes nothing
for a pixel whose candidates with radius below `r_max` stay below bucket 180.

`Hough.Hough` uses `ClusterCount`. `MaxLabel` keeps the source's loop and
needs at least one label. `NoEdgesNoPeaks` and `NoEdgesEmptyLabels` show
that an image with no edges leaves none.

## Left out

- Pixel-to-cell trigonometry: the slope table, the foot of the perpendicular, `sqrtf`/`roundf`/`atan2f` and the angle wrap. Each pixel's candidate `(angle, radius)` list is an input.
- HoughScores.Recorded: a candidate in angle bucket 180 is dropped. The source writes past the accumulator for it (see Findings). Which pixels the float mapping sends to bucket 180 is not modelled.
- The row/column loop structure: the image is given as its row-major pixel sequence.
- `r_max`: the `sqrtf` of the image dimensions, truncated to an integer. It is a given positive number here.
- Slope, intercept and radians output: `sinf`/`cosf`/`deg2rad`. Lines stop at the nudged angle in degrees and the radius.
- HoughLines.LineOf: the nudge is the exact real `0.00001`. Single-precision addition would give `90 + 2^-17`. Either way the angle is not exactly 90.
- HoughScores.Threshold: the cut-off `max * p` is an exact real product. Single-precision rounding of the product and of the vote counts is not modelled.
- The density clustering routine, `cat` and `amax`. Their source is not part of this model. Clustering is a function parameter that returns one label per row, with `epsilon` and `min_pts` already applied. `cat` pairs the `x` and `y` columns. `amax` is the sequence maximum.
- Memory management: `malloc`, `realloc` growth, `memset` and `free`.
- The GNU Octave version in the trailing comment of the file. It uses column-major indexing and other guards, so it is not the C behaviour.
