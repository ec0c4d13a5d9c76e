# Decay-index calculator: a Dafny model

This project models the core of `DecayIdxCalculator`, a class from a solar-physics
tool. The tool estimates the torus-instability *decay index*
`n = -d(ln B_h) / d(ln h)` above an active region. It does this from a potential-field
(PFSS) extrapolation of the photospheric magnetic field. An operator crops the
region, clicks points on it, and the calculator accumulates the decay-index profiles
of the grid cells around each click into a population. It then averages that
population, and can save the session log and reload it later.

The model covers the logic the class owns:

- **the decay-index volume** (module `DecayIndex`):
  - from the solver's field vectors `bg` and its radial grid `rg` in log-radius it computes
    `bh = sqrt(b_theta^2 + b_phi^2)`;
  - it drops the photospheric layer and log-differences along the radial axis;
  - it pads a zero layer at radial index 0;
  - `height_Mm = (exp(rg) - 1) * R_sun` in Mm, with `R_sun` = 695.7 Mm, the IAU 2015
    nominal solar radius that astropy uses;
- **the neighbourhood lookup** `click_point_decay` (module `PointSampler`):
  - the heights at or below the threshold (`h_limited`);
  - numpy's fancy indexing along the radial axis;
  - the `[floor(x):floor(x)+2, floor(y):floor(y)+2]` slice, with Python's slicing rules written out in full. Negative bounds count from the end, and every bound is clipped, so no precondition on the pixel is needed;
- **the population statistics** (module `Statistics`):
  - the element-wise mean over the population;
  - the variance, whose square root gives the error bars;
- **the crop rectangles** of `preplot`, `loadlog` and `plotmlines` (module `Crop`), with integer arithmetic on a centre truncated toward zero;
- **the session object** (module `Session`), a class with the calculator's fields:
  - the log record (`nr`, `rss`, `key_di`, `crop_area`, `coords`);
  - the threshold and `key_di`;
  - the volume, the height axis and `h_limited`;
  - the population;
  - the two crop rectangles;
  - the methods that change these fields.

Before any crop, `cal_decay`, `plotlog` and `_onclick` stop at their first step, which
reads the crop corners or the cropped map, and change nothing (`CropNotSet`). A click
whose pixel is not finite (off the solar disk) is logged, and then `math.floor` raises
(`NonFinitePixel`).

`plotlog` rebuilds the population by replaying the logged clicks. The class predicate
`Replays` states that the population equals that replay, and the methods maintain it
as long as clicks succeed. A click that failed after being logged stays in the log:
the interactive session went on collecting, but `plotlog` stops at that click and
keeps only the cells of the clicks before it (`ReplayedCells`).

### Numerics

- `ln`, `exp` and `sqrt` are parameters, bundled in the `Library` datatype. The model
  therefore fixes which values feed which result, not the floating-point values.
  Where a lemma needs a property of `exp` (increasing, `exp(0) = 1`), it says so in
  its hypothesis.
- Python's three integer conversions are kept apart:
  - `int()` on a float truncates toward zero (`Trunc`);
  - `math.floor` floors (`Floor`);
  - `int(n / 2)` is true division and then truncation (`HalfTrunc`).

  None of them is Dafny's Euclidean `/`.
- numpy does not raise on `log(0)`, `log` of a negative number or `x / 0`; it produces
  infinities and NaNs, which reals cannot hold.
  - The model returns an `Error` wherever a logarithm of a non-positive value enters
    a difference, or a log-height step is zero.
  - An empty population (which numpy averages to NaN) gives `EmptyPopulation`.
  - Profiles of unequal length (which `np.array` cannot stack) give
    `RaggedPopulation`.

### The two radial axes

The decay-index volume and `height_Mm` have different radial lengths:

- the volume has `len(rg) - 1` radial layers: the inner layer is dropped, differencing
  loses another, and the padding restores one;
- `height_Mm` has `len(rg)` entries.

`DecayDepth` and `HeightMmProperties` state this. One consequence:
when the threshold admits the topmost grid height, `click_point_decay`'s fancy index
lies past the end of the volume, and numpy raises `IndexError`. The model returns
`Failure(HeightIndexOutOfRange)` for that case.

Each cell above the photosphere uses the forward difference between its own layer
and the next one (`DecayIndexAt`).

## Model

| member | source | states |
|---|---|---|
| Numerics.Trunc | examples/DecayIdxCalculator.py:537-538 | `int()` of a float truncates toward zero: the result lies within one of the argument, on the argument's side of zero |
| Numerics.Floor | examples/DecayIdxCalculator.py:518 | `math.floor` gives the greatest integer not above its argument |
| Numerics.HalfTruncTowardZero | examples/DecayIdxCalculator.py:553-556 | `int(n / 2)` equals Euclidean `n / 2` for non-negative n and `-((-n) / 2)` for negative n |
| Numerics.HalfTrunc | examples/DecayIdxCalculator.py:553-556 | `int(n / 2)` lies on n's side of zero within one step of n / 2: 0 <= 2h <= n < 2h + 2 for n >= 0, and 2h - 2 < n <= 2h <= 0 for n < 0 |
| Numerics.ConversionsDisagreeOnNegatives | examples/DecayIdxCalculator.py:537-556 | on -2.5, `int()` and `floor` differ; on -5, `int(n/2)` and Euclidean division differ; on 5 they agree |
| Numerics.SliceBound | examples/DecayIdxCalculator.py:518 | one Python slice bound: negative bounds count from the end, and all are clipped to [0, n] |
| Numerics.SliceSpan | examples/DecayIdxCalculator.py:518 | `s[start:stop]` starts at the clipped start bound; it ends at the clipped stop bound, or selects nothing when that bound is at or before the start; it never leaves the sequence |
| Numerics.Tail | examples/DecayIdxCalculator.py:251-253 | `s[1:]` drops the first entry: one entry fewer (none for an empty s), entry k being s[k+1] |
| Numerics.Diff | examples/DecayIdxCalculator.py:253-254 | `np.diff` yields one entry fewer than a non-empty input, and none for an empty one |
| Numerics.DiffTelescopes | examples/DecayIdxCalculator.py:253-254 | the consecutive differences of s sum to its last entry minus its first |
| Numerics.LogDiffAt | examples/DecayIdxCalculator.py:253-254 | `np.diff(np.log(s))` has one entry fewer than s, and entry k is ln s[k+1] - ln s[k] |
| DecayIndex.HorizontalField | examples/DecayIdxCalculator.py:247-250 | bh has bg's horizontal extents and radial length in every column |
| DecayIndex.HorizontalStrengthSymmetries | examples/DecayIdxCalculator.py:247-250 | the horizontal strength ignores B_r and is unchanged by flipping the sign of B_theta or B_phi or swapping them |
| DecayIndex.RadialHeights | examples/DecayIdxCalculator.py:251 | exp(rg) - 1 has one height per grid point, and is strictly increasing along an increasing grid when exp is increasing |
| DecayIndex.HeightMm | examples/DecayIdxCalculator.py:266 | height_Mm has one entry per grid point, each the radial height exp(rg[k]) - 1 (the one the volume's log-height steps use) times 695.7 Mm |
| DecayIndex.ColumnIndex | examples/DecayIdxCalculator.py:255 | `-dln_bh / dln_h` along a column has one entry per log-height step |
| DecayIndex.ColumnIndexAt | examples/DecayIdxCalculator.py:255-262 | after the zero padding, entry m + 1 of a column is -dln_bh[m] / dln_h[m] |
| DecayIndex.DecayIndexVolume | examples/DecayIdxCalculator.py:247-264 | a computed volume has bg's horizontal extents, DecayDepth(len(rg)) radial layers and a zero photospheric layer; a failure is one of the three non-finite-value errors |
| DecayIndex.DecayIndexAt | examples/DecayIdxCalculator.py:250-262 | for 1 <= k < DecayDepth: cell [i][j][k] = -(ln bh[k+1] - ln bh[k]) / (ln hr[k+1] - ln hr[k]) with hr = exp(rg) - 1, the denominator being nonzero |
| DecayIndex.DecayIndexDefinedIff | examples/DecayIdxCalculator.py:250-255 | the volume is computed iff there are fewer than three radial points, or every bh above the photosphere is positive, every hr above it is positive, and consecutive ln hr differ |
| DecayIndex.FieldCheckIff | examples/DecayIdxCalculator.py:253 | the log of `bh[:,:,1:]` is finite everywhere exactly when every field strength above the photosphere is positive |
| DecayIndex.HeightChecksIff | examples/DecayIdxCalculator.py:251-254 | the heights' logs are finite iff exp(rg[k]) - 1 > 0 for k >= 1; the log-height steps are nonzero iff consecutive ln hr differ |
| DecayIndex.HeightMmProperties | examples/DecayIdxCalculator.py:266 | height_Mm has len(rg) entries, one more than the volume's radial layers; it is 0 where rg[0] = 0; it is strictly increasing along an increasing grid |
| PointSampler.AtOrBelowSpec | examples/DecayIdxCalculator.py:268 | `np.where(height_Mm <= h_threshold)[0]` is ascending and in range, and holds n iff height n is at or below the threshold |
| PointSampler.AtOrBelow | examples/DecayIdxCalculator.py:268 | `np.where(height_Mm <= h_threshold)[0]` lists at most one index per height |
| PointSampler.WhereFromSpec | examples/DecayIdxCalculator.py:268 | the scan from index k lists, in ascending order, exactly the indices from k on whose height is at or below the threshold |
| PointSampler.LimitedHeights | examples/DecayIdxCalculator.py:268 | h_limited has one entry per selected index |
| PointSampler.LimitedHeightsSubsequence | examples/DecayIdxCalculator.py:268 | h_limited is height_Mm read at an ascending index sequence holding exactly the indices of heights at or below the threshold |
| PointSampler.LimitedHeightsEmptyIff | examples/DecayIdxCalculator.py:268-269 | h_limited is empty (so `h_limited[-1]` raises) iff every height lies above the threshold |
| PointSampler.LimitedHeightsPrefix | examples/DecayIdxCalculator.py:268 | along increasing heights, h_limited is a prefix of height_Mm and every later height is above the threshold |
| PointSampler.Restrict | examples/DecayIdxCalculator.py:516 | fancy indexing along the radial axis succeeds iff every index is below the radial length, and otherwise raises IndexError; on success the footprint is kept and there is one entry per index |
| PointSampler.RestrictSelects | examples/DecayIdxCalculator.py:516 | a successful radial selection keeps the footprint and holds in cell (i, j), entry m, the layer idx[m] of that cell |
| PointSampler.ClickPointDecay | examples/DecayIdxCalculator.py:514-518 | a click succeeds iff every selected height has a layer and the pixel is finite; the error names the first check that fails; a block has at most 2 x 2 cells, each with one entry per selected height |
| PointSampler.ClickPointDecayFailsIff | examples/DecayIdxCalculator.py:514-518 | a click fails iff some height at or below the threshold has no decay-index layer (HeightIndexOutOfRange, wherever it lands) or its pixel is not finite (NonFinitePixel, from `math.floor`); the radial check comes first |
| PointSampler.ClickPointDecayCells | examples/DecayIdxCalculator.py:514-518 | for a finite pixel with x, y >= 0 the block holds rows floor(x)..floor(x)+1 and columns floor(y)..floor(y)+1, clipped at the grid edge; cell (a, c) entry m is di[fx+a][fy+c][idx[m]] for the ascending selected indices idx |
| PointSampler.BlockCells | examples/DecayIdxCalculator.py:518 | a 2x2 slice at non-negative bounds holds the grid cells (fx+a, fy+c) that exist, and no others |
| PointSampler.Block | examples/DecayIdxCalculator.py:518 | the neighbourhood slice has at most 2 rows of at most 2 cells |
| PointSampler.BlockColumns | examples/DecayIdxCalculator.py:518 | every cell of the slice is a grid cell, so it keeps the grid's radial length |
| PointSampler.BlockRow | examples/DecayIdxCalculator.py:518 | one row of the slice has at most 2 cells |
| PointSampler.BlockRowCells | examples/DecayIdxCalculator.py:518 | at a non-negative bound the row slice holds the cells fy and fy + 1 that exist, and no others |
| PointSampler.BlockRectangular | examples/DecayIdxCalculator.py:518 | on a rectangular grid the block has at most 2 rows, of equal length at most 2 |
| PointSampler.FlattenLength | examples/DecayIdxCalculator.py:215-217 | appending the cells of a block with r rows of c cells adds r * c profiles |
| PointSampler.FlattenCell | examples/DecayIdxCalculator.py:215-217 | cell (i, j) of the block is appended at position i * c + j: row-major order |
| PointSampler.FlattenMembers | examples/DecayIdxCalculator.py:215-217 | the appended cells are exactly the block's cells: none lost, none invented |
| PointSampler.Replay | examples/DecayIdxCalculator.py:436-452 | every profile of a replayed population has one entry per selected height |
| PointSampler.ReplayedCells | examples/DecayIdxCalculator.py:436-452 | the population plotlog leaves equals the replay whenever the replay succeeds |
| PointSampler.ReplayFailsIff | examples/DecayIdxCalculator.py:436-452 | replaying the log fails iff there is a click and either the selected heights reach past the volume or some logged click has no finite pixel; the error is HeightIndexOutOfRange in the first case and NonFinitePixel otherwise |
| PointSampler.ReplayFailsAt | examples/DecayIdxCalculator.py:436-452 | when the first n clicks replay and click n fails, the replay fails with that click's error and the population keeps exactly the first n clicks' cells |
| PointSampler.ReplayFailurePersists | examples/DecayIdxCalculator.py:436-452 | once a prefix of the log fails to replay, later clicks change neither the outcome nor the population left |
| PointSampler.ReplayAppend | examples/DecayIdxCalculator.py:448-452 | replaying one more click extends the replayed population by that click's cells and leaves all earlier entries unchanged |
| Statistics.Mean | examples/DecayIdxCalculator.py:220 | the mean is defined iff the population is non-empty and its profiles have equal length; each error says which condition fails; the mean has the profiles' length |
| Statistics.Variance | examples/DecayIdxCalculator.py:221 | the variance is defined exactly where the mean is, with the same length |
| Statistics.Summarize | examples/DecayIdxCalculator.py:220-221 | the summary exists exactly where the mean does; its mean is the population mean; its error bars have the profile length, and entry k is the square root of the variance at k |
| Statistics.MeanOfIdentical | examples/DecayIdxCalculator.py:220-221 | a population of identical profiles averages to that profile, with zero variance |
| Statistics.MeanWithinBounds | examples/DecayIdxCalculator.py:220 | each entry of the mean lies between bounds on every profile's entry there |
| Statistics.VarianceNonNegative | examples/DecayIdxCalculator.py:221 | every entry of the variance is non-negative |
| Statistics.MeanOfUnion | examples/DecayIdxCalculator.py:215-220 | the mean over two groups of cells is the count-weighted mean of the group means |
| Crop.CropRect | examples/DecayIdxCalculator.py:537-556 | the crop corners are symmetric about the truncated centre and span 2 * int(w/2) by 2 * int(h/2) |
| Crop.LargeCropRect | examples/DecayIdxCalculator.py:468-475 | the field-line view is symmetric about the truncated centre and spans 4w by 4h |
| Crop.LargeCropContainsCrop | examples/DecayIdxCalculator.py:468-475 | for non-negative height and width the field-line view encloses the crop |
| Crop.CropRectExample | examples/DecayIdxCalculator.py:537-556 | centre (-10.7, 20.3), height 5, width 4 gives corners (-12, 18) and (-8, 22): truncation, not flooring |
| Session.RebuildOutcome | examples/DecayIdxCalculator.py:318-344 | the rebuild succeeds iff the volume is computed, a threshold is set and some height is at or below it; otherwise it fails with one of five errors |
| Session.ReplayedSummary | examples/DecayIdxCalculator.py:455-456 | a replayed population is never ragged: its summary fails exactly when it is empty, with EmptyPopulation |
| Session.DecayIdxCalculator.constructor | examples/DecayIdxCalculator.py:47-52 | a new calculator stores nr and rss, logs only them, and holds nothing else |
| Session.DecayIdxCalculator.AppendBlock | examples/DecayIdxCalculator.py:215-217 | the nested loops append exactly the block's cells in row-major order to the population |
| Session.DecayIdxCalculator.Reconstruct | examples/DecayIdxCalculator.py:318-344 | empties the population; stores the volume and height axis when computable, then h_limited when a threshold is set; reports the first failing stage |
| Session.DecayIdxCalculator.CalDecay | examples/DecayIdxCalculator.py:310-348 | with no crop corners, fails with CropNotSet and changes nothing; otherwise key_di (log and field) and the threshold change only for a non-None argument, the population is emptied, the coords log starts empty exactly when the rebuild succeeds, and the population then equals the replay of the empty log |
| Session.DecayIdxCalculator.OnClick | examples/DecayIdxCalculator.py:191-221 | with no crop, fails with CropNotSet and changes nothing; otherwise logs exactly one coordinate when a coords log exists, appends exactly the block's cells or nothing on failure, reports the click's own mean and the population summary, and keeps the population equal to the replay of the log |
| Session.DecayIdxCalculator.PlotLog | examples/DecayIdxCalculator.py:407-456 | with no crop, fails with CropNotSet and changes nothing; otherwise rebuilds the volume, leaves the log and the threshold untouched, leaves as population the cells of the logged clicks up to the first failing one, returns the replay's error or the summary, and never reports a ragged population |
| Session.DecayIdxCalculator.ReplayLog | examples/DecayIdxCalculator.py:436-452 | the loop over logged clicks returns the replay, and the population holds the cells of the clicks before the first failing one |
| Session.DecayIdxCalculator.PrePlot | examples/DecayIdxCalculator.py:537-556 | logs the crop geometry and sets the crop corners from it; nothing else changes |
| Session.DecayIdxCalculator.LoadLog | examples/DecayIdxCalculator.py:579-594 | replaces the log; resets the threshold to 200; restores key_di; rebuilds the crop from the logged geometry; a missing key fails at the step that reads it |
| Session.DecayIdxCalculator.PlotMLines | examples/DecayIdxCalculator.py:467-475 | sets the field-line view from the logged geometry, or fails when none is logged |
| Session.SaveAndReload | examples/DecayIdxCalculator.py:537-594 | after crop, cal_decay, clicks and a reload into a new calculator, the crop corners are the same; the log carries key_di and every click in order |
| Session.ClickAll | examples/DecayIdxCalculator.py:191-199 | clicking a sequence of coordinates on a cropped session appends them to the log in order and keeps the rest of the log and the crop |

## Left out

- Acquisition of AIA, HMI and synoptic maps through sunpy's Fido, and local file
  loading (`_fido_get_*`, `set_fido_file`, `set_local_file`, `set_local_path`): network
  and file I/O. The log's map paths are therefore not part of `SessionLog`.
- Map resampling, reprojection and overlay (`_reproject_maps`, `_hmi_to_aia`,
  `_overlay_hmi_to_syn`): calls into sunpy and reproject over floating-point maps.
- The PFSS solver: `bg` and `rg` are inputs to `CalDecay`, `PlotLog` and
  `DecayIndexVolume`.
- Coordinate transforms and the solar-rotation correction from a clicked world
  coordinate to a synoptic-map pixel. These are the `toPixel` parameter, and the
  `pixel_to_world` step before them is out too: clicks arrive as `Coord` values.
- `interp_decay`, `h_interp` and the key height: scipy's cubic interpolation, Newton's
  method and a float `linspace`. `h_limited[-1]` is kept only as the
  `NoHeightBelowThreshold` failure when `h_limited` is empty.
- PointSampler.ReplayFailsIff: treats `interp_decay` as never raising. In the code it can
  raise after a click's cells are appended (a cubic spline needs four heights, and
  Newton's method may not converge), which would end the replay early.
- Session.DecayIdxCalculator.OnClick: the same `interp_decay` call after the append is
  taken never to raise, so a click whose block was appended always returns its report.
- Session.DecayIdxCalculator.PlotLog: the same; an `interp_decay` failure would stop the
  replay with the cells appended so far.
- The values of `log`, `exp`, `sqrt` and `std` in floating point: `Library` parameters
  and real arithmetic instead.
- Non-finite numpy values: a volume or statistic that would hold an infinity or NaN
  is an `Error` instead of a value that propagates.
- Statistics.Mean: an empty population is `EmptyPopulation`, where numpy returns NaN
  with a warning.
- DecayIndex.DecayIndexVolume: an isolated zero height, whose two neighbouring
  log-height steps are infinite, gives finite zero cells in numpy (a finite numerator
  over an infinite step); the model reports `LogOfNonPositiveHeight` instead.
- DecayIndex.DecayIndexVolume: on a grid with no horizontal cells the model still
  reports a non-positive height or a zero log-height step as an error. numpy instead
  returns an empty volume, in which nothing non-finite appears.
- All plotting and figure export, the `input()` prompts of `preplot` (height and width
  are arguments) and the `select_coordinates` loop.
- `_onclick_preplot`: it only records the clicked centre, which `PrePlot` takes as an
  argument.
- `savelog` and `loadlog`'s JSON file I/O: the log is an in-memory record, and `LoadLog`
  takes it as an argument.
- plotmlines' seed grid, its second solver run and field-line tracing: pfsspy's tracer
  over floats.
- `cal_decay_ss`: identical to `cal_decay` in every step modelled here, so `CalDecay`
  stands for both.
