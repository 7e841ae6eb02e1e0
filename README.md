# First-break picking, modelled in Dafny

This project models the first-break picking core of `picking-homework`. A
seismic record is a 2D array of samples by traces. A picking strategy returns
one integer per trace. The integer is either the sample index of the first
arrival (the "first break") or the sentinel -1, meaning "no pick". The model
covers:

- **Absolute-threshold picker.** There are two copies, `src/strategies/absolute_threshold.py`
  and the older `strategies/absolute_threshold.py`. A trace's pick is its first
  sample whose magnitude strictly exceeds the threshold. Module
  `AbsoluteThreshold` models the newer copy as a recursive "first index above"
  function. Module `LegacyAbsoluteThreshold` models the older copy as the
  literal mask / any / argmax / masked-write pipeline. `CopiesAgree` proves the
  two pick the same.
- **STA/LTA picker** (`src/strategies/sta_lta.py`), module `StaLta`.
  - The ratio series divides a causal short-window moving average of |x| by
    the long-window one plus 1e-15. Each average is `lfilter` with equal taps
    and zero history. The FIR sum is proved equal to a window sum divided by
    the full window length.
  - The picker is an imperative loop that writes into an array initialised to
    -1. The loop (`PickTraces`) takes the filter the instance applies to each
    trace (`self._compute_sta_lta`) as a function value, and is proved against
    `PicksUnder`, the picks of a record under that filter. `FindFirstBreakIndices`
    runs it with the STA/LTA filter, so it returns the record-level
    specification `Picks`.
- **Pick-array helpers** (`src/analysis.py`, `analysis.py`), modules `Analysis`
  and `LegacyAnalysis`.
  - Conversion of indices to milliseconds, with exactly -1 becoming NaN. NaN is
    `None`.
  - Choice of the source sensor: argmin over picks, with picks <= -1 replaced
    by +infinity.
  - The distance of every sensor from the source.
- **Strategy dispatch** (`src/strategies/base_strategy.py`), module `Strategies`.
  The strategies form a closed datatype. `Pick` is the specification of
  `strategy.pick(...)` and `Run` dispatches to each picker.
- **Picker facades** (`src/picker.py`, `picker.py`), modules `Picker` and
  `LegacyPicker`. Each is a class that stores its strategy (and, in `src/`, a
  sampling frequency) and forwards `run_picking`.

Amplitudes, times and coordinates are `real`. Errors that Python raises are
`Err` values of `Common.Result`:

- `ArgmaxOfEmptySequence`: numpy's argmax along a zero-length sample axis.
- `ArgminOfEmptySequence`: numpy's argmin of an empty pick array.
- `IndexOutOfBounds`: no geometry row for the chosen sensor.
- `UnexpectedArgument`: the `TypeError` raised because `src/picker.py:30`
  passes a geometry to a `pick` that takes only the record.

When no pick is > -1, numpy's `argmin` over an all-infinity array returns
sensor 0, and so does `Analysis.SourceSensorIndex`.

Where the source's docstring and its code disagree, the model follows the code:
the docstring of `strategies/absolute_threshold.py:6-7` promises
peak-to-trough normalisation, the code performs none, and
`LegacyAbsoluteThreshold.NoNormalisation` exhibits this.

## Model

| member | source | states |
|---|---|---|
| Seismic.Magnitudes | src/strategies/absolute_threshold.py:26 | np.abs keeps the length; each entry is non-negative and equals the sample or its negation |
| Seismic.GreaterThan | src/strategies/absolute_threshold.py:27 | the mask has the input's length and is True exactly where the value strictly exceeds the threshold |
| Seismic.ArgMaxBool | src/strategies/absolute_threshold.py:29 | argmax of a non-empty boolean array is the first True, or 0 when there is none |
| Seismic.ArgMaxCrossing | src/strategies/sta_lta.py:38-40 | the any-then-argmax idiom yields the first index whose value exceeds the threshold, or -1 when none does |
| Seismic.FirstAboveFrom | src/strategies/absolute_threshold.py:27-30 | the result is the first index at or after i above the threshold, or -1 when every later value is at most the threshold |
| Seismic.FirstAboveInSlice | src/strategies/sta_lta.py:37-41 | a first crossing found in xs[start:] at k is, as k + start, the first crossing of xs at or after start; no crossing in the slice means none at or after start |
| Seismic.FirstAboveUnique | src/strategies/absolute_threshold.py:27-30 | the first-crossing relation has at most one answer |
| AbsoluteThreshold.TracePick | src/strategies/absolute_threshold.py:26-30 | one trace's pick is -1 or a sample index; it is the first sample whose magnitude strictly exceeds the threshold, with every earlier magnitude at most the threshold |
| AbsoluteThreshold.FindFirstBreakIndices | src/strategies/absolute_threshold.py:25-31 | fails exactly when the record has no samples (argmax error); otherwise one pick per trace, each the first strict crossing of that trace's magnitudes or -1 |
| AbsoluteThreshold.NoPickIffNothingAbove | src/strategies/absolute_threshold.py:27-30 | a trace's pick is -1 if and only if no sample's magnitude strictly exceeds the threshold; a sample equal to the threshold is never picked |
| AbsoluteThreshold.SignInsensitive | src/strategies/absolute_threshold.py:26 | negating any subset of a trace's samples leaves its pick unchanged |
| AbsoluteThreshold.RaisingThresholdDelaysPick | src/strategies/absolute_threshold.py:27-30 | raising the threshold moves a pick later or to -1, never earlier |
| AbsoluteThreshold.ImpulseIsPickedExactly | src/strategies/absolute_threshold.py:26-30 | a trace that is zero except for one sample above a non-negative threshold is picked at that sample |
| AbsoluteThreshold.PicksDependOnlyOnOwnTrace | src/strategies/absolute_threshold.py:26-29 | two records that share column t give trace t the same pick |
| AbsoluteThreshold.ImpulseRecordPicks | src/strategies/absolute_threshold.py:25-31 | a record whose every trace is a single impulse above the threshold is picked exactly at the impulses |
| AbsoluteThreshold.SilentRecordHasNoPicks | src/strategies/absolute_threshold.py:25-31 | an all-zero record with a non-negative threshold gets -1 for every trace |
| LegacyAbsoluteThreshold.CrossedThreshold | strategies/absolute_threshold.py:35-36 | column t of the mask has one entry per sample, True exactly where the sample's magnitude strictly exceeds the threshold |
| LegacyAbsoluteThreshold.FindFirstBreakIndices | strategies/absolute_threshold.py:34-40 | the mask/any/argmax/masked-write pipeline fails exactly when there are no samples; otherwise one pick per trace, each the first strict crossing or -1 |
| LegacyAbsoluteThreshold.CopiesAgree | strategies/absolute_threshold.py:34-40 | the older copy returns exactly what the newer copy returns on every record and threshold |
| LegacyAbsoluteThreshold.NoNormalisation | strategies/absolute_threshold.py:6-7 | contrary to the docstring, amplitudes are not normalised: [0, 0.5] and [0, 2], which peak-to-trough normalisation maps to the same trace, are picked -1 and 1 at threshold 0.75 |
| StaLta.SumRange | src/strategies/sta_lta.py:51-52 | a window sum of non-negative samples is non-negative |
| StaLta.WindowMean | src/strategies/sta_lta.py:48-52 | the mean of the w samples ending at n, with zero history and divisor w, is non-negative for non-negative samples |
| StaLta.TrailingSum | src/strategies/sta_lta.py:51-52 | the FIR output with unit taps over non-negative samples is non-negative |
| StaLta.TrailingSumIsWindowSum | src/strategies/sta_lta.py:48-52 | output n of the FIR filter with w unit taps equals the sum of x[max(0, n-w+1)..n] |
| StaLta.MovingAverage | src/strategies/sta_lta.py:48-52 | lfilter(ones(w)/w, [1], x) keeps the length, and output n is the window mean ending at n |
| StaLta.Ratio | src/strategies/sta_lta.py:54 | sta / (lta + 1e-15) is the r with r * (lta + 1e-15) = sta, and is non-negative for non-negative sta |
| StaLta.ComputeStaLta | src/strategies/sta_lta.py:45-56 | the ratio series has the trace's length; entry n is the short-window mean of abs over the long-window mean plus epsilon |
| StaLta.SumRangeZeroIff | src/strategies/sta_lta.py:51 | a sum of non-negative samples is zero if and only if every sample in the window is zero |
| StaLta.SumRangeWiderIsLarger | src/strategies/sta_lta.py:51-52 | widening a window of non-negative samples to the left never shrinks its sum |
| StaLta.RatioNonNegative | src/strategies/sta_lta.py:46-54 | every ratio entry is non-negative |
| StaLta.RatioZeroIffShortWindowSilent | src/strategies/sta_lta.py:46-54 | ratio[n] is zero if and only if the short window ending at n holds only zero samples |
| StaLta.WindowSumRatioBound | src/strategies/sta_lta.py:48-54 | a short sum a at most a long sum b gives a ratio of means at most long/short |
| StaLta.RatioBoundedByWindowRatio | src/strategies/sta_lta.py:45-56 | with short_window <= long_window every ratio entry is at most long_window / short_window |
| StaLta.PickInRatio | src/strategies/sta_lta.py:37-41 | slicing a ratio series at long_window, then any and argmax, yields the first index at or after long_window whose ratio strictly exceeds the threshold, or -1 when none does |
| StaLta.TracePick | src/strategies/sta_lta.py:36-41 | one trace's pick is the first index at or after long_window whose STA/LTA ratio strictly exceeds the threshold, or -1; so it is -1 or long_window <= p < num_samples |
| StaLta.PicksUnder | src/strategies/sta_lta.py:30-43 | the picks of a record under a given filter: one per trace, pick t being the first index at or after long_window where filter(column t) strictly exceeds the threshold, or -1 |
| StaLta.Picks | src/strategies/sta_lta.py:30-43 | the record's STA/LTA picks: one per trace, each -1 or long_window <= p < num_samples |
| StaLta.PicksAreFirstCrossings | src/strategies/sta_lta.py:35-41 | pick t is the pick of column t alone, and it is the first index at or after long_window whose ratio exceeds the threshold, or -1 when none does |
| StaLta.SearchRatio | src/strategies/sta_lta.py:37-40 | the loop body's search reports a crossing exactly when the series' pick is not -1, and its offset plus long_window is that pick |
| StaLta.PickTraces | src/strategies/sta_lta.py:30-43 | the loop over traces, writing into an array initialised to -1, returns exactly the picks of the record under the filter it is given |
| StaLta.FindFirstBreakIndices | src/strategies/sta_lta.py:30-43 | the loop run with the STA/LTA filter returns exactly the record-level picks |
| StaLta.ShortTraceNeverPicked | src/strategies/sta_lta.py:37-38 | when long_window >= num_samples the search slice is empty and the pick is -1 |
| StaLta.SilentTraceNeverPicked | src/strategies/sta_lta.py:46-54 | an all-zero trace is never picked by a non-negative ratio threshold |
| StaLta.UnreachableThresholdNeverPicks | src/strategies/sta_lta.py:45-56 | with short_window <= long_window, a threshold of at least long_window/short_window is never crossed |
| StaLta.WitnessRatios | src/strategies/sta_lta.py:45-56 | at sample 2 the ratio of [0, 0, 1] exceeds 1.5 and the ratio of [0, 1, 1] stays below it, with windows 1 and 2 |
| StaLta.EarlySamplesFeedAverages | src/strategies/sta_lta.py:35-37 | the ratio is computed before slicing: two traces equal from long_window on get different picks |
| Analysis.ConvertIndicesToTime | src/analysis.py:4-7 | one time per index; exactly the entries equal to -1 become NaN, and every other index i becomes t with t * fs = 1000 * i |
| Analysis.MillisecondsOf | src/analysis.py:5 | i / fs * 1000 is the t with t * fs = 1000 * i |
| Analysis.OtherNegativeIndicesGiveNegativeTimes | src/analysis.py:5-6 | an index below -1 is not NaN but a negative time when fs > 0 |
| Analysis.KeyOf | src/analysis.py:13 | np.where(pick > -1, pick, inf): a pick > -1 keeps its value, every other pick becomes +infinity |
| Analysis.ArgMin | src/analysis.py:14 | argmin returns an index whose key is at most every key, and no earlier key is at most it (ties go to the lowest index) |
| Analysis.SourceSensorIndex | src/analysis.py:13-14 | when a pick > -1 exists, the source has a valid pick minimal among valid picks and every earlier sensor is invalid or later; when none exists the source is sensor 0 |
| Analysis.SquaredDistance | src/analysis.py:16 | the squared Euclidean distance is non-negative |
| Analysis.SquaredDistanceZeroIff | src/analysis.py:16 | two points are at distance zero if and only if they are equal |
| Analysis.CalculateDistancesFromSource | src/analysis.py:10-18 | empty picks fail as argmin does, a source with no geometry row fails as indexing does; otherwise one entry per geometry row, entry i being the squared distance from row i to the source's row, so non-negative, zero at the source and exactly at rows equal to the source's |
| Analysis.SquaredDistanceTranslation | src/analysis.py:16 | adding one offset to both points leaves their distance unchanged |
| Analysis.DistancesTranslationInvariant | src/analysis.py:15-16 | adding the same offset vector to every sensor leaves every distance from the source unchanged |
| LegacyAnalysis.ScaledTimes | analysis.py:5 | the scaled copy has one entry per index, and entry k is the time t with t * fs = 1000 * indices[k] |
| LegacyAnalysis.MaskSentinel | analysis.py:6 | the NaN write keeps the length of the copy, turns every entry whose index is -1 into NaN and leaves every other entry as it was |
| LegacyAnalysis.ConvertIndicesToTime | analysis.py:4-7 | same length; exactly -1 becomes NaN; any other index i becomes t with t * fs = 1000 * i |
| LegacyAnalysis.CopiesAgree | analysis.py:4-7 | the older conversion equals the newer one on every input |
| LegacyAnalysis.ZeroIndexIsZeroMs | analysis.py:5 | index 0 becomes 0 ms for every non-zero fs |
| LegacyAnalysis.StrictlyIncreasing | analysis.py:5 | for fs > 0 a larger non-sentinel index gets a strictly later time |
| Strategies.Pick | src/strategies/base_strategy.py:12-14 | pick with a geometry fails as a TypeError; with the record alone, one pick per trace, each -1 or a sample index, failing only for the threshold pickers on a record with no samples |
| Strategies.Run | src/strategies/sta_lta.py:17-28 | dispatching to each strategy's own picker, including the imperative STA/LTA loop, returns exactly Pick |
| Strategies.ThresholdCopiesInterchangeable | src/strategies/absolute_threshold.py:11-23 | the two absolute-threshold strategies pick the same on every record |
| Picker.SeismicPicker.constructor | src/picker.py:17-19 | the strategy and sampling frequency are stored unchanged |
| Picker.SeismicPicker.RunPicking | src/picker.py:21-31 | the result is exactly strategy.pick(data, geometry), which fails with a TypeError for every strategy; no field is written and the sampling frequency is not read |
| LegacyPicker.SeismicPicker.constructor | picker.py:16-17 | only the strategy is stored |
| LegacyPicker.SeismicPicker.RunPicking | picker.py:19-30 | the result is exactly strategy.pick(data), one pick per trace when it succeeds; no field is written |

## Left out

- Floating point: amplitudes, times and coordinates are exact reals. IEEE rounding, overflow and the rounding effect of the 1e-15 epsilon are not modelled. NaN is `None` and +infinity is `Analysis.Infinite`.
- Analysis.CalculateDistancesFromSource: returns squared Euclidean distances, because the square root of `np.linalg.norm` has no exact counterpart over the reals. Zero distances, translation invariance and the order of distances are unaffected.
- Analysis.ConvertIndicesToTime: requires fs != 0; numpy would divide by zero and return infinities or NaN.
- LegacyAnalysis.ConvertIndicesToTime: requires fs != 0, for the same reason.
- StaLta.ComputeStaLta: window lengths below 1 are excluded by the `Window` type; numpy and scipy reject them or divide by zero.
- StaLta.FindFirstBreakIndices: on a record with no samples but at least one trace, the source passes an empty trace to `lfilter` (`src/strategies/sta_lta.py:51-52`), which most likely raises a ValueError; the model instead returns -1 for every trace.
- Strategies.Pick: for the same reason it returns `Ok`, with every pick -1, for the STA/LTA strategy on a record with no samples and at least one trace, where the source most likely raises; only the threshold pickers' failure on such a record is modelled.
- Non-2D or ragged input: numpy's shape errors are replaced by the precondition that the record is rectangular.
- Integer width: pick indices are unbounded integers, not numpy int64.
- `ModelDrivenSTALTAStrategy` (used by `src/main.py:16` and `src/test_snr.py:18`) is not part of this model; its definition is not available.
- The constructor of `picker.py` takes only a strategy, but `main.py:17` also passes `sampling_frequency`. That call would raise a TypeError. The model keeps the one-argument constructor and does not model the failing call.
- Open dispatch: the abstract base class of `src/strategies/base_strategy.py` becomes the closed datatype `Strategies.Strategy` of the three strategies shown.
- Data loading (`.mat` files), plotting, noise generation, the command-line scripts and the RMSE evaluation are I/O or numerics outside the picking core.
- The display title constant of `src/picker.py:15` is kept as `Picker.DisplayTitle`; plotting itself is left out.
