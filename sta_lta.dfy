/** The STA/LTA picker of src/strategies/sta_lta.py. The ratio filter is a pair
    of causal moving averages of |trace| (lfilter with all-equal taps, zero
    history, always divided by the full window length); the picker takes, per
    trace, the first sample at or after long_window whose ratio strictly
    exceeds ratio_threshold. */
module StaLta {
  import opened Common
  import opened Seismic

  /** The constructor's defaults. */
  const DefaultShortWindow: Window := 20
  const DefaultLongWindow: Window := 200
  const DefaultRatioThreshold: real := 3.0

  /** Added to the long-term average before dividing. */
  const Epsilon: real := 0.000000000000001

  // ---------------------------------------------------------------------------
  // The ratio filter (_compute_sta_lta)

  /** Sum of x[lo..hi]: the reference definition of a window sum. */
  function SumRange(x: seq<real>, lo: nat, hi: nat): (s: real)
    requires hi <= |x|
    ensures (forall j :: lo <= j < hi ==> x[j] >= 0.0) ==> s >= 0.0
    decreases hi
  {
    if hi <= lo then 0.0 else SumRange(x, lo, hi - 1) + x[hi - 1]
  }

  /** The average of the w samples ending at n, with samples before 0 taken as
      zero and the full w as divisor. */
  function WindowMean(x: seq<real>, n: nat, w: Window): (m: real)
    requires n < |x|
    ensures (forall j :: 0 <= j < |x| ==> x[j] >= 0.0) ==> m >= 0.0
  {
    SumRange(x, Max(0, n - w + 1), n + 1) / (w as real)
  }

  /** Output n of the FIR filter with `taps` unit coefficients: the sum of
      x[n - k] for k < taps, where samples before 0 are zero. */
  function TrailingSum(x: seq<real>, n: int, taps: nat): (s: real)
    requires n < |x|
    ensures (forall j :: 0 <= j <= n ==> x[j] >= 0.0) ==> s >= 0.0
    decreases taps
  {
    if taps == 0 || n < 0 then 0.0 else x[n] + TrailingSum(x, n - 1, taps - 1)
  }

  lemma {:induction false} TrailingSumIsWindowSum(x: seq<real>, n: nat, taps: nat)
    requires n < |x|
    ensures TrailingSum(x, n, taps) == SumRange(x, Max(0, n - taps + 1), n + 1)
  {
    if taps == 0 {
    } else if n == 0 {
      assert TrailingSum(x, -1, taps - 1) == 0.0;
      assert SumRange(x, 0, 1) == SumRange(x, 0, 0) + x[0];
    } else {
      TrailingSumIsWindowSum(x, n - 1, taps - 1);
      assert SumRange(x, Max(0, n - taps + 1), n + 1) == SumRange(x, Max(0, n - taps + 1), n) + x[n];
    }
  }

  /** lfilter(ones(w) / w, [1], x): the causal moving average, output n being
      the mean of the window of w samples ending at n. */
  function MovingAverage(x: seq<real>, w: Window): (avg: seq<real>)
    ensures |avg| == |x|
    ensures forall n :: 0 <= n < |x| ==> avg[n] == WindowMean(x, n, w)
  {
    var avg := seq(|x|, n requires 0 <= n < |x| => TrailingSum(x, n, w) / (w as real));
    assert forall n :: 0 <= n < |x| ==> avg[n] == WindowMean(x, n, w) by {
      forall n | 0 <= n < |x| ensures avg[n] == WindowMean(x, n, w) {
        TrailingSumIsWindowSum(x, n, w);
      }
    }
    avg
  }

  /** One ratio sample, sta / (lta + epsilon), for a non-negative lta. */
  function Ratio(sta: real, lta: real): (r: real)
    requires lta >= 0.0
    ensures r * (lta + Epsilon) == sta
    ensures sta >= 0.0 ==> r >= 0.0
  {
    sta / (lta + Epsilon)
  }

  /** _compute_sta_lta: one ratio per sample, each the short-window mean of
      |trace| over the long-window mean plus epsilon. */
  function ComputeStaLta(trace: seq<real>, shortWindow: Window, longWindow: Window): (ratio: seq<real>)
    ensures |ratio| == |trace|
    ensures forall n :: 0 <= n < |trace| ==>
      ratio[n] == Ratio(WindowMean(Magnitudes(trace), n, shortWindow), WindowMean(Magnitudes(trace), n, longWindow))
  {
    var absTrace := Magnitudes(trace);
    var sta := MovingAverage(absTrace, shortWindow);
    var lta := MovingAverage(absTrace, longWindow);
    seq(|trace|, n requires 0 <= n < |trace| => Ratio(sta[n], lta[n]))
  }

  /** A sum of non-negative samples is zero exactly when every sample is. */
  lemma {:induction false} SumRangeZeroIff(x: seq<real>, lo: nat, hi: nat)
    requires hi <= |x| && forall j :: 0 <= j < |x| ==> x[j] >= 0.0
    ensures SumRange(x, lo, hi) == 0.0 <==> forall j :: lo <= j < hi ==> x[j] == 0.0
    decreases hi
  {
    if lo < hi {
      SumRangeZeroIff(x, lo, hi - 1);
    }
  }

  /** Widening a window of non-negative samples to the left cannot shrink its sum. */
  lemma {:induction false} SumRangeWiderIsLarger(x: seq<real>, wide: nat, narrow: nat, hi: nat)
    requires hi <= |x| && wide <= narrow && forall j :: 0 <= j < |x| ==> x[j] >= 0.0
    ensures SumRange(x, narrow, hi) <= SumRange(x, wide, hi)
    decreases hi
  {
    if narrow < hi {
      SumRangeWiderIsLarger(x, wide, narrow, hi - 1);
    }
  }

  /** The ratio series is non-negative everywhere. */
  lemma RatioNonNegative(trace: seq<real>, shortWindow: Window, longWindow: Window, n: nat)
    requires n < |trace|
    ensures ComputeStaLta(trace, shortWindow, longWindow)[n] >= 0.0
  {
    var x := Magnitudes(trace);
    var sta, lta := WindowMean(x, n, shortWindow), WindowMean(x, n, longWindow);
    assert sta >= 0.0 && lta + Epsilon > 0.0;
  }

  /** The ratio at n is zero exactly when the short window ending at n holds
      only zero samples. */
  lemma RatioZeroIffShortWindowSilent(trace: seq<real>, shortWindow: Window, longWindow: Window, n: nat)
    requires n < |trace|
    ensures ComputeStaLta(trace, shortWindow, longWindow)[n] == 0.0 <==>
      forall j :: Max(0, n - shortWindow + 1) <= j <= n ==> trace[j] == 0.0
  {
    var x := Magnitudes(trace);
    var lo := Max(0, n - shortWindow + 1);
    SumRangeZeroIff(x, lo, n + 1);
    var sta, lta := WindowMean(x, n, shortWindow), WindowMean(x, n, longWindow);
    assert lta + Epsilon > 0.0;
    assert Ratio(sta, lta) == 0.0 <==> sta == 0.0;
    assert (forall j :: lo <= j < n + 1 ==> x[j] == 0.0) <==> (forall j :: lo <= j <= n ==> trace[j] == 0.0);
  }

  /** a / d <= b whenever 0 <= a <= b * d and d > 0. */
  lemma QuotientBound(a: real, d: real, b: real)
    requires d > 0.0 && 0.0 <= a <= b * d
    ensures a / d <= b
  {
    var q := a / d;
    assert q * d == a;
    assert (q - b) * d <= 0.0;
  }

  /** The ratio of a short-window sum a and a long-window sum b >= a is at
      most long / short. */
  lemma WindowSumRatioBound(a: real, b: real, short: real, long: real)
    requires 0.0 <= a <= b && 1.0 <= short
    requires long >= 1.0
    ensures Ratio(a / short, b / long) <= long / short
  {
    var d := b / long + Epsilon;
    assert d * long == b + Epsilon * long;
    QuotientBound(a, d, long);
    QuotientBound(a / d, short, long / short);
    assert (a / short) / d == (a / d) / short;
  }

  /** With short_window <= long_window the ratio never exceeds
      long_window / short_window: the short window's sum is part of the long
      window's sum. */
  lemma RatioBoundedByWindowRatio(trace: seq<real>, shortWindow: Window, longWindow: Window, n: nat)
    requires shortWindow <= longWindow && n < |trace|
    ensures ComputeStaLta(trace, shortWindow, longWindow)[n] <= (longWindow as real) / (shortWindow as real)
  {
    var x := Magnitudes(trace);
    var a := SumRange(x, Max(0, n - shortWindow + 1), n + 1);
    var b := SumRange(x, Max(0, n - longWindow + 1), n + 1);
    SumRangeWiderIsLarger(x, Max(0, n - longWindow + 1), Max(0, n - shortWindow + 1), n + 1);
    WindowSumRatioBound(a, b, shortWindow as real, longWindow as real);
  }

  // ---------------------------------------------------------------------------
  // The picker (_find_first_break_indices)

  /** The search the loop body runs on one ratio series: slice it at
      long_window, compare with the threshold, then any and argmax. The result
      is the first index at or after long_window whose ratio strictly exceeds
      the threshold, or -1. */
  function PickInRatio(ratio: seq<real>, longWindow: Window, ratioThreshold: real): (p: int)
    ensures IsFirstAbove(ratio, longWindow, ratioThreshold, p)
  {
    var searchStart := Min(longWindow, |ratio|);
    var k := ArgMaxCrossing(ratio[searchStart..], ratioThreshold);
    FirstAboveInSlice(ratio, searchStart, ratioThreshold, k);
    if k == -1 then -1 else k + longWindow
  }

  /** The STA/LTA filter of an instance, as the function the loop applies to
      every trace. */
  function StaLtaFilter(shortWindow: Window, longWindow: Window): seq<real> -> seq<real> {
    trace => ComputeStaLta(trace, shortWindow, longWindow)
  }

  /** One trace's pick: the first index at or after long_window whose ratio
      strictly exceeds the threshold, or -1; so it is -1 or a sample index at
      or after long_window. */
  function TracePick(trace: seq<real>, shortWindow: Window, longWindow: Window, ratioThreshold: real): (p: int)
    ensures IsFirstAbove(ComputeStaLta(trace, shortWindow, longWindow), longWindow, ratioThreshold, p)
    ensures p == -1 || longWindow <= p < |trace|
  {
    PickInRatio(ComputeStaLta(trace, shortWindow, longWindow), longWindow, ratioThreshold)
  }

  /** The picks of a record when every trace is searched after `filter`:
      trace t's pick depends on column t alone, and is the first crossing of
      the filtered column at or after long_window. */
  function PicksUnder(data: SeismicRecord, filter: seq<real> -> seq<real>, longWindow: Window, ratioThreshold: real): (picks: seq<int>)
    requires data.IsRectangular()
    ensures |picks| == data.numTraces
    ensures forall t :: 0 <= t < data.numTraces ==>
      IsFirstAbove(filter(data.Column(t)), longWindow, ratioThreshold, picks[t])
  {
    seq(data.numTraces, t requires 0 <= t < data.numTraces =>
      PickInRatio(filter(data.Column(t)), longWindow, ratioThreshold))
  }

  /** The picks of a whole record under the STA/LTA filter: one per trace,
      each -1 or a sample index at or after long_window. */
  function Picks(data: SeismicRecord, shortWindow: Window, longWindow: Window, ratioThreshold: real): (picks: seq<int>)
    requires data.IsRectangular()
    ensures |picks| == data.numTraces
    ensures forall t :: 0 <= t < data.numTraces ==>
      picks[t] == -1 || longWindow <= picks[t] < data.NumSamples()
  {
    var picks := PicksUnder(data, StaLtaFilter(shortWindow, longWindow), longWindow, ratioThreshold);
    assert forall t :: 0 <= t < data.numTraces ==>
      picks[t] == TracePick(data.Column(t), shortWindow, longWindow, ratioThreshold);
    picks
  }

  /** Every trace's pick is the first crossing of that trace's ratio series
      at or after long_window. */
  lemma PicksAreFirstCrossings(data: SeismicRecord, shortWindow: Window, longWindow: Window, ratioThreshold: real)
    requires data.IsRectangular()
    ensures var picks := Picks(data, shortWindow, longWindow, ratioThreshold);
      forall t :: 0 <= t < data.numTraces ==>
        picks[t] == TracePick(data.Column(t), shortWindow, longWindow, ratioThreshold) &&
        IsFirstAbove(ComputeStaLta(data.Column(t), shortWindow, longWindow), longWindow, ratioThreshold, picks[t])
  {
    var picks := Picks(data, shortWindow, longWindow, ratioThreshold);
    forall t | 0 <= t < data.numTraces
      ensures picks[t] == TracePick(data.Column(t), shortWindow, longWindow, ratioThreshold)
    {
      assert StaLtaFilter(shortWindow, longWindow)(data.Column(t)) == ComputeStaLta(data.Column(t), shortWindow, longWindow);
    }
  }

  /** The loop body's search of one ratio series; when some sample crosses,
      the offset of the first one within the slice. */
  method SearchRatio(fullRatio: seq<real>, longWindow: Window, ratioThreshold: real)
    returns (crossed: bool, firstBreak: nat)
    ensures crossed <==> PickInRatio(fullRatio, longWindow, ratioThreshold) != -1
    ensures crossed ==> firstBreak + longWindow == PickInRatio(fullRatio, longWindow, ratioThreshold)
  {
    var staLtaRatio := fullRatio[Min(longWindow, |fullRatio|)..];
    var crossedThreshold := GreaterThan(staLtaRatio, ratioThreshold);
    crossed := true in crossedThreshold;
    firstBreak := 0;
    if crossed {
      firstBreak := ArgMaxBool(crossedThreshold);
    }
  }

  /** The loop of _find_first_break_indices, for the filter the instance
      applies: one pick per trace, starting from -1 and overwritten for each
      trace whose filtered series crosses the threshold at or after
      long_window. */
  method PickTraces(data: SeismicRecord, filter: seq<real> -> seq<real>, longWindow: Window, ratioThreshold: real)
    returns (picks: seq<int>)
    requires data.IsRectangular()
    ensures picks == PicksUnder(data, filter, longWindow, ratioThreshold)
  {
    var numTraces := data.numTraces;
    var pickIndices := new int[numTraces](_ => -1);
    var searchStartIndex := longWindow;
    ghost var expected := PicksUnder(data, filter, longWindow, ratioThreshold);
    for traceIdx := 0 to numTraces
      invariant pickIndices[..traceIdx] == expected[..traceIdx]
      invariant forall u :: traceIdx <= u < numTraces ==> pickIndices[u] == -1
    {
      ghost var done := pickIndices[..traceIdx];
      var trace := data.Column(traceIdx);
      var crossed, firstBreak := SearchRatio(filter(trace), longWindow, ratioThreshold);
      if crossed {
        pickIndices[traceIdx] := firstBreak + searchStartIndex;
      }
      assert pickIndices[traceIdx] == expected[traceIdx];
      assert pickIndices[..traceIdx + 1] == done + [expected[traceIdx]];
      assert expected[..traceIdx + 1] == expected[..traceIdx] + [expected[traceIdx]];
    }
    picks := pickIndices[..];
    assert picks == pickIndices[..numTraces] && expected == expected[..numTraces];
  }

  /** _find_first_break_indices: the loop above, run with the STA/LTA filter,
      returns exactly the record-level picks. */
  method FindFirstBreakIndices(data: SeismicRecord, shortWindow: Window, longWindow: Window, ratioThreshold: real)
    returns (picks: seq<int>)
    requires data.IsRectangular()
    ensures picks == Picks(data, shortWindow, longWindow, ratioThreshold)
  {
    picks := PickTraces(data, StaLtaFilter(shortWindow, longWindow), longWindow, ratioThreshold);
  }

  // ---------------------------------------------------------------------------
  // Properties of the picks

  /** When long_window reaches past the end of the trace the search slice is
      empty and the trace is never picked. */
  lemma ShortTraceNeverPicked(trace: seq<real>, shortWindow: Window, longWindow: Window, ratioThreshold: real)
    requires |trace| <= longWindow
    ensures TracePick(trace, shortWindow, longWindow, ratioThreshold) == -1
  {
  }

  /** An all-zero trace has an all-zero ratio series, so it is never picked
      by a non-negative ratio threshold. */
  lemma SilentTraceNeverPicked(trace: seq<real>, shortWindow: Window, longWindow: Window, ratioThreshold: real)
    requires 0.0 <= ratioThreshold
    requires forall j :: 0 <= j < |trace| ==> trace[j] == 0.0
    ensures TracePick(trace, shortWindow, longWindow, ratioThreshold) == -1
  {
    var p := TracePick(trace, shortWindow, longWindow, ratioThreshold);
    if p != -1 {
      RatioZeroIffShortWindowSilent(trace, shortWindow, longWindow, p);
      assert false;
    }
  }

  /** With short_window <= long_window, a ratio threshold of at least
      long_window / short_window can never be crossed. */
  lemma UnreachableThresholdNeverPicks(trace: seq<real>, shortWindow: Window, longWindow: Window, ratioThreshold: real)
    requires shortWindow <= longWindow
    requires (longWindow as real) / (shortWindow as real) <= ratioThreshold
    ensures TracePick(trace, shortWindow, longWindow, ratioThreshold) == -1
  {
    var p := TracePick(trace, shortWindow, longWindow, ratioThreshold);
    if p != -1 {
      RatioBoundedByWindowRatio(trace, shortWindow, longWindow, p);
      assert false;
    }
  }

  /** The ratios at sample 2 of the two witness traces below: 1 / (0.5 + eps)
      and 1 / (1 + eps). */
  lemma WitnessRatios()
    ensures ComputeStaLta([0.0, 0.0, 1.0], 1, 2)[2] > 1.5
    ensures ComputeStaLta([0.0, 1.0, 1.0], 1, 2)[2] < 1.5
  {
    var quiet, busy := [0.0, 0.0, 1.0], [0.0, 1.0, 1.0];
    var rq, rb := ComputeStaLta(quiet, 1, 2), ComputeStaLta(busy, 1, 2);
    assert Magnitudes(quiet) == quiet && Magnitudes(busy) == busy;
    assert WindowMean(quiet, 2, 1) == 1.0 && WindowMean(quiet, 2, 2) == 0.5;
    assert WindowMean(busy, 2, 1) == 1.0 && WindowMean(busy, 2, 2) == 1.0;
    assert rq[2] == 1.0 / (0.5 + Epsilon);
    assert rb[2] == 1.0 / (1.0 + Epsilon);
  }

  /** The ratio is computed over the whole trace before it is sliced, so
      samples before long_window feed the averages: two traces that agree from
      long_window = 2 on are picked differently. */
  lemma EarlySamplesFeedAverages()
    ensures TracePick([0.0, 0.0, 1.0], 1, 2, 1.5) == 2
    ensures TracePick([0.0, 1.0, 1.0], 1, 2, 1.5) == -1
  {
    var quiet, busy := [0.0, 0.0, 1.0], [0.0, 1.0, 1.0];
    WitnessRatios();
    FirstAboveUnique(ComputeStaLta(quiet, 1, 2), 2, 1.5, TracePick(quiet, 1, 2, 1.5), 2);
    FirstAboveUnique(ComputeStaLta(busy, 1, 2), 2, 1.5, TracePick(busy, 1, 2, 1.5), -1);
  }
}
