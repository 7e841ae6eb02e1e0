/** The absolute-threshold picker of src/strategies/absolute_threshold.py:
    each trace's pick is its first sample whose magnitude strictly exceeds the
    threshold, or -1. No normalisation of any kind is applied. */
module AbsoluteThreshold {
  import opened Common
  import opened Seismic

  /** The constructor's default threshold. */
  const DefaultThreshold: real := 0.000000001

  /** The pick of one trace: the first index above the threshold in |trace|. */
  function TracePick(trace: seq<real>, threshold: real): (p: int)
    ensures -1 <= p < |trace|
    ensures IsFirstAbove(Magnitudes(trace), 0, threshold, p)
  {
    FirstAboveFrom(Magnitudes(trace), 0, threshold)
  }

  /** _find_first_break_indices: one pick per trace, computed from that trace
      alone. numpy's argmax rejects a zero-length sample axis. */
  function FindFirstBreakIndices(data: SeismicRecord, threshold: real): (r: Result<seq<int>>)
    requires data.IsRectangular()
    ensures r.Err? <==> data.NumSamples() == 0
    ensures r.Err? ==> r.error == ArgmaxOfEmptySequence
    ensures r.Ok? ==> |r.value| == data.numTraces
    ensures r.Ok? ==> forall t :: 0 <= t < data.numTraces ==>
      IsFirstAbove(Magnitudes(data.Column(t)), 0, threshold, r.value[t])
  {
    if data.NumSamples() == 0 then Err(ArgmaxOfEmptySequence)
    else Ok(seq(data.numTraces, t requires 0 <= t < data.numTraces => TracePick(data.Column(t), threshold)))
  }

  /** A pick is -1 exactly when no sample strictly exceeds the threshold; a
      sample equal to the threshold is never picked. */
  lemma NoPickIffNothingAbove(trace: seq<real>, threshold: real)
    ensures TracePick(trace, threshold) == -1 <==>
      forall j :: 0 <= j < |trace| ==> Abs(trace[j]) <= threshold
  {
    var p := TracePick(trace, threshold);
    if p != -1 {
      assert Magnitudes(trace)[p] == Abs(trace[p]);
    } else {
      forall j | 0 <= j < |trace| ensures Abs(trace[j]) <= threshold {
        assert Magnitudes(trace)[j] == Abs(trace[j]);
      }
    }
  }

  /** Negating any subset of a trace's samples leaves its pick unchanged. */
  lemma SignInsensitive(trace: seq<real>, flipped: seq<real>, threshold: real)
    requires |flipped| == |trace|
    requires forall j :: 0 <= j < |trace| ==> flipped[j] == trace[j] || flipped[j] == -trace[j]
    ensures TracePick(flipped, threshold) == TracePick(trace, threshold)
  {
    var m, m' := Magnitudes(trace), Magnitudes(flipped);
    forall j | 0 <= j < |trace| ensures m'[j] == m[j] {
      assert Abs(flipped[j]) == Abs(trace[j]);
    }
    assert m' == m;
  }

  /** Raising the threshold can only move a pick later, or to -1. */
  lemma RaisingThresholdDelaysPick(trace: seq<real>, low: real, high: real)
    requires low <= high
    ensures var pLow, pHigh := TracePick(trace, low), TracePick(trace, high);
      pHigh == -1 || (pLow != -1 && pLow <= pHigh)
  {
  }

  /** A trace that is silent except for one sample whose magnitude exceeds a
      non-negative threshold is picked exactly at that sample. */
  lemma ImpulseIsPickedExactly(trace: seq<real>, onset: nat, threshold: real)
    requires 0.0 <= threshold && onset < |trace|
    requires Abs(trace[onset]) > threshold
    requires forall j :: 0 <= j < |trace| && j != onset ==> trace[j] == 0.0
    ensures TracePick(trace, threshold) == onset
  {
    var p := TracePick(trace, threshold);
    var m := Magnitudes(trace);
    assert m[onset] > threshold;
    assert m[p] > threshold;
    assert trace[p] != 0.0;
  }

  /** The pick of trace t is a function of column t alone. */
  lemma PicksDependOnlyOnOwnTrace(a: SeismicRecord, b: SeismicRecord, threshold: real, t: nat)
    requires a.IsRectangular() && b.IsRectangular() && a.NumSamples() > 0 && b.NumSamples() > 0
    requires t < a.numTraces && t < b.numTraces && a.Column(t) == b.Column(t)
    ensures FindFirstBreakIndices(a, threshold).value[t] == FindFirstBreakIndices(b, threshold).value[t]
  {
    var pa, pb := FindFirstBreakIndices(a, threshold).value[t], FindFirstBreakIndices(b, threshold).value[t];
    FirstAboveUnique(Magnitudes(a.Column(t)), 0, threshold, pa, pb);
  }

  /** A record in which each trace t is silent except for one sample at
      onsets[t] whose magnitude exceeds the threshold is picked exactly at the
      onsets. */
  lemma ImpulseRecordPicks(data: SeismicRecord, onsets: seq<nat>, threshold: real)
    requires data.IsRectangular() && data.NumSamples() > 0 && 0.0 <= threshold
    requires |onsets| == data.numTraces
    requires forall t :: 0 <= t < |onsets| ==> onsets[t] < data.NumSamples()
    requires forall t :: 0 <= t < |onsets| ==> Abs(data.rows[onsets[t]][t]) > threshold
    requires forall i, t :: 0 <= i < data.NumSamples() && 0 <= t < |onsets| && i != onsets[t] ==>
      data.rows[i][t] == 0.0
    ensures FindFirstBreakIndices(data, threshold) == Ok(onsets)
  {
    var r := FindFirstBreakIndices(data, threshold).value;
    forall t | 0 <= t < |onsets| ensures r[t] == onsets[t] {
      ImpulseIsPickedExactly(data.Column(t), onsets[t], threshold);
    }
    assert r == onsets;
  }

  /** A record with only zero samples has no picks when the threshold is not
      negative. */
  lemma SilentRecordHasNoPicks(data: SeismicRecord, threshold: real)
    requires data.IsRectangular() && data.NumSamples() > 0 && 0.0 <= threshold
    requires forall i, t :: 0 <= i < data.NumSamples() && 0 <= t < data.numTraces ==> data.rows[i][t] == 0.0
    ensures FindFirstBreakIndices(data, threshold) == Ok(seq(data.numTraces, _ => -1))
  {
    var r := FindFirstBreakIndices(data, threshold).value;
    forall t | 0 <= t < data.numTraces ensures r[t] == -1 {
      NoPickIffNothingAbove(data.Column(t), threshold);
    }
    assert r == seq(data.numTraces, _ => -1);
  }
}
