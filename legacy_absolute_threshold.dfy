/** The older copy of the absolute-threshold picker, strategies/absolute_threshold.py.
    Its docstring speaks of normalising each trace by its peak-to-trough
    amplitude; the code does not. It is modelled here as the literal vectorised
    pipeline (magnitude, mask, any, argmax, masked write) and proved to pick
    exactly what the recursive model of the newer copy picks. */
module LegacyAbsoluteThreshold {
  import opened Common
  import opened Seismic
  import AbsoluteThreshold

  /** Column t of the mask abs(data) > threshold. */
  function CrossedThreshold(data: SeismicRecord, t: nat, threshold: real): (crossed: seq<bool>)
    requires data.IsRectangular() && t < data.numTraces
    ensures |crossed| == data.NumSamples()
    ensures forall i :: 0 <= i < data.NumSamples() ==> (crossed[i] <==> Abs(data.rows[i][t]) > threshold)
  {
    GreaterThan(Magnitudes(data.Column(t)), threshold)
  }

  /** _find_first_break_indices: argmax of every mask column, then -1 written
      wherever a column has no True. */
  function FindFirstBreakIndices(data: SeismicRecord, threshold: real): (r: Result<seq<int>>)
    requires data.IsRectangular()
    ensures r.Err? <==> data.NumSamples() == 0
    ensures r.Ok? ==> |r.value| == data.numTraces
    ensures r.Ok? ==> forall t :: 0 <= t < data.numTraces ==>
      IsFirstAbove(Magnitudes(data.Column(t)), 0, threshold, r.value[t])
  {
    if data.NumSamples() == 0 then Err(ArgmaxOfEmptySequence)
    else
      var n := data.numTraces;
      var failedTraceMask := seq(n, t requires 0 <= t < n => true !in CrossedThreshold(data, t, threshold));
      var pickIndices := seq(n, t requires 0 <= t < n => ArgMaxBool(CrossedThreshold(data, t, threshold)));
      var picks := seq(n, t requires 0 <= t < n => if failedTraceMask[t] then -1 else pickIndices[t]);
      assert forall t :: 0 <= t < n ==> picks[t] == ArgMaxCrossing(Magnitudes(data.Column(t)), threshold);
      Ok(picks)
  }

  /** Both copies of the picker return the same result on every record, so
      every property proved of AbsoluteThreshold (sign insensitivity,
      monotonicity in the threshold, per-trace independence) holds here too. */
  lemma CopiesAgree(data: SeismicRecord, threshold: real)
    requires data.IsRectangular()
    ensures FindFirstBreakIndices(data, threshold) == AbsoluteThreshold.FindFirstBreakIndices(data, threshold)
  {
    if data.NumSamples() > 0 {
      var older := FindFirstBreakIndices(data, threshold).value;
      var newer := AbsoluteThreshold.FindFirstBreakIndices(data, threshold).value;
      forall t | 0 <= t < data.numTraces ensures older[t] == newer[t] {
        FirstAboveUnique(Magnitudes(data.Column(t)), 0, threshold, older[t], newer[t]);
      }
      assert older == newer;
    }
  }

  /** No peak-to-trough normalisation: the traces [0, 0.5] and [0, 2] both
      normalise to [0, 1], so a normalising picker would pick them alike; this
      one picks only the louder. */
  lemma NoNormalisation()
    ensures FindFirstBreakIndices(SeismicRecord([[0.0], [0.5]], 1), 0.75) == Ok([-1])
    ensures FindFirstBreakIndices(SeismicRecord([[0.0], [4.0 * 0.5]], 1), 0.75) == Ok([1])
  {
    var quiet, loud := SeismicRecord([[0.0], [0.5]], 1), SeismicRecord([[0.0], [2.0]], 1);
    assert quiet.Column(0) == [0.0, 0.5] && Magnitudes([0.0, 0.5]) == [0.0, 0.5];
    assert loud.Column(0) == [0.0, 2.0] && Magnitudes([0.0, 2.0]) == [0.0, 2.0];
    var mq, ml := Magnitudes(quiet.Column(0)), Magnitudes(loud.Column(0));
    assert mq == [0.0, 0.5] && ml == [0.0, 2.0];
    assert mq[0] == 0.0 && mq[1] == 0.5 && ml[0] == 0.0 && ml[1] == 2.0;
    var q, l := FindFirstBreakIndices(quiet, 0.75).value, FindFirstBreakIndices(loud, 0.75).value;
    assert IsFirstAbove(mq, 0, 0.75, q[0]) && IsFirstAbove(ml, 0, 0.75, l[0]);
    assert q[0] != 0 && q[0] != 1;
    assert l[0] != -1 && l[0] != 0;
    assert q == [-1] && l == [1];
  }
}
