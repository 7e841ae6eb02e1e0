/** The older copy of convert_indices_to_time, analysis.py. It is modelled in
    its two steps (scale every index, then overwrite the -1 entries with NaN)
    and proved to agree with the one-step model of src/analysis.py. */
module LegacyAnalysis {
  import opened Common
  import Analysis

  /** indices.astype(float) / fs * 1000.0: a fresh array of times. */
  function ScaledTimes(indices: seq<int>, fs: real): (times: seq<Option<real>>)
    requires fs != 0.0
    ensures |times| == |indices|
    ensures forall k :: 0 <= k < |indices| ==>
      times[k].Some? && times[k].value * fs == (indices[k] as real) * 1000.0
  {
    seq(|indices|, k requires 0 <= k < |indices| => Some(Analysis.MillisecondsOf(indices[k], fs)))
  }

  /** times[indices == -1] = nan, on the copy. */
  function MaskSentinel(times: seq<Option<real>>, indices: seq<int>): (masked: seq<Option<real>>)
    requires |times| == |indices|
    ensures |masked| == |times|
    ensures forall k :: 0 <= k < |times| ==> (indices[k] == -1 ==> masked[k] == None)
    ensures forall k :: 0 <= k < |times| ==> (indices[k] != -1 ==> masked[k] == times[k])
  {
    seq(|times|, k requires 0 <= k < |times| => if indices[k] == -1 then None else times[k])
  }

  /** convert_indices_to_time: one time per index; exactly the sentinel -1
      becomes NaN, every other index i becomes the t with t * fs == 1000 * i. */
  function ConvertIndicesToTime(indices: seq<int>, fs: real): (times: seq<Option<real>>)
    requires fs != 0.0
    ensures |times| == |indices|
    ensures forall k :: 0 <= k < |indices| ==> (times[k] == None <==> indices[k] == -1)
    ensures forall k :: 0 <= k < |indices| && indices[k] != -1 ==>
      times[k].Some? && times[k].value * fs == (indices[k] as real) * 1000.0
  {
    MaskSentinel(ScaledTimes(indices, fs), indices)
  }

  /** Both copies convert every index array to the same times. */
  lemma CopiesAgree(indices: seq<int>, fs: real)
    requires fs != 0.0
    ensures ConvertIndicesToTime(indices, fs) == Analysis.ConvertIndicesToTime(indices, fs)
  {
    var older, newer := ConvertIndicesToTime(indices, fs), Analysis.ConvertIndicesToTime(indices, fs);
    forall k | 0 <= k < |indices| ensures older[k] == newer[k] {
      assert ScaledTimes(indices, fs)[k] == Some(Analysis.MillisecondsOf(indices[k], fs));
    }
    assert older == newer;
  }

  /** Sample 0 is at 0 ms, whatever the sampling frequency. */
  lemma ZeroIndexIsZeroMs(indices: seq<int>, fs: real, k: nat)
    requires fs != 0.0 && k < |indices| && indices[k] == 0
    ensures ConvertIndicesToTime(indices, fs)[k] == Some(0.0)
  {
    var t := ConvertIndicesToTime(indices, fs)[k].value;
    ZeroProduct(t, fs);
  }

  lemma ZeroProduct(t: real, fs: real)
    requires fs != 0.0 && t * fs == 0.0
    ensures t == 0.0
  {
    var q := (t * fs) / fs;
    assert q == t;
  }

  /** For a positive sampling frequency, a later sample is at a later time. */
  lemma StrictlyIncreasing(indices: seq<int>, fs: real, i: nat, j: nat)
    requires fs > 0.0 && i < |indices| && j < |indices|
    requires indices[i] != -1 && indices[j] != -1 && indices[i] < indices[j]
    ensures ConvertIndicesToTime(indices, fs)[i].value < ConvertIndicesToTime(indices, fs)[j].value
  {
    var times := ConvertIndicesToTime(indices, fs);
    var ti, tj := times[i].value, times[j].value;
    assert (tj - ti) * fs == ((indices[j] - indices[i]) as real) * 1000.0;
    PositiveFactor(tj - ti, fs);
  }

  lemma PositiveFactor(d: real, fs: real)
    requires fs > 0.0 && d * fs > 0.0
    ensures d > 0.0
  {
    var q := (d * fs) / fs;
    assert q == d;
    Analysis.PositiveProduct((d * fs), 1.0 / fs, q);
  }
}
