/** The data the pickers work on, and the array primitives (numpy's abs,
    elementwise comparison, any and argmax) their pipelines are built from. */
module Seismic {

  /** A window length in samples. numpy and scipy reject or divide by zero on
      anything smaller than one. */
  type Window = n: int | n >= 1 witness 1

  /** A 2D seismic record: rows[i][t] is sample i of trace t. numTraces is kept
      apart from the rows so that a record with no samples still has a width. */
  datatype SeismicRecord = SeismicRecord(rows: seq<seq<real>>, numTraces: nat) {

    predicate IsRectangular() {
      forall i :: 0 <= i < |rows| ==> |rows[i]| == numTraces
    }

    function NumSamples(): nat { |rows| }

    /** data[:, t] */
    function Column(t: nat): (trace: seq<real>)
      requires IsRectangular() && t < numTraces
    {
      seq(|rows|, i requires 0 <= i < |rows| => rows[i][t])
    }
  }

  /** One row of coordinates per sensor. */
  type Geometry = seq<seq<real>>

  function Abs(x: real): (r: real)
    ensures r >= 0.0 && (r == x || r == -x)
  {
    if x < 0.0 then -x else x
  }

  /** np.abs of one trace */
  function Magnitudes(xs: seq<real>): (ms: seq<real>)
    ensures |ms| == |xs|
    ensures forall i :: 0 <= i < |xs| ==> ms[i] >= 0.0 && (ms[i] == xs[i] || ms[i] == -xs[i])
  {
    seq(|xs|, i requires 0 <= i < |xs| => Abs(xs[i]))
  }

  /** xs > threshold, elementwise */
  function GreaterThan(xs: seq<real>, threshold: real): (mask: seq<bool>)
    ensures |mask| == |xs|
    ensures forall i :: 0 <= i < |xs| ==> (mask[i] <==> xs[i] > threshold)
  {
    seq(|xs|, i requires 0 <= i < |xs| => xs[i] > threshold)
  }

  /** np.argmax of a boolean array: the first True, or 0 when there is none.
      numpy raises on an empty array, so callers check the length first. */
  function ArgMaxBool(mask: seq<bool>): (k: nat)
    requires |mask| > 0
    ensures k < |mask|
    ensures true in mask ==> mask[k] && forall j :: 0 <= j < k ==> !mask[j]
    ensures true !in mask ==> k == 0
  {
    if mask[0] || |mask| == 1 then 0
    else if true in mask[1..] then ArgMaxBool(mask[1..]) + 1
    else 0
  }

  /** The any-then-argmax idiom: -1 when no element exceeds threshold
      (np.any is false), otherwise np.argmax(xs > threshold). */
  function ArgMaxCrossing(xs: seq<real>, threshold: real): (p: int)
    ensures IsFirstAbove(xs, 0, threshold, p)
  {
    var crossed := GreaterThan(xs, threshold);
    if true in crossed then ArgMaxBool(crossed) else -1
  }

  /** The "first break" relation every picker promises: p is the first index at
      or after start whose value strictly exceeds threshold, or -1 when no such
      index exists. */
  ghost predicate IsFirstAbove(xs: seq<real>, start: nat, threshold: real, p: int) {
    || (p == -1 && forall j :: start <= j < |xs| ==> xs[j] <= threshold)
    || (start <= p < |xs| && xs[p] > threshold && forall j :: start <= j < p ==> xs[j] <= threshold)
  }

  /** The first index at or after i whose value exceeds threshold, or -1. */
  function FirstAboveFrom(xs: seq<real>, i: nat, threshold: real): (p: int)
    ensures IsFirstAbove(xs, i, threshold, p)
    decreases |xs| - i
  {
    if i >= |xs| then -1
    else if xs[i] > threshold then i
    else FirstAboveFrom(xs, i + 1, threshold)
  }

  /** A first crossing found in the slice xs[start..] is, with start added
      back, the first crossing at or after start in xs. */
  lemma FirstAboveInSlice(xs: seq<real>, start: nat, threshold: real, k: int)
    requires start <= |xs|
    requires IsFirstAbove(xs[start..], 0, threshold, k)
    ensures IsFirstAbove(xs, start, threshold, if k == -1 then -1 else k + start)
  {
    if k == -1 {
      forall j | start <= j < |xs| ensures xs[j] <= threshold {
        assert xs[start..][j - start] == xs[j];
      }
    } else {
      assert xs[start..][k] == xs[k + start];
      forall j | start <= j < k + start ensures xs[j] <= threshold {
        assert xs[start..][j - start] == xs[j];
      }
    }
  }

  /** The first-break relation has at most one answer, so any two pickers that
      both satisfy it agree. */
  lemma FirstAboveUnique(xs: seq<real>, start: nat, threshold: real, p: int, q: int)
    requires IsFirstAbove(xs, start, threshold, p)
    requires IsFirstAbove(xs, start, threshold, q)
    ensures p == q
  {
  }
}
