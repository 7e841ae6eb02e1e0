/** The pick-array helpers of src/analysis.py: converting sample indices to
    milliseconds, and choosing the source sensor (the earliest valid pick) and
    each sensor's distance from it. Distances are squared Euclidean distances;
    the square root is not modelled. */
module Analysis {
  import opened Common
  import opened Seismic

  // ---------------------------------------------------------------------------
  // convert_indices_to_time

  /** Index i becomes i / fs * 1000 ms; exactly the sentinel -1 becomes NaN
      (None). The input sequence is a value and is left as it was. */
  function ConvertIndicesToTime(indices: seq<int>, fs: real): (times: seq<Option<real>>)
    requires fs != 0.0
    ensures |times| == |indices|
    ensures forall k :: 0 <= k < |indices| ==> (times[k] == None <==> indices[k] == -1)
    ensures forall k :: 0 <= k < |indices| && indices[k] != -1 ==>
      times[k].Some? && times[k].value * fs == (indices[k] as real) * 1000.0
  {
    seq(|indices|, k requires 0 <= k < |indices| =>
      if indices[k] == -1 then None else Some(MillisecondsOf(indices[k], fs)))
  }

  /** i / fs * 1000: the time of sample i in milliseconds, i.e. the t with
      t * fs == 1000 * i. */
  function MillisecondsOf(i: int, fs: real): (t: real)
    requires fs != 0.0
    ensures t * fs == (i as real) * 1000.0
  {
    var q := (i as real) / fs;
    assert q * fs == i as real;
    q * 1000.0
  }

  /** Only -1 is the sentinel: any other negative index, -2 for instance,
      becomes a negative time rather than NaN. */
  lemma OtherNegativeIndicesGiveNegativeTimes(indices: seq<int>, fs: real, k: nat)
    requires fs > 0.0 && k < |indices| && indices[k] < -1
    ensures ConvertIndicesToTime(indices, fs)[k].Some?
    ensures ConvertIndicesToTime(indices, fs)[k].value < 0.0
  {
    var q := (indices[k] as real) / fs;
    assert q * fs == indices[k] as real;
    NegativeQuotient(indices[k] as real, fs);
  }

  lemma NegativeQuotient(x: real, fs: real)
    requires x < 0.0 && fs > 0.0
    ensures x / fs < 0.0
  {
    var q := x / fs;
    assert q * fs == x;
    NonNegativeProduct(q, fs);
  }

  lemma NonNegativeProduct(q: real, fs: real)
    ensures q >= 0.0 && fs >= 0.0 ==> q * fs >= 0.0
  {
  }

  // ---------------------------------------------------------------------------
  // calculate_distances_from_source: choosing the source

  /** np.where(pick_indices > -1, pick_indices, np.inf): a valid pick keeps its
      index, every pick <= -1 becomes +infinity. */
  datatype PickKey = Finite(index: int) | Infinite

  function KeyOf(pick: int): (k: PickKey)
    ensures k.Finite? <==> pick > -1
    ensures k.Finite? ==> k.index == pick
  {
    if pick > -1 then Finite(pick) else Infinite
  }

  /** The order argmin compares by: numbers by value, +infinity above all. */
  predicate KeyLe(a: PickKey, b: PickKey) {
    match (a, b)
    case (Finite(x), Finite(y)) => x <= y
    case (Finite(_), Infinite) => true
    case (Infinite, Finite(_)) => false
    case (Infinite, Infinite) => true
  }

  /** np.argmin: the index of the first smallest key. */
  function ArgMin(keys: seq<PickKey>): (k: nat)
    requires |keys| > 0
    ensures k < |keys|
    ensures forall j :: 0 <= j < |keys| ==> KeyLe(keys[k], keys[j])
    ensures forall j :: 0 <= j < k ==> !KeyLe(keys[j], keys[k])
  {
    if |keys| == 1 then 0
    else
      var k := ArgMin(keys[..|keys| - 1]);
      if KeyLe(keys[k], keys[|keys| - 1]) then k else |keys| - 1
  }

  /** The source sensor: the lowest-numbered sensor among those with the
      smallest valid (> -1) pick; sensor 0 when no pick is valid. numpy's
      argmin rejects an empty array. */
  function SourceSensorIndex(picks: seq<int>): (s: nat)
    requires |picks| > 0
    ensures s < |picks|
    ensures (exists j :: 0 <= j < |picks| && picks[j] > -1) ==>
      && picks[s] > -1
      && (forall j :: 0 <= j < |picks| && picks[j] > -1 ==> picks[s] <= picks[j])
      && (forall j :: 0 <= j < s ==> picks[j] <= -1 || picks[j] > picks[s])
    ensures (forall j :: 0 <= j < |picks| ==> picks[j] <= -1) ==> s == 0
  {
    var keys := seq(|picks|, j requires 0 <= j < |picks| => KeyOf(picks[j]));
    var s := ArgMin(keys);
    assert forall j :: 0 <= j < |picks| ==> keys[j] == KeyOf(picks[j]);
    assert s > 0 ==> !KeyLe(keys[0], keys[s]);
    s
  }

  // ---------------------------------------------------------------------------
  // calculate_distances_from_source: the distances

  /** Every coordinate row has the same length. */
  predicate IsRectangularGeometry(geometry: Geometry) {
    forall i, j :: 0 <= i < |geometry| && 0 <= j < |geometry| ==> |geometry[i]| == |geometry[j]|
  }

  /** The squared Euclidean distance between two points. */
  function SquaredDistance(a: seq<real>, b: seq<real>): (d: real)
    requires |a| == |b|
    ensures d >= 0.0
  {
    if |a| == 0 then 0.0
    else
      SquareSign(a[0] - b[0]);
      Square(a[0] - b[0]) + SquaredDistance(a[1..], b[1..])
  }

  function Square(x: real): real {
    x * x
  }

  /** A square is never negative, and is zero only at zero. */
  lemma SquareSign(x: real)
    ensures Square(x) >= 0.0
    ensures Square(x) == 0.0 <==> x == 0.0
  {
    if x > 0.0 {
      PositiveProduct(x, x, Square(x));
    } else if x < 0.0 {
      PositiveProduct(-x, -x, Square(x));
    }
  }

  lemma PositiveProduct(a: real, b: real, p: real)
    requires a > 0.0 && b > 0.0 && p == a * b
    ensures p > 0.0
  {
  }

  /** Two points are at distance zero exactly when they are equal. */
  lemma {:induction false} SquaredDistanceZeroIff(a: seq<real>, b: seq<real>)
    requires |a| == |b|
    ensures SquaredDistance(a, b) == 0.0 <==> a == b
  {
    if |a| > 0 {
      SquaredDistanceZeroIff(a[1..], b[1..]);
      SquareSign(a[0] - b[0]);
      assert a == [a[0]] + a[1..] && b == [b[0]] + b[1..];
    }
  }

  /** The pick array and the geometry give one squared distance per geometry
      row, measured from the row of the source sensor. */
  function CalculateDistancesFromSource(geometry: Geometry, picks: seq<int>): (r: Result<seq<real>>)
    requires IsRectangularGeometry(geometry)
    ensures |picks| == 0 ==> r == Err(ArgminOfEmptySequence)
    ensures |picks| > 0 ==> (r.Ok? <==> SourceSensorIndex(picks) < |geometry|)
    ensures |picks| > 0 && r.Err? ==> r.error == IndexOutOfBounds
    ensures r.Ok? ==> |r.value| == |geometry| && forall i :: 0 <= i < |geometry| ==> r.value[i] >= 0.0
    ensures r.Ok? ==> r.value[SourceSensorIndex(picks)] == 0.0
    ensures r.Ok? ==> forall i :: 0 <= i < |geometry| ==>
      r.value[i] == SquaredDistance(geometry[i], geometry[SourceSensorIndex(picks)])
    ensures r.Ok? ==> forall i :: 0 <= i < |geometry| ==>
      (r.value[i] == 0.0 <==> geometry[i] == geometry[SourceSensorIndex(picks)])
  {
    if |picks| == 0 then Err(ArgminOfEmptySequence)
    else
      var source := SourceSensorIndex(picks);
      if source >= |geometry| then Err(IndexOutOfBounds)
      else
        var sourceCoords := geometry[source];
        var distances := seq(|geometry|, i requires 0 <= i < |geometry| => SquaredDistance(geometry[i], sourceCoords));
        assert forall i :: 0 <= i < |geometry| ==> (distances[i] == 0.0 <==> geometry[i] == sourceCoords) by {
          forall i | 0 <= i < |geometry| ensures distances[i] == 0.0 <==> geometry[i] == sourceCoords {
            SquaredDistanceZeroIff(geometry[i], sourceCoords);
          }
        }
        Ok(distances)
  }

  // ---------------------------------------------------------------------------
  // Translation invariance

  function AddVector(a: seq<real>, offset: seq<real>): (r: seq<real>)
    requires |a| == |offset|
    ensures |r| == |a|
  {
    seq(|a|, k requires 0 <= k < |a| => a[k] + offset[k])
  }

  /** Every sensor moved by the same offset. */
  function Translate(geometry: Geometry, offset: seq<real>): (moved: Geometry)
    requires forall i :: 0 <= i < |geometry| ==> |geometry[i]| == |offset|
    ensures |moved| == |geometry|
  {
    seq(|geometry|, i requires 0 <= i < |geometry| => AddVector(geometry[i], offset))
  }

  lemma {:induction false} SquaredDistanceTranslation(a: seq<real>, b: seq<real>, offset: seq<real>)
    requires |a| == |b| == |offset|
    ensures SquaredDistance(AddVector(a, offset), AddVector(b, offset)) == SquaredDistance(a, b)
  {
    if |a| > 0 {
      SquaredDistanceTranslation(a[1..], b[1..], offset[1..]);
      assert AddVector(a, offset)[1..] == AddVector(a[1..], offset[1..]);
      assert AddVector(b, offset)[1..] == AddVector(b[1..], offset[1..]);
    }
  }

  /** Adding one offset vector to every sensor's coordinates leaves every
      distance from the source unchanged. */
  lemma DistancesTranslationInvariant(geometry: Geometry, picks: seq<int>, offset: seq<real>)
    requires IsRectangularGeometry(geometry)
    requires forall i :: 0 <= i < |geometry| ==> |geometry[i]| == |offset|
    ensures IsRectangularGeometry(Translate(geometry, offset))
    ensures CalculateDistancesFromSource(Translate(geometry, offset), picks) ==
      CalculateDistancesFromSource(geometry, picks)
  {
    var moved := Translate(geometry, offset);
    var before, after := CalculateDistancesFromSource(geometry, picks), CalculateDistancesFromSource(moved, picks);
    if before.Ok? {
      var source := SourceSensorIndex(picks);
      forall i | 0 <= i < |geometry| ensures after.value[i] == before.value[i] {
        SquaredDistanceTranslation(geometry[i], geometry[source], offset);
      }
      assert after.value == before.value;
    }
  }
}
