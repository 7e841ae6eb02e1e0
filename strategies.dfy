/** The picking strategies, as a closed set of variants behind the pick()
    interface of src/strategies/base_strategy.py. Every strategy's pick takes
    the record alone; a call that also passes a geometry fails as Python's
    TypeError does. */
module Strategies {
  import opened Common
  import opened Seismic
  import AbsoluteThreshold
  import LegacyAbsoluteThreshold
  import StaLta

  datatype Strategy =
    | AbsoluteThresholdStrategy(threshold: real)        // src/strategies/absolute_threshold.py
    | LegacyAbsoluteThresholdStrategy(threshold: real)  // strategies/absolute_threshold.py
    | StaLtaStrategy(shortWindow: Window, longWindow: Window, ratioThreshold: real)  // src/strategies/sta_lta.py

  /** The strategies as their constructors build them with no arguments. */
  const DefaultAbsoluteThresholdStrategy: Strategy := AbsoluteThresholdStrategy(AbsoluteThreshold.DefaultThreshold)
  const DefaultLegacyAbsoluteThresholdStrategy: Strategy := LegacyAbsoluteThresholdStrategy(AbsoluteThreshold.DefaultThreshold)
  const DefaultStaLtaStrategy: Strategy :=
    StaLtaStrategy(StaLta.DefaultShortWindow, StaLta.DefaultLongWindow, StaLta.DefaultRatioThreshold)

  /** The positional arguments a caller hands to pick(). */
  datatype PickArguments =
    | DataOnly(data: SeismicRecord)
    | DataAndGeometry(data: SeismicRecord, geometry: Geometry)

  /** strategy.pick(*args): one pick per trace, each -1 or a sample index. Only
      the threshold pickers can fail on their own (argmax over no samples). */
  function Pick(strategy: Strategy, args: PickArguments): (r: Result<seq<int>>)
    requires args.data.IsRectangular()
    ensures args.DataAndGeometry? ==> r == Err(UnexpectedArgument)
    ensures args.DataOnly? && strategy.StaLtaStrategy? ==> r.Ok?
    ensures args.DataOnly? && !strategy.StaLtaStrategy? ==>
      (r.Err? <==> args.data.NumSamples() == 0) && (r.Err? ==> r.error == ArgmaxOfEmptySequence)
    ensures r.Ok? ==> |r.value| == args.data.numTraces
    ensures r.Ok? ==> forall t :: 0 <= t < args.data.numTraces ==> -1 <= r.value[t] < args.data.NumSamples()
  {
    match args
    case DataAndGeometry(_, _) => Err(UnexpectedArgument)
    case DataOnly(data) =>
      match strategy
      case AbsoluteThresholdStrategy(threshold) =>
        AbsoluteThreshold.FindFirstBreakIndices(data, threshold)
      case LegacyAbsoluteThresholdStrategy(threshold) =>
        LegacyAbsoluteThreshold.FindFirstBreakIndices(data, threshold)
      case StaLtaStrategy(shortWindow, longWindow, ratioThreshold) =>
        StaLta.PicksAreFirstCrossings(data, shortWindow, longWindow, ratioThreshold);
        Ok(StaLta.Picks(data, shortWindow, longWindow, ratioThreshold))
  }

  /** Dispatching pick() to the strategy's own picker. */
  method Run(strategy: Strategy, args: PickArguments) returns (r: Result<seq<int>>)
    requires args.data.IsRectangular()
    ensures r == Pick(strategy, args)
  {
    match args
    case DataAndGeometry(_, _) =>
      r := Err(UnexpectedArgument);
    case DataOnly(data) =>
      match strategy
      case AbsoluteThresholdStrategy(threshold) =>
        r := AbsoluteThreshold.FindFirstBreakIndices(data, threshold);
      case LegacyAbsoluteThresholdStrategy(threshold) =>
        r := LegacyAbsoluteThreshold.FindFirstBreakIndices(data, threshold);
      case StaLtaStrategy(shortWindow, longWindow, ratioThreshold) =>
        var picks := StaLta.FindFirstBreakIndices(data, shortWindow, longWindow, ratioThreshold);
        r := Ok(picks);
  }

  /** The two threshold strategies are interchangeable. */
  lemma ThresholdCopiesInterchangeable(threshold: real, data: SeismicRecord)
    requires data.IsRectangular()
    ensures Pick(AbsoluteThresholdStrategy(threshold), DataOnly(data)) ==
      Pick(LegacyAbsoluteThresholdStrategy(threshold), DataOnly(data))
  {
    LegacyAbsoluteThreshold.CopiesAgree(data, threshold);
  }
}
