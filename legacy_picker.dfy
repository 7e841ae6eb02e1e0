/** The older picker facade, picker.py: it keeps only a strategy and forwards
    run_picking(data) to the strategy's pick. */
module LegacyPicker {
  import opened Common
  import opened Seismic
  import opened Strategies

  class SeismicPicker {
    var strategy: Strategy

    constructor(strategy: Strategy)
      ensures this.strategy == strategy
    {
      this.strategy := strategy;
    }

    /** run_picking: the result of strategy.pick(data), unchanged; no field is
        written, so two calls on the same record return the same picks. */
    method RunPicking(data: SeismicRecord) returns (r: Result<seq<int>>)
      requires data.IsRectangular()
      ensures r == Pick(strategy, DataOnly(data))
      ensures r.Ok? ==> |r.value| == data.numTraces
    {
      r := Run(strategy, DataOnly(data));
    }
  }
}
