/** The picker facade of src/picker.py: it keeps a strategy and a sampling
    frequency and forwards run_picking(data, geometry) to the strategy's pick.
    Every strategy's pick takes the record alone, so the forwarded call fails
    whichever strategy is kept. */
module Picker {
  import opened Common
  import opened Seismic
  import opened Strategies

  /** The title the picker's plots carry. */
  const DisplayTitle: string := "Seismographic Preview of First Breaks"

  class SeismicPicker {
    var strategy: Strategy
    var samplingFrequency: real

    constructor(strategy: Strategy, samplingFrequency: real)
      ensures this.strategy == strategy
      ensures this.samplingFrequency == samplingFrequency
    {
      this.strategy := strategy;
      this.samplingFrequency := samplingFrequency;
    }

    /** run_picking: the result of strategy.pick(data, geometry), unchanged.
        The sampling frequency plays no part, and no field is written. */
    method RunPicking(data: SeismicRecord, geometry: Geometry) returns (r: Result<seq<int>>)
      requires data.IsRectangular()
      ensures r == Pick(strategy, DataAndGeometry(data, geometry))
      ensures r == Err(UnexpectedArgument)
    {
      r := Run(strategy, DataAndGeometry(data, geometry));
    }
  }
}
