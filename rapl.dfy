// The RAPL library the daemon calls into, seen only through what its calls
// return: an error code plus a value per node. Nothing here is computed; the
// other modules receive these values as inputs.

module Rapl {

  type PositiveReal = r: real | r > 0.0 witness 1.0

  /** The value, in joules, at which a package energy-status counter wraps
      back to zero. The library fixes it; the model only relies on it being
      positive. */
  const MaxEnergyStatusJoules: PositiveReal

  /** A reading lies in the range the hardware counter can take. */
  predicate InCounterRange(x: real)
  {
    0.0 <= x < MaxEnergyStatusJoules
  }

  /** What one call of the per-node energy query hands back: its error code
      (0 on success) and the cumulative reading it stored. */
  datatype EnergyReading = EnergyReading(code: int, joules: real)

  /** The package power-limit descriptor: two limit/window pairs with their
      enable and clamp flags, and the register lock. */
  datatype PowerLimitControl = PowerLimitControl(
    powerLimitWatts1: real,
    limitTimeWindowSeconds1: real,
    limitEnabled1: nat,
    clampEnabled1: nat,
    powerLimitWatts2: real,
    limitTimeWindowSeconds2: real,
    limitEnabled2: nat,
    clampEnabled2: nat,
    lockEnabled: nat)

  /** What one call of the descriptor read hands back: its error code and the
      contents of the caller's descriptor record after the call. */
  datatype DescriptorRead = DescriptorRead(code: int, plc: PowerLimitControl)

  /** One call of the descriptor write that the daemon issues. */
  datatype LimitWrite = LimitWrite(node: nat, plc: PowerLimitControl)

  /** The answers the library gives during one request: the energy query per
      node, the descriptor read of node 0 made by the power-limit reader, and
      the descriptor read and write codes per node met by the writer. */
  datatype RaplResponses = RaplResponses(
    energy: seq<EnergyReading>,
    node0Limit: DescriptorRead,
    limitReads: seq<DescriptorRead>,
    limitWriteCodes: seq<int>)
  {
    /** One answer per node for every per-node query. */
    predicate CoversNodes(numNode: nat)
    {
      |energy| == numNode && |limitReads| == numNode && |limitWriteCodes| == numNode
    }
  }
}
