/** The records shared by the simulation engine: one month of market data,
    the simulation parameters and one emitted month of portfolio state. */
module Types {

  /** One month of market data: the month number, the asset price and the
      simple (not logarithmic) return realised over the month. */
  datatype MarketPoint = MarketPoint(month: int, price: real, returnPct: real)

  /** The rebalancing policy. `startRatio` and `endRatio` are read as cash
      percentages by `Fixed` and `GlideCash` and as asset-to-capital ratios by
      `GlideLeverage`; `Fixed` ignores `endRatio`. */
  datatype Strategy = Fixed | GlideCash | GlideLeverage

  /** Simulation parameters without the market path, which is passed on its
      own. `borrowCost` is an annual percentage charged on negative cash. */
  datatype Params = Params(
    initialCapital: real,
    monthlyContribution: real,
    strategy: Strategy,
    startRatio: real,
    endRatio: real,
    borrowCost: real)

  /** The portfolio after one month has been processed. */
  datatype Step = Step(
    month: int,
    totalValue: real,
    cashValue: real,
    assetValue: real,
    assetPrice: real,
    contributionTotal: real,
    targetRatio: real)
}
