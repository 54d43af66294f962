/** The portfolio step function: a fold over a market path that applies, each
    month and in this order, asset growth, borrow interest on negative cash,
    the monthly contribution and a frictionless rebalance to the month's
    target asset ratio. */
module Simulator {
  import opened Types

  /** The running totals carried from one month to the next. */
  datatype Ledger = Ledger(asset: real, cash: real, contributed: real)

  /** The asset ratio the strategy's `startRatio` denotes: the ratio itself
      under `GlideLeverage`, one minus the cash percentage otherwise. */
  function StartDerivedRatio(p: Params): real {
    if p.strategy == GlideLeverage then p.startRatio else 1.0 - p.startRatio / 100.0
  }

  /** The asset ratio the strategy's `endRatio` denotes (unused by `Fixed`). */
  function EndDerivedRatio(p: Params): real {
    if p.strategy == GlideLeverage then p.endRatio else 1.0 - p.endRatio / 100.0
  }

  /** Position of month `i` in a path of `n` months, `i / (n - 1 || 1)`: the
      JavaScript `||` replaces a zero denominator by one. */
  function Progress(i: nat, n: nat): real {
    var d := n - 1;
    i as real / (if d == 0 then 1 else d) as real
  }

  /** The target asset ratio of month `i` of `n`. */
  function TargetRatio(p: Params, i: nat, n: nat): real {
    match p.strategy
    case Fixed => 1.0 - p.startRatio / 100.0
    case GlideCash =>
      var cashPct := p.startRatio + (p.endRatio - p.startRatio) * Progress(i, n);
      1.0 - cashPct / 100.0
    case GlideLeverage => p.startRatio + (p.endRatio - p.startRatio) * Progress(i, n)
  }

  /** The initial split of `initialCapital` at the start-derived ratio. */
  function InitialLedger(p: Params): (s: Ledger)
    ensures s.asset + s.cash == p.initialCapital
    ensures s.asset == p.initialCapital * StartDerivedRatio(p)
    ensures s.contributed == p.initialCapital
  {
    var asset := p.initialCapital * StartDerivedRatio(p);
    Ledger(asset, p.initialCapital - asset, p.initialCapital)
  }

  /** Monthly interest rate on borrowed cash: the annual percentage over 100 and 12. */
  function MonthlyBorrowRate(p: Params): real {
    p.borrowCost / 100.0 / 12.0
  }

  /** One month: growth, interest on negative cash, contribution, rebalance. */
  function Advance(p: Params, s: Ledger, ratio: real, m: MarketPoint): Ledger
  {
    var grown := s.asset * (1.0 + m.returnPct);
    var charged := if s.cash < 0.0 then s.cash - Abs(s.cash) * MonthlyBorrowRate(p) else s.cash;
    var funded := charged + p.monthlyContribution;
    var total := grown + funded;
    var diff := total * ratio - grown;
    Ledger(grown + diff, funded - diff, s.contributed + p.monthlyContribution)
  }

  /** The portfolio value at the end of a month that started with `asset`
      and `cash`: the asset grown by the month's return, the cash less a
      month's interest when it is negative, and the contribution. */
  function ValueAfterMonth(p: Params, asset: real, cash: real, m: MarketPoint): real {
    asset * (1.0 + m.returnPct)
      + cash * (if cash < 0.0 then 1.0 + MonthlyBorrowRate(p) else 1.0)
      + p.monthlyContribution
  }

  /** The accounting of one month: the value after rebalancing is the grown
      asset plus the cash less interest (charged only on negative cash) plus
      the contribution; the rebalance puts exactly `ratio` of it in the asset;
      the contribution total grows by one contribution. */
  lemma AdvanceAccounting(p: Params, s: Ledger, ratio: real, m: MarketPoint)
    ensures var r := Advance(p, s, ratio, m);
      && r.contributed == s.contributed + p.monthlyContribution
      && r.asset + r.cash == ValueAfterMonth(p, s.asset, s.cash, m)
      && Rebalanced(r, ratio)
  {
  }

  lemma AdvanceContributes(p: Params, s: Ledger, ratio: real, m: MarketPoint)
    ensures Advance(p, s, ratio, m).contributed == s.contributed + p.monthlyContribution
  {
  }

  /** The asset holds exactly `ratio` of the ledger's value. */
  predicate Rebalanced(s: Ledger, ratio: real) {
    s.asset == (s.asset + s.cash) * ratio
  }

  function Abs(x: real): (r: real)
    ensures r >= 0.0 && (r == x || r == -x)
  {
    if x < 0.0 then -x else x
  }

  /** The ledger after the first `k` months of `market` have been processed. */
  function LedgerAfter(p: Params, market: seq<MarketPoint>, k: nat): Ledger
    requires k <= |market|
  {
    if k == 0 then InitialLedger(p)
    else Advance(p, LedgerAfter(p, market, k - 1), TargetRatio(p, k - 1, |market|), market[k - 1])
  }

  /** The step emitted for month `m` once its ledger `s` is known. */
  function Emit(s: Ledger, ratio: real, m: MarketPoint): Step {
    Step(m.month, s.asset + s.cash, s.cash, s.asset, m.price, s.contributed, ratio)
  }

  /** The contribution total after `k` months is the initial capital plus `k`
      monthly contributions. */
  lemma {:induction false} ContributedAfter(p: Params, market: seq<MarketPoint>, k: nat)
    requires k <= |market|
    ensures Contributed(p, LedgerAfter(p, market, k), k)
  {
    if k > 0 {
      ContributedAfter(p, market, k - 1);
      ContributedStep(p, LedgerAfter(p, market, k - 1), TargetRatio(p, k - 1, |market|), market[k - 1], k - 1);
    }
  }

  /** A month adds one contribution to the total. */
  lemma ContributedStep(p: Params, s: Ledger, ratio: real, m: MarketPoint, k: nat)
    requires Contributed(p, s, k)
    ensures Contributed(p, Advance(p, s, ratio, m), k + 1)
  {
    AdvanceContributes(p, s, ratio, m);
    OneMoreContribution(p, s.contributed, k);
  }

  /** `s.contributed` is the initial capital plus `k` monthly contributions. */
  predicate Contributed(p: Params, s: Ledger, k: nat) {
    s.contributed == p.initialCapital + k as real * p.monthlyContribution
  }

  lemma OneMoreContribution(p: Params, c: real, k: nat)
    requires c == p.initialCapital + k as real * p.monthlyContribution
    ensures c + p.monthlyContribution == p.initialCapital + (k + 1) as real * p.monthlyContribution
  {
  }

  /** After month `i` has been processed the asset holds exactly the month's
      target ratio of the portfolio. */
  lemma RebalancedAfter(p: Params, market: seq<MarketPoint>, i: nat)
    requires i < |market|
    ensures Rebalanced(LedgerAfter(p, market, i + 1), TargetRatio(p, i, |market|))
  {
    var prev := LedgerAfter(p, market, i);
    var ratio := TargetRatio(p, i, |market|);
    AdvanceAccounting(p, prev, ratio, market[i]);
  }

  /** The step emitted for month `i`. */
  function StepAt(p: Params, market: seq<MarketPoint>, i: nat): Step
    requires i < |market|
  {
    Emit(LedgerAfter(p, market, i + 1), TargetRatio(p, i, |market|), market[i])
  }

  lemma StepAtFacts(p: Params, market: seq<MarketPoint>, i: nat)
    requires i < |market|
    ensures var st := StepAt(p, market, i);
      && st.month == market[i].month
      && st.assetPrice == market[i].price
      && st.totalValue == st.assetValue + st.cashValue
      && st.assetValue == st.totalValue * st.targetRatio
      && st.contributionTotal == p.initialCapital + (i + 1) as real * p.monthlyContribution
  {
    RebalancedAfter(p, market, i);
    ContributedAfter(p, market, i + 1);
  }

  /** `runSimulation`: one step per market point. */
  function RunSimulation(p: Params, market: seq<MarketPoint>): (steps: seq<Step>)
    ensures |steps| == |market|
    ensures forall i :: 0 <= i < |steps| ==>
      steps[i].month == market[i].month && steps[i].assetPrice == market[i].price
    ensures forall i :: 0 <= i < |steps| ==>
      steps[i].totalValue == steps[i].assetValue + steps[i].cashValue
    ensures forall i :: 0 <= i < |steps| ==>
      steps[i].assetValue == steps[i].totalValue * steps[i].targetRatio
    ensures forall i :: 0 <= i < |steps| ==>
      steps[i].contributionTotal == p.initialCapital + (i + 1) as real * p.monthlyContribution
    ensures forall i :: 0 <= i < |steps| ==> steps[i].targetRatio == TargetRatio(p, i, |market|)
  {
    var steps := seq(|market|, i requires 0 <= i < |market| => StepAt(p, market, i));
    forall i | 0 <= i < |steps| {
      StepAtFacts(p, market, i);
    }
    steps
  }

  /** Each reported value arises from the holdings reported the month
      before. */
  lemma RunSimulationSteps(p: Params, market: seq<MarketPoint>, i: nat)
    requires 0 < i < |market|
    ensures var s := RunSimulation(p, market);
      s[i].totalValue == ValueAfterMonth(p, s[i - 1].assetValue, s[i - 1].cashValue, market[i])
  {
    var s := RunSimulation(p, market);
    var prev := LedgerAfter(p, market, i);
    var next := Advance(p, prev, TargetRatio(p, i, |market|), market[i]);
    PreviousHoldings(p, market, i);
    StepHoldings(p, market, i);
    assert LedgerAfter(p, market, i + 1) == next;
    AdvanceAccounting(p, prev, TargetRatio(p, i, |market|), market[i]);
  }

  /** The first reported value arises from the initial split of the capital. */
  lemma RunSimulationFirstStep(p: Params, market: seq<MarketPoint>)
    requires 0 < |market|
    ensures RunSimulation(p, market)[0].totalValue
         == ValueAfterMonth(p, InitialLedger(p).asset, InitialLedger(p).cash, market[0])
  {
    var s0 := InitialLedger(p);
    StepHoldings(p, market, 0);
    assert LedgerAfter(p, market, 1) == Advance(p, s0, TargetRatio(p, 0, |market|), market[0]);
    AdvanceAccounting(p, s0, TargetRatio(p, 0, |market|), market[0]);
  }

  /** Step `i - 1` reports the holdings of the ledger after `i` months. */
  lemma PreviousHoldings(p: Params, market: seq<MarketPoint>, i: nat)
    requires 0 < i < |market|
    ensures var st, s := RunSimulation(p, market)[i - 1], LedgerAfter(p, market, i);
      st.assetValue == s.asset && st.cashValue == s.cash
  {
    var j := i - 1;
    StepHoldings(p, market, j);
    assert j + 1 == i;
  }

  /** Step `i` reports the holdings of the ledger after `i + 1` months. */
  lemma StepHoldings(p: Params, market: seq<MarketPoint>, i: nat)
    requires i < |market|
    ensures var st, s := RunSimulation(p, market)[i], LedgerAfter(p, market, i + 1);
      st.totalValue == s.asset + s.cash && st.assetValue == s.asset && st.cashValue == s.cash
  {
    assert RunSimulation(p, market)[i] == StepAt(p, market, i);
  }

  /** The last step's total value, or zero for an empty run. */
  function FinalValue(steps: seq<Step>): real {
    if |steps| == 0 then 0.0 else steps[|steps| - 1].totalValue
  }

  /** The final value of a non-empty run is the value of the ledger after
      the whole path. */
  lemma FinalValueIsLedger(p: Params, market: seq<MarketPoint>)
    requires |market| > 0
    ensures var s := LedgerAfter(p, market, |market|);
      && FinalValue(RunSimulation(p, market)) == s.asset + s.cash
      && RunSimulation(p, market)[|market| - 1].totalValue == s.asset + s.cash
      && RunSimulation(p, market)[|market| - 1].contributionTotal == s.contributed
  {
    assert RunSimulation(p, market)[|market| - 1] == StepAt(p, market, |market| - 1);
  }
}
