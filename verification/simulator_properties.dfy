/** Properties of `runSimulation` that relate whole runs: how each strategy
    schedules its target ratio, when the borrow rate matters, and what a flat
    market or an unlevered strategy does to the portfolio's value. */
module SimulatorProperties {
  import opened Types
  import opened Simulator

  /** Progress runs from 0 at the first month to 1 at the last, growing with
      the month index; a one-month path stays at 0. */
  lemma ProgressBounds(i: nat, j: nat, n: nat)
    requires i <= j < n
    ensures Progress(0, n) == 0.0
    ensures n >= 2 ==> Progress(n - 1, n) == 1.0
    ensures 0.0 <= Progress(i, n) <= Progress(j, n) <= 1.0
  {
    ProgressEnds(n);
    ProgressMonotone(i, j, n);
  }

  lemma ProgressEnds(n: nat)
    ensures Progress(0, n) == 0.0
    ensures n >= 2 ==> Progress(n - 1, n) == 1.0
  {
    var d := (if n - 1 == 0 then 1 else n - 1) as real;
    assert d != 0.0;
    assert Progress(0, n) == 0.0 / d;
    if n >= 2 {
      assert Progress(n - 1, n) == d / d;
    }
  }

  lemma ProgressMonotone(i: nat, j: nat, n: nat)
    requires i <= j < n
    ensures 0.0 <= Progress(i, n) <= Progress(j, n) <= 1.0
  {
    var d := (if n - 1 == 0 then 1 else n - 1) as real;
    assert d > 0.0 && j as real <= d;
    assert Progress(i, n) == i as real / d;
    assert Progress(j, n) == j as real / d;
    DivMonotone(0.0, i as real, d);
    DivMonotone(i as real, j as real, d);
    DivMonotone(j as real, d, d);
    DivEnds(d);
  }

  /** Zero over a positive number is zero, and a positive number over itself is one. */
  lemma DivEnds(d: real)
    requires d > 0.0
    ensures 0.0 / d == 0.0 && d / d == 1.0
  {
    assert d * (d / d) == d * 1.0;
  }

  /** Dividing by a positive number keeps the order. */
  lemma DivMonotone(a: real, b: real, d: real)
    requires d > 0.0 && a <= b
    ensures a / d <= b / d
  {
    assert b / d - a / d == (b - a) / d;
  }

  /** Both glide strategies interpolate linearly from the start-derived to the
      end-derived ratio (for `GlideCash`, interpolating the cash percentage
      and converting is the same as interpolating the asset ratio). */
  lemma GlideInterpolates(p: Params, i: nat, n: nat)
    requires p.strategy != Fixed
    ensures TargetRatio(p, i, n)
         == StartDerivedRatio(p) + (EndDerivedRatio(p) - StartDerivedRatio(p)) * Progress(i, n)
  {
  }

  /** `Fixed` targets `1 - startRatio/100` every month, whatever `endRatio` is. */
  lemma FixedSchedule(p: Params, e: real, i: nat, n: nat)
    requires p.strategy == Fixed
    ensures TargetRatio(p, i, n) == 1.0 - p.startRatio / 100.0
    ensures TargetRatio(p.(endRatio := e), i, n) == TargetRatio(p, i, n)
  {
  }

  /** Glide strategies: the first month targets the start-derived ratio, the
      last month of a path of two or more months targets the end-derived
      ratio, and the targets move monotonically from one to the other. */
  lemma GlideSchedule(p: Params, n: nat, i: nat, j: nat)
    requires p.strategy != Fixed
    requires i <= j < n
    ensures TargetRatio(p, 0, n) == StartDerivedRatio(p)
    ensures n >= 2 ==> TargetRatio(p, n - 1, n) == EndDerivedRatio(p)
    ensures StartDerivedRatio(p) <= EndDerivedRatio(p) ==> TargetRatio(p, i, n) <= TargetRatio(p, j, n)
    ensures StartDerivedRatio(p) >= EndDerivedRatio(p) ==> TargetRatio(p, i, n) >= TargetRatio(p, j, n)
  {
    ProgressBounds(i, j, n);
    GlideInterpolates(p, 0, n);
    GlideInterpolates(p, i, n);
    GlideInterpolates(p, j, n);
    GlideInterpolates(p, n - 1, n);
    LerpMonotone(StartDerivedRatio(p), EndDerivedRatio(p), Progress(i, n), Progress(j, n));
  }

  /** Linear interpolation from `s` to `e` moves monotonically towards `e`. */
  lemma LerpMonotone(s: real, e: real, a: real, b: real)
    requires 0.0 <= a <= b
    ensures s <= e ==> s + (e - s) * a <= s + (e - s) * b
    ensures s >= e ==> s + (e - s) * a >= s + (e - s) * b
  {
    assert (e - s) * b - (e - s) * a == (e - s) * (b - a);
    if s <= e {
      assert (e - s) * (b - a) >= 0.0;
    } else {
      assert (s - e) * (b - a) >= 0.0;
    }
  }

  /** Runs whose parameters agree on the money flows, the initial split and
      the ratio schedule produce the same ledgers. */
  lemma {:induction false} SameScheduleSameLedgers(p: Params, q: Params, market: seq<MarketPoint>, k: nat)
    requires SameSchedule(p, q, |market|)
    requires k <= |market|
    ensures LedgerAfter(p, market, k) == LedgerAfter(q, market, k)
  {
    if k == 0 {
      assert InitialLedger(p) == InitialLedger(q);
    } else {
      SameScheduleSameLedgers(p, q, market, k - 1);
      var prev := LedgerAfter(p, market, k - 1);
      var ratio := TargetRatio(p, k - 1, |market|);
      assert ratio == TargetRatio(q, k - 1, |market|);
      AdvanceSameMoney(p, q, prev, ratio, market[k - 1]);
    }
  }

  /** A month depends on the parameters only through the contribution and
      the borrow cost. */
  lemma AdvanceSameMoney(p: Params, q: Params, s: Ledger, ratio: real, m: MarketPoint)
    requires p.monthlyContribution == q.monthlyContribution && p.borrowCost == q.borrowCost
    ensures Advance(p, s, ratio, m) == Advance(q, s, ratio, m)
  {
    assert MonthlyBorrowRate(p) == MonthlyBorrowRate(q);
  }

  /** `p` and `q` share capital, contribution, borrow cost, initial split and
      the target ratio of each of `n` months. */
  ghost predicate SameSchedule(p: Params, q: Params, n: nat) {
    && p.initialCapital == q.initialCapital
    && p.monthlyContribution == q.monthlyContribution
    && p.borrowCost == q.borrowCost
    && StartDerivedRatio(p) == StartDerivedRatio(q)
    && forall i :: 0 <= i < n ==> TargetRatio(p, i, n) == TargetRatio(q, i, n)
  }

  lemma SameLedgersSameRun(p: Params, q: Params, market: seq<MarketPoint>)
    requires forall k :: 0 <= k <= |market| ==> LedgerAfter(p, market, k) == LedgerAfter(q, market, k)
    requires forall i :: 0 <= i < |market| ==> TargetRatio(p, i, |market|) == TargetRatio(q, i, |market|)
    ensures RunSimulation(p, market) == RunSimulation(q, market)
  {
    var a, b := RunSimulation(p, market), RunSimulation(q, market);
    forall i | 0 <= i < |market|
      ensures a[i] == b[i]
    {
      assert a[i] == StepAt(p, market, i);
      assert b[i] == StepAt(q, market, i);
    }
  }

  /** Under `Fixed`, `endRatio` has no effect on the run. */
  lemma FixedIgnoresEndRatio(p: Params, market: seq<MarketPoint>, e: real)
    requires p.strategy == Fixed
    ensures RunSimulation(p.(endRatio := e), market) == RunSimulation(p, market)
  {
    var q := p.(endRatio := e);
    forall k | 0 <= k <= |market| {
      SameScheduleSameLedgers(q, p, market, k);
    }
    SameLedgersSameRun(q, p, market);
  }

  /** A fixed, all-asset portfolio (zero cash percentage). */
  predicate AllInAsset(q: Params) {
    q.strategy == Fixed && q.startRatio == 0.0
  }

  /** A leverage glide that starts and ends at ratio 1. */
  predicate UnitLeverage(p: Params) {
    p.strategy == GlideLeverage && p.startRatio == 1.0 && p.endRatio == 1.0
  }

  /** A month at target ratio 1 that starts with no cash ends with no cash:
      the whole grown asset plus the contribution is invested and no
      interest is charged. */
  lemma AdvanceAllInAsset(p: Params, s: Ledger, m: MarketPoint)
    requires s.cash == 0.0
    ensures Advance(p, s, 1.0, m)
         == Ledger(s.asset * (1.0 + m.returnPct) + p.monthlyContribution, 0.0,
                   s.contributed + p.monthlyContribution)
  {
  }

  /** Both schedules target ratio 1 every month, so cash is zero after every
      rebalance, interest never applies and the ledgers coincide. */
  lemma {:induction false} UnitLeverageLedgers(p: Params, q: Params, market: seq<MarketPoint>, k: nat)
    requires UnitLeverage(p) && AllInAsset(q)
    requires p.initialCapital == q.initialCapital && p.monthlyContribution == q.monthlyContribution
    requires k <= |market|
    ensures LedgerAfter(p, market, k) == LedgerAfter(q, market, k)
    ensures LedgerAfter(p, market, k).cash == 0.0
  {
    if k > 0 {
      UnitLeverageLedgers(p, q, market, k - 1);
      UnitLeverageStep(p, q, LedgerAfter(p, market, k - 1), k - 1, |market|, market[k - 1]);
    }
  }

  /** One month of the two schedules from the same cash-free ledger. */
  lemma UnitLeverageStep(p: Params, q: Params, s: Ledger, i: nat, n: nat, m: MarketPoint)
    requires UnitLeverage(p) && AllInAsset(q)
    requires p.monthlyContribution == q.monthlyContribution
    requires s.cash == 0.0
    ensures Advance(p, s, TargetRatio(p, i, n), m) == Advance(q, s, TargetRatio(q, i, n), m)
    ensures Advance(p, s, TargetRatio(p, i, n), m).cash == 0.0
  {
    assert TargetRatio(p, i, n) == 1.0;
    assert TargetRatio(q, i, n) == 1.0;
    AdvanceAllInAsset(p, s, m);
    AdvanceAllInAsset(q, s, m);
  }

  /** GLIDE_LEVERAGE from 1 to 1 behaves exactly like FIXED with no cash,
      whatever either borrow cost is. */
  lemma UnitLeverageIsAllInAsset(p: Params, q: Params, market: seq<MarketPoint>)
    requires UnitLeverage(p) && AllInAsset(q)
    requires p.initialCapital == q.initialCapital && p.monthlyContribution == q.monthlyContribution
    ensures RunSimulation(p, market) == RunSimulation(q, market)
  {
    forall k | 0 <= k <= |market| {
      UnitLeverageLedgers(p, q, market, k);
    }
    forall i | 0 <= i < |market| ensures TargetRatio(p, i, |market|) == TargetRatio(q, i, |market|) {
    }
    SameLedgersSameRun(p, q, market);
  }

  /** A strategy that never targets more than the whole portfolio in the
      asset: `Fixed` or `GlideCash` with cash percentages in [0, 100]. */
  predicate Unlevered(p: Params) {
    && p.strategy != GlideLeverage
    && 0.0 <= p.startRatio <= 100.0
    && (p.strategy == GlideCash ==> 0.0 <= p.endRatio <= 100.0)
  }

  lemma UnleveredRatioBounds(p: Params, i: nat, n: nat)
    requires Unlevered(p)
    requires i < n
    ensures 0.0 <= StartDerivedRatio(p) <= 1.0
    ensures 0.0 <= TargetRatio(p, i, n) <= 1.0
  {
    DivMonotone(0.0, p.startRatio, 100.0);
    DivMonotone(p.startRatio, 100.0, 100.0);
    if p.strategy == GlideCash {
      ProgressBounds(i, i, n);
      var pr := Progress(i, n);
      var cashPct := p.startRatio + (p.endRatio - p.startRatio) * pr;
      LerpWithin(p.startRatio, p.endRatio, pr, 0.0, 100.0);
      assert TargetRatio(p, i, n) == 1.0 - cashPct / 100.0;
      DivMonotone(0.0, cashPct, 100.0);
      DivMonotone(cashPct, 100.0, 100.0);
    }
  }

  /** Interpolating between two points of `[lo, hi]` stays in `[lo, hi]`. */
  lemma LerpWithin(s: real, e: real, a: real, lo: real, hi: real)
    requires lo <= s <= hi && lo <= e <= hi
    requires 0.0 <= a <= 1.0
    ensures lo <= s + (e - s) * a <= hi
  {
    LerpMonotone(s, e, 0.0, a);
    LerpMonotone(s, e, a, 1.0);
    assert s + (e - s) * 0.0 == s;
    assert s + (e - s) * 1.0 == e;
  }

  lemma MulNonNegative(a: real, b: real)
    requires a >= 0.0 && b >= 0.0
    ensures a * b >= 0.0
  {
  }

  /** Neither holding is negative. */
  predicate Solvent(s: Ledger) {
    s.asset >= 0.0 && s.cash >= 0.0
  }

  /** A month with non-negative holdings, a ratio in [0, 1], a return of at
      least -100% and a non-negative contribution charges no interest, keeps
      both holdings non-negative and ends worth the grown asset plus the cash
      plus the contribution. */
  lemma AdvanceUnlevered(p: Params, s: Ledger, ratio: real, m: MarketPoint)
    requires Solvent(s)
    requires 0.0 <= ratio <= 1.0
    requires m.returnPct >= -1.0
    requires p.monthlyContribution >= 0.0
    ensures Solvent(Advance(p, s, ratio, m))
    ensures Advance(p, s, ratio, m).asset + Advance(p, s, ratio, m).cash
         == s.asset * (1.0 + m.returnPct) + s.cash + p.monthlyContribution
  {
    var grown := s.asset * (1.0 + m.returnPct);
    MulNonNegative(s.asset, 1.0 + m.returnPct);
    var total := grown + s.cash + p.monthlyContribution;
    MulNonNegative(total, ratio);
    MulNonNegative(total, 1.0 - ratio);
  }

  /** The conditions under which an unlevered run stays solvent. */
  ghost predicate UnleveredRun(p: Params, market: seq<MarketPoint>) {
    && Unlevered(p)
    && p.initialCapital >= 0.0
    && p.monthlyContribution >= 0.0
    && forall i :: 0 <= i < |market| ==> market[i].returnPct >= -1.0
  }

  lemma {:induction false} UnleveredLedgers(p: Params, market: seq<MarketPoint>, k: nat)
    requires UnleveredRun(p, market)
    requires k <= |market|
    ensures Solvent(LedgerAfter(p, market, k))
  {
    if k == 0 {
      if |market| > 0 {
        UnleveredRatioBounds(p, 0, |market|);
      } else {
        UnleveredRatioBounds(p, 0, 1);
      }
      var r := StartDerivedRatio(p);
      MulNonNegative(p.initialCapital, r);
      MulNonNegative(p.initialCapital, 1.0 - r);
    } else {
      UnleveredLedgers(p, market, k - 1);
      UnleveredRatioBounds(p, k - 1, |market|);
      AdvanceUnlevered(p, LedgerAfter(p, market, k - 1), TargetRatio(p, k - 1, |market|), market[k - 1]);
    }
  }

  /** Without leverage, with non-negative capital and contributions and
      returns of at least -100%, no step holds negative cash or asset. */
  lemma UnleveredStaysSolvent(p: Params, market: seq<MarketPoint>)
    requires UnleveredRun(p, market)
    ensures forall i :: 0 <= i < |market| ==>
      RunSimulation(p, market)[i].assetValue >= 0.0 && RunSimulation(p, market)[i].cashValue >= 0.0
  {
    forall i | 0 <= i < |market|
      ensures RunSimulation(p, market)[i].assetValue >= 0.0 && RunSimulation(p, market)[i].cashValue >= 0.0
    {
      UnleveredLedgers(p, market, i + 1);
      assert RunSimulation(p, market)[i] == StepAt(p, market, i);
    }
  }

  /** Interest is charged only on negative cash, so an unlevered run does
      not depend on the borrow cost. */
  lemma UnleveredIgnoresBorrowCost(p: Params, market: seq<MarketPoint>, b: real)
    requires UnleveredRun(p, market)
    ensures RunSimulation(p.(borrowCost := b), market) == RunSimulation(p, market)
  {
    var q := p.(borrowCost := b);
    forall k | 0 <= k <= |market|
      ensures LedgerAfter(q, market, k) == LedgerAfter(p, market, k)
    {
      NoDebtSameLedgers(p, q, market, k);
    }
    SameLedgersSameRun(q, p, market);
  }

  lemma {:induction false} NoDebtSameLedgers(p: Params, q: Params, market: seq<MarketPoint>, k: nat)
    requires UnleveredRun(p, market)
    requires q == p.(borrowCost := q.borrowCost)
    requires k <= |market|
    ensures LedgerAfter(q, market, k) == LedgerAfter(p, market, k)
  {
    if k > 0 {
      NoDebtSameLedgers(p, q, market, k - 1);
      UnleveredLedgers(p, market, k - 1);
      NoDebtStep(p, q, market, k);
    }
  }

  lemma NoDebtStep(p: Params, q: Params, market: seq<MarketPoint>, k: nat)
    requires SameButBorrowCost(p, q)
    requires 0 < k <= |market|
    requires LedgerAfter(q, market, k - 1) == LedgerAfter(p, market, k - 1)
    requires LedgerAfter(p, market, k - 1).cash >= 0.0
    ensures LedgerAfter(q, market, k) == LedgerAfter(p, market, k)
  {
    var prev := LedgerAfter(p, market, k - 1);
    var ratio := TargetRatio(p, k - 1, |market|);
    SameRatioFields(p, q, k - 1, |market|);
    AdvanceWithoutDebt(p, q, prev, ratio, market[k - 1]);
  }

  lemma SameRatioFields(p: Params, q: Params, i: nat, n: nat)
    requires p.strategy == q.strategy && p.startRatio == q.startRatio && p.endRatio == q.endRatio
    ensures TargetRatio(p, i, n) == TargetRatio(q, i, n)
  {
  }

  predicate SameButBorrowCost(p: Params, q: Params) {
    && p.initialCapital == q.initialCapital
    && p.monthlyContribution == q.monthlyContribution
    && p.strategy == q.strategy
    && p.startRatio == q.startRatio
    && p.endRatio == q.endRatio
  }

  /** With non-negative cash the borrow cost does not enter the month. */
  lemma AdvanceWithoutDebt(p: Params, q: Params, s: Ledger, ratio: real, m: MarketPoint)
    requires s.cash >= 0.0
    requires p.monthlyContribution == q.monthlyContribution
    ensures Advance(p, s, ratio, m) == Advance(q, s, ratio, m)
  {
  }

  /** An unlevered portfolio with no contributions in a market whose every
      return is zero is worth its initial capital at every step. */
  lemma FlatMarketKeepsCapital(p: Params, market: seq<MarketPoint>)
    requires Unlevered(p)
    requires p.initialCapital >= 0.0
    requires p.monthlyContribution == 0.0
    requires forall i :: 0 <= i < |market| ==> market[i].returnPct == 0.0
    ensures forall i :: 0 <= i < |market| ==> RunSimulation(p, market)[i].totalValue == p.initialCapital
  {
    forall i | 0 <= i < |market|
      ensures RunSimulation(p, market)[i].totalValue == p.initialCapital
    {
      FlatLedgers(p, market, i + 1);
      assert RunSimulation(p, market)[i] == StepAt(p, market, i);
    }
  }

  lemma {:induction false} FlatLedgers(p: Params, market: seq<MarketPoint>, k: nat)
    requires Unlevered(p)
    requires p.initialCapital >= 0.0
    requires p.monthlyContribution == 0.0
    requires forall i :: 0 <= i < |market| ==> market[i].returnPct == 0.0
    requires k <= |market|
    ensures Solvent(LedgerAfter(p, market, k))
    ensures LedgerAfter(p, market, k).asset + LedgerAfter(p, market, k).cash == p.initialCapital
  {
    UnleveredLedgers(p, market, k);
    if k > 0 {
      FlatLedgers(p, market, k - 1);
      var prev := LedgerAfter(p, market, k - 1);
      UnleveredRatioBounds(p, k - 1, |market|);
      AdvanceUnlevered(p, prev, TargetRatio(p, k - 1, |market|), market[k - 1]);
    }
  }
}
