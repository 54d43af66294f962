/** The market-path generator: a monthly geometric Brownian motion. The
    standard-normal shocks are an input (`shocks`, one per month) and the
    exponential is a parameter `exp`, of which only positivity is assumed. */
module Generators {
  import opened Types
  import opened Simulator
  import opened SimulatorProperties

  /** Months per year: the time step is one twelfth of a year. */
  const MonthsPerYear: real := 12.0

  /** The monthly drift of the log price, `(mean - volatility^2 / 2) * dt`. */
  function MonthlyDrift(annualMeanReturn: real, annualVolatility: real): real {
    (annualMeanReturn - 0.5 * annualVolatility * annualVolatility) * (1.0 / MonthsPerYear)
  }

  /** The monthly volatility, `volatility * sqrt(dt)`, with the square root a
      parameter. */
  function MonthlyVolatility(annualVolatility: real, sqrt: real -> real): real {
    annualVolatility * sqrt(1.0 / MonthsPerYear)
  }

  /** `exp` is positive everywhere, as the exponential is. */
  ghost predicate PositiveExp(exp: real -> real) {
    forall x :: exp(x) > 0.0
  }

  /** The log return of month `i` (from 1): drift plus volatility times the
      month's shock. */
  function LogReturn(drift: real, vol: real, shocks: seq<real>, i: nat): real
    requires 0 < i <= |shocks|
  {
    drift + vol * shocks[i - 1]
  }

  /** The point of month `month`, one month after `last`: the price grows by
      the factor `growth` and the simple return is measured against the
      previous price. */
  function NextPoint(last: MarketPoint, month: nat, growth: real): (m: MarketPoint)
    requires last.price != 0.0 && growth > 0.0
    ensures m.month == month && Grown(last, m, growth)
    ensures m.price != 0.0 && (last.price > 0.0 ==> m.price > 0.0)
  {
    var newPrice := last.price * growth;
    SimpleReturn(last.price, growth);
    MarketPoint(month, newPrice, (newPrice - last.price) / last.price)
  }

  /** `m` is `last` grown by the factor `growth`: its price is that multiple
      of the last price and its simple return is the factor less one. */
  predicate Grown(last: MarketPoint, m: MarketPoint, growth: real) {
    m.price == last.price * growth && m.returnPct == growth - 1.0
  }

  lemma GrownConsistent(last: MarketPoint, m: MarketPoint, growth: real)
    requires Grown(last, m, growth)
    ensures m.price == last.price * (1.0 + m.returnPct)
  {
    assert 1.0 + m.returnPct == growth;
  }

  /** The walk's first `k` months after month 0. */
  function Walk(k: nat, drift: real, vol: real, initialPrice: real, shocks: seq<real>, exp: real -> real)
    : (data: seq<MarketPoint>)
    requires initialPrice != 0.0 && k <= |shocks| && PositiveExp(exp)
    ensures |data| == k + 1
    ensures data[0] == MarketPoint(0, initialPrice, 0.0)
    ensures forall i :: 0 <= i < |data| ==> data[i].price != 0.0
    ensures initialPrice > 0.0 ==> forall i :: 0 <= i < |data| ==> data[i].price > 0.0
  {
    if k == 0 then [MarketPoint(0, initialPrice, 0.0)]
    else
      var prev := Walk(k - 1, drift, vol, initialPrice, shocks, exp);
      prev + [NextPoint(prev[k - 1], k, exp(LogReturn(drift, vol, shocks, k)))]
  }

  /** Month `j` of a walk is the month after month `j - 1`, grown by the
      exponential of month `j`'s log return. */
  lemma {:induction false} WalkPoint(k: nat, j: nat, drift: real, vol: real, initialPrice: real,
                                     shocks: seq<real>, exp: real -> real)
    requires initialPrice != 0.0 && k <= |shocks| && PositiveExp(exp)
    requires 0 < j <= k
    ensures var data := Walk(k, drift, vol, initialPrice, shocks, exp);
      data[j] == NextPoint(data[j - 1], j, exp(LogReturn(drift, vol, shocks, j)))
  {
    if j < k {
      WalkPoint(k - 1, j, drift, vol, initialPrice, shocks, exp);
      var prev := Walk(k - 1, drift, vol, initialPrice, shocks, exp);
      assert Walk(k, drift, vol, initialPrice, shocks, exp)[..k] == prev;
    }
  }

  /** Every month of a walk: its index, its price one growth factor above the
      previous price, and its simple return that factor less one. */
  lemma WalkPoints(k: nat, drift: real, vol: real, initialPrice: real, shocks: seq<real>, exp: real -> real,
                   data: seq<MarketPoint>)
    requires initialPrice != 0.0 && k <= |shocks| && PositiveExp(exp)
    requires data == Walk(k, drift, vol, initialPrice, shocks, exp)
    ensures forall i {:trigger LogReturn(drift, vol, shocks, i)} :: 0 < i < |data| ==>
      data[i].month == i && Grown(data[i - 1], data[i], exp(LogReturn(drift, vol, shocks, i)))
    ensures forall i :: 0 <= i < |data| ==> data[i].month == i && data[i].returnPct > -1.0
  {
    forall i | 0 < i < |data|
      ensures data[i].month == i && Grown(data[i - 1], data[i], exp(LogReturn(drift, vol, shocks, i)))
      ensures data[i].returnPct > -1.0
    {
      WalkPoint(k, i, drift, vol, initialPrice, shocks, exp);
      assert exp(LogReturn(drift, vol, shocks, i)) > 0.0;
    }
  }

  /** The simple return of a price multiplied by `growth` is `growth - 1`,
      and the new price is non-zero, with the sign of the old. */
  lemma SimpleReturn(price: real, growth: real)
    requires price != 0.0 && growth > 0.0
    ensures (price * growth - price) / price == growth - 1.0
    ensures price * growth != 0.0
    ensures price > 0.0 ==> price * growth > 0.0
  {
    var d := price * growth - price;
    assert d / price * price == d;
    assert d == (growth - 1.0) * price;
    CancelFactor(d / price, growth - 1.0, price);
    ProductPositive(price, growth);
  }

  /** A non-zero factor common to both sides of an equation cancels. */
  lemma CancelFactor(a: real, b: real, c: real)
    requires c != 0.0 && a * c == b * c
    ensures a == b
  {
    assert (a - b) * c == a * c - b * c;
    if a != b {
      MulNonZero(a - b, c);
    }
  }

  lemma MulNonZero(x: real, y: real)
    requires x != 0.0 && y != 0.0
    ensures x * y != 0.0
  {
  }

  lemma ProductPositive(x: real, y: real)
    requires y > 0.0
    ensures x != 0.0 ==> x * y != 0.0
    ensures x > 0.0 ==> x * y > 0.0
  {
  }

  /** `generateRandomWalk`: month 0 at the initial price with no return, then
      one point per month up to `months` (none when `months` is not
      positive). */
  function GenerateRandomWalk(months: int, annualMeanReturn: real, annualVolatility: real,
                              initialPrice: real, shocks: seq<real>,
                              exp: real -> real, sqrt: real -> real): (data: seq<MarketPoint>)
    requires initialPrice != 0.0 && months <= |shocks| && PositiveExp(exp)
    ensures |data| == if months > 0 then months + 1 else 1
    ensures data[0] == MarketPoint(0, initialPrice, 0.0)
    ensures forall i :: 0 <= i < |data| ==> data[i].month == i
    ensures forall i :: 0 <= i < |data| ==> data[i].returnPct > -1.0 && data[i].price != 0.0
    ensures initialPrice > 0.0 ==> forall i :: 0 <= i < |data| ==> data[i].price > 0.0
  {
    var n: nat := if months > 0 then months else 0;
    var data := Walk(n, MonthlyDrift(annualMeanReturn, annualVolatility),
                     MonthlyVolatility(annualVolatility, sqrt), initialPrice, shocks, exp);
    WalkPoints(n, MonthlyDrift(annualMeanReturn, annualVolatility),
               MonthlyVolatility(annualVolatility, sqrt), initialPrice, shocks, exp, data);
    data
  }

  /** Month `i` of a generated walk grows the price by the exponential of the
      month's log return, drift plus volatility times the month's shock, and
      records that factor less one as its simple return. */
  lemma GeneratedMonths(months: int, annualMeanReturn: real, annualVolatility: real,
                        initialPrice: real, shocks: seq<real>,
                        exp: real -> real, sqrt: real -> real, data: seq<MarketPoint>)
    requires initialPrice != 0.0 && months <= |shocks| && PositiveExp(exp)
    requires data == GenerateRandomWalk(months, annualMeanReturn, annualVolatility, initialPrice, shocks, exp, sqrt)
    ensures forall i {:trigger LogReturn(MonthlyDrift(annualMeanReturn, annualVolatility), MonthlyVolatility(annualVolatility, sqrt), shocks, i)} :: 0 < i < |data| ==>
      Grown(data[i - 1], data[i], exp(LogReturn(MonthlyDrift(annualMeanReturn, annualVolatility),
                                                MonthlyVolatility(annualVolatility, sqrt), shocks, i)))
  {
    var n: nat := if months > 0 then months else 0;
    var drift, vol := MonthlyDrift(annualMeanReturn, annualVolatility), MonthlyVolatility(annualVolatility, sqrt);
    assert data == Walk(n, drift, vol, initialPrice, shocks, exp);
    WalkPoints(n, drift, vol, initialPrice, shocks, exp, data);
  }

  /** The growth factor of the first `k` months: the product of one plus each
      month's simple return. */
  function Compounded(data: seq<MarketPoint>, k: nat): real
    requires k < |data|
  {
    if k == 0 then 1.0 else Compounded(data, k - 1) * (1.0 + data[k].returnPct)
  }

  /** Every month's simple return is its price change over the previous
      price. */
  ghost predicate Consistent(data: seq<MarketPoint>) {
    forall i :: 0 < i < |data| ==> data[i].price == data[i - 1].price * (1.0 + data[i].returnPct)
  }

  /** A sequence grown month by month by positive factors is consistent. */
  lemma GrownIsConsistent(data: seq<MarketPoint>, drift: real, vol: real, shocks: seq<real>, exp: real -> real)
    requires |data| <= |shocks| + 1
    requires forall i {:trigger LogReturn(drift, vol, shocks, i)} :: 0 < i < |data| ==>
      Grown(data[i - 1], data[i], exp(LogReturn(drift, vol, shocks, i)))
    ensures Consistent(data)
  {
    forall i | 0 < i < |data|
      ensures data[i].price == data[i - 1].price * (1.0 + data[i].returnPct)
    {
      var growth := exp(LogReturn(drift, vol, shocks, i));
      assert Grown(data[i - 1], data[i], growth);
      GrownConsistent(data[i - 1], data[i], growth);
    }
  }

  /** Compounding the simple returns recovers the price: the price of month
      `j` is the first price times the compounded growth. */
  lemma {:induction false} Compounds(data: seq<MarketPoint>, j: nat, first: real)
    requires Consistent(data) && j < |data| && data[0].price == first
    ensures data[j].price == first * Compounded(data, j)
  {
    if j > 0 {
      Compounds(data, j - 1, first);
      var c := Compounded(data, j - 1);
      CompoundStep(first, data[j - 1].price, c, data[j].price, data[j].returnPct);
      assert Compounded(data, j) == c * (1.0 + data[j].returnPct);
    }
  }

  /** A generated walk is consistent, so its price at month `j` is the initial
      price compounded by the first `j` simple returns. */
  lemma GeneratedCompounds(months: int, annualMeanReturn: real, annualVolatility: real,
                           initialPrice: real, shocks: seq<real>,
                           exp: real -> real, sqrt: real -> real, data: seq<MarketPoint>, j: nat)
    requires initialPrice != 0.0 && months <= |shocks| && PositiveExp(exp)
    requires data == GenerateRandomWalk(months, annualMeanReturn, annualVolatility, initialPrice, shocks, exp, sqrt)
    requires j < |data|
    ensures data[j].price == initialPrice * Compounded(data, j)
  {
    GeneratedMonths(months, annualMeanReturn, annualVolatility, initialPrice, shocks, exp, sqrt, data);
    GrownIsConsistent(data, MonthlyDrift(annualMeanReturn, annualVolatility),
                      MonthlyVolatility(annualVolatility, sqrt), shocks, exp);
    Compounds(data, j, initialPrice);
  }

  lemma CompoundStep(p0: real, prev: real, c: real, price: real, ret: real)
    requires prev == p0 * c && price == prev * (1.0 + ret)
    ensures price == p0 * (c * (1.0 + ret))
  {
  }

  /** A generated path never loses more than everything in a month, so an
      unlevered portfolio with non-negative capital and contributions run
      over it never holds negative cash or asset. */
  lemma GeneratedPathKeepsUnleveredSolvent(p: Params, months: int, annualMeanReturn: real,
                                           annualVolatility: real, initialPrice: real,
                                           shocks: seq<real>, exp: real -> real, sqrt: real -> real)
    requires initialPrice != 0.0 && months <= |shocks| && PositiveExp(exp)
    requires Unlevered(p) && p.initialCapital >= 0.0 && p.monthlyContribution >= 0.0
    ensures var market := GenerateRandomWalk(months, annualMeanReturn, annualVolatility,
                                             initialPrice, shocks, exp, sqrt);
      forall i :: 0 <= i < |market| ==>
        RunSimulation(p, market)[i].assetValue >= 0.0 && RunSimulation(p, market)[i].cashValue >= 0.0
  {
    var market := GenerateRandomWalk(months, annualMeanReturn, annualVolatility,
                                     initialPrice, shocks, exp, sqrt);
    assert UnleveredRun(p, market);
    UnleveredStaysSolvent(p, market);
  }
}
