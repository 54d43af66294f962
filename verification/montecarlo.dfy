/** The Monte Carlo driver: many market paths run through the simulator,
    each compared with an all-asset benchmark over the same path. The random
    paths themselves are an input here (`paths`); one path per iteration. */
module MonteCarlo {
  import opened Wrappers
  import opened Types
  import opened Sorting
  import opened Simulator
  import opened SimulatorProperties
  import opened Statistics

  /** The benchmark's running state: its value and the capital put into it. */
  datatype Benchmark = Benchmark(value: real, contributionTotal: real)

  /** The benchmark after `k` months: it starts at the initial capital and
      every month grows by the month's return, then receives the monthly
      contribution. It is never rebalanced. */
  function BenchmarkAfter(p: Params, market: seq<MarketPoint>, k: nat): Benchmark
    requires k <= |market|
  {
    if k == 0 then Benchmark(p.initialCapital, p.initialCapital)
    else
      BenchmarkNext(BenchmarkAfter(p, market, k - 1), market[k - 1], p.monthlyContribution)
  }

  /** One benchmark month: growth by the month's return, then the contribution. */
  function BenchmarkNext(b: Benchmark, m: MarketPoint, contribution: real): Benchmark {
    Benchmark(b.value * (1.0 + m.returnPct) + contribution, b.contributionTotal + contribution)
  }

  /** The benchmark's contribution total after `k` months is the initial
      capital plus `k` contributions, as for the portfolio. */
  lemma {:induction false} BenchmarkContribution(p: Params, market: seq<MarketPoint>, k: nat)
    requires k <= |market|
    ensures BenchmarkAfter(p, market, k).contributionTotal
         == p.initialCapital + k as real * p.monthlyContribution
  {
    if k > 0 {
      BenchmarkContribution(p, market, k - 1);
      OneMoreContribution(p, BenchmarkAfter(p, market, k - 1).contributionTotal, k - 1);
    }
  }

  /** The benchmark's contribution total is not zero, so its return is a
      number (trivially so for an empty path, which is skipped). */
  predicate HasBenchmark(p: Params, market: seq<MarketPoint>) {
    |market| == 0 || p.initialCapital + |market| as real * p.monthlyContribution != 0.0
  }

  /** The portfolio's profit over a path: its final value less what was paid in. */
  function PortfolioProfit(p: Params, market: seq<MarketPoint>): real
    requires |market| > 0
  {
    var steps := RunSimulation(p, market);
    steps[|steps| - 1].totalValue - steps[|steps| - 1].contributionTotal
  }

  /** The benchmark's profit over a path. */
  function BenchmarkProfit(p: Params, market: seq<MarketPoint>): real {
    var b := BenchmarkAfter(p, market, |market|);
    b.value - b.contributionTotal
  }

  /** The benchmark's profit as a percentage of what was paid in. */
  function BenchmarkReturn(p: Params, market: seq<MarketPoint>): real
    requires |market| > 0 && HasBenchmark(p, market)
  {
    BenchmarkContribution(p, market, |market|);
    BenchmarkProfit(p, market) / BenchmarkAfter(p, market, |market|).contributionTotal * 100.0
  }

  /** The portfolio beats the benchmark on a path: strictly more profit. */
  predicate Beats(p: Params, market: seq<MarketPoint>) {
    |market| > 0 && PortfolioProfit(p, market) > BenchmarkProfit(p, market)
  }

  /** The number of positions of `s` whose element satisfies `P`. */
  function CountWhere<T>(s: seq<T>, P: T -> bool): nat {
    |set k | 0 <= k < |s| && P(s[k])|
  }

  /** The number of paths that produce a run. */
  function NonEmptyCount(paths: seq<seq<MarketPoint>>): nat {
    CountWhere(paths, (m: seq<MarketPoint>) => |m| > 0)
  }

  /** The number of paths on which the portfolio beats the benchmark. */
  function BeatCount(p: Params, paths: seq<seq<MarketPoint>>): nat {
    CountWhere(paths, (m: seq<MarketPoint>) => Beats(p, m))
  }

  predicate AllNonEmpty(paths: seq<seq<MarketPoint>>) {
    forall k :: 0 <= k < |paths| ==> |paths[k]| > 0
  }

  predicate AllHaveBenchmark(p: Params, paths: seq<seq<MarketPoint>>) {
    forall k :: 0 <= k < |paths| ==> HasBenchmark(p, paths[k])
  }

  /** The final value of the run on every path, path by path. */
  function FinalValues(p: Params, paths: seq<seq<MarketPoint>>): (vs: seq<real>)
    ensures |vs| == |paths|
  {
    seq(|paths|, k requires 0 <= k < |paths| => FinalValue(RunSimulation(p, paths[k])))
  }

  /** The benchmark return on every path, path by path. */
  function BenchmarkReturns(p: Params, paths: seq<seq<MarketPoint>>): (rs: seq<real>)
    requires AllNonEmpty(paths) && AllHaveBenchmark(p, paths)
    ensures |rs| == |paths|
  {
    seq(|paths|, k requires 0 <= k < |paths| => BenchmarkReturn(p, paths[k]))
  }

  /** The loop's three accumulators. */
  datatype Accumulators = Accumulators(finalValues: seq<real>, beats: nat, benchmarkReturns: seq<real>)

  /** The body of `runMonteCarlo`'s loop applied to every path in order: a
      path whose run is empty is skipped; otherwise its final value and its
      benchmark return are appended and a strict win is counted. */
  function Collect(p: Params, paths: seq<seq<MarketPoint>>): (acc: Accumulators)
    requires AllHaveBenchmark(p, paths)
    ensures |acc.finalValues| == |acc.benchmarkReturns| == NonEmptyCount(paths)
    ensures acc.beats == BeatCount(p, paths)
    ensures acc.beats <= |acc.finalValues|
    decreases |paths|
  {
    if |paths| == 0 then Accumulators([], 0, [])
    else
      var init := paths[..|paths| - 1];
      var market := paths[|paths| - 1];
      var acc := Collect(p, init);
      CountWhereSnoc(paths, (m: seq<MarketPoint>) => |m| > 0);
      CountWhereSnoc(paths, (m: seq<MarketPoint>) => Beats(p, m));
      var results := RunSimulation(p, market);
      if |results| > 0 then
        Accumulators(acc.finalValues + [results[|results| - 1].totalValue],
                     if PortfolioProfit(p, market) > BenchmarkProfit(p, market) then acc.beats + 1 else acc.beats,
                     acc.benchmarkReturns + [BenchmarkReturn(p, market)])
      else
        acc
  }

  lemma CountWhereSnoc<T>(s: seq<T>, P: T -> bool)
    requires |s| > 0
    ensures CountWhere(s, P) == CountWhere(s[..|s| - 1], P) + (if P(s[|s| - 1]) then 1 else 0)
  {
    var init := s[..|s| - 1];
    var a := set k | 0 <= k < |s| && P(s[k]);
    var b := set k | 0 <= k < |init| && P(init[k]);
    if P(s[|s| - 1]) {
      assert a == b + {|s| - 1};
    } else {
      assert a == b;
    }
  }

  lemma {:induction false} CountWhereBound<T>(s: seq<T>, P: T -> bool)
    ensures CountWhere(s, P) <= |s|
  {
    if |s| > 0 {
      CountWhereSnoc(s, P);
      CountWhereBound(s[..|s| - 1], P);
    }
  }

  /** When every path produces a run, the accumulated final values and
      benchmark returns are those of the paths, in order. */
  lemma {:induction false} CollectAllNonEmpty(p: Params, paths: seq<seq<MarketPoint>>)
    requires AllHaveBenchmark(p, paths) && AllNonEmpty(paths)
    ensures Collect(p, paths).finalValues == FinalValues(p, paths)
    ensures Collect(p, paths).benchmarkReturns == BenchmarkReturns(p, paths)
    decreases |paths|
  {
    if |paths| > 0 {
      var init := paths[..|paths| - 1];
      CollectAllNonEmpty(p, init);
      PerPathSnoc(p, paths);
    }
  }

  /** The paths that produce a run, in order. */
  function NonEmptyPaths(paths: seq<seq<MarketPoint>>): (r: seq<seq<MarketPoint>>)
    ensures AllNonEmpty(r)
    ensures forall i :: 0 <= i < |r| ==> r[i] in paths
    decreases |paths|
  {
    if |paths| == 0 then []
    else
      var init, last := paths[..|paths| - 1], paths[|paths| - 1];
      assert forall m :: m in init ==> m in paths;
      NonEmptyPaths(init) + (if |last| > 0 then [last] else [])
  }

  lemma FilterHasBenchmark(p: Params, paths: seq<seq<MarketPoint>>)
    requires AllHaveBenchmark(p, paths)
    ensures AllHaveBenchmark(p, NonEmptyPaths(paths))
  {
    var q := NonEmptyPaths(paths);
    forall i | 0 <= i < |q|
      ensures HasBenchmark(p, q[i])
    {
      var k :| 0 <= k < |paths| && paths[k] == q[i];
    }
  }

  /** Whatever mix of empty and non-empty paths is given, the accumulated
      final values and benchmark returns are those of the paths that produce
      a run, in path order. */
  lemma {:induction false} CollectFilter(p: Params, paths: seq<seq<MarketPoint>>)
    requires AllHaveBenchmark(p, paths)
    ensures AllHaveBenchmark(p, NonEmptyPaths(paths))
    ensures Collect(p, paths).finalValues == FinalValues(p, NonEmptyPaths(paths))
    ensures Collect(p, paths).benchmarkReturns == BenchmarkReturns(p, NonEmptyPaths(paths))
    decreases |paths|
  {
    FilterHasBenchmark(p, paths);
    if |paths| > 0 {
      var init, last := paths[..|paths| - 1], paths[|paths| - 1];
      assert AllHaveBenchmark(p, init);
      CollectFilter(p, init);
      CollectStep(p, paths);
      var q, qi := NonEmptyPaths(paths), NonEmptyPaths(init);
      if |last| > 0 {
        assert q == qi + [last];
        assert q[..|q| - 1] == qi;
        PerPathSnoc(p, q);
      } else {
        assert q == qi;
      }
    }
  }

  /** One more path appends its final value and benchmark return when it
      produces a run, and nothing otherwise. */
  lemma CollectStep(p: Params, paths: seq<seq<MarketPoint>>)
    requires |paths| > 0 && AllHaveBenchmark(p, paths)
    ensures var init, last := paths[..|paths| - 1], paths[|paths| - 1];
      var acc := Collect(p, init);
      && Collect(p, paths).finalValues
         == acc.finalValues + (if |last| > 0 then [FinalValue(RunSimulation(p, last))] else [])
      && Collect(p, paths).benchmarkReturns
         == acc.benchmarkReturns + (if |last| > 0 then [BenchmarkReturn(p, last)] else [])
  {
    var init := paths[..|paths| - 1];
    assert AllHaveBenchmark(p, init);
  }

  lemma PerPathSnoc(p: Params, paths: seq<seq<MarketPoint>>)
    requires |paths| > 0 && AllHaveBenchmark(p, paths) && AllNonEmpty(paths)
    ensures var init, last := paths[..|paths| - 1], paths[|paths| - 1];
      && FinalValues(p, paths) == FinalValues(p, init) + [FinalValue(RunSimulation(p, last))]
      && BenchmarkReturns(p, paths) == BenchmarkReturns(p, init) + [BenchmarkReturn(p, last)]
  {
  }

  /** `runMonteCarlo`'s result. A frequency or median the source computes as
      `NaN` or `undefined` is `None`. */
  datatype MonteCarloResult = MonteCarloResult(
    finalValues: seq<real>,
    benchmarkExcedanceFreq: Option<real>,
    medianBenchmarkReturn: Option<real>)

  /** `runMonteCarlo` over one path per iteration: the final values of the
      runs, the percentage of iterations (not of runs) whose portfolio beat
      the benchmark, and the lower median of the benchmark returns. */
  function RunMonteCarlo(p: Params, paths: seq<seq<MarketPoint>>): (r: MonteCarloResult)
    requires AllHaveBenchmark(p, paths)
    ensures |r.finalValues| == NonEmptyCount(paths) <= |paths|
    ensures r.benchmarkExcedanceFreq.None? <==> |paths| == 0
    ensures r.benchmarkExcedanceFreq.Some? ==>
      && r.benchmarkExcedanceFreq.value == BeatCount(p, paths) as real / |paths| as real * 100.0
      && 0.0 <= r.benchmarkExcedanceFreq.value <= 100.0
    ensures r.medianBenchmarkReturn.None? <==> NonEmptyCount(paths) == 0
    ensures AllNonEmpty(paths) ==> r.finalValues == FinalValues(p, paths)
    ensures AllNonEmpty(paths) && |paths| > 0 ==>
      RankValue(BenchmarkReturns(p, paths), r.medianBenchmarkReturn.value, |paths| / 2)
    ensures NonEmptyCount(paths) > 0 ==>
      RankValue(Collect(p, paths).benchmarkReturns, r.medianBenchmarkReturn.value, NonEmptyCount(paths) / 2)
  {
    var acc := Collect(p, paths);
    CountWhereBound(paths, (m: seq<MarketPoint>) => |m| > 0);
    CollectFacts(p, paths);
    var sorted := Sort(acc.benchmarkReturns);
    var median := if |sorted| == 0 then None else Some(sorted[|sorted| / 2]);
    var freq := if |paths| == 0 then None
                else Some(acc.beats as real / |paths| as real * 100.0);
    MonteCarloResult(acc.finalValues, freq, median)
  }

  /** For any mix of empty and non-empty paths, the final values are those
      of the paths that produce a run, and the median benchmark return is the
      lower median of those paths' benchmark returns. */
  lemma RunMonteCarloFiltered(p: Params, paths: seq<seq<MarketPoint>>)
    requires AllHaveBenchmark(p, paths)
    ensures AllHaveBenchmark(p, NonEmptyPaths(paths))
    ensures RunMonteCarlo(p, paths).finalValues == FinalValues(p, NonEmptyPaths(paths))
    ensures NonEmptyCount(paths) > 0 ==>
      RankValue(BenchmarkReturns(p, NonEmptyPaths(paths)),
                RunMonteCarlo(p, paths).medianBenchmarkReturn.value, NonEmptyCount(paths) / 2)
  {
    CollectFilter(p, paths);
  }

  lemma CollectFacts(p: Params, paths: seq<seq<MarketPoint>>)
    requires AllHaveBenchmark(p, paths)
    ensures var acc := Collect(p, paths);
      && (|paths| > 0 ==> 0.0 <= acc.beats as real / |paths| as real * 100.0 <= 100.0)
      && (AllNonEmpty(paths) ==> acc.finalValues == FinalValues(p, paths))
      && (AllNonEmpty(paths) && |paths| > 0 ==>
            RankValue(BenchmarkReturns(p, paths), Sort(acc.benchmarkReturns)[|paths| / 2], |paths| / 2))
      && (|acc.benchmarkReturns| > 0 ==>
            RankValue(acc.benchmarkReturns, Sort(acc.benchmarkReturns)[|acc.benchmarkReturns| / 2],
                      |acc.benchmarkReturns| / 2))
  {
    var acc := Collect(p, paths);
    CountWhereBound(paths, (m: seq<MarketPoint>) => |m| > 0);
    if |paths| > 0 {
      PercentageBounds(acc.beats, |paths|);
    }
    if |acc.benchmarkReturns| > 0 {
      SortedRank(acc.benchmarkReturns, |acc.benchmarkReturns| / 2);
    }
    if AllNonEmpty(paths) {
      CollectAllNonEmpty(p, paths);
      if |paths| > 0 {
        SortedRank(acc.benchmarkReturns, |paths| / 2);
      }
    }
  }

  lemma PercentageBounds(part: nat, whole: nat)
    requires part <= whole && whole > 0
    ensures 0.0 <= part as real / whole as real * 100.0 <= 100.0
  {
    assert part as real / whole as real <= 1.0;
  }

  /** The benchmark is the all-asset portfolio: its ledger holds the
      benchmark value in the asset, no cash, and the benchmark's contribution
      total, month by month. */
  lemma {:induction false} BenchmarkLedgers(p: Params, q: Params, market: seq<MarketPoint>, k: nat)
    requires AllInAsset(q)
    requires q.initialCapital == p.initialCapital && q.monthlyContribution == p.monthlyContribution
    requires k <= |market|
    ensures var b := BenchmarkAfter(p, market, k);
      LedgerAfter(q, market, k) == Ledger(b.value, 0.0, b.contributionTotal)
  {
    if k == 0 {
      assert StartDerivedRatio(q) == 1.0;
    } else {
      BenchmarkLedgers(p, q, market, k - 1);
      var b := BenchmarkAfter(p, market, k - 1);
      assert TargetRatio(q, k - 1, |market|) == 1.0;
      assert LedgerAfter(q, market, k) == Advance(q, Ledger(b.value, 0.0, b.contributionTotal), 1.0, market[k - 1]);
      BenchmarkStep(q, b, market[k - 1]);
    }
  }

  /** One month of an all-in-asset portfolio holding exactly the benchmark
      moves it exactly as the benchmark moves. */
  lemma BenchmarkStep(q: Params, b: Benchmark, m: MarketPoint)
    ensures var n := BenchmarkNext(b, m, q.monthlyContribution);
      Advance(q, Ledger(b.value, 0.0, b.contributionTotal), 1.0, m) == Ledger(n.value, 0.0, n.contributionTotal)
  {
    AdvanceAllInAsset(q, Ledger(b.value, 0.0, b.contributionTotal), m);
  }

  /** The benchmark's value over a non-empty path is the final value of the
      all-asset portfolio with the same capital and contributions. */
  lemma BenchmarkIsAllInAssetRun(p: Params, q: Params, market: seq<MarketPoint>)
    requires AllInAsset(q)
    requires q.initialCapital == p.initialCapital && q.monthlyContribution == p.monthlyContribution
    requires |market| > 0
    ensures BenchmarkAfter(p, market, |market|).value == FinalValue(RunSimulation(q, market))
  {
    BenchmarkLedgers(p, q, market, |market|);
    FinalValueIsLedger(q, market);
  }

  /** On any path the all-asset portfolio's profit is the benchmark's. */
  lemma AllInAssetTies(p: Params, market: seq<MarketPoint>)
    requires AllInAsset(p) && |market| > 0
    ensures PortfolioProfit(p, market) == BenchmarkProfit(p, market)
  {
    BenchmarkLedgers(p, p, market, |market|);
    FinalValueIsLedger(p, market);
  }

  /** An all-asset portfolio makes exactly the benchmark's profit, so it never
      beats it: its excedance frequency is zero. */
  lemma AllInAssetNeverBeats(p: Params, paths: seq<seq<MarketPoint>>)
    requires AllInAsset(p) && AllHaveBenchmark(p, paths)
    ensures BeatCount(p, paths) == 0
    ensures |paths| > 0 ==> RunMonteCarlo(p, paths).benchmarkExcedanceFreq == Some(0.0)
  {
    NoBeats(p, paths);
    if |paths| > 0 {
      NoBeatFrequency(p, paths);
    }
  }

  /** With no path beating the benchmark, the reported frequency is zero. */
  lemma NoBeatFrequency(p: Params, paths: seq<seq<MarketPoint>>)
    requires AllHaveBenchmark(p, paths) && |paths| > 0 && BeatCount(p, paths) == 0
    ensures RunMonteCarlo(p, paths).benchmarkExcedanceFreq == Some(0.0)
  {
    NoPercentage(BeatCount(p, paths), |paths|);
  }

  lemma NoBeats(p: Params, paths: seq<seq<MarketPoint>>)
    requires AllInAsset(p) && AllHaveBenchmark(p, paths)
    ensures BeatCount(p, paths) == 0
  {
    forall k | 0 <= k < |paths|
      ensures !Beats(p, paths[k])
    {
      AllInAssetPathNoBeat(p, paths[k]);
    }
    assert (set k | 0 <= k < |paths| && Beats(p, paths[k])) == {};
  }

  lemma AllInAssetPathNoBeat(p: Params, market: seq<MarketPoint>)
    requires AllInAsset(p) && HasBenchmark(p, market)
    ensures !Beats(p, market)
  {
    if |market| > 0 {
      AllInAssetTies(p, market);
    }
  }

  lemma NoPercentage(part: nat, whole: nat)
    requires part == 0 && whole > 0
    ensures part as real / whole as real * 100.0 == 0.0
  {
  }

  /** A fixed, all-cash portfolio (cash percentage 100). */
  predicate AllInCash(p: Params) {
    p.strategy == Fixed && p.startRatio == 100.0
  }

  /** A month at target ratio 0 that starts with nothing in the asset does not
      depend on the market. */
  lemma AdvanceAllInCash(p: Params, s: Ledger, m1: MarketPoint, m2: MarketPoint)
    requires s.asset == 0.0
    ensures Advance(p, s, 0.0, m1) == Advance(p, s, 0.0, m2)
    ensures Advance(p, s, 0.0, m1).asset == 0.0
  {
  }

  /** The all-cash ledgers of two paths of the same length are equal: the
      market never reaches the portfolio. */
  lemma {:induction false} AllInCashLedgers(p: Params, m1: seq<MarketPoint>, m2: seq<MarketPoint>, k: nat)
    requires AllInCash(p)
    requires |m1| == |m2| && k <= |m1|
    ensures LedgerAfter(p, m1, k) == LedgerAfter(p, m2, k)
    ensures LedgerAfter(p, m1, k).asset == 0.0
  {
    if k > 0 {
      AllInCashLedgers(p, m1, m2, k - 1);
      assert TargetRatio(p, k - 1, |m1|) == 0.0;
      AdvanceAllInCash(p, LedgerAfter(p, m1, k - 1), m1[k - 1], m2[k - 1]);
    }
  }

  /** All-cash runs over paths of one common length end at one common value,
      so the histogram of the final values, with the 25 bins the application
      asks for, fails as written and succeeds when guarded. */
  lemma AllInCashHistogram(p: Params, paths: seq<seq<MarketPoint>>)
    requires AllInCash(p) && AllHaveBenchmark(p, paths)
    requires |paths| > 0 && |paths[0]| > 0
    requires forall k :: 0 <= k < |paths| ==> |paths[k]| == |paths[0]|
    ensures AllEqual(RunMonteCarlo(p, paths).finalValues)
    ensures CalculateHistogram(RunMonteCarlo(p, paths).finalValues, 25) == Failure(ZeroWidthBins)
    ensures CalculateHistogramGuarded(RunMonteCarlo(p, paths).finalValues, 25).Success?
  {
    var vs := RunMonteCarlo(p, paths).finalValues;
    assert vs == FinalValues(p, paths);
    forall k | 0 <= k < |paths|
      ensures vs[k] == vs[0]
    {
      AllInCashFinalValue(p, paths[k], paths[0]);
    }
  }

  /** Two all-cash runs over paths of the same length end at the same value. */
  lemma AllInCashFinalValue(p: Params, m1: seq<MarketPoint>, m2: seq<MarketPoint>)
    requires AllInCash(p)
    requires |m1| == |m2| > 0
    ensures FinalValue(RunSimulation(p, m1)) == FinalValue(RunSimulation(p, m2))
  {
    AllInCashLedgers(p, m1, m2, |m1|);
    FinalValueIsLedger(p, m1);
    FinalValueIsLedger(p, m2);
  }
}
