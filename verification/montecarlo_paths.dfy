/** The path sampler: like the Monte Carlo driver, but it keeps each whole
    run, orders the runs by final value and points at the middle one. The
    random paths are an input here (`markets`); one path per sample. */
module MonteCarloPaths {
  import opened Types
  import opened Sorting
  import opened Simulator
  import opened MonteCarlo

  /** `generateMonteCarloPaths`' result: the runs, in ascending order of final
      value, and the position of the median run. */
  datatype PathsResult = PathsResult(paths: seq<seq<Step>>, medianIndex: nat)

  /** Every step of `run` has paid in the initial capital plus one
      contribution per month so far. */
  ghost predicate Scheduled(p: Params, run: seq<Step>) {
    forall t :: 0 <= t < |run| ==>
      run[t].contributionTotal == p.initialCapital + (t + 1) as real * p.monthlyContribution
  }

  predicate SameLength(markets: seq<seq<MarketPoint>>, n: nat) {
    forall k :: 0 <= k < |markets| ==> |markets[k]| == n
  }

  /** The non-empty members of `runs`, in order: what pushing each run that
      has a step onto an initially empty list leaves. */
  function NonEmptyRuns(runs: seq<seq<Step>>): seq<seq<Step>> {
    if |runs| == 0 then []
    else (if |runs[0]| > 0 then [runs[0]] else []) + NonEmptyRuns(runs[1..])
  }

  lemma {:induction false} NonEmptyRunsSnoc(runs: seq<seq<Step>>, x: seq<Step>)
    ensures NonEmptyRuns(runs + [x]) == NonEmptyRuns(runs) + (if |x| > 0 then [x] else [])
    decreases |runs|
  {
    if |runs| == 0 {
      assert runs + [x] == [x];
      assert [x][1..] == [];
    } else {
      assert (runs + [x])[0] == runs[0];
      assert (runs + [x])[1..] == runs[1..] + [x];
      NonEmptyRunsSnoc(runs[1..], x);
    }
  }

  /** The run of every path, in path order. */
  function AllRuns(p: Params, markets: seq<seq<MarketPoint>>): seq<seq<Step>> {
    seq(|markets|, k requires 0 <= k < |markets| => RunSimulation(p, markets[k]))
  }

  /** The runs of the paths, in order, keeping only the non-empty ones. */
  function KeptRuns(p: Params, markets: seq<seq<MarketPoint>>): (runs: seq<seq<Step>>)
    ensures |runs| == NonEmptyCount(markets)
    ensures forall i :: 0 <= i < |runs| ==> |runs[i]| > 0 && Scheduled(p, runs[i])
    ensures forall n: nat :: SameLength(markets, n) ==> forall i :: 0 <= i < |runs| ==> |runs[i]| == n
    ensures AllNonEmpty(markets) ==> runs == AllRuns(p, markets)
    decreases |markets|
  {
    if |markets| == 0 then []
    else
      var init := markets[..|markets| - 1];
      var results := RunSimulation(p, markets[|markets| - 1]);
      var runs := KeptRuns(p, init);
      KeepCount(markets, runs, results);
      KeepScheduled(p, runs, results);
      KeepLengths(markets, init, runs, results);
      KeepAll(p, markets, runs);
      Keep(runs, results)
  }

  /** `runs` with `results` pushed on when it has a step. */
  function Keep(runs: seq<seq<Step>>, results: seq<Step>): seq<seq<Step>> {
    if |results| > 0 then runs + [results] else runs
  }

  /** Pushing the last path's run counts it among the non-empty paths. */
  lemma KeepCount(markets: seq<seq<MarketPoint>>, runs: seq<seq<Step>>, results: seq<Step>)
    requires |markets| > 0 && |results| == |markets[|markets| - 1]|
    requires |runs| == NonEmptyCount(markets[..|markets| - 1])
    ensures |Keep(runs, results)| == NonEmptyCount(markets)
  {
    CountWhereSnoc(markets, (m: seq<MarketPoint>) => |m| > 0);
  }

  /** Only non-empty runs that follow the contribution schedule are pushed. */
  lemma KeepScheduled(p: Params, runs: seq<seq<Step>>, results: seq<Step>)
    requires forall i :: 0 <= i < |runs| ==> |runs[i]| > 0 && Scheduled(p, runs[i])
    requires Scheduled(p, results)
    ensures var r := Keep(runs, results);
      forall i :: 0 <= i < |r| ==> |r[i]| > 0 && Scheduled(p, r[i])
  {
  }

  /** When all paths have `n` months, so do all kept runs. */
  lemma KeepLengths(markets: seq<seq<MarketPoint>>, init: seq<seq<MarketPoint>>,
                    runs: seq<seq<Step>>, results: seq<Step>)
    requires |markets| > 0 && init == markets[..|markets| - 1] && |results| == |markets[|markets| - 1]|
    requires forall n: nat :: SameLength(init, n) ==> forall i :: 0 <= i < |runs| ==> |runs[i]| == n
    ensures forall n: nat :: SameLength(markets, n) ==>
      forall i :: 0 <= i < |Keep(runs, results)| ==> |Keep(runs, results)[i]| == n
  {
    forall n: nat | SameLength(markets, n)
      ensures forall i :: 0 <= i < |Keep(runs, results)| ==> |Keep(runs, results)[i]| == n
    {
      assert SameLength(init, n);
    }
  }

  /** When every path has a step, every run is kept. */
  lemma KeepAll(p: Params, markets: seq<seq<MarketPoint>>, runs: seq<seq<Step>>)
    requires |markets| > 0
    requires AllNonEmpty(markets[..|markets| - 1]) ==> runs == AllRuns(p, markets[..|markets| - 1])
    ensures AllNonEmpty(markets) ==> Keep(runs, RunSimulation(p, markets[|markets| - 1])) == AllRuns(p, markets)
  {
    var init := markets[..|markets| - 1];
    if AllNonEmpty(markets) {
      assert AllNonEmpty(init);
      assert AllRuns(p, markets) == AllRuns(p, init) + [RunSimulation(p, markets[|markets| - 1])];
    }
  }

  /** The kept runs are exactly the non-empty runs of the paths, in path
      order, whatever mix of empty and non-empty paths is given. */
  lemma {:induction false} KeptRunsFilter(p: Params, markets: seq<seq<MarketPoint>>)
    ensures KeptRuns(p, markets) == NonEmptyRuns(AllRuns(p, markets))
    decreases |markets|
  {
    if |markets| > 0 {
      var init := markets[..|markets| - 1];
      var results := RunSimulation(p, markets[|markets| - 1]);
      KeptRunsFilter(p, init);
      assert AllRuns(p, markets) == AllRuns(p, init) + [results];
      NonEmptyRunsSnoc(AllRuns(p, init), results);
    } else {
      assert AllRuns(p, markets) == [];
    }
  }

  /** `generateMonteCarloPaths`: the non-empty runs sorted by final value,
      and the index `floor(count / 2)` of the lower-median run. */
  function GenerateMonteCarloPaths(p: Params, markets: seq<seq<MarketPoint>>): (r: PathsResult)
    ensures |r.paths| == NonEmptyCount(markets)
    ensures multiset(r.paths) == multiset(KeptRuns(p, markets))
    ensures SortedBy(r.paths, FinalValue)
    ensures forall i :: 0 <= i < |r.paths| ==> |r.paths[i]| > 0 && Scheduled(p, r.paths[i])
    ensures forall n: nat :: SameLength(markets, n) ==> forall i :: 0 <= i < |r.paths| ==> |r.paths[i]| == n
    ensures r.medianIndex == |r.paths| / 2
    ensures |r.paths| > 0 ==> r.medianIndex < |r.paths|
  {
    var kept := KeptRuns(p, markets);
    var paths := SortBy(kept, FinalValue);
    PermutationMembers(kept, paths);
    PathsResult(paths, |paths| / 2)
  }

  /** Runs that tie on final value stay in path order, so the run at the
      median index is determined even when several runs share its value. */
  lemma TiedRunsKeepPathOrder(p: Params, markets: seq<seq<MarketPoint>>, v: real)
    ensures WithKey(GenerateMonteCarloPaths(p, markets).paths, FinalValue, v)
         == WithKey(NonEmptyRuns(AllRuns(p, markets)), FinalValue, v)
  {
    KeptRunsFilter(p, markets);
    SortByStable(KeptRuns(p, markets), FinalValue, v);
  }

  /** Every element of a permutation of `kept` is an element of `kept`. */
  lemma PermutationMembers(kept: seq<seq<Step>>, paths: seq<seq<Step>>)
    requires multiset(paths) == multiset(kept)
    ensures forall i :: 0 <= i < |paths| ==> paths[i] in kept
  {
    forall i | 0 <= i < |paths|
      ensures paths[i] in kept
    {
      assert paths[i] in multiset(paths);
    }
  }

  /** When every path produces a run, the median run ends at the lower median
      of the final values the Monte Carlo driver reports for the same paths. */
  lemma MedianPathIsMedianValue(p: Params, markets: seq<seq<MarketPoint>>)
    requires AllNonEmpty(markets) && |markets| > 0
    ensures var r := GenerateMonteCarloPaths(p, markets);
      && r.medianIndex == |markets| / 2
      && RankValue(FinalValues(p, markets), FinalValue(r.paths[r.medianIndex]), |markets| / 2)
  {
    var kept := KeptRuns(p, markets);
    var r := GenerateMonteCarloPaths(p, markets);
    KeptKeys(p, markets);
    SortByKeys(kept, FinalValue);
    assert r.paths == SortBy(kept, FinalValue);
    assert FinalValue(r.paths[|markets| / 2]) == Keys(r.paths, FinalValue)[|markets| / 2];
    SortedRank(FinalValues(p, markets), |markets| / 2);
  }

  /** When every path produces a run, the final values of the kept runs are
      the driver's final values, path by path. */
  lemma KeptKeys(p: Params, markets: seq<seq<MarketPoint>>)
    requires AllNonEmpty(markets)
    ensures Keys(KeptRuns(p, markets), FinalValue) == FinalValues(p, markets)
  {
    var kept := KeptRuns(p, markets);
    assert forall k :: 0 <= k < |markets| ==> kept[k] == RunSimulation(p, markets[k]);
  }

  /** Every sampled run pays in the same amounts month by month, so any one of
      them gives the invested-capital line for all. */
  lemma SharedContributions(p: Params, markets: seq<seq<MarketPoint>>, i: nat, j: nat, t: nat)
    requires var r := GenerateMonteCarloPaths(p, markets);
      i < |r.paths| && j < |r.paths| && t < |r.paths[i]| && t < |r.paths[j]|
    ensures var r := GenerateMonteCarloPaths(p, markets);
      r.paths[i][t].contributionTotal == r.paths[j][t].contributionTotal
  {
  }
}
