/** The statistics reducer: nearest-rank percentiles of a collection of
    terminal values and an equal-width histogram over their range. */
module Statistics {
  import opened Wrappers
  import opened Sorting

  /** Percentiles and extremes of a non-empty collection. */
  datatype Stats = Stats(p10: real, p50: real, p90: real, min: real, max: real)

  /** `Math.min(Math.floor(pct/100 * count), count - 1)`: the nearest-rank
      (lower) index of percentile `pct` in a sorted array of `count` values. */
  function PercentileIndex(count: nat, pct: nat): (k: nat)
    requires count > 0
    ensures k < count
  {
    var index := count * pct / 100;
    if index <= count - 1 then index else count - 1
  }

  lemma PercentileIndexMonotone(count: nat, a: nat, b: nat)
    requires count > 0
    requires a <= b
    ensures PercentileIndex(count, a) <= PercentileIndex(count, b)
  {
    assert count * a <= count * b;
  }

  /** `calculatePercentiles`: sorts a copy of `values` and reads the 10th,
      50th and 90th nearest-rank percentiles and the extremes from it. The
      source reads `sorted[-1]` on an empty input, so the input must not be
      empty. */
  function CalculatePercentiles(values: seq<real>): (st: Stats)
    requires |values| > 0
    ensures st.min <= st.p10 <= st.p50 <= st.p90 <= st.max
    ensures forall i :: 0 <= i < |values| ==> st.min <= values[i] <= st.max
    ensures RankValue(values, st.min, 0)
    ensures RankValue(values, st.p10, PercentileIndex(|values|, 10))
    ensures RankValue(values, st.p50, PercentileIndex(|values|, 50))
    ensures RankValue(values, st.p90, PercentileIndex(|values|, 90))
    ensures RankValue(values, st.max, |values| - 1)
  {
    var n := |values|;
    var sorted := Sort(values);
    PercentileFacts(values);
    Stats(sorted[PercentileIndex(n, 10)], sorted[PercentileIndex(n, 50)], sorted[PercentileIndex(n, 90)],
          sorted[0], sorted[n - 1])
  }

  /** The reads of `CalculatePercentiles` from the sorted copy: each is the
      value of its rank, and they lie in order between the extremes. */
  lemma PercentileFacts(values: seq<real>)
    requires |values| > 0
    ensures var s, n := Sort(values), |values|;
      && s[0] <= s[PercentileIndex(n, 10)] <= s[PercentileIndex(n, 50)]
           <= s[PercentileIndex(n, 90)] <= s[n - 1]
      && (forall i :: 0 <= i < n ==> s[0] <= values[i] <= s[n - 1])
      && RankValue(values, s[0], 0)
      && RankValue(values, s[PercentileIndex(n, 10)], PercentileIndex(n, 10))
      && RankValue(values, s[PercentileIndex(n, 50)], PercentileIndex(n, 50))
      && RankValue(values, s[PercentileIndex(n, 90)], PercentileIndex(n, 90))
      && RankValue(values, s[n - 1], n - 1)
  {
    var n := |values|;
    PercentileOrder(values);
    SortedRank(values, 0);
    SortedRank(values, PercentileIndex(n, 10));
    SortedRank(values, PercentileIndex(n, 50));
    SortedRank(values, PercentileIndex(n, 90));
    SortedRank(values, n - 1);
    SortedExtremes(values);
  }

  /** The 10th, 50th and 90th percentile entries of the sorted copy lie in
      order between its first and last entries. */
  lemma PercentileOrder(values: seq<real>)
    requires |values| > 0
    ensures var s, n := Sort(values), |values|;
      s[0] <= s[PercentileIndex(n, 10)] <= s[PercentileIndex(n, 50)]
        <= s[PercentileIndex(n, 90)] <= s[n - 1]
  {
    var s, n := Sort(values), |values|;
    var i10, i50, i90 := PercentileIndex(n, 10), PercentileIndex(n, 50), PercentileIndex(n, 90);
    PercentileIndexMonotone(n, 10, 50);
    PercentileIndexMonotone(n, 50, 90);
    SortedChain(s, i10, i50, i90);
  }

  /** Three ordered indices of an ascending sequence read ordered values
      between its first and last entries. */
  lemma SortedChain(s: seq<real>, a: nat, b: nat, c: nat)
    requires Sorted(s) && a <= b <= c < |s|
    ensures s[0] <= s[a] <= s[b] <= s[c] <= s[|s| - 1]
  {
    SortedAt(s, 0, a);
    SortedAt(s, a, b);
    SortedAt(s, b, c);
    SortedAt(s, c, |s| - 1);
  }

  /** The first and last elements of the sorted copy bound every input value. */
  lemma SortedExtremes(values: seq<real>)
    requires |values| > 0
    ensures forall i :: 0 <= i < |values| ==> Sort(values)[0] <= values[i] <= Sort(values)[|values| - 1]
  {
    var sorted := Sort(values);
    forall i | 0 <= i < |values|
      ensures sorted[0] <= values[i] <= sorted[|values| - 1]
    {
      assert values[i] in multiset(values);
      assert values[i] in sorted by { assert values[i] in multiset(sorted); }
      var k :| 0 <= k < |sorted| && sorted[k] == values[i];
      SortedAt(sorted, 0, k);
      SortedAt(sorted, k, |values| - 1);
    }
  }

  /** For the values 1, 2, ..., 100 the percentiles are 11, 51 and 91: the
      rule indexes the sorted copy at 10, 50 and 90, without interpolation. */
  lemma PercentilesOfOneToHundred(values: seq<real>)
    requires |values| == 100
    requires forall i :: 0 <= i < 100 ==> values[i] == (i + 1) as real
    ensures var st := CalculatePercentiles(values);
      st.p10 == 11.0 && st.p50 == 51.0 && st.p90 == 91.0 && st.min == 1.0 && st.max == 100.0
  {
    SortOfSorted(values);
    assert PercentileIndex(100, 10) == 10;
    assert PercentileIndex(100, 50) == 50;
    assert PercentileIndex(100, 90) == 90;
  }

  /** One histogram bin; the source's display label is not modelled. */
  datatype Bin = Bin(rangeStart: real, rangeEnd: real, count: nat)

  /** Why `calculateHistogram` throws on a non-empty input: with no bins the
      clamped index 0 names a missing bin, and with all values equal the bin
      width is 0 and `(v - min) / 0` is `NaN`, which no clamp catches. */
  datatype HistogramError = NoBins | ZeroWidthBins

  /** `v` lies in `[start, end)`, or at `end` itself when the bin is closed. */
  predicate InBin(v: real, start: real, end: real, closed: bool) {
    start <= v && (v < end || (closed && v == end))
  }

  /** The number of `values` inside a bin. */
  function CountWithin(values: seq<real>, start: real, end: real, closed: bool): (c: nat)
    ensures c <= |values|
  {
    if |values| == 0 then 0
    else CountWithin(values[..|values| - 1], start, end, closed)
         + (if InBin(values[|values| - 1], start, end, closed) then 1 else 0)
  }

  function Sum(s: seq<nat>): nat {
    if |s| == 0 then 0 else Sum(s[..|s| - 1]) + s[|s| - 1]
  }

  /** The common width of `binCount` bins spanning `[lo, hi]`. */
  function BinWidth(lo: real, hi: real, binCount: nat): real
    requires binCount > 0
  {
    (hi - lo) / binCount as real
  }

  /** Start of bin `b`, `min + b * step`. */
  function BinStart(lo: real, hi: real, binCount: nat, b: int): real
    requires binCount > 0
  {
    lo + b as real * BinWidth(lo, hi, binCount)
  }

  /** `Math.floor((v - min) / step)` clamped first to at most `binCount - 1`
      and then to at least 0. */
  function BinIndex(v: real, lo: real, hi: real, binCount: nat): (b: int)
    requires binCount > 0 && lo < hi
    ensures 0 <= b < binCount
  {
    var raw := ((v - lo) / BinWidth(lo, hi, binCount)).Floor;
    if raw >= binCount then binCount - 1 else if raw < 0 then 0 else raw
  }

  /** Comparing a quotient by a positive width with a number is comparing
      the dividend with the number's multiple of the width. */
  lemma ScaleByWidth(d: real, w: real, k: real)
    requires w > 0.0
    ensures k <= d / w <==> k * w <= d
    ensures d / w < k <==> d < k * w
  {
    assert d / w * w == d;
    if k <= d / w {
      assert k * w <= d / w * w;
    }
    if k * w <= d {
      assert k <= d / w;
    }
    if d / w < k {
      assert d / w * w < k * w;
    }
  }

  /** The floor of `(v - lo) / width` locates `v` between two bin starts. */
  lemma FloorLocates(v: real, lo: real, hi: real, binCount: nat)
    requires binCount > 0 && lo < hi
    ensures var raw := ((v - lo) / BinWidth(lo, hi, binCount)).Floor;
      BinStart(lo, hi, binCount, raw) <= v < BinStart(lo, hi, binCount, raw + 1)
  {
    var w := BinWidth(lo, hi, binCount);
    var x := (v - lo) / w;
    var raw := x.Floor;
    assert raw as real <= x < raw as real + 1.0;
    ScaleByWidth(v - lo, w, raw as real);
    ScaleByWidth(v - lo, w, (raw + 1) as real);
  }

  /** The bin starts grow with the index, and the start of bin `binCount` is `hi`. */
  lemma BinStartsGrow(lo: real, hi: real, binCount: nat, a: int, b: int)
    requires binCount > 0 && lo < hi
    requires a <= b
    ensures BinStart(lo, hi, binCount, a) <= BinStart(lo, hi, binCount, b)
    ensures a < b ==> BinStart(lo, hi, binCount, a) < BinStart(lo, hi, binCount, b)
    ensures BinStart(lo, hi, binCount, binCount) == hi
  {
    var w := BinWidth(lo, hi, binCount);
    assert w > 0.0;
    assert (b - a) as real * w >= 0.0;
    if a < b {
      assert (b - a) as real * w > 0.0;
    }
    assert binCount as real * w == hi - lo;
  }

  /** A value of `[lo, hi]` is assigned bin `b` exactly when it lies in bin
      `b`'s interval `[lo + b*w, lo + (b+1)*w)`, the last bin being closed
      at `hi`; the lower clamp never applies and the upper clamp applies
      only to `hi`. */
  lemma BinIndexFinds(v: real, lo: real, hi: real, binCount: nat, b: nat)
    requires binCount > 0 && lo < hi
    requires lo <= v <= hi
    requires b < binCount
    ensures BinIndex(v, lo, hi, binCount) == b
        <==> InBin(v, BinStart(lo, hi, binCount, b), BinStart(lo, hi, binCount, b + 1), b == binCount - 1)
  {
    var raw := ((v - lo) / BinWidth(lo, hi, binCount)).Floor;
    FloorLocates(v, lo, hi, binCount);
    BinStartsGrow(lo, hi, binCount, 0, 0);
    if raw < 0 {
      BinStartsGrow(lo, hi, binCount, raw + 1, 0);
      assert false;
    }
    if raw > binCount {
      BinStartsGrow(lo, hi, binCount, binCount, raw);
      assert false;
    }
    if raw == binCount {
      assert v == hi;
      BinStartsGrow(lo, hi, binCount, b + 1, binCount);
      BinStartsGrow(lo, hi, binCount, b, binCount - 1);
    } else {
      if b < raw {
        BinStartsGrow(lo, hi, binCount, b + 1, raw);
        BinStartsGrow(lo, hi, binCount, raw + 1, binCount);
      } else if b > raw {
        BinStartsGrow(lo, hi, binCount, raw + 1, b);
      }
    }
  }

  lemma {:induction false} SumZeros(n: nat)
    ensures Sum(seq(n, _ => 0)) == 0
  {
    if n > 0 {
      assert seq(n, _ => 0)[..n - 1] == seq(n - 1, _ => 0);
      SumZeros(n - 1);
    }
  }

  lemma {:induction false} SumIncrement(s: seq<nat>, b: nat)
    requires b < |s|
    ensures Sum(s[b := s[b] + 1]) == Sum(s) + 1
    decreases |s|
  {
    var t := s[b := s[b] + 1];
    if b < |s| - 1 {
      assert t[..|t| - 1] == s[..|s| - 1][b := s[b] + 1];
      SumIncrement(s[..|s| - 1], b);
    } else {
      assert t[..|t| - 1] == s[..|s| - 1];
    }
  }

  /** The bin counts of `values` (the source's `forEach`): each value in turn
      increments the count of its clamped bin index, starting from zeros. */
  function Tally(values: seq<real>, lo: real, hi: real, binCount: nat): (counts: seq<nat>)
    requires binCount > 0 && lo < hi
    ensures |counts| == binCount
    ensures Sum(counts) == |values|
  {
    if |values| == 0 then
      SumZeros(binCount);
      seq(binCount, _ => 0)
    else
      var counts := Tally(values[..|values| - 1], lo, hi, binCount);
      var b := BinIndex(values[|values| - 1], lo, hi, binCount);
      SumIncrement(counts, b);
      counts[b := counts[b] + 1]
  }

  /** Every count of the tally is the number of values inside that bin's
      interval. */
  lemma {:induction false} TallyCountsBins(values: seq<real>, lo: real, hi: real, binCount: nat, b: nat)
    requires binCount > 0 && lo < hi
    requires forall i :: 0 <= i < |values| ==> lo <= values[i] <= hi
    requires b < binCount
    ensures Tally(values, lo, hi, binCount)[b]
         == CountWithin(values, BinStart(lo, hi, binCount, b), BinStart(lo, hi, binCount, b + 1), b == binCount - 1)
    decreases |values|
  {
    if |values| > 0 {
      var last := values[|values| - 1];
      TallyCountsBins(values[..|values| - 1], lo, hi, binCount, b);
      BinIndexFinds(last, lo, hi, binCount, b);
    }
  }

  /** All elements equal the first. */
  predicate AllEqual(values: seq<real>) {
    forall i :: 0 <= i < |values| ==> values[i] == values[0]
  }

  /** The bins over `[lo, hi]`: bin `b` starts at `lo + b*step`, ends one
      `step` later and holds the tally of its index. */
  function MakeBins(values: seq<real>, lo: real, hi: real, binCount: nat): (bins: seq<Bin>)
    requires binCount > 0 && lo < hi
  {
    var counts := Tally(values, lo, hi, binCount);
    var step := BinWidth(lo, hi, binCount);
    seq(binCount, b requires 0 <= b < binCount =>
      Bin(BinStart(lo, hi, binCount, b), BinStart(lo, hi, binCount, b) + step, counts[b]))
  }

  function BinCounts(bins: seq<Bin>): (counts: seq<nat>)
    ensures |counts| == |bins|
    ensures forall b :: 0 <= b < |bins| ==> counts[b] == bins[b].count
  {
    seq(|bins|, b requires 0 <= b < |bins| => bins[b].count)
  }

  /** `calculateHistogram`: `binCount` equal-width bins from the least to the
      greatest value, each counting the values in its interval. The source
      throws where this returns `Failure`. */
  function CalculateHistogram(values: seq<real>, binCount: int): (r: Result<seq<Bin>, HistogramError>)
    ensures |values| == 0 ==> r == Success([])
    ensures |values| > 0 && binCount <= 0 ==> r == Failure(NoBins)
    ensures |values| > 0 && binCount > 0 && AllEqual(values) ==> r == Failure(ZeroWidthBins)
    ensures |values| > 0 && binCount > 0 && !AllEqual(values) ==>
      && r.Success?
      && |r.value| == binCount
      && r.value[0].rangeStart in values
      && r.value[binCount - 1].rangeEnd in values
      && (forall i :: 0 <= i < |values| ==>
            r.value[0].rangeStart <= values[i] <= r.value[binCount - 1].rangeEnd)
      && (forall b :: 0 <= b < binCount - 1 ==> r.value[b].rangeEnd == r.value[b + 1].rangeStart)
      && (forall b :: 0 <= b < binCount ==>
            r.value[b].rangeEnd - r.value[b].rangeStart == r.value[0].rangeEnd - r.value[0].rangeStart)
      && (forall b :: 0 <= b < binCount ==>
            r.value[b].count == CountWithin(values, r.value[b].rangeStart, r.value[b].rangeEnd, b == binCount - 1))
      && Sum(BinCounts(r.value)) == |values|
  {
    if |values| == 0 then Success([])
    else if binCount <= 0 then Failure(NoBins)
    else
      var stats := CalculatePercentiles(values);
      if stats.max == stats.min then
        Failure(ZeroWidthBins)
      else
        var bins := MakeBins(values, stats.min, stats.max, binCount);
        MakeBinsFacts(values, stats.min, stats.max, binCount);
        Success(bins)
  }

  lemma MakeBinsFacts(values: seq<real>, lo: real, hi: real, binCount: nat)
    requires binCount > 0 && lo < hi
    requires forall i :: 0 <= i < |values| ==> lo <= values[i] <= hi
    ensures var bins := MakeBins(values, lo, hi, binCount);
      && |bins| == binCount
      && bins[0].rangeStart == lo
      && bins[binCount - 1].rangeEnd == hi
      && (forall b :: 0 <= b < binCount - 1 ==> bins[b].rangeEnd == bins[b + 1].rangeStart)
      && (forall b :: 0 <= b < binCount ==> bins[b].rangeEnd - bins[b].rangeStart == BinWidth(lo, hi, binCount))
      && (forall b :: 0 <= b < binCount ==>
            bins[b].count == CountWithin(values, bins[b].rangeStart, bins[b].rangeEnd, b == binCount - 1))
      && Sum(BinCounts(bins)) == |values|
  {
    MakeBinsRanges(values, lo, hi, binCount);
    MakeBinsCounts(values, lo, hi, binCount);
  }

  lemma MakeBinsRanges(values: seq<real>, lo: real, hi: real, binCount: nat)
    requires binCount > 0 && lo < hi
    ensures var bins := MakeBins(values, lo, hi, binCount);
      && |bins| == binCount
      && bins[0].rangeStart == lo
      && bins[binCount - 1].rangeEnd == hi
      && (forall b :: 0 <= b < binCount ==> bins[b].rangeEnd == BinStart(lo, hi, binCount, b + 1))
      && (forall b :: 0 <= b < binCount ==> bins[b].rangeEnd - bins[b].rangeStart == BinWidth(lo, hi, binCount))
  {
    BinStartsGrow(lo, hi, binCount, 0, 0);
  }

  lemma MakeBinsCounts(values: seq<real>, lo: real, hi: real, binCount: nat)
    requires binCount > 0 && lo < hi
    requires forall i :: 0 <= i < |values| ==> lo <= values[i] <= hi
    ensures var bins := MakeBins(values, lo, hi, binCount);
      && (forall b :: 0 <= b < binCount ==>
            bins[b].count == CountWithin(values, bins[b].rangeStart, bins[b].rangeEnd, b == binCount - 1))
      && Sum(BinCounts(bins)) == |values|
  {
    var bins := MakeBins(values, lo, hi, binCount);
    MakeBinsRanges(values, lo, hi, binCount);
    forall b | 0 <= b < binCount
      ensures bins[b].count == CountWithin(values, bins[b].rangeStart, bins[b].rangeEnd, b == binCount - 1)
    {
      TallyCountsBins(values, lo, hi, binCount, b);
    }
    assert BinCounts(bins) == Tally(values, lo, hi, binCount);
  }

  /** The histogram with the all-equal case handled: like `CalculateHistogram`,
      except that when every value is equal it returns `binCount` bins of
      width zero at that value, with every value in bin 0 and the other bins
      empty. */
  function CalculateHistogramGuarded(values: seq<real>, binCount: int): (r: Result<seq<Bin>, HistogramError>)
    ensures |values| > 0 && binCount > 0 ==>
      && r.Success?
      && |r.value| == binCount
      && Sum(BinCounts(r.value)) == |values|
    ensures (|values| == 0 || binCount <= 0 || !AllEqual(values)) ==> r == CalculateHistogram(values, binCount)
    ensures |values| > 0 && binCount > 0 && AllEqual(values) ==>
      && r.value[0].count == |values|
      && (forall b :: 0 <= b < binCount ==>
            r.value[b].rangeStart == r.value[b].rangeEnd == values[0]
            && r.value[b].count == CountWithin(values, r.value[b].rangeStart, r.value[b].rangeEnd, b == 0))
  {
    if |values| > 0 && binCount > 0 && AllEqual(values) then
      var bins := seq(binCount, b requires 0 <= b < binCount =>
        Bin(values[0], values[0], if b == 0 then |values| else 0));
      assert bins[0].count == |values|;
      HistogramOfEqualValues(values, binCount, bins);
      Success(bins)
    else
      CalculateHistogram(values, binCount)
  }

  lemma HistogramOfEqualValues(values: seq<real>, binCount: nat, bins: seq<Bin>)
    requires |values| > 0 && binCount > 0 && AllEqual(values)
    requires bins == seq(binCount, b requires 0 <= b < binCount =>
        Bin(values[0], values[0], if b == 0 then |values| else 0))
    ensures Sum(BinCounts(bins)) == |values|
    ensures forall b :: 0 <= b < binCount ==>
      bins[b].count == CountWithin(values, values[0], values[0], b == 0)
  {
    SumFirstOnly(|values|, binCount);
    assert BinCounts(bins) == seq(binCount, b => if b == 0 then |values| else 0);
    CountWithinEqual(values, values[0]);
  }

  /** A sequence whose only non-zero element is the first sums to it. */
  lemma {:induction false} SumFirstOnly(n: nat, k: nat)
    requires k > 0
    ensures Sum(seq(k, b => if b == 0 then n else 0)) == n
  {
    if k > 1 {
      assert seq(k, b => if b == 0 then n else 0)[..k - 1] == seq(k - 1, b => if b == 0 then n else 0);
      SumFirstOnly(n, k - 1);
    } else {
      assert seq(k, b => if b == 0 then n else 0)[..k - 1] == [];
    }
  }

  /** A closed zero-width bin at `v` holds every value equal to `v`; an open
      one holds none. */
  lemma {:induction false} CountWithinEqual(values: seq<real>, v: real)
    requires forall i :: 0 <= i < |values| ==> values[i] == v
    ensures CountWithin(values, v, v, true) == |values|
    ensures CountWithin(values, v, v, false) == 0
  {
    if |values| > 0 {
      CountWithinEqual(values[..|values| - 1], v);
    }
  }

  /** The source as written fails on two equal values, which one would
      expect to land in the first of 25 bins. */
  lemma EqualValuesFailAsWritten()
    ensures CalculateHistogram([5.0, 5.0], 25) == Failure(ZeroWidthBins)
    ensures CalculateHistogramGuarded([5.0, 5.0], 25).Success?
    ensures CalculateHistogramGuarded([5.0, 5.0], 25).value[0].count == 2
  {
    assert AllEqual([5.0, 5.0]);
  }
}
