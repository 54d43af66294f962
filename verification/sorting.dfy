/** Ascending sort by a real-valued key, specified as a stable sorted
    permutation, together with the rank facts that nearest-rank percentiles
    and the lower median rely on. The source sorts with
    `Array.prototype.sort` and a subtracting comparator, which ECMAScript
    2019 and later require to be stable. */
module Sorting {

  /** `s` is in ascending order of `key`. */
  ghost predicate SortedBy<T>(s: seq<T>, key: T -> real) {
    forall i, j :: 0 <= i < j < |s| ==> key(s[i]) <= key(s[j])
  }

  /** Inserts `x` into the key-sorted sequence `s`, before the first element
      whose key is not smaller. */
  function Insert<T>(x: T, s: seq<T>, key: T -> real): (r: seq<T>)
    requires SortedBy(s, key)
    ensures |r| == |s| + 1
    ensures multiset(r) == multiset(s) + multiset{x}
    ensures SortedBy(r, key)
  {
    if |s| == 0 then [x]
    else if key(x) <= key(s[0]) then [x] + s
    else
      var rest := Insert(x, s[1..], key);
      HeadBelowRest(x, s, rest, key);
      ConsSorted(s[0], rest, key);
      assert s == [s[0]] + s[1..];
      [s[0]] + rest
  }

  /** Every element of the tail of `s` with `x` inserted has a key at least
      that of the head of `s`, when `x`'s key is above it. */
  lemma HeadBelowRest<T>(x: T, s: seq<T>, rest: seq<T>, key: T -> real)
    requires SortedBy(s, key) && |s| > 0 && key(s[0]) < key(x)
    requires multiset(rest) == multiset(s[1..]) + multiset{x}
    ensures forall k :: 0 <= k < |rest| ==> key(s[0]) <= key(rest[k])
  {
    forall k | 0 <= k < |rest|
      ensures key(s[0]) <= key(rest[k])
    {
      assert rest[k] in multiset(rest);
      if rest[k] != x {
        assert rest[k] in multiset(s[1..]);
        var j :| 0 <= j < |s[1..]| && s[1..][j] == rest[k];
        assert s[j + 1] == rest[k];
      }
    }
  }

  /** Prepending an element whose key is at most every key of a sorted
      sequence keeps it sorted. */
  lemma ConsSorted<T>(h: T, rest: seq<T>, key: T -> real)
    requires SortedBy(rest, key)
    requires forall k :: 0 <= k < |rest| ==> key(h) <= key(rest[k])
    ensures SortedBy([h] + rest, key)
  {
    var r := [h] + rest;
    forall i, j | 0 <= i < j < |r|
      ensures key(r[i]) <= key(r[j])
    {
      assert r[j] == rest[j - 1];
      if i > 0 {
        assert r[i] == rest[i - 1];
      }
    }
  }

  /** Insertion sort of `s` into ascending order of `key`. */
  function SortBy<T>(s: seq<T>, key: T -> real): (r: seq<T>)
    ensures |r| == |s|
    ensures multiset(r) == multiset(s)
    ensures SortedBy(r, key)
  {
    if |s| == 0 then []
    else
      assert s == [s[0]] + s[1..];
      Insert(s[0], SortBy(s[1..], key), key)
  }

  /** The elements of `s` whose key is `v`, in their order in `s`. */
  function WithKey<T>(s: seq<T>, key: T -> real, v: real): (r: seq<T>)
    ensures |r| <= |s|
  {
    if |s| == 0 then []
    else (if key(s[0]) == v then [s[0]] else []) + WithKey(s[1..], key, v)
  }

  lemma WithKeyCons<T>(h: T, s: seq<T>, key: T -> real, v: real)
    ensures WithKey([h] + s, key, v) == (if key(h) == v then [h] else []) + WithKey(s, key, v)
  {
    assert ([h] + s)[0] == h;
    assert ([h] + s)[1..] == s;
  }

  /** Inserting `x` puts it ahead of every element with the same key, and
      leaves the order among the others as it was. */
  lemma {:induction false} InsertWithKey<T>(x: T, t: seq<T>, key: T -> real, v: real)
    requires SortedBy(t, key)
    ensures WithKey(Insert(x, t, key), key, v) == (if key(x) == v then [x] else []) + WithKey(t, key, v)
    decreases |t|
  {
    if |t| == 0 || key(x) <= key(t[0]) {
      InsertFront(x, t, key);
      WithKeyCons(x, t, key, v);
    } else {
      InsertLater(x, t, key);
      assert t == [t[0]] + t[1..];
      InsertWithKey(x, t[1..], key, v);
      PassWithKey(x, t[0], Insert(x, t[1..], key), t[1..], key, v);
    }
  }

  /** An element whose key is at most the first key goes in front. */
  lemma InsertFront<T>(x: T, t: seq<T>, key: T -> real)
    requires SortedBy(t, key) && (|t| == 0 || key(x) <= key(t[0]))
    ensures Insert(x, t, key) == [x] + t
  {
  }

  /** An element whose key is above the first key goes into the tail. */
  lemma InsertLater<T>(x: T, t: seq<T>, key: T -> real)
    requires SortedBy(t, key) && |t| > 0 && key(t[0]) < key(x)
    ensures SortedBy(t[1..], key)
    ensures Insert(x, t, key) == [t[0]] + Insert(x, t[1..], key)
  {
  }

  /** Putting `h`, whose key is below `x`'s, in front of both sides keeps
      `x` ahead of the elements with its key. */
  lemma PassWithKey<T>(x: T, h: T, rest: seq<T>, tail: seq<T>, key: T -> real, v: real)
    requires key(h) < key(x)
    requires WithKey(rest, key, v) == (if key(x) == v then [x] else []) + WithKey(tail, key, v)
    ensures WithKey([h] + rest, key, v) == (if key(x) == v then [x] else []) + WithKey([h] + tail, key, v)
  {
    WithKeyCons(h, rest, key, v);
    WithKeyCons(h, tail, key, v);
    var w := WithKey(tail, key, v);
    if key(x) == v {
      assert WithKey([h] + rest, key, v) == [x] + w;
      assert WithKey([h] + tail, key, v) == w;
    } else {
      assert WithKey(rest, key, v) == w;
    }
  }

  /** The sort is stable: among elements with equal keys, the input order
      survives. */
  lemma {:induction false} SortByStable<T>(s: seq<T>, key: T -> real, v: real)
    ensures WithKey(SortBy(s, key), key, v) == WithKey(s, key, v)
    decreases |s|
  {
    if |s| > 0 {
      SortByStable(s[1..], key, v);
      InsertWithKey(s[0], SortBy(s[1..], key), key, v);
    }
  }

  /** The identity key, for sorting plain numbers. */
  function Id(x: real): real { x }

  /** `s` is in ascending numeric order: `SortedBy(s, Id)`, as
      `SortedIsSortedById` shows, stated on the numbers themselves. */
  ghost predicate Sorted(s: seq<real>) {
    forall i, j :: 0 <= i < j < |s| ==> s[i] <= s[j]
  }

  lemma SortedIsSortedById(s: seq<real>)
    ensures Sorted(s) <==> SortedBy(s, Id)
  {
    assert forall i, j :: 0 <= i < j < |s| ==> (Id(s[i]) <= Id(s[j]) <==> s[i] <= s[j]);
  }

  /** Two entries of an ascending sequence are in index order. */
  lemma SortedAt(s: seq<real>, i: nat, j: nat)
    requires Sorted(s) && i <= j < |s|
    ensures s[i] <= s[j]
  {
  }

  /** The ascending sort of a sequence of numbers (`[...values].sort((a, b) => a - b)`). */
  function Sort(s: seq<real>): (r: seq<real>)
    ensures |r| == |s|
    ensures multiset(r) == multiset(s)
    ensures Sorted(r)
  {
    var r := SortBy(s, Id);
    SortedIsSortedById(r);
    r
  }

  /** Two ascending sequences holding the same multiset of numbers are equal:
      the sorted copy of a sequence is determined by its contents. */
  lemma {:induction false} SortedPermutationUnique(a: seq<real>, b: seq<real>)
    requires Sorted(a) && Sorted(b)
    requires multiset(a) == multiset(b)
    ensures a == b
    decreases |a|
  {
    assert |a| == |multiset(a)| == |multiset(b)| == |b|;
    if |a| > 0 {
      SameHead(a, b);
      SortedTail(a);
      SortedTail(b);
      SortedPermutationUnique(a[1..], b[1..]);
      HeadTailEqual(a, b);
    }
  }

  /** Two ascending permutations of each other share their head, and their
      tails are again permutations of each other. */
  lemma SameHead(a: seq<real>, b: seq<real>)
    requires Sorted(a) && Sorted(b)
    requires multiset(a) == multiset(b) && |a| > 0
    ensures |b| > 0 && a[0] == b[0]
    ensures multiset(a[1..]) == multiset(b[1..])
  {
    assert a[0] in multiset(a);
    SortedHeadIsMinimum(b, a[0]);
    assert b[0] in multiset(b);
    SortedHeadIsMinimum(a, b[0]);
    HeadTail(a);
    HeadTail(b);
  }

  lemma HeadTailEqual(a: seq<real>, b: seq<real>)
    requires |a| > 0 && |b| > 0 && a[0] == b[0] && a[1..] == b[1..]
    ensures a == b
  {
    assert a == [a[0]] + a[1..];
    assert b == [b[0]] + b[1..];
  }

  lemma HeadTail(s: seq<real>)
    requires |s| > 0
    ensures multiset(s[1..]) == multiset(s) - multiset{s[0]}
  {
    assert s == [s[0]] + s[1..];
  }

  /** The head of an ascending sequence is at most each of its elements. */
  lemma SortedHeadIsMinimum(s: seq<real>, v: real)
    requires Sorted(s) && v in multiset(s)
    ensures |s| > 0 && s[0] <= v
  {
    var j :| 0 <= j < |s| && s[j] == v;
    assert s[0] <= s[j];
  }

  lemma SortedTail(s: seq<real>)
    requires Sorted(s) && |s| > 0
    ensures Sorted(s[1..])
  {
    forall i, j | 0 <= i < j < |s| - 1
      ensures s[1..][i] <= s[1..][j]
    {
      assert s[1..][i] == s[i + 1] && s[1..][j] == s[j + 1];
    }
  }

  /** Sorting a sequence that is already ascending returns it unchanged. */
  lemma SortOfSorted(s: seq<real>)
    requires Sorted(s)
    ensures Sort(s) == s
  {
    SortedPermutationUnique(Sort(s), s);
  }

  /** The number of elements of `s` strictly below `v`. */
  function CountBelow(s: seq<real>, v: real): (n: nat)
    ensures n <= |s|
  {
    if |s| == 0 then 0 else (if s[0] < v then 1 else 0) + CountBelow(s[1..], v)
  }

  /** The number of elements of `s` strictly above `v`. */
  function CountAbove(s: seq<real>, v: real): (n: nat)
    ensures n <= |s|
  {
    if |s| == 0 then 0 else (if s[0] > v then 1 else 0) + CountAbove(s[1..], v)
  }

  lemma {:induction false} CountsOfInsert(x: real, s: seq<real>, v: real)
    requires SortedBy(s, Id)
    ensures CountBelow(Insert(x, s, Id), v) == CountBelow(s, v) + (if x < v then 1 else 0)
    ensures CountAbove(Insert(x, s, Id), v) == CountAbove(s, v) + (if x > v then 1 else 0)
    decreases |s|
  {
    if |s| > 0 && Id(x) > Id(s[0]) {
      var rest := Insert(x, s[1..], Id);
      CountsOfInsert(x, s[1..], v);
      assert Insert(x, s, Id) == [s[0]] + rest;
      assert ([s[0]] + rest)[1..] == rest;
    } else if |s| > 0 {
      assert ([x] + s)[1..] == s;
    }
  }

  /** Sorting does not change how many elements lie below or above a value. */
  lemma {:induction false} CountsOfSort(s: seq<real>, v: real)
    ensures CountBelow(Sort(s), v) == CountBelow(s, v)
    ensures CountAbove(Sort(s), v) == CountAbove(s, v)
    decreases |s|
  {
    if |s| > 0 {
      CountsOfSort(s[1..], v);
      CountsOfInsert(s[0], SortBy(s[1..], Id), v);
    }
  }

  /** In an ascending sequence the element at index `k` has at most `k`
      elements strictly below it and at most `|t| - 1 - k` strictly above. */
  lemma {:induction false} RankOfSorted(t: seq<real>, k: nat)
    requires Sorted(t)
    requires k < |t|
    ensures CountBelow(t, t[k]) <= k
    ensures CountAbove(t, t[k]) <= |t| - 1 - k
    decreases k
  {
    if k == 0 {
      NoneBelowMinimum(t, t[0]);
    } else {
      assert t[1..][k - 1] == t[k];
      RankOfSorted(t[1..], k - 1);
    }
  }

  lemma {:induction false} NoneBelowMinimum(t: seq<real>, v: real)
    requires forall i :: 0 <= i < |t| ==> v <= t[i]
    ensures CountBelow(t, v) == 0
    decreases |t|
  {
    if |t| > 0 {
      NoneBelowMinimum(t[1..], v);
    }
  }

  /** The element at index `k` of the ascending sort of `s` is an element of
      `s` with at most `k` elements of `s` strictly below it and at most
      `|s| - 1 - k` strictly above it: it is the rank-`k` order statistic. */
  lemma OrderStatistic(s: seq<real>, k: nat)
    requires k < |s|
    ensures Sort(s)[k] in multiset(s)
    ensures CountBelow(s, Sort(s)[k]) <= k
    ensures CountAbove(s, Sort(s)[k]) <= |s| - 1 - k
  {
    var t := Sort(s);
    assert t[k] in multiset(t);
    RankOfSorted(t, k);
    CountsOfSort(s, t[k]);
  }

  /** `v` is an element of `values` with at most `k` elements strictly below
      it and at most `|values| - 1 - k` strictly above: the rank-`k` value. */
  ghost predicate RankValue(values: seq<real>, v: real, k: nat) {
    && v in values
    && CountBelow(values, v) <= k
    && k < |values|
    && CountAbove(values, v) <= |values| - 1 - k
  }

  lemma SortedRank(values: seq<real>, k: nat)
    requires k < |values|
    ensures RankValue(values, Sort(values)[k], k)
  {
    OrderStatistic(values, k);
  }

  /** The keys of the elements of `s`, in order. */
  function Keys<T>(s: seq<T>, key: T -> real): (ks: seq<real>)
    ensures |ks| == |s|
  {
    seq(|s|, i requires 0 <= i < |s| => key(s[i]))
  }

  lemma KeysOfSorted<T>(s: seq<T>, key: T -> real)
    requires SortedBy(s, key)
    ensures SortedBy(Keys(s, key), Id)
  {
  }

  lemma KeysCons<T>(h: T, t: seq<T>, key: T -> real)
    ensures Keys([h] + t, key) == [key(h)] + Keys(t, key)
  {
  }

  lemma KeysTail<T>(s: seq<T>, key: T -> real)
    requires |s| > 0
    ensures Keys(s, key)[0] == key(s[0])
    ensures Keys(s, key)[1..] == Keys(s[1..], key)
  {
  }

  /** Inserting by key and then taking keys is inserting the key. */
  lemma {:induction false} InsertKeys<T>(x: T, s: seq<T>, key: T -> real)
    requires SortedBy(s, key)
    ensures SortedBy(Keys(s, key), Id)
    ensures Keys(Insert(x, s, key), key) == Insert(key(x), Keys(s, key), Id)
    decreases |s|
  {
    KeysOfSorted(s, key);
    var ks := Keys(s, key);
    if |s| == 0 {
      assert Insert(x, s, key) == [x];
    } else {
      KeysTail(s, key);
      if key(x) <= key(s[0]) {
        assert Insert(x, s, key) == [x] + s;
        KeysCons(x, s, key);
      } else {
        assert SortedBy(s[1..], key);
        var rest := Insert(x, s[1..], key);
        InsertKeys(x, s[1..], key);
        assert Insert(x, s, key) == [s[0]] + rest;
        KeysCons(s[0], rest, key);
        assert Insert(key(x), ks, Id) == [ks[0]] + Insert(key(x), ks[1..], Id);
      }
    }
  }

  /** The keys of a sort by key are the sorted keys. */
  lemma {:induction false} SortByKeys<T>(s: seq<T>, key: T -> real)
    ensures Keys(SortBy(s, key), key) == Sort(Keys(s, key))
    decreases |s|
  {
    var ks := Keys(s, key);
    if |s| == 0 {
      assert SortBy(s, key) == [];
      assert Sort(ks) == SortBy(ks, Id) == [];
    } else {
      var rest := SortBy(s[1..], key);
      KeysTail(s, key);
      SortByKeys(s[1..], key);
      InsertKeys(s[0], rest, key);
      var sortedTail := SortBy(ks[1..], Id);
      assert Keys(rest, key) == sortedTail;
      assert SortBy(s, key) == Insert(s[0], rest, key);
      assert SortBy(ks, Id) == Insert(ks[0], sortedTail, Id);
    }
  }
}
