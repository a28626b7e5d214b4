/** Sorting the response times of a query and picking its 95th and 99th percentile
    (bubbleSort and calculatePercentiles of ocimtquery.c). */
module Percentiles {

  ghost predicate Sorted(s: seq<int>) {
    forall j, k :: 0 <= j < k < |s| ==> s[j] <= s[k]
  }

  // ------------------------------------------------------------------------
  // Bubble sort
  // ------------------------------------------------------------------------

  /** What the sort looks at: never fewer than two cells, whatever the size it is given. */
  function Extent(asize: nat): nat {
    if asize < 2 then 2 else asize
  }

  /** One comparison: the larger of two neighbours moves up. */
  method CompareAndSwap(larr: array<int>, j: nat) returns (swapped: bool)
    requires j + 1 < larr.Length
    modifies larr
    ensures swapped == (old(larr[j]) > old(larr[j + 1]))
    ensures larr[..] == if swapped then old(larr[..])[j := old(larr[j + 1])][j + 1 := old(larr[j])] else old(larr[..])
    ensures multiset(larr[..]) == multiset(old(larr[..]))
  {
    swapped := larr[j] > larr[j + 1];
    if swapped {
      var tmp := larr[j];
      larr[j] := larr[j + 1];
      larr[j + 1] := tmp;
    }
  }

  /** A pass over the first `top` + 1 cells carries their maximum to cell `top`; without
      any swap they were sorted already. */
  ghost predicate Passed(s: seq<int>, s': seq<int>, top: nat, swap: bool)
    requires top < |s|
  {
    && |s'| == |s| && multiset(s') == multiset(s) && s'[top + 1..] == s[top + 1..]
    && (forall k :: 0 <= k < top ==> s'[k] <= s'[top])
    && (!swap ==> s' == s && Sorted(s'[..top + 1]))
  }

  method Pass(larr: array<int>, top: nat) returns (swap: bool)
    requires 0 < top < larr.Length
    modifies larr
    ensures Passed(old(larr[..]), larr[..], top, swap)
  {
    swap := false;
    var j := 0;
    while j < top
      invariant j <= top
      invariant multiset(larr[..]) == multiset(old(larr[..]))
      invariant larr[top + 1..] == old(larr[top + 1..])
      invariant forall k :: 0 <= k < j ==> larr[k] <= larr[j]
      invariant !swap ==> larr[..] == old(larr[..]) && Sorted(larr[..j + 1])
    {
      var swapped := CompareAndSwap(larr, j);
      swap := swap || swapped;
      j := j + 1;
    }
    assert larr[..][top + 1..] == larr[top + 1..] && old(larr[..])[top + 1..] == old(larr[top + 1..]);
    assert larr[..][..top + 1] == larr[..top + 1];
  }

  lemma FrontPermuted(s: seq<int>, s': seq<int>, k: nat)
    requires multiset(s) == multiset(s') && k <= |s| && k <= |s'| && s[k..] == s'[k..]
    ensures multiset(s[..k]) == multiset(s'[..k])
  {
    assert s == s[..k] + s[k..] && s' == s'[..k] + s'[k..];
    assert multiset(s[..k]) == multiset(s) - multiset(s[k..]);
    assert multiset(s'[..k]) == multiset(s') - multiset(s'[k..]);
  }

  /** Each cell from `from` to n holds at least what the cells in front of it hold. */
  ghost predicate InPlace(s: seq<int>, from: int, n: nat)
    requires n <= |s|
  {
    forall j, k :: 0 <= j < k < n && from <= k ==> s[j] <= s[k]
  }

  /** After i passes over the first n cells of `s0`: the last i of them are in place. */
  ghost predicate Swept(s0: seq<int>, s: seq<int>, i: nat, n: nat)
    requires n <= |s0|
  {
    |s| == |s0| && multiset(s) == multiset(s0) && s[n..] == s0[n..] && InPlace(s, n - i, n)
  }

  /** What a permutation of the first cells puts into one of them was in one of them. */
  lemma PermutedFrom(s: seq<int>, s': seq<int>, top: nat, j: nat) returns (i: nat)
    requires top < |s| == |s'| && multiset(s[..top + 1]) == multiset(s'[..top + 1]) && j <= top
    ensures i <= top && s[i] == s'[j]
  {
    assert s'[..top + 1][j] in multiset(s[..top + 1]);
    i :| 0 <= i <= top && s[..top + 1][i] == s'[j];
  }

  /** A pass puts the maximum of the cells that are left in place. */
  lemma PassPlaces(s: seq<int>, s': seq<int>, top: nat, n: nat, swap: bool)
    requires top < n <= |s| && InPlace(s, top + 1, n) && Passed(s, s', top, swap)
    ensures InPlace(s', top, n)
  {
    FrontPermuted(s, s', top + 1);
    forall k | top < k < n ensures s'[k] == s[k] {
      assert s'[top + 1..][k - top - 1] == s[top + 1..][k - top - 1];
    }
    forall j, k | 0 <= j < k < n && top <= k ensures s'[j] <= s'[k] {
      if j <= top < k {
        var i := PermutedFrom(s, s', top, j);
      }
    }
  }

  lemma PassExtends(s0: seq<int>, s: seq<int>, s': seq<int>, i: nat, n: nat, swap: bool)
    requires i + 1 < n <= |s0| && Swept(s0, s, i, n)
    requires Passed(s, s', n - i - 1, swap)
    ensures Swept(s0, s', i + 1, n)
    ensures !swap ==> Sorted(s'[..n - i - 1])
  {
    var top := n - i - 1;
    PassPlaces(s, s', top, n, swap);
    assert s'[n..] == s'[top + 1..][n - top - 1..] == s[top + 1..][n - top - 1..] == s[n..];
    assert s'[..top] == s'[..top + 1][..top];
  }

  /** The first n cells of s' are those of s in order; the others are as before. */
  ghost predicate SortsFront(s: seq<int>, s': seq<int>, n: nat) {
    n <= |s| == |s'| && Sorted(s'[..n]) && multiset(s'[..n]) == multiset(s[..n]) && s'[n..] == s[n..]
  }

  /** Nothing left to compare: one cell, or a last pass without a swap. */
  lemma SweptIsSorted(s0: seq<int>, s: seq<int>, i: nat, n: nat)
    requires i <= n <= |s0| && Swept(s0, s, i, n)
    requires n - i <= 1 || Sorted(s[..n - i])
    ensures SortsFront(s0, s, n)
  {
    var k := n - i;
    forall a, b | 0 <= a < b < n ensures s[a] <= s[b] {
      if b < k {
        assert s[..k][a] <= s[..k][b];
      }
    }
    FrontPermuted(s0, s, n);
  }

  /** The passes shrink from the top and stop early when one of them swaps nothing. */
  method BubbleSort(larr: array<int>, asize: nat)
    requires larr.Length >= 2 && asize <= larr.Length
    modifies larr
    ensures SortsFront(old(larr[..]), larr[..], Extent(asize))
  {
    ghost var n, s0 := Extent(asize), larr[..];
    var i, swap := 0, true;
    while i == 0 || (swap && i + 1 < asize)
      invariant i <= n - 1
      invariant Swept(s0, larr[..], i, n)
      invariant !swap ==> Sorted(larr[..][..n - i])
      decreases n - i
    {
      ghost var s := larr[..];
      swap := Pass(larr, if asize < 2 then 1 else asize - i - 1);
      PassExtends(s0, s, larr[..], i, n, swap);
      i := i + 1;
    }
    SweptIsSorted(s0, larr[..], i, n);
  }

  // ------------------------------------------------------------------------
  // Nearest-rank percentiles
  // ------------------------------------------------------------------------

  function CountLe(s: seq<int>, v: int): nat {
    if s == [] then 0 else CountLe(s[..|s| - 1], v) + if s[|s| - 1] <= v then 1 else 0
  }

  /** v is the least recorded value that at least p percent of the samples do not exceed. */
  ghost predicate IsPercentile(samples: seq<int>, p: nat, v: int) {
    && v in samples
    && 100 * CountLe(samples, v) >= p * |samples|
    && forall w :: w in samples && w < v ==> 100 * CountLe(samples, w) < p * |samples|
  }

  /** The index the program reads; C division truncates towards zero. */
  function RankIndex(p: nat, n: nat): nat {
    if p * n == 0 then 0 else (p * n - 1) / 100
  }

  lemma {:induction false} CountLeConcat(a: seq<int>, b: seq<int>, v: int)
    ensures CountLe(a + b, v) == CountLe(a, v) + CountLe(b, v)
  {
    if b == [] {
      assert a + b == a;
    } else {
      assert (a + b)[..|a + b| - 1] == a + b[..|b| - 1];
      CountLeConcat(a, b[..|b| - 1], v);
    }
  }

  lemma {:induction false} CountLePermuted(a: seq<int>, b: seq<int>, v: int)
    requires multiset(a) == multiset(b)
    ensures CountLe(a, v) == CountLe(b, v)
  {
    if a == [] {
      assert |multiset(b)| == 0;
      assert b == [];
    } else {
      var front, x := a[..|a| - 1], a[|a| - 1];
      assert a == front + [x];
      assert x in multiset(b);
      var i :| 0 <= i < |b| && b[i] == x;
      var rest := b[..i] + b[i + 1..];
      assert b == b[..i] + [x] + b[i + 1..];
      assert multiset(front) == multiset(a) - multiset{x};
      assert multiset(rest) == multiset(b) - multiset{x};
      CountLePermuted(front, rest, v);
      CountLeConcat(b[..i], b[i + 1..], v);
      CountLeConcat(b[..i] + [x], b[i + 1..], v);
      CountLeConcat(b[..i], [x], v);
    }
  }

  lemma {:induction false} CountLeSorted(s: seq<int>, k: nat, w: int)
    requires Sorted(s) && k < |s|
    ensures CountLe(s, s[k]) >= k + 1
    ensures w < s[k] ==> CountLe(s, w) <= k
  {
    var front := s[..|s| - 1];
    if k < |front| {
      CountLeSorted(front, k, w);
    } else if front != [] {
      CountLeSorted(front, |front| - 1, w);
      CountLeBounds(front, s[k]);
      CountLeBounds(front, w);
    }
  }

  /** All of the samples, or at most all of them. */
  lemma {:induction false} CountLeBounds(s: seq<int>, v: int)
    ensures CountLe(s, v) <= |s|
    ensures (forall i :: 0 <= i < |s| ==> s[i] <= v) ==> CountLe(s, v) == |s|
  {
    if s != [] {
      CountLeBounds(s[..|s| - 1], v);
    }
  }

  lemma SortedPercentile(s: seq<int>, p: nat)
    requires Sorted(s) && s != [] && 0 < p <= 100
    ensures RankIndex(p, |s|) < |s| && IsPercentile(s, p, s[RankIndex(p, |s|)])
  {
    var n := |s|;
    assert 0 < p * n <= 100 * n by {
      assert (100 - p) * n == 100 * n - p * n;
    }
    var k := RankIndex(p, n);
    forall w | w in s && w < s[k] ensures 100 * CountLe(s, w) < p * n {
      CountLeSorted(s, k, w);
    }
    CountLeSorted(s, k, s[k]);
  }

  /** The percentile depends on nothing but the collection of samples. */
  lemma PercentilePermuted(a: seq<int>, b: seq<int>, p: nat, v: int)
    requires multiset(a) == multiset(b)
    ensures IsPercentile(a, p, v) <==> IsPercentile(b, p, v)
  {
    assert |a| == |multiset(a)| == |b|;
    forall w ensures CountLe(a, w) == CountLe(b, w) && (w in a <==> w in b) {
      CountLePermuted(a, b, w);
      assert w in a <==> w in multiset(a);
      assert w in b <==> w in multiset(b);
    }
  }

  lemma PercentileUnique(samples: seq<int>, p: nat, v: int, w: int)
    requires IsPercentile(samples, p, v) && IsPercentile(samples, p, w)
    ensures v == w
  {
    assert v in samples && w in samples;
  }

  lemma PercentilesOrdered(samples: seq<int>, p: nat, q: nat, v: int, w: int)
    requires p <= q && IsPercentile(samples, p, v) && IsPercentile(samples, q, w)
    ensures v <= w
  {
    assert (q - p) * |samples| == q * |samples| - p * |samples|;
  }

  /** What one thread recorded for a query. */
  datatype History = History(execs: nat, latency: seq<int>) {
    ghost predicate Valid() {
      execs <= |latency|
    }
  }

  /** The samples of all threads, in thread order. */
  ghost function Samples(threads: seq<History>): seq<int>
    requires forall t :: 0 <= t < |threads| ==> threads[t].Valid()
  {
    if threads == [] then []
    else
      var h := threads[|threads| - 1];
      assert h.Valid();
      Samples(threads[..|threads| - 1]) + h.latency[..h.execs]
  }

  /** calculatePercentiles: copies the samples into the work array (which keeps whatever a previous
      query left in it), sorts, and reads two ranks.  With at least two samples both results are the
      percentiles of the samples; with a single one the sort compares it with a leftover cell. `outside`
      reports that there is no such cell: then the program reads behind the end of the array. */
  method CalculatePercentiles(threads: seq<History>, larr: array<int>) returns (p95: int, p99: int, outside: bool)
    requires forall t :: 0 <= t < |threads| ==> threads[t].Valid()
    requires |Samples(threads)| <= larr.Length
    modifies larr
    ensures outside <==> larr.Length < 2
    ensures !outside ==>
              var s := Samples(threads);
              && (|s| >= 2 ==> IsPercentile(s, 95, p95) && IsPercentile(s, 99, p99) && p95 <= p99)
              && (|s| == 1 ==> p95 == p99 == if s[0] <= old(larr[1]) then s[0] else old(larr[1]))
  {
    p95, p99, outside := 0, 0, larr.Length < 2;
    ghost var s, leftover := Samples(threads), if outside then 0 else larr[1];
    var i := Gather(threads, larr);
    if outside {
      return;
    }
    ghost var filled := larr[..];
    assert filled[..i] == s;
    BubbleSort(larr, i);
    ghost var sorted := larr[..][..Extent(i)];
    p95 := larr[RankIndex(95, i)];
    p99 := larr[RankIndex(99, i)];
    if i >= 2 {
      PercentilesOfSorted(s, sorted);
    } else if i == 1 {
      assert filled[..2] == [s[0], leftover];
      PairSorted(s[0], leftover, sorted);
    }
  }

  lemma PercentilesOfSorted(s: seq<int>, sorted: seq<int>)
    requires Sorted(sorted) && multiset(sorted) == multiset(s) && s != []
    ensures |s| == |sorted| && RankIndex(95, |s|) < |s| && RankIndex(99, |s|) < |s|
    ensures IsPercentile(s, 95, sorted[RankIndex(95, |s|)]) && IsPercentile(s, 99, sorted[RankIndex(99, |s|)])
    ensures sorted[RankIndex(95, |s|)] <= sorted[RankIndex(99, |s|)]
  {
    assert |s| == |multiset(s)| == |sorted|;
    SortedPercentile(sorted, 95);
    SortedPercentile(sorted, 99);
    PercentilePermuted(sorted, s, 95, sorted[RankIndex(95, |s|)]);
    PercentilePermuted(sorted, s, 99, sorted[RankIndex(99, |s|)]);
  }

  lemma PairSorted(x: int, y: int, sorted: seq<int>)
    requires Sorted(sorted) && multiset(sorted) == multiset([x, y])
    ensures |sorted| == 2 && sorted[0] == if x <= y then x else y
  {
    assert |sorted| == |multiset([x, y])| == 2;
    assert sorted == [sorted[0], sorted[1]];
    assert sorted[0] in multiset([x, y]) && x in multiset(sorted) && y in multiset(sorted);
  }

  /** What the program reports for a single sample x when the next cell holds y is a
      percentile of the sample exactly if y is not smaller. */
  lemma SingleSampleIff(x: int, y: int, p: nat)
    requires 0 < p <= 100
    ensures IsPercentile([x], p, if x <= y then x else y) <==> x <= y
  {
    assert CountLe([x], x) == CountLe([], x) + 1 by {
      assert [x][..0] == [];
    }
  }

  /** The loops that collect the samples of all threads. */
  method Gather(threads: seq<History>, larr: array<int>) returns (i: nat)
    requires forall t :: 0 <= t < |threads| ==> threads[t].Valid()
    requires |Samples(threads)| <= larr.Length
    modifies larr
    ensures i == |Samples(threads)| && larr[..i] == Samples(threads) && larr[i..] == old(larr[i..])
  {
    i := 0;
    for t := 0 to |threads|
      invariant i == |Samples(threads[..t])| && i <= larr.Length
      invariant larr[..i] == Samples(threads[..t]) && larr[i..] == old(larr[i..])
    {
      ghost var before, h := i, threads[t];
      SamplesGrow(threads, t);
      for l := 0 to threads[t].execs
        invariant i == before + l && i <= larr.Length
        invariant larr[..i] == Samples(threads[..t]) + h.latency[..l] && larr[i..] == old(larr[i..])
      {
        ghost var was := larr[..];
        larr[i] := threads[t].latency[l];
        assert larr[..i] == was[..i];
        i := i + 1;
        assert larr[..i] == was[..i - 1] + [h.latency[l]];
        assert larr[i..] == was[i - 1..][1..];
      }
    }
    assert threads[..|threads|] == threads;
  }

  lemma {:induction false} SamplesGrow(threads: seq<History>, t: nat)
    requires forall u :: 0 <= u < |threads| ==> threads[u].Valid()
    requires t < |threads|
    ensures Samples(threads[..t + 1]) == Samples(threads[..t]) + threads[t].latency[..threads[t].execs]
    ensures |Samples(threads[..t + 1])| <= |Samples(threads)|
    decreases |threads|
  {
    assert threads[..t + 1][..t] == threads[..t];
    if t + 1 == |threads| {
      assert threads[..t + 1] == threads;
    } else {
      var front := threads[..|threads| - 1];
      SamplesGrow(front, t);
      assert front[..t + 1] == threads[..t + 1] && front[..t] == threads[..t];
    }
  }
}
