/** Sorting and rank statistics: `sorted`, the 95th percentile and the mean, as `get_stats` and
    `_analyze_behavior` use them.
  */
module Statistics {
  import opened Numbers

  predicate Sorted(s: seq<real>) {
    forall i, j | 0 <= i < j < |s| :: s[i] <= s[j]
  }

  function Insert(x: real, s: seq<real>): (r: seq<real>)
    ensures |r| == |s| + 1
  {
    if s == [] || x <= s[0] then [x] + s else [s[0]] + Insert(x, s[1..])
  }

  /** Python's `sorted`. */
  function Sort(s: seq<real>): (r: seq<real>)
    ensures |r| == |s|
  {
    if s == [] then [] else Insert(s[0], Sort(s[1..]))
  }

  function Sum(s: seq<real>): real {
    if s == [] then 0.0 else s[0] + Sum(s[1..])
  }

  function CountAtMost(s: seq<real>, x: real): nat {
    if s == [] then 0 else CountAtMost(s[1..], x) + (if s[0] <= x then 1 else 0)
  }

  function CountAtLeast(s: seq<real>, x: real): nat {
    if s == [] then 0 else CountAtLeast(s[1..], x) + (if s[0] >= x then 1 else 0)
  }

  lemma {:induction false} InsertMembers(x: real, s: seq<real>, y: real)
    ensures y in Insert(x, s) <==> y == x || y in s
  {
    if s != [] && x > s[0] {
      InsertMembers(x, s[1..], y);
      assert s == [s[0]] + s[1..];
    }
  }

  lemma {:induction false} InsertSorts(x: real, s: seq<real>)
    requires Sorted(s)
    ensures Sorted(Insert(x, s))
  {
    if s != [] && x > s[0] {
      var tail := Insert(x, s[1..]);
      InsertSorts(x, s[1..]);
      forall i | 0 <= i < |tail|
        ensures s[0] <= tail[i]
      {
        InsertMembers(x, s[1..], tail[i]);
      }
    }
  }

  lemma {:induction false} InsertPermutes(x: real, s: seq<real>)
    ensures multiset(Insert(x, s)) == multiset(s) + multiset{x}
  {
    if s != [] && x > s[0] {
      InsertPermutes(x, s[1..]);
      assert s == [s[0]] + s[1..];
    }
  }

  /** The result of sorting is an ordered permutation. */
  lemma {:induction false} SortSorts(s: seq<real>)
    ensures Sorted(Sort(s)) && multiset(Sort(s)) == multiset(s)
  {
    if s != [] {
      SortSorts(s[1..]);
      InsertSorts(s[0], Sort(s[1..]));
      InsertPermutes(s[0], Sort(s[1..]));
      assert s == [s[0]] + s[1..];
    }
  }

  lemma SortMembers(s: seq<real>, x: real)
    ensures x in Sort(s) <==> x in s
  {
    SortSorts(s);
    assert x in multiset(Sort(s)) <==> x in multiset(s);
  }

  lemma {:induction false} InsertCounts(x: real, s: seq<real>, y: real)
    ensures CountAtMost(Insert(x, s), y) == CountAtMost(s, y) + (if x <= y then 1 else 0)
    ensures CountAtLeast(Insert(x, s), y) == CountAtLeast(s, y) + (if x >= y then 1 else 0)
    ensures Sum(Insert(x, s)) == Sum(s) + x
  {
    if s == [] || x <= s[0] {
      assert ([x] + s)[1..] == s;
    } else {
      InsertCounts(x, s[1..], y);
      assert ([s[0]] + Insert(x, s[1..]))[1..] == Insert(x, s[1..]);
    }
  }

  lemma {:induction false} SortCounts(s: seq<real>, y: real)
    ensures CountAtMost(Sort(s), y) == CountAtMost(s, y)
    ensures CountAtLeast(Sort(s), y) == CountAtLeast(s, y)
    ensures Sum(Sort(s)) == Sum(s)
  {
    if s != [] {
      SortCounts(s[1..], y);
      InsertCounts(s[0], Sort(s[1..]), y);
    }
  }

  /** In an ordered sample, the elements up to index `k` are at most its `k`-th, those from there on at least. */
  lemma {:induction false} CountsInSorted(s: seq<real>, k: nat, y: real)
    requires Sorted(s) && k < |s|
    ensures s[k] <= y ==> CountAtMost(s, y) >= k + 1
    ensures s[k] >= y ==> CountAtLeast(s, y) >= |s| - k
  {
    assert s[0] <= s[k];
    if k > 0 {
      CountsInSorted(s[1..], k - 1, y);
    } else if |s| > 1 {
      assert s[1..][0] >= s[0];
      CountsInSorted(s[1..], 0, y);
    }
  }

  lemma {:induction false} SumBounds(s: seq<real>, low: real, high: real)
    requires forall x <- s :: low <= x <= high
    ensures low * |s| as real <= Sum(s) <= high * |s| as real
  {
    if s != [] {
      assert forall x <- s[1..] :: x in s;
      SumBounds(s[1..], low, high);
      assert |s| as real == |s[1..]| as real + 1.0;
      assert low * |s| as real == low * |s[1..]| as real + low;
      assert high * |s| as real == high * |s[1..]| as real + high;
      assert s[0] in s;
    }
  }

  /** The index of the 95th percentile: `min(int(n * 0.95), n - 1)`. */
  function RankIndex(n: nat): (k: nat)
    requires n > 0
    ensures k < n
    ensures 20 * (k + 1) > 19 * n && 20 * (n - k) >= n
  {
    Min(19 * n / 20, n - 1)
  }

  /** More than 95% of the sample are at most `x`, and at least 5% are at least `x`. */
  predicate IsPercentile95(sample: seq<real>, x: real) {
    && x in sample
    && 20 * CountAtMost(sample, x) > 19 * |sample|
    && 20 * CountAtLeast(sample, x) >= |sample|
  }

  lemma PercentileByRank(sample: seq<real>)
    requires sample != []
    ensures IsPercentile95(sample, Sort(sample)[RankIndex(|sample|)])
  {
    var k := RankIndex(|sample|);
    var x := Sort(sample)[k];
    SortSorts(sample);
    SortMembers(sample, x);
    CountsInSorted(Sort(sample), k, x);
    SortCounts(sample, x);
  }

  /** Half of the sample, rounded down, is at most the median reported, and half of it, rounded up, at least. */
  lemma MedianByRank(sample: seq<real>)
    requires sample != []
    ensures var x := Sort(sample)[|sample| / 2];
            && x in sample
            && CountAtMost(sample, x) >= |sample| / 2 + 1
            && CountAtLeast(sample, x) >= |sample| - |sample| / 2
  {
    var k := |sample| / 2;
    SortSorts(sample);
    SortMembers(sample, Sort(sample)[k]);
    CountsInSorted(Sort(sample), k, Sort(sample)[k]);
    SortCounts(sample, Sort(sample)[k]);
  }

  lemma ExtremesOfSorted(sample: seq<real>)
    requires sample != []
    ensures var sorted := Sort(sample);
            && (forall x <- sample :: sorted[0] <= x <= sorted[|sorted| - 1])
            && sorted[0] in sample && sorted[|sorted| - 1] in sample
  {
    hide Sort;
    var sorted := Sort(sample);
    SortSorts(sample);
    SortMembers(sample, sorted[0]);
    SortMembers(sample, sorted[|sorted| - 1]);
    forall x <- sample
      ensures sorted[0] <= x <= sorted[|sorted| - 1]
    {
      SortMembers(sample, x);
      var i :| 0 <= i < |sorted| && sorted[i] == x;
    }
  }

  /** The first and last of the sorted sample are its least and greatest elements, and the mean lies between them. */
  lemma MeanBetween(sample: seq<real>)
    requires sample != []
    ensures var sorted := Sort(sample);
            && (forall x <- sample :: sorted[0] <= x <= sorted[|sorted| - 1])
            && sorted[0] in sample && sorted[|sorted| - 1] in sample
            && sorted[0] <= Sum(sample) / |sample| as real <= sorted[|sorted| - 1]
  {
    hide Sort, Sum;
    var sorted := Sort(sample);
    ExtremesOfSorted(sample);
    SumBounds(sample, sorted[0], sorted[|sorted| - 1]);
    QuotientBetween(sorted[0], Sum(sample), sorted[|sorted| - 1], |sample| as real);
  }

  lemma QuotientBetween(low: real, sum: real, high: real, n: real)
    requires n > 0.0 && low * n <= sum <= high * n
    ensures low <= sum / n <= high
  {
  }

  method AverageOf(sample: seq<real>) returns (average: real)
    requires sample != []
    ensures average == Sum(sample) / |sample| as real
    ensures average * |sample| as real == Sum(sample)
  {
    var sum := 0.0;
    for k := 0 to |sample|
      invariant sum + Sum(sample[k..]) == Sum(sample)
    {
      assert sample[k..][1..] == sample[k + 1..];
      sum := sum + sample[k];
    }
    average := sum / |sample| as real;
  }

  method Percentile95(sample: seq<real>) returns (p95: real)
    requires sample != []
    ensures IsPercentile95(sample, p95)
  {
    hide Sort, IsPercentile95;
    var sortedSample := Sort(sample);
    var idx := 19 * |sortedSample| / 20;
    idx := Min(idx, |sortedSample| - 1);
    p95 := sortedSample[idx];
    PercentileByRank(sample);
  }
}
