/** Timing statistics of captured requests (`_analyze_behavior`); timestamps are seconds. */
module Behavior {
  import opened Options
  import opened Statistics

  datatype GapStats = GapStats(min: real, max: real, mean: real, p50: real, p95: real)

  datatype Rates = Rates(perSecond: real, perMinute: real)

  datatype Report = Report(gaps: Option<GapStats>, rates: Option<Rates>, peakPerMinute: Option<nat>)

  // ---- windows of sixty seconds ----

  predicate InWindow(t: real, start: real) {
    start <= t <= start + 60.0
  }

  /** How many timestamps fall in the closed window that starts at `start`. */
  function CountIn(ts: seq<real>, start: real): nat {
    if ts == [] then 0
    else CountIn(ts[..|ts| - 1], start) + (if InWindow(ts[|ts| - 1], start) then 1 else 0)
  }

  lemma {:induction false} CountRange(ts: seq<real>, start: real, a: nat, b: nat)
    requires a <= b <= |ts|
    requires forall i | 0 <= i < |ts| :: InWindow(ts[i], start) <==> a <= i < b
    ensures CountIn(ts, start) == b - a
  {
    if ts != [] {
      var n := |ts| - 1;
      CountRange(ts[..n], start, if a <= n then a else n, if b <= n then b else n);
    }
  }

  /** In ordered timestamps, those in a window stand next to each other. */
  lemma {:induction false} WindowIsRange(ts: seq<real>, start: real) returns (a: nat, b: nat)
    requires Sorted(ts)
    ensures a <= b <= |ts|
    ensures forall i | 0 <= i < |ts| :: InWindow(ts[i], start) <==> a <= i < b
    ensures forall i | 0 <= i < |ts| :: ts[i] > start + 60.0 <==> i >= b
  {
    a, b := 0, 0;
    if ts != [] {
      var n := |ts| - 1;
      a, b := WindowIsRange(ts[..n], start);
      if ts[n] < start {
        a, b := n + 1, n + 1;
      } else if ts[n] <= start + 60.0 {
        if a == b {
          a := n;
        }
        b := n + 1;
      }
    }
  }

  /** `left` is where the window that ends at `ts[right]` begins. */
  predicate IsLeftEdge(ts: seq<real>, left: nat, right: nat)
    requires right < |ts|
  {
    && left <= right
    && ts[left] >= ts[right] - 60.0
    && forall i | 0 <= i < left :: ts[i] < ts[right] - 60.0
  }

  /** No window holds more than `peak`, and some window holds that many. */
  ghost predicate IsPeak(ts: seq<real>, peak: nat) {
    && (forall start: real :: CountIn(ts, start) <= peak)
    && (exists start: real :: CountIn(ts, start) == peak)
  }

  lemma WindowAtMost(ts: seq<real>, start: real, peak: nat)
    requires Sorted(ts)
    requires forall left: nat, right: nat | right < |ts| && IsLeftEdge(ts, left, right) :: right - left + 1 <= peak
    ensures CountIn(ts, start) <= peak
  {
    var a, b := WindowIsRange(ts, start);
    CountRange(ts, start, a, b);
    if a < b {
      var left := FindLeftEdge(ts, b - 1);
      assert InWindow(ts[a], start) && InWindow(ts[b - 1], start);
      assert left <= a;
    }
  }

  lemma FindLeftEdge(ts: seq<real>, right: nat) returns (left: nat)
    requires right < |ts|
    ensures IsLeftEdge(ts, left, right)
  {
    left := 0;
    while ts[left] < ts[right] - 60.0
      invariant left <= right
      invariant forall i | 0 <= i < left :: ts[i] < ts[right] - 60.0
      decreases right - left
    {
      left := left + 1;
    }
  }

  lemma EdgesArePeak(ts: seq<real>, left: nat, right: nat, peak: nat)
    requires Sorted(ts) && right < |ts| && IsLeftEdge(ts, left, right) && right - left + 1 == peak
    requires forall l: nat, r: nat | r < |ts| && IsLeftEdge(ts, l, r) :: r - l + 1 <= peak
    ensures IsPeak(ts, peak)
  {
    var start := ts[right] - 60.0;
    forall s: real
      ensures CountIn(ts, s) <= peak
    {
      WindowAtMost(ts, s, peak);
    }
    var a, b := WindowIsRange(ts, start);
    CountRange(ts, start, a, b);
    assert InWindow(ts[left], start) && InWindow(ts[right], start);
    assert CountIn(ts, start) == peak;
  }

  lemma EdgeIsUnique(ts: seq<real>, l: nat, m: nat, right: nat)
    requires right < |ts| && IsLeftEdge(ts, l, right) && IsLeftEdge(ts, m, right)
    ensures l == m
  {
  }

  /** The two-pointer scan. For ordered timestamps it finds the largest number of requests in any window of sixty
      seconds; for any timestamps it stays within bounds, and the left pointer moves fewer times than there are any. */
  method PeakPerMinute(timestamps: seq<real>) returns (peak: nat, ghost advances: nat)
    requires timestamps != []
    ensures Sorted(timestamps) ==> IsPeak(timestamps, peak)
    ensures advances < |timestamps|
  {
    peak := 0;
    var left := 0;
    ghost var bestLeft, bestRight := 0, 0;
    for right := 0 to |timestamps|
      invariant 0 <= left && (if right == 0 then left == 0 else left < right)
      invariant right == 0 ==> peak == 0
      invariant Sorted(timestamps) && right > 0 ==>
          && IsLeftEdge(timestamps, left, right - 1)
          && bestRight < right && IsLeftEdge(timestamps, bestLeft, bestRight) && peak == bestRight - bestLeft + 1
      invariant Sorted(timestamps) ==>
          forall l: nat, r: nat | r < right && IsLeftEdge(timestamps, l, r) :: r - l + 1 <= peak
    {
      var windowStart := timestamps[right] - 60.0;
      while timestamps[left] < windowStart
        invariant 0 <= left <= right
        invariant Sorted(timestamps) ==> forall i | 0 <= i < left :: timestamps[i] < windowStart
        decreases right - left
      {
        left := left + 1;
      }
      assert Sorted(timestamps) ==> IsLeftEdge(timestamps, left, right);
      forall l: nat | Sorted(timestamps) && IsLeftEdge(timestamps, l, right)
        ensures l == left
      {
        EdgeIsUnique(timestamps, l, left, right);
      }
      if right - left + 1 > peak {
        peak := right - left + 1;
        bestLeft, bestRight := left, right;
      }
    }
    if Sorted(timestamps) {
      EdgesArePeak(timestamps, bestLeft, bestRight, peak);
    }
    advances := left;
  }

  // ---- gaps ----

  ghost function Gaps(ts: seq<real>): seq<real> {
    if |ts| < 2 then []
    else Gaps(ts[..|ts| - 1]) + (if ts[|ts| - 1] >= ts[|ts| - 2] then [ts[|ts| - 1] - ts[|ts| - 2]] else [])
  }

  lemma {:induction false} SumConcat(a: seq<real>, b: seq<real>)
    ensures Sum(a + b) == Sum(a) + Sum(b)
  {
    if a == [] {
      assert a + b == b;
    } else {
      SumConcat(a[1..], b);
      assert (a + b)[1..] == a[1..] + b;
    }
  }

  /** Ordered timestamps have a gap for each neighbouring pair, and the gaps add up to the session's duration. */
  lemma {:induction false} GapsOfSorted(ts: seq<real>)
    requires ts != [] && Sorted(ts)
    ensures |Gaps(ts)| == |ts| - 1
    ensures Sum(Gaps(ts)) == ts[|ts| - 1] - ts[0]
  {
    if |ts| >= 2 {
      var n := |ts| - 1;
      GapsOfSorted(ts[..n]);
      SumConcat(Gaps(ts[..n]), [ts[n] - ts[n - 1]]);
    }
  }

  /** The time between a request and the next. */
  function Difference(ts: seq<real>, i: nat): real
    requires i + 1 < |ts|
  {
    ts[i + 1] - ts[i]
  }

  /** The gaps are the differences of neighbours, all of them for ordered timestamps and never a negative one. */
  lemma {:induction false} GapsAreDifferences(ts: seq<real>)
    ensures forall g <- Gaps(ts) :: g >= 0.0
    ensures Sorted(ts) ==> forall i | 0 <= i < |Gaps(ts)| :: i + 1 < |ts| && Gaps(ts)[i] == Difference(ts, i)
  {
    if |ts| >= 2 {
      var n := |ts| - 1;
      GapsAreDifferences(ts[..n]);
      if Sorted(ts) {
        GapsOfSorted(ts[..n]);
      }
    }
  }

  method CollectGaps(timestamps: seq<real>) returns (gaps: seq<real>)
    requires |timestamps| >= 2
    ensures gaps == Gaps(timestamps)
  {
    gaps := [];
    for i := 0 to |timestamps| - 1
      invariant gaps == Gaps(timestamps[..i + 1])
    {
      assert timestamps[..i + 2][..i + 1] == timestamps[..i + 1];
      var gap := timestamps[i + 1] - timestamps[i];
      if gap >= 0.0 {
        gaps := gaps + [gap];
      }
    }
    assert timestamps[..|timestamps|] == timestamps;
  }

  /** Minimum, maximum and mean of a sample, and the two percentiles by rank. */
  ghost predicate Describes(g: GapStats, sample: seq<real>) {
    && sample != []
    && g.min in sample && g.max in sample && (forall x <- sample :: g.min <= x <= g.max)
    && g.mean * |sample| as real == Sum(sample) && g.min <= g.mean <= g.max
    && g.p50 in sample
    && CountAtMost(sample, g.p50) >= |sample| / 2 + 1 && CountAtLeast(sample, g.p50) >= |sample| - |sample| / 2
    && IsPercentile95(sample, g.p95)
  }

  method DescribeGaps(gaps: seq<real>) returns (g: GapStats)
    requires gaps != []
    ensures Describes(g, gaps)
  {
    hide Sort, Sum, IsPercentile95, CountAtMost, CountAtLeast;
    var sortedGaps := Sort(gaps);
    var mean := AverageOf(gaps);
    var p95 := Percentile95(gaps);
    MeanBetween(gaps);
    MedianByRank(gaps);
    g := GapStats(sortedGaps[0], sortedGaps[|sortedGaps| - 1], mean, sortedGaps[|sortedGaps| / 2], p95);
  }

  // ---- rates ----

  /** `round(x)`: to the nearest whole number, and to the even one of two that are as near. */
  function RoundHalfEven(x: real): int {
    var f := x.Floor;
    var d := x - f as real;
    if d < 0.5 || (d == 0.5 && f % 2 == 0) then f else f + 1
  }

  function Distance(x: real, k: int): real {
    if x >= k as real then x - k as real else k as real - x
  }

  /** No whole number is nearer to `x` than `k`, and one that is as near is odd beside an even `k`. */
  ghost predicate IsRounded(x: real, k: int) {
    forall j: int :: Beats(x, k, j)
  }

  predicate Beats(x: real, k: int, j: int) {
    && Distance(x, k) <= Distance(x, j)
    && (Distance(x, k) == Distance(x, j) ==> j == k || (k % 2 == 0 && j % 2 == 1))
  }

  lemma RoundsToNearest(x: real)
    ensures IsRounded(x, RoundHalfEven(x))
  {
    forall j: int
      ensures Beats(x, RoundHalfEven(x), j)
    {
      RoundBeats(x, j);
    }
  }

  lemma RoundBeats(x: real, j: int)
    ensures Beats(x, RoundHalfEven(x), j)
  {
  }

  function Fraction(k: int, units: nat): real
    requires units > 0
  {
    k as real / units as real
  }

  /** `r` is `x` rounded to a whole number of `1 / units`. */
  ghost predicate RoundsTo(r: real, x: real, units: nat)
    requires units > 0
  {
    exists k: int :: r == Fraction(k, units) && IsRounded(x * units as real, k)
  }

  method Round(x: real, units: nat) returns (r: real)
    requires units > 0
    ensures RoundsTo(r, x, units)
  {
    var k := RoundHalfEven(x * units as real);
    r := Fraction(k, units);
    RoundsToNearest(x * units as real);
  }

  /** The report on a session of ordered timestamps: nothing for fewer than two; otherwise the gaps described, and for a
      session that takes time its average rates, to hundredths and tenths, and its peak. */
  method AnalyzeBehavior(timestamps: seq<real>) returns (report: Report)
    ensures |timestamps| < 2 ==> report == Report(None, None, None)
    ensures |timestamps| >= 2 ==>
              var duration := timestamps[|timestamps| - 1] - timestamps[0];
              && (report.gaps.Some? <==> Gaps(timestamps) != [])
              && (report.gaps.Some? ==> Describes(report.gaps.value, Gaps(timestamps)))
              && (report.rates.Some? <==> duration > 0.0)
              && (report.rates.Some? ==>
                    && RoundsTo(report.rates.value.perSecond, |timestamps| as real / duration, 100)
                    && RoundsTo(report.rates.value.perMinute, |timestamps| as real / duration * 60.0, 10))
              && (report.peakPerMinute.Some? <==> duration > 0.0)
              && (report.peakPerMinute.Some? && Sorted(timestamps) ==> IsPeak(timestamps, report.peakPerMinute.value))
  {
    hide Describes, IsPeak, Gaps, RoundsTo;
    report := Report(None, None, None);
    if |timestamps| < 2 {
      return;
    }
    var gaps := CollectGaps(timestamps);
    if gaps != [] {
      var g := DescribeGaps(gaps);
      report := report.(gaps := Some(g));
    }
    var duration := timestamps[|timestamps| - 1] - timestamps[0];
    if duration > 0.0 {
      var perSecond := Round(|timestamps| as real / duration, 100);
      var perMinute := Round(|timestamps| as real / duration * 60.0, 10);
      report := report.(rates := Some(Rates(perSecond, perMinute)));
      var peak, _ := PeakPerMinute(timestamps);
      report := report.(peakPerMinute := Some(peak));
    }
  }
}
