/** The power-of-two latency histogram and its percentiles. */
module Latency {

  const BUCKETS: nat := 64
  const INT64_MAX: int := 0x7fff_ffff_ffff_ffff

  function Pow2(n: nat): (r: nat)
    ensures r >= 1
  {
    if n == 0 then 1 else 2 * Pow2(n - 1)
  }

  lemma {:induction false} Pow2Monotone(a: nat, b: nat)
    requires a <= b
    ensures Pow2(a) <= Pow2(b)
    decreases b
  {
    if a < b { Pow2Monotone(a, b - 1); }
  }

  lemma Pow2Of63()
    ensures Pow2(63) == INT64_MAX + 1
  {
    assert Pow2(8) == 0x100;
    assert Pow2(16) == 0x1_0000;
    assert Pow2(24) == 0x100_0000;
    assert Pow2(32) == 0x1_0000_0000;
    assert Pow2(40) == 0x100_0000_0000;
    assert Pow2(48) == 0x1_0000_0000_0000;
    assert Pow2(56) == 0x100_0000_0000_0000;
  }

  /** Index of the highest set bit, which is 63 minus the count of leading zeros. */
  function HighestBit(n: nat): nat
    requires n > 0
  {
    if n == 1 then 0 else 1 + HighestBit(n / 2)
  }

  function BucketOf(ns: nat): int {
    if ns == 0 then 0
    else
      var b := HighestBit(ns);
      if b < BUCKETS then b else BUCKETS - 1
  }

  lemma {:induction false} HighestBitRange(n: nat)
    requires n > 0
    ensures Pow2(HighestBit(n)) <= n < Pow2(HighestBit(n) + 1)
  {
    if n > 1 { HighestBitRange(n / 2); }
  }

  /** Bucket `b` holds exactly the samples from 2^b up to, not including, 2^(b+1). */
  lemma BucketRange(ns: nat)
    requires 0 < ns <= INT64_MAX
    ensures 0 <= BucketOf(ns) <= 62
    ensures Pow2(BucketOf(ns)) <= ns < Pow2(BucketOf(ns) + 1)
  {
    hide Pow2;
    Pow2Of63();
    HighestBitRange(ns);
    if HighestBit(ns) >= 63 { Pow2Monotone(63, HighestBit(ns)); }
  }

  // ---------------------------------------------------------------------------------------------
  // Samples and their statistics

  /** A recorded sample: negative ones are dropped and zero is stored as one before they get here. */
  predicate IsSample(ns: int) { 1 <= ns <= INT64_MAX }

  predicate Samples(samples: seq<int>) {
    forall x :: x in samples ==> IsSample(x)
  }

  /** How many samples lie below `limit`. */
  function CountBelow(samples: seq<int>, limit: int): (n: nat)
    ensures n <= |samples|
  {
    if samples == [] then 0
    else (if samples[0] < limit then 1 else 0) + CountBelow(samples[1..], limit)
  }

  lemma {:induction false} CountBelowMonotone(samples: seq<int>, a: int, b: int)
    requires a <= b
    ensures CountBelow(samples, a) <= CountBelow(samples, b)
  {
    if samples != [] { CountBelowMonotone(samples[1..], a, b); }
  }

  /** `x` is the k-th smallest sample, counting from one. */
  predicate IsKth(samples: seq<int>, k: nat, x: int) {
    x in samples && CountBelow(samples, x) < k <= CountBelow(samples, x + 1)
  }

  lemma {:induction false} CountBelowAll(samples: seq<int>, limit: int)
    requires forall x :: x in samples ==> x < limit
    ensures CountBelow(samples, limit) == |samples|
  {
    if samples != [] {
      assert samples[0] in samples && forall x :: x in samples[1..] ==> x in samples;
      CountBelowAll(samples[1..], limit);
    }
  }

  lemma {:induction false} CountBelowNone(samples: seq<int>, limit: int)
    requires forall x :: x in samples ==> x >= limit
    ensures CountBelow(samples, limit) == 0
  {
    if samples != [] {
      assert samples[0] in samples && forall x :: x in samples[1..] ==> x in samples;
      CountBelowNone(samples[1..], limit);
    }
  }

  lemma {:induction false} CountBelowStep(samples: seq<int>, x: int)
    requires CountBelow(samples, x) < CountBelow(samples, x + 1)
    ensures x in samples
  {
    if samples != [] && samples[0] != x { CountBelowStep(samples[1..], x); }
  }

  /** Every rank has a sample. */
  lemma {:induction false} KthExists(samples: seq<int>, k: nat, lo: int, hi: int) returns (x: int)
    requires lo < hi && CountBelow(samples, lo) < k <= CountBelow(samples, hi)
    ensures IsKth(samples, k, x)
    decreases hi - lo
  {
    if CountBelow(samples, lo + 1) >= k {
      CountBelowStep(samples, lo);
      x := lo;
    } else {
      x := KthExists(samples, k, lo + 1, hi);
    }
  }

  /** Samples in buckets 0..b together. */
  function Cumulative(samples: seq<int>, b: nat): nat { CountBelow(samples, Pow2(b + 1)) }

  /** The first bucket whose cumulative count reaches `k`, from bucket `b` on; 64 if none does. */
  function FirstBucket(samples: seq<int>, k: nat, b: nat): (r: nat)
    requires b <= BUCKETS
    ensures b <= r <= BUCKETS
    ensures r < BUCKETS ==> Cumulative(samples, r) >= k
    ensures forall i :: b <= i < r ==> Cumulative(samples, i) < k
    decreases BUCKETS - b
  {
    if b == BUCKETS || Cumulative(samples, b) >= k then b else FirstBucket(samples, k, b + 1)
  }

  function Rank(total: nat, pct: real): int { (total as real * pct / 100.0).Floor }

  /** What `percentile` returns: the lower bound of the bucket that holds the ranked sample. */
  function PercentileOf(samples: seq<int>, max: int, pct: real): int
    requires pct >= 0.0
  {
    if samples == [] then 0
    else
      RankNonNegative(|samples|, pct);
      var b := FirstBucket(samples, Rank(|samples|, pct), 0);
      if b == BUCKETS then max else Pow2(b)
  }

  lemma RankNonNegative(total: nat, pct: real)
    requires pct >= 0.0
    ensures Rank(total, pct) >= 0
  {
    assert total as real * pct >= 0.0;
  }

  /** `k` is `total` times `pct` percent, rounded down. */
  predicate IsRank(total: nat, pct: real, k: int) {
    100.0 * k as real <= total as real * pct < 100.0 * (k + 1) as real
  }

  lemma RankRoundsDown(total: nat, pct: real)
    ensures IsRank(total, pct, Rank(total, pct))
    ensures forall k {:trigger IsRank(total, pct, k)} :: IsRank(total, pct, k) ==> k == Rank(total, pct)
  {
    var x := total as real * pct;
    assert x / 100.0 * 100.0 == x;
    var n := Rank(total, pct);
    assert n as real <= x / 100.0 < n as real + 1.0;
  }

  lemma RankAtMost(total: nat, pct: real)
    requires pct <= 100.0
    ensures Rank(total, pct) <= total
  {
    assert total as real * pct <= total as real * 100.0;
  }

  /** The percentile is within a factor of two of the true order statistic: for the rank k that is pct
      percent of the samples, rounded down, if it is at least one,
      percentile <= k-th smallest sample < 2 * percentile. */
  lemma PercentileBounds(samples: seq<int>, max: int, pct: real, k: nat, x: int)
    requires Samples(samples) && 0.0 <= pct
    requires k >= 1 && IsRank(|samples|, pct, k) && IsKth(samples, k, x)
    ensures PercentileOf(samples, max, pct) <= x < 2 * PercentileOf(samples, max, pct)
  {
    hide Pow2, FirstBucket, CountBelow, Rank, IsRank;
    RankRoundsDown(|samples|, pct);
    var b := FirstBucket(samples, k, 0);
    BucketFound(samples, k);
    Doubling(b);
    if x < Pow2(b) { CountBelowMonotone(samples, x + 1, Pow2(b)); }
    if x >= Pow2(b + 1) { CountBelowMonotone(samples, Pow2(b + 1), x); }
  }

  /** Without samples the answer is zero, and for a rank above the number of samples, which only a
      percentage of more than 100 has, it is the maximum. */
  lemma PercentileBeyond(samples: seq<int>, max: int, pct: real, k: nat)
    requires Samples(samples) && 0.0 <= pct && IsRank(|samples|, pct, k)
    ensures samples == [] ==> PercentileOf(samples, max, pct) == 0
    ensures samples != [] && k > |samples| ==> PercentileOf(samples, max, pct) == max
    ensures k > |samples| ==> pct > 100.0
  {
    hide Pow2, CountBelow, FirstBucket, Rank;
    RankRoundsDown(|samples|, pct);
    if pct <= 100.0 { RankAtMost(|samples|, pct); }
  }

  lemma Doubling(b: nat)
    ensures Pow2(b + 1) == 2 * Pow2(b)
  {}

  /** For a rank that exists a bucket is found, at most number 62, and fewer than k samples lie below it. */
  lemma BucketFound(samples: seq<int>, k: nat)
    requires Samples(samples) && 1 <= k <= |samples|
    ensures var b := FirstBucket(samples, k, 0);
      b <= 62 && CountBelow(samples, Pow2(b)) < k <= CountBelow(samples, Pow2(b + 1))
  {
    hide Pow2, FirstBucket, CountBelow;
    var b := FirstBucket(samples, k, 0);
    Pow2Of63();
    CountBelowAll(samples, Pow2(63));
    assert Cumulative(samples, 62) >= k;
    if b == 0 {
      assert Pow2(0) == 1 by { PowZero(); }
      CountBelowNone(samples, 1);
    } else {
      assert Cumulative(samples, b - 1) < k;
    }
  }

  lemma PowZero()
    ensures Pow2(0) == 1
  {}

  /** For every percentage up to 100 there is a sample of that rank, so the bounds above apply. */
  lemma RankedSample(samples: seq<int>, pct: real, k: nat) returns (x: int)
    requires Samples(samples) && 0.0 <= pct <= 100.0 && k >= 1 && IsRank(|samples|, pct, k)
    ensures IsKth(samples, k, x)
  {
    RankRoundsDown(|samples|, pct);
    RankAtMost(|samples|, pct);
    CountBelowNone(samples, 1);
    CountBelowAll(samples, INT64_MAX + 1);
    x := KthExists(samples, k, 1, INT64_MAX + 1);
  }

  predicate IsMax(samples: seq<int>, max: int) {
    if samples == [] then max == 0 else max in samples && forall x :: x in samples ==> x <= max
  }

  predicate IsMin(samples: seq<int>, min: int) {
    if samples == [] then min == INT64_MAX else min in samples && forall x :: x in samples ==> min <= x
  }

  /** Up to 100 percent the answer is a positive 64-bit number not above the maximum. */
  lemma PercentileAtMostMax(samples: seq<int>, max: int, pct: real)
    requires Samples(samples) && samples != [] && IsMax(samples, max) && 0.0 <= pct <= 100.0
    ensures 1 <= PercentileOf(samples, max, pct) <= max
  {
    var k := Rank(|samples|, pct);
    RankNonNegative(|samples|, pct);
    RankAtMost(|samples|, pct);
    if k >= 1 {
      RankRoundsDown(|samples|, pct);
      var x := RankedSample(samples, pct, k);
      PercentileBounds(samples, max, pct, k, x);
    } else {
      assert FirstBucket(samples, k, 0) == 0;
    }
  }

  /** The rank is rounded down, so for fewer than 100 / pct samples it is zero and the answer is one
      nanosecond whatever was recorded; from that many samples on the factor-of-two bounds hold. */
  lemma RankZeroAnswersOne(samples: seq<int>, max: int, pct: real)
    requires samples != [] && 0.0 <= pct
    ensures IsRank(|samples|, pct, 0) <==> |samples| as real * pct < 100.0
    ensures IsRank(|samples|, pct, 0) ==> PercentileOf(samples, max, pct) == 1
  {
    RankRoundsDown(|samples|, pct);
    assert |samples| as real * pct >= 0.0;
  }

  /** When the answer is within a factor of two of the ranked sample, the rank taken to be one when it
      rounds down to zero: exactly from 100 / pct samples on, or when that sample is itself one. */
  lemma PercentileExact(samples: seq<int>, max: int, pct: real, k: nat, x: int)
    requires Samples(samples) && samples != [] && 0.0 <= pct && IsRank(|samples|, pct, k)
    requires IsKth(samples, if k == 0 then 1 else k, x)
    ensures PercentileOf(samples, max, pct) <= x < 2 * PercentileOf(samples, max, pct)
       <==> |samples| as real * pct >= 100.0 || x == 1
  {
    hide PercentileOf, CountBelow, Rank, IsRank;
    RankZeroAnswersOne(samples, max, pct);
    RankRoundsDown(|samples|, pct);
    if k >= 1 { PercentileBounds(samples, max, pct, k, x); }
  }

  /** It does fail: the median of one sample of 1000 ns is reported as 1 ns. */
  lemma MedianOfOneSample()
    ensures IsKth([1000], 1, 1000) && PercentileOf([1000], 1000, 50.0) == 1
  {
    assert [1000][1..] == [];
    assert CountBelow([1000], 1000) == 0 && CountBelow([1000], 1001) == 1;
    RankZeroAnswersOne([1000], 1000, 50.0);
  }

  /** A larger percentage never gives a smaller answer. */
  lemma PercentileMonotone(samples: seq<int>, max: int, p: real, q: real)
    requires Samples(samples) && IsMax(samples, max) && 0.0 <= p <= q <= 100.0
    ensures PercentileOf(samples, max, p) <= PercentileOf(samples, max, q)
  {
    hide Pow2, CountBelow, Cumulative;
    if samples != [] {
      var j, k := Rank(|samples|, p), Rank(|samples|, q);
      RankNonNegative(|samples|, p);
      RankAtMost(|samples|, q);
      assert |samples| as real * p <= |samples| as real * q;
      assert j <= k;
      var a, b := FirstBucket(samples, j, 0), FirstBucket(samples, k, 0);
      if k >= 1 { BucketFound(samples, k); } else { assert b == 0; }
      assert Cumulative(samples, b) >= k >= j;
      Pow2Monotone(a, b);
    }
  }

  // ---------------------------------------------------------------------------------------------
  // The tracker

  function Sum(samples: seq<int>): int {
    if samples == [] then 0 else samples[0] + Sum(samples[1..])
  }

  /** How many samples fall into bucket `b`. */
  function InBucket(samples: seq<int>, b: int): nat {
    if samples == [] then 0 else Hit(samples[0], b) + InBucket(samples[1..], b)
  }

  /** One if the sample belongs to bucket `b`. */
  function Hit(x: int, b: int): nat { if x >= 0 && BucketOf(x) == b then 1 else 0 }

  lemma {:induction false} StatisticsAppend(samples: seq<int>, x: int)
    ensures Sum(samples + [x]) == Sum(samples) + x
    ensures forall b :: InBucket(samples + [x], b) == InBucket(samples, b) + Hit(x, b)
  {
    hide Hit;
    if samples != [] {
      assert (samples + [x])[1..] == samples[1..] + [x];
      StatisticsAppend(samples[1..], x);
    }
  }

  /** Buckets are laid out by powers of two, so their running totals count the samples below one. */
  lemma {:induction false} BucketsAccumulate(samples: seq<int>, b: nat)
    requires Samples(samples)
    ensures CountBelow(samples, Pow2(b + 1)) == CountBelow(samples, Pow2(b)) + InBucket(samples, b)
  {
    hide Pow2, BucketOf;
    if samples != [] {
      var x := samples[0];
      assert x in samples && forall y :: y in samples[1..] ==> y in samples;
      BucketsAccumulate(samples[1..], b);
      BucketRange(x);
      if BucketOf(x) < b { Pow2Monotone(BucketOf(x) + 1, b); }
      if BucketOf(x) > b { Pow2Monotone(b + 1, BucketOf(x)); }
      Pow2Monotone(b, b + 1);
    }
  }

  /** The counters are the statistics of the samples. */
  ghost predicate Summarises(samples: seq<int>, buckets: seq<nat>, count: nat, sum: int, max: int, min: int) {
    && Samples(samples) && |buckets| == BUCKETS
    && (forall b :: 0 <= b < BUCKETS ==> buckets[b] == InBucket(samples, b))
    && count == |samples| && sum == Sum(samples)
    && IsMax(samples, max) && IsMin(samples, min)
  }

  function Total(buckets: seq<nat>): nat {
    if buckets == [] then 0 else Total(buckets[..|buckets| - 1]) + buckets[|buckets| - 1]
  }

  lemma {:induction false} TotalPrefix(samples: seq<int>, buckets: seq<nat>, b: nat)
    requires Samples(samples) && b <= |buckets|
    requires forall i :: 0 <= i < |buckets| ==> buckets[i] == InBucket(samples, i)
    ensures Total(buckets[..b]) == CountBelow(samples, Pow2(b))
  {
    hide Pow2, CountBelow, InBucket;
    if b == 0 {
      PowZero();
      CountBelowNone(samples, 1);
    } else {
      TotalPrefix(samples, buckets, b - 1);
      BucketsAccumulate(samples, b - 1);
      assert buckets[..b][..b - 1] == buckets[..b - 1];
    }
  }

  /** No sample falls outside the buckets: they add up to the count. */
  lemma BucketsSumToCount(samples: seq<int>, buckets: seq<nat>, count: nat, sum: int, max: int, min: int)
    requires Summarises(samples, buckets, count, sum, max, min)
    ensures Total(buckets) == count
  {
    hide Pow2, CountBelow, InBucket;
    TotalPrefix(samples, buckets, BUCKETS);
    Pow2Of63();
    Pow2Monotone(63, 64);
    CountBelowAll(samples, Pow2(BUCKETS));
    assert buckets[..BUCKETS] == buckets;
  }

  class LatencyTracker {
    const buckets: array<nat>
    var count: nat
    var sumNs: int
    var maxNs: int
    var minNs: int
    ghost var samples: seq<int>

    ghost predicate Valid()
      reads this, buckets
    {
      Summarises(samples, buckets[..], count, sumNs, maxNs, minNs)
    }

    constructor ()
      ensures Valid() && samples == [] && fresh(buckets)
    {
      buckets := new nat[BUCKETS](_ => 0);
      count, sumNs, maxNs, minNs := 0, 0, 0, INT64_MAX;
      samples := [];
    }

    /** `record` called by one thread at a time. */
    method Record(ns: int)
      requires Valid() && ns <= INT64_MAX
      modifies this, buckets
      ensures Valid()
      ensures ns < 0 ==> samples == old(samples)
      ensures ns == 0 ==> samples == old(samples) + [1]
      ensures ns > 0 ==> samples == old(samples) + [ns]
    {
      hide BucketOf, Sum, InBucket, IsMax, IsMin, Samples;
      if ns < 0 { return; }
      var x := if ns == 0 then 1 else ns;
      BucketRange(x);
      StatisticsAppend(samples, x);
      ExtremesAppend(samples, maxNs, minNs, x);
      var b := BucketOf(x);
      buckets[b] := buckets[b] + 1;
      count := count + 1;
      sumNs := sumNs + x;
      if x > maxNs { maxNs := x; }
      if x < minNs { minNs := x; }
      samples := samples + [x];
    }

    method Reset()
      requires Valid()
      modifies this, buckets
      ensures Valid() && samples == []
    {
      for b := 0 to BUCKETS
        invariant buckets.Length == BUCKETS && forall i :: 0 <= i < b ==> buckets[i] == 0
      {
        buckets[b] := 0;
      }
      count, sumNs, maxNs, minNs := 0, 0, 0, INT64_MAX;
      samples := [];
    }

    /** `percentile`. */
    method Percentile(pct: real) returns (r: int)
      requires Valid() && pct >= 0.0
      ensures r == PercentileOf(samples, maxNs, pct)
    {
      hide Pow2, InBucket, IsMax, IsMin, Sum, CountBelow, FirstBucket, Samples, Rank;
      if count == 0 { return 0; }
      var target := Rank(count, pct);
      RankNonNegative(count, pct);
      var cum := 0;
      NothingBelowOne(samples);
      for b := 0 to BUCKETS
        invariant cum == CountBelow(samples, Pow2(b))
        invariant FirstBucket(samples, target, 0) == FirstBucket(samples, target, b)
      {
        BucketsAccumulate(samples, b);
        FirstBucketStep(samples, target, b);
        cum := cum + buckets[b];
        if cum >= target { return Pow2(b); }
      }
      FirstBucketEnd(samples, target);
      r := maxNs;
    }

    method Count() returns (n: nat)
      requires Valid()
      ensures n == |samples|
    {
      n := count;
    }

    method Max() returns (m: int)
      requires Valid()
      ensures if samples == [] then m == 0 else m in samples && forall x :: x in samples ==> x <= m
    {
      m := maxNs;
    }

    /** `min`: the sentinel reads as zero, which also hides a lone sample of INT64_MAX. */
    method Min() returns (m: int)
      requires Valid()
      ensures samples == [] || (forall x :: x in samples ==> x == INT64_MAX) ==> m == 0
      ensures !(forall x :: x in samples ==> x == INT64_MAX) ==> m in samples && forall x :: x in samples ==> m <= x
    {
      m := if minNs == INT64_MAX then 0 else minNs;
    }
  }

  lemma ExtremesAppend(samples: seq<int>, max: int, min: int, x: int)
    requires Samples(samples) && IsMax(samples, max) && IsMin(samples, min) && IsSample(x)
    ensures Samples(samples + [x])
    ensures IsMax(samples + [x], if x > max then x else max)
    ensures IsMin(samples + [x], if x < min then x else min)
  {
    assert (samples + [x])[|samples|] == x;
    assert forall y :: y in samples ==> y in samples + [x];
  }

  lemma NothingBelowOne(samples: seq<int>)
    requires Samples(samples)
    ensures CountBelow(samples, Pow2(0)) == 0
  {
    CountBelowNone(samples, 1);
  }

  lemma FirstBucketStep(samples: seq<int>, k: nat, b: nat)
    requires b < BUCKETS
    ensures FirstBucket(samples, k, b) == if Cumulative(samples, b) >= k then b else FirstBucket(samples, k, b + 1)
  {}

  lemma FirstBucketEnd(samples: seq<int>, k: nat)
    ensures FirstBucket(samples, k, BUCKETS) == BUCKETS
  {}
}
