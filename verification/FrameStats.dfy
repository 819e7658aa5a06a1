/** The range of a frame for pseudo-colour display: percentiles by selection and by histogram, and their
    smoothing. Percentile positions are computed exactly, and the smoothed bounds are real numbers. */
module FrameStats {
  import opened OrderStatistics
  import opened QuickSelect

  const SAMPLE_STRIDE := 4
  const MAX_VALUE := 65535
  const BIN_SIZE := 256
  const SAMPLES_PER_BIN := 256
  const ALPHA := 0.1
  const MIN_RANGE := 1000.0

  ghost predicate AreValues(s: seq<int>) {
    forall i :: 0 <= i < |s| ==> 0 <= s[i] <= MAX_VALUE
  }

  /** Every fourth value from `i` on. */
  function Samples(input: seq<int>, i: nat): seq<int>
    decreases |input| - i
  {
    if i >= |input| then [] else [input[i]] + Samples(input, i + SAMPLE_STRIDE)
  }

  lemma {:induction false} SamplesAre(input: seq<int>, i: nat)
    requires i <= |input| + 3
    ensures |Samples(input, i)| == (|input| - i + 3) / 4
    ensures forall k :: 0 <= k < |Samples(input, i)| ==> i + 4 * k < |input| && Samples(input, i)[k] == input[i + 4 * k]
    decreases |input| - i
  {
    if i < |input| {
      SamplesAre(input, i + 4);
      var s, t := Samples(input, i), Samples(input, i + 4);
      assert s == [input[i]] + t;
      forall k | 0 <= k < |s|
        ensures i + 4 * k < |input| && s[k] == input[i + 4 * k]
      {
        if k > 0 {
          assert s[k] == t[k - 1];
        }
      }
    }
  }

  /** The first `n` of them. */
  ghost function FirstSamples(input: seq<int>, n: nat): (s: seq<int>)
    requires n <= |input| / 4
    ensures |s| == n && forall i :: 0 <= i < n ==> s[i] == input[i * 4]
  {
    seq(n, i requires 0 <= i < n => input[i * SAMPLE_STRIDE])
  }

  lemma {:induction false} SamplesAreValues(input: seq<int>, i: nat)
    requires AreValues(input)
    ensures AreValues(Samples(input, i))
    decreases |input| - i
  {
    if i < |input| {
      SamplesAreValues(input, i + SAMPLE_STRIDE);
    }
  }

  lemma InSorted(s: seq<int>, k: nat)
    requires k < |s|
    ensures |Sorted(s)| == |s| && Sorted(s)[k] in s
  {
    SortedIsSorted(s);
    assert Sorted(s)[k] in multiset(Sorted(s));
  }

  // ---------- the histogram ----------

  /** The number of samples in a bin. */
  function InBin(s: seq<int>, b: nat): int {
    Below(s, SAMPLES_PER_BIN * (b + 1)) - Below(s, SAMPLES_PER_BIN * b)
  }

  lemma InBinAppend(s: seq<int>, value: int, b: nat)
    requires 0 <= value <= MAX_VALUE && b < BIN_SIZE
    ensures InBin(s + [value], b) == InBin(s, b) + if value / SAMPLES_PER_BIN == b then 1 else 0
  {
    BelowAppend(s, [value], SAMPLES_PER_BIN * (b + 1));
    BelowAppend(s, [value], SAMPLES_PER_BIN * b);
    BelowOne(value, SAMPLES_PER_BIN * (b + 1));
    BelowOne(value, SAMPLES_PER_BIN * b);
  }

  lemma AllBelowTop(s: seq<int>)
    requires AreValues(s)
    ensures Below(s, SAMPLES_PER_BIN * BIN_SIZE) == |s| && Below(s, 0) == 0
  {
    AllBelow(s, SAMPLES_PER_BIN * BIN_SIZE);
    NoneBelow(s, 0);
  }

  /** The smallest of the samples in an interval, or 65535. */
  ghost predicate IsRefinedMin(s: seq<int>, low: int, high: int, r: int) {
    && r <= MAX_VALUE
    && (r != MAX_VALUE ==> low <= r <= high && r in s)
    && (forall i :: 0 <= i < |s| && low <= s[i] <= high ==> r <= s[i])
  }

  /** The largest of the samples in an interval, or 0. */
  ghost predicate IsRefinedMax(s: seq<int>, low: int, high: int, r: int) {
    && 0 <= r
    && (r != 0 ==> low <= r <= high && r in s)
    && (forall i :: 0 <= i < |s| && low <= s[i] <= high ==> s[i] <= r)
  }

  /** If the element at index `k` of the sorted samples lies in bin `b`, the minimum found there is at most that
      element, and at most 255 below it; also when there is nothing but the sentinel. */
  lemma MinIsClose(s: seq<int>, b: nat, r: int, k: nat)
    requires AreValues(s) && b < BIN_SIZE && k < |s|
    requires Below(s, SAMPLES_PER_BIN * b) <= k < Below(s, SAMPLES_PER_BIN * (b + 1))
    requires IsRefinedMin(s, SAMPLES_PER_BIN * b, SAMPLES_PER_BIN * b + SAMPLES_PER_BIN, r)
    ensures |Sorted(s)| == |s|
    ensures var m := if r != MAX_VALUE then r else SAMPLES_PER_BIN * b;
            m <= Sorted(s)[k] <= m + 255
  {
    InSorted(s, k);
    RankIsCount(s, k, SAMPLES_PER_BIN * b);
    RankIsCount(s, k, SAMPLES_PER_BIN * (b + 1));
    var i :| 0 <= i < |s| && s[i] == Sorted(s)[k];
  }

  lemma MaxIsClose(s: seq<int>, b: nat, r: int, k: nat)
    requires AreValues(s) && b < BIN_SIZE && k < |s|
    requires Below(s, SAMPLES_PER_BIN * b) <= k < Below(s, SAMPLES_PER_BIN * (b + 1))
    requires var top := SAMPLES_PER_BIN * (b + 1) - 1;
             IsRefinedMax(s, top - SAMPLES_PER_BIN, top, r)
    ensures |Sorted(s)| == |s|
    ensures var m := if r != 0 then r else SAMPLES_PER_BIN * (b + 1) - 1;
            m - 255 <= Sorted(s)[k] <= m
  {
    InSorted(s, k);
    RankIsCount(s, k, SAMPLES_PER_BIN * b);
    RankIsCount(s, k, SAMPLES_PER_BIN * (b + 1));
    var i :| 0 <= i < |s| && s[i] == Sorted(s)[k];
  }

  /** With the first bin, the minimum found is not above any sample. */
  lemma MinOfFirstBin(s: seq<int>, r: int, k: nat)
    requires AreValues(s) && k < |s| && IsRefinedMin(s, 0, SAMPLES_PER_BIN, r)
    ensures |Sorted(s)| == |s| && (if r != MAX_VALUE then r else 0) <= Sorted(s)[k]
  {
    InSorted(s, k);
    var i :| 0 <= i < |s| && s[i] == Sorted(s)[k];
  }

  /** Against the sorted samples, the minimum is at most the element just below one per cent and within 255 of it,
      the maximum is at least the element at 99 per cent and within 255 of it. With fewer than a hundred samples the
      minimum is at most the smallest one. */
  ghost predicate IsFrameRange(s: seq<int>, minVal: int, maxVal: int) {
    var n := |s|;
    && |Sorted(s)| == n
    && (1 <= n < 100 ==> minVal <= Sorted(s)[0])
    && (n >= 100 ==> minVal <= Sorted(s)[n / 100 - 1] <= minVal + 255)
    && (n >= 1 ==> maxVal - 255 <= Sorted(s)[99 * n / 100] <= maxVal)
    && minVal <= maxVal
  }

  /** The exact lower bound: the least sample from the beginning of the bin of the element just below one per cent to
      the beginning of the next bin, or the beginning of the bin if there is none. With fewer than a hundred samples
      that bin is the first one. */
  ghost predicate IsHistogramMin(s: seq<int>, minVal: int) {
    var n := |s|;
    && |Sorted(s)| == n
    && var low := if n < 100 then 0 else Sorted(s)[n / 100 - 1] / 256 * 256;
       if exists i :: 0 <= i < n && low <= s[i] <= low + 256 && s[i] < 65535 then
         && minVal in s && low <= minVal <= low + 256
         && forall i :: 0 <= i < n && low <= s[i] <= low + 256 ==> minVal <= s[i]
       else minVal == low
  }

  /** The exact upper bound: the greatest sample from the end of the bin before that of the element at 99 per cent to
      the end of its bin, or that end if there is none. */
  ghost predicate IsHistogramMax(s: seq<int>, maxVal: int) {
    var n := |s|;
    && |Sorted(s)| == n
    && var top := if n == 0 then 65535 else Sorted(s)[99 * n / 100] / 256 * 256 + 255;
       if exists i :: 0 <= i < n && top - 256 <= s[i] <= top && 0 < s[i] then
         && maxVal in s && top - 256 <= maxVal <= top
         && forall i :: 0 <= i < n && top - 256 <= s[i] <= top ==> s[i] <= maxVal
       else maxVal == top
  }

  /** The bin that the counts single out is the bin of the element. */
  lemma BinIs(s: seq<int>, b: nat, k: nat)
    requires k < |s| && Below(s, SAMPLES_PER_BIN * b) <= k < Below(s, SAMPLES_PER_BIN * (b + 1))
    ensures |Sorted(s)| == |s| && Sorted(s)[k] / 256 == b
  {
    RankIsCount(s, k, SAMPLES_PER_BIN * b);
    RankIsCount(s, k, SAMPLES_PER_BIN * (b + 1));
  }

  /** A search that starts from a sentinel finds the least sample of the interval below the sentinel, if any. */
  lemma FoundMin(s: seq<int>, b: nat, r: int)
    requires AreValues(s) && IsRefinedMin(s, 256 * b, 256 * b + 256, r)
    requires |s| < 100 ==> b == 0
    requires |s| >= 100 ==> Below(s, 256 * b) < |s| / 100 <= Below(s, 256 * (b + 1))
    ensures IsHistogramMin(s, if r != 65535 then r else 256 * b)
  {
    hide Sorted, Below;
    SortedIsSorted(s);
    if |s| >= 100 {
      BinIs(s, b, |s| / 100 - 1);
    }
  }

  lemma FoundMax(s: seq<int>, b: nat, r: int)
    requires AreValues(s) && IsRefinedMax(s, 256 * b - 1, 256 * b + 255, r)
    requires s == [] ==> b == 255
    requires s != [] ==> Below(s, 256 * b) <= 99 * |s| / 100 < Below(s, 256 * (b + 1))
    ensures IsHistogramMax(s, if r != 0 then r else 256 * b + 255)
  {
    hide Sorted, Below;
    SortedIsSorted(s);
    if s != [] {
      BinIs(s, b, 99 * |s| / 100);
    }
  }

  lemma RangeIsOrdered(s: seq<int>, minVal: int, maxVal: int)
    requires IsFrameRange(s, minVal, maxVal)
    ensures minVal <= maxVal
  {
  }

  class PseudoAdaptiveMapper {
    var smoothedMin: real
    var smoothedMax: real
    var initialized: bool

    constructor ()
      ensures !initialized && smoothedMin == 0.0 && smoothedMax == 65535.0
    {
      smoothedMin, smoothedMax, initialized := 0.0, 65535.0, false;
    }

    // ---------- by selection ----------

    /** CalculateFrameStats: the elements at one and at 99 per cent of the sorted samples. Without any sample, that is
        for fewer than four values, the original reads outside its buffer, and `ok` is false. */
    method CalculateFrameStats(input: array<int>) returns (ok: bool, minVal: int, maxVal: int)
      ensures ok <==> input.Length >= 4
      ensures ok ==> var n := input.Length / 4;
                     var s := FirstSamples(input[..], n);
                     && |Sorted(s)| == n && minVal == Sorted(s)[n / 100] && maxVal == Sorted(s)[99 * n / 100]
                     && minVal <= maxVal
    {
      var sampleSize := input.Length / SAMPLE_STRIDE;
      if sampleSize == 0 {
        return false, 0, 0;
      }
      ok := true;
      var buffer := new int[sampleSize];
      for i := 0 to sampleSize
        invariant forall j :: 0 <= j < i ==> buffer[j] == input[j * SAMPLE_STRIDE]
      {
        buffer[i] := input[i * SAMPLE_STRIDE];
      }
      ghost var s := FirstSamples(input[..], sampleSize);
      assert buffer[..] == s;
      var lowerPos, upperPos := sampleSize / 100, 99 * sampleSize / 100;
      minVal := SelectRank(buffer, lowerPos, false);
      SortedPermuted(s, buffer[..]);
      maxVal := SelectRank(buffer, upperPos, false);
      SortedMonotonic(s, lowerPos, upperPos);
    }

    // ---------- by histogram ----------

    /** Loop 1: the histogram of the samples. */
    method Histogram(input: array<int>) returns (histogram: array<int>, totalSamples: nat)
      requires AreValues(input[..])
      ensures fresh(histogram) && histogram.Length == BIN_SIZE && totalSamples == |Samples(input[..], 0)|
      ensures forall b :: 0 <= b < BIN_SIZE ==> histogram[b] == InBin(Samples(input[..], 0), b)
    {
      histogram := new int[BIN_SIZE](_ => 0);
      totalSamples := 0;
      ghost var done: seq<int> := [];
      var i := 0;
      while i < input.Length
        invariant 0 <= i && Samples(input[..], 0) == done + Samples(input[..], i)
        invariant totalSamples == |done|
        invariant forall b :: 0 <= b < BIN_SIZE ==> histogram[b] == InBin(done, b)
      {
        var value := input[i];
        var bin := value / SAMPLES_PER_BIN;
        if bin > BIN_SIZE - 1 {
          bin := BIN_SIZE - 1;
        }
        forall b | 0 <= b < BIN_SIZE
          ensures InBin(done + [value], b) == InBin(done, b) + if bin == b then 1 else 0
        {
          InBinAppend(done, value, b);
        }
        assert done + Samples(input[..], i) == done + [value] + Samples(input[..], i + SAMPLE_STRIDE);
        histogram[bin] := histogram[bin] + 1;
        totalSamples := totalSamples + 1;
        done := done + [value];
        i := i + SAMPLE_STRIDE;
      }
      assert done + [] == done;
    }

    /** Loop 2: the first bin with which the count reaches the target. */
    method FindMinBin(histogram: array<int>, targetMin: nat, ghost s: seq<int>) returns (minBin: nat)
      requires histogram.Length == BIN_SIZE && AreValues(s) && targetMin <= |s|
      requires forall b :: 0 <= b < BIN_SIZE ==> histogram[b] == InBin(s, b)
      ensures minBin < BIN_SIZE && (targetMin == 0 ==> minBin == 0)
      ensures targetMin <= Below(s, SAMPLES_PER_BIN * (minBin + 1))
      ensures targetMin >= 1 ==> Below(s, SAMPLES_PER_BIN * minBin) < targetMin
    {
      AllBelowTop(s);
      var count := 0;
      minBin := 0;
      var i := 0;
      while i < BIN_SIZE
        invariant 0 <= i <= BIN_SIZE && minBin == 0 && count == Below(s, SAMPLES_PER_BIN * i)
        invariant i > 0 ==> count < targetMin
      {
        count := count + histogram[i];
        if count >= targetMin {
          minBin := i;
          return;
        }
        i := i + 1;
      }
      assert false;
    }

    /** Loop 3: the last bin from which on the count reaches the rest. */
    method FindMaxBin(histogram: array<int>, rest: nat, ghost s: seq<int>) returns (maxBin: nat)
      requires histogram.Length == BIN_SIZE && AreValues(s) && rest <= |s|
      requires forall b :: 0 <= b < BIN_SIZE ==> histogram[b] == InBin(s, b)
      ensures maxBin < BIN_SIZE && (rest == 0 ==> maxBin == BIN_SIZE - 1)
      ensures rest <= |s| - Below(s, SAMPLES_PER_BIN * maxBin)
      ensures rest >= 1 ==> |s| - Below(s, SAMPLES_PER_BIN * (maxBin + 1)) < rest
    {
      AllBelowTop(s);
      var count := 0;
      maxBin := BIN_SIZE - 1;
      var i := BIN_SIZE - 1;
      while i >= 0
        invariant -1 <= i < BIN_SIZE && count == |s| - Below(s, SAMPLES_PER_BIN * (i + 1)) && maxBin == BIN_SIZE - 1
        invariant i < BIN_SIZE - 1 ==> count < rest
      {
        BelowMonotonic(s, SAMPLES_PER_BIN * i, SAMPLES_PER_BIN * (i + 1));
        count := count + histogram[i];
        if count >= rest {
          maxBin := i;
          return;
        }
        i := i - 1;
      }
      assert false;
    }

    /** Loop 4: the smallest and the largest sample near the two bins. */
    method Refine(input: array<int>, minVal: int, maxVal: int) returns (refinedMin: int, refinedMax: int)
      requires AreValues(input[..])
      ensures IsRefinedMin(Samples(input[..], 0), minVal, minVal + SAMPLES_PER_BIN, refinedMin)
      ensures IsRefinedMax(Samples(input[..], 0), maxVal - SAMPLES_PER_BIN, maxVal, refinedMax)
    {
      refinedMin, refinedMax := MAX_VALUE, 0;
      ghost var done: seq<int> := [];
      var i := 0;
      while i < input.Length
        invariant 0 <= i && Samples(input[..], 0) == done + Samples(input[..], i)
        invariant IsRefinedMin(done, minVal, minVal + SAMPLES_PER_BIN, refinedMin)
        invariant IsRefinedMax(done, maxVal - SAMPLES_PER_BIN, maxVal, refinedMax)
      {
        var value := input[i];
        assert done + Samples(input[..], i) == done + [value] + Samples(input[..], i + SAMPLE_STRIDE);
        if value >= minVal && value <= minVal + SAMPLES_PER_BIN {
          refinedMin := if value < refinedMin then value else refinedMin;
        }
        if value >= maxVal - SAMPLES_PER_BIN && value <= maxVal {
          refinedMax := if value > refinedMax then value else refinedMax;
        }
        done := done + [value];
        i := i + SAMPLE_STRIDE;
      }
      assert done + [] == done;
    }

    /** CalculateFrameStats_HIST. */
    method CalculateFrameStatsHist(input: array<int>) returns (minVal: int, maxVal: int)
      requires AreValues(input[..])
      ensures IsFrameRange(Samples(input[..], 0), minVal, maxVal)
      ensures IsHistogramMin(Samples(input[..], 0), minVal) && IsHistogramMax(Samples(input[..], 0), maxVal)
    {
      hide Sorted, Below, Samples, IsRefinedMin, IsRefinedMax, IsHistogramMin, IsHistogramMax, AreValues, InBin;
      ghost var s := Samples(input[..], 0);
      SamplesAreValues(input[..], 0);
      SortedIsSorted(s);
      var histogram, totalSamples := Histogram(input);
      var targetMin, targetMax := totalSamples / 100, 99 * totalSamples / 100;
      var minBin := FindMinBin(histogram, targetMin, s);
      var maxBin := FindMaxBin(histogram, totalSamples - targetMax, s);
      minVal := minBin * SAMPLES_PER_BIN;
      maxVal := (maxBin + 1) * SAMPLES_PER_BIN - 1;
      var refinedMin, refinedMax := Refine(input, minVal, maxVal);
      FoundMin(s, minBin, refinedMin);
      FoundMax(s, maxBin, refinedMax);
      if totalSamples >= 1 {
        MaxIsClose(s, maxBin, refinedMax, targetMax);
        if targetMin >= 1 {
          MinIsClose(s, minBin, refinedMin, targetMin - 1);
          SortedMonotonic(s, targetMin - 1, targetMax);
        } else {
          MinOfFirstBin(s, refinedMin, 0);
          SortedMonotonic(s, 0, targetMax);
        }
      }
      if refinedMin != MAX_VALUE {
        minVal := refinedMin;
      }
      if refinedMax != 0 {
        maxVal := refinedMax;
      }
    }

    // ---------- smoothing ----------

    /** UpdateRange, given the range of the frame. The first one is taken over, and may be empty; a later one moves
        the bounds by a tenth of the way, and if they are then too close they are moved apart about their centre. */
    method UpdateRange(input: array<int>) returns (ghost frameMin: int, ghost frameMax: int)
      requires AreValues(input[..]) && smoothedMin <= smoothedMax
      modifies this
      ensures IsFrameRange(Samples(input[..], 0), frameMin, frameMax)
      ensures IsHistogramMin(Samples(input[..], 0), frameMin) && IsHistogramMax(Samples(input[..], 0), frameMax)
      ensures initialized && smoothedMin <= smoothedMax
      ensures !old(initialized) ==> smoothedMin == frameMin as real && smoothedMax == frameMax as real
      ensures old(initialized) ==>
                var low := old(smoothedMin) + (frameMin as real - old(smoothedMin)) / 10.0;
                var high := old(smoothedMax) + (frameMax as real - old(smoothedMax)) / 10.0;
                && smoothedMin + smoothedMax == low + high
                && smoothedMax - smoothedMin == if high - low < 1000.0 then 1000.0 else high - low
    {
      hide IsFrameRange, IsHistogramMin, IsHistogramMax;
      var low, high := CalculateFrameStatsHist(input);
      frameMin, frameMax := low, high;
      assert low <= high by {
        RangeIsOrdered(Samples(input[..], 0), low, high);
      }
      if !initialized {
        smoothedMin, smoothedMax := low as real, high as real;
        initialized := true;
      } else {
        smoothedMin := (1.0 - ALPHA) * smoothedMin + ALPHA * low as real;
        smoothedMax := (1.0 - ALPHA) * smoothedMax + ALPHA * high as real;
        if smoothedMax - smoothedMin < MIN_RANGE {
          var center := (smoothedMax + smoothedMin) / 2.0;
          smoothedMin := center - MIN_RANGE / 2.0;
          smoothedMax := center + MIN_RANGE / 2.0;
        }
      }
    }
  }
}
