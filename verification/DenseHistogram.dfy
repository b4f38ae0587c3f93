/** The histogram with one counter per bucket (forked-libs/histogram/src/standard.rs). */
module DenseHistogram {
  import opened Machine
  import opened HistogramConfig
  import opened KeyedCounts

  datatype Bucket = Bucket(count: nat, start: nat, end: int)

  /** The bucket a value below `2^n` is counted in. */
  function IndexOf(c: Config, value: u64): (i: nat)
    requires Fits(c) && value < Pow2(c.maxValuePower)
    ensures i < Total(c) && ValueToIndex(c, value) == Ok(i)
  {
    IndexInBoundsIff(c, value);
    ValueToIndex(c, value).value
  }

  function IndicesOf(c: Config, values: seq<u64>): (keys: seq<nat>)
    requires Fits(c) && forall i :: 0 <= i < |values| ==> values[i] < Pow2(c.maxValuePower)
    ensures |keys| == |values|
    ensures forall i :: 0 <= i < |values| ==> keys[i] == IndexOf(c, values[i])
  {
    seq(|values|, i requires 0 <= i < |values| => IndexOf(c, values[i]))
  }

  /** The coarse bucket that takes over the counter of the fine bucket `i`. */
  function ImageOf(fine: Config, coarse: Config, i: nat): (j: nat)
    requires Coarsens(fine, coarse) && i < Total(fine)
    ensures j < Total(coarse)
    ensures LowerBound(fine, i) <= U64_MAX && ValueToIndex(coarse, LowerBound(fine, i)) == Ok(j)
  {
    IndexOfLowerBound(fine, i);
    IndexOf(coarse, LowerBound(fine, i))
  }

  function ImagesOf(fine: Config, coarse: Config): (image: seq<nat>)
    requires Coarsens(fine, coarse)
    ensures |image| == Total(fine)
    ensures forall i :: 0 <= i < Total(fine) ==> image[i] == ImageOf(fine, coarse, i)
  {
    seq(Total(fine), i requires 0 <= i < Total(fine) => ImageOf(fine, coarse, i))
  }

  function Bumped(b: seq<u64>, i: nat, count: u64): seq<u64>
    requires i < |b|
  {
    b[i := Wrap(b[i] + count)]
  }

  /** The counters after a run of `add` calls. */
  function AddAll(c: Config, b: seq<u64>, values: seq<u64>, counts: seq<u64>): (r: seq<u64>)
    requires Fits(c) && |b| == Total(c) && |values| == |counts|
    requires forall i :: 0 <= i < |values| ==> values[i] < Pow2(c.maxValuePower)
    ensures |r| == |b|
  {
    if |values| == 0 then b
    else
      var n := |values| - 1;
      Bumped(AddAll(c, b, values[..n], counts[..n]), IndexOf(c, values[n]), counts[n])
  }

  /** What the counters should be: for each bucket, the counts of the values that fall in it. */
  function Recorded(c: Config, values: seq<u64>, counts: seq<u64>): seq<u64>
    requires Fits(c) && |values| == |counts|
    requires forall i :: 0 <= i < |values| ==> values[i] < Pow2(c.maxValuePower)
  {
    seq(Total(c), j requires 0 <= j < Total(c) => Wrap(Tally(IndicesOf(c, values), counts, j)))
  }

  /** What `downsample` should give: for each coarse bucket, the sum of the fine buckets it covers. */
  function Downsampled(fine: Config, coarse: Config, b: seq<u64>): seq<u64>
    requires Coarsens(fine, coarse) && |b| == Total(fine)
  {
    seq(Total(coarse), j requires 0 <= j < Total(coarse) => Wrap(Tally(ImagesOf(fine, coarse), b, j)))
  }

  function PrefixSum(b: seq<nat>, n: nat): nat
    requires n <= |b|
  {
    if n == 0 then 0 else PrefixSum(b, n - 1) + b[n - 1]
  }

  /** `i` is the first bucket whose cumulative count reaches the threshold `t`. */
  ghost predicate FirstReaching(b: seq<nat>, t: nat, i: nat) {
    && i < |b|
    && PrefixSum(b, i + 1) >= t
    && forall k :: 0 < k <= i ==> PrefixSum(b, k) < t
  }

  predicate Ascending(t: seq<nat>) {
    forall i, j :: 0 <= i < j < |t| ==> t[i] <= t[j]
  }

  /** `r` is bucket `i`: its counter, and exactly the values that are counted there; the last one ends at `max`. */
  ghost predicate IsBucket(c: Config, b: seq<nat>, i: nat, r: Bucket)
    requires Fits(c)
  {
    && i < |b| && r.count == b[i] && r.start <= r.end && (i + 1 == |b| ==> r.end == c.max)
    && forall v: u64 :: v < Pow2(c.maxValuePower) ==> (r.start <= v <= r.end <==> ValueToIndex(c, v) == Ok(i))
  }

  lemma BucketBounds(c: Config, b: seq<nat>, i: nat)
    requires Fits(c) && i < |b| == Total(c)
    ensures IsBucket(c, b, i, Bucket(b[i], LowerBound(c, i), UpperBound(c, i)))
  {
    hide Fits, Pow2, ValueToIndex, LowerBound, UpperBound, Total;
    BucketsConsecutive(c, i);
    LowerBoundEnds(c);
    forall v: u64 | v < Pow2(c.maxValuePower)
      ensures LowerBound(c, i) <= v <= UpperBound(c, i) <==> ValueToIndex(c, v) == Ok(i)
    {
      IndexInBoundsIff(c, v);
      if LowerBound(c, i) <= v <= UpperBound(c, i) { IndexUnique(c, v, i); }
    }
  }

  /** The answer to a list of thresholds: the bucket that reaches each, as long as the total does. */
  ghost predicate Answers(c: Config, b: seq<nat>, thresholds: seq<nat>, at: seq<nat>, result: seq<Bucket>)
    requires Fits(c)
  {
    && |result| == |at| <= |thresholds|
    && (forall i :: 0 <= i < |at| ==> FirstReaching(b, thresholds[i], at[i]) && IsBucket(c, b, at[i], result[i]))
    && forall i :: |at| <= i < |thresholds| ==> thresholds[i] > PrefixSum(b, |b|)
  }

  /** Every counter of `h` is the wrapped tally of its index. */
  ghost predicate IsTally(h: seq<u64>, keys: seq<nat>, counts: seq<nat>)
    requires |keys| == |counts|
  {
    forall j :: 0 <= j < |h| ==> h[j] == Wrap(Tally(keys, counts, j))
  }

  class Histogram {
    const config: Config
    const buckets: array<u64>

    ghost predicate Valid()
      reads this
    {
      Fits(config) && buckets.Length == Total(config)
    }

    constructor (c: Config)
      requires Fits(c)
      ensures Valid() && config == c && fresh(buckets)
      ensures buckets[..] == seq(Total(c), _ => 0)
    {
      config := c;
      buckets := new u64[Total(c)](_ => 0);
    }

    /** Succeeds exactly below `2^n`; `2^n` itself passes the range check and misses the array. */
    method Add(value: u64, count: u64) returns (r: Outcome<()>)
      requires Valid()
      modifies buckets
      ensures r.Ok? <==> value < Pow2(config.maxValuePower)
      ensures r.Panic? <==> value == Pow2(config.maxValuePower)
      ensures r.Err? ==> r.error == OutOfRange
      ensures r.Ok? ==> buckets[..] == Bumped(old(buckets[..]), IndexOf(config, value), count)
      ensures !r.Ok? ==> buckets[..] == old(buckets[..])
    {
      hide Fits, Pow2, ValueToIndex, Total;
      IndexInBoundsIff(config, value);
      if value <= Pow2(config.maxValuePower) {
        IndexBrackets(config, value);
      }
      var index := ValueToIndex(config, value);
      if index.Err? { return Err(index.error); }
      if index.value >= buckets.Length { return Panic; }
      buckets[index.value] := Wrap(buckets[index.value] + count);
      return Ok(());
    }

    method Downsample(groupingPower: nat) returns (r: Outcome<Histogram>)
      requires Valid()
      ensures r.Ok? <==> groupingPower < config.groupingPower
      ensures r.Ok? || r == Err(MaxPowerTooLow)
      ensures r.Ok? ==>
                && fresh(r.value) && fresh(r.value.buckets) && r.value.Valid()
                && r.value.config.groupingPower == groupingPower && Coarsens(config, r.value.config)
                && r.value.buckets[..] == Downsampled(config, r.value.config, buckets[..])
    {
      hide Fits, Pow2, ValueToIndex, Total, New, LowerBound, Tally;
      if groupingPower >= config.groupingPower { return Err(MaxPowerTooLow); }
      CoarserFits(config, groupingPower);
      var coarse := New(groupingPower, config.maxValuePower).value;
      var histogram := new Histogram(coarse);
      ghost var image := ImagesOf(config, coarse);
      ghost var b := buckets[..];
      TallyStart(histogram.buckets[..]);
      assert image[..0] == [] && b[..0] == [];
      for i := 0 to buckets.Length
        invariant IsTally(histogram.buckets[..], image[..i], b[..i])
        invariant buckets[..] == b
      {
        TallyNext(histogram.buckets[..], image, b, i);
        if buckets[i] != 0 {
          var val := LowerBound(config, i);
          IndexOfLowerBound(config, i);
          var added := histogram.Add(val, buckets[i]);
        }
      }
      assert image[..buckets.Length] == image && b[..buckets.Length] == b;
      return Ok(histogram);
    }

    method CheckedAdd(other: Histogram) returns (r: Outcome<Histogram>)
      requires Valid() && other.Valid()
      ensures config != other.config <==> r == Err(IncompatibleParameters)
      ensures r.Ok? <==> config == other.config
                         && forall i :: 0 <= i < buckets.Length ==> buckets[i] + other.buckets[i] <= U64_MAX
      ensures r.Ok? ==> r.value.Valid() && r.value.config == config && fresh(r.value.buckets)
                        && forall i :: 0 <= i < buckets.Length ==> r.value.buckets[i] == buckets[i] + other.buckets[i]
      ensures !r.Panic? && (r.Err? && config == other.config ==> r.error == Overflow)
    {
      hide Fits, Total;
      if config != other.config { return Err(IncompatibleParameters); }
      var result := new Histogram(config);
      for i := 0 to buckets.Length
        invariant forall k :: 0 <= k < i ==> result.buckets[k] == buckets[k] as int + other.buckets[k]
      {
        if buckets[i] + other.buckets[i] > U64_MAX { return Err(Overflow); }
        result.buckets[i] := buckets[i] + other.buckets[i];
      }
      return Ok(result);
    }

    method CheckedSub(other: Histogram) returns (r: Outcome<Histogram>)
      requires Valid() && other.Valid()
      ensures config != other.config <==> r == Err(IncompatibleParameters)
      ensures r.Ok? <==> config == other.config
                         && forall i :: 0 <= i < buckets.Length ==> other.buckets[i] <= buckets[i]
      ensures r.Ok? ==> r.value.Valid() && r.value.config == config && fresh(r.value.buckets)
                        && forall i :: 0 <= i < buckets.Length ==> r.value.buckets[i] == buckets[i] - other.buckets[i]
      ensures !r.Panic? && (r.Err? && config == other.config ==> r.error == Overflow)
    {
      hide Fits, Total;
      if config != other.config { return Err(IncompatibleParameters); }
      var result := new Histogram(config);
      for i := 0 to buckets.Length
        invariant forall k :: 0 <= k < i ==> other.buckets[k] <= buckets[k]
        invariant forall k :: 0 <= k < i ==> result.buckets[k] == buckets[k] - other.buckets[k]
      {
        if other.buckets[i] > buckets[i] { return Err(Overflow); }
        result.buckets[i] := buckets[i] - other.buckets[i];
      }
      return Ok(result);
    }

    method TotalCount() returns (total: nat)
      requires Valid()
      ensures total == PrefixSum(buckets[..], buckets.Length)
    {
      total := 0;
      for i := 0 to buckets.Length
        invariant total == PrefixSum(buckets[..], i)
      {
        total := total + buckets[i];
      }
    }

    /** Moves on to the first bucket whose cumulative count reaches the threshold, or to the last one. */
    method ScanTo(start: nat, sum: nat, threshold: nat) returns (idx: nat, partialSum: nat)
      requires Valid() && start < buckets.Length && sum == PrefixSum(buckets[..], start + 1)
      requires forall k :: 0 < k <= start ==> PrefixSum(buckets[..], k) < threshold
      ensures start <= idx < buckets.Length && partialSum == PrefixSum(buckets[..], idx + 1)
      ensures forall k :: 0 < k <= idx ==> PrefixSum(buckets[..], k) < threshold
      ensures partialSum < threshold ==> idx == buckets.Length - 1
    {
      idx, partialSum := start, sum;
      while partialSum < threshold && idx != buckets.Length - 1
        invariant start <= idx < buckets.Length && partialSum == PrefixSum(buckets[..], idx + 1)
        invariant forall k :: 0 < k <= idx ==> PrefixSum(buckets[..], k) < threshold
        decreases buckets.Length - idx
      {
        idx := idx + 1;
        partialSum := partialSum + buckets[idx];
      }
    }

    /** One pass over the buckets answers every threshold of an ascending list. */
    method Percentiles(thresholds: seq<nat>) returns (r: Option<seq<Bucket>>, ghost at: seq<nat>)
      requires Valid() && Ascending(thresholds)
      ensures r.None? <==> PrefixSum(buckets[..], buckets.Length) == 0
      ensures r.Some? ==> Answers(config, buckets[..], thresholds, at, r.value)
    {
      hide Fits, Pow2, LowerBound, UpperBound, PrefixSum, IsBucket;
      at := [];
      ghost var b := buckets[..];
      var total := TotalCount();
      if total == 0 { return None, []; }
      NonEmpty(config);
      FirstSum(b);
      var bucketIdx := 0;
      var partialSum: nat := buckets[0];
      var result := [];
      var exhausted := false;
      for t := 0 to |thresholds|
        invariant bucketIdx < buckets.Length && partialSum == PrefixSum(b, bucketIdx + 1)
        invariant |result| == |at| <= t && (exhausted <==> |at| < t)
        invariant exhausted ==> bucketIdx == buckets.Length - 1
        invariant forall i :: 0 <= i < |at| ==>
                    FirstReaching(b, thresholds[i], at[i]) && IsBucket(config, b, at[i], result[i])
        invariant forall i :: |at| <= i < t ==> thresholds[i] > PrefixSum(b, |b|)
        invariant t < |thresholds| ==> forall k :: 0 < k <= bucketIdx ==> PrefixSum(b, k) < thresholds[t]
      {
        assert exhausted ==> thresholds[t - 1] <= thresholds[t];
        bucketIdx, partialSum := ScanTo(bucketIdx, partialSum, thresholds[t]);
        if partialSum >= thresholds[t] {
          FirstReachingAt(b, bucketIdx, thresholds[t]);
          BucketBounds(config, b, bucketIdx);
          result := result + [Bucket(buckets[bucketIdx], LowerBound(config, bucketIdx), UpperBound(config, bucketIdx))];
          at := at + [bucketIdx];
        } else {
          exhausted := true;
        }
        assert t + 1 < |thresholds| ==> thresholds[t] <= thresholds[t + 1];
      }
      return Some(result), at;
    }
  }

  lemma FirstReachingAt(b: seq<nat>, i: nat, t: nat)
    requires i < |b| && PrefixSum(b, i + 1) >= t && forall k :: 0 < k <= i ==> PrefixSum(b, k) < t
    ensures FirstReaching(b, t, i)
  {
  }

  lemma FirstSum(b: seq<nat>)
    requires |b| > 0
    ensures PrefixSum(b, 1) == b[0]
  {
  }

  lemma NonEmpty(c: Config)
    requires Fits(c)
    ensures Total(c) > 0
  {
    hide Fits, Pow2;
    FitsFields(c);
  }

  lemma TallyStart(h: seq<u64>)
    requires forall j :: 0 <= j < |h| ==> h[j] == 0
    ensures IsTally(h, [], [])
  {
  }

  /** Adding the next count to its bucket extends the tally by one entry; a zero count changes nothing. */
  lemma TallyNext(h: seq<u64>, keys: seq<nat>, counts: seq<u64>, i: nat)
    requires |keys| == |counts| && i < |keys| && keys[i] < |h|
    requires IsTally(h, keys[..i], counts[..i])
    ensures IsTally(Bumped(h, keys[i], counts[i]), keys[..i + 1], counts[..i + 1])
    ensures counts[i] == 0 ==> IsTally(h, keys[..i + 1], counts[..i + 1])
  {
    hide Tally;
    TallyStep(keys, counts, i);
    var b := Bumped(h, keys[i], counts[i]);
    forall j | 0 <= j < |h|
      ensures b[j] == Wrap(Tally(keys[..i + 1], counts[..i + 1], j))
    {
      WrapAdd(h[j], Tally(keys[..i], counts[..i], j), counts[i], counts[i]);
    }
  }

  /** Any run of `add` calls on an empty histogram leaves the wrapped tally of the recorded values. */
  lemma {:induction false} AddAllIsRecorded(c: Config, values: seq<u64>, counts: seq<u64>)
    requires Fits(c) && |values| == |counts|
    requires forall i :: 0 <= i < |values| ==> values[i] < Pow2(c.maxValuePower)
    ensures AddAll(c, seq(Total(c), _ => 0), values, counts) == Recorded(c, values, counts)
  {
    hide Fits, Pow2, Total;
    var zeros := seq(Total(c), _ => 0);
    if |values| == 0 {
    } else {
      var n := |values| - 1;
      AddAllIsRecorded(c, values[..n], counts[..n]);
      var keys := IndicesOf(c, values);
      var before := Recorded(c, values[..n], counts[..n]);
      assert keys[..n] == IndicesOf(c, values[..n]);
      TallyNext(before, keys, counts, n);
      assert keys[..n + 1] == keys && counts[..n + 1] == counts;
    }
  }

  /** Recording at a fine grouping power and downsampling is recording at the coarse grouping power. */
  lemma DownsampleOfRecorded(fine: Config, coarse: Config, values: seq<u64>, counts: seq<u64>)
    requires Coarsens(fine, coarse) && |values| == |counts|
    requires forall i :: 0 <= i < |values| ==> values[i] < Pow2(fine.maxValuePower)
    ensures Downsampled(fine, coarse, Recorded(fine, values, counts)) == Recorded(coarse, values, counts)
  {
    hide Fits, Pow2, Total, ValueToIndex, LowerBound, Tally;
    var keys := IndicesOf(fine, values);
    var image := ImagesOf(fine, coarse);
    var b := Recorded(fine, values, counts);
    var exact := Tallies(keys, counts, Total(fine));
    assert Rename(keys, image) == IndicesOf(coarse, values) by {
      forall i | 0 <= i < |values| ensures image[keys[i]] == IndexOf(coarse, values[i]) {
        CoarseningIsWellDefined(fine, coarse, values[i]);
      }
    }
    forall j | 0 <= j < Total(coarse)
      ensures Wrap(Tally(image, b, j)) == Wrap(Tally(IndicesOf(coarse, values), counts, j))
    {
      TallyWrap(image, b, exact, j);
      TallyOfTallies(keys, counts, image, j);
    }
  }

  /** Records the values in a new histogram, one `add` call after the other. */
  method Record(c: Config, values: seq<u64>, counts: seq<u64>) returns (h: Histogram)
    requires Fits(c) && |values| == |counts|
    requires forall i :: 0 <= i < |values| ==> values[i] < Pow2(c.maxValuePower)
    ensures fresh(h) && fresh(h.buckets) && h.Valid() && h.config == c && h.buckets[..] == Recorded(c, values, counts)
  {
    hide Fits, Pow2, Recorded, IndexOf, Bumped;
    h := new Histogram(c);
    ghost var empty := h.buckets[..];
    assert values[..0] == [] && counts[..0] == [];
    for i := 0 to |values|
      invariant h.Valid() && h.config == c
      invariant h.buckets[..] == AddAll(c, empty, values[..i], counts[..i])
    {
      assert values[..i + 1][..i] == values[..i] && counts[..i + 1][..i] == counts[..i];
      var r := h.Add(values[i], counts[i]);
    }
    assert values[..|values|] == values && counts[..|values|] == counts;
    AddAllIsRecorded(c, values, counts);
  }

  /** Recording finely and downsampling ends with the counters of recording coarsely. */
  method RecordBothWays(fine: Config, groupingPower: nat, values: seq<u64>, counts: seq<u64>)
    returns (a: Histogram, b: Histogram)
    requires Fits(fine) && groupingPower < fine.groupingPower && |values| == |counts|
    requires forall i :: 0 <= i < |values| ==> values[i] < Pow2(fine.maxValuePower)
    ensures fresh(a) && fresh(b) && a.Valid() && b.Valid() && a.config == b.config
    ensures a.config.groupingPower == groupingPower && a.config.maxValuePower == fine.maxValuePower
    ensures a.buckets[..] == b.buckets[..] == Recorded(b.config, values, counts)
  {
    hide Pow2, Recorded, Downsampled;
    var h := Record(fine, values, counts);
    var r := h.Downsample(groupingPower);
    a := r.value;
    b := Record(a.config, values, counts);
    DownsampleOfRecorded(fine, a.config, values, counts);
  }
}
