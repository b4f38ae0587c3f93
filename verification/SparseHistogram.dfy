/** The columnar histogram of non-zero buckets (forked-libs/histogram/src/sparse.rs) and its relation
    to the dense one. */
module SparseHistogram {
  import opened Machine
  import opened HistogramConfig
  import opened KeyedCounts
  import opened DenseHistogram

  datatype Sparse = Sparse(config: Config, index: seq<nat>, count: seq<nat>)

  /** Parallel columns, indices strictly increasing and in range, counts non-zero machine words. */
  ghost predicate Canonical(s: Sparse) {
    && Fits(s.config)
    && Columns(s.index, s.count)
    && forall i :: 0 <= i < |s.index| ==> s.index[i] < Total(s.config)
  }

  ghost predicate Columns(index: seq<nat>, count: seq<nat>) {
    && |index| == |count|
    && (forall i, j :: 0 <= i < j < |index| ==> index[i] < index[j])
    && (forall i :: 0 <= i < |count| ==> 0 < count[i] <= U64_MAX)
  }

  /** The counter of bucket `k`. */
  function At(s: Sparse, k: nat): nat
    requires |s.index| == |s.count|
  {
    Tally(s.index, s.count, k)
  }

  function Empty(c: Config): Sparse {
    Sparse(c, [], [])
  }

  function AddBucket(s: Sparse, idx: nat, n: nat): Sparse {
    if n != 0 then Sparse(s.config, s.index + [idx], s.count + [n]) else s
  }

  // ----- Canonical columns are determined by their tallies -----

  lemma {:induction false} ColumnsAt(index: seq<nat>, count: seq<nat>, i: nat)
    requires Columns(index, count) && i < |index|
    ensures Tally(index, count, index[i]) == count[i]
  {
    var n := |index| - 1;
    if i < n {
      ColumnsAt(index[..n], count[..n], i);
    } else {
      TallyAbsent(index[..n], count[..n], index[n]);
    }
  }

  lemma ColumnsPositive(index: seq<nat>, count: seq<nat>, k: nat)
    requires Columns(index, count)
    ensures Tally(index, count, k) > 0 <==> k in index
    ensures Tally(index, count, k) <= U64_MAX
  {
    if k in index {
      var i :| 0 <= i < |index| && index[i] == k;
      ColumnsAt(index, count, i);
    } else {
      TallyAbsent(index, count, k);
    }
  }

  lemma LastIsLargest(index: seq<nat>, count: seq<nat>, k: nat)
    requires Columns(index, count) && k in index
    ensures |index| > 0 && k <= index[|index| - 1]
  {
  }

  lemma PeelLast(index: seq<nat>, count: seq<nat>, k: nat)
    requires Columns(index, count) && |index| > 0
    ensures var n := |index| - 1;
            && Columns(index[..n], count[..n])
            && Tally(index, count, k) == Tally(index[..n], count[..n], k) + (if index[n] == k then count[n] else 0)
  {
  }

  /** Equal tallies put the last entries of two columns in the same place with the same count. */
  lemma SameLast(xs: seq<nat>, xc: seq<nat>, ys: seq<nat>, yc: seq<nat>)
    requires Columns(xs, xc) && Columns(ys, yc) && |xs| > 0
    requires forall k: nat :: Tally(xs, xc, k) == Tally(ys, yc, k)
    ensures |ys| > 0 && xs[|xs| - 1] == ys[|ys| - 1] && xc[|xs| - 1] == yc[|ys| - 1]
  {
    hide Tally;
    var x := xs[|xs| - 1];
    ColumnsPositive(xs, xc, x);
    ColumnsPositive(ys, yc, x);
    LastIsLargest(ys, yc, x);
    var y := ys[|ys| - 1];
    ColumnsPositive(xs, xc, y);
    ColumnsPositive(ys, yc, y);
    LastIsLargest(xs, xc, y);
    ColumnsAt(xs, xc, |xs| - 1);
    ColumnsAt(ys, yc, |ys| - 1);
  }

  lemma {:induction false} ColumnsUnique(xs: seq<nat>, xc: seq<nat>, ys: seq<nat>, yc: seq<nat>)
    requires Columns(xs, xc) && Columns(ys, yc)
    requires forall k: nat :: Tally(xs, xc, k) == Tally(ys, yc, k)
    ensures xs == ys && xc == yc
    decreases |xs| + |ys|
  {
    hide Tally, Columns;
    ColumnsLength(xs, xc);
    ColumnsLength(ys, yc);
    if |xs| > 0 {
      SameLast(xs, xc, ys, yc);
      var m, n := |xs| - 1, |ys| - 1;
      PeelLast(xs, xc, 0);
      PeelLast(ys, yc, 0);
      forall k: nat
        ensures Tally(xs[..m], xc[..m], k) == Tally(ys[..n], yc[..n], k)
      {
        PeelLast(xs, xc, k);
        PeelLast(ys, yc, k);
      }
      ColumnsUnique(xs[..m], xc[..m], ys[..n], yc[..n]);
      assert xs == xs[..m] + [xs[m]] && ys == ys[..n] + [ys[n]];
      assert xc == xc[..m] + [xc[m]] && yc == yc[..n] + [yc[n]];
    } else if |ys| > 0 {
      SameLast(ys, yc, xs, xc);
    }
  }

  lemma ColumnsLength(index: seq<nat>, count: seq<nat>)
    requires Columns(index, count)
    ensures |index| == |count|
  {
  }

  /** Two canonical histograms with the same counters are the same value. */
  lemma CanonicalUnique(a: Sparse, b: Sparse)
    requires Canonical(a) && Canonical(b) && a.config == b.config
    requires forall k: nat :: At(a, k) == At(b, k)
    ensures a == b
  {
    hide Fits, Tally;
    assert forall k: nat :: Tally(a.index, a.count, k) == At(a, k);
    assert forall k: nat :: Tally(b.index, b.count, k) == At(b, k);
    ColumnsUnique(a.index, a.count, b.index, b.count);
  }

  // ----- Merging -----

  /** Everything already emitted lies below the index that comes next. */
  ghost predicate Below(index: seq<nat>, k: nat) {
    forall i :: 0 <= i < |index| ==> index[i] < k
  }

  lemma PushBucket(h: Sparse, k: nat, n: nat)
    requires Canonical(h) && Below(h.index, k) && k < Total(h.config) && 0 < n <= U64_MAX
    ensures Canonical(AddBucket(h, k, n)) && Below(AddBucket(h, k, n).index, k + 1)
    ensures forall x: nat :: At(AddBucket(h, k, n), x) == At(h, x) + (if k == x then n else 0)
  {
    hide Fits, Tally, Total;
    TallyPush(h.index, h.count, k, n);
  }

  /** Copying the rest of a canonical histogram behind smaller indices. */
  lemma ExtendBuckets(h: Sparse, s: Sparse, i: nat)
    requires Canonical(h) && Canonical(s) && h.config == s.config
    requires i <= |s.index| && (i < |s.index| ==> Below(h.index, s.index[i]))
    ensures Canonical(Extended(h, s, i))
    ensures forall x: nat :: At(Extended(h, s, i), x)
                             == At(h, x) + At(s, x) - Tally(s.index[..i], s.count[..i], x)
  {
    hide Fits, Tally, Total;
    TallyAppend(h.index, h.count, s.index[i..], s.count[i..]);
    TallySplit(s.index, s.count, i);
  }

  function Extended(h: Sparse, s: Sparse, i: nat): Sparse
    requires i <= |s.index| == |s.count|
  {
    Sparse(h.config, h.index + s.index[i..], h.count + s.count[i..])
  }

  lemma CanonicalAt(s: Sparse, k: nat)
    requires Canonical(s)
    ensures At(s, k) <= U64_MAX && (At(s, k) > 0 <==> k in s.index) && (At(s, k) > 0 ==> k < Total(s.config))
    ensures forall i :: 0 <= i < |s.index| ==> At(s, s.index[i]) == s.count[i]
  {
    hide Fits, Tally, Total;
    ColumnsPositive(s.index, s.count, k);
    forall i | 0 <= i < |s.index| ensures At(s, s.index[i]) == s.count[i] {
      ColumnsAt(s.index, s.count, i);
    }
  }

  /** `h` is the sum of the first `i` entries of `a` and the first `j` entries of `b`. */
  ghost predicate Merging(a: Sparse, b: Sparse, h: Sparse, i: nat, j: nat) {
    && Canonical(a) && Canonical(b) && Canonical(h) && a.config == b.config == h.config
    && i <= |a.index| && j <= |b.index|
    && (i < |a.index| ==> Below(h.index, a.index[i]))
    && (j < |b.index| ==> Below(h.index, b.index[j]))
    && forall k: nat :: At(h, k) == Tally(a.index[..i], a.count[..i], k) + Tally(b.index[..j], b.count[..j], k)
  }

  lemma MergeLeft(a: Sparse, b: Sparse, h: Sparse, i: nat, j: nat)
    requires Merging(a, b, h, i, j) && i < |a.index| && (j < |b.index| ==> a.index[i] < b.index[j])
    ensures Merging(a, b, AddBucket(h, a.index[i], a.count[i]), i + 1, j)
  {
    hide Fits, Tally, Total;
    TallyStep(a.index, a.count, i);
    PushBucket(h, a.index[i], a.count[i]);
  }

  lemma MergeBoth(a: Sparse, b: Sparse, h: Sparse, i: nat, j: nat)
    requires Merging(a, b, h, i, j) && i < |a.index| && j < |b.index| && a.index[i] == b.index[j]
    requires a.count[i] + b.count[j] <= U64_MAX
    ensures Merging(a, b, AddBucket(h, a.index[i], a.count[i] + b.count[j]), i + 1, j + 1)
  {
    hide Fits, Tally, Total;
    TallyStep(a.index, a.count, i);
    TallyStep(b.index, b.count, j);
    PushBucket(h, a.index[i], a.count[i] + b.count[j]);
  }

  lemma MergingSwaps(a: Sparse, b: Sparse, h: Sparse, i: nat, j: nat)
    requires Merging(a, b, h, i, j)
    ensures Merging(b, a, h, j, i)
  {
    hide Fits, Tally, Total, Columns;
  }

  /** Once one side is used up, the rest of the other completes the sum. */
  lemma MergeRest(a: Sparse, b: Sparse, h: Sparse, i: nat)
    requires Merging(a, b, h, i, |b.index|)
    ensures Canonical(Extended(h, a, i))
    ensures forall k: nat :: At(Extended(h, a, i), k) == At(a, k) + At(b, k)
  {
    hide Fits, Tally, Total;
    ExtendBuckets(h, a, i);
    WholeTally(b);
  }

  /** Adds bucket by bucket; stops exactly when a bucket overflows. */
  method WrappingAdd(a: Sparse, b: Sparse) returns (r: Outcome<Sparse>)
    requires Canonical(a) && Canonical(b)
    ensures a.config != b.config <==> r == Err(IncompatibleParameters)
    ensures r.Err? ==> r == Err(IncompatibleParameters)
    ensures r.Ok? <==> a.config == b.config && forall k: nat :: At(a, k) + At(b, k) <= U64_MAX
    ensures r.Ok? ==> Canonical(r.value) && r.value.config == a.config
                      && forall k: nat :: At(r.value, k) == At(a, k) + At(b, k)
  {
    if a.config != b.config { return Err(IncompatibleParameters); }
    var histogram := Empty(a.config);
    assert Merging(a, b, histogram, 0, 0);
    ColumnsLength(a.index, a.count);
    ColumnsLength(b.index, b.count);
    hide Merging, Canonical, Tally, Columns, At;
    var i, j := 0, 0;
    while i < |a.index| && j < |b.index|
      invariant 0 <= i <= |a.index| && 0 <= j <= |b.index|
      invariant Merging(a, b, histogram, i, j)
      invariant histogram.config == a.config
      decreases |a.index| - i + |b.index| - j
    {
      var k1, v1 := a.index[i], a.count[i];
      var k2, v2 := b.index[j], b.count[j];
      if k1 == k2 {
        if v1 + v2 > U64_MAX {
          CanonicalAt(a, k1);
          CanonicalAt(b, k1);
          return Panic;
        }
        MergeBoth(a, b, histogram, i, j);
        histogram := AddBucket(histogram, k1, v1 + v2);
        i, j := i + 1, j + 1;
      } else if k1 < k2 {
        MergeLeft(a, b, histogram, i, j);
        histogram := AddBucket(histogram, k1, v1);
        i := i + 1;
      } else {
        MergingSwaps(a, b, histogram, i, j);
        MergeLeft(b, a, histogram, j, i);
        histogram := AddBucket(histogram, k2, v2);
        MergingSwaps(b, a, histogram, j + 1, i);
        j := j + 1;
      }
    }
    MergeTail(a, b, histogram, i, j);
    if i < |a.index| {
      histogram := Extended(histogram, a, i);
    }
    if j < |b.index| {
      histogram := Extended(histogram, b, j);
    }
    return Ok(histogram);
  }

  /** Copying what is left of one operand completes the sum. */
  lemma MergeTail(a: Sparse, b: Sparse, histogram: Sparse, i: nat, j: nat)
    requires i <= |a.index| == |a.count| && j <= |b.index| == |b.count| && (i == |a.index| || j == |b.index|)
    requires Merging(a, b, histogram, i, j) && histogram.config == a.config == b.config
    ensures var r := if i < |a.index| then Extended(histogram, a, i)
                     else if j < |b.index| then Extended(histogram, b, j) else histogram;
            && Canonical(r) && r.config == a.config
            && forall k: nat :: At(r, k) == At(a, k) + At(b, k) <= U64_MAX
  {
    hide Merging, Canonical, Tally, Columns, At;
    if j == |b.index| {
      MergeRest(a, b, histogram, i);
    } else {
      MergingSwaps(a, b, histogram, i, j);
      MergeRest(b, a, histogram, j);
    }
    ExtendedByNothing(histogram, a);
    var r := if i < |a.index| then Extended(histogram, a, i)
             else if j < |b.index| then Extended(histogram, b, j) else histogram;
    SameLength(r);
    forall k: nat ensures At(r, k) == At(a, k) + At(b, k) <= U64_MAX {
      CanonicalAt(r, k);
    }
  }

  lemma SameLength(s: Sparse)
    requires Canonical(s)
    ensures |s.index| == |s.count|
  {
  }

  lemma ExtendedByNothing(h: Sparse, s: Sparse)
    requires |s.index| == |s.count|
    ensures Extended(h, s, |s.index|) == h
  {
  }

  lemma EmptyTally()
    ensures forall k: nat :: Tally([], [], k) == 0
  {
  }

  lemma WholeTally(s: Sparse)
    requires |s.index| == |s.count|
    ensures s.index[..|s.index|] == s.index && s.count[..|s.index|] == s.count
  {
  }

  /** `h` is the first `i` entries of `a` less the first `j` entries of `b`. */
  ghost predicate Subtracting(a: Sparse, b: Sparse, h: Sparse, i: nat, j: nat) {
    && Canonical(a) && Canonical(b) && Canonical(h) && a.config == b.config == h.config
    && i <= |a.index| && j <= |b.index|
    && (i < |a.index| ==> Below(h.index, a.index[i]))
    && (i > 0 && j < |b.index| ==> a.index[i - 1] < b.index[j])
    && forall k: nat :: At(h, k) + Tally(b.index[..j], b.count[..j], k) == Tally(a.index[..i], a.count[..i], k)
  }

  lemma SubtractLeft(a: Sparse, b: Sparse, h: Sparse, i: nat, j: nat)
    requires Subtracting(a, b, h, i, j) && i < |a.index| && j < |b.index| && a.index[i] < b.index[j]
    ensures Subtracting(a, b, AddBucket(h, a.index[i], a.count[i]), i + 1, j)
  {
    hide Fits, Tally, Total;
    TallyStep(a.index, a.count, i);
    PushBucket(h, a.index[i], a.count[i]);
  }

  lemma SubtractBoth(a: Sparse, b: Sparse, h: Sparse, i: nat, j: nat)
    requires Subtracting(a, b, h, i, j) && i < |a.index| && j < |b.index| && a.index[i] == b.index[j]
    requires b.count[j] <= a.count[i]
    ensures Subtracting(a, b, AddBucket(h, a.index[i], a.count[i] - b.count[j]), i + 1, j + 1)
  {
    hide Fits, Tally, Total;
    TallyStep(a.index, a.count, i);
    TallyStep(b.index, b.count, j);
    if a.count[i] > b.count[j] {
      PushBucket(h, a.index[i], a.count[i] - b.count[j]);
    }
  }

  lemma SubtractRest(a: Sparse, b: Sparse, h: Sparse, i: nat)
    requires Subtracting(a, b, h, i, |b.index|)
    ensures Canonical(Extended(h, a, i))
    ensures forall k: nat :: At(Extended(h, a, i), k) + At(b, k) == At(a, k)
  {
    hide Fits, Tally, Total;
    ExtendBuckets(h, a, i);
    WholeTally(b);
  }

  /** Subtracts bucket by bucket; succeeds exactly when the subtrahend is a sub-histogram. */
  method CheckedSub(a: Sparse, b: Sparse) returns (r: Outcome<Sparse>)
    requires Canonical(a) && Canonical(b)
    ensures a.config != b.config <==> r == Err(IncompatibleParameters)
    ensures r.Ok? <==> a.config == b.config && forall k: nat :: At(b, k) <= At(a, k)
    ensures r.Ok? ==> Canonical(r.value) && r.value.config == a.config
                      && forall k: nat :: At(r.value, k) == At(a, k) - At(b, k)
    ensures r == Err(Underflow) ==> exists k: nat :: 0 < At(a, k) < At(b, k)
    ensures r == Err(InvalidSubset) ==> exists k: nat :: 0 == At(a, k) < At(b, k)
    ensures r.Ok? || (r.Err? && r.error in {IncompatibleParameters, Underflow, InvalidSubset})
  {
    if a.config != b.config { return Err(IncompatibleParameters); }
    var histogram := Empty(a.config);
    assert Subtracting(a, b, histogram, 0, 0);
    ColumnsLength(a.index, a.count);
    ColumnsLength(b.index, b.count);
    hide Subtracting, Canonical, Tally, Columns, At;
    var i, j := 0, 0;
    while i < |a.index| && j < |b.index|
      invariant 0 <= i <= |a.index| && 0 <= j <= |b.index|
      invariant Subtracting(a, b, histogram, i, j)
      invariant histogram.config == a.config
      decreases |a.index| - i + |b.index| - j
    {
      var k1, v1 := a.index[i], a.count[i];
      var k2, v2 := b.index[j], b.count[j];
      if k1 == k2 {
        if v1 < v2 {
          CanonicalAt(a, k1);
          CanonicalAt(b, k1);
          assert 0 < At(a, k1) < At(b, k1);
          return Err(Underflow);
        }
        SubtractBoth(a, b, histogram, i, j);
        histogram := AddBucket(histogram, k1, v1 - v2);
        i, j := i + 1, j + 1;
      } else if k1 < k2 {
        SubtractLeft(a, b, histogram, i, j);
        histogram := AddBucket(histogram, k1, v1);
        i := i + 1;
      } else {
        MissingBucket(a, b, histogram, i, j);
        return Err(InvalidSubset);
      }
    }
    if j < |b.index| {
      MissingBucket(a, b, histogram, i, j);
      return Err(InvalidSubset);
    }
    SubtractRest(a, b, histogram, i);
    ExtendedByNothing(histogram, a);
    if i < |a.index| {
      histogram := Extended(histogram, a, i);
    }
    return Ok(histogram);
  }

  /** A bucket of `b` that falls between two neighbours of `a` is empty in `a`. */
  lemma MissingBucket(a: Sparse, b: Sparse, h: Sparse, i: nat, j: nat)
    requires Subtracting(a, b, h, i, j) && j < |b.index|
    requires i < |a.index| ==> b.index[j] < a.index[i]
    ensures 0 == At(a, b.index[j]) < At(b, b.index[j])
  {
    hide Fits, Tally, Total;
    CanonicalAt(a, b.index[j]);
    CanonicalAt(b, b.index[j]);
    assert forall x :: 0 <= x < i ==> a.index[x] <= a.index[i - 1];
  }

  /** Adding the subtrahend back after a successful subtraction restores the histogram, entry for entry. */
  lemma AddBack(a: Sparse, b: Sparse, difference: Sparse, sum: Sparse)
    requires Canonical(a) && Canonical(b) && Canonical(difference) && Canonical(sum)
    requires a.config == difference.config == sum.config
    requires forall k: nat :: At(difference, k) == At(a, k) - At(b, k)
    requires forall k: nat :: At(sum, k) == At(difference, k) + At(b, k)
    ensures sum == a
  {
    hide Fits, Tally, At;
    CanonicalUnique(sum, a);
  }

  // ----- Conversions -----

  /** The counters of a sparse histogram as the dense array. */
  function Dense(s: Sparse): seq<nat>
    requires |s.index| == |s.count|
  {
    Tallies(s.index, s.count, Total(s.config))
  }

  method FromDense(h: Histogram) returns (s: Sparse)
    requires h.Valid()
    ensures Canonical(s) && s.config == h.config && Dense(s) == h.buckets[..]
  {
    hide Fits, Tally, Total;
    s := Empty(h.config);
    EmptyTally();
    for i := 0 to h.buckets.Length
      invariant Canonical(s) && s.config == h.config && Below(s.index, i)
      invariant forall k: nat :: At(s, k) == if k < i then h.buckets[k] else 0
    {
      if h.buckets[i] > 0 {
        PushBucket(s, i, h.buckets[i]);
        s := AddBucket(s, i, h.buckets[i]);
      }
    }
  }

  method ToDense(s: Sparse) returns (h: Histogram)
    requires Canonical(s)
    ensures h.Valid() && fresh(h) && fresh(h.buckets) && h.config == s.config && h.buckets[..] == Dense(s)
  {
    hide Fits, Tally, Total;
    h := new Histogram(s.config);
    EmptyTally();
    for i := 0 to |s.index|
      invariant forall k :: 0 <= k < h.buckets.Length ==> h.buckets[k] == Tally(s.index[..i], s.count[..i], k)
    {
      TallyStep(s.index, s.count, i);
      TallyAbsent(s.index[..i], s.count[..i], s.index[i]);
      h.buckets[s.index[i]] := s.count[i];
    }
    WholeTally(s);
  }

  lemma DenseAt(s: Sparse, k: nat)
    requires Canonical(s)
    ensures |Dense(s)| == Total(s.config)
    ensures k < Total(s.config) ==> Dense(s)[k] == At(s, k)
    ensures k >= Total(s.config) ==> At(s, k) == 0
  {
    hide Fits, Tally, Total;
    CanonicalAt(s, k);
  }

  /** Sparse subtraction is defined exactly when the dense one is. */
  lemma SubsetAgrees(a: Sparse, b: Sparse)
    requires Canonical(a) && Canonical(b) && a.config == b.config
    ensures (forall k: nat :: At(b, k) <= At(a, k))
            <==> (forall k :: 0 <= k < Total(a.config) ==> Dense(b)[k] <= Dense(a)[k])
  {
    hide Fits, Tally, Total, At, Dense;
    forall k: nat
      ensures |Dense(a)| == |Dense(b)| == Total(a.config)
      ensures k < Total(a.config) ==> Dense(a)[k] == At(a, k) && Dense(b)[k] == At(b, k)
      ensures k >= Total(a.config) ==> At(a, k) == At(b, k) == 0
    {
      DenseAt(a, k);
      DenseAt(b, k);
    }
  }

  // ----- Downsampling -----

  /** Where the entries of a sparse histogram go under a coarser configuration. */
  function ImageColumn(s: Sparse, coarse: Config): (keys: seq<nat>)
    requires Canonical(s) && Coarsens(s.config, coarse)
    ensures |keys| == |s.index|
    ensures forall i :: 0 <= i < |keys| ==> keys[i] == ImageOf(s.config, coarse, s.index[i])
  {
    Rename(s.index, ImagesOf(s.config, coarse))
  }

  lemma ImageMonotone(fine: Config, coarse: Config, i: nat, j: nat)
    requires Coarsens(fine, coarse) && i <= j < Total(fine)
    ensures ImageOf(fine, coarse, i) <= ImageOf(fine, coarse, j)
  {
    hide Fits, Pow2, Total, LowerBound, ValueToIndex;
    IndexOfLowerBound(fine, i);
    IndexOfLowerBound(fine, j);
    if i < j {
      LowerBoundMonotone(fine, i, j);
    }
    IndexMonotone(coarse, LowerBound(fine, i), LowerBound(fine, j));
  }

  /** The first `i` entries are in `h`, except those of the bucket `k` that is still open with count `n`. */
  ghost predicate Aggregating(keys: seq<nat>, count: seq<nat>, h: Sparse, i: nat, k: nat, n: nat) {
    && i <= |keys| == |count|
    && Canonical(h) && Below(h.index, k) && k < Total(h.config)
    && n <= U64_MAX && (n > 0 <==> i > 0)
    && k == (if i == 0 then 0 else keys[i - 1])
    && forall x: nat :: Tally(keys[..i], count[..i], x) == At(h, x) + (if x == k then n else 0)
  }

  lemma AggregateSame(keys: seq<nat>, count: seq<nat>, h: Sparse, i: nat, k: nat, n: nat)
    requires Aggregating(keys, count, h, i, k, n) && i < |keys| && keys[i] == k && count[i] > 0
    ensures n + count[i] <= U64_MAX ==> Aggregating(keys, count, h, i + 1, k, n + count[i])
    ensures n + count[i] > U64_MAX ==> Tally(keys, count, k) > U64_MAX
  {
    hide Fits, Tally, Total, At;
    TallyStep(keys, count, i);
    TallyPrefixBound(keys, count, i + 1, k);
    assert Tally(keys[..i], count[..i], k) == At(h, k) + n;
  }

  lemma AggregateNext(keys: seq<nat>, count: seq<nat>, h: Sparse, i: nat, k: nat, n: nat)
    requires Aggregating(keys, count, h, i, k, n) && i < |keys| && k < keys[i] < Total(h.config)
    requires 0 < count[i] <= U64_MAX
    ensures Aggregating(keys, count, AddBucket(h, k, n), i + 1, keys[i], count[i])
  {
    hide Fits, Tally, Total;
    TallyStep(keys, count, i);
    if i > 0 {
      PushBucket(h, k, n);
    }
  }

  lemma AggregateClose(keys: seq<nat>, count: seq<nat>, h: Sparse, k: nat, n: nat)
    requires Aggregating(keys, count, h, |keys|, k, n)
    ensures var r := AddBucket(h, k, n);
            Canonical(r) && forall x: nat :: At(r, x) == Tally(keys, count, x) <= U64_MAX
  {
    hide Fits, Tally, Total;
    assert keys[..|keys|] == keys && count[..|keys|] == count;
    if |keys| > 0 {
      PushBucket(h, k, n);
    }
    var r := AddBucket(h, k, n);
    forall x: nat ensures At(r, x) <= U64_MAX {
      CanonicalAt(r, x);
    }
  }

  /** One pass with a single open bucket; stops exactly when a coarse bucket overflows. */
  method Downsample(s: Sparse, groupingPower: nat) returns (r: Outcome<Sparse>)
    requires Canonical(s)
    ensures r == Err(MaxPowerTooLow) <==> groupingPower >= s.config.groupingPower
    ensures r.Err? ==> r == Err(MaxPowerTooLow)
    ensures groupingPower < s.config.groupingPower ==> New(groupingPower, s.config.maxValuePower).Ok?
    ensures groupingPower < s.config.groupingPower ==>
              var coarse := New(groupingPower, s.config.maxValuePower).value;
              && Coarsens(s.config, coarse)
              && (r.Ok? <==> forall k: nat :: Tally(ImageColumn(s, coarse), s.count, k) <= U64_MAX)
              && (r.Ok? ==> && Canonical(r.value) && r.value.config == coarse
                            && forall k: nat :: At(r.value, k) == Tally(ImageColumn(s, coarse), s.count, k))
  {
    hide Fits, Tally, Total, New, Pow2, LowerBound, ValueToIndex;
    if groupingPower >= s.config.groupingPower { return Err(MaxPowerTooLow); }
    CoarserFits(s.config, groupingPower);
    var coarse := New(groupingPower, s.config.maxValuePower).value;
    ghost var keys := ImageColumn(s, coarse);
    var histogram := Empty(coarse);
    var aggregatingIdx: nat, aggregatingCount: nat := 0, 0;
    EmptyTally();
    NonEmpty(coarse);
    assert Aggregating(keys, s.count, histogram, 0, 0, 0);
    hide Aggregating, At;
    for i := 0 to |s.index|
      invariant Aggregating(keys, s.count, histogram, i, aggregatingIdx, aggregatingCount)
      invariant aggregatingIdx == if i == 0 then 0 else keys[i - 1]
      invariant histogram.config == coarse
    {
      IndexOfLowerBound(s.config, s.index[i]);
      var newIdx := ValueToIndex(coarse, LowerBound(s.config, s.index[i])).value;
      assert newIdx == keys[i];
      if newIdx == aggregatingIdx {
        AggregateSame(keys, s.count, histogram, i, aggregatingIdx, aggregatingCount);
        if aggregatingCount + s.count[i] > U64_MAX { return Panic; }
        aggregatingCount := aggregatingCount + s.count[i];
        continue;
      }
      if i > 0 {
        ImageMonotone(s.config, coarse, s.index[i - 1], s.index[i]);
      }
      AggregateNext(keys, s.count, histogram, i, aggregatingIdx, aggregatingCount);
      histogram := AddBucket(histogram, aggregatingIdx, aggregatingCount);
      aggregatingIdx, aggregatingCount := newIdx, s.count[i];
    }
    AggregateClose(keys, s.count, histogram, aggregatingIdx, aggregatingCount);
    histogram := AddBucket(histogram, aggregatingIdx, aggregatingCount);
    return Ok(histogram);
  }

  /** Downsampling the sparse form of `fine` gives the sparse form of the downsampled dense counters. */
  lemma SparseDownsampleRefinesDense(fine: Sparse, coarse: Config, result: Sparse, dense: Sparse)
    requires Canonical(fine) && Coarsens(fine.config, coarse)
    requires Canonical(result) && result.config == coarse
    requires forall k: nat :: At(result, k) == Tally(ImageColumn(fine, coarse), fine.count, k)
    requires Canonical(dense) && dense.config == coarse
    requires forall i :: 0 <= i < |Dense(fine)| ==> Dense(fine)[i] <= U64_MAX
    requires Dense(dense) == Downsampled(fine.config, coarse, Dense(fine))
    ensures result == dense
  {
    hide Fits, Tally, Total, Pow2, LowerBound, ValueToIndex;
    var image := ImagesOf(fine.config, coarse);
    forall k: nat
      ensures At(result, k) == At(dense, k)
    {
      CanonicalAt(result, k);
      DenseAt(result, k);
      DenseAt(dense, k);
      TallyOfTallies(fine.index, fine.count, image, k);
      if k < Total(coarse) {
        assert Dense(dense)[k] == Wrap(Tally(image, Dense(fine), k));
      }
    }
    CanonicalUnique(result, dense);
  }

  // ----- Percentiles -----

  lemma {:induction false} PrefixSumMonotone(b: seq<nat>, m: nat, n: nat)
    requires m <= n <= |b|
    ensures PrefixSum(b, m) <= PrefixSum(b, n)
    ensures (forall k :: m <= k < n ==> b[k] == 0) ==> PrefixSum(b, m) == PrefixSum(b, n)
    decreases n
  {
    if m < n {
      PrefixSumMonotone(b, m, n - 1);
    }
  }

  /** The dense answer with threshold 0 read as 1: only non-empty buckets are stored. */
  function AtLeastOne(thresholds: seq<nat>): seq<nat> {
    seq(|thresholds|, i requires 0 <= i < |thresholds| => if thresholds[i] == 0 then 1 else thresholds[i])
  }

  /** `p` lies behind the first `i` entries and not beyond the next one. */
  ghost predicate Between(s: Sparse, i: nat, p: nat) {
    && i <= |s.index|
    && (i > 0 ==> s.index[i - 1] < p)
    && (i < |s.index| ==> p <= s.index[i])
    && p <= Total(s.config)
  }

  /** Between two entries every bucket is empty, so the cumulative count does not move. */
  lemma GapIsEmpty(s: Sparse, i: nat, p: nat, q: nat)
    requires Canonical(s) && Between(s, i, p) && Between(s, i, q) && p <= q
    ensures |Dense(s)| == Total(s.config)
    ensures PrefixSum(Dense(s), p) == PrefixSum(Dense(s), q)
  {
    hide Fits, Tally, Total;
    var b := Dense(s);
    forall k | p <= k < q
      ensures b[k] == 0
    {
      DenseAt(s, k);
      CanonicalAt(s, k);
      assert forall x :: 0 <= x < i ==> s.index[x] <= s.index[i - 1];
    }
    PrefixSumMonotone(b, p, q);
  }

  /** The thresholds answered so far: those up to the cumulative count `seen`. */
  ghost predicate Answered(c: Config, b: seq<nat>, wanted: seq<nat>, at: seq<nat>, result: seq<Bucket>, seen: nat)
    requires Fits(c)
  {
    && |at| == |result| <= |wanted|
    && (forall t :: 0 <= t < |at| ==> FirstReaching(b, wanted[t], at[t]) && IsBucket(c, b, at[t], result[t]))
    && (|at| < |wanted| ==> wanted[|at|] > seen)
  }

  /** Every cumulative count up to bucket `k` is at most `seen`, and bucket `k` reaches beyond it. */
  lemma ReachedAt(b: seq<nat>, k: nat, seen: nat, t: nat)
    requires k < |b| && PrefixSum(b, k) == seen < t <= PrefixSum(b, k + 1)
    ensures FirstReaching(b, t, k)
  {
    forall m | 0 < m <= k ensures PrefixSum(b, m) < t { PrefixSumMonotone(b, m, k); }
  }

  /** Scanning on to the next entry. */
  lemma NextEntry(s: Sparse, i: nat, p: nat)
    requires Canonical(s) && i < |s.index| && Between(s, i, p)
    ensures var k := s.index[i];
            && k < |Dense(s)| == Total(s.config) && Dense(s)[k] == s.count[i] > 0
            && PrefixSum(Dense(s), k) == PrefixSum(Dense(s), p)
            && PrefixSum(Dense(s), k + 1) == PrefixSum(Dense(s), p) + s.count[i] <= PrefixSum(Dense(s), Total(s.config))
            && Between(s, i + 1, k + 1)
  {
    hide Fits, Tally, Total, Dense;
    var k := s.index[i];
    GapIsEmpty(s, i, p, k);
    DenseAt(s, k);
    CanonicalAt(s, k);
    PrefixSumMonotone(Dense(s), k + 1, Total(s.config));
  }

  method Percentiles(s: Sparse, thresholds: seq<nat>) returns (r: Outcome<Option<seq<Bucket>>>, ghost at: seq<nat>)
    requires Canonical(s) && Ascending(thresholds)
    ensures r == Err(InvalidPercentile) <==> |thresholds| == 0
    ensures r.Err? ==> r == Err(InvalidPercentile)
    ensures |Dense(s)| == Total(s.config)
    ensures r.Panic? <==> |thresholds| > 0 && PrefixSum(Dense(s), Total(s.config)) > U64_MAX
    ensures r.Ok? ==> (r.value.None? <==> PrefixSum(Dense(s), Total(s.config)) == 0)
    ensures r.Ok? && r.value.Some? ==> Answers(s.config, Dense(s), AtLeastOne(thresholds), at, r.value.value)
  {
    hide Fits, Tally, Total, LowerBound, UpperBound, Dense, PrefixSum, FirstReaching, IsBucket;
    at := [];
    ghost var b := Dense(s);
    ghost var wanted := AtLeastOne(thresholds);
    DenseAt(s, 0);
    PrefixSumZero(b);
    if |thresholds| == 0 { return Err(InvalidPercentile), at; }
    if |s.index| == 0 {
      GapIsEmpty(s, 0, 0, Total(s.config));
      return Ok(None), at;
    }
    var searchIdx := 0;
    var result := [];
    var seen := 0;
    ghost var p := 0;
    for i := 0 to |s.index|
      invariant Between(s, i, p) && U64_MAX >= seen == PrefixSum(b, p) && (seen > 0 <==> i > 0)
      invariant searchIdx == |at| && Answered(s.config, b, wanted, at, result, seen)
    {
      ghost var k := s.index[i];
      NextEntry(s, i, p);
      if seen + s.count[i] > U64_MAX { return Panic, at; }
      ghost var before := seen;
      seen := seen + s.count[i];
      p := k + 1;
      while searchIdx < |thresholds| && seen >= thresholds[searchIdx]
        invariant searchIdx == |at| <= |thresholds| && Answered(s.config, b, wanted, at, result, before)
      {
        ReachedAt(b, k, before, wanted[searchIdx]);
        BucketBounds(s.config, b, k);
        result := result + [Bucket(s.count[i], LowerBound(s.config, s.index[i]), UpperBound(s.config, s.index[i]))];
        at := at + [k];
        searchIdx := searchIdx + 1;
      }
    }
    GapIsEmpty(s, |s.index|, p, Total(s.config));
    return Ok(Some(result)), at;
  }

  lemma PrefixSumZero(b: seq<nat>)
    ensures PrefixSum(b, 0) == 0
  {
  }

  // ----- Calls put together -----

  /** Subtracting and adding back gives the histogram again, whenever the subtraction succeeds. */
  method SubtractAndAddBack(a: Sparse, b: Sparse) returns (r: Outcome<Sparse>)
    requires Canonical(a) && Canonical(b)
    ensures r.Ok? <==> a.config == b.config && forall k: nat :: At(b, k) <= At(a, k)
    ensures r.Ok? ==> r.value == a
  {
    hide Fits, Total, Tally;
    r := CheckedSub(a, b);
    if r.Ok? {
      var difference := r.value;
      forall k: nat ensures At(difference, k) + At(b, k) <= U64_MAX { CanonicalAt(a, k); }
      r := WrappingAdd(difference, b);
      AddBack(a, b, difference, r.value);
    }
  }

  /** Downsampling before or after the conversion gives the same sparse histogram, unless a coarse bucket overflows. */
  method DownsampleBothWays(h: Histogram, groupingPower: nat) returns (a: Outcome<Sparse>, b: Outcome<Sparse>)
    requires h.Valid()
    ensures a == Err(MaxPowerTooLow) <==> groupingPower >= h.config.groupingPower
    ensures b == Err(MaxPowerTooLow) <==> groupingPower >= h.config.groupingPower
    ensures a.Ok? ==> a == b
  {
    hide Fits, Canonical, At, Tally, Downsampled, Dense, New;
    var s := FromDense(h);
    a := Downsample(s, groupingPower);
    var coarse := h.Downsample(groupingPower);
    if !coarse.Ok? { return a, Err(MaxPowerTooLow); }
    var t := FromDense(coarse.value);
    b := Ok(t);
    if a.Ok? {
      SameCoarse(h.config, coarse.value.config, groupingPower);
      SparseDownsampleRefinesDense(s, coarse.value.config, a.value, t);
    }
  }

  /** A coarser configuration is determined by its grouping power. */
  lemma SameCoarse(fine: Config, coarse: Config, groupingPower: nat)
    requires Coarsens(fine, coarse) && coarse.groupingPower == groupingPower
    ensures New(groupingPower, fine.maxValuePower) == Ok(coarse)
  {
  }

  /** Two counters that do not add up in 64 bits. */
  method SumStops() returns (a: Sparse, b: Sparse, r: Outcome<Sparse>)
    ensures Canonical(a) && Canonical(b) && a.config == b.config && At(a, 0) + At(b, 0) > U64_MAX
    ensures r == Panic
  {
    var c := SmallConfig();
    hide Fits, Total;
    a, b := Sparse(c, [0], [U64_MAX]), Sparse(c, [0], [1]);
    OneBucket(c, U64_MAX);
    OneBucket(c, 1);
    r := WrappingAdd(a, b);
  }

  lemma OneBucket(c: Config, n: nat)
    ensures At(Sparse(c, [0], [n]), 0) == n
  {
    EmptyTally();
    TallyPush([], [], 0, n);
    assert [] + [0] == [0] && [] + [n] == [n];
  }

  function SmallConfig(): (c: Config)
    ensures Fits(c) && Total(c) > 0
  {
    assert IdealBuckets(0, 1) <= U32_MAX by { assert Pow2(0) == 1 && Pow2(1) == 2; }
    NewExact(0, 1);
    var c := New(0, 1).value;
    NonEmpty(c);
    c
  }
}
