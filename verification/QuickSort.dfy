/** The in-place quicksort (forked-libs/staticvec/src/utils.rs): Hoare partition with unchecked scans,
    recursion on the smaller side, iteration on the larger. */
module QuickSort {
  import opened Machine

  ghost predicate Irreflexive<T(!new)>(lt: (T, T) -> bool) {
    forall x :: !lt(x, x)
  }

  /** `<` of a total order, where equal-ranking elements need not be identical. */
  ghost predicate StrictWeakOrder<T(!new)>(lt: (T, T) -> bool) {
    && (forall x, y :: lt(x, y) ==> !lt(y, x))
    && (forall x, y, z :: !lt(y, x) && !lt(z, y) ==> !lt(z, x))
  }

  /** `t` is `s` with the elements at `l..=h` rearranged. */
  ghost predicate Rearranged<T>(s: seq<T>, t: seq<T>, l: int, h: int) {
    && |s| == |t| && 0 <= l && h < |s| && l <= h + 1
    && (forall k :: 0 <= k < l || h < k < |s| ==> t[k] == s[k])
    && multiset(t[l..h + 1]) == multiset(s[l..h + 1])
  }

  /** The elements at `lo..=hi` are in order, except that pairs inside the window `l..=h` are not compared. */
  ghost predicate OrderedOutside<T>(lt: (T, T) -> bool, s: seq<T>, lo: int, hi: int, l: int, h: int) {
    && 0 <= lo && hi < |s|
    && forall p, q :: lo <= p < q <= hi && !(l <= p && q <= h) ==> !lt(s[q], s[p])
  }

  ghost predicate Sorted<T>(lt: (T, T) -> bool, s: seq<T>, lo: int, hi: int) {
    && 0 <= lo && hi < |s|
    && forall p, q :: lo <= p < q <= hi ==> !lt(s[q], s[p])
  }

  /** Not above the pivot: passed by the upward scan, or swapped there. */
  predicate LeftOk<T>(lt: (T, T) -> bool, pivot: T, x: T) {
    lt(x, pivot) || !lt(pivot, x)
  }

  predicate RightOk<T>(lt: (T, T) -> bool, pivot: T, x: T) {
    lt(pivot, x) || !lt(x, pivot)
  }

  /** What a partition leaves: nothing above the pivot before `i`, nothing below it after `j`. */
  ghost predicate Split<T>(lt: (T, T) -> bool, s: seq<T>, low: int, high: int, i: int, j: int, pivot: T) {
    && 0 <= low && high < |s| && low <= i <= high + 1 && low - 1 <= j <= high
    && (forall k :: low <= k < i ==> LeftOk(lt, pivot, s[k]))
    && (forall k :: j < k <= high ==> RightOk(lt, pivot, s[k]))
  }

  // ----- Rearrangements -----

  lemma SwapRearranges<T>(s: seq<T>, t: seq<T>, l: int, h: int, i: int, j: int)
    requires Rearranged(s, t, l, h) && l <= i <= h && l <= j <= h
    ensures Rearranged(s, t[i := t[j]][j := t[i]], l, h)
  {
    var u := t[i := t[j]][j := t[i]];
    var w := t[l..h + 1];
    assert u[l..h + 1] == w[i - l := w[j - l]][j - l := w[i - l]];
  }

  lemma ThreeParts<T>(s: seq<T>, a: int, b: int, c: int, d: int)
    requires 0 <= a <= b <= c <= d <= |s|
    ensures s[a..d] == s[a..b] + s[b..c] + s[c..d]
  {
  }

  lemma RearrangedTrans<T>(s: seq<T>, t: seq<T>, u: seq<T>, l: int, h: int, l': int, h': int)
    requires Rearranged(s, t, l, h) && Rearranged(t, u, l', h') && l <= l' && h' <= h
    ensures Rearranged(s, u, l, h)
  {
    RearrangedWider(t, u, l, h, l', h');
  }

  lemma RearrangedWider<T>(t: seq<T>, u: seq<T>, l: int, h: int, l': int, h': int)
    requires Rearranged(t, u, l', h') && 0 <= l <= l' && h' <= h < |t|
    ensures Rearranged(t, u, l, h)
  {
    ThreeParts(t, l, l', h' + 1, h + 1);
    ThreeParts(u, l, l', h' + 1, h + 1);
    assert t[l..l'] == u[l..l'] && t[h' + 1..h + 1] == u[h' + 1..h + 1];
  }

  lemma RearrangedFrom<T>(s: seq<T>, t: seq<T>, l: int, h: int, k: int) returns (k': int)
    requires Rearranged(s, t, l, h) && l <= k <= h
    ensures l <= k' <= h && s[k'] == t[k]
  {
    assert t[l..h + 1][k - l] in multiset(t[l..h + 1]);
    assert t[k] in multiset(s[l..h + 1]);
    assert t[k] in s[l..h + 1];
    var m :| 0 <= m < |s[l..h + 1]| && s[l..h + 1][m] == t[k];
    k' := l + m;
  }

  /** Rearranging the window does not disturb the order around it. */
  lemma RearrangedKeepsOrder<T>(lt: (T, T) -> bool, s: seq<T>, t: seq<T>, lo: int, hi: int, l: int, h: int)
    requires OrderedOutside(lt, s, lo, hi, l, h) && lo <= l && h <= hi && Rearranged(s, t, l, h)
    ensures OrderedOutside(lt, t, lo, hi, l, h)
  {
    forall p, q | lo <= p < q <= hi && !(l <= p && q <= h)
      ensures !lt(t[q], t[p])
    {
      if l <= p <= h {
        var p' := RearrangedFrom(s, t, l, h, p);
      } else if l <= q <= h {
        var q' := RearrangedFrom(s, t, l, h, q);
      }
    }
  }

  /** Rearranging one side of a partition leaves it a partition. */
  lemma RearrangedKeepsSplit<T>(lt: (T, T) -> bool, s: seq<T>, t: seq<T>, low: int, high: int, i: int, j: int, pivot: T,
                                l: int, h: int)
    requires Split(lt, s, low, high, i, j, pivot) && j < i && Rearranged(s, t, l, h)
    requires (l == low && h == j) || (l == i && h == high)
    ensures Split(lt, t, low, high, i, j, pivot)
  {
    forall k | low <= k < i ensures LeftOk(lt, pivot, t[k]) {
      if l <= k <= h { var k' := RearrangedFrom(s, t, l, h, k); }
    }
    forall k | j < k <= high ensures RightOk(lt, pivot, t[k]) {
      if l <= k <= h { var k' := RearrangedFrom(s, t, l, h, k); }
    }
  }

  /** Across a partition of an ordered domain every pair is in order, unless both are on the same side. */
  lemma SplitOrders<T(!new)>(lt: (T, T) -> bool, s: seq<T>, low: int, high: int, i: int, j: int, pivot: T, p: int, q: int)
    requires StrictWeakOrder(lt) && Split(lt, s, low, high, i, j, pivot) && j < i
    requires low <= p < q <= high && p < i && j < q
    ensures !lt(s[q], s[p])
  {
    assert LeftOk(lt, pivot, s[p]) && RightOk(lt, pivot, s[q]);
    assert !lt(pivot, s[p]) && !lt(s[q], pivot);
  }

  /** Once the left side is sorted, only the right side is left to do. */
  lemma NarrowToRight<T(!new)>(lt: (T, T) -> bool, s: seq<T>, lo: int, hi: int, low: int, high: int, i: int, j: int, pivot: T)
    requires StrictWeakOrder(lt) && OrderedOutside(lt, s, lo, hi, low, high) && lo <= low && high <= hi
    requires Split(lt, s, low, high, i, j, pivot) && j < i && Sorted(lt, s, low, j)
    ensures OrderedOutside(lt, s, lo, hi, i, high)
  {
    forall p, q | lo <= p < q <= hi && !(i <= p && q <= high)
      ensures !lt(s[q], s[p])
    {
      if low <= p && q <= high && j < q {
        SplitOrders(lt, s, low, high, i, j, pivot, p, q);
      }
    }
  }

  lemma NarrowToLeft<T(!new)>(lt: (T, T) -> bool, s: seq<T>, lo: int, hi: int, low: int, high: int, i: int, j: int, pivot: T)
    requires StrictWeakOrder(lt) && OrderedOutside(lt, s, lo, hi, low, high) && lo <= low && high <= hi
    requires Split(lt, s, low, high, i, j, pivot) && j < i && Sorted(lt, s, i, high)
    ensures OrderedOutside(lt, s, lo, hi, low, j)
  {
    forall p, q | lo <= p < q <= hi && !(low <= p && q <= j)
      ensures !lt(s[q], s[p])
    {
      if low <= p && q <= high && p < i {
        SplitOrders(lt, s, low, high, i, j, pivot, p, q);
      }
    }
  }

  // ----- The algorithm -----

  /** The upward scan, with an element ahead that stops it. */
  method ScanUp<T>(values: array<T>, lt: (T, T) -> bool, p: T, i0: int, ghost stop: int) returns (i: int)
    requires 0 <= i0 <= stop < values.Length && !lt(values[stop], p)
    ensures i0 <= i <= stop && !lt(values[i], p)
    ensures forall k :: i0 <= k < i ==> lt(values[k], p)
  {
    i := i0;
    while lt(values[i], p)
      invariant i0 <= i <= stop
      invariant forall k :: i0 <= k < i ==> lt(values[k], p)
      decreases stop - i
    {
      i := i + 1;
    }
  }

  method ScanDown<T>(values: array<T>, lt: (T, T) -> bool, p: T, j0: int, ghost stop: int) returns (j: int)
    requires 0 <= stop <= j0 < values.Length && !lt(p, values[stop])
    ensures stop <= j <= j0 && !lt(p, values[j])
    ensures forall k :: j < k <= j0 ==> lt(p, values[k])
  {
    j := j0;
    while lt(p, values[j])
      invariant stop <= j <= j0
      invariant forall k :: j < k <= j0 ==> lt(p, values[k])
      decreases j - stop
    {
      j := j - 1;
    }
  }

  lemma ScansSplit<T>(lt: (T, T) -> bool, s: seq<T>, low: int, high: int, i0: int, j0: int, i: int, j: int, pivot: T)
    requires Split(lt, s, low, high, i0, j0, pivot) && i0 <= i <= high && low <= j <= j0
    requires forall k :: i0 <= k < i ==> lt(s[k], pivot)
    requires forall k :: j < k <= j0 ==> lt(pivot, s[k])
    ensures Split(lt, s, low, high, i, j, pivot)
  {
  }

  lemma SwapSplits<T>(lt: (T, T) -> bool, s: seq<T>, low: int, high: int, i: int, j: int, pivot: T)
    requires Split(lt, s, low, high, i, j, pivot) && low <= i <= j <= high
    requires !lt(s[i], pivot) && !lt(pivot, s[j])
    ensures Split(lt, s[i := s[j]][j := s[i]], low, high, i + 1, j - 1, pivot)
  {
  }

  method Swap<T>(values: array<T>, i: int, j: int)
    requires 0 <= i < values.Length && 0 <= j < values.Length
    modifies values
    ensures values[..] == old(values[..])[i := old(values[j])][j := old(values[i])]
  {
    if i != j {
      var q := values[i];
      values[i] := values[j];
      values[j] := q;
    }
  }

  /** The partition in progress: `t` is `s` rearranged, split at the two scan positions, and an element that
      stops each scan lies ahead of it. */
  ghost predicate Parting<T>(lt: (T, T) -> bool, s: seq<T>, t: seq<T>, low: int, high: int, i: int, j: int, p: T,
                             stopI: int, stopJ: int) {
    && Rearranged(s, t, low, high) && Split(lt, t, low, high, i, j, p)
    && low <= i <= stopI <= high && low <= stopJ <= j <= high
    && !lt(t[stopI], p) && !lt(p, t[stopJ])
    && (stopI == stopJ || (low < i && j < high))
  }

  lemma PartingStart<T>(lt: (T, T) -> bool, s: seq<T>, low: int, high: int, mid: int)
    requires 0 <= low <= mid <= high < |s| && !lt(s[mid], s[mid])
    ensures Parting(lt, s, s, low, high, low, high, s[mid], mid, mid)
  {
  }

  /** After both scans: either the positions have crossed and the partition is complete, or the two elements
      are swapped and become the next stops. */
  lemma PartingStep<T>(lt: (T, T) -> bool, s: seq<T>, t: seq<T>, low: int, high: int, i0: int, j0: int, p: T,
                       stopI: int, stopJ: int, i: int, j: int)
    requires Parting(lt, s, t, low, high, i0, j0, p, stopI, stopJ)
    requires i0 <= i <= stopI && !lt(t[i], p) && forall k :: i0 <= k < i ==> lt(t[k], p)
    requires stopJ <= j <= j0 && !lt(p, t[j]) && forall k :: j < k <= j0 ==> lt(p, t[k])
    ensures i > j ==> Parted(lt, s, t, low, high, i, j, p)
    ensures i <= j ==>
              var u := t[i := t[j]][j := t[i]];
              && (i + 1 > j - 1 ==> Parted(lt, s, u, low, high, i + 1, j - 1, p))
              && (i + 1 <= j - 1 ==> Parting(lt, s, u, low, high, i + 1, j - 1, p, j, i))
  {
    ScansSplit(lt, t, low, high, i0, j0, i, j, p);
    if i <= j {
      SwapSplits(lt, t, low, high, i, j, p);
      SwapRearranges(s, t, low, high, i, j);
      hide Rearranged, Split;
    }
  }

  ghost predicate Parted<T>(lt: (T, T) -> bool, s: seq<T>, t: seq<T>, low: int, high: int, i: int, j: int, p: T) {
    && Rearranged(s, t, low, high) && Split(lt, t, low, high, i, j, p)
    && low < i <= high + 1 && low - 1 <= j < high && j < i
  }

  lemma PartingBounds<T>(lt: (T, T) -> bool, s: seq<T>, t: seq<T>, low: int, high: int, i: int, j: int, p: T,
                         stopI: int, stopJ: int)
    requires Parting(lt, s, t, low, high, i, j, p, stopI, stopJ)
    ensures 0 <= low <= i <= stopI <= high < |t| && low <= stopJ <= j <= high
    ensures !lt(t[stopI], p) && !lt(p, t[stopJ])
  {
  }

  /** One pass of the partition loop. The scans carry no bounds test: an element that stops them is always
      ahead, first the pivot itself, later an element swapped there. */
  method Partition<T(!new)>(values: array<T>, lt: (T, T) -> bool, low: int, high: int)
    returns (i: int, j: int, ghost pivot: T)
    requires Irreflexive(lt) && 0 <= low <= high < values.Length
    modifies values
    ensures Parted(lt, old(values[..]), values[..], low, high, i, j, pivot)
  {
    ghost var s := values[..];
    var mid := low + (high - low) / 2;
    i, j := low, high;
    var p := values[mid];
    pivot := p;
    ghost var stopI, stopJ := mid, mid;
    PartingStart(lt, s, low, high, mid);
    hide *;
    while true
      invariant Parting(lt, s, values[..], low, high, i, j, p, stopI, stopJ)
      decreases j - i
    {
      ghost var i0, j0, t := i, j, values[..];
      PartingBounds(lt, s, t, low, high, i, j, p, stopI, stopJ);
      i := ScanUp(values, lt, p, i, stopI);
      j := ScanDown(values, lt, p, j, stopJ);
      PartingStep(lt, s, t, low, high, i0, j0, p, stopI, stopJ, i, j);
      if i <= j {
        Swap(values, i, j);
        stopI, stopJ := j, i;
        i, j := i + 1, j - 1;
      }
      if i > j { break; }
    }
  }

  /** For any irreflexive comparison (floats with NaN included) the call terminates, touches only `low..=high`
      and rearranges it; for a strict weak order it sorts. `depth` counts nested calls. */
  method QuickSortInternal<T(!new)>(values: array<T>, lt: (T, T) -> bool, low0: int, high0: int)
    returns (ghost depth: nat)
    requires Irreflexive(lt) && 0 <= low0 <= high0 < values.Length
    modifies values
    ensures Rearranged(old(values[..]), values[..], low0, high0)
    ensures StrictWeakOrder(lt) ==> Sorted(lt, values[..], low0, high0)
    ensures Pow2(depth) <= 2 * (high0 - low0 + 1)
    decreases high0 - low0
  {
    ghost var s := values[..];
    var low, high := low0, high0;
    depth := 1;
    Pow2Values1();
    RearrangedRefl(s, low, high);
    hide Rearranged, Split, Parted, Sorted, OrderedOutside, StrictWeakOrder, Pow2;
    OrderedStart(lt, s, low, high);
    while true
      invariant low0 <= low <= high <= high0
      invariant Rearranged(s, values[..], low0, high0)
      invariant StrictWeakOrder(lt) ==> OrderedOutside(lt, values[..], low0, high0, low, high)
      invariant Pow2(depth) <= 2 * (high0 - low0 + 1)
      decreases high - low
    {
      ghost var before := values[..];
      var i, j;
      ghost var pivot;
      i, j, pivot := Partition(values, lt, low, high);
      ghost var parted := values[..];
      PartedIs(lt, before, parted, low, high, i, j, pivot);
      RearrangedTrans(s, before, parted, low0, high0, low, high);
      if StrictWeakOrder(lt) {
        RearrangedKeepsOrder(lt, before, parted, low0, high0, low, high);
      }
      ghost var nested := 0;
      if j - low < high - i {
        if low < j {
          nested := QuickSortInternal(values, lt, low, j);
          SideSorted(lt, s, parted, values[..], low0, high0, low, high, i, j, pivot, low, j);
        } else {
          SideTrivial(lt, parted, low, j);
        }
        if StrictWeakOrder(lt) {
          NarrowToRight(lt, values[..], low0, high0, low, high, i, j, pivot);
        }
        low := i;
      } else {
        if i < high {
          nested := QuickSortInternal(values, lt, i, high);
          SideSorted(lt, s, parted, values[..], low0, high0, low, high, i, j, pivot, i, high);
        } else {
          SideTrivial(lt, parted, i, high);
        }
        if StrictWeakOrder(lt) {
          NarrowToLeft(lt, values[..], low0, high0, low, high, i, j, pivot);
        }
        high := j;
      }
      Pow2Succ(nested);
      Pow2Zero();
      depth := Max(depth, nested + 1);
      if low >= high { break; }
    }
    if StrictWeakOrder(lt) {
      OrderedDone(lt, values[..], low0, high0, low, high);
    }
  }

  lemma PartedIs<T>(lt: (T, T) -> bool, s: seq<T>, t: seq<T>, low: int, high: int, i: int, j: int, p: T)
    requires Parted(lt, s, t, low, high, i, j, p)
    ensures Rearranged(s, t, low, high) && Split(lt, t, low, high, i, j, p)
    ensures low < i <= high + 1 && low - 1 <= j < high && j < i
  {
  }

  lemma Pow2Values1()
    ensures Pow2(1) == 2
  {
  }

  lemma RearrangedRefl<T>(s: seq<T>, l: int, h: int)
    requires 0 <= l <= h < |s|
    ensures Rearranged(s, s, l, h)
  {
  }

  lemma OrderedStart<T>(lt: (T, T) -> bool, s: seq<T>, lo: int, hi: int)
    requires 0 <= lo <= hi < |s|
    ensures OrderedOutside(lt, s, lo, hi, lo, hi)
  {
  }

  lemma OrderedDone<T>(lt: (T, T) -> bool, s: seq<T>, lo: int, hi: int, l: int, h: int)
    requires OrderedOutside(lt, s, lo, hi, l, h) && l >= h
    ensures Sorted(lt, s, lo, hi)
  {
  }

  /** A side with at most one element needs no call. */
  lemma SideTrivial<T>(lt: (T, T) -> bool, s: seq<T>, l: int, h: int)
    requires 0 <= l && h < |s| && l >= h
    ensures Sorted(lt, s, l, h)
  {
  }

  /** What the nested call on one side preserves of the whole. */
  lemma SideSorted<T(!new)>(lt: (T, T) -> bool, s: seq<T>, t: seq<T>, u: seq<T>, lo: int, hi: int,
                            low: int, high: int, i: int, j: int, pivot: T, l: int, h: int)
    requires Rearranged(s, t, lo, hi) && Rearranged(t, u, l, h) && lo <= low <= high <= hi
    requires Split(lt, t, low, high, i, j, pivot) && j < i
    requires (l == low && h == j) || (l == i && h == high)
    requires StrictWeakOrder(lt) ==> OrderedOutside(lt, t, lo, hi, low, high)
    ensures Rearranged(s, u, lo, hi) && Split(lt, u, low, high, i, j, pivot)
    ensures StrictWeakOrder(lt) ==> OrderedOutside(lt, u, lo, hi, low, high)
  {
    assert low <= l && h <= high && l <= h + 1;
    RearrangedTrans(s, t, u, lo, hi, l, h);
    RearrangedKeepsSplit(lt, t, u, low, high, i, j, pivot, l, h);
    if StrictWeakOrder(lt) {
      RearrangedRefl(t, low, high);
      RearrangedTrans(t, t, u, low, high, l, h);
      RearrangedKeepsOrder(lt, t, u, lo, hi, low, high);
    }
  }
}
