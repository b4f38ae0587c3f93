/** Lists of inclusive `u64` ranges, the sets they stand for, and the value-level steps of inserting and
    removing (libs/shared/src/rangeset.rs). */
module Ranges {
  import opened Machine
  import opened Sequences

  datatype Range = Range(start: u64, end: u64)

  /** `overlaps`: both arguments are first put lowest to biggest. */
  function Overlaps(a: Range, b: Range): Option<Range> {
    var a := if a.start > a.end then Range(a.end, a.start) else a;
    var b := if b.start > b.end then Range(b.end, b.start) else b;
    if a.start <= b.end && b.start <= a.end
    then Some(Range(Max(a.start, b.start), Min(a.end, b.end)))
    else None
  }

  /** `contains`: all of `a` is inside `b`. */
  predicate Contains(a: Range, b: Range) {
    var a := if a.start > a.end then Range(a.end, a.start) else a;
    var b := if b.start > b.end then Range(b.end, b.start) else b;
    a.start >= b.start && a.end <= b.end
  }

  function SaturatingInc(x: u64): u64 {
    if x == U64_MAX then x else x + 1
  }

  function SaturatingDec(x: u64): u64 {
    if x == 0 then x else x - 1
  }

  // ----- The set a list of ranges stands for -----

  predicate In(x: int, r: Range) {
    r.start <= x <= r.end
  }

  ghost predicate Covers(s: seq<Range>, x: int) {
    exists i :: 0 <= i < |s| && In(x, s[i])
  }

  ghost function Interval(r: Range): iset<int> {
    iset x | In(x, r)
  }

  ghost function Elements(s: seq<Range>): iset<int> {
    iset x | Covers(s, x)
  }

  /** Overlapping, or next to each other with no number in between. */
  predicate Touching(a: Range, b: Range) {
    a.start <= b.end + 1 && b.start <= a.end + 1
  }

  predicate Overlapping(a: Range, b: Range) {
    a.start <= b.end && b.start <= a.end
  }

  ghost predicate Canonical(s: seq<Range>) {
    && (forall i :: 0 <= i < |s| ==> s[i].start <= s[i].end)
    && (forall i, j :: 0 <= i < j < |s| ==> !Touching(s[i], s[j]))
  }

  lemma RemoveAtBy(s: seq<Range>, i: nat, t: seq<Range>)
    requires i < |s| == |t| + 1
    requires forall k :: 0 <= k < i ==> t[k] == s[k]
    requires forall k :: i <= k < |t| ==> t[k] == s[k + 1]
    ensures t == RemoveAt(s, i)
  {
  }

  function Hull(a: Range, b: Range): Range {
    Range(Min(a.start, b.start), Max(a.end, b.end))
  }

  /** The saturating end points make the merge test of `insert` exact at both ends of `u64`. */
  lemma SaturationIsExact(a: Range, b: Range)
    requires a.start <= a.end && b.start <= b.end
    ensures Overlaps(Range(a.start, SaturatingInc(a.end)), Range(b.start, SaturatingInc(b.end))).Some?
            <==> Touching(a, b)
    ensures Overlaps(a, b).Some? <==> Overlapping(a, b)
  {
  }

  lemma TouchingSymmetric(a: Range, b: Range)
    ensures Touching(a, b) <==> Touching(b, a)
  {
  }

  lemma OverlappingSymmetric(a: Range, b: Range)
    ensures Overlapping(a, b) <==> Overlapping(b, a)
  {
  }

  lemma CoversRemoveAt(s: seq<Range>, i: nat, x: int)
    requires i < |s|
    ensures Covers(s, x) <==> Covers(RemoveAt(s, i), x) || In(x, s[i])
  {
    var t := RemoveAt(s, i);
    if Covers(s, x) {
      var k :| 0 <= k < |s| && In(x, s[k]);
      assert k < i ==> t[k] == s[k];
      assert k > i ==> t[k - 1] == s[k];
    }
    if Covers(t, x) {
      var k :| 0 <= k < |t| && In(x, t[k]);
      assert t[k] == if k < i then s[k] else s[k + 1];
    }
  }

  lemma CoversAppend(s: seq<Range>, r: Range, x: int)
    ensures Covers(s + [r], x) <==> Covers(s, x) || In(x, r)
  {
    assert (s + [r])[|s|] == r;
    if Covers(s, x) {
      var k :| 0 <= k < |s| && In(x, s[k]);
      assert (s + [r])[k] == s[k];
    }
  }

  lemma CoversUpdate(s: seq<Range>, i: nat, r: Range, x: int)
    requires i < |s|
    ensures Covers(s[i := r], x) <==> Covers(RemoveAt(s, i), x) || In(x, r)
  {
    CoversRemoveAt(s[i := r], i, x);
    assert RemoveAt(s[i := r], i) == RemoveAt(s, i);
  }

  // ----- Canonical lists are unique up to order -----

  /** A range all of whose elements are covered by a canonical list lies inside one entry. */
  lemma {:induction false} CoveredByOne(s: seq<Range>, r: Range, x: int) returns (i: nat)
    requires Canonical(s) && r.start <= x <= r.end
    requires forall y :: r.start <= y <= x ==> Covers(s, y)
    ensures i < |s| && s[i].start <= r.start && x <= s[i].end
    decreases x - r.start
  {
    assert Covers(s, x);
    var k :| 0 <= k < |s| && In(x, s[k]);
    i := k;
    if s[k].start > r.start {
      var j := CoveredByOne(s, r, x - 1);
      assert Touching(s[j], s[k]);
      i := j;
    }
  }

  lemma EntryShared(s: seq<Range>, t: seq<Range>, i: nat) returns (j: nat)
    requires Canonical(s) && Canonical(t) && Elements(s) == Elements(t) && i < |s|
    ensures j < |t| && t[j] == s[i]
  {
    forall y ensures Covers(s, y) <==> Covers(t, y) {
      assert y in Elements(s) <==> y in Elements(t);
    }
    forall y | s[i].start <= y <= s[i].end ensures Covers(t, y) {
      assert In(y, s[i]);
    }
    j := CoveredByOne(t, s[i], s[i].end);
    forall y | t[j].start <= y <= t[j].end ensures Covers(s, y) {
      assert In(y, t[j]);
    }
    var k := CoveredByOne(s, t[j], t[j].end);
    assert Touching(s[i], s[k]);
  }

  lemma CanonicalDistinct(s: seq<Range>)
    requires Canonical(s)
    ensures forall i, j :: 0 <= i < j < |s| ==> s[i] != s[j]
  {
  }

  lemma {:induction false} DistinctCount(s: seq<Range>, r: Range)
    requires forall i, j :: 0 <= i < j < |s| ==> s[i] != s[j]
    ensures multiset(s)[r] == if r in s then 1 else 0
  {
    if |s| == 0 {
    } else {
      var n := |s| - 1;
      assert s == s[..n] + [s[n]];
      DistinctCount(s[..n], r);
    }
  }

  /** Two canonical lists of the same set hold the same entries. */
  lemma CanonicalUnique(s: seq<Range>, t: seq<Range>)
    requires Canonical(s) && Canonical(t) && Elements(s) == Elements(t)
    ensures multiset(s) == multiset(t)
  {
    hide Canonical, Elements;
    CanonicalDistinct(s);
    CanonicalDistinct(t);
    forall r: Range
      ensures multiset(s)[r] == multiset(t)[r]
    {
      if r in s {
        var i :| 0 <= i < |s| && s[i] == r;
        var j := EntryShared(s, t, i);
      }
      if r in t {
        var i :| 0 <= i < |t| && t[i] == r;
        var j := EntryShared(t, s, i);
      }
      DistinctCount(s, r);
      DistinctCount(t, r);
    }
  }

  // ----- Insertion on values -----

  /** The entries `insert` leaves alone. */
  function Apart(s: seq<Range>, r: Range): seq<Range> {
    if |s| == 0 then []
    else
      var n := |s| - 1;
      Apart(s[..n], r) + (if Touching(s[n], r) then [] else [s[n]])
  }

  lemma {:induction false} ApartAppend(s: seq<Range>, t: seq<Range>, r: Range)
    ensures Apart(s + t, r) == Apart(s, r) + Apart(t, r)
    decreases |t|
  {
    if |t| == 0 {
      assert s + t == s;
    } else {
      var n := |t| - 1;
      assert (s + t)[..|s + t| - 1] == s + t[..n];
      ApartAppend(s, t[..n], r);
    }
  }

  lemma {:induction false} ApartSame(s: seq<Range>, q: Range, r: Range)
    requires forall i :: 0 <= i < |s| ==> (Touching(s[i], q) <==> Touching(s[i], r))
    ensures Apart(s, q) == Apart(s, r)
  {
    if |s| > 0 {
      ApartSame(s[..|s| - 1], q, r);
    }
  }

  lemma {:induction false} ApartAll(s: seq<Range>, r: Range)
    requires forall i :: 0 <= i < |s| ==> !Touching(s[i], r)
    ensures Apart(s, r) == s
  {
    if |s| > 0 {
      ApartAll(s[..|s| - 1], r);
      assert s == s[..|s| - 1] + [s[|s| - 1]];
    }
  }

  lemma HullTouching(s: seq<Range>, i: nat, r: Range, k: nat)
    requires Canonical(s) && i < |s| && k < |s| && k != i && r.start <= r.end && Touching(s[i], r)
    ensures Touching(s[k], Hull(r, s[i])) <==> Touching(s[k], r)
  {
    assert !Touching(s[k], s[i]);
  }

  lemma ApartOne(r: Range, q: Range)
    requires Touching(r, q)
    ensures Apart([r], q) == []
  {
  }

  /** Merging one touching entry into the range leaves the same entries to be left alone. */
  lemma ApartMerge(s: seq<Range>, i: nat, r: Range)
    requires Canonical(s) && i < |s| && r.start <= r.end && Touching(s[i], r)
    ensures Apart(RemoveAt(s, i), Hull(r, s[i])) == Apart(s, r)
  {
    hide Apart, Canonical, Touching, Hull;
    var h := Hull(r, s[i]);
    var a, b := s[..i], s[i + 1..];
    forall k: nat | k < |s| && k != i ensures Touching(s[k], h) <==> Touching(s[k], r) {
      HullTouching(s, i, r, k);
    }
    assert s == a + [s[i]] + b;
    ApartAppend(a + [s[i]], b, r);
    ApartAppend(a, [s[i]], r);
    ApartOne(s[i], r);
    ApartAppend(a, b, h);
    ApartSame(a, h, r);
    ApartSame(b, h, r);
  }

  lemma RemoveAtCanonical(s: seq<Range>, i: nat)
    requires Canonical(s) && i < |s|
    ensures Canonical(RemoveAt(s, i))
  {
  }

  lemma AppendCanonical(s: seq<Range>, r: Range)
    requires Canonical(s) && r.start <= r.end
    requires forall i :: 0 <= i < |s| ==> !Touching(s[i], r)
    ensures Canonical(s + [r])
  {
  }

  /** What the merge loop of `insert` keeps while it folds touching entries into the range. */
  ghost predicate Folding(s0: seq<Range>, r0: Range, s: seq<Range>, r: Range) {
    && Canonical(s) && r.start <= r.end
    && Apart(s, r) == Apart(s0, r0)
    && forall x :: Covers(s, x) || In(x, r) <==> Covers(s0, x) || In(x, r0)
  }

  lemma FoldOne(s0: seq<Range>, r0: Range, s: seq<Range>, r: Range, i: nat)
    requires Folding(s0, r0, s, r) && i < |s| && Touching(s[i], r)
    ensures Folding(s0, r0, RemoveAt(s, i), Hull(r, s[i]))
  {
    hide Apart, Covers;
    ApartMerge(s, i, r);
    RemoveAtCanonical(s, i);
    forall x
      ensures Covers(RemoveAt(s, i), x) || In(x, Hull(r, s[i])) <==> Covers(s, x) || In(x, r)
    {
      CoversRemoveAt(s, i, x);
    }
  }

  lemma FoldDone(s0: seq<Range>, r0: Range, s: seq<Range>, r: Range)
    requires Folding(s0, r0, s, r) && forall i :: 0 <= i < |s| ==> !Touching(s[i], r)
    ensures s == Apart(s0, r0) && Canonical(s + [r])
    ensures Elements(s + [r]) == Elements(s0) + Interval(r0)
  {
    hide Apart, Covers;
    ApartAll(s, r);
    AppendCanonical(s, r);
    forall x ensures Covers(s + [r], x) <==> Covers(s, x) || In(x, r) {
      CoversAppend(s, r, x);
    }
  }

  // ----- Removal on values -----

  /** The number of entries that still overlap `r`: the termination measure of `remove`. */
  function OverlapCount(s: seq<Range>, r: Range): nat {
    if |s| == 0 then 0
    else OverlapCount(s[..|s| - 1], r) + (if Overlapping(s[|s| - 1], r) then 1 else 0)
  }

  lemma {:induction false} OverlapCountAppend(s: seq<Range>, t: seq<Range>, r: Range)
    ensures OverlapCount(s + t, r) == OverlapCount(s, r) + OverlapCount(t, r)
    decreases |t|
  {
    if |t| == 0 {
      assert s + t == s;
    } else {
      var n := |t| - 1;
      assert (s + t)[..|s + t| - 1] == s + t[..n];
      OverlapCountAppend(s, t[..n], r);
    }
  }

  lemma OverlapCountOne(q: Range, r: Range)
    ensures OverlapCount([q], r) == if Overlapping(q, r) then 1 else 0
  {
  }

  lemma OverlapCountRemoveAt(s: seq<Range>, i: nat, r: Range)
    requires i < |s|
    ensures OverlapCount(s, r) == OverlapCount(RemoveAt(s, i), r) + (if Overlapping(s[i], r) then 1 else 0)
  {
    hide OverlapCount;
    var a, b := s[..i], s[i + 1..];
    assert s == a + [s[i]] + b;
    OverlapCountAppend(a + [s[i]], b, r);
    OverlapCountAppend(a, [s[i]], r);
    OverlapCountAppend(a, b, r);
    OverlapCountOne(s[i], r);
  }

  lemma OverlapCountUpdate(s: seq<Range>, i: nat, q: Range, r: Range)
    requires i < |s|
    ensures OverlapCount(s[i := q], r) == OverlapCount(RemoveAt(s, i), r) + (if Overlapping(q, r) then 1 else 0)
  {
    OverlapCountRemoveAt(s[i := q], i, r);
    assert RemoveAt(s[i := q], i) == RemoveAt(s, i);
  }

  /** `e` sticks out of `r` on both sides, so that removing `r` splits it. */
  predicate Splits(e: Range, r: Range) {
    e.start < r.start && r.end < e.end
  }

  ghost predicate HasSplit(s: seq<Range>, r: Range) {
    exists i :: 0 <= i < |s| && Splits(s[i], r)
  }

  /** What the loops of `remove` keep while they cut `r` out of the entries. `full` says that there is no
      room for a split. */
  ghost predicate Cutting(s0: seq<Range>, s: seq<Range>, r: Range, full: bool) {
    && Canonical(s)
    && (forall x :: !In(x, r) ==> (Covers(s, x) <==> Covers(s0, x)))
    && |s| <= |s0| + 1
    && (s == s0 || (!HasSplit(s, r) && !(HasSplit(s0, r) && full)))
  }

  /** An entry that overlaps `r` without being split by it is the witness that nothing is split. */
  lemma OverlapExcludesSplit(s: seq<Range>, i: nat, r: Range)
    requires Canonical(s) && i < |s| && r.start <= r.end && Overlapping(s[i], r) && !Splits(s[i], r)
    ensures !HasSplit(s, r)
  {
    if HasSplit(s, r) {
      var k :| 0 <= k < |s| && Splits(s[k], r);
      assert Touching(s[k], s[i]) && Touching(s[i], s[k]);
    }
  }

  lemma RemoveAtSplit(s: seq<Range>, i: nat, r: Range)
    requires i < |s| && !HasSplit(s, r)
    ensures !HasSplit(RemoveAt(s, i), r)
  {
    var t := RemoveAt(s, i);
    assert forall k :: 0 <= k < |t| ==> t[k] == if k < i then s[k] else s[k + 1];
  }

  lemma CutDelete(s0: seq<Range>, s: seq<Range>, r: Range, full: bool, i: nat)
    requires Cutting(s0, s, r, full) && r.start <= r.end && i < |s| && Overlapping(s[i], r)
    requires r.start <= s[i].start && s[i].end <= r.end
    ensures Cutting(s0, RemoveAt(s, i), r, full)
    ensures OverlapCount(RemoveAt(s, i), r) < OverlapCount(s, r)
  {
    assert |RemoveAt(s, i)| == |s| - 1;
    hide Covers, OverlapCount, Canonical, HasSplit, RemoveAt;
    OverlapCountRemoveAt(s, i, r);
    RemoveAtCanonical(s, i);
    OverlapExcludesSplit(s, i, r);
    RemoveAtSplit(s, i, r);
    forall x | !In(x, r) ensures Covers(RemoveAt(s, i), x) <==> Covers(s, x) {
      CoversRemoveAt(s, i, x);
    }
  }

  /** Replacing an entry that is cut at one end by what remains of it. */
  lemma CutTrim(s0: seq<Range>, s: seq<Range>, r: Range, full: bool, i: nat, e: Range)
    requires Cutting(s0, s, r, full) && r.start <= r.end && i < |s| && Overlapping(s[i], r) && !Splits(s[i], r)
    requires s[i].start <= e.start <= e.end <= s[i].end && !Overlapping(e, r)
    requires forall x :: In(x, s[i]) && !In(x, r) ==> In(x, e)
    ensures Cutting(s0, s[i := e], r, full)
    ensures OverlapCount(s[i := e], r) < OverlapCount(s, r)
  {
    hide Covers, OverlapCount, Canonical;
    OverlapCountRemoveAt(s, i, r);
    OverlapCountUpdate(s, i, e, r);
    ShrinkCanonical(s, i, e);
    OverlapExcludesSplit(s, i, r);
    forall x | !In(x, r) ensures Covers(s[i := e], x) <==> Covers(s, x) {
      CoversRemoveAt(s, i, x);
      CoversUpdate(s, i, e, x);
    }
  }

  lemma ShrinkCanonical(s: seq<Range>, i: nat, e: Range)
    requires Canonical(s) && i < |s| && s[i].start <= e.start <= e.end <= s[i].end
    ensures Canonical(s[i := e])
  {
  }

  lemma CutSplit(s0: seq<Range>, s: seq<Range>, r: Range, full: bool, i: nat, low: Range, high: Range)
    requires Cutting(s0, s, r, full) && r.start <= r.end && i < |s| && Splits(s[i], r) && !full
    requires low == Range(s[i].start, r.start - 1) && high == Range(r.end + 1, s[i].end)
    ensures Cutting(s0, s[i := high] + [low], r, full)
    ensures OverlapCount(s[i := high] + [low], r) < OverlapCount(s, r)
  {
    CuttingSplit(s0, s, r, full, i);
    hide Covers, OverlapCount, Canonical, HasSplit;
    var t := s[i := high];
    OverlapCountRemoveAt(s, i, r);
    OverlapCountUpdate(s, i, high, r);
    OverlapCountAppend(t, [low], r);
    OverlapCountOne(low, r);
    SplitCanonical(s, i, low, high);
    NoSecondSplit(s, i, r, low, high);
    forall x | !In(x, r) ensures Covers(t + [low], x) <==> Covers(s, x) {
      CoversRemoveAt(s, i, x);
      CoversUpdate(s, i, high, x);
      CoversAppend(t, low, x);
    }
  }

  lemma SplitCanonical(s: seq<Range>, i: nat, low: Range, high: Range)
    requires Canonical(s) && i < |s| && low.start <= low.end && high.start <= high.end
    requires s[i].start == low.start && low.end + 1 < high.start && high.end == s[i].end
    ensures Canonical(s[i := high] + [low])
  {
    var t := s[i := high];
    ShrinkCanonical(s, i, high);
    forall k | 0 <= k < |t| ensures !Touching(t[k], low) {
      if k != i {
        assert !Touching(s[k], s[i]);
      }
    }
    AppendCanonical(t, low);
  }

  lemma NoSecondSplit(s: seq<Range>, i: nat, r: Range, low: Range, high: Range)
    requires Canonical(s) && i < |s| && Splits(s[i], r) && r.start <= r.end
    requires low == Range(s[i].start, r.start - 1) && high == Range(r.end + 1, s[i].end)
    ensures !HasSplit(s[i := high] + [low], r)
  {
    var t := s[i := high] + [low];
    forall k | 0 <= k < |t| ensures !Splits(t[k], r) {
      if k < |s| && k != i {
        assert !Touching(s[k], s[i]);
      }
    }
  }

  lemma CutDone(s0: seq<Range>, s: seq<Range>, r: Range, full: bool)
    requires Cutting(s0, s, r, full) && r.start <= r.end
    requires forall i :: 0 <= i < |s| ==> !Overlapping(s[i], r)
    ensures Canonical(s) && |s| <= |s0| + 1 && Elements(s) == Elements(s0) - Interval(r)
    ensures !(HasSplit(s0, r) && full)
  {
  }

  lemma ElementsSnoc(s: seq<Range>, i: nat)
    requires i < |s|
    ensures Elements(s[..i + 1]) == Elements(s[..i]) + Interval(s[i])
  {
    hide Covers;
    assert s[..i + 1] == s[..i] + [s[i]];
    forall x ensures Covers(s[..i + 1], x) <==> Covers(s[..i], x) || In(x, s[i]) {
      CoversAppend(s[..i], s[i], x);
    }
  }

  lemma FoldingStart(s: seq<Range>, r: Range)
    requires Canonical(s) && r.start <= r.end
    ensures Folding(s, r, s, r)
  {
  }

  lemma CuttingStart(s: seq<Range>, r: Range, full: bool)
    requires Canonical(s)
    ensures Cutting(s, s, r, full)
  {
  }

  lemma FoldingValid(s0: seq<Range>, r0: Range, s: seq<Range>, r: Range, i: nat)
    requires Folding(s0, r0, s, r) && i < |s|
    ensures s[i].start <= s[i].end && r.start <= r.end
  {
  }

  lemma CuttingValid(s0: seq<Range>, s: seq<Range>, r: Range, full: bool, i: nat)
    requires Cutting(s0, s, r, full) && i < |s|
    ensures s[i].start <= s[i].end
  {
  }

  /** A split can only be met on the untouched list. */
  lemma CuttingSplit(s0: seq<Range>, s: seq<Range>, r: Range, full: bool, i: nat)
    requires Cutting(s0, s, r, full) && i < |s| && Splits(s[i], r)
    ensures s == s0 && HasSplit(s0, r)
  {
  }

  // ----- Several cuts in a row -----

  /** What is left of an entry when `r` is cut out. */
  function Pieces(e: Range, r: Range): seq<Range> {
    if !Overlapping(e, r) then [e]
    else (if e.start < r.start then [Range(e.start, r.start - 1)] else [])
         + if r.end < e.end then [Range(r.end + 1, e.end)] else []
  }

  /** The entries that are left when `r` is cut out of all of them. */
  function Without(s: seq<Range>, r: Range): seq<Range> {
    if |s| == 0 then [] else Without(s[..|s| - 1], r) + Pieces(s[|s| - 1], r)
  }

  /** No cut splits an entry while all `capacity` entries are in use. */
  ghost predicate CutsFit(s: seq<Range>, cuts: seq<Range>, capacity: nat)
    decreases |cuts|
  {
    cuts == [] || (!(|s| == capacity && HasSplit(s, cuts[0])) && CutsFit(Without(s, cuts[0]), cuts[1..], capacity))
  }

  predicate Inside(a: Range, b: Range) {
    b.start <= a.start <= a.end <= b.end
  }

  lemma PiecesExact(e: Range, r: Range)
    requires e.start <= e.end && r.start <= r.end
    ensures Canonical(Pieces(e, r)) && forall k :: 0 <= k < |Pieces(e, r)| ==> Inside(Pieces(e, r)[k], e)
    ensures forall x :: Covers(Pieces(e, r), x) <==> In(x, e) && !In(x, r)
  {
    var p := Pieces(e, r);
    forall x ensures Covers(p, x) <==> In(x, e) && !In(x, r) {
      if In(x, e) && !In(x, r) {
        if !Overlapping(e, r) || x < r.start { assert In(x, p[0]); } else { assert In(x, p[|p| - 1]); }
      }
    }
  }

  /** Every entry that is left lies in an entry of the list. */
  ghost predicate Parts(w: seq<Range>, s: seq<Range>) {
    forall k :: 0 <= k < |w| ==> PartOf(w[k], s)
  }

  ghost predicate PartOf(a: Range, s: seq<Range>) {
    exists i :: 0 <= i < |s| && Inside(a, s[i])
  }

  lemma CanonicalJoin(w: seq<Range>, p: seq<Range>, s: seq<Range>, e: Range)
    requires Canonical(s + [e]) && Canonical(w) && Canonical(p) && Parts(w, s)
    requires forall k :: 0 <= k < |p| ==> Inside(p[k], e)
    ensures Canonical(w + p) && Parts(w + p, s + [e])
  {
    var t, c := s + [e], w + p;
    forall k | 0 <= k < |c| ensures PartOf(c[k], t) {
      if k < |w| {
        assert PartOf(w[k], s);
        var i :| 0 <= i < |s| && Inside(w[k], s[i]);
        assert Inside(c[k], t[i]);
      } else {
        assert Inside(c[k], t[|s|]);
      }
    }
    forall j, k | 0 <= j < |w| && 0 <= k < |p| ensures !Touching(w[j], p[k]) {
      assert PartOf(w[j], s);
      var i :| 0 <= i < |s| && Inside(w[j], s[i]);
      assert !Touching(t[i], t[|s|]);
    }
  }

  lemma CoversJoin(a: seq<Range>, b: seq<Range>, x: int)
    ensures Covers(a + b, x) <==> Covers(a, x) || Covers(b, x)
  {
    if Covers(a, x) {
      var i :| 0 <= i < |a| && In(x, a[i]);
      assert (a + b)[i] == a[i];
    }
    if Covers(b, x) {
      var i :| 0 <= i < |b| && In(x, b[i]);
      assert (a + b)[|a| + i] == b[i];
    }
  }

  lemma {:induction false} WithoutParts(s: seq<Range>, r: Range)
    requires Canonical(s) && r.start <= r.end
    ensures Canonical(Without(s, r)) && Parts(Without(s, r), s)
    ensures forall x :: Covers(Without(s, r), x) <==> Covers(s, x) && !In(x, r)
    decreases |s|
  {
    if |s| == 0 {
    } else {
      hide Canonical, Covers, Pieces, Parts;
      var n := |s| - 1;
      var pre, e := s[..n], s[n];
      assert s == pre + [e];
      PrefixCanonical(s, n);
      WithoutParts(pre, r);
      PiecesExact(e, r);
      CanonicalJoin(Without(pre, r), Pieces(e, r), pre, e);
      forall x ensures Covers(Without(s, r), x) <==> Covers(s, x) && !In(x, r) {
        CoversJoin(Without(pre, r), Pieces(e, r), x);
        CoversAppend(pre, e, x);
      }
    }
  }

  lemma PrefixCanonical(s: seq<Range>, n: nat)
    requires Canonical(s) && n < |s|
    ensures Canonical(s[..n]) && s[n].start <= s[n].end
  {
  }

  lemma WithoutExact(s: seq<Range>, r: Range)
    requires Canonical(s) && r.start <= r.end
    ensures Canonical(Without(s, r)) && Elements(Without(s, r)) == Elements(s) - Interval(r)
  {
    WithoutParts(s, r);
  }

  /** Lists of the same set are equally long and split by the same cuts. */
  lemma SameSplits(s: seq<Range>, t: seq<Range>, r: Range)
    requires Canonical(s) && Canonical(t) && Elements(s) == Elements(t)
    ensures |s| == |t| && (HasSplit(s, r) <==> HasSplit(t, r))
  {
    CanonicalUnique(s, t);
    assert |multiset(s)| == |multiset(t)|;
    forall i | 0 <= i < |s| ensures s[i] in t { assert s[i] in multiset(t); }
    forall i | 0 <= i < |t| ensures t[i] in s { assert t[i] in multiset(s); }
  }
}
