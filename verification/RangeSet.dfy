/** The fixed-capacity set of ranges and its allocator (libs/shared/src/rangeset.rs). */
module RangeSets {
  import opened Machine
  import opened Sequences
  import opened Ranges
  import opened RangeAllocation

  /** What became of an entry that `remove` works on; `Full` is the failed assertion on a split. */
  datatype Cut = Trimmed | Restart | Full

  /** `Panicked` is the failed assertion of `remove`, when cutting the block out needs one more entry than fits. */
  datatype Allocated = NoMemory | At(ptr: nat) | Panicked

  class RangeSet {
    const ranges: array<Range>
    var inUse: nat

    ghost predicate Valid()
      reads this, ranges
    {
      inUse <= ranges.Length && Canonical(ranges[..inUse])
    }

    function Entries(): seq<Range>
      requires inUse <= ranges.Length
      reads this, ranges
    {
      ranges[..inUse]
    }

    constructor (capacity: nat)
      ensures Valid() && Entries() == [] && ranges.Length == capacity && fresh(ranges)
    {
      ranges := new Range[capacity](_ => Range(0, 0));
      inUse := 0;
    }

    method Delete(idx: nat)
      requires idx < inUse <= ranges.Length
      modifies this`inUse, ranges
      ensures inUse == old(inUse) - 1 && Entries() == RemoveAt(old(Entries()), idx)
    {
      hide RemoveAt;
      ghost var s := Entries();
      for ii := idx to inUse - 1
        invariant inUse == old(inUse)
        invariant forall k :: 0 <= k < idx || ii < k < inUse ==> ranges[k] == s[k]
        invariant forall k :: idx <= k < ii ==> ranges[k] == s[k + 1]
        invariant ranges[ii] == s[idx]
      {
        ranges[ii], ranges[ii + 1] := ranges[ii + 1], ranges[ii];
      }
      inUse := inUse - 1;
      RemoveAtBy(s, idx, Entries());
    }

    /** Set union. Fails on an inverted range, or when the range and the entries apart from it do not fit. */
    method Insert(r: Range) returns (ok: bool)
      requires Valid()
      modifies this`inUse, ranges
      ensures ok <==> r.start <= r.end && |Apart(old(Entries()), r)| < ranges.Length
      ensures ok ==> Valid() && inUse > 0
                     && Entries()[..inUse - 1] == Apart(old(Entries()), r)
                     && Elements(Entries()) == old(Elements(Entries())) + Interval(r)
    {
      hide Folding, Apart, Canonical, Covers, Elements, Interval, Overlaps, Touching, Hull, RemoveAt, SaturatingInc;
      if r.start > r.end { return false; }
      var range := r;
      ghost var s0 := Entries();
      FoldingStart(s0, r);
      label tryMerges: while true
        invariant inUse <= ranges.Length && Folding(s0, r, Entries(), range)
        decreases inUse
      {
        ghost var n := inUse;
        for ii := 0 to inUse
          invariant n == inUse <= ranges.Length && Folding(s0, r, Entries(), range)
          invariant forall k :: 0 <= k < ii ==> !Touching(ranges[k], range)
        {
          var ent := ranges[ii];
          FoldingValid(s0, r, Entries(), range, ii);
          SaturationIsExact(range, ent);
          TouchingSymmetric(range, ent);
          if Overlaps(Range(range.start, SaturatingInc(range.end)), Range(ent.start, SaturatingInc(ent.end))).None? {
            continue;
          }
          FoldOne(s0, r, Entries(), range, ii);
          range := Hull(range, ent);
          Delete(ii);
          continue tryMerges;
        }
        break;
      }
      FoldDone(s0, r, Entries(), range);
      if inUse >= ranges.Length { return false; }
      ranges[inUse] := range;
      inUse := inUse + 1;
      assert Entries() == Apart(s0, r) + [range];
      return true;
    }

    /** Cuts `r` out of the overlapping entry at `ii`. */
    method CutAt(ii: nat, r: Range, ghost s0: seq<Range>, ghost full: bool) returns (cut: Cut)
      requires ii < inUse <= ranges.Length && r.start <= r.end && Overlapping(ranges[ii], r)
      requires Cutting(s0, Entries(), r, full) && full == (|s0| == ranges.Length)
      modifies this`inUse, ranges
      ensures cut.Full? ==> HasSplit(s0, r) && full
      ensures !cut.Full? ==> inUse <= ranges.Length && Cutting(s0, Entries(), r, full)
                               && OverlapCount(Entries(), r) < old(OverlapCount(Entries(), r))
      ensures cut.Trimmed? ==> inUse == old(inUse) && !Overlapping(ranges[ii], r)
                               && forall k :: 0 <= k < inUse && k != ii ==> ranges[k] == old(ranges[k])
    {
      hide Cutting, Canonical, Covers, OverlapCount, HasSplit, RemoveAt;
      var ent := ranges[ii];
      ghost var s := Entries();
      CuttingValid(s0, s, r, full, ii);
      if Contains(ent, r) {
        CutDelete(s0, s, r, full, ii);
        Delete(ii);
        return Restart;
      }
      if r.start <= ent.start {
        CutTrim(s0, s, r, full, ii, Range(r.end + 1, ent.end));
        ranges[ii] := Range(SaturatingInc(r.end), ent.end);
        assert Entries() == s[ii := Range(r.end + 1, ent.end)];
        return Trimmed;
      } else if r.end >= ent.end {
        CutTrim(s0, s, r, full, ii, Range(ent.start, r.start - 1));
        ranges[ii] := Range(ent.start, SaturatingDec(r.start));
        assert Entries() == s[ii := Range(ent.start, r.start - 1)];
        return Trimmed;
      } else {
        CuttingSplit(s0, s, r, full, ii);
        if inUse >= ranges.Length { return Full; }
        CutSplit(s0, s, r, full, ii, Range(ent.start, r.start - 1), Range(r.end + 1, ent.end));
        ranges[ii] := Range(SaturatingInc(r.end), ent.end);
        ranges[inUse] := Range(ent.start, SaturatingDec(r.start));
        inUse := inUse + 1;
        assert Entries() == s[ii := Range(r.end + 1, ent.end)] + [Range(ent.start, r.start - 1)];
        return Restart;
      }
    }

    /** Set difference. Fails on an inverted range, or when an entry is split and the array is full. */
    method Remove(r: Range) returns (ok: bool)
      requires Valid()
      modifies this`inUse, ranges
      ensures ok <==> r.start <= r.end && !(old(inUse) == ranges.Length && HasSplit(old(Entries()), r))
      ensures ok ==> Valid() && Elements(Entries()) == old(Elements(Entries())) - Interval(r)
      ensures ok ==> inUse <= old(inUse) + 1
    {
      hide Cutting, Canonical, Covers, Elements, Interval, OverlapCount, HasSplit, Overlaps, Overlapping;
      if r.start > r.end { return false; }
      ghost var s0 := Entries();
      ghost var full := inUse == ranges.Length;
      CuttingStart(s0, r, full);
      label trySubtractions: while true
        invariant inUse <= ranges.Length && Cutting(s0, Entries(), r, full)
        decreases OverlapCount(Entries(), r)
      {
        ghost var n := inUse;
        ghost var before := OverlapCount(Entries(), r);
        for ii := 0 to inUse
          invariant n == inUse <= ranges.Length && Cutting(s0, Entries(), r, full)
          invariant OverlapCount(Entries(), r) <= before
          invariant forall k :: 0 <= k < ii ==> !Overlapping(ranges[k], r)
        {
          CuttingValid(s0, Entries(), r, full, ii);
          SaturationIsExact(r, ranges[ii]);
          OverlappingSymmetric(r, ranges[ii]);
          if Overlaps(r, ranges[ii]).None? { continue; }
          var cut := CutAt(ii, r, s0, full);
          if cut.Restart? { continue trySubtractions; }
          if cut.Full? { return false; }
        }
        break;
      }
      CutDone(s0, Entries(), r, full);
      return true;
    }

    /** Set difference with a whole set, range by range; fails when one of the removals does. */
    method Subtract(rs: RangeSet) returns (ok: bool)
      requires Valid() && rs.Valid() && rs != this && rs.ranges != ranges
      modifies this`inUse, ranges
      ensures ok <==> CutsFit(old(Entries()), rs.Entries(), ranges.Length)
      ensures ok ==> Valid() && Elements(Entries()) == old(Elements(Entries())) - Elements(rs.Entries())
      ensures old(inUse) + rs.inUse <= ranges.Length ==> ok
    {
      hide Canonical, Elements, Without, HasSplit;
      ghost var t, s0 := rs.Entries(), Entries();
      ghost var spec := s0;
      assert t[0..] == t && t[..0] == [];
      NothingCovered();
      assert old(Elements(Entries())) - Elements(t[..0]) == Elements(s0);
      for i := 0 to rs.inUse
        invariant Valid() && rs.Valid() && rs.Entries() == t && inUse <= old(inUse) + i
        invariant Elements(Entries()) == old(Elements(Entries())) - Elements(t[..i])
        invariant Canonical(spec) && Elements(spec) == Elements(Entries())
        invariant CutsFit(s0, t, ranges.Length) <==> CutsFit(spec, t[i..], ranges.Length)
      {
        EntryValid(t, i);
        SameSplits(spec, Entries(), t[i]);
        assert t[i..][0] == t[i] && t[i..][1..] == t[i + 1..];
        ok := Remove(rs.ranges[i]);
        if !ok { return; }
        ElementsSnoc(t, i);
        WithoutExact(spec, t[i]);
        spec := Without(spec, t[i]);
      }
      assert t[..rs.inUse] == t && t[rs.inUse..] == [];
      return true;
    }

    /** The chosen interval leaves the set; the block is its aligned tail. */
    method AllocatePrefer(size: u64, align: u64, request: Request)
      returns (r: Allocated, ghost c: Choice, ghost at: nat, ghost via: Option<nat>)
      requires Valid() && ValidRanges(RegionsOf(request))
      modifies this`inUse, ranges
      ensures !r.NoMemory? ==> size > 0 && IsPow2(align) && c.base <= U64_MAX && c.end <= U64_MAX
      ensures r.At? ==>
                && Valid() && size > 0 && IsPow2(align) && r.ptr == c.ptr && at < |old(Entries())|
                && FromEntry(old(Entries())[at], c, size, align) && c.end <= U64_MAX
                && Interval(Range(c.base, c.end)) <= old(Elements(Entries()))
                && Elements(Entries()) == old(Elements(Entries())) - Interval(Range(c.base, c.end))
      ensures r.NoMemory? <==> Refused(old(Entries()), size, align, request)
      ensures !r.NoMemory? ==> Chosen(old(Entries()), size, align, request, c, at, via)
      ensures r.At? && request.Forced? ==> via.Some?
      ensures r.At? && via.Some? ==> c.base == c.ptr && Interval(Range(c.base, c.end)) <= Elements(RegionsOf(request))
      ensures r.At? && via.None? ==>
                && NoOverflow(old(Entries()), old(inUse), size, align)
                && NoMatch(old(Entries()), old(inUse), RegionsOf(request), size, align)
                && BestFit(old(Entries()), old(inUse), at, size, align)
                && c == PaddedChoice(old(Entries())[at], size, align)
      ensures r.NoMemory? ==> inUse == old(inUse) && Entries() == old(Entries())
      ensures r.NoMemory? && size > 0 && IsPow2(align) && NoOverflow(old(Entries()), old(inUse), size, align) ==>
                && NoMatch(old(Entries()), old(inUse), RegionsOf(request), size, align)
                && (request.Forced? || NoRoom(old(Entries()), old(inUse), size, align))
      ensures r.Panicked? ==> via.Some?
      ensures !r.NoMemory? ==>
                (r.Panicked? <==> old(inUse) == ranges.Length && HasSplit(old(Entries()), Range(c.base, c.end)))
      ensures request.Any? ==> via.None?
    {
      hide Canonical, Covers, HasSplit, FromEntry, AlignFix, Pow2, Rem, BestFit, NoMatch, NoRoom, NoOverflow, Elements, Interval,
           Chosen, Refused;
      ghost var s0 := Entries();
      CanonicalValid(s0);
      var allocation;
      allocation, at, via := FindAllocation(Entries(), size, align, request);
      c := Choice(0, 0, 0);
      if allocation.None? {
        via := None;
        return NoMemory, c, at, via;
      }
      c := allocation.value;
      ChoiceInSet(s0, at, c, size, align);
      if via.Some? {
        IntervalInside(RegionsOf(request), via.value, Range(c.base, c.end));
      } else {
        FrontIsNoSplit(s0, at, Range(c.base, c.end));
      }
      var ok := Remove(Range(allocation.value.base, allocation.value.end));
      if !ok { return Panicked, c, at, via; }
      return At(allocation.value.ptr), c, at, via;
    }

    method Allocate(size: u64, align: u64) returns (r: Option<nat>, ghost c: Choice, ghost at: nat)
      requires Valid()
      modifies this`inUse, ranges
      ensures r.None? <==> size == 0 || !IsPow2(align) || !NoOverflow(old(Entries()), old(inUse), size, align)
                           || NoRoom(old(Entries()), old(inUse), size, align)
      ensures r.None? ==> inUse == old(inUse) && Entries() == old(Entries())
      ensures r.Some? ==>
                && Valid() && r.value == c.ptr && Rem(c.ptr, align) == 0 && c.end == c.ptr + (size - 1) <= U64_MAX
                && BestFit(old(Entries()), old(inUse), at, size, align) && c == PaddedChoice(old(Entries())[at], size, align)
                && Interval(Range(c.base, c.end)) <= old(Elements(Entries()))
                && Elements(Entries()) == old(Elements(Entries())) - Interval(Range(c.base, c.end))
    {
      hide Canonical, Covers, HasSplit, AlignFix, Pow2, Rem, NoMatch, NoOverflow, Elements, Interval, Chosen, Refused;
      var a;
      ghost var via;
      a, c, at, via := AllocatePrefer(size, align, Any);
      match a
      case NoMemory => return None, c, at;
      case At(ptr) => return Some(ptr), c, at;
    }

    /** The number of elements; `None` exactly when every `u64` is in the set. No addition overflows. */
    method Sum() returns (r: Option<u64>)
      requires Valid()
      ensures r.None? <==> IsEverything(Entries())
      ensures r.Some? ==> r.value == |ElementSet(Entries())|
    {
      hide Canonical, Covers, Elements, ElementSet, IsEverything;
      ghost var s := Entries();
      var acc := 0;
      EmptySize();
      assert s[..0] == [];
      for i := 0 to inUse
        invariant acc == |ElementSet(s[..i])| <= U64_MAX
        invariant i > 0 ==> !IsEverything(s)
      {
        SizeSnoc(s, i);
        if ranges[i].end - ranges[i].start + 1 > U64_MAX {
          WholeEntry(s, i);
          return None;
        }
        SizeBound(s, i);
        acc := acc + (ranges[i].end - ranges[i].start + 1);
      }
      assert s[..inUse] == s;
      return Some(acc);
    }
  }

  lemma NothingCovered()
    ensures Elements([]) == iset{}
  {
  }

  lemma EntryValid(s: seq<Range>, i: nat)
    requires Canonical(s) && i < |s|
    ensures s[i].start <= s[i].end
  {
  }

  lemma CanonicalValid(s: seq<Range>)
    requires Canonical(s)
    ensures ValidRanges(s) && ValidRanges([])
  {
  }

  lemma IntervalInside(s: seq<Range>, i: nat, r: Range)
    requires i < |s| && s[i].start <= r.start && r.end <= s[i].end
    ensures Interval(r) <= Elements(s)
  {
    forall x | x in Interval(r) ensures x in Elements(s) {
      assert In(x, s[i]);
    }
  }

  lemma ChoiceInSet(s: seq<Range>, i: nat, c: Choice, size: nat, align: nat)
    requires i < |s| && size > 0 && align > 0 && FromEntry(s[i], c, size, align)
    ensures s[i].start <= c.base <= c.end <= s[i].end <= U64_MAX
    ensures Interval(Range(c.base, c.end)) <= Elements(s)
  {
    hide Rem, Interval, Elements;
    IntervalInside(s, i, Range(c.base, c.end));
  }

  /** Cutting at the front of an entry never splits. */
  lemma FrontIsNoSplit(s: seq<Range>, i: nat, r: Range)
    requires Canonical(s) && i < |s| && r.start <= r.end && s[i].start == r.start && r.end <= s[i].end
    ensures !HasSplit(s, r)
  {
    hide HasSplit;
    OverlapExcludesSplit(s, i, r);
  }

  // ----- Sizes -----

  ghost function ElementSet(s: seq<Range>): set<int> {
    set x | 0 <= x <= U64_MAX && Covers(s, x)
  }

  ghost function IntervalSet(r: Range): set<int> {
    set x | 0 <= x <= U64_MAX && In(x, r)
  }

  ghost predicate IsEverything(s: seq<Range>) {
    forall x :: 0 <= x <= U64_MAX ==> x in Elements(s)
  }

  lemma EmptySize()
    ensures ElementSet([]) == {} && !IsEverything([])
  {
    assert 0 !in Elements([]);
  }

  lemma {:induction false} IntervalSize(r: Range)
    requires r.start <= r.end
    ensures |IntervalSet(r)| == r.end - r.start + 1
    decreases r.end
  {
    if r.start == r.end {
      assert IntervalSet(r) == {r.start};
    } else {
      var q := Range(r.start, r.end - 1);
      IntervalSize(q);
      assert IntervalSet(r) == IntervalSet(q) + {r.end};
    }
  }

  lemma SizeSnoc(s: seq<Range>, i: nat)
    requires Canonical(s) && i < |s|
    ensures |ElementSet(s[..i + 1])| == |ElementSet(s[..i])| + (s[i].end - s[i].start + 1)
  {
    hide Covers;
    IntervalSize(s[i]);
    forall x ensures Covers(s[..i + 1], x) <==> Covers(s[..i], x) || In(x, s[i]) {
      assert s[..i + 1] == s[..i] + [s[i]];
      CoversAppend(s[..i], s[i], x);
    }
    assert ElementSet(s[..i + 1]) == ElementSet(s[..i]) + IntervalSet(s[i]);
    forall x | In(x, s[i]) ensures !Covers(s[..i], x) {
      NotCoveredBefore(s, i, x);
    }
    assert ElementSet(s[..i]) !! IntervalSet(s[i]);
  }

  lemma NotCoveredBefore(s: seq<Range>, i: nat, x: int)
    requires Canonical(s) && i < |s| && In(x, s[i])
    ensures !Covers(s[..i], x)
  {
    if Covers(s[..i], x) {
      var k :| 0 <= k < i && In(x, s[..i][k]);
      assert Touching(s[k], s[i]);
    }
  }

  lemma WholeEntry(s: seq<Range>, i: nat)
    requires i < |s| && s[i].end - s[i].start + 1 > U64_MAX
    ensures IsEverything(s)
  {
    forall x | 0 <= x <= U64_MAX ensures x in Elements(s) {
      assert In(x, s[i]);
    }
  }

  /** A canonical list without an entry for all of `u64` misses some number, so its prefixes stay below `2^64`. */
  lemma SizeBound(s: seq<Range>, i: nat)
    requires Canonical(s) && i < |s| && s[i].end - s[i].start + 1 <= U64_MAX
    ensures !IsEverything(s)
    ensures |ElementSet(s[..i + 1])| <= U64_MAX
  {
    if IsEverything(s) {
      forall y | 0 <= y <= U64_MAX ensures Covers(s, y) {
        assert y in Elements(s);
      }
      var k := CoveredByOne(s, Range(0, U64_MAX), U64_MAX);
      assert Touching(s[k], s[i]) && Touching(s[i], s[k]);
    }
    var x :| 0 <= x <= U64_MAX && x !in Elements(s);
    var all := IntervalSet(Range(0, U64_MAX));
    IntervalSize(Range(0, U64_MAX));
    var e := ElementSet(s[..i + 1]);
    CoversPrefix(s, i + 1, x);
    assert e <= all - {x};
    SubsetSize(e, all - {x});
  }

  lemma CoversPrefix(s: seq<Range>, i: nat, x: int)
    requires i <= |s|
    ensures Covers(s[..i], x) ==> Covers(s, x)
  {
  }

  lemma SubsetSize(a: set<int>, b: set<int>)
    requires a <= b
    ensures |a| <= |b|
  {
    assert b == a + (b - a);
  }

  // ----- Runs of allocations and frees -----

  /** The free set and the blocks that have been handed out and not yet given back. */
  datatype Memory = Memory(free: iset<int>, live: seq<Range>)

  /** An allocation takes an interval off the free set and hands out its tail; a free gives a live block back.
      The methods `AllocateBlock` and `FreeBlock` below make such steps. */
  ghost predicate MemoryStep(m: Memory, n: Memory) {
    || (exists base: u64, block: Range ::
          && base <= block.start <= block.end
          && Interval(Range(base, block.end)) <= m.free
          && n == Memory(m.free - Interval(Range(base, block.end)), m.live + [block]))
    || (exists i :: && 0 <= i < |m.live|
                    && n == Memory(m.free + Interval(m.live[i]), RemoveAt(m.live, i)))
  }

  ghost predicate MemoryInv(m: Memory) {
    && (forall i, j :: 0 <= i < j < |m.live| ==> !Overlapping(m.live[i], m.live[j]))
    && (forall i, x :: 0 <= i < |m.live| && In(x, m.live[i]) ==> x !in m.free)
    && (forall i :: 0 <= i < |m.live| ==> m.live[i].start <= m.live[i].end)
  }

  lemma AllocationKeepsInv(m: Memory, base: u64, block: Range)
    requires MemoryInv(m) && base <= block.start <= block.end && Interval(Range(base, block.end)) <= m.free
    ensures MemoryInv(Memory(m.free - Interval(Range(base, block.end)), m.live + [block]))
  {
    forall i | 0 <= i < |m.live| ensures !Overlapping(m.live[i], block) {
      var x := Max(m.live[i].start, block.start);
      assert In(x, m.live[i]) ==> x !in m.free;
      assert In(x, block) ==> x in Interval(Range(base, block.end));
    }
  }

  lemma FreeKeepsInv(m: Memory, i: nat)
    requires MemoryInv(m) && i < |m.live|
    ensures MemoryInv(Memory(m.free + Interval(m.live[i]), RemoveAt(m.live, i)))
  {
    var n := Memory(m.free + Interval(m.live[i]), RemoveAt(m.live, i));
    forall k, x | 0 <= k < |n.live| && In(x, n.live[k]) ensures x !in n.free {
      var k' := if k < i then k else k + 1;
      assert n.live[k] == m.live[k'];
      assert In(x, m.live[k']) && x !in m.free;
      assert !Overlapping(m.live[k'], m.live[i]) by {
        assert if k < i then !Overlapping(m.live[k'], m.live[i]) else !Overlapping(m.live[i], m.live[k']);
      }
    }
  }

  lemma MemoryStepKeepsInv(m: Memory, n: Memory)
    requires MemoryInv(m) && MemoryStep(m, n)
    ensures MemoryInv(n)
  {
    hide MemoryInv, Interval, RemoveAt;
    if base: u64, block: Range :|
      && base <= block.start <= block.end
      && Interval(Range(base, block.end)) <= m.free
      && n == Memory(m.free - Interval(Range(base, block.end)), m.live + [block])
    {
      AllocationKeepsInv(m, base, block);
    } else {
      var i :| 0 <= i < |m.live| && n == Memory(m.free + Interval(m.live[i]), RemoveAt(m.live, i));
      FreeKeepsInv(m, i);
    }
  }

  /** The states of memory over a run: consecutive ones are equal or one step apart. */
  ghost predicate IsTrace(trace: seq<Memory>) {
    |trace| > 0 && trace[0].live == []
    && forall k :: 0 <= k < |trace| - 1 ==> trace[k + 1] == trace[k] || MemoryStep(trace[k], trace[k + 1])
  }

  /** In every run that starts with nothing handed out, live blocks are pairwise disjoint and not free. */
  lemma {:induction false} RunKeepsBlocksDisjoint(trace: seq<Memory>, k: nat)
    requires IsTrace(trace) && k < |trace|
    ensures MemoryInv(trace[k])
    decreases k
  {
    hide MemoryStep, MemoryInv;
    if k == 0 {
      EmptyMemory(trace[0]);
    } else {
      RunKeepsBlocksDisjoint(trace, k - 1);
      assert trace[(k - 1) + 1] == trace[k];
      if trace[k] != trace[k - 1] { MemoryStepKeepsInv(trace[k - 1], trace[k]); }
    }
  }

  lemma EmptyMemory(m: Memory)
    requires m.live == []
    ensures MemoryInv(m)
  {
  }

  // ----- The steps as calls -----

  ghost function MemoryOf(rs: RangeSet, live: seq<Range>): Memory
    requires rs.inUse <= rs.ranges.Length
    reads rs, rs.ranges
  {
    Memory(Elements(rs.Entries()), live)
  }

  lemma AllocationIsStep(free: iset<int>, live: seq<Range>, base: u64, block: Range)
    requires base <= block.start <= block.end && Interval(Range(base, block.end)) <= free
    ensures MemoryStep(Memory(free, live), Memory(free - Interval(Range(base, block.end)), live + [block]))
  {
    hide Interval;
  }

  lemma FreeIsStep(free: iset<int>, live: seq<Range>, i: nat)
    requires i < |live|
    ensures MemoryStep(Memory(free, live), Memory(free + Interval(live[i]), RemoveAt(live, i)))
  {
    hide Interval, RemoveAt;
  }

  /** What a user of the set asks for: a block, or that one of the blocks it holds be taken back. */
  datatype Call = Get(size: u64, align: u64, request: Request) | GiveBack(index: nat)

  predicate ValidCall(call: Call) {
    call.Get? ==> forall k :: 0 <= k < |RegionsOf(call.request)| ==> RegionsOf(call.request)[k].start <= RegionsOf(call.request)[k].end
  }

  /** What a call that returns makes of memory, with these entries in the set: a block is the one the search chooses,
      it is refused exactly when the search gives up, a block given back is free again, and one that is not held changes
      nothing. */
  ghost predicate Answers(call: Call, entries: seq<Range>, m: Memory, n: Memory) {
    match call
    case GiveBack(i) =>
      n == if i < |m.live| then Memory(m.free + Interval(m.live[i]), RemoveAt(m.live, i)) else m
    case Get(size, align, request) =>
      if Refused(entries, size, align, request) then n == m
      else
        && size > 0 && IsPow2(align)
        && exists c: Choice, at: nat, via: Option<nat> :: Grants(entries, size, align, request, c, at, via, m, n)
  }

  ghost predicate Grants(entries: seq<Range>, size: u64, align: u64, request: Request, c: Choice, at: nat, via: Option<nat>,
                         m: Memory, n: Memory)
    requires size > 0 && align > 0
  {
    && Chosen(entries, size, align, request, c, at, via) && FromEntry(entries[at], c, size, align) && c.end <= U64_MAX
    && n == Memory(m.free - Interval(Range(c.base, c.end)), m.live + [Range(c.ptr, c.end)])
  }

  /** One call of `allocate_prefer`, with the block it hands out recorded. */
  method AllocateBlock(rs: RangeSet, size: u64, align: u64, request: Request, live: seq<Range>)
    returns (r: Allocated, live': seq<Range>)
    requires rs.Valid() && ValidRanges(RegionsOf(request)) && MemoryInv(MemoryOf(rs, live))
    modifies rs`inUse, rs.ranges
    ensures r.At? ==>
              && rs.Valid() && MemoryStep(old(MemoryOf(rs, live)), MemoryOf(rs, live')) && MemoryInv(MemoryOf(rs, live'))
              && size > 0 && r.ptr + (size - 1) <= U64_MAX && live' == live + [Range(r.ptr, r.ptr + (size - 1))]
    ensures r.NoMemory? ==> rs.Valid() && live' == live && MemoryOf(rs, live') == old(MemoryOf(rs, live))
    ensures r.Panicked? ==> old(rs.inUse) == rs.ranges.Length
    ensures !r.Panicked? ==> Answers(Get(size, align, request), old(rs.Entries()), old(MemoryOf(rs, live)), MemoryOf(rs, live'))
  {
    hide MemoryInv, MemoryStep, Canonical, Interval, Elements, BestFit, NoMatch, NoOverflow, NoRoom, HasSplit, FromEntry, Answers,
         Chosen, Refused;
    ghost var before := MemoryOf(rs, live);
    live' := live;
    ghost var c, at, via;
    r, c, at, via := rs.AllocatePrefer(size, align, request);
    if r.At? {
      Granted(old(rs.Entries()), before, size, align, request, c, at, via);
      var block := Range(r.ptr, r.ptr + (size - 1));
      live' := live + [block];
      AllocationIsStep(before.free, live, c.base, block);
      MemoryStepKeepsInv(before, MemoryOf(rs, live'));
    } else if r.NoMemory? {
      NotGranted(old(rs.Entries()), before, size, align, request);
    }
  }

  lemma Granted(entries: seq<Range>, m: Memory, size: u64, align: u64, request: Request, c: Choice, at: nat, via: Option<nat>)
    requires size > 0 && IsPow2(align) && Chosen(entries, size, align, request, c, at, via)
    requires FromEntry(entries[at], c, size, align) && c.end <= U64_MAX
    ensures c.base <= c.ptr <= c.end && c.end == c.ptr + (size - 1)
    ensures Answers(Get(size, align, request), entries, m,
                    Memory(m.free - Interval(Range(c.base, c.end)), m.live + [Range(c.ptr, c.end)]))
  {
    NeverBoth(entries, size, align, request, c, at, via);
    hide Chosen, Refused, Interval;
    assert Grants(entries, size, align, request, c, at, via, m,
                  Memory(m.free - Interval(Range(c.base, c.end)), m.live + [Range(c.ptr, c.end)]));
  }

  lemma NotGranted(entries: seq<Range>, m: Memory, size: u64, align: u64, request: Request)
    requires Refused(entries, size, align, request)
    ensures Answers(Get(size, align, request), entries, m, m)
  {
    hide Refused;
  }

  lemma {:induction false} ApartShorter(s: seq<Range>, r: Range)
    ensures |Apart(s, r)| <= |s|
    decreases |s|
  {
    if |s| == 0 {
    } else {
      ApartShorter(s[..|s| - 1], r);
    }
  }

  /** One call of `insert` that gives a live block back. */
  method FreeBlock(rs: RangeSet, i: nat, live: seq<Range>) returns (ok: bool, live': seq<Range>)
    requires rs.Valid() && i < |live| && MemoryInv(MemoryOf(rs, live))
    modifies rs`inUse, rs.ranges
    ensures ok <==> |Apart(old(rs.Entries()), live[i])| < rs.ranges.Length
    ensures !ok ==> old(rs.inUse) == rs.ranges.Length
    ensures ok ==>
              && rs.Valid() && MemoryStep(old(MemoryOf(rs, live)), MemoryOf(rs, live')) && MemoryInv(MemoryOf(rs, live'))
              && live' == RemoveAt(live, i) && Answers(GiveBack(i), old(rs.Entries()), old(MemoryOf(rs, live)), MemoryOf(rs, live'))
  {
    assert live[i].start <= live[i].end;
    hide MemoryInv, MemoryStep, Canonical, Interval, Elements, RemoveAt;
    ghost var before := MemoryOf(rs, live);
    live' := RemoveAt(live, i);
    ApartShorter(rs.Entries(), live[i]);
    ok := rs.Insert(live[i]);
    if ok {
      FreeIsStep(before.free, live, i);
      MemoryStepKeepsInv(before, MemoryOf(rs, live'));
    }
  }

  lemma NotHeld(i: nat, entries: seq<Range>, m: Memory)
    requires i >= |m.live|
    ensures Answers(GiveBack(i), entries, m, m)
  {
  }

  lemma TraceGrows(trace: seq<Memory>, m: Memory)
    requires IsTrace(trace) && (m == trace[|trace| - 1] || MemoryStep(trace[|trace| - 1], m))
    ensures IsTrace(trace + [m])
  {
    hide MemoryStep;
    var t := trace + [m];
    forall k | 0 <= k < |t| - 1 ensures t[k + 1] == t[k] || MemoryStep(t[k], t[k + 1]) {
    }
  }

  /** Any sequence of calls on any set, up to the first that panics, which takes a set with all entries in use:
      at all times the blocks handed out are pairwise disjoint and not in the set. */
  method RunCalls(rs: RangeSet, calls: seq<Call>)
    returns (live: seq<Range>, done: nat, ghost trace: seq<Memory>, ghost sets: seq<seq<Range>>)
    requires rs.Valid() && forall k :: 0 <= k < |calls| ==> ValidCall(calls[k])
    modifies rs`inUse, rs.ranges
    ensures done <= |calls| && |trace| == |sets| == done + 1 && IsTrace(trace) && sets[0] == old(rs.Entries())
    ensures forall k :: 0 <= k <= done ==> MemoryInv(trace[k]) && Canonical(sets[k]) && Elements(sets[k]) == trace[k].free
    ensures forall k :: 0 <= k < done ==> Answers(calls[k], sets[k], trace[k], trace[k + 1])
    ensures done == |calls| ==> rs.Valid() && trace[done] == MemoryOf(rs, live) && sets[done] == rs.Entries()
    ensures done < |calls| ==> |sets[done]| == rs.ranges.Length
  {
    hide MemoryInv, MemoryStep, Canonical, Elements, Apart, Answers;
    live := [];
    trace, sets := [MemoryOf(rs, live)], [rs.Entries()];
    assert IsTrace(trace);
    done := 0;
    while done < |calls|
      invariant done <= |calls| && rs.Valid() && |trace| == |sets| == done + 1 && IsTrace(trace)
      invariant sets[0] == old(rs.Entries()) && sets[done] == rs.Entries() && trace[done] == MemoryOf(rs, live)
      invariant forall k :: 0 <= k <= done ==> Canonical(sets[k]) && Elements(sets[k]) == trace[k].free
      invariant forall k :: 0 <= k < done ==> Answers(calls[k], sets[k], trace[k], trace[k + 1])
    {
      RunKeepsBlocksDisjoint(trace, done);
      match calls[done] {
        case Get(size, align, request) =>
          assert ValidCall(calls[done]);
          var r;
          r, live := AllocateBlock(rs, size, align, request, live);
          if r.Panicked? { break; }
        case GiveBack(i) =>
          if i < |live| {
            var ok;
            ok, live := FreeBlock(rs, i, live);
            if !ok { break; }
          } else {
            NotHeld(i, rs.Entries(), trace[done]);
          }
      }
      TraceGrows(trace, MemoryOf(rs, live));
      trace, sets := trace + [MemoryOf(rs, live)], sets + [rs.Entries()];
      done := done + 1;
    }
    forall k | 0 <= k < |trace| ensures MemoryInv(trace[k]) { RunKeepsBlocksDisjoint(trace, k); }
  }

  /** An aligned block of the size is in the set, and `allocate` refuses it because of another entry. */
  method OverflowRefuses() returns (r: Option<nat>, rs: RangeSet, ghost entries: seq<Range>)
    ensures r == None && fresh(rs) && fresh(rs.ranges) && rs.Valid() && rs.Entries() == entries
    ensures Range(0, 4095) in entries && HasBlock(2, 1, Range(0, 4095))
    ensures Range(U64_MAX, U64_MAX) in entries && Overflowing(Range(U64_MAX, U64_MAX), 2, 1)
  {
    hide Canonical, Elements, Interval, HasBlock, NoRoom, BestFit, Roomy, Overflowing, PaddedEnd, AlignFix, Pow2;
    var a, b := Range(0, 4095), Range(U64_MAX, U64_MAX);
    OverflowHidesRoom();
    RoomyHasBlock(a, 2, 1);
    rs := new RangeSet(2);
    NothingCovered();
    ApartShorter([], a);
    var ok := rs.Insert(a);
    ApartShorter(rs.Entries(), b);
    ok := rs.Insert(b);
    entries := rs.Entries();
    TwoEntries(entries, a, b);
    ghost var k :| 0 <= k < |entries| && entries[k] == b;
    ghost var c, at;
    r, c, at := rs.Allocate(2, 1);
    assert Overflowing(entries[k], 2, 1);
  }

  lemma RoomyHasBlock(ent: Range, size: nat, align: nat)
    requires size > 0 && IsPow2(align) && Roomy(ent, size, align)
    ensures HasBlock(size, align, ent)
  {
    hide AlignFix, Pow2, HasBlock, PaddedEnd;
    FitsExactly(ent, size, align);
  }

  lemma TwoEntries(s: seq<Range>, a: Range, b: Range)
    requires Canonical(s) && Canonical([a, b]) && Elements(s) == iset{} + Interval(a) + Interval(b)
    ensures a in s && b in s
  {
    var t := [a, b];
    forall x ensures Covers(t, x) <==> In(x, a) || In(x, b) {
      CoversAppend([a], b, x);
      CoversAppend([], a, x);
      assert t == [a] + [b] && [a] == [] + [a];
    }
    assert Elements(t) == Elements(s);
    CanonicalUnique(s, t);
    assert t[0] in multiset(s) && t[1] in multiset(s);
  }
}
