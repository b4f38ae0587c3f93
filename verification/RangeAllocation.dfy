/** Choosing an aligned block from a list of ranges: the search of `RangeSet::allocate_prefer`
    (libs/shared/src/rangeset.rs). */
module RangeAllocation {
  import opened Machine
  import opened Ranges

  /** What will be removed, and the aligned address handed out. */
  datatype Choice = Choice(base: nat, end: nat, ptr: nat)

  /** Bytes to skip at the front of an entry to reach an aligned address. */
  function AlignFix(start: nat, align: nat): nat
    requires align > 0
  {
    var mask := align - 1;
    var low := BitAnd(start, mask);
    if low <= align then BitAnd(align - low, mask) else 0
  }

  function PaddedEnd(ent: Range, size: nat, align: nat): nat
    requires size > 0 && align > 0
  {
    ent.start + (size - 1) + AlignFix(ent.start, align)
  }

  /** Rounding up with a wrapping addition and a mask; `x & !m` is `x - (x & m)`. */
  function AlignOverlap(start: nat, align: nat): int
    requires align > 0
  {
    var w := Wrap(start + (align - 1));
    w - BitAnd(w, align - 1)
  }

  /** The aligned address in the part of the entry that lies in the region, if the block fits there. */
  function RegionFit(ent: Range, region: Range, size: nat, align: nat): Option<nat>
    requires size > 0 && align > 0
  {
    match Overlaps(ent, region)
    case None => None
    case Some(overlap) =>
      var aligned := AlignOverlap(overlap.start, align);
      if overlap.start <= aligned <= overlap.end && overlap.end - aligned >= size - 1 then Some(aligned) else None
  }

  /** An aligned block of the size lies in the range. */
  ghost predicate AlignedBlock(p: nat, size: nat, align: nat, r: Range)
    requires size > 0 && align > 0
  {
    r.start <= p && p + (size - 1) <= r.end && Rem(p, align) == 0
  }

  ghost predicate HasBlock(size: nat, align: nat, r: Range)
    requires size > 0 && align > 0
  {
    exists p: nat :: AlignedBlock(p, size, align, r)
  }

  // ----- Alignment -----

  lemma AlignFixExact(start: nat, align: nat)
    requires IsPow2(align)
    ensures AlignFix(start, align) < align && Rem(start + AlignFix(start, align), align) == 0
    ensures AlignFix(start, align) == if Rem(start, align) == 0 then 0 else align - Rem(start, align)
  {
    var k: nat :| align == Pow2(k);
    var q, r := Div(start, align), Rem(start, align);
    RemIs(start, align);
    MaskIsRemainder(start, k);
    MaskIsRemainder(align - r, k);
    hide BitAnd, Pow2, Mul, Div, Rem;
    MulOne(align);
    MulSucc(q, align);
    if r == 0 {
      RemUnique(align, align, 1, 0);
      RemUnique(start, align, q, 0);
    } else {
      RemUnique(align - r, align, 0, align - r);
      RemUnique(start + align - r, align, q + 1, 0);
    }
  }

  /** No aligned address lies between the start and the padded start. */
  lemma AlignFixLeast(start: nat, align: nat, p: nat)
    requires IsPow2(align) && start <= p && Rem(p, align) == 0
    ensures start + AlignFix(start, align) <= p
  {
    AlignFixExact(start, align);
    hide *;
    var q := Div(start, align);
    var m := Div(p, align);
    RemIs(start, align);
    RemIs(p, align);
    MulSucc(q, align);
    if m <= q {
      MulMonotone(m, q, align);
    } else {
      MulMonotone(q + 1, m, align);
    }
  }

  lemma FitsExactly(ent: Range, size: nat, align: nat)
    requires size > 0 && IsPow2(align)
    ensures PaddedEnd(ent, size, align) <= ent.end <==> HasBlock(size, align, ent)
  {
    hide AlignFix, Pow2;
    var p := ent.start + AlignFix(ent.start, align);
    AlignFixExact(ent.start, align);
    if PaddedEnd(ent, size, align) <= ent.end {
      assert AlignedBlock(p, size, align, ent);
    }
    if HasBlock(size, align, ent) {
      var b: nat :| AlignedBlock(b, size, align, ent);
      AlignFixLeast(ent.start, align, b);
    }
  }

  /** The wrapped rounding is the padded start, or falls below the start when that is not a `u64`. */
  lemma AlignOverlapExact(start: u64, align: u64)
    requires IsPow2(align)
    ensures AlignOverlap(start, align) == start + AlignFix(start, align)
            || (AlignOverlap(start, align) < start && start + AlignFix(start, align) > U64_MAX)
  {
    var k: nat :| align == Pow2(k);
    var w := Wrap(start + (align - 1));
    MaskIsRemainder(w, k);
    RemIs(w, align);
    AlignFixExact(start, align);
    RemIs(start, align);
    WrapOnce(start + (align - 1));
    hide BitAnd, Pow2, Mul, Div, Rem, AlignFix, Wrap;
    var q, r := Div(start, align), Rem(start, align);
    if start + (align - 1) <= U64_MAX {
      MulSucc(q, align);
      if r == 0 {
        RemUnique(w, align, q, align - 1);
      } else {
        RemUnique(w, align, q + 1, r - 1);
      }
    } else {
      TopMultiple(start, align, k);
    }
  }

  /** Above the last multiple of a power of two there is no further one in 64 bits. */
  lemma TopMultiple(start: u64, align: u64, k: nat)
    requires align == Pow2(k) && start + align > U64_MAX + 1
    ensures Rem(start, align) != 0 && start - Rem(start, align) + align > U64_MAX
  {
    hide *;
    Pow2Values();
    if k >= 64 {
      Pow2Monotone(64, k);
    }
    var m := Pow2(64 - k);
    Pow2Add(64 - k, k);
    var q := Div(start, align);
    RemIs(start, align);
    MulSucc(q, align);
    MulSucc(m - 1, align);
    if q + 1 < m {
      MulMonotone(q + 1, m - 1, align);
    } else if m <= q {
      MulMonotone(m, q, align);
    }
  }

  lemma RegionFitExact(ent: Range, region: Range, size: nat, align: u64)
    requires size > 0 && IsPow2(align) && ent.start <= ent.end && region.start <= region.end
    ensures RegionFit(ent, region, size, align).Some? ==>
              var p := RegionFit(ent, region, size, align).value;
              && AlignedBlock(p, size, align, ent) && AlignedBlock(p, size, align, region)
              && forall q: nat :: AlignedBlock(q, size, align, ent) && AlignedBlock(q, size, align, region) ==> p <= q
    ensures RegionFit(ent, region, size, align).None? ==>
              forall p: nat :: !(AlignedBlock(p, size, align, ent) && AlignedBlock(p, size, align, region))
  {
    hide AlignOverlap, AlignFix, Pow2, Rem;
    var o := Overlaps(ent, region);
    if o.Some? {
      var low := o.value.start;
      AlignOverlapExact(low, align);
      AlignFixExact(low, align);
      forall p: nat | AlignedBlock(p, size, align, ent) && AlignedBlock(p, size, align, region)
        ensures low + AlignFix(low, align) <= p
      {
        AlignFixLeast(low, align, p);
      }
    }
  }

  // ----- The search -----

  /** Where the caller wants the block; the regions are the entries of another range set. */
  datatype Request = Any | Preference(regions: seq<Range>) | Forced(regions: seq<Range>)

  function RegionsOf(request: Request): seq<Range> {
    if request.Any? then [] else request.regions
  }

  ghost predicate ValidRanges(s: seq<Range>) {
    forall i :: 0 <= i < |s| ==> s[i].start <= s[i].end
  }

  /** Adding the padding and the size to the start of the entry leaves `u64`. */
  predicate Overflowing(ent: Range, size: nat, align: nat)
    requires size > 0 && align > 0
  {
    PaddedEnd(ent, size, align) > U64_MAX
  }

  predicate Roomy(ent: Range, size: nat, align: nat)
    requires size > 0 && align > 0
  {
    PaddedEnd(ent, size, align) <= ent.end
  }

  /** The chosen interval lies in the entry and ends with an aligned block of the size. */
  ghost predicate FromEntry(ent: Range, c: Choice, size: nat, align: nat)
    requires size > 0 && align > 0
  {
    && ent.start <= c.base <= c.ptr < c.base + align
    && c.end == c.ptr + (size - 1) <= ent.end
    && Rem(c.ptr, align) == 0
  }

  /** Among the first `n` entries with room, entry `i` is the first of those that need the least padding. */
  ghost predicate BestFit(entries: seq<Range>, n: nat, i: nat, size: nat, align: nat)
    requires size > 0 && align > 0 && n <= |entries|
  {
    && i < n && Roomy(entries[i], size, align)
    && forall k :: 0 <= k < n && Roomy(entries[k], size, align) ==>
         && AlignFix(entries[i].start, align) <= AlignFix(entries[k].start, align)
         && (k < i ==> AlignFix(entries[i].start, align) < AlignFix(entries[k].start, align))
  }

  function PaddedChoice(ent: Range, size: nat, align: nat): Choice
    requires size > 0 && align > 0
  {
    Choice(ent.start, PaddedEnd(ent, size, align), ent.start + AlignFix(ent.start, align))
  }

  /** None of the first `n` entries meets a region with enough room. */
  ghost predicate NoMatch(entries: seq<Range>, n: nat, regions: seq<Range>, size: nat, align: nat)
    requires size > 0 && align > 0 && n <= |entries|
  {
    forall k, j :: 0 <= k < n && 0 <= j < |regions| ==> RegionFit(entries[k], regions[j], size, align).None?
  }

  ghost predicate NoOverflow(entries: seq<Range>, n: nat, size: nat, align: nat)
    requires size > 0 && align > 0 && n <= |entries|
  {
    forall k :: 0 <= k < n ==> !Overflowing(entries[k], size, align)
  }

  ghost predicate NoRoom(entries: seq<Range>, n: nat, size: nat, align: nat)
    requires size > 0 && align > 0 && n <= |entries|
  {
    forall k :: 0 <= k < n ==> !Roomy(entries[k], size, align)
  }

  /** The answer of the search: the first match of an entry with a region, or, if there is none and the caller does
      not insist, the front of the best entry. */
  ghost predicate Chosen(entries: seq<Range>, size: nat, align: nat, request: Request, c: Choice, at: nat, via: Option<nat>)
    requires size > 0 && align > 0
  {
    var regions := RegionsOf(request);
    && at < |entries|
    && match via
       case None =>
         && !request.Forced? && NoOverflow(entries, |entries|, size, align) && NoMatch(entries, |entries|, regions, size, align)
         && BestFit(entries, |entries|, at, size, align) && c == PaddedChoice(entries[at], size, align)
       case Some(j) =>
         && j < |regions| && NoOverflow(entries, at + 1, size, align) && NoMatch(entries, at, regions, size, align)
         && (forall m :: 0 <= m < j ==> RegionFit(entries[at], regions[m], size, align).None?)
         && RegionFit(entries[at], regions[j], size, align) == Some(c.ptr) && c == Choice(c.ptr, c.ptr + (size - 1), c.ptr)
  }

  /** The reasons to give up: a bad size or alignment, an entry that overflows before any match, or no place. */
  ghost predicate Refused(entries: seq<Range>, size: nat, align: nat, request: Request) {
    size > 0 && IsPow2(align) ==>
      || (exists m :: 0 <= m < |entries| && OverflowsFirst(entries, size, align, request, m))
      || (&& NoOverflow(entries, |entries|, size, align) && NoMatch(entries, |entries|, RegionsOf(request), size, align)
          && (request.Forced? || NoRoom(entries, |entries|, size, align)))
  }

  ghost predicate OverflowsFirst(entries: seq<Range>, size: nat, align: nat, request: Request, m: nat)
    requires size > 0 && align > 0 && m < |entries|
  {
    Overflowing(entries[m], size, align) && NoMatch(entries, m, RegionsOf(request), size, align)
  }

  lemma NeverBoth(entries: seq<Range>, size: nat, align: nat, request: Request, c: Choice, at: nat, via: Option<nat>)
    requires size > 0 && IsPow2(align) && Chosen(entries, size, align, request, c, at, via)
    ensures !Refused(entries, size, align, request)
  {
    hide AlignFix, PaddedEnd, RegionFit, Pow2;
  }

  lemma PaddedFromEntry(ent: Range, size: nat, align: nat)
    requires size > 0 && IsPow2(align) && Roomy(ent, size, align)
    ensures FromEntry(ent, PaddedChoice(ent, size, align), size, align)
  {
    hide AlignFix, Rem, Pow2;
    AlignFixExact(ent.start, align);
  }

  lemma RegionFromEntry(ent: Range, region: Range, size: nat, align: u64)
    requires size > 0 && IsPow2(align) && ent.start <= ent.end && region.start <= region.end
    ensures RegionFit(ent, region, size, align).Some? ==>
              var p := RegionFit(ent, region, size, align).value;
              && FromEntry(ent, Choice(p, p + (size - 1), p), size, align)
              && region.start <= p && p + (size - 1) <= region.end
              && Roomy(ent, size, align)
  {
    hide AlignFix, Rem, RegionFit, Pow2;
    RegionFitExact(ent, region, size, align);
    FitsExactly(ent, size, align);
  }

  /** The search of `allocate_prefer`. `at` is the entry chosen and `via` the region, if a region decided. */
  method FindAllocation(entries: seq<Range>, size: u64, align: u64, request: Request)
    returns (allocation: Option<Choice>, ghost at: nat, ghost via: Option<nat>)
    requires ValidRanges(entries) && ValidRanges(RegionsOf(request))
    ensures allocation.None? <==> Refused(entries, size, align, request)
    ensures allocation.Some? ==>
              && size > 0 && IsPow2(align) && at < |entries|
              && Chosen(entries, size, align, request, allocation.value, at, via)
              && FromEntry(entries[at], allocation.value, size, align)
    ensures allocation.Some? && via.Some? ==>
              && via.value < |RegionsOf(request)| && allocation.value.base == allocation.value.ptr
              && RegionsOf(request)[via.value].start <= allocation.value.ptr
              && allocation.value.end <= RegionsOf(request)[via.value].end
    ensures allocation.Some? && via.None? ==>
              && !request.Forced?
              && NoOverflow(entries, |entries|, size, align)
              && NoMatch(entries, |entries|, RegionsOf(request), size, align)
              && BestFit(entries, |entries|, at, size, align)
              && allocation.value == PaddedChoice(entries[at], size, align)
    ensures allocation.None? && size > 0 && IsPow2(align) && NoOverflow(entries, |entries|, size, align) ==>
              && NoMatch(entries, |entries|, RegionsOf(request), size, align)
              && (request.Forced? || NoRoom(entries, |entries|, size, align))
  {
    hide AlignFix, PaddedEnd, RegionFit, Pow2, Rem, CountOnes, FromEntry;
    at, via := 0, None;
    OneBitIsPow2(align);
    if size == 0 { return None, at, via; }
    if CountOnes(align) != 1 { return None, at, via; }
    var regions := RegionsOf(request);
    allocation := None;
    for i := 0 to |entries|
      invariant NoOverflow(entries, i, size, align) && NoMatch(entries, i, regions, size, align)
      invariant via.None?
      invariant allocation.None? ==> request.Forced? || NoRoom(entries, i, size, align)
      invariant allocation.Some? ==> !request.Forced? && BestFit(entries, i, at, size, align)
                                     && allocation.value == PaddedChoice(entries[at], size, align)
    {
      var ent := entries[i];
      if PaddedEnd(ent, size, align) > U64_MAX {
        assert OverflowsFirst(entries, size, align, request, i);
        return None, at, via;
      }
      assert forall j :: 0 <= j < |regions| && RegionFit(ent, regions[j], size, align).Some? ==> Roomy(ent, size, align) by {
        forall j | 0 <= j < |regions| { RegionFromEntry(ent, regions[j], size, align); }
      }
      if PaddedEnd(ent, size, align) > ent.end {
        continue;
      }
      for j := 0 to |regions|
        invariant forall m :: 0 <= m < j ==> RegionFit(ent, regions[m], size, align).None?
      {
        var fit := RegionFit(ent, regions[j], size, align);
        if fit.Some? {
          RegionFromEntry(ent, regions[j], size, align);
          allocation, at, via := Some(Choice(fit.value, fit.value + (size - 1), fit.value)), i, Some(j);
          assert Chosen(entries, size, align, request, allocation.value, at, via);
          NeverBoth(entries, size, align, request, allocation.value, at, via);
          return;
        }
      }
      if !request.Forced? {
        PaddedLess(entries, i, at, size, align);
        if allocation.None? || allocation.value.end - allocation.value.base > PaddedEnd(ent, size, align) - ent.start {
          allocation := Some(PaddedChoice(ent, size, align));
          at := i;
        }
      }
    }
    if allocation.Some? {
      PaddedFromEntry(entries[at], size, align);
      NeverBoth(entries, size, align, request, allocation.value, at, via);
    }
  }

  /** Comparing the lengths of two padded blocks of one size compares their paddings. */
  lemma PaddedLess(entries: seq<Range>, i: nat, k: nat, size: nat, align: nat)
    requires size > 0 && align > 0 && i < |entries|
    ensures k < |entries| ==>
              (PaddedEnd(entries[k], size, align) - entries[k].start > PaddedEnd(entries[i], size, align) - entries[i].start
               <==> AlignFix(entries[k].start, align) > AlignFix(entries[i].start, align))
  {
    hide AlignFix;
  }

  /** An entry overflows exactly when no aligned block of the size behind its start ends within `u64`. */
  lemma OverflowIsNoBlock(ent: Range, size: nat, align: nat)
    requires size > 0 && IsPow2(align)
    ensures Overflowing(ent, size, align) <==> !HasBlock(size, align, Range(ent.start, U64_MAX))
  {
    hide AlignFix, Rem, Pow2, HasBlock;
    FitsExactly(Range(ent.start, U64_MAX), size, align);
  }

  /** With no overflowing entry, `allocate` fails exactly when no entry holds an aligned block of the size. */
  lemma NoRoomIsNoBlock(entries: seq<Range>, size: nat, align: nat)
    requires size > 0 && IsPow2(align)
    ensures NoRoom(entries, |entries|, size, align)
            <==> forall i :: 0 <= i < |entries| ==> !HasBlock(size, align, entries[i])
  {
    hide AlignFix, Rem, PaddedEnd, Pow2, HasBlock;
    forall i | 0 <= i < |entries| ensures Roomy(entries[i], size, align) <==> HasBlock(size, align, entries[i]) {
      FitsExactly(entries[i], size, align);
    }
  }

  /** An entry at the top of memory makes `allocate` give up although another entry has room. */
  lemma OverflowHidesRoom()
    ensures var entries := [Range(0, 4095), Range(U64_MAX, U64_MAX)];
            && Canonical(entries) && IsPow2(1)
            && Roomy(entries[0], 2, 1) && Overflowing(entries[1], 2, 1)
  {
    assert 1 == Pow2(0);
    AlignFixExact(0, 1);
    AlignFixExact(U64_MAX, 1);
  }
}
