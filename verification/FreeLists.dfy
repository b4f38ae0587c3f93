/** Groups of consecutive blocks and sorted lists of free groups, on values
    (libs/block-device/src/structs.rs, modules/wasabi-fs/src/block_allocator.rs). */
module FreeLists {
  import opened Machine
  import opened Sequences

  /** The first block and the number of blocks. */
  datatype BlockGroup = BlockGroup(start: nat, count: nat)

  /** Not empty, and the address behind the last block is still an `LBA`, so `end()` never panics. */
  predicate ValidGroup(g: BlockGroup) {
    g.count >= 1 && g.start + g.count < U64_MAX
  }

  function EndOf(g: BlockGroup): int {
    g.start + g.count - 1
  }

  predicate InGroup(x: int, g: BlockGroup) {
    g.start <= x < g.start + g.count
  }

  ghost function BlocksOf(g: BlockGroup): iset<int> {
    iset x | InGroup(x, g)
  }

  ghost predicate IsFree(f: seq<BlockGroup>, x: int) {
    exists i :: 0 <= i < |f| && InGroup(x, f[i])
  }

  ghost function FreeSet(f: seq<BlockGroup>): iset<int> {
    iset x | IsFree(f, x)
  }

  /** Sorted by address and not overlapping. */
  ghost predicate Disjoint(f: seq<BlockGroup>) {
    && (forall i :: 0 <= i < |f| ==> ValidGroup(f[i]))
    && (forall i, j :: 0 <= i < j < |f| ==> f[i].start + f[i].count <= f[j].start)
  }

  /** `check_consistent`: between neighbours there is at least one block in neither. */
  predicate CheckConsistent(f: seq<BlockGroup>) {
    forall i :: 0 <= i < |f| - 1 ==> f[i].start + f[i].count < f[i + 1].start
  }

  ghost predicate Consistent(f: seq<BlockGroup>) {
    Disjoint(f) && CheckConsistent(f)
  }

  /** Looking at neighbours only is enough: a list of valid groups that passes is sorted with gaps throughout. */
  lemma {:induction false} NeighboursSuffice(f: seq<BlockGroup>, i: nat, j: nat)
    requires CheckConsistent(f) && i < j < |f| && forall k :: 0 <= k < |f| ==> ValidGroup(f[k])
    ensures f[i].start + f[i].count < f[j].start
    decreases j
  {
    assert f[j - 1].start + f[j - 1].count < f[j - 1 + 1].start;
    if i < j - 1 {
      NeighboursSuffice(f, i, j - 1);
    }
  }

  // ----- Replacing one entry -----

  lemma FreeRemoveAt(f: seq<BlockGroup>, i: nat, x: int)
    requires Disjoint(f) && i < |f|
    ensures IsFree(RemoveAt(f, i), x) <==> IsFree(f, x) && !InGroup(x, f[i])
  {
    hide RemoveAt, Disjoint, InGroup;
    var t := RemoveAt(f, i);
    if IsFree(f, x) && !InGroup(x, f[i]) {
      var k :| 0 <= k < |f| && InGroup(x, f[k]);
      RemovedAt(f, i, k);
      MemberFree(t, if k < i then k else k - 1, x);
    }
    if IsFree(t, x) {
      var k :| 0 <= k < |t| && InGroup(x, t[k]);
      RemovedAt(f, i, i);
      var j := if k < i then k else k + 1;
      RemovedAt(f, i, j);
      OneHolds(f, i, j, x);
      MemberFree(f, j, x);
    }
  }

  lemma OneHolds(f: seq<BlockGroup>, i: nat, j: nat, x: int)
    requires Disjoint(f) && i < |f| && j < |f| && i != j && InGroup(x, f[j])
    ensures !InGroup(x, f[i])
  {
  }

  lemma RemovedAt(f: seq<BlockGroup>, i: nat, k: nat)
    requires i < |f| && k < |f|
    ensures var t := RemoveAt(f, i);
            |t| == |f| - 1 && (k < i ==> t[k] == f[k]) && (k > i ==> t[k - 1] == f[k])
  {
  }

  lemma FreeInsertAt(f: seq<BlockGroup>, i: nat, g: BlockGroup, x: int)
    requires i <= |f|
    ensures IsFree(InsertAt(f, i, g), x) <==> IsFree(f, x) || InGroup(x, g)
  {
    var t := InsertAt(f, i, g);
    assert t[i] == g;
    if IsFree(f, x) {
      var k :| 0 <= k < |f| && InGroup(x, f[k]);
      assert t[if k < i then k else k + 1] == f[k];
    }
    if IsFree(t, x) {
      var k :| 0 <= k < |t| && InGroup(x, t[k]);
      assert k < i ==> t[k] == f[k];
      assert k > i ==> t[k] == f[k - 1];
    }
  }

  lemma FreeUpdate(f: seq<BlockGroup>, i: nat, g: BlockGroup, x: int)
    requires Disjoint(f) && i < |f|
    ensures IsFree(f[i := g], x) <==> (IsFree(f, x) && !InGroup(x, f[i])) || InGroup(x, g)
  {
    var t := f[i := g];
    if IsFree(f, x) && !InGroup(x, f[i]) {
      var k :| 0 <= k < |f| && InGroup(x, f[k]);
      assert t[k] == f[k];
    }
    if InGroup(x, g) {
      assert InGroup(x, t[i]);
    }
    if IsFree(t, x) {
      var k :| 0 <= k < |t| && InGroup(x, t[k]);
      assert k != i ==> t[k] == f[k];
    }
  }

  // ----- mark_used -----

  /** `f2` is `f1` with block `b` taken out of its group. */
  ghost predicate MarksUsed(f1: seq<BlockGroup>, f2: seq<BlockGroup>, b: int, i: nat) {
    && i < |f1| && InGroup(b, f1[i])
    && var g := f1[i];
       f2 == if b == g.start && g.count == 1 then RemoveAt(f1, i)
             else if b == g.start then f1[i := BlockGroup(g.start + 1, g.count - 1)]
             else if b == EndOf(g) then f1[i := BlockGroup(g.start, g.count - 1)]
             else InsertAt(f1[i := BlockGroup(g.start, b - g.start)], i + 1, BlockGroup(b + 1, EndOf(g) - b))
  }

  lemma MarkUsedExact(f1: seq<BlockGroup>, f2: seq<BlockGroup>, b: int, i: nat)
    requires Consistent(f1) && MarksUsed(f1, f2, b, i)
    ensures Consistent(f2) && FreeSet(f2) == FreeSet(f1) - iset{b}
  {
    var g := f1[i];
    forall x ensures IsFree(f2, x) <==> IsFree(f1, x) && x != b {
      MarkUsedOne(f1, f2, b, i, x);
    }
    MarkUsedConsistent(f1, f2, b, i);
  }

  lemma MarkUsedOne(f1: seq<BlockGroup>, f2: seq<BlockGroup>, b: int, i: nat, x: int)
    requires Disjoint(f1) && MarksUsed(f1, f2, b, i)
    ensures IsFree(f2, x) <==> IsFree(f1, x) && x != b
  {
    hide IsFree, RemoveAt, InsertAt, Disjoint;
    var g := f1[i];
    assert ValidGroup(g) by { DisjointValid(f1, i); }
    MemberFree(f1, i, x);
    MemberFree(f1, i, b);
    if b == g.start && g.count == 1 {
      FreeRemoveAt(f1, i, x);
    } else if b == g.start {
      FreeUpdate(f1, i, BlockGroup(g.start + 1, g.count - 1), x);
    } else if b == EndOf(g) {
      FreeUpdate(f1, i, BlockGroup(g.start, g.count - 1), x);
    } else {
      FreeUpdate(f1, i, BlockGroup(g.start, b - g.start), x);
      FreeInsertAt(f1[i := BlockGroup(g.start, b - g.start)], i + 1, BlockGroup(b + 1, EndOf(g) - b), x);
    }
  }

  lemma DisjointValid(f: seq<BlockGroup>, i: nat)
    requires Disjoint(f) && i < |f|
    ensures ValidGroup(f[i])
  {
  }

  lemma MemberFree(f: seq<BlockGroup>, i: nat, x: int)
    requires i < |f|
    ensures InGroup(x, f[i]) ==> IsFree(f, x)
  {
  }

  lemma NobodyHolds(f: seq<BlockGroup>, x: int)
    requires forall k :: 0 <= k < |f| ==> !InGroup(x, f[k])
    ensures !IsFree(f, x)
  {
  }

  lemma RemoveAtConsistent(f: seq<BlockGroup>, i: nat)
    requires Disjoint(f) && i < |f|
    ensures Disjoint(RemoveAt(f, i))
    ensures CheckConsistent(f) ==> CheckConsistent(RemoveAt(f, i))
  {
    var t := RemoveAt(f, i);
    assert forall k :: 0 <= k < |t| ==> t[k] == if k < i then f[k] else f[k + 1];
    if CheckConsistent(f) {
      forall k | 0 <= k < |t| - 1 ensures t[k].start + t[k].count < t[k + 1].start {
        NeighboursSuffice(f, if k < i then k else k + 1, if k + 1 < i then k + 1 else k + 2);
      }
    }
  }

  /** Shrinking a group within its bounds. */
  lemma ShrinkConsistent(f: seq<BlockGroup>, i: nat, g: BlockGroup)
    requires Disjoint(f) && i < |f| && g.count >= 1
    requires f[i].start <= g.start && g.start + g.count <= f[i].start + f[i].count
    ensures Disjoint(f[i := g])
    ensures CheckConsistent(f) ==> CheckConsistent(f[i := g])
  {
  }

  lemma ConsistentFromNeighbours(f: seq<BlockGroup>)
    requires CheckConsistent(f) && forall k :: 0 <= k < |f| ==> ValidGroup(f[k])
    ensures Consistent(f)
  {
    forall i, j | 0 <= i < j < |f| ensures f[i].start + f[i].count <= f[j].start {
      NeighboursSuffice(f, i, j);
    }
  }

  lemma SplitAt(f: seq<BlockGroup>, i: nat, g: BlockGroup, h: BlockGroup)
    requires i < |f|
    ensures var t := InsertAt(f[i := g], i + 1, h);
            && |t| == |f| + 1 && t[i] == g && t[i + 1] == h
            && (forall k :: 0 <= k < i ==> t[k] == f[k])
            && (forall k :: i + 1 < k < |t| ==> t[k] == f[k - 1])
  {
  }

  /** Splitting a group into two with a gap. */
  lemma SplitConsistent(f: seq<BlockGroup>, i: nat, g: BlockGroup, h: BlockGroup)
    requires Consistent(f) && i < |f| && g.count >= 1 && h.count >= 1
    requires f[i].start <= g.start && g.start + g.count < h.start && h.start + h.count <= f[i].start + f[i].count
    ensures Consistent(InsertAt(f[i := g], i + 1, h))
  {
    SplitAt(f, i, g, h);
    hide InsertAt;
    var t := InsertAt(f[i := g], i + 1, h);
    forall k | 0 <= k < |t| - 1 ensures t[k].start + t[k].count < t[k + 1].start {
      if k < i {
        assert f[k].start + f[k].count < f[k + 1].start;
      } else if k > i {
        assert f[k - 1].start + f[k - 1].count < f[k - 1 + 1].start;
      }
    }
    ConsistentFromNeighbours(t);
  }

  lemma MarkUsedConsistent(f1: seq<BlockGroup>, f2: seq<BlockGroup>, b: int, i: nat)
    requires Consistent(f1) && MarksUsed(f1, f2, b, i)
    ensures Consistent(f2)
  {
    hide RemoveAt, InsertAt, CheckConsistent, Disjoint;
    var g := f1[i];
    assert ValidGroup(g) by { DisjointValid(f1, i); }
    if b == g.start && g.count == 1 {
      RemoveAtConsistent(f1, i);
    } else if b == g.start {
      ShrinkConsistent(f1, i, BlockGroup(g.start + 1, g.count - 1));
    } else if b == EndOf(g) {
      ShrinkConsistent(f1, i, BlockGroup(g.start, g.count - 1));
    } else {
      SplitConsistent(f1, i, BlockGroup(g.start, b - g.start), BlockGroup(b + 1, EndOf(g) - b));
    }
  }

  // ----- allocate_group -----

  /** Group `i` is the first of the smallest groups that hold `size` blocks. */
  ghost predicate BestGroup(f: seq<BlockGroup>, size: nat, i: nat) {
    && i < |f| && f[i].count >= size
    && (forall k :: 0 <= k < |f| && f[k].count >= size ==> f[i].count <= f[k].count)
    && (forall k :: 0 <= k < i && f[k].count >= size ==> f[i].count < f[k].count)
  }

  ghost predicate HasGroup(f: seq<BlockGroup>, size: nat) {
    exists i :: 0 <= i < |f| && f[i].count >= size
  }

  /** `f2` is `f1` with `g`, the first `size` blocks of the best group, taken out. */
  ghost predicate AllocatesGroup(f1: seq<BlockGroup>, f2: seq<BlockGroup>, size: nat, g: BlockGroup, i: nat) {
    && BestGroup(f1, size, i)
    && g == BlockGroup(f1[i].start, size)
    && f2 == if f1[i].count == size then RemoveAt(f1, i)
             else f1[i := BlockGroup(f1[i].start + size, f1[i].count - size)]
  }

  lemma {:induction false} BestExists(f: seq<BlockGroup>, size: nat) returns (i: nat)
    requires HasGroup(f, size)
    ensures BestGroup(f, size, i)
    decreases |f|
  {
    var n := |f| - 1;
    if HasGroup(f[..n], size) {
      i := BestExists(f[..n], size);
      if size <= f[n].count < f[i].count { i := n; }
    } else {
      i := n;
    }
    assert forall k :: 0 <= k < n ==> f[..n][k] == f[k];
  }

  /** The group `allocate_group` takes from. */
  ghost function BestFor(f: seq<BlockGroup>, size: nat): (i: nat)
    requires HasGroup(f, size)
    ensures BestGroup(f, size, i)
  {
    assert exists i: nat :: BestGroup(f, size, i) by {
      var i := BestExists(f, size);
    }
    var i: nat :| BestGroup(f, size, i); i
  }

  ghost function WithoutFirst(f: seq<BlockGroup>, i: nat): seq<BlockGroup>
    requires i < |f| && f[i].count >= 1
  {
    if f[i].count == 1 then RemoveAt(f, i) else f[i := BlockGroup(f[i].start + 1, f[i].count - 1)]
  }

  lemma AllocatesBest(f1: seq<BlockGroup>, f2: seq<BlockGroup>, g: BlockGroup, i: nat)
    requires AllocatesGroup(f1, f2, 1, g, i)
    ensures HasGroup(f1, 1) && i == BestFor(f1, 1) && g.start == f1[i].start && f2 == WithoutFirst(f1, i)
  {
    var j := BestFor(f1, 1);
    assert f1[i].count == f1[j].count;
  }

  lemma AllocateGroupExact(f1: seq<BlockGroup>, f2: seq<BlockGroup>, size: nat, g: BlockGroup, i: nat)
    requires Disjoint(f1) && size >= 1 && AllocatesGroup(f1, f2, size, g, i)
    ensures Disjoint(f2) && (CheckConsistent(f1) ==> CheckConsistent(f2)) && |f2| <= |f1|
    ensures ValidGroup(g) && BlocksOf(g) <= FreeSet(f1)
    ensures FreeSet(f2) == FreeSet(f1) - BlocksOf(g)
  {
    assert |f2| <= |f1|;
    hide IsFree, RemoveAt, CheckConsistent, Disjoint, BestGroup;
    DisjointValid(f1, i);
    BestGroupSize(f1, size, i);
    var rest := BlockGroup(f1[i].start + size, f1[i].count - size);
    forall x ensures IsFree(f2, x) <==> IsFree(f1, x) && !InGroup(x, g) {
      MemberFree(f1, i, x);
      FreeRemoveAt(f1, i, x);
      FreeUpdate(f1, i, rest, x);
    }
    forall x | InGroup(x, g) ensures IsFree(f1, x) {
      MemberFree(f1, i, x);
    }
    if f1[i].count == size {
      RemoveAtConsistent(f1, i);
    } else {
      ShrinkConsistent(f1, i, rest);
    }
  }

  lemma BestGroupSize(f: seq<BlockGroup>, size: nat, i: nat)
    requires BestGroup(f, size, i)
    ensures f[i].count >= size
  {
  }

  // ----- free_group -----

  /** The loop of `free_group` from position `i`: insert before the first later group, or extend the group that
      ends directly before; past the end, nothing happens. */
  function FreeFrom(f: seq<BlockGroup>, g: BlockGroup, i: nat): seq<BlockGroup>
    requires i <= |f|
    decreases |f| - i
  {
    if i == |f| then f
    else if f[i].start > g.start then InsertAt(f, i, g)
    else if EndOf(f[i]) + 1 == g.start then f[i := BlockGroup(f[i].start, f[i].count + g.count)]
    else FreeFrom(f, g, i + 1)
  }

  function FreeGroup(f: seq<BlockGroup>, g: BlockGroup): seq<BlockGroup> {
    FreeFrom(f, g, 0)
  }

  /** The loop stops at this group. */
  predicate Stops(h: BlockGroup, g: BlockGroup) {
    h.start > g.start || h.start + h.count == g.start
  }

  ghost predicate StopsSomewhere(f: seq<BlockGroup>, g: BlockGroup) {
    exists i :: 0 <= i < |f| && Stops(f[i], g)
  }

  ghost predicate NoneFree(f: seq<BlockGroup>, g: BlockGroup) {
    forall x :: InGroup(x, g) ==> !IsFree(f, x)
  }

  /** Where the loop stops, if anywhere, and what it does there. */
  lemma {:induction false} FreeFromStops(f: seq<BlockGroup>, g: BlockGroup, i: nat) returns (k: nat)
    requires i <= |f| && forall m :: 0 <= m < i ==> !Stops(f[m], g)
    ensures k <= |f| && forall m :: 0 <= m < k ==> !Stops(f[m], g)
    ensures k == |f| ==> FreeFrom(f, g, i) == f
    ensures k < |f| ==> Stops(f[k], g)
    ensures k < |f| ==> FreeFrom(f, g, i) == if f[k].start > g.start then InsertAt(f, k, g)
                                             else f[k := BlockGroup(f[k].start, f[k].count + g.count)]
    decreases |f| - i
  {
    if i == |f| || Stops(f[i], g) {
      k := i;
    } else {
      k := FreeFromStops(f, g, i + 1);
    }
  }

  /** A group next to a disjoint one either ends before it or starts behind it. */
  lemma Aside(f: seq<BlockGroup>, g: BlockGroup, k: nat)
    requires Disjoint(f) && ValidGroup(g) && NoneFree(f, g) && k < |f|
    ensures f[k].start + f[k].count <= g.start || g.start + g.count <= f[k].start
  {
    MemberFree(f, k, f[k].start);
    MemberFree(f, k, g.start);
    assert InGroup(f[k].start, f[k]) && InGroup(g.start, g);
  }

  lemma InsertedAt(f: seq<BlockGroup>, k: nat, g: BlockGroup)
    requires k <= |f|
    ensures var t := InsertAt(f, k, g);
            && |t| == |f| + 1 && t[k] == g
            && (forall m :: 0 <= m < k ==> t[m] == f[m])
            && (forall m :: k < m < |t| ==> t[m] == f[m - 1])
  {
  }

  /** The freed group falls into the gap between `f[k - 1]` and `f[k]`, away from the former. */
  lemma InsertGap(f: seq<BlockGroup>, g: BlockGroup, k: nat)
    requires Disjoint(f) && ValidGroup(g) && NoneFree(f, g) && k < |f| && f[k].start > g.start
    requires forall m :: 0 <= m < k ==> !Stops(f[m], g)
    ensures forall m :: 0 <= m < k ==> f[m].start + f[m].count < g.start
    ensures forall m :: k <= m < |f| ==> g.start + g.count <= f[m].start
  {
    hide NoneFree;
    forall m | 0 <= m < |f| ensures m < k ==> f[m].start + f[m].count < g.start
                            ensures k <= m ==> g.start + g.count <= f[m].start {
      Aside(f, g, m);
      Aside(f, g, k);
    }
  }

  lemma InsertDisjoint(f: seq<BlockGroup>, g: BlockGroup, k: nat)
    requires Disjoint(f) && ValidGroup(g) && NoneFree(f, g) && k < |f| && f[k].start > g.start
    requires forall m :: 0 <= m < k ==> !Stops(f[m], g)
    ensures Disjoint(InsertAt(f, k, g))
    ensures CheckConsistent(f) ==> (CheckConsistent(InsertAt(f, k, g)) <==> f[k].start != g.start + g.count)
  {
    InsertedAt(f, k, g);
    InsertGap(f, g, k);
    hide InsertAt, NoneFree;
    var t := InsertAt(f, k, g);
    assert Disjoint(t);
    if CheckConsistent(f) {
      InsertConsistent(f, g, k);
    }
  }

  lemma InsertConsistent(f: seq<BlockGroup>, g: BlockGroup, k: nat)
    requires CheckConsistent(f) && k < |f| && forall m :: 0 <= m < k ==> f[m].start + f[m].count < g.start
    requires g.start + g.count <= f[k].start
    ensures CheckConsistent(InsertAt(f, k, g)) <==> f[k].start != g.start + g.count
  {
    InsertedAt(f, k, g);
    hide InsertAt;
    var t := InsertAt(f, k, g);
    if f[k].start != g.start + g.count {
      forall m | 0 <= m < |t| - 1 ensures t[m].start + t[m].count < t[m + 1].start {
        if m > k {
          assert f[m - 1].start + f[m - 1].count < f[m - 1 + 1].start;
        } else if m < k - 1 {
          assert f[m].start + f[m].count < f[m + 1].start;
        }
      }
    } else {
      assert t[k].start + t[k].count == t[k + 1].start;
    }
  }

  lemma ExtendDisjoint(f: seq<BlockGroup>, g: BlockGroup, k: nat)
    requires Disjoint(f) && ValidGroup(g) && NoneFree(f, g) && k < |f| && f[k].start + f[k].count == g.start
    ensures Disjoint(f[k := BlockGroup(f[k].start, f[k].count + g.count)])
    ensures CheckConsistent(f) ==> (CheckConsistent(f[k := BlockGroup(f[k].start, f[k].count + g.count)])
                                    <==> (k + 1 < |f| ==> f[k + 1].start != g.start + g.count))
  {
    hide IsFree;
    var t := f[k := BlockGroup(f[k].start, f[k].count + g.count)];
    forall m | k < m < |f| ensures g.start + g.count <= f[m].start {
      Aside(f, g, m);
    }
    if CheckConsistent(f) {
      if k + 1 < |f| {
        if f[k + 1].start == g.start + g.count {
          assert t[k].start + t[k].count == t[k + 1].start;
        }
      }
    }
  }

  /** `free_group` keeps the list sorted; it gives the blocks back exactly when its loop stops somewhere,
      and otherwise leaves the list as it was. */
  lemma FreeGroupExact(f: seq<BlockGroup>, g: BlockGroup)
    requires Disjoint(f) && ValidGroup(g) && NoneFree(f, g)
    ensures Disjoint(FreeGroup(f, g)) && |FreeGroup(f, g)| <= |f| + 1
    ensures StopsSomewhere(f, g) ==> FreeSet(FreeGroup(f, g)) == FreeSet(f) + BlocksOf(g)
    ensures !StopsSomewhere(f, g) ==> FreeGroup(f, g) == f
    ensures Consistent(f) && StopsSomewhere(f, g) ==>
              (CheckConsistent(FreeGroup(f, g)) <==> forall k :: 0 <= k < |f| ==> f[k].start != g.start + g.count)
  {
    var k := FreeFromStops(f, g, 0);
    hide FreeFrom, InsertAt, IsFree, CheckConsistent, Disjoint, Consistent;
    if k < |f| {
      ConsistentIs(f);
      if f[k].start > g.start {
        InsertDisjoint(f, g, k);
        InsertedFree(f, g, k);
        InsertedAt(f, k, g);
      } else {
        ExtendDisjoint(f, g, k);
        ExtendedFree(f, g, k);
      }
      NextStart(f, g, k);
    }
  }

  lemma InsertedFree(f: seq<BlockGroup>, g: BlockGroup, k: nat)
    requires k <= |f|
    ensures FreeSet(InsertAt(f, k, g)) == FreeSet(f) + BlocksOf(g)
  {
    hide InsertAt, IsFree;
    forall x ensures IsFree(InsertAt(f, k, g), x) <==> IsFree(f, x) || InGroup(x, g) {
      FreeInsertAt(f, k, g, x);
    }
  }

  lemma ExtendedFree(f: seq<BlockGroup>, g: BlockGroup, k: nat)
    requires Disjoint(f) && k < |f| && f[k].start + f[k].count == g.start
    ensures FreeSet(f[k := BlockGroup(f[k].start, f[k].count + g.count)]) == FreeSet(f) + BlocksOf(g)
  {
    hide IsFree, Disjoint;
    var e := BlockGroup(f[k].start, f[k].count + g.count);
    forall x ensures IsFree(f[k := e], x) <==> IsFree(f, x) || InGroup(x, g) {
      FreeUpdate(f, k, e, x);
      MemberFree(f, k, x);
    }
  }

  /** Only the group behind the stopping place can start right behind the freed blocks. */
  lemma NextStart(f: seq<BlockGroup>, g: BlockGroup, k: nat)
    requires Disjoint(f) && ValidGroup(g) && NoneFree(f, g) && k < |f| && Stops(f[k], g)
    requires forall m :: 0 <= m < k ==> !Stops(f[m], g)
    ensures var j := if f[k].start > g.start then k else k + 1;
            (forall m :: 0 <= m < |f| ==> f[m].start != g.start + g.count)
            <==> (j < |f| ==> f[j].start != g.start + g.count)
  {
    hide NoneFree;
    var j := if f[k].start > g.start then k else k + 1;
    if j < |f| {
      Aside(f, g, j);
      assert forall m :: j < m < |f| ==> f[j].start + f[j].count <= f[m].start;
    }
  }

  /** Freeing several groups in a row, as `free` does. */
  function FreeAll(f: seq<BlockGroup>, groups: seq<BlockGroup>): seq<BlockGroup> {
    if |groups| == 0 then f else FreeGroup(FreeAll(f, groups[..|groups| - 1]), groups[|groups| - 1])
  }

  /** Whether the blocks just allocated come back when they are freed again: only if something behind them is
      free. A group handed out whole from the end of the list is lost. */
  lemma FreeUndoesAllocate(f1: seq<BlockGroup>, f2: seq<BlockGroup>, size: nat, g: BlockGroup, i: nat)
    requires Consistent(f1) && size >= 1 && AllocatesGroup(f1, f2, size, g, i)
    ensures FreeSet(FreeGroup(f2, g)) == FreeSet(f1) <==> exists x :: x > EndOf(g) && IsFree(f1, x)
    ensures !(exists x :: x > EndOf(g) && IsFree(f1, x)) ==> FreeGroup(f2, g) == f2
  {
    AllocateGroupExact(f1, f2, size, g, i);
    assert NoneFree(f2, g) by {
      forall x | InGroup(x, g) ensures !IsFree(f2, x) {
        assert x in BlocksOf(g) && x !in FreeSet(f2);
      }
    }
    FreeGroupExact(f2, g);
    StopsIffFreeBehind(f1, f2, size, g, i);
    assert g.start in BlocksOf(g) && g.start in FreeSet(f1) && g.start !in FreeSet(f2);
  }

  /** All five blocks of a device, allocated as one group and freed again: the free list stays empty. */
  lemma WholeGroupIsLost()
    ensures var g := BlockGroup(0, 5);
            Consistent([g]) && AllocatesGroup([g], [], 5, g, 0) && FreeGroup([], g) == []
  {
    var f := [BlockGroup(0, 5)];
    assert RemoveAt(f, 0) == [];
  }

  lemma StopsIffFreeBehind(f1: seq<BlockGroup>, f2: seq<BlockGroup>, size: nat, g: BlockGroup, i: nat)
    requires Consistent(f1) && size >= 1 && AllocatesGroup(f1, f2, size, g, i)
    ensures StopsSomewhere(f2, g) <==> exists x :: x > EndOf(g) && IsFree(f1, x)
  {
    hide Consistent, AllocatesGroup, IsFree;
    if StopsSomewhere(f2, g) {
      var k :| 0 <= k < |f2| && Stops(f2[k], g);
      StopMeansFree(f1, f2, size, g, i, k);
    }
    if x :| x > EndOf(g) && IsFree(f1, x) {
      FreeMeansStop(f1, f2, size, g, i, x);
    }
  }

  /** The free groups after an allocation are the old ones, except where the best group was. */
  lemma AllocatedList(f1: seq<BlockGroup>, f2: seq<BlockGroup>, size: nat, g: BlockGroup, i: nat)
    requires AllocatesGroup(f1, f2, size, g, i)
    ensures i < |f1| && g == BlockGroup(f1[i].start, size) && f1[i].count >= size
    ensures f1[i].count == size ==> |f2| == |f1| - 1 && (forall k :: 0 <= k < i ==> f2[k] == f1[k])
                                    && forall k :: i <= k < |f2| ==> f2[k] == f1[k + 1]
    ensures f1[i].count > size ==> |f2| == |f1| && (forall k :: 0 <= k < |f1| && k != i ==> f2[k] == f1[k])
                                   && f2[i] == BlockGroup(f1[i].start + size, f1[i].count - size)
  {
  }

  lemma StopMeansFree(f1: seq<BlockGroup>, f2: seq<BlockGroup>, size: nat, g: BlockGroup, i: nat, k: nat)
    requires Consistent(f1) && size >= 1 && AllocatesGroup(f1, f2, size, g, i) && k < |f2| && Stops(f2[k], g)
    ensures exists x :: x > EndOf(g) && IsFree(f1, x)
  {
    AllocatedList(f1, f2, size, g, i);
    hide AllocatesGroup, IsFree;
    var m := if f1[i].count == size && k >= i then k + 1 else k;
    if m < i {
      NeighboursSuffice(f1, m, i);
    } else {
      var x := EndOf(f1[m]);
      assert x > EndOf(g) by {
        if m > i { NeighboursSuffice(f1, i, m); }
      }
      MemberFree(f1, m, x);
    }
  }

  lemma FreeMeansStop(f1: seq<BlockGroup>, f2: seq<BlockGroup>, size: nat, g: BlockGroup, i: nat, x: int)
    requires Consistent(f1) && size >= 1 && AllocatesGroup(f1, f2, size, g, i) && x > EndOf(g) && IsFree(f1, x)
    ensures StopsSomewhere(f2, g)
  {
    AllocatedList(f1, f2, size, g, i);
    hide AllocatesGroup;
    var m :| 0 <= m < |f1| && InGroup(x, f1[m]);
    var k := if f1[i].count == size then m - 1 else i;
    assert Stops(f2[k], g);
  }

  // ----- Counting free blocks -----

  function FreeCount(f: seq<BlockGroup>): nat {
    if |f| == 0 then 0 else FreeCount(f[..|f| - 1]) + f[|f| - 1].count
  }

  lemma {:induction false} FreeCountAppend(a: seq<BlockGroup>, b: seq<BlockGroup>)
    ensures FreeCount(a + b) == FreeCount(a) + FreeCount(b)
    decreases |b|
  {
    if |b| == 0 {
      assert a + b == a;
    } else {
      var n := |b| - 1;
      assert (a + b)[..|a| + n] == a + b[..n];
      FreeCountAppend(a, b[..n]);
    }
  }

  lemma FreeCountOne(g: BlockGroup)
    ensures FreeCount([g]) == g.count
  {
    assert [g][..0] == [];
  }

  lemma FreeCountAround(a: seq<BlockGroup>, g: BlockGroup, b: seq<BlockGroup>)
    ensures FreeCount(a + [g] + b) == FreeCount(a) + g.count + FreeCount(b)
    ensures FreeCount(a + b) == FreeCount(a) + FreeCount(b)
  {
    FreeCountAppend(a + [g], b);
    FreeCountAppend(a, [g]);
    FreeCountOne(g);
    FreeCountAppend(a, b);
  }

  lemma FreeCountEdit(f: seq<BlockGroup>, i: nat, g: BlockGroup)
    requires i < |f|
    ensures FreeCount(f[i := g]) == FreeCount(f) - f[i].count + g.count
    ensures FreeCount(RemoveAt(f, i)) == FreeCount(f) - f[i].count
    ensures f[i].count <= FreeCount(f)
  {
    var a, b := f[..i], f[i + 1..];
    assert f == a + [f[i]] + b && f[i := g] == a + [g] + b && RemoveAt(f, i) == a + b;
    FreeCountAround(a, f[i], b);
    FreeCountAround(a, g, b);
  }

  lemma FreeCountInsert(f: seq<BlockGroup>, i: nat, g: BlockGroup)
    requires i <= |f|
    ensures FreeCount(InsertAt(f, i, g)) == FreeCount(f) + g.count
  {
    assert f == f[..i] + f[i..];
    FreeCountAround(f[..i], g, f[i..]);
  }

  lemma AllocateCount(f1: seq<BlockGroup>, f2: seq<BlockGroup>, size: nat, g: BlockGroup, i: nat)
    requires AllocatesGroup(f1, f2, size, g, i)
    ensures FreeCount(f2) + size == FreeCount(f1)
  {
    hide FreeCount, RemoveAt;
    BestGroupSize(f1, size, i);
    FreeCountEdit(f1, i, BlockGroup(f1[i].start + size, f1[i].count - size));
  }

  /** Freeing never lowers the count, whether or not the blocks come back. */
  lemma {:induction false} FreeGroupCount(f: seq<BlockGroup>, g: BlockGroup, i: nat)
    requires i <= |f|
    ensures FreeCount(f) <= FreeCount(FreeFrom(f, g, i)) <= FreeCount(f) + g.count
    decreases |f| - i
  {
    hide FreeCount, InsertAt;
    if i == |f| {
    } else {
      FreeCountInsert(f, i, g);
      FreeCountEdit(f, i, BlockGroup(f[i].start, f[i].count + g.count));
      FreeGroupCount(f, g, i + 1);
    }
  }

  lemma {:induction false} SomeFree(f: seq<BlockGroup>)
    ensures FreeCount(f) > 0 <==> HasGroup(f, 1)
    decreases |f|
  {
    if |f| == 0 {
    } else {
      var n := |f| - 1;
      SomeFree(f[..n]);
      if HasGroup(f[..n], 1) {
        var i :| 0 <= i < n && f[..n][i].count >= 1;
        assert f[i].count >= 1;
      }
      if HasGroup(f, 1) {
        var i :| 0 <= i < |f| && f[i].count >= 1;
        assert i < n ==> f[..n][i].count >= 1;
      }
    }
  }

  /** The free list and the groups handed out, over the device blocks `0 .. limit`. */
  datatype Usage = Usage(free: seq<BlockGroup>, handed: seq<BlockGroup>)

  /** One successful `mark_used`, `allocate_group` or `allocate`. */
  ghost predicate UsageStep(u: Usage, v: Usage) {
    || (exists b: nat, i: nat :: MarksUsed(u.free, v.free, b, i) && v.handed == u.handed + [BlockGroup(b, 1)])
    || (exists size: nat, g: BlockGroup, i: nat ::
          size >= 1 && AllocatesGroup(u.free, v.free, size, g, i) && v.handed == u.handed + [g])
  }

  /** Free and handed-out blocks partition the device, and no block is handed out twice. */
  ghost predicate UsageInv(u: Usage, limit: nat) {
    && Consistent(u.free)
    && (forall x :: 0 <= x < limit <==> IsFree(u.free, x) || IsFree(u.handed, x))
    && (forall x :: !(IsFree(u.free, x) && IsFree(u.handed, x)))
    && (forall i, j, x :: 0 <= i < j < |u.handed| && InGroup(x, u.handed[i]) ==> !InGroup(x, u.handed[j]))
  }

  /** Moving a group of free blocks to the groups handed out. */
  lemma HandOut(u: Usage, v: Usage, g: BlockGroup, limit: nat)
    requires UsageInv(u, limit) && v.handed == u.handed + [g] && Consistent(v.free)
    requires forall x :: InGroup(x, g) ==> IsFree(u.free, x)
    requires forall x :: IsFree(v.free, x) <==> IsFree(u.free, x) && !InGroup(x, g)
    ensures UsageInv(v, limit)
  {
    hide Consistent;
    forall x ensures IsFree(v.handed, x) <==> IsFree(u.handed, x) || InGroup(x, g) {
      HandedSnoc(u.handed, g, x);
    }
    forall i, x | 0 <= i < |u.handed| && InGroup(x, u.handed[i]) ensures !InGroup(x, g) {
      MemberFree(u.handed, i, x);
    }
  }

  lemma HandedSnoc(h: seq<BlockGroup>, g: BlockGroup, x: int)
    ensures IsFree(h + [g], x) <==> IsFree(h, x) || InGroup(x, g)
  {
    assert (h + [g])[|h|] == g;
    if IsFree(h, x) {
      var k :| 0 <= k < |h| && InGroup(x, h[k]);
      assert (h + [g])[k] == h[k];
    }
  }

  lemma UsageStepKeepsInv(u: Usage, v: Usage, limit: nat)
    requires UsageInv(u, limit) && UsageStep(u, v)
    ensures UsageInv(v, limit)
  {
    hide UsageInv, MarksUsed, AllocatesGroup, Consistent;
    assert Consistent(u.free) by { UsageConsistent(u, limit); }
    if b: nat, i: nat :| MarksUsed(u.free, v.free, b, i) && v.handed == u.handed + [BlockGroup(b, 1)] {
      MarkUsedExact(u.free, v.free, b, i);
      MarkedWasFree(u.free, v.free, b, i);
      FreeSetMembers(u.free, v.free, BlockGroup(b, 1));
      HandOut(u, v, BlockGroup(b, 1), limit);
    } else {
      var size: nat, g: BlockGroup, i: nat :|
        size >= 1 && AllocatesGroup(u.free, v.free, size, g, i) && v.handed == u.handed + [g];
      ConsistentIs(u.free);
      AllocateGroupExact(u.free, v.free, size, g, i);
      ConsistentIs(v.free);
      FreeSetMembers(u.free, v.free, g);
      HandOut(u, v, g, limit);
    }
  }

  lemma UsageConsistent(u: Usage, limit: nat)
    requires UsageInv(u, limit)
    ensures Consistent(u.free)
  {
  }

  lemma ConsistentIs(f: seq<BlockGroup>)
    ensures Consistent(f) <==> Disjoint(f) && CheckConsistent(f)
  {
  }

  lemma MarkedWasFree(f1: seq<BlockGroup>, f2: seq<BlockGroup>, b: nat, i: nat)
    requires MarksUsed(f1, f2, b, i)
    ensures BlocksOf(BlockGroup(b, 1)) == iset{b} && BlocksOf(BlockGroup(b, 1)) <= FreeSet(f1)
  {
    MemberFree(f1, i, b);
  }

  lemma FreeSetMembers(f1: seq<BlockGroup>, f2: seq<BlockGroup>, g: BlockGroup)
    requires BlocksOf(g) <= FreeSet(f1) && FreeSet(f2) == FreeSet(f1) - BlocksOf(g)
    ensures forall x :: InGroup(x, g) ==> IsFree(f1, x)
    ensures forall x :: IsFree(f2, x) <==> IsFree(f1, x) && !InGroup(x, g)
  {
    forall x ensures InGroup(x, g) ==> IsFree(f1, x)
             ensures IsFree(f2, x) <==> IsFree(f1, x) && !InGroup(x, g) {
      assert (x in BlocksOf(g) <==> InGroup(x, g)) && (x in FreeSet(f1) <==> IsFree(f1, x)) && (x in FreeSet(f2) <==> IsFree(f2, x));
    }
  }

  /** Conservation: in every run from an empty device of `limit` blocks, free and handed-out blocks partition
      it, no block is handed out twice, and the free list stays sorted with gaps. */
  lemma {:induction false} BlocksAreConserved(run: seq<Usage>, limit: nat)
    requires 1 <= limit < U64_MAX && |run| > 0 && run[0] == Usage([BlockGroup(0, limit)], [])
    requires forall k :: 0 <= k < |run| - 1 ==> UsageStep(run[k], run[k + 1])
    ensures UsageInv(run[|run| - 1], limit)
    decreases |run|
  {
    hide UsageStep, UsageInv;
    if |run| == 1 {
      InitialUsage(limit);
    } else {
      BlocksAreConserved(run[..|run| - 1], limit);
      UsageStepKeepsInv(run[|run| - 2], run[|run| - 1], limit);
    }
  }

  lemma InitialUsage(limit: nat)
    requires 1 <= limit < U64_MAX
    ensures UsageInv(Usage([BlockGroup(0, limit)], []), limit)
  {
    var f := [BlockGroup(0, limit)];
    forall x ensures IsFree(f, x) <==> 0 <= x < limit {
      assert InGroup(x, f[0]) <==> 0 <= x < limit;
    }
  }

  // ----- Runs with frees -----

  datatype Action = Mark(block: nat) | Take(group: BlockGroup) | Give(group: BlockGroup)

  /** The free list and the blocks in use, which a free may give back in other groups than they were taken in. */
  datatype Books = Books(free: seq<BlockGroup>, used: iset<int>)

  /** One `mark_used`, `allocate_group` or `free_group` that does what its caller may ask for. */
  ghost predicate BooksStep(u: Books, a: Action, v: Books) {
    match a
    case Mark(b) => v.used == u.used + iset{b} && exists i: nat :: MarksUsed(u.free, v.free, b, i)
    case Take(g) =>
      v.used == u.used + BlocksOf(g) && g.count >= 1 && exists i: nat :: AllocatesGroup(u.free, v.free, g.count, g, i)
    case Give(g) =>
      v == Books(FreeGroup(u.free, g), u.used - BlocksOf(g)) && ValidGroup(g) && BlocksOf(g) <= u.used
  }

  /** Blocks that are neither free nor in use. */
  ghost function Lost(u: Books, limit: nat): iset<int> {
    BlocksOf(BlockGroup(0, limit)) - FreeSet(u.free) - u.used
  }

  ghost predicate BooksInv(u: Books, limit: nat) {
    Disjoint(u.free) && FreeSet(u.free) !! u.used && FreeSet(u.free) + u.used <= BlocksOf(BlockGroup(0, limit))
  }

  /** The action frees these blocks where the loop stops nowhere. */
  ghost predicate Loses(u: Books, a: Action) {
    a.Give? && !StopsSomewhere(u.free, a.group)
  }

  lemma MarkUsedDisjoint(f1: seq<BlockGroup>, f2: seq<BlockGroup>, b: int, i: nat)
    requires Disjoint(f1) && MarksUsed(f1, f2, b, i)
    ensures Disjoint(f2) && FreeSet(f2) == FreeSet(f1) - iset{b} && b in FreeSet(f1)
  {
    MemberFree(f1, i, b);
    hide MarksUsed, IsFree, Disjoint;
    MarkUsedStaysDisjoint(f1, f2, b, i);
    forall x ensures IsFree(f2, x) <==> IsFree(f1, x) && x != b { MarkUsedOne(f1, f2, b, i, x); }
  }

  lemma MarkUsedStaysDisjoint(f1: seq<BlockGroup>, f2: seq<BlockGroup>, b: int, i: nat)
    requires Disjoint(f1) && MarksUsed(f1, f2, b, i)
    ensures Disjoint(f2)
  {
    var g := f1[i];
    DisjointValid(f1, i);
    assert g.start <= b <= EndOf(g) && g.count >= 1;
    hide RemoveAt, InsertAt, Disjoint, CheckConsistent, InGroup, ValidGroup;
    if b == g.start && g.count == 1 {
      RemoveAtConsistent(f1, i);
    } else if b == g.start {
      ShrinkConsistent(f1, i, BlockGroup(g.start + 1, g.count - 1));
    } else if b == EndOf(g) {
      ShrinkConsistent(f1, i, BlockGroup(g.start, g.count - 1));
    } else {
      SplitDisjoint(f1, i, BlockGroup(g.start, b - g.start), BlockGroup(b + 1, EndOf(g) - b));
    }
  }

  lemma SplitDisjoint(f: seq<BlockGroup>, i: nat, g: BlockGroup, h: BlockGroup)
    requires Disjoint(f) && i < |f| && g.count >= 1 && h.count >= 1
    requires f[i].start <= g.start && g.start + g.count <= h.start && h.start + h.count <= f[i].start + f[i].count
    ensures Disjoint(InsertAt(f[i := g], i + 1, h))
  {
    SplitAt(f, i, g, h);
    hide InsertAt;
  }

  lemma NoneFreeOf(u: Books, g: BlockGroup)
    requires FreeSet(u.free) !! u.used && BlocksOf(g) <= u.used
    ensures NoneFree(u.free, g)
  {
    forall x | InGroup(x, g) ensures !IsFree(u.free, x) { assert x in BlocksOf(g); }
  }

  /** A step keeps free and used blocks apart, and loses blocks only where a free stops nowhere. */
  lemma BooksStepExact(u: Books, a: Action, v: Books, limit: nat)
    requires BooksInv(u, limit) && BooksStep(u, a, v)
    ensures BooksInv(v, limit)
    ensures Lost(v, limit) == Lost(u, limit) + if Loses(u, a) then BlocksOf(a.group) else iset{}
  {
    hide Disjoint, MarksUsed, AllocatesGroup, FreeSet, BlocksOf, FreeGroup, StopsSomewhere, NoneFree;
    match a
    case Mark(b) =>
      var i: nat :| MarksUsed(u.free, v.free, b, i);
      MarkUsedDisjoint(u.free, v.free, b, i);
    case Take(g) =>
      var i: nat :| AllocatesGroup(u.free, v.free, g.count, g, i);
      AllocateGroupExact(u.free, v.free, g.count, g, i);
    case Give(g) =>
      NoneFreeOf(u, g);
      FreeGroupExact(u.free, g);
  }

  ghost predicate BooksRun(run: seq<Books>, acts: seq<Action>, limit: nat) {
    && 1 <= limit < U64_MAX && |run| == |acts| + 1 && run[0] == Books([BlockGroup(0, limit)], iset{})
    && forall k :: 0 <= k < |acts| ==> BooksStep(run[k], acts[k], run[k + 1])
  }

  /** In every run, with frees of any blocks in use, free and used blocks stay apart, and the blocks that are neither
      are exactly those of the frees where the loop stops nowhere. */
  lemma {:induction false} LostBlocks(run: seq<Books>, acts: seq<Action>, limit: nat, k: nat, x: int)
    requires BooksRun(run, acts, limit) && k <= |acts|
    ensures BooksInv(run[k], limit)
    ensures x in Lost(run[k], limit) <==> exists j :: 0 <= j < k && Loses(run[j], acts[j]) && x in BlocksOf(acts[j].group)
    decreases k
  {
    hide BooksStep, Loses, BlocksOf;
    if k == 0 {
      InitialBooks(limit);
    } else {
      hide BooksInv, Lost;
      LostBlocks(run, acts, limit, k - 1, x);
      BooksStepExact(run[k - 1], acts[k - 1], run[k], limit);
    }
  }

  lemma InitialBooks(limit: nat)
    requires 1 <= limit < U64_MAX
    ensures var u := Books([BlockGroup(0, limit)], iset{}); BooksInv(u, limit) && Lost(u, limit) == iset{}
  {
    var f := [BlockGroup(0, limit)];
    forall x ensures x in FreeSet(f) <==> 0 <= x < limit {
      assert InGroup(x, f[0]) <==> 0 <= x < limit;
    }
    assert FreeSet(f) == BlocksOf(f[0]);
  }
}
