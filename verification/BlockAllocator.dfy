/** The contents of a block device, as far as the file system reads them back. */
module BlockDevices {
  import opened Machine
  import opened FreeLists
  import TreeNodes

  type Byte = x: int | 0 <= x < 256

  /** A block, as the structure that was last written to it; pointers are block addresses. */
  datatype Block =
    | FreeBlocks(free: seq<BlockGroup>, next: Option<nat>)
    | StringHead(length: nat, data: seq<Byte>, next: Option<nat>)
    | StringPart(data: seq<Byte>, next: Option<nat>)
    | TreeLeave(files: seq<TreeNodes.File>)
    | TreeNode(children: seq<nat>, maxes: seq<Option<TreeNodes.FileId>>)

  class Device {
    var blocks: map<nat, Block>

    constructor ()
      ensures blocks == map[]
    {
      blocks := map[];
    }

    method WriteBlock(lba: nat, block: Block)
      modifies this
      ensures blocks == old(blocks)[lba := block]
    {
      blocks := blocks[lba := block];
    }
  }

  /** `counts_required_for!`: how many entries of a size cover a total. */
  function CountsRequired(entry: nat, total: nat): nat
    requires entry > 0
  {
    total / entry + if total % entry != 0 then 1 else 0
  }
}

/** The block allocator and its on-device form (modules/wasabi-fs/src/block_allocator.rs). */
module BlockAllocators {
  import opened Machine
  import opened Sequences
  import opened FreeLists
  import opened BlockDevices

  const BLOCK_RANGES_COUNT_PER_BLOCK: nat := 250

  // ----- The blocks of a list of groups -----

  function BlockSeq(start: nat, count: nat): (r: seq<nat>)
    ensures |r| == count && forall k :: 0 <= k < count ==> r[k] == start + k
  {
    seq(count, k requires 0 <= k < count => start + k)
  }

  function Flatten(groups: seq<BlockGroup>): seq<nat> {
    if |groups| == 0 then [] else BlockSeq(groups[0].start, groups[0].count) + Flatten(groups[1..])
  }

  lemma BlockSeqTail(start: nat, count: nat, rest: seq<nat>)
    requires count > 0
    ensures (BlockSeq(start, count) + rest)[0] == start
    ensures (BlockSeq(start, count) + rest)[1..] == BlockSeq(start + 1, count - 1) + rest
    ensures BlockSeq(start, 0) + rest == [] + rest
  {
  }

  /** `BlockGroupListBlockIter`: a cursor over groups and over the blocks of the current group. */
  class BlockIter {
    const groups: seq<BlockGroup>
    var position: nat
    var currentGroup: Option<BlockGroup>
    var currentIndex: nat

    ghost predicate Valid()
      reads this
    {
      && position <= |groups|
      && (forall i :: 0 <= i < |groups| ==> groups[i].count >= 1)
      && (currentGroup.None? ==> currentIndex == 0)
      && (currentGroup.Some? ==> currentIndex < currentGroup.value.count)
    }

    /** The blocks still to come. */
    ghost function Remaining(): seq<nat>
      requires Valid()
      reads this
    {
      (if currentGroup.None? then []
       else BlockSeq(currentGroup.value.start + currentIndex, currentGroup.value.count - currentIndex))
      + Flatten(groups[position..])
    }

    constructor (list: seq<BlockGroup>)
      requires forall i :: 0 <= i < |list| ==> list[i].count >= 1
      ensures Valid() && Remaining() == Flatten(list)
    {
      groups, position, currentGroup, currentIndex := list, 0, None, 0;
      new;
      assert groups[0..] == groups;
    }

    method Next() returns (r: Option<nat>)
      requires Valid()
      modifies this
      ensures Valid()
      ensures old(Remaining()) == [] ==> r.None? && Remaining() == []
      ensures old(Remaining()) != [] ==> r == Some(old(Remaining())[0]) && Remaining() == old(Remaining())[1..]
    {
      hide BlockSeq;
      if currentGroup.None? && position < |groups| {
        assert groups[position..][1..] == groups[position + 1..];
        currentGroup := Some(groups[position]);
        position := position + 1;
      }
      if currentGroup.None? { return None; }
      var group := currentGroup.value;
      r := Some(group.start + currentIndex);
      BlockSeqTail(group.start + currentIndex, group.count - currentIndex, Flatten(groups[position..]));
      if currentIndex == group.count - 1 {
        currentGroup, currentIndex := None, 0;
      } else {
        currentIndex := currentIndex + 1;
      }
    }
  }

  // ----- The chain of free-list blocks -----

  function ChunkStart(f: seq<BlockGroup>, k: nat): nat {
    Min(BLOCK_RANGES_COUNT_PER_BLOCK * k, |f|)
  }

  /** The groups that go into block `k` of the chain; empty once the list is used up. */
  function Chunk(f: seq<BlockGroup>, k: nat): seq<BlockGroup> {
    f[ChunkStart(f, k)..ChunkStart(f, k + 1)]
  }

  function NextOf(blocks: seq<nat>, k: nat): Option<nat> {
    if k + 1 < |blocks| then Some(blocks[k + 1]) else None
  }

  /** The first `n` blocks of the chain are on the device. */
  ghost predicate WrittenUpTo(dev: map<nat, Block>, blocks: seq<nat>, f: seq<BlockGroup>, n: nat) {
    forall k :: 0 <= k < n && k < |blocks| ==>
      blocks[k] in dev && dev[blocks[k]] == FreeBlocks(Chunk(f, k), NextOf(blocks, k))
  }

  ghost predicate Distinct(s: seq<nat>) {
    forall i, j :: 0 <= i < j < |s| ==> s[i] != s[j]
  }

  predicate Readable(dev: map<nat, Block>, lba: nat) {
    lba in dev && dev[lba].FreeBlocks?
  }

  /** Following `next` from `ptr` visits the blocks of `chain` and ends: at a block without a successor, or at
      one that cannot be read. */
  ghost predicate Walk(dev: map<nat, Block>, ptr: nat, chain: seq<nat>) {
    && |chain| > 0 && chain[0] == ptr
    && (forall k :: 0 <= k < |chain| - 1 ==> Readable(dev, chain[k]) && dev[chain[k]].next == Some(chain[k + 1]))
    && (Readable(dev, chain[|chain| - 1]) ==> dev[chain[|chain| - 1]].next.None?)
  }

  /** The groups stored along a chain. */
  function Collected(dev: map<nat, Block>, chain: seq<nat>): seq<BlockGroup> {
    if |chain| == 0 then []
    else
      var n := |chain| - 1;
      Collected(dev, chain[..n]) + (if Readable(dev, chain[n]) then dev[chain[n]].free else [])
  }

  /** A chain that ends never visits a block twice: from equal blocks the walks would go on alike. */
  lemma {:induction false} WalkDistinct(dev: map<nat, Block>, ptr: nat, chain: seq<nat>, i: nat, j: nat)
    requires Walk(dev, ptr, chain) && i < j < |chain|
    ensures chain[i] != chain[j]
    decreases |chain| - j
  {
    assert Readable(dev, chain[i]) && dev[chain[i]].next == Some(chain[i + 1]);
    if j < |chain| - 1 {
      assert dev[chain[j]].next == Some(chain[j + 1]);
      WalkDistinct(dev, ptr, chain, i + 1, j + 1);
    }
  }

  lemma {:induction false} CollectedPrefix(dev: map<nat, Block>, blocks: seq<nat>, f: seq<BlockGroup>, n: nat)
    requires WrittenUpTo(dev, blocks, f, |blocks|) && n <= |blocks|
    ensures Collected(dev, blocks[..n]) == f[..ChunkStart(f, n)]
    decreases n
  {
    if n > 0 {
      CollectedPrefix(dev, blocks, f, n - 1);
      assert blocks[..n][..n - 1] == blocks[..n - 1];
      assert blocks[..n][n - 1] == blocks[n - 1];
      assert f[..ChunkStart(f, n)] == f[..ChunkStart(f, n - 1)] + Chunk(f, n - 1);
    }
  }

  /** What was written is what a walk from the first block collects. */
  lemma ChainRoundTrip(dev: map<nat, Block>, blocks: seq<nat>, f: seq<BlockGroup>)
    requires WrittenUpTo(dev, blocks, f, |blocks|)
    requires |blocks| >= 1 && |blocks| >= CountsRequired(BLOCK_RANGES_COUNT_PER_BLOCK, |f|)
    ensures Stored(dev, blocks[0], blocks, f)
  {
    CollectedPrefix(dev, blocks, f, |blocks|);
    assert blocks[..|blocks|] == blocks;
    assert ChunkStart(f, |blocks|) == |f|;
    forall k | 0 <= k < |blocks| - 1 ensures Readable(dev, blocks[k]) && dev[blocks[k]].next == Some(blocks[k + 1]) {
    }
  }

  /** A single group taken from the free list, block by block. */
  lemma GroupBlocks(g: BlockGroup)
    ensures Flatten([g]) == BlockSeq(g.start, g.count)
    ensures Distinct(Flatten([g])) && forall x :: x in Flatten([g]) <==> InGroup(x, g)
  {
    assert [g][1..] == [];
    assert Flatten([g]) == BlockSeq(g.start, g.count) + [];
    forall x | InGroup(x, g) ensures x in Flatten([g]) {
      assert BlockSeq(g.start, g.count)[x - g.start] == x;
    }
  }

  /** `write` sizes its chain before allocating it; allocating never adds a group, so the size suffices and the
      retry loop ends on its first pass. */
  lemma FirstPassSuffices(before: seq<BlockGroup>, after: seq<BlockGroup>)
    requires |after| <= |before|
    ensures CountsRequired(BLOCK_RANGES_COUNT_PER_BLOCK, Max(|before|, 1))
            >= CountsRequired(BLOCK_RANGES_COUNT_PER_BLOCK, |after|)
    ensures ChainLength(before) == CountsRequired(BLOCK_RANGES_COUNT_PER_BLOCK, Max(|before|, 1)) >= 1
  {
  }

  function Singles(blocks: seq<nat>): (r: seq<BlockGroup>)
    ensures |r| == |blocks| && forall i :: 0 <= i < |r| ==> r[i] == BlockGroup(blocks[i], 1)
  {
    seq(|blocks|, i requires 0 <= i < |blocks| => BlockGroup(blocks[i], 1))
  }

  ghost predicate NotFree(f: seq<BlockGroup>, blocks: seq<nat>) {
    forall i :: 0 <= i < |blocks| ==> blocks[i] + 1 < U64_MAX && !IsFree(f, blocks[i])
  }

  /** Freeing distinct used blocks keeps the list sorted and frees no other block. */
  lemma {:induction false} FreeSingles(f: seq<BlockGroup>, blocks: seq<nat>, n: nat)
    requires Disjoint(f) && Distinct(blocks) && NotFree(f, blocks) && n <= |blocks|
    ensures Disjoint(FreeAll(f, Singles(blocks)[..n]))
    ensures FreeSet(f) <= FreeSet(FreeAll(f, Singles(blocks)[..n]))
    ensures forall i :: n <= i < |blocks| ==> !IsFree(FreeAll(f, Singles(blocks)[..n]), blocks[i])
    ensures forall x :: IsFree(FreeAll(f, Singles(blocks)[..n]), x) ==> IsFree(f, x) || x in blocks[..n]
    decreases n
  {
    var singles := Singles(blocks);
    if n == 0 {
    } else {
      FreeSingles(f, blocks, n - 1);
      hide IsFree, Disjoint, FreeGroup;
      var before := FreeAll(f, singles[..n - 1]);
      var g := BlockGroup(blocks[n - 1], 1);
      assert singles[..n][..n - 1] == singles[..n - 1];
      FreeGroupExact(before, g);
      forall x ensures IsFree(FreeGroup(before, g), x) ==> IsFree(before, x) || x == blocks[n - 1]
               ensures IsFree(before, x) ==> IsFree(FreeGroup(before, g), x) {
        assert x in FreeSet(FreeGroup(before, g)) <==> IsFree(FreeGroup(before, g), x);
        assert x in FreeSet(before) <==> IsFree(before, x);
      }
      assert blocks[..n] == blocks[..n - 1] + [blocks[n - 1]];
    }
  }

  class BlockAllocator {
    var free: seq<BlockGroup>
    var onDisk: Option<nat>
    var selfOnDisk: seq<nat>
    var dirty: bool

    /** Sorted free groups, and the blocks of the stored list are distinct and in use. */
    ghost predicate Valid()
      reads this
    {
      Disjoint(free) && Distinct(selfOnDisk) && NotFree(free, selfOnDisk)
    }

    /** Everything below `maxLba` is free, except the blocks given. Duplicates and blocks out of range are the
        caller's error. */
    constructor Empty(initialUsage: seq<nat>, maxLba: nat)
      requires 1 <= maxLba < U64_MAX && Distinct(initialUsage)
      requires forall i :: 0 <= i < |initialUsage| ==> initialUsage[i] < maxLba
      ensures Consistent(free) && selfOnDisk == [] && onDisk.None? && dirty
      ensures forall x :: IsFree(free, x) <==> 0 <= x < maxLba && x !in initialUsage
      ensures initialUsage == [] ==> free == [BlockGroup(0, maxLba)]
    {
      free, onDisk, selfOnDisk, dirty := [BlockGroup(0, maxLba)], None, [], true;
      new;
      WholeIsFree(maxLba);
      assert initialUsage[..0] == [] && initialUsage[..|initialUsage|] == initialUsage;
      hide IsFree, Consistent, FreeSet, FreeBut, Distinct;
      for i := 0 to |initialUsage|
        invariant Consistent(free) && selfOnDisk == [] && onDisk.None? && dirty
        invariant i == 0 ==> free == [BlockGroup(0, maxLba)]
        invariant FreeBut(free, maxLba, initialUsage[..i])
      {
        ghost var f := free;
        NextIsFree(f, maxLba, initialUsage, i);
        var ok := MarkUsed(initialUsage[i]);
        FreeButNext(f, free, maxLba, initialUsage, i);
      }
      FreeButIs(free, maxLba, initialUsage);
    }

    /** Fails, changing nothing, when the block is not free. */
    method MarkUsed(lba: nat) returns (ok: bool)
      requires Consistent(free)
      modifies this`free
      ensures ok <==> IsFree(old(free), lba)
      ensures ok ==> Consistent(free) && FreeSet(free) == FreeSet(old(free)) - iset{lba}
                     && exists i: nat :: MarksUsed(old(free), free, lba, i)
      ensures !ok ==> free == old(free)
    {
      hide IsFree, Disjoint, CheckConsistent, FreeSet, Consistent, RemoveAt, InsertAt;
      var i := 0;
      while i < |free| && !InGroup(lba, free[i])
        invariant i <= |free| && forall k :: 0 <= k < i ==> !InGroup(lba, free[k])
      {
        i := i + 1;
      }
      if i == |free| {
        NobodyHolds(free, lba);
        return false;
      }
      MemberFree(free, i, lba);
      ghost var f := free;
      var group := free[i];
      if lba == group.start {
        if group.count == 1 {
          free := RemoveAt(free, i);
        } else {
          free := free[i := BlockGroup(group.start + 1, group.count - 1)];
        }
      } else if lba == EndOf(group) {
        free := free[i := BlockGroup(group.start, group.count - 1)];
      } else {
        free := InsertAt(free[i := BlockGroup(group.start, lba - group.start)], i + 1,
                         BlockGroup(lba + 1, EndOf(group) - lba));
      }
      assert MarksUsed(f, free, lba, i);
      MarkUsedExact(f, free, lba, i);
      return true;
    }

    /** Best fit: the first of the smallest groups that are large enough. */
    method AllocateGroup(size: nat) returns (r: Option<BlockGroup>, ghost at: nat)
      requires Disjoint(free) && size >= 1
      modifies this`free, this`dirty
      ensures r.Some? <==> HasGroup(old(free), size)
      ensures r.Some? ==> AllocatesGroup(old(free), free, size, r.value, at) && dirty
      ensures r.None? ==> free == old(free) && dirty == old(dirty)
    {
      at := 0;
      var best := -1;
      var bestRem := U64_MAX;
      for i := 0 to |free|
        invariant -1 <= best < i
        invariant best == -1 ==> bestRem == U64_MAX && forall k :: 0 <= k < i ==> free[k].count < size
        invariant best >= 0 ==> free[best].count >= size && bestRem == free[best].count - size
                                && (forall k :: 0 <= k < i && free[k].count >= size ==> free[best].count <= free[k].count)
                                && (forall k :: 0 <= k < best && free[k].count >= size ==> free[best].count < free[k].count)
      {
        if free[i].count < size { continue; }
        var rem := free[i].count - size;
        assert ValidGroup(free[i]);
        if rem < bestRem {
          bestRem, best := rem, i;
        }
      }
      if best == -1 { return None, at; }
      dirty := true;
      at := best;
      var group := free[best];
      r := Some(BlockGroup(group.start, size));
      if bestRem == 0 {
        free := RemoveAt(free, best);
      } else {
        free := free[best := BlockGroup(group.start + size, bestRem)];
      }
    }

    /** Succeeds exactly for a power of two that one group can hold; a failure changes nothing. */
    method Allocate(count: nat) returns (r: Option<seq<BlockGroup>>, ghost at: nat)
      requires Disjoint(free) && count >= 1
      modifies this`free, this`dirty
      ensures r.Some? <==> IsPow2(count) && HasGroup(old(free), count)
      ensures r.Some? ==> |r.value| == 1 && AllocatesGroup(old(free), free, count, r.value[0], at) && dirty
      ensures r.None? ==> free == old(free) && dirty == old(dirty)
    {
      at := 0;
      var list: seq<BlockGroup> := [];
      var remainingSize := count;
      var groupSize: nat := Pow2(Log2(count));
      Pow2IsLargest(count);
      hide Disjoint, HasGroup, IsPow2, Pow2, AllocatesGroup;
      while remainingSize > 0
        invariant remainingSize == count || remainingSize == 0
        invariant remainingSize == count ==> list == [] && free == old(free) && dirty == old(dirty)
        invariant remainingSize == count ==>
                    || (groupSize == Pow2(Log2(count)) && groupSize <= count)
                    || (groupSize < count && !(IsPow2(count) && HasGroup(old(free), count)))
        invariant remainingSize == 0 ==> |list| == 1 && IsPow2(count) && HasGroup(old(free), count)
                                         && AllocatesGroup(old(free), free, count, list[0], at)
        decreases remainingSize, groupSize
      {
        if groupSize == 0 {
          Free(list);
          return None, at;
        }
        if remainingSize > groupSize {
          groupSize := groupSize / 2;
          continue;
        }
        var group;
        group, at := AllocateGroup(groupSize);
        if group.None? {
          groupSize := groupSize / 2;
          continue;
        }
        list := list + [group.value];
        remainingSize := remainingSize - groupSize;
      }
      dirty := true;
      return Some(list), at;
    }

    method Free(list: seq<BlockGroup>)
      modifies this`free, this`dirty
      ensures free == FreeAll(old(free), list) && dirty == (old(dirty) || |list| > 0)
    {
      for i := 0 to |list|
        invariant free == FreeAll(old(free), list[..i]) && dirty == (old(dirty) || i > 0)
      {
        assert list[..i + 1][..i] == list[..i];
        FreeGroup(list[i]);
      }
      assert list[..|list|] == list;
    }

    method FreeGroup(group: BlockGroup)
      modifies this`free, this`dirty
      ensures free == FreeLists.FreeGroup(old(free), group) && dirty
    {
      dirty := true;
      var i := 0;
      while i < |free|
        invariant i <= |free| && free == old(free)
        invariant FreeFrom(free, group, 0) == FreeFrom(free, group, i)
      {
        var current := free[i];
        if current.start > group.start {
          free := InsertAt(free, i, group);
          return;
        }
        if EndOf(current) + 1 == group.start {
          free := free[i := BlockGroup(current.start, current.count + group.count)];
          return;
        }
        i := i + 1;
      }
    }

    constructor Clone(other: BlockAllocator)
      ensures free == other.free && onDisk == other.onDisk && selfOnDisk == other.selfOnDisk && dirty == other.dirty
    {
      free, onDisk, selfOnDisk, dirty := other.free, other.onDisk, other.selfOnDisk, other.dirty;
    }

    /** Stores the free list on blocks taken from it. Succeeds exactly when the number of blocks needed can be
        allocated; a failure changes nothing. The blocks of the previous copy are freed first, those of the new
        one are not recorded. */
    method Write(dev: Device) returns (r: Option<nat>, ghost blocks: seq<nat>)
      requires Valid()
      modifies this, dev
      ensures var freed := FreeAll(old(free), Singles(old(selfOnDisk)));
              r.Some? <==> IsPow2(ChainLength(freed)) && HasGroup(freed, ChainLength(freed))
      ensures r.Some? ==>
                && Valid() && !dirty && selfOnDisk == [] && onDisk.None?
                && Saved(FreeAll(old(free), Singles(old(selfOnDisk))), free, old(dev.blocks), dev.blocks, r.value, blocks)
      ensures r.None? ==> dev.blocks == old(dev.blocks) && free == old(free) && selfOnDisk == old(selfOnDisk)
                          && onDisk == old(onDisk) && dirty == old(dirty)
    {
      hide Disjoint, IsFree, IsPow2, HasGroup, AllocatesGroup, Flatten, FreeAll, WrittenUpTo, OnlyTouches, Stored,
           Distinct, Singles, FreeSet, NotFree, ChainLength, CountsRequired, Saved;
      blocks := [];
      var copy := new BlockAllocator.Clone(this);
      copy.selfOnDisk, copy.onDisk := [], None;
      FreedIsDisjoint(free, selfOnDisk);
      copy.Free(Singles(selfOnDisk));
      ghost var freed := copy.free;
      FirstPassSuffices(copy.free, []);
      var blocksRequired := ChainLength(copy.free);
      var list: seq<nat> := [];
      ghost var g, at := BlockGroup(0, 0), 0;
      var enough := false;
      // Every try suffices, so nothing is freed again for another one; that the loop ends rests on it.
      while !enough
        invariant fresh(copy) && copy.selfOnDisk == [] && copy.onDisk.None?
        invariant dev.blocks == old(dev.blocks) && free == old(free) && selfOnDisk == old(selfOnDisk)
        invariant onDisk == old(onDisk) && dirty == old(dirty)
        invariant !enough ==> copy.free == freed
        invariant enough ==> AllocatesGroup(freed, copy.free, blocksRequired, g, at) && list == Flatten([g])
                             && |list| >= CountsRequired(BLOCK_RANGES_COUNT_PER_BLOCK, |copy.free|)
                             && IsPow2(blocksRequired) && HasGroup(freed, blocksRequired)
        decreases !enough
      {
        var onDiskBlocks;
        onDiskBlocks, at := copy.Allocate(blocksRequired);
        if onDiskBlocks.None? { return None, blocks; }
        g := onDiskBlocks.value[0];
        assert onDiskBlocks.value == [g];
        AllocationSuffices(freed, copy.free, g, at);
        list := Flatten(onDiskBlocks.value);
        enough := |list| >= CountsRequired(BLOCK_RANGES_COUNT_PER_BLOCK, |copy.free|);
      }
      AllocationSuffices(freed, copy.free, g, at);
      blocks := list;
      WriteChain(dev, list, copy.free);
      SavedBy(freed, copy.free, old(dev.blocks), dev.blocks, g, at);
      free, onDisk, selfOnDisk, dirty := copy.free, copy.onDisk, copy.selfOnDisk, false;
      return Some(list[0]), blocks;
    }

    /** Reads a stored free list. `Endless` stands for a loop that never ends: after more blocks than the device
        has, some block has been met twice. */
    static method Load(dev: Device, ptr: nat) returns (r: Loading, ghost chain: seq<nat>)
      ensures r.Endless? <==> forall c: seq<nat> :: !Walk(dev.blocks, ptr, c)
      ensures !r.Endless? ==> Walk(dev.blocks, ptr, chain) && (r.Loaded? <==> Readable(dev.blocks, chain[|chain| - 1]))
      ensures r.Loaded? ==> fresh(r.allocator) && r.allocator.free == Collected(dev.blocks, chain)
                            && r.allocator.selfOnDisk == chain && r.allocator.onDisk == Some(ptr) && !r.allocator.dirty
    {
      hide Collected, Walk, Readable;
      var free: seq<BlockGroup> := [];
      var selfOnDisk: seq<nat> := [];
      var nextBlock := Some(ptr);
      NothingCollected(dev.blocks);
      chain := [];
      while nextBlock.Some?
        invariant |selfOnDisk| <= |dev.blocks| + 1
        invariant Visited(dev.blocks, ptr, selfOnDisk, nextBlock) && free == Collected(dev.blocks, selfOnDisk)
        decreases |dev.blocks| + 1 - |selfOnDisk|
      {
        if |selfOnDisk| > |dev.blocks| {
          forall c: seq<nat> ensures !Walk(dev.blocks, ptr, c) {
            if Walk(dev.blocks, ptr, c) { EndsWithinDevice(dev.blocks, ptr, selfOnDisk, nextBlock.value, c); }
          }
          return Endless, chain;
        }
        var lba := nextBlock.value;
        if !Readable(dev.blocks, lba) {
          chain := selfOnDisk + [lba];
          EndsUnread(dev.blocks, ptr, selfOnDisk, lba);
          return ReadFailed, chain;
        }
        VisitNext(dev.blocks, ptr, selfOnDisk, lba);
        selfOnDisk := selfOnDisk + [lba];
        free := free + dev.blocks[lba].free;
        nextBlock := dev.blocks[lba].next;
      }
      chain := selfOnDisk;
      EndsRead(dev.blocks, ptr, selfOnDisk);
      var loaded := new BlockAllocator.Empty([], 1);
      loaded.free, loaded.onDisk, loaded.selfOnDisk, loaded.dirty := free, Some(ptr), selfOnDisk, false;
      return Loaded(loaded), chain;
    }
  }

  datatype Loading = Loaded(allocator: BlockAllocator) | ReadFailed | Endless

  /** What follows the block at position `k` of a reading that is about to go on to `next`. */
  function Following(p: seq<nat>, k: nat, next: Option<nat>): Option<nat> {
    if k + 1 < |p| then Some(p[k + 1]) else next
  }

  /** The blocks `p` have been read in turn from `ptr`, and `next` comes after them. */
  ghost predicate Visited(dev: map<nat, Block>, ptr: nat, p: seq<nat>, next: Option<nat>) {
    && (|p| == 0 ==> next == Some(ptr)) && (|p| > 0 ==> p[0] == ptr)
    && (forall k :: 0 <= k < |p| ==> Readable(dev, p[k]) && dev[p[k]].next == Following(p, k, next))
  }

  lemma NothingCollected(dev: map<nat, Block>)
    ensures Collected(dev, []) == []
  {
  }

  lemma VisitNext(dev: map<nat, Block>, ptr: nat, p: seq<nat>, lba: nat)
    requires Visited(dev, ptr, p, Some(lba)) && Readable(dev, lba)
    ensures lba in dev && dev[lba].FreeBlocks? && Visited(dev, ptr, p + [lba], dev[lba].next)
    ensures Collected(dev, p + [lba]) == Collected(dev, p) + dev[lba].free
  {
    var q := p + [lba];
    assert q[..|p|] == p && q[|p|] == lba;
    forall k | 0 <= k < |q| ensures Readable(dev, q[k]) && dev[q[k]].next == Following(q, k, dev[lba].next) {
      if k < |p| { assert q[k] == p[k] && dev[p[k]].next == Following(p, k, Some(lba)); }
    }
  }

  lemma EndsUnread(dev: map<nat, Block>, ptr: nat, p: seq<nat>, lba: nat)
    requires Visited(dev, ptr, p, Some(lba)) && !Readable(dev, lba)
    ensures Walk(dev, ptr, p + [lba])
    ensures exists c: seq<nat> :: Walk(dev, ptr, c)
  {
    var q := p + [lba];
    forall k | 0 <= k < |q| - 1 ensures Readable(dev, q[k]) && dev[q[k]].next == Some(q[k + 1]) {
      assert q[k] == p[k] && dev[p[k]].next == Following(p, k, Some(lba));
    }
    assert Walk(dev, ptr, q);
  }

  lemma EndsRead(dev: map<nat, Block>, ptr: nat, p: seq<nat>)
    requires Visited(dev, ptr, p, None)
    ensures |p| > 0 && Walk(dev, ptr, p) && Readable(dev, p[|p| - 1])
    ensures exists c: seq<nat> :: Walk(dev, ptr, c)
  {
    forall k | 0 <= k < |p| - 1 ensures Readable(dev, p[k]) && dev[p[k]].next == Some(p[k + 1]) {
      assert dev[p[k]].next == Following(p, k, None);
    }
    assert dev[p[|p| - 1]].next == Following(p, |p| - 1, None);
  }

  /** Two readings from the same block agree as far as both go. */
  lemma {:induction false} SameWay(dev: map<nat, Block>, ptr: nat, p: seq<nat>, next: nat, c: seq<nat>, k: nat)
    requires Visited(dev, ptr, p, Some(next)) && Walk(dev, ptr, c) && k < |p|
    ensures k < |c| - 1 && c[k] == p[k]
    decreases k
  {
    assert Readable(dev, p[k]) && dev[p[k]].next == Following(p, k, Some(next));
    if k == 0 {
    } else {
      SameWay(dev, ptr, p, next, c, k - 1);
      assert dev[p[k - 1]].next == Following(p, k - 1, Some(next));
      assert dev[c[k - 1]].next == Some(c[(k - 1) + 1]);
    }
  }

  /** A reading that goes on is at most as long as the device is large, if it ever ends. */
  lemma EndsWithinDevice(dev: map<nat, Block>, ptr: nat, p: seq<nat>, next: nat, c: seq<nat>)
    requires Visited(dev, ptr, p, Some(next)) && Walk(dev, ptr, c)
    ensures |p| <= |dev|
  {
    hide Walk, Readable;
    forall i, j | 0 <= i < j < |p| ensures p[i] != p[j] {
      SameWay(dev, ptr, p, next, c, i);
      SameWay(dev, ptr, p, next, c, j);
      WalkDistinct(dev, ptr, c, i, j);
    }
    forall i | 0 <= i < |p| ensures p[i] in dev.Keys { ReadableIn(dev, p[i]); }
    DistinctAtMost(p, dev.Keys);
    assert |dev.Keys| == |dev|;
  }

  lemma ReadableIn(dev: map<nat, Block>, lba: nat)
    ensures Readable(dev, lba) ==> lba in dev
  {
  }

  lemma {:induction false} DistinctAtMost(p: seq<nat>, s: set<nat>)
    requires Distinct(p) && forall i :: 0 <= i < |p| ==> p[i] in s
    ensures |p| <= |s|
    decreases |p|
  {
    if |p| == 0 {
    } else {
      var n := |p| - 1;
      forall i | 0 <= i < n ensures p[..n][i] in s - {p[n]} { assert p[..n][i] == p[i] != p[n]; }
      DistinctAtMost(p[..n], s - {p[n]});
    }
  }

  /** The blocks needed for a list of free groups; at least one, because an empty list is stored as well. */
  function ChainLength(f: seq<BlockGroup>): nat {
    CountsRequired(BLOCK_RANGES_COUNT_PER_BLOCK, Max(|f|, 1))
  }

  /** The fewest blocks that hold the list, and one for an empty list. */
  lemma ChainLengthIsLeast(f: seq<BlockGroup>, n: nat)
    ensures ChainLength(f) <= n <==> n >= 1 && |f| <= BLOCK_RANGES_COUNT_PER_BLOCK * n
  {
    var m, size := Max(|f|, 1), BLOCK_RANGES_COUNT_PER_BLOCK;
    assert m == size * (m / size) + m % size;
  }

  /** Reading from `ptr` terminates after the blocks of the chain and gives the free list back. */
  ghost predicate Stored(dev: map<nat, Block>, ptr: nat, chain: seq<nat>, f: seq<BlockGroup>) {
    Walk(dev, ptr, chain) && Readable(dev, chain[|chain| - 1]) && Collected(dev, chain) == f
  }

  ghost predicate SameBlock(d1: map<nat, Block>, d2: map<nat, Block>, x: nat) {
    (x in d1 <==> x in d2) && (x in d1 ==> d1[x] == d2[x])
  }

  /** The outcome of a successful `write`: the chain lies on distinct blocks that were free and no longer are,
      reading it back gives the free list, and no other block of the device has changed. */
  ghost predicate Saved(freed: seq<BlockGroup>, f: seq<BlockGroup>, d1: map<nat, Block>, d2: map<nat, Block>,
                        ptr: nat, blocks: seq<nat>) {
    && |blocks| == ChainLength(freed) && ptr in blocks && Distinct(blocks) && |f| <= |freed|
    && (forall x :: x in blocks ==> IsFree(freed, x) && x + 1 < U64_MAX)
    && (forall x :: IsFree(f, x) <==> IsFree(freed, x) && x !in blocks)
    && Stored(d2, ptr, blocks, f) && (forall k :: 0 <= k < |blocks| ==> HoldsChunk(d2, blocks[k]))
    && OnlyTouches(d1, d2, blocks)
  }

  /** A block has room for so many groups. */
  predicate HoldsChunk(dev: map<nat, Block>, lba: nat) {
    Readable(dev, lba) && |dev[lba].free| <= BLOCK_RANGES_COUNT_PER_BLOCK
  }

  lemma ChunksFit(dev: map<nat, Block>, blocks: seq<nat>, f: seq<BlockGroup>)
    requires WrittenUpTo(dev, blocks, f, |blocks|)
    ensures forall k :: 0 <= k < |blocks| ==> HoldsChunk(dev, blocks[k])
  {
  }

  lemma FreedIsDisjoint(f: seq<BlockGroup>, blocks: seq<nat>)
    requires Disjoint(f) && Distinct(blocks) && NotFree(f, blocks)
    ensures Disjoint(FreeAll(f, Singles(blocks))) && Distinct([])
    ensures forall x :: IsFree(f, x) ==> IsFree(FreeAll(f, Singles(blocks)), x)
    ensures forall x :: IsFree(FreeAll(f, Singles(blocks)), x) ==> IsFree(f, x) || x in blocks
    ensures forall g: seq<BlockGroup> :: NotFree(g, [])
  {
    FreeSingles(f, blocks, |blocks|);
    assert Singles(blocks)[..|blocks|] == Singles(blocks) && blocks[..|blocks|] == blocks;
    hide IsFree, FreeAll, Disjoint;
    forall x | IsFree(f, x) ensures IsFree(FreeAll(f, Singles(blocks)), x) {
      assert x in FreeSet(f) && x in FreeSet(FreeAll(f, Singles(blocks)));
    }
  }

  lemma AllocationSuffices(freed: seq<BlockGroup>, f: seq<BlockGroup>, g: BlockGroup, at: nat)
    requires Disjoint(freed) && ChainLength(freed) >= 1 && AllocatesGroup(freed, f, ChainLength(freed), g, at)
    ensures Disjoint(f) && Distinct(Flatten([g])) && |Flatten([g])| == ChainLength(freed)
    ensures |Flatten([g])| >= CountsRequired(BLOCK_RANGES_COUNT_PER_BLOCK, |f|) && |f| <= |freed|
  {
    AllocatedBlocks(freed, f, ChainLength(freed), g, at);
    AllocateGroupExact(freed, f, ChainLength(freed), g, at);
    FirstPassSuffices(freed, f);
  }

  lemma SavedBy(freed: seq<BlockGroup>, f: seq<BlockGroup>, d1: map<nat, Block>, d2: map<nat, Block>, g: BlockGroup, at: nat)
    requires Disjoint(freed) && ChainLength(freed) >= 1 && AllocatesGroup(freed, f, ChainLength(freed), g, at)
    requires WrittenUpTo(d2, Flatten([g]), f, |Flatten([g])|) && OnlyTouches(d1, d2, Flatten([g]))
    ensures |Flatten([g])| >= 1 && Saved(freed, f, d1, d2, Flatten([g])[0], Flatten([g]))
  {
    hide Disjoint, IsFree, AllocatesGroup, Flatten, WrittenUpTo, OnlyTouches, Stored, Distinct, ChainLength;
    AllocatedBlocks(freed, f, ChainLength(freed), g, at);
    AllocationSuffices(freed, f, g, at);
    ChainRoundTrip(d2, Flatten([g]), f);
    ChunksFit(d2, Flatten([g]), f);
  }

  lemma AllocatedBlocks(f1: seq<BlockGroup>, f2: seq<BlockGroup>, size: nat, g: BlockGroup, i: nat)
    requires Disjoint(f1) && size >= 1 && AllocatesGroup(f1, f2, size, g, i)
    ensures var blocks := Flatten([g]);
            && |blocks| == size && Distinct(blocks)
            && (forall x :: x in blocks ==> IsFree(f1, x) && x + 1 < U64_MAX)
            && (forall x :: IsFree(f2, x) <==> IsFree(f1, x) && x !in blocks)
  {
    AllocateGroupExact(f1, f2, size, g, i);
    hide IsFree, Disjoint, Flatten, AllocatesGroup;
    assert g.count == size by { GroupSize(f1, f2, size, g, i); }
    GroupBlocks(g);
    FreeSetMembers(f1, f2, g);
  }

  lemma GroupSize(f1: seq<BlockGroup>, f2: seq<BlockGroup>, size: nat, g: BlockGroup, i: nat)
    requires AllocatesGroup(f1, f2, size, g, i)
    ensures g.count == size
  {
  }

  /** The free blocks are those below the limit that are not used. */
  ghost predicate FreeBut(f: seq<BlockGroup>, limit: nat, used: seq<nat>) {
    forall x :: IsFree(f, x) <==> 0 <= x < limit && x !in used
  }

  lemma WholeIsFree(limit: nat)
    requires 1 <= limit < U64_MAX
    ensures Consistent([BlockGroup(0, limit)]) && FreeBut([BlockGroup(0, limit)], limit, [])
  {
    var f := [BlockGroup(0, limit)];
    forall x ensures IsFree(f, x) <==> 0 <= x < limit {
      assert InGroup(x, f[0]) <==> 0 <= x < limit;
    }
  }

  lemma NextIsFree(f: seq<BlockGroup>, limit: nat, used: seq<nat>, i: nat)
    requires i < |used| && Distinct(used) && used[i] < limit && FreeBut(f, limit, used[..i])
    ensures IsFree(f, used[i])
  {
    hide IsFree;
    assert used[i] !in used[..i];
  }

  lemma FreeButNext(f: seq<BlockGroup>, g: seq<BlockGroup>, limit: nat, used: seq<nat>, i: nat)
    requires i < |used| && FreeBut(f, limit, used[..i]) && FreeSet(g) == FreeSet(f) - iset{used[i]}
    ensures FreeBut(g, limit, used[..i + 1])
  {
    assert used[..i + 1] == used[..i] + [used[i]];
    hide IsFree;
    forall x ensures IsFree(g, x) <==> IsFree(f, x) && x != used[i] {
      assert (x in FreeSet(g) <==> IsFree(g, x)) && (x in FreeSet(f) <==> IsFree(f, x));
    }
  }

  lemma FreeButIs(f: seq<BlockGroup>, limit: nat, used: seq<nat>)
    requires FreeBut(f, limit, used)
    ensures forall x :: IsFree(f, x) <==> 0 <= x < limit && x !in used
  {
  }

  /** All blocks outside the chain are as before. */
  ghost predicate OnlyTouches(d1: map<nat, Block>, d2: map<nat, Block>, blocks: seq<nat>) {
    forall x: nat :: x !in blocks ==> SameBlock(d1, d2, x)
  }

  lemma WriteNext(d0: map<nat, Block>, d: map<nat, Block>, blocks: seq<nat>, f: seq<BlockGroup>, k: nat)
    requires Distinct(blocks) && k < |blocks| && WrittenUpTo(d, blocks, f, k) && OnlyTouches(d0, d, blocks)
    ensures var e := d[blocks[k] := FreeBlocks(Chunk(f, k), NextOf(blocks, k))];
            WrittenUpTo(e, blocks, f, k + 1) && OnlyTouches(d0, e, blocks)
  {
    hide Chunk, NextOf;
  }

  /** Writes the chain front to back: first the chunks of the list, then empty blocks for what is left over. */
  method WriteChain(dev: Device, blocks: seq<nat>, f: seq<BlockGroup>)
    requires Distinct(blocks) && |blocks| >= CountsRequired(BLOCK_RANGES_COUNT_PER_BLOCK, |f|)
    modifies dev
    ensures WrittenUpTo(dev.blocks, blocks, f, |blocks|)
    ensures OnlyTouches(old(dev.blocks), dev.blocks, blocks)
  {
    var chunks := CountsRequired(BLOCK_RANGES_COUNT_PER_BLOCK, |f|);
    ghost var d0 := dev.blocks;
    assert WrittenUpTo(d0, blocks, f, 0) && OnlyTouches(d0, d0, blocks);
    assert forall k: nat :: k >= chunks ==> Chunk(f, k) == [];
    hide WrittenUpTo, OnlyTouches, Distinct, Chunk, NextOf, CountsRequired;
    for k := 0 to chunks
      invariant WrittenUpTo(dev.blocks, blocks, f, k) && OnlyTouches(d0, dev.blocks, blocks)
    {
      WriteNext(d0, dev.blocks, blocks, f, k);
      dev.WriteBlock(blocks[k], FreeBlocks(Chunk(f, k), NextOf(blocks, k)));
    }
    for k := chunks to |blocks|
      invariant WrittenUpTo(dev.blocks, blocks, f, k) && OnlyTouches(d0, dev.blocks, blocks)
    {
      WriteNext(d0, dev.blocks, blocks, f, k);
      dev.WriteBlock(blocks[k], FreeBlocks([], NextOf(blocks, k)));
    }
  }

  lemma ThreeIsNoPower()
    ensures !IsPow2(3)
  {
    OneBitIsPow2(3);
    assert CountOnes(3) == 2 by { assert CountOnes(1) == 1; }
  }

  /** On an empty device of a hundred blocks, three blocks are refused. */
  method ThreeBlocksNeverAllocated() returns (r: Option<seq<BlockGroup>>, a: BlockAllocator)
    ensures r == None && fresh(a) && a.free == [BlockGroup(0, 100)]
  {
    hide IsFree, CheckConsistent, HasGroup, IsPow2;
    a := new BlockAllocator.Empty([], 100);
    ThreeIsNoPower();
    ghost var at;
    r, at := a.Allocate(3);
  }

  // ----- Writing and loading -----

  lemma {:induction false} WalksAgree(dev: map<nat, Block>, ptr: nat, a: seq<nat>, b: seq<nat>, k: nat)
    requires Walk(dev, ptr, a) && Walk(dev, ptr, b) && k < |a| <= |b|
    ensures a[k] == b[k] && (k == |a| - 1 ==> |a| == |b|)
    decreases k
  {
    if k == 0 {
    } else {
      WalksAgree(dev, ptr, a, b, k - 1);
      assert dev[a[k - 1]].next == Some(a[(k - 1) + 1]) && dev[b[k - 1]].next == Some(b[(k - 1) + 1]);
    }
    assert k < |b| - 1 ==> Readable(dev, b[k]) && dev[b[k]].next == Some(b[k + 1]);
  }

  /** From one block there is at most one chain that ends. */
  lemma WalkUnique(dev: map<nat, Block>, ptr: nat, a: seq<nat>, b: seq<nat>)
    requires Walk(dev, ptr, a) && Walk(dev, ptr, b)
    ensures a == b
  {
    hide Walk;
    assert |a| > 0 && |b| > 0 by { WalkNonEmpty(dev, ptr, a); WalkNonEmpty(dev, ptr, b); }
    var x, y := if |a| <= |b| then a else b, if |a| <= |b| then b else a;
    WalksAgree(dev, ptr, x, y, |x| - 1);
    forall k | 0 <= k < |x| ensures x[k] == y[k] { WalksAgree(dev, ptr, x, y, k); }
  }

  lemma WalkNonEmpty(dev: map<nat, Block>, ptr: nat, a: seq<nat>)
    requires Walk(dev, ptr, a)
    ensures |a| > 0
  {
  }

  /** After a successful `write`, `load` ends and rebuilds the free list, with the chain as the blocks in use. */
  method WriteThenLoad(a: BlockAllocator, dev: Device) returns (r: Option<BlockAllocator>, ghost chain: seq<nat>)
    requires a.Valid()
    modifies a, dev
    ensures var freed := FreeAll(old(a.free), Singles(old(a.selfOnDisk)));
            r.Some? <==> IsPow2(ChainLength(freed)) && HasGroup(freed, ChainLength(freed))
    ensures r.Some? ==> r.value.free == a.free && r.value.Valid() && !r.value.dirty
    ensures r.Some? ==> r.value.selfOnDisk == chain && r.value.onDisk.Some? && Walk(dev.blocks, r.value.onDisk.value, chain)
    ensures r.Some? ==> var freed := FreeAll(old(a.free), Singles(old(a.selfOnDisk)));
                        && |chain| == ChainLength(freed) && Distinct(chain)
                        && forall x :: IsFree(a.free, x) <==> IsFree(freed, x) && x !in chain
  {
    hide Disjoint, IsFree, IsPow2, HasGroup, FreeAll, Walk, Collected, Readable, ChainLength, Singles, OnlyTouches, Distinct;
    var ptr, loaded;
    ghost var blocks;
    chain := [];
    ptr, blocks := a.Write(dev);
    if ptr.None? { return None, chain; }
    loaded, chain := BlockAllocator.Load(dev, ptr.value);
    WalkUnique(dev.blocks, ptr.value, blocks, chain);
    assert forall i :: 0 <= i < |blocks| ==> blocks[i] in blocks;
    return Some(loaded.allocator), chain;
  }

  /** Of two writes in a row, the second does not give back the blocks of the first: nothing records them. */
  method WriteTwice(a: BlockAllocator, dev: Device)
    returns (first: Option<nat>, second: Option<nat>, ghost lost: seq<nat>, ghost chain: seq<nat>)
    requires a.Valid()
    modifies a, dev
    ensures first.Some? <==> var freed := FreeAll(old(a.free), Singles(old(a.selfOnDisk)));
                             IsPow2(ChainLength(freed)) && HasGroup(freed, ChainLength(freed))
    ensures (&& first.Some? && ChainLength(FreeAll(old(a.free), Singles(old(a.selfOnDisk)))) == 1
             && exists x :: IsFree(FreeAll(old(a.free), Singles(old(a.selfOnDisk))), x) && x !in lost) ==> second.Some?
    ensures first.Some? ==> var freed := FreeAll(old(a.free), Singles(old(a.selfOnDisk)));
                            && |lost| == ChainLength(freed) && Distinct(lost) && forall x :: x in lost ==> IsFree(freed, x)
    ensures first.Some? ==> Walk(dev.blocks, first.value, lost)
    ensures first.Some? && second.Some? ==>
              && |chain| > 0 && Walk(dev.blocks, second.value, chain)
              && forall x :: x in lost ==> !IsFree(a.free, x) && x !in chain && x !in a.selfOnDisk
  {
    hide Disjoint, IsFree, IsPow2, HasGroup, FreeAll, Walk, Collected, Readable, Singles, OnlyTouches, ChainLength;
    ghost var freed := FreeAll(a.free, Singles(a.selfOnDisk));
    first, lost := a.Write(dev);
    chain, second := [], None;
    if first.None? { return; }
    NothingFreed(a.free);
    ghost var between := a.free;
    SecondFits(freed, between, lost);
    ghost var d := dev.blocks;
    second, chain := a.Write(dev);
    if second.Some? {
      WalkNonEmpty(dev.blocks, second.value, chain);
      WalkFrame(d, dev.blocks, first.value, lost, chain);
    }
  }

  /** Writing other blocks does not change a chain. */
  lemma WalkFrame(d: map<nat, Block>, e: map<nat, Block>, ptr: nat, chain: seq<nat>, blocks: seq<nat>)
    requires Walk(d, ptr, chain) && OnlyTouches(d, e, blocks) && forall x :: x in chain ==> x !in blocks
    ensures Walk(e, ptr, chain)
  {
    forall k | 0 <= k < |chain| ensures SameBlock(d, e, chain[k]) {
      assert chain[k] in chain;
    }
  }

  lemma NothingFreed(f: seq<BlockGroup>)
    ensures FreeAll(f, Singles([])) == f
  {
  }

  /** If one block was enough for the first copy, it is for the second. */
  lemma SecondFits(freed: seq<BlockGroup>, f: seq<BlockGroup>, blocks: seq<nat>)
    requires |f| <= |freed| && Disjoint(f) && forall x :: IsFree(f, x) <==> IsFree(freed, x) && x !in blocks
    ensures ChainLength(freed) == 1 && (exists x :: IsFree(freed, x) && x !in blocks) ==>
              IsPow2(ChainLength(f)) && HasGroup(f, ChainLength(f))
  {
    if ChainLength(freed) == 1 && (exists x :: IsFree(freed, x) && x !in blocks) {
      assert 1 == Pow2(0);
      var x :| IsFree(freed, x) && x !in blocks;
      var i :| 0 <= i < |f| && InGroup(x, f[i]);
      assert f[i].count >= 1;
    }
  }

  /** A fresh allocator over ten blocks, written twice: one block is neither free nor part of what is stored. */
  method SecondWriteLeaks()
    returns (a: BlockAllocator, dev: Device, first: Option<nat>, second: Option<nat>, ghost lost: seq<nat>, ghost chain: seq<nat>)
    ensures fresh(a) && fresh(dev) && first.Some? && second.Some?
    ensures |lost| == 1 && Walk(dev.blocks, first.value, lost) && Walk(dev.blocks, second.value, chain)
    ensures forall x :: x in lost ==> 0 <= x < 10 && !IsFree(a.free, x) && x !in chain && x !in a.selfOnDisk
  {
    a := new BlockAllocator.Empty([], 10);
    dev := new Device();
    NothingFreed(a.free);
    assert ChainLength(a.free) == 1 && 1 == Pow2(0) && a.free[0].count >= 1;
    assert IsFree(a.free, 0) && IsFree(a.free, 1);
    ghost var f := a.free;
    first, second, lost, chain := WriteTwice(a, dev);
    ghost var x := if 0 in lost then 1 else 0;
    assert IsFree(f, x) && x !in lost;
  }

  /** `2^ilog2(n)` is at most `n`, and equal to it exactly for powers of two. */
  lemma Pow2IsLargest(n: nat)
    requires n > 0
    ensures Pow2(Log2(n)) <= n && (Pow2(Log2(n)) == n <==> IsPow2(n))
  {
    if IsPow2(n) {
      var k: nat :| n == Pow2(k);
      Pow2Succ(k);
      Log2Unique(n, k);
    }
  }
}
