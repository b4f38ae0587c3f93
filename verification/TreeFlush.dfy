/** Writing the file tree to the device (modules/wasabi-fs/src/mem_tree/mod.rs, `flush_to_device`). */
module TreeFlush {
  import opened Machine
  import opened FreeLists
  import opened BlockDevices
  import opened BlockAllocators
  import TreeNodes

  /** A link with the block of its last write, if any, and its node, if loaded. */
  datatype Link = Link(ptr: Option<nat>, node: Node)

  datatype Node =
    | Unloaded
    | Leave(files: seq<TreeNodes.File>, dirty: bool)
    | Inner(children: seq<Link>, maxes: seq<Option<TreeNodes.FileId>>, dirty: bool, dirtyChildren: bool)

  // The blocks of a tree

  ghost function Ptrs(l: Link): set<nat>
    decreases l, 0
  {
    (if l.ptr.Some? then {l.ptr.value} else {}) + if l.node.Inner? then PtrsIn(l.node.children) else {}
  }

  ghost function PtrsIn(cs: seq<Link>): set<nat> {
    if cs == [] then {} else PtrsIn(cs[..|cs| - 1]) + Ptrs(cs[|cs| - 1])
  }

  /** No block belongs to two nodes, and a link that is not loaded has a block. */
  ghost predicate Owned(l: Link)
    decreases l, 0
  {
    && (l.ptr.None? ==> !l.node.Unloaded?)
    && (l.node.Inner? ==> OwnedIn(l.node.children) && (l.ptr.Some? ==> l.ptr.value !in PtrsIn(l.node.children)))
  }

  ghost predicate OwnedIn(cs: seq<Link>) {
    cs == [] || (OwnedIn(cs[..|cs| - 1]) && Owned(cs[|cs| - 1]) && PtrsIn(cs[..|cs| - 1]) !! Ptrs(cs[|cs| - 1]))
  }

  // What a step does to the free list and the device

  /** The blocks `a` give way to the blocks `b`, which were free or among them; no other block in use is touched. */
  ghost predicate Moves(f: seq<BlockGroup>, d: map<nat, Block>, a: set<nat>,
                        g: seq<BlockGroup>, e: map<nat, Block>, b: set<nat>) {
    && Disjoint(f) && Disjoint(g)
    && (forall x :: x in a ==> !IsFree(f, x) && x + 1 < U64_MAX)
    && (forall x :: x in b ==> !IsFree(g, x) && x + 1 < U64_MAX && (x in a || IsFree(f, x)))
    && (forall x: nat :: IsFree(g, x) ==> IsFree(f, x) || x in a)
    && (forall x: nat :: !IsFree(f, x) && x !in a ==> SameBlock(d, e, x))
  }

  lemma MovesCompose(f: seq<BlockGroup>, d: map<nat, Block>, a: set<nat>, f1: seq<BlockGroup>, d1: map<nat, Block>, a1: set<nat>,
                     b: set<nat>, f2: seq<BlockGroup>, d2: map<nat, Block>, b2: set<nat>)
    requires Moves(f, d, a, f1, d1, a1) && Moves(f1, d1, b, f2, d2, b2)
    requires a !! b && forall x :: x in b ==> !IsFree(f, x)
    ensures Moves(f, d, a + b, f2, d2, a1 + b2) && a1 !! b2 && a1 !! b
  {
    hide IsFree, Disjoint;
  }

  /** Writing one block: a free block is taken, then the old one is given back. */
  lemma SaveMoves(f: seq<BlockGroup>, d: map<nat, Block>, was: Option<nat>, g1: seq<BlockGroup>, group: BlockGroup, at: nat,
                  g2: seq<BlockGroup>, block: Block)
    requires Disjoint(f) && AllocatesGroup(f, g1, 1, group, at)
    requires was.Some? ==> !IsFree(f, was.value) && was.value + 1 < U64_MAX
    requires g2 == if was.Some? then FreeGroup(g1, BlockGroup(was.value, 1)) else g1
    ensures Moves(f, d, SetOf(was), g2, d[group.start := block], {group.start}) && was != Some(group.start)
  {
    hide IsFree, Disjoint, AllocatesGroup, FreeGroup, CheckConsistent;
    TakeOne(f, g1, group, at);
    if was.Some? {
      GiveBack(g1, was.value);
    }
  }

  ghost function SetOf(ptr: Option<nat>): set<nat> {
    if ptr.Some? then {ptr.value} else {}
  }

  lemma TakeOne(f: seq<BlockGroup>, g: seq<BlockGroup>, group: BlockGroup, at: nat)
    requires Disjoint(f) && AllocatesGroup(f, g, 1, group, at)
    ensures Disjoint(g) && IsFree(f, group.start) && group.start + 1 < U64_MAX
    ensures forall x :: IsFree(g, x) <==> IsFree(f, x) && x != group.start
  {
    AllocateGroupExact(f, g, 1, group, at);
    GroupSize(f, g, 1, group, at);
    FreeSetMembers(f, g, group);
    assert InGroup(group.start, group);
  }

  lemma GiveBack(f: seq<BlockGroup>, b: nat)
    requires Disjoint(f) && !IsFree(f, b) && b + 1 < U64_MAX
    ensures var g := FreeGroup(f, BlockGroup(b, 1));
            Disjoint(g) && forall x :: IsFree(g, x) ==> IsFree(f, x) || x == b
  {
    var group := BlockGroup(b, 1);
    assert NoneFree(f, group);
    FreeGroupExact(f, group);
    var g := FreeGroup(f, group);
    forall x | IsFree(g, x) ensures IsFree(f, x) || x == b {
      assert x in FreeSet(g);
    }
  }

  // Dirty nodes and what is stored

  predicate Dirty(l: Link) {
    !l.node.Unloaded? && l.node.dirty
  }

  predicate AnyDirty(l: Link) {
    Dirty(l) || (l.node.Inner? && exists k :: 0 <= k < |l.node.children| && AnyDirty(l.node.children[k]))
  }

  /** A change anywhere below a node is announced by its flag for children, as every walk to change a leave sets it. */
  predicate Flagged(l: Link) {
    l.node.Inner? ==>
      && ((exists k :: 0 <= k < |l.node.children| && AnyDirty(l.node.children[k])) ==> l.node.dirtyChildren)
      && (forall k :: 0 <= k < |l.node.children| ==> Flagged(l.node.children[k]))
  }

  /** No clean node has a dirty child. */
  predicate Closed(l: Link) {
    l.node.Inner? ==>
      && (!l.node.dirty ==> forall k :: 0 <= k < |l.node.children| ==> !Dirty(l.node.children[k]))
      && (forall k :: 0 <= k < |l.node.children| ==> Closed(l.node.children[k]))
  }

  predicate AllStored(cs: seq<Link>) {
    forall k :: 0 <= k < |cs| ==> cs[k].ptr.Some?
  }

  function PtrList(cs: seq<Link>): (r: seq<nat>)
    requires AllStored(cs)
    ensures |r| == |cs| && forall k :: 0 <= k < |cs| ==> r[k] == cs[k].ptr.value
  {
    seq(|cs|, k requires 0 <= k < |cs| => cs[k].ptr.value)
  }

  predicate StoredAt(d: map<nat, Block>, ptr: Option<nat>, block: Block) {
    ptr.Some? && ptr.value in d && d[ptr.value] == block
  }

  /** The block of a loaded node holds the node, as it is and with the blocks its children have now. */
  predicate Written(l: Link, d: map<nat, Block>) {
    match l.node
    case Unloaded => l.ptr.Some?
    case Leave(files, _) => StoredAt(d, l.ptr, TreeLeave(files))
    case Inner(cs, maxes, _, _) => AllStored(cs) && StoredAt(d, l.ptr, TreeNode(PtrList(cs), maxes))
  }

  /** Reading from the block of the link gives the tree in memory. */
  predicate Mirrors(l: Link, d: map<nat, Block>) {
    Written(l, d) && (l.node.Inner? ==> forall k :: 0 <= k < |l.node.children| ==> Mirrors(l.node.children[k], d))
  }

  /** Every clean node is stored as it is. */
  predicate InSync(l: Link, d: map<nat, Block>) {
    && (!Dirty(l) ==> Written(l, d))
    && (l.node.Inner? ==> forall k :: 0 <= k < |l.node.children| ==> InSync(l.node.children[k], d))
  }

  predicate SameContents(l: Link, r: Link) {
    match l.node
    case Unloaded => r == l
    case Leave(files, _) => r.node.Leave? && r.node.files == files
    case Inner(cs, maxes, _, _) =>
      && r.node.Inner? && r.node.maxes == maxes && |r.node.children| == |cs|
      && forall k :: 0 <= k < |cs| ==> SameContents(cs[k], r.node.children[k])
  }

  ghost predicate Agree(d: map<nat, Block>, e: map<nat, Block>, s: set<nat>) {
    forall x :: x in s ==> SameBlock(d, e, x)
  }

  lemma PtrsOfChild(cs: seq<Link>, k: nat)
    requires k < |cs|
    ensures Ptrs(cs[k]) <= PtrsIn(cs)
    decreases |cs|
  {
    if k < |cs| - 1 {
      PtrsOfChild(cs[..|cs| - 1], k);
    }
  }

  /** Only the blocks of a tree decide what it stores. */
  lemma {:induction false} Frame(l: Link, d: map<nat, Block>, e: map<nat, Block>)
    requires Agree(d, e, Ptrs(l))
    ensures Mirrors(l, d) == Mirrors(l, e) && InSync(l, d) == InSync(l, e)
    decreases l
  {
    assert Written(l, d) == Written(l, e);
    if l.node.Inner? {
      var cs := l.node.children;
      forall k | 0 <= k < |cs| ensures Mirrors(cs[k], d) == Mirrors(cs[k], e) && InSync(cs[k], d) == InSync(cs[k], e) {
        PtrsOfChild(cs, k);
        Frame(cs[k], d, e);
      }
    }
  }

  lemma {:induction false} CleanMirrors(l: Link, d: map<nat, Block>)
    requires InSync(l, d) && !AnyDirty(l)
    ensures Mirrors(l, d) && Closed(l)
    decreases l
  {
    if l.node.Inner? {
      var cs := l.node.children;
      forall k | 0 <= k < |cs| ensures Mirrors(cs[k], d) && Closed(cs[k]) && !Dirty(cs[k]) {
        assert !AnyDirty(cs[k]);
        CleanMirrors(cs[k], d);
      }
    }
  }

  lemma {:induction false} SameContentsRefl(l: Link)
    ensures SameContents(l, l)
    decreases l
  {
    if l.node.Inner? {
      forall k | 0 <= k < |l.node.children| ensures SameContents(l.node.children[k], l.node.children[k]) {
        SameContentsRefl(l.node.children[k]);
      }
    }
  }

  // Flushing

  /** What a flush makes of a link: contents unchanged, a new block for a dirty node, the old one untouched for a
      clean node, and the device mirrors the tree if and only if no clean node had a dirty child. */
  ghost predicate Flushed(l: Link, r: Link, d: map<nat, Block>, e: map<nat, Block>) {
    && SameContents(l, r)
    && (if Dirty(l) then r.ptr.Some? && r.ptr != l.ptr else r.ptr == l.ptr)
    && (!Dirty(l) && l.ptr.Some? ==> SameBlock(d, e, l.ptr.value))
    && ChildrenMoved(l, r)
    && (Flagged(l) ==> !AnyDirty(r))
    && (Flagged(l) && InSync(l, d) ==> (Mirrors(r, e) <==> Closed(l)))
    && ChildrenMirrored(l, r, d, e)
  }

  /** Whatever the node itself has in its block, each child that was in order is mirrored if nothing below it is not. */
  ghost predicate ChildrenMirrored(l: Link, r: Link, d: map<nat, Block>, e: map<nat, Block>) {
    l.node.Inner? && Flagged(l) && (forall k :: 0 <= k < |l.node.children| ==> InSync(l.node.children[k], d)) ==>
      && r.node.Inner? && |r.node.children| == |l.node.children|
      && forall k :: 0 <= k < |l.node.children| ==> (Mirrors(r.node.children[k], e) <==> Closed(l.node.children[k]))
  }

  /** The dirty children of a node whose children were flushed have other blocks than before. */
  predicate ChildrenMoved(l: Link, r: Link) {
    l.node.Inner? && l.node.dirtyChildren ==>
      && r.node.Inner? && |r.node.children| == |l.node.children|
      && forall k :: 0 <= k < |l.node.children| && Dirty(l.node.children[k]) ==> r.node.children[k].ptr != l.node.children[k].ptr
  }

  ghost predicate FlushedIn(cs: seq<Link>, rs: seq<Link>, d: map<nat, Block>, e: map<nat, Block>) {
    |rs| == |cs| && forall k :: 0 <= k < |cs| ==> Flushed(cs[k], rs[k], d, e)
  }

  ghost predicate Result(l: Link, r: Link, f: seq<BlockGroup>, d: map<nat, Block>, g: seq<BlockGroup>, e: map<nat, Block>) {
    Moves(f, d, Ptrs(l), g, e, Ptrs(r)) && Owned(r) && Flushed(l, r, d, e)
  }

  ghost predicate ResultIn(cs: seq<Link>, rs: seq<Link>, f: seq<BlockGroup>, d: map<nat, Block>,
                           g: seq<BlockGroup>, e: map<nat, Block>) {
    Moves(f, d, PtrsIn(cs), g, e, PtrsIn(rs)) && OwnedIn(rs) && FlushedIn(cs, rs, d, e)
  }

  ghost predicate InUse(f: seq<BlockGroup>, s: set<nat>) {
    Disjoint(f) && forall x :: x in s ==> !IsFree(f, x) && x + 1 < U64_MAX
  }

  lemma MovesNothing(f: seq<BlockGroup>, d: map<nat, Block>, s: set<nat>)
    requires InUse(f, s)
    ensures Moves(f, d, s, f, d, s)
  {
    hide IsFree, Disjoint;
  }

  lemma OwnPtr(l: Link)
    ensures l.ptr.Some? ==> l.ptr.value in Ptrs(l)
  {
  }

  /** Later changes of the device do not concern a child that has been flushed already. */
  lemma StillFlushed(l: Link, r: Link, d: map<nat, Block>, e: map<nat, Block>, e2: map<nat, Block>)
    requires Flushed(l, r, d, e) && Agree(e, e2, Ptrs(r))
    ensures Flushed(l, r, d, e2)
  {
    OwnPtr(r);
    if r.node.Inner? {
      forall k | 0 <= k < |r.node.children| ensures Mirrors(r.node.children[k], e) == Mirrors(r.node.children[k], e2) {
        PtrsOfChild(r.node.children, k);
        Frame(r.node.children[k], e, e2);
      }
    }
    hide SameContents, Mirrors, InSync, Closed, Flagged, AnyDirty, Ptrs, ChildrenMoved;
    Frame(r, e, e2);
  }

  /** Earlier changes of the device do not concern a child that is flushed now. */
  lemma FlushedSince(l: Link, r: Link, d0: map<nat, Block>, d: map<nat, Block>, e: map<nat, Block>)
    requires Flushed(l, r, d, e) && Agree(d0, d, Ptrs(l))
    ensures Flushed(l, r, d0, e)
  {
    OwnPtr(l);
    if l.node.Inner? {
      forall k | 0 <= k < |l.node.children| ensures InSync(l.node.children[k], d0) == InSync(l.node.children[k], d) {
        PtrsOfChild(l.node.children, k);
        Frame(l.node.children[k], d0, d);
      }
    }
    hide SameContents, Mirrors, InSync, Closed, Flagged, AnyDirty, Ptrs, ChildrenMoved;
    Frame(l, d0, d);
  }

  lemma PtrsSnoc(cs: seq<Link>, l: Link)
    ensures PtrsIn(cs + [l]) == PtrsIn(cs) + Ptrs(l)
    ensures OwnedIn(cs + [l]) <==> OwnedIn(cs) && Owned(l) && PtrsIn(cs) !! Ptrs(l)
  {
    assert (cs + [l])[..|cs|] == cs && (cs + [l])[|cs|] == l;
  }

  lemma NextChild(cs: seq<Link>, rs: seq<Link>, l: Link, r: Link, f: seq<BlockGroup>, d: map<nat, Block>,
                  f1: seq<BlockGroup>, d1: map<nat, Block>, f2: seq<BlockGroup>, d2: map<nat, Block>)
    requires ResultIn(cs, rs, f, d, f1, d1) && Result(l, r, f1, d1, f2, d2)
    requires PtrsIn(cs) !! Ptrs(l) && InUse(f, Ptrs(l))
    ensures ResultIn(cs + [l], rs + [r], f, d, f2, d2)
  {
    hide IsFree, Disjoint, Ptrs, PtrsIn, Owned, OwnedIn, Flushed;
    MovesCompose(f, d, PtrsIn(cs), f1, d1, PtrsIn(rs), Ptrs(l), f2, d2, Ptrs(r));
    PtrsSnoc(cs, l);
    PtrsSnoc(rs, r);
    FlushedSince(l, r, d, d1, d2);
    forall k | 0 <= k < |cs| ensures Flushed(cs[k], rs[k], d, d2) {
      PtrsOfChild(rs, k);
      StillFlushed(cs[k], rs[k], d, d1, d2);
    }
  }

  lemma NextIsUnfree(f: seq<BlockGroup>, d: map<nat, Block>, a: set<nat>, f1: seq<BlockGroup>, d1: map<nat, Block>,
                     a1: set<nat>, b: set<nat>)
    requires Moves(f, d, a, f1, d1, a1) && InUse(f, b) && a !! b
    ensures InUse(f1, b)
  {
    hide IsFree, Disjoint;
  }

  lemma PtrsPrefix(cs: seq<Link>, i: nat)
    requires OwnedIn(cs) && i < |cs|
    ensures OwnedIn(cs[..i]) && Owned(cs[i]) && PtrsIn(cs[..i]) !! Ptrs(cs[i])
    ensures cs[..i + 1] == cs[..i] + [cs[i]]
    decreases |cs|
  {
    if i < |cs| - 1 {
      PtrsPrefix(cs[..|cs| - 1], i);
      assert cs[..|cs| - 1][..i] == cs[..i] && cs[..|cs| - 1][i] == cs[i];
    }
  }

  /** A clean node keeps its block, which still lists the blocks its children had. */
  lemma CleanNode(l: Link, rs: seq<Link>, d: map<nat, Block>, e: map<nat, Block>)
    requires l.node.Inner? && !l.node.dirty && FlushedIn(l.node.children, rs, d, e)
    requires l.ptr.Some? ==> SameBlock(d, e, l.ptr.value)
    ensures Flushed(l, Link(l.ptr, Inner(rs, l.node.maxes, false, false)), d, e)
  {
    var cs, r := l.node.children, Link(l.ptr, Inner(rs, l.node.maxes, false, false));
    forall k | 0 <= k < |cs| ensures SameContents(cs[k], rs[k]) && (Dirty(cs[k]) ==> rs[k].ptr != cs[k].ptr) {
      assert Flushed(cs[k], rs[k], d, e);
    }
    if Flagged(l) {
      forall k | 0 <= k < |rs| ensures !AnyDirty(rs[k]) { assert Flushed(cs[k], rs[k], d, e); }
      if InSync(l, d) { CleanNodeMirrors(l, rs, d, e); }
    }
  }

  lemma CleanNodeMirrors(l: Link, rs: seq<Link>, d: map<nat, Block>, e: map<nat, Block>)
    requires l.node.Inner? && !l.node.dirty && FlushedIn(l.node.children, rs, d, e)
    requires l.ptr.Some? ==> SameBlock(d, e, l.ptr.value)
    requires Flagged(l) && InSync(l, d)
    ensures Mirrors(Link(l.ptr, Inner(rs, l.node.maxes, false, false)), e) <==> Closed(l)
  {
    var cs, r := l.node.children, Link(l.ptr, Inner(rs, l.node.maxes, false, false));
    assert Written(l, d);
    forall k | 0 <= k < |cs| ensures Mirrors(rs[k], e) <==> Closed(cs[k]) { assert Flushed(cs[k], rs[k], d, e); }
    if k :| 0 <= k < |cs| && Dirty(cs[k]) {
      assert Flushed(cs[k], rs[k], d, e);
      assert !Written(r, e);
    } else {
      forall k | 0 <= k < |cs| ensures rs[k].ptr == cs[k].ptr { assert Flushed(cs[k], rs[k], d, e); }
      assert AllStored(rs) && PtrList(rs) == PtrList(cs);
    }
  }

  /** A node without the flag for children is left alone with all that is below it. */
  lemma UnvisitedChildren(l: Link, d: map<nat, Block>)
    requires l.node.Inner? && !l.node.dirtyChildren && Flagged(l)
    ensures forall k :: 0 <= k < |l.node.children| ==> !AnyDirty(l.node.children[k])
    ensures forall k :: 0 <= k < |l.node.children| && InSync(l.node.children[k], d) ==>
              Mirrors(l.node.children[k], d) && Closed(l.node.children[k])
  {
    forall k | 0 <= k < |l.node.children| && InSync(l.node.children[k], d)
      ensures Mirrors(l.node.children[k], d) && Closed(l.node.children[k])
    {
      CleanMirrors(l.node.children[k], d);
    }
  }

  lemma UnvisitedNode(l: Link, ptr: Option<nat>, d: map<nat, Block>, e: map<nat, Block>)
    requires l.node.Inner? && !l.node.dirtyChildren && Agree(d, e, PtrsIn(l.node.children))
    requires if l.node.dirty then ptr.Some? && ptr != l.ptr else ptr == l.ptr && (ptr.Some? ==> SameBlock(d, e, ptr.value))
    requires l.node.dirty ==> Written(Link(ptr, l.node), e)
    ensures Flushed(l, Link(ptr, Inner(l.node.children, l.node.maxes, false, false)), d, e)
  {
    var cs, r := l.node.children, Link(ptr, Inner(l.node.children, l.node.maxes, false, false));
    SameContentsRefl(l);
    if Flagged(l) {
      UnvisitedChildren(l, d);
      forall k | 0 <= k < |cs| && InSync(cs[k], d) ensures Mirrors(cs[k], e) && Closed(cs[k]) && !Dirty(cs[k]) {
        assert !AnyDirty(cs[k]);
        PtrsOfChild(cs, k);
        Frame(cs[k], d, e);
      }
      if InSync(l, d) { assert Written(r, e); }
    }
  }

  /** A dirty node gets a new block that lists the blocks its children have now. */
  lemma DirtyNode(l: Link, rs: seq<Link>, ptr: Option<nat>, d: map<nat, Block>, e: map<nat, Block>)
    requires l.node.Inner? && l.node.dirty && FlushedIn(l.node.children, rs, d, e)
    requires ptr.Some? && ptr != l.ptr && AllStored(rs) && StoredAt(e, ptr, TreeNode(PtrList(rs), l.node.maxes))
    ensures Flushed(l, Link(ptr, Inner(rs, l.node.maxes, false, false)), d, e)
  {
    var cs, r := l.node.children, Link(ptr, Inner(rs, l.node.maxes, false, false));
    forall k | 0 <= k < |cs| ensures SameContents(cs[k], rs[k]) && (Dirty(cs[k]) ==> rs[k].ptr != cs[k].ptr) {
      assert Flushed(cs[k], rs[k], d, e);
    }
    if Flagged(l) {
      forall k | 0 <= k < |rs| ensures !AnyDirty(rs[k]) { assert Flushed(cs[k], rs[k], d, e); }
      if InSync(l, d) {
        forall k | 0 <= k < |cs| ensures Mirrors(rs[k], e) <==> Closed(cs[k]) { assert Flushed(cs[k], rs[k], d, e); }
      }
    }
  }

  /** The children have been flushed, or left alone because nothing below the node has changed. */
  ghost predicate ChildrenDone(l: Link, rs: seq<Link>, f: seq<BlockGroup>, d: map<nat, Block>, g: seq<BlockGroup>, e: map<nat, Block>) {
    && l.node.Inner? && Moves(f, d, PtrsIn(l.node.children), g, e, PtrsIn(rs)) && OwnedIn(rs)
    && (FlushedIn(l.node.children, rs, d, e) || (!l.node.dirtyChildren && rs == l.node.children && e == d))
  }

  lemma PtrsNode(ptr: Option<nat>, cs: seq<Link>, maxes: seq<Option<TreeNodes.FileId>>, a: bool, b: bool)
    ensures Ptrs(Link(ptr, Inner(cs, maxes, a, b))) == PtrsIn(cs) + SetOf(ptr)
    ensures Owned(Link(ptr, Inner(cs, maxes, a, b))) <==> OwnedIn(cs) && PtrsIn(cs) !! SetOf(ptr)
  {
  }

  lemma FinishClean(l: Link, rs: seq<Link>, f: seq<BlockGroup>, d: map<nat, Block>, g: seq<BlockGroup>, e: map<nat, Block>)
    requires ChildrenDone(l, rs, f, d, g, e) && !l.node.dirty && Owned(l) && InUse(f, Ptrs(l))
    ensures Result(l, Link(l.ptr, Inner(rs, l.node.maxes, false, false)), f, d, g, e)
  {
    hide IsFree, Disjoint, Ptrs, PtrsIn, Owned, OwnedIn, Flushed, FlushedIn;
    var cs, own := l.node.children, SetOf(l.ptr);
    PtrsNode(l.ptr, cs, l.node.maxes, l.node.dirty, l.node.dirtyChildren);
    PtrsNode(l.ptr, rs, l.node.maxes, false, false);
    NextIsUnfree(f, d, PtrsIn(cs), g, e, PtrsIn(rs), own);
    MovesNothing(g, e, own);
    MovesCompose(f, d, PtrsIn(cs), g, e, PtrsIn(rs), own, g, e, own);
    if FlushedIn(cs, rs, d, e) {
      CleanNode(l, rs, d, e);
    } else {
      UnvisitedNode(l, l.ptr, d, e);
    }
  }

  lemma FinishDirty(l: Link, rs: seq<Link>, f: seq<BlockGroup>, d: map<nat, Block>, f1: seq<BlockGroup>, d1: map<nat, Block>,
                    g: seq<BlockGroup>, e: map<nat, Block>, p: nat)
    requires ChildrenDone(l, rs, f, d, f1, d1) && l.node.dirty && Owned(l) && InUse(f, Ptrs(l))
    requires Moves(f1, d1, SetOf(l.ptr), g, e, {p}) && l.ptr != Some(p)
    requires AllStored(rs) && StoredAt(e, Some(p), TreeNode(PtrList(rs), l.node.maxes))
    ensures Result(l, Link(Some(p), Inner(rs, l.node.maxes, false, false)), f, d, g, e)
  {
    hide IsFree, Disjoint, Ptrs, PtrsIn, Owned, OwnedIn, Flushed;
    var cs := l.node.children;
    PtrsNode(l.ptr, cs, l.node.maxes, l.node.dirty, l.node.dirtyChildren);
    PtrsNode(Some(p), rs, l.node.maxes, false, false);
    MovesCompose(f, d, PtrsIn(cs), f1, d1, PtrsIn(rs), SetOf(l.ptr), g, e, {p});
    assert Agree(d1, e, PtrsIn(rs));
    if FlushedIn(cs, rs, d, d1) {
      forall k | 0 <= k < |cs| ensures Flushed(cs[k], rs[k], d, e) {
        PtrsOfChild(rs, k);
        StillFlushed(cs[k], rs[k], d, d1, e);
      }
      DirtyNode(l, rs, Some(p), d, e);
    } else {
      UnvisitedNode(l, Some(p), d, e);
    }
  }

  // ----- Flushing as a function of the free list and the device -----

  datatype Disk = Disk(free: seq<BlockGroup>, blocks: map<nat, Block>)

  /** The first block of the best group is taken, the old block is given back, the new one is written. */
  ghost function SaveOf(was: Option<nat>, block: Block, s: Disk): (r: Option<(nat, Disk)>)
    ensures r.Some? <==> HasGroup(s.free, 1)
  {
    if !HasGroup(s.free, 1) then None
    else
      var i := BestFor(s.free, 1);
      var p, free := s.free[i].start, WithoutFirst(s.free, i);
      Some((p, Disk(if was.Some? then FreeGroup(free, BlockGroup(was.value, 1)) else free, s.blocks[p := block])))
  }

  ghost function FlushOf(l: Link, s: Disk): Option<(Link, Disk)>
    decreases l, 0
  {
    match l.node
    case Unloaded => Some((l, s))
    case Leave(files, dirty) =>
      if !dirty then Some((l, s))
      else
        var w := SaveOf(l.ptr, TreeLeave(files), s);
        if w.None? then None else Some((Link(Some(w.value.0), Leave(files, false)), w.value.1))
    case Inner(cs, maxes, dirty, dirtyChildren) =>
      var c := if dirtyChildren then FlushAll(cs, s) else Some((cs, s));
      if c.None? then None
      else if !dirty then Some((Link(l.ptr, Inner(c.value.0, maxes, false, false)), c.value.1))
      else if !AllStored(c.value.0) then None
      else
        var w := SaveOf(l.ptr, TreeNode(PtrList(c.value.0), maxes), c.value.1);
        if w.None? then None else Some((Link(Some(w.value.0), Inner(c.value.0, maxes, false, false)), w.value.1))
  }

  ghost function FlushAll(cs: seq<Link>, s: Disk): Option<(seq<Link>, Disk)>
    decreases cs
  {
    if cs == [] then Some(([], s))
    else
      var c := FlushAll(cs[..|cs| - 1], s);
      if c.None? then None
      else
        var r := FlushOf(cs[|cs| - 1], c.value.1);
        if r.None? then None else Some((c.value.0 + [r.value.0], r.value.1))
  }

  /** The outcome of flushing `l` is `r` on the disk `e`, or a failure. */
  ghost predicate Flushes(l: Link, s: Disk, ok: bool, r: Link, e: Disk) {
    FlushOf(l, s) == if ok then Some((r, e)) else None
  }

  lemma FlushAllSnoc(cs: seq<Link>, i: nat, s: Disk)
    requires i < |cs|
    ensures var c, d := FlushAll(cs[..i], s), FlushAll(cs[..i + 1], s);
            if c.None? then d.None?
            else
              var r := FlushOf(cs[i], c.value.1);
              if r.None? then d.None? else d == Some((c.value.0 + [r.value.0], r.value.1))
  {
    assert cs[..i + 1][..i] == cs[..i] && cs[..i + 1][i] == cs[i];
  }

  /** If a child cannot be written, the node is not. */
  lemma {:induction false} FlushAllStops(cs: seq<Link>, i: nat, s: Disk)
    requires i <= |cs| && FlushAll(cs[..i], s).None?
    ensures FlushAll(cs, s).None?
    decreases |cs| - i
  {
    if i == |cs| {
      assert cs[..i] == cs;
    } else {
      FlushAllSnoc(cs, i, s);
      FlushAllStops(cs, i + 1, s);
    }
  }

  /** Takes a block, gives the old one back and writes. Fails, changing nothing, when no block is free. */
  method Save(was: Option<nat>, block: Block, allocator: BlockAllocator, dev: Device) returns (p: Option<nat>)
    requires InUse(allocator.free, SetOf(was))
    modifies allocator, dev
    ensures p.None? <==> FreeCount(old(allocator.free)) == 0
    ensures var w := SaveOf(was, block, Disk(old(allocator.free), old(dev.blocks)));
            if p.None? then w.None? else w == Some((p.value, Disk(allocator.free, dev.blocks)))
    ensures p.Some? ==> FreeCount(allocator.free) + 1 >= FreeCount(old(allocator.free))
    ensures p.None? ==> allocator.free == old(allocator.free) && dev.blocks == old(dev.blocks)
    ensures p.Some? ==> was != p && dev.blocks == old(dev.blocks)[p.value := block]
                        && Moves(old(allocator.free), old(dev.blocks), SetOf(was), allocator.free, dev.blocks, {p.value})
  {
    hide IsFree, Disjoint, AllocatesGroup, FreeFrom, HasGroup, Moves, FreeCount, BestFor, WithoutFirst;
    ghost var f, d := allocator.free, dev.blocks;
    SomeFree(f);
    var group;
    ghost var at;
    group, at := allocator.AllocateGroup(1);
    if group.None? { return None; }
    ghost var f1 := allocator.free;
    AllocatesBest(f, f1, group.value, at);
    AllocateCount(f, f1, 1, group.value, at);
    if was.Some? {
      FreeGroupCount(f1, BlockGroup(was.value, 1), 0);
      allocator.FreeGroup(BlockGroup(was.value, 1));
    }
    dev.WriteBlock(group.value.start, block);
    assert was.Some? ==> was.value in SetOf(was);
    SaveMoves(f, d, was, f1, group.value, at, allocator.free, block);
    return Some(group.value.start);
  }

  lemma LeaveDone(l: Link, f: seq<BlockGroup>, d: map<nat, Block>, g: seq<BlockGroup>, e: map<nat, Block>, p: nat)
    requires l.node.Leave? && l.node.dirty && l.ptr != Some(p)
    requires Moves(f, d, SetOf(l.ptr), g, e, {p}) && StoredAt(e, Some(p), TreeLeave(l.node.files))
    ensures Result(l, Link(Some(p), Leave(l.node.files, false)), f, d, g, e)
  {
    hide IsFree, Disjoint;
    assert Ptrs(l) == SetOf(l.ptr) && Ptrs(Link(Some(p), Leave(l.node.files, false))) == {p};
  }

  lemma LeftAlone(l: Link, f: seq<BlockGroup>, d: map<nat, Block>)
    requires !l.node.Inner? && !Dirty(l) && Owned(l) && InUse(f, Ptrs(l))
    ensures Result(l, l, f, d, f, d)
  {
    MovesNothing(f, d, Ptrs(l));
  }

  // ----- When a flush succeeds -----

  function DirtyCount(l: Link): nat
    decreases l, 0
  {
    (if Dirty(l) then 1 else 0) + if l.node.Inner? then DirtyCountIn(l.node.children) else 0
  }

  function DirtyCountIn(cs: seq<Link>): nat {
    if |cs| == 0 then 0 else DirtyCountIn(cs[..|cs| - 1]) + DirtyCount(cs[|cs| - 1])
  }

  /** Only a dirty node is without a block. */
  predicate Placed(l: Link) {
    && (l.ptr.None? ==> Dirty(l))
    && (l.node.Inner? ==> forall k :: 0 <= k < |l.node.children| ==> Placed(l.node.children[k]))
  }

  lemma {:induction false} InSyncPlaced(l: Link, d: map<nat, Block>)
    requires InSync(l, d)
    ensures Placed(l)
    decreases l
  {
    if l.node.Inner? {
      forall k | 0 <= k < |l.node.children| ensures Placed(l.node.children[k]) { InSyncPlaced(l.node.children[k], d); }
    }
  }

  /** A free block for every dirty node. */
  ghost predicate Affordable(l: Link, f: seq<BlockGroup>) {
    Placed(l) && Flagged(l) && FreeCount(f) >= DirtyCount(l)
  }

  /** No free block, and something to write. */
  ghost predicate Hopeless(l: Link, f: seq<BlockGroup>) {
    Flagged(l) && AnyDirty(l) && FreeCount(f) == 0
  }

  lemma {:induction false} DirtyCountPrefix(cs: seq<Link>, i: nat)
    requires i < |cs|
    ensures DirtyCountIn(cs[..i + 1]) == DirtyCountIn(cs[..i]) + DirtyCount(cs[i]) <= DirtyCountIn(cs)
    decreases |cs|
  {
    if i == |cs| - 1 {
      assert cs[..i + 1] == cs;
    } else {
      DirtyCountPrefix(cs[..|cs| - 1], i);
      assert cs[..|cs| - 1][..i + 1] == cs[..i + 1] && cs[..|cs| - 1][..i] == cs[..i];
    }
  }

  /** As long as every block taken is a dirty node written, what is left suffices for the next child. */
  lemma ChildAffordable(l: Link, i: nat, f: seq<BlockGroup>, f1: seq<BlockGroup>)
    requires l.node.Inner? && i < |l.node.children|
    requires FreeCount(f1) + DirtyCountIn(l.node.children[..i]) >= FreeCount(f)
    ensures Affordable(l, f) ==> Affordable(l.node.children[i], f1)
  {
    hide FreeCount, DirtyCountIn;
    DirtyCountPrefix(l.node.children, i);
  }

  /** Every child of an affordable node has a block once the children are done. */
  lemma ChildrenPlaced(l: Link, rs: seq<Link>, f: seq<BlockGroup>, d: map<nat, Block>, g: seq<BlockGroup>, e: map<nat, Block>)
    requires ChildrenDone(l, rs, f, d, g, e) && Placed(l) && Flagged(l)
    ensures AllStored(rs)
  {
    var cs := l.node.children;
    forall k | 0 <= k < |rs| ensures rs[k].ptr.Some? {
      assert Placed(cs[k]);
      if FlushedIn(cs, rs, d, e) {
        assert Flushed(cs[k], rs[k], d, e);
      } else {
        assert !AnyDirty(cs[k]);
      }
    }
  }

  /** With no block free, a child that was flushed had nothing to write. */
  ghost predicate NothingWritten(cs: seq<Link>, f: seq<BlockGroup>, f1: seq<BlockGroup>) {
    FreeCount(f) == 0 && (forall k :: 0 <= k < |cs| ==> Flagged(cs[k])) ==>
      FreeCount(f1) == 0 && forall k :: 0 <= k < |cs| ==> !AnyDirty(cs[k])
  }

  lemma NothingWrittenSnoc(cs: seq<Link>, l: Link, f: seq<BlockGroup>, f1: seq<BlockGroup>, f2: seq<BlockGroup>)
    requires NothingWritten(cs, f, f1)
    requires Flagged(l) && FreeCount(f1) == 0 ==> !AnyDirty(l) && FreeCount(f2) == 0
    ensures NothingWritten(cs + [l], f, f2)
  {
    hide FreeCount, Flagged, AnyDirty;
    var ds := cs + [l];
    if FreeCount(f) == 0 && forall k :: 0 <= k < |ds| ==> Flagged(ds[k]) {
      forall k | 0 <= k < |cs| ensures Flagged(cs[k]) { assert ds[k] == cs[k]; }
      assert ds[|cs|] == l;
    }
  }

  /** A flagged node of which nothing was written, and which is clean itself, has nothing to write. */
  lemma NothingLeft(l: Link, f: seq<BlockGroup>, f1: seq<BlockGroup>)
    requires l.node.Inner? && Flagged(l) && FreeCount(f) == 0
    requires if l.node.dirtyChildren then NothingWritten(l.node.children, f, f1) else f1 == f
    ensures FreeCount(f1) == 0 && (!l.node.dirty ==> !AnyDirty(l))
  {
  }

  /** Writes every dirty node it reaches to a new block. Succeeds if there is a free block for every dirty node, and
      never if there is none at all but something to write. */
  method Flush(l: Link, allocator: BlockAllocator, dev: Device) returns (ok: bool, r: Link)
    requires Owned(l) && InUse(allocator.free, Ptrs(l))
    modifies allocator, dev
    ensures ok ==> Result(l, r, old(allocator.free), old(dev.blocks), allocator.free, dev.blocks)
    ensures Affordable(l, old(allocator.free)) ==> ok
    ensures Hopeless(l, old(allocator.free)) ==> !ok
    ensures ok ==> FreeCount(allocator.free) + DirtyCount(l) >= FreeCount(old(allocator.free))
    ensures ok && Flagged(l) && FreeCount(old(allocator.free)) == 0 ==> FreeCount(allocator.free) == 0
    ensures Flushes(l, Disk(old(allocator.free), old(dev.blocks)), ok, r, Disk(allocator.free, dev.blocks))
    decreases l
  {
    hide SaveOf, FlushAll, IsFree, Disjoint, Ptrs, PtrsIn, Result, ResultIn, Moves, FreeCount, Flagged, DirtyCountIn, NothingWritten,
         ChildrenDone, Affordable, Owned, OwnedIn;
    r := l;
    match l.node
    case Unloaded =>
      LeaveCounts(l, allocator.free);
      LeftAlone(l, allocator.free, dev.blocks);
      return true, l;
    case Leave(files, dirty) =>
      LeaveCounts(l, allocator.free);
      if !dirty {
        LeftAlone(l, allocator.free, dev.blocks);
        return true, l;
      }
      assert Ptrs(l) == SetOf(l.ptr) by { LeavePtrs(l); }
      var p := Save(l.ptr, TreeLeave(files), allocator, dev);
      if p.None? { return false, l; }
      LeaveDone(l, old(allocator.free), old(dev.blocks), allocator.free, dev.blocks, p.value);
      return true, Link(p, Leave(files, false));
    case Inner(cs, maxes, dirty, dirtyChildren) =>
      ghost var f, d := allocator.free, dev.blocks;
      PtrsNode(l.ptr, cs, maxes, dirty, dirtyChildren);
      var rs := cs;
      if dirtyChildren {
        rs := [];
        StartChildren(f, d);
        assert cs[..0] == [];
        FlushNothing(Disk(f, d));
        StartCounts(f);
        for i := 0 to |cs|
          invariant ResultIn(cs[..i], rs, f, d, allocator.free, dev.blocks)
          invariant FreeCount(allocator.free) + DirtyCountIn(cs[..i]) >= FreeCount(f)
          invariant NothingWritten(cs[..i], f, allocator.free)
          invariant FlushAll(cs[..i], Disk(f, d)) == Some((rs, Disk(allocator.free, dev.blocks)))
        {
          FlushAllSnoc(cs, i, Disk(f, d));
          ChildAffordable(l, i, f, allocator.free);
          DirtyCountPrefix(cs, i);
          PtrsPrefix(cs, i);
          ChildUnfree(cs, i, rs, f, d, allocator.free, dev.blocks);
          ghost var f1, d1 := allocator.free, dev.blocks;
          var c;
          ok, c := Flush(cs[i], allocator, dev);
          if !ok {
            FlushAllStops(cs, i + 1, Disk(f, d));
            return false, l;
          }
          NothingWrittenSnoc(cs[..i], cs[i], f, f1, allocator.free);
          NextChild(cs[..i], rs, cs[i], c, f, d, f1, d1, allocator.free, dev.blocks);
          rs := rs + [c];
        }
        assert cs[..|cs|] == cs;
        VisitedChildren(l, rs, f, d, allocator.free, dev.blocks);
      } else {
        LeftChildren(l, f, d);
      }
      NodeCounts(l, f, allocator.free);
      if !dirty {
        FinishClean(l, rs, f, d, allocator.free, dev.blocks);
        return true, Link(l.ptr, Inner(rs, maxes, false, false));
      }
      if Placed(l) && Flagged(l) { ChildrenPlaced(l, rs, f, d, allocator.free, dev.blocks); }
      if !AllStored(rs) { return false, l; }
      ghost var f1, d1 := allocator.free, dev.blocks;
      OwnUnfree(l, rs, f, d, f1, d1);
      var p := Save(l.ptr, TreeNode(PtrList(rs), maxes), allocator, dev);
      if p.None? { return false, l; }
      FinishDirty(l, rs, f, d, f1, d1, allocator.free, dev.blocks, p.value);
      return true, Link(p, Inner(rs, maxes, false, false));
  }

  lemma FlushNothing(s: Disk)
    ensures FlushAll([], s) == Some(([], s))
  {
  }

  lemma StartCounts(f: seq<BlockGroup>)
    ensures DirtyCountIn([]) == 0 && NothingWritten([], f, f)
  {
  }

  lemma LeaveCounts(l: Link, f: seq<BlockGroup>)
    requires !l.node.Inner?
    ensures DirtyCount(l) == (if Dirty(l) then 1 else 0) && AnyDirty(l) == Dirty(l)
    ensures Affordable(l, f) ==> FreeCount(f) >= DirtyCount(l)
    ensures Hopeless(l, f) ==> Dirty(l) && FreeCount(f) == 0
  {
    hide FreeCount;
  }

  lemma NodeCounts(l: Link, f: seq<BlockGroup>, f1: seq<BlockGroup>)
    requires l.node.Inner? && FreeCount(f1) + DirtyCountIn(l.node.children) >= FreeCount(f)
    requires if l.node.dirtyChildren then NothingWritten(l.node.children, f, f1) else f1 == f
    ensures DirtyCount(l) == (if l.node.dirty then 1 else 0) + DirtyCountIn(l.node.children)
    ensures Affordable(l, f) && l.node.dirty ==> FreeCount(f1) > 0 && Placed(l) && Flagged(l)
    ensures Flagged(l) && FreeCount(f) == 0 ==> FreeCount(f1) == 0 && (!l.node.dirty ==> !AnyDirty(l))
  {
    hide FreeCount, DirtyCountIn;
    if Flagged(l) && FreeCount(f) == 0 { NothingLeft(l, f, f1); }
  }

  lemma LeavePtrs(l: Link)
    requires !l.node.Inner?
    ensures Ptrs(l) == SetOf(l.ptr)
  {
  }

  lemma StartChildren(f: seq<BlockGroup>, d: map<nat, Block>)
    requires Disjoint(f)
    ensures ResultIn([], [], f, d, f, d)
  {
    hide IsFree, Disjoint;
  }

  lemma ChildUnfree(cs: seq<Link>, i: nat, rs: seq<Link>, f: seq<BlockGroup>, d: map<nat, Block>,
                    f1: seq<BlockGroup>, d1: map<nat, Block>)
    requires i < |cs| && ResultIn(cs[..i], rs, f, d, f1, d1) && InUse(f, PtrsIn(cs)) && PtrsIn(cs[..i]) !! Ptrs(cs[i])
    ensures InUse(f1, Ptrs(cs[i])) && InUse(f, Ptrs(cs[i]))
  {
    hide IsFree, Disjoint, Ptrs, PtrsIn;
    PtrsOfChild(cs, i);
    NextIsUnfree(f, d, PtrsIn(cs[..i]), f1, d1, PtrsIn(rs), Ptrs(cs[i]));
  }

  lemma VisitedChildren(l: Link, rs: seq<Link>, f: seq<BlockGroup>, d: map<nat, Block>, g: seq<BlockGroup>, e: map<nat, Block>)
    requires l.node.Inner? && ResultIn(l.node.children, rs, f, d, g, e)
    ensures ChildrenDone(l, rs, f, d, g, e)
  {
  }

  lemma LeftChildren(l: Link, f: seq<BlockGroup>, d: map<nat, Block>)
    requires l.node.Inner? && !l.node.dirtyChildren && OwnedIn(l.node.children) && InUse(f, PtrsIn(l.node.children))
    ensures ChildrenDone(l, l.node.children, f, d, f, d)
  {
    hide IsFree, Disjoint;
    MovesNothing(f, d, PtrsIn(l.node.children));
  }

  lemma OwnUnfree(l: Link, rs: seq<Link>, f: seq<BlockGroup>, d: map<nat, Block>, f1: seq<BlockGroup>, d1: map<nat, Block>)
    requires ChildrenDone(l, rs, f, d, f1, d1) && Owned(l) && InUse(f, Ptrs(l))
    ensures InUse(f1, SetOf(l.ptr))
  {
    hide IsFree, Disjoint, Ptrs, PtrsIn, OwnedIn, Owned;
    PtrsNode(l.ptr, l.node.children, l.node.maxes, l.node.dirty, l.node.dirtyChildren);
    NextIsUnfree(f, d, PtrsIn(l.node.children), f1, d1, PtrsIn(rs), SetOf(l.ptr));
  }

  // ----- Few changes -----

  /** Every block in use is as before. */
  ghost predicate KeepsUsed(s: Disk, e: Disk) {
    forall x: nat :: !IsFree(s.free, x) ==> SameBlock(s.blocks, e.blocks, x)
  }

  lemma SaveKeepsUsed(was: Option<nat>, block: Block, s: Disk)
    ensures SaveOf(was, block, s).Some? ==> KeepsUsed(s, SaveOf(was, block, s).value.1) && IsFree(s.free, SaveOf(was, block, s).value.0)
  {
    if HasGroup(s.free, 1) {
      hide FreeGroup, WithoutFirst;
      var i := BestFor(s.free, 1);
      assert InGroup(s.free[i].start, s.free[i]);
      MemberFree(s.free, i, s.free[i].start);
    }
  }

  /** With nothing to write nothing changes, and a single write goes to a free block. */
  lemma {:induction false} FewDirty(l: Link, s: Disk)
    requires FlushOf(l, s).Some?
    ensures DirtyCount(l) == 0 ==> FlushOf(l, s).value.1 == s
    ensures DirtyCount(l) == 1 ==> KeepsUsed(s, FlushOf(l, s).value.1)
    decreases l, 0
  {
    hide KeepsUsed, SaveOf;
    match l.node
    case Unloaded =>
    case Leave(files, dirty) =>
      SaveKeepsUsed(l.ptr, TreeLeave(files), s);
    case Inner(cs, maxes, dirty, dirtyChildren) =>
      KeepsAll(s);
      if dirtyChildren { FewDirtyIn(cs, s); }
      var c := if dirtyChildren then FlushAll(cs, s) else Some((cs, s));
      if dirty { SaveKeepsUsed(l.ptr, TreeNode(PtrList(c.value.0), maxes), c.value.1); }
  }

  lemma {:induction false} FewDirtyIn(cs: seq<Link>, s: Disk)
    requires FlushAll(cs, s).Some?
    ensures DirtyCountIn(cs) == 0 ==> FlushAll(cs, s).value.1 == s
    ensures DirtyCountIn(cs) == 1 ==> KeepsUsed(s, FlushAll(cs, s).value.1)
    decreases cs
  {
    hide KeepsUsed, FlushOf, DirtyCount;
    if cs == [] {
    } else {
      var n := |cs| - 1;
      FewDirtyIn(cs[..n], s);
      FewDirty(cs[n], FlushAll(cs[..n], s).value.1);
    }
  }

  lemma KeepsAll(s: Disk)
    ensures KeepsUsed(s, s)
  {
  }

  // Reading back

  /** `resolve`: the node stored in a block, with its own children not loaded yet. */
  function Resolve(d: map<nat, Block>, ptr: Option<nat>): Node {
    if ptr.None? || ptr.value !in d then Unloaded
    else match d[ptr.value]
         case TreeLeave(files) => Leave(files, false)
         case TreeNode(children, maxes) =>
           Inner(seq(|children|, k requires 0 <= k < |children| => Link(Some(children[k]), Unloaded)), maxes, false, false)
         case _ => Unloaded
  }

  /** Loading from a block as much of a tree as `l` has in memory. */
  function Reload(l: Link, d: map<nat, Block>, ptr: Option<nat>): Link {
    match l.node
    case Unloaded => Link(ptr, Unloaded)
    case Leave(_, _) => Link(ptr, Resolve(d, ptr))
    case Inner(cs, _, _, _) =>
      var n := Resolve(d, ptr);
      if !n.Inner? || |n.children| != |cs| then Link(ptr, n)
      else
        var rs := seq(|cs|, k requires 0 <= k < |cs| => Reload(cs[k], d, n.children[k].ptr));
        Link(ptr, Inner(rs, n.maxes, n.dirty, n.dirtyChildren))
  }

  /** What has just been loaded is clean: flushing it does nothing. */
  lemma LoadedIsClean(l: Link, d: map<nat, Block>, ptr: Option<nat>, s: Disk)
    ensures FlushOf(Reload(l, d, ptr), s) == Some((Reload(l, d, ptr), s))
  {
  }

  /** A mirrored tree that is loaded again has the same contents. */
  lemma {:induction false} MirrorsReload(l: Link, d: map<nat, Block>)
    requires Mirrors(l, d)
    ensures SameContents(l, Reload(l, d, l.ptr))
    decreases l
  {
    if l.node.Inner? {
      var cs := l.node.children;
      var n := Resolve(d, l.ptr);
      assert n.Inner? && |n.children| == |cs|;
      forall k | 0 <= k < |cs| ensures SameContents(cs[k], Reload(cs[k], d, n.children[k].ptr)) {
        assert n.children[k].ptr == cs[k].ptr;
        MirrorsReload(cs[k], d);
      }
    }
  }
}
