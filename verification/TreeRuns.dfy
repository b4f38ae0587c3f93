/** Whole runs of calls and flushes on the file tree (modules/wasabi-fs/src/mem_tree/mod.rs): any number of changes
    between two flushes, for trees of at most two levels. */
module TreeRuns {
  import opened Machine
  import opened FreeLists
  import opened BlockDevices
  import opened BlockAllocators
  import opened TreeFlush
  import opened TreePersist
  import opened TreeReach
  import Sequences
  import Nodes = TreeNodes
  import TreeInsert
  import TreeDelete
  import MemTrees

  // ----- What every call and every flush keeps -----

  /** Everything below the root that is clean is stored; so is the root if it is a leave. */
  predicate Synced(l: Link, d: map<nat, Block>) {
    if l.node.Inner? then forall k :: 0 <= k < |l.node.children| ==> InSync(l.node.children[k], d) else InSync(l, d)
  }

  /** A tree in memory between two flushes, with any number of its nodes changed. */
  ghost predicate Usable(l: Link, f: seq<BlockGroup>, d: map<nat, Block>) {
    Shallow(l) && Owned(l) && InUse(f, Ptrs(l)) && Flagged(l) && Placed(l) && Synced(l, d)
  }

  lemma UsableIs(l: Link, f: seq<BlockGroup>, d: map<nat, Block>)
    requires Usable(l, f, d)
    ensures Shallow(l) && AllLoaded(l) && Disjoint(f)
  {
  }

  /** A leave of the tree, or one that has changed. */
  predicate OldOrDirty(cs: seq<Link>, x: Link) {
    x in cs || (x.node.Leave? && Dirty(x))
  }

  /** Other leaves below the root, each one of the old or marked. */
  lemma UsableNode(l: Link, t: Link, f: seq<BlockGroup>, d: map<nat, Block>)
    requires Usable(l, f, d) && l.node.Inner? && t.node.Inner? && t.ptr == l.ptr && t.node.dirtyChildren
    requires (l.node.dirty ==> t.node.dirty) && |t.node.maxes| == |t.node.children|
    requires forall k :: 0 <= k < |t.node.children| ==> OldOrDirty(l.node.children, t.node.children[k])
    requires OwnedIn(t.node.children) && PtrsIn(t.node.children) <= PtrsIn(l.node.children)
    ensures Usable(t, f, d)
  {
    var cs, ts := l.node.children, t.node.children;
    forall k | 0 <= k < |ts| ensures ts[k].node.Leave? && InSync(ts[k], d) && Placed(ts[k]) {
      assert OldOrDirty(cs, ts[k]);
      if ts[k] in cs {
        var m :| 0 <= m < |cs| && cs[m] == ts[k];
        assert InSync(cs[m], d) && Placed(cs[m]);
      }
    }
    ShallowLeaves(t);
    assert Flagged(t);
    assert Placed(t);
    assert Synced(t, d);
    hide PtrsIn, OwnedIn, DirtyCountIn, IsFree, Disjoint, Ptrs, Owned;
    SameBlocks(l, t, f);
  }

  /** A search for a leave to change marks the way, even if nothing is changed there. */
  function Searched(l: Link): Link {
    if l.node.Inner? then Link(l.ptr, Inner(l.node.children, l.node.maxes, l.node.dirty, true)) else l
  }

  lemma SearchedUsable(l: Link, f: seq<BlockGroup>, d: map<nat, Block>)
    requires Usable(l, f, d)
    ensures Usable(Searched(l), f, d) && Dirty(Searched(l)) == Dirty(l)
    ensures Shallow(l) && AllLoaded(Searched(l)) && Project(Searched(l), Nodes.NoParent) == Project(l, Nodes.NoParent)
  {
    if l.node.Inner? {
      assert OwnedIn(l.node.children);
      UsableNode(l, Searched(l), f, d);
    }
  }

  lemma ChangedUsable(l: Link, i: nat, files: seq<Nodes.File>, maxes: seq<Option<Nodes.FileId>>,
                      f: seq<BlockGroup>, d: map<nat, Block>)
    requires Usable(l, f, d) && l.node.Inner? && i < |l.node.children| == |maxes|
    ensures Usable(Link(l.ptr, Inner(l.node.children[i := Link(l.node.children[i].ptr, Leave(files, true))],
                                     maxes, l.node.dirty, true)), f, d)
  {
    var cs := l.node.children;
    var ts := cs[i := Link(cs[i].ptr, Leave(files, true))];
    assert OwnedIn(cs);
    ChangedBlocks(cs, i, files);
    forall k | 0 <= k < |ts| ensures OldOrDirty(cs, ts[k]) {
      if k != i { assert ts[k] == cs[k]; }
    }
    hide PtrsIn, OwnedIn;
    UsableNode(l, Link(l.ptr, Inner(ts, maxes, l.node.dirty, true)), f, d);
  }

  lemma RotatedUsable(l: Link, m: nat, a: seq<Nodes.File>, border: Nodes.FileId, b: seq<Nodes.File>,
                      f: seq<BlockGroup>, d: map<nat, Block>)
    requires Usable(l, f, d) && l.node.Inner? && m + 1 < |l.node.children| == |l.node.maxes|
    ensures Usable(RotatedLink(l, m, a, border, b), f, d)
  {
    var maxes := l.node.maxes[m := Some(border)];
    var cs := l.node.children;
    hide Usable;
    ChangedUsable(l, m, a, maxes, f, d);
    var t := Link(l.ptr, Inner(cs[m := Link(cs[m].ptr, Leave(a, true))], maxes, l.node.dirty, true));
    ChangedUsable(t, m + 1, b, maxes, f, d);
  }

  lemma JoinedUsable(l: Link, m: nat, files: seq<Nodes.File>, f: seq<BlockGroup>, d: map<nat, Block>)
    requires Usable(l, f, d) && l.node.Inner? && m + 1 < |l.node.children| == |l.node.maxes|
    ensures Usable(JoinedLink(l, m, files), f, d)
  {
    assert OwnedIn(l.node.children);
    JoinedBlocks(l.node.children, m, files);
    var t := JoinedLink(l, m, files);
    JoinedFlags(l, m, files);
    JoinedLinkAt(l, m, files, 0);
    assert t.node.children == l.node.children[..m] + [Link(None, Leave(files, true))] + l.node.children[m + 2..];
    hide JoinedLink, Usable, PtrsIn, OwnedIn;
    forall k | 0 <= k < |t.node.children| ensures OldOrDirty(l.node.children, t.node.children[k]) {
      JoinedLinkAt(l, m, files, k);
    }
    UsableNode(l, t, f, d);
  }

  lemma SplitUsable(l: Link, i: nat, a: seq<Nodes.File>, border: Nodes.FileId, b: seq<Nodes.File>,
                    max: Nodes.FileId, f: seq<BlockGroup>, d: map<nat, Block>)
    requires Usable(l, f, d) && l.node.Inner? && i < |l.node.children| == |l.node.maxes|
    ensures Usable(SplitLink(l, i, a, border, b, max), f, d)
  {
    var cs := l.node.children;
    assert OwnedIn(cs);
    ChangedBlocks(cs, i, a);
    InsertLeaveBlocks(cs[i := Link(cs[i].ptr, Leave(a, true))], i + 1, b);
    var t := SplitLink(l, i, a, border, b, max);
    assert t.node.children == Sequences.InsertAt(cs[i := Link(cs[i].ptr, Leave(a, true))], i + 1, Link(None, Leave(b, true)));
    SplitLinkAt(l, i, a, border, b, max, 0);
    hide SplitLink, Usable, PtrsIn, OwnedIn, Sequences.InsertAt;
    forall k | 0 <= k < |t.node.children| ensures OldOrDirty(cs, t.node.children[k]) {
      SplitLinkAt(l, i, a, border, b, max, k);
    }
    UsableNode(l, t, f, d);
  }

  lemma RootReadyUsable(t: Link, f: seq<BlockGroup>, d: map<nat, Block>)
    requires RootReady(t, f, d) && Shallow(t)
    ensures Usable(t, f, d)
  {
  }

  /** Every change keeps the tree usable, and the root is marked if it was or the change marks it. */
  lemma ApplyUsable(l: Link, c: Change, f: seq<BlockGroup>, d: map<nat, Block>)
    requires Usable(l, f, d) && FitsIn(l, c) && Shallow(Apply(l, c))
    ensures Usable(Apply(l, c), f, d)
    ensures Dirty(Apply(l, c)) <==> Dirty(l) || Marks(c)
  {
    UsableIs(l, f, d);
    match c
    case InPlace(path, files) =>
      InPlaceUsable(l, path, files, f, d);
    case SplitRoot(a, border, b) =>
      SplitRootReady(l, a, border, b, f, d);
      RootReadyUsable(Apply(l, c), f, d);
    case SplitLeave(i, a, border, b, max) =>
      hide Usable;
      SplitUsable(l, i, a, border, b, max, f, d);
    case Rotation(m, a, border, b) =>
      hide Usable;
      RotatedUsable(l, m, a, border, b, f, d);
    case Merge(m, files) =>
      hide Usable;
      JoinedUsable(l, m, files, f, d);
    case Promotion(files) =>
      PromotionReady(files, f, d);
      RootReadyUsable(Apply(l, c), f, d);
  }

  lemma InPlaceUsable(l: Link, path: seq<nat>, files: seq<Nodes.File>, f: seq<BlockGroup>, d: map<nat, Block>)
    requires Usable(l, f, d) && LeadsToLeave(l, path)
    ensures Usable(Touched(l, path, files), f, d)
    ensures Dirty(Touched(l, path, files)) <==> Dirty(l) || path == []
  {
    if path == [] {
      var t := Touched(l, path, files);
      assert t == Link(l.ptr, Leave(files, true)) && Ptrs(t) == Ptrs(l);
    } else {
      UsableIs(l, f, d);
      var i := path[0];
      assert path == [i] by { LeaveEnds(l, path); }
      TouchedBelow(l, i, files);
      ChangedUsable(l, i, files, l.node.maxes, f, d);
    }
  }

  lemma LeaveEnds(l: Link, path: seq<nat>)
    requires Shallow(l) && LeadsToLeave(l, path) && path != []
    ensures path == [path[0]]
  {
    var rest := path[1..];
    assert LeadsToLeave(l.node.children[path[0]], rest);
    assert rest == [];
  }

  // ----- A flush -----

  lemma {:induction false} CleanFlagged(l: Link)
    requires !AnyDirty(l)
    ensures Flagged(l)
    decreases l
  {
    if l.node.Inner? {
      forall k | 0 <= k < |l.node.children| ensures Flagged(l.node.children[k]) && !AnyDirty(l.node.children[k]) {
        CleanFlagged(l.node.children[k]);
      }
    }
  }

  lemma UsableInSync(l: Link, f: seq<BlockGroup>, d: map<nat, Block>)
    requires Usable(l, f, d) && (Dirty(l) || l.node.Leave?)
    ensures InSync(l, d) && Closed(l)
  {
  }

  /** A flush keeps the tree usable, cleans it, and stores all of it if the root is marked or a leave. */
  lemma FlushedUsable(l: Link, r: Link, f: seq<BlockGroup>, d: map<nat, Block>, g: seq<BlockGroup>, e: map<nat, Block>)
    requires Usable(l, f, d) && Result(l, r, f, d, g, e)
    ensures Usable(r, g, e) && !AnyDirty(r) && !Dirty(r) && Shallow(l) && AllLoaded(r)
    ensures Project(r, Nodes.NoParent) == Project(l, Nodes.NoParent)
    ensures Dirty(l) || l.node.Leave? ==> Mirrors(r, e)
    ensures !Dirty(l) ==> r.ptr == l.ptr && r.ptr.Some? && SameBlock(d, e, r.ptr.value)
  {
    hide IsFree, Disjoint, Ptrs, PtrsIn, Owned, OwnedIn;
    SameProject(l, r, Nodes.NoParent);
    CleanFlagged(r);
    if Dirty(l) || l.node.Leave? { UsableInSync(l, f, d); }
    if l.node.Inner? {
      FlushedLeaves(l, r, d, e);
      NodeInOrder(r, e);
    } else {
      LeaveInOrder(r, e);
    }
    assert InUse(g, Ptrs(r));
  }

  lemma NodeInOrder(r: Link, e: map<nat, Block>)
    requires r.node.Inner? && r.ptr.Some? && |r.node.children| == |r.node.maxes|
    requires forall k :: 0 <= k < |r.node.children| ==>
               r.node.children[k].node.Leave? && InSync(r.node.children[k], e) && r.node.children[k].ptr.Some?
    ensures Shallow(r) && Placed(r) && Synced(r, e)
  {
    ShallowLeaves(r);
  }

  lemma LeaveInOrder(r: Link, e: map<nat, Block>)
    requires r.node.Leave? && Mirrors(r, e)
    ensures Shallow(r) && Placed(r) && Synced(r, e)
  {
  }

  /** Below the root every leave is stored after a flush, whether the root is or not. */
  lemma FlushedLeaves(l: Link, r: Link, d: map<nat, Block>, e: map<nat, Block>)
    requires Shallow(l) && l.node.Inner? && Flagged(l) && Synced(l, d) && Flushed(l, r, d, e)
    ensures r.node.Inner? && |r.node.children| == |l.node.children| == |r.node.maxes|
    ensures forall k :: 0 <= k < |r.node.children| ==>
              r.node.children[k].node.Leave? && InSync(r.node.children[k], e) && r.node.children[k].ptr.Some?
  {
    var cs, rs := l.node.children, r.node.children;
    forall k | 0 <= k < |rs| ensures rs[k].node.Leave? && InSync(rs[k], e) && rs[k].ptr.Some? {
      assert cs[k].node.Leave? && SameContents(cs[k], rs[k]) && Closed(cs[k]) && InSync(cs[k], d);
      assert Mirrors(rs[k], e);
    }
  }

  // ----- Runs -----

  datatype Act = Do(call: MemTrees.Call) | Store

  /** The tree in memory, the free list and the device. */
  datatype Moment = Moment(link: Link, free: seq<BlockGroup>, blocks: map<nat, Block>)

  /** The tree in memory as the calls see it. */
  function TreeOf(m: Moment): Nodes.MemNode {
    if AllLoaded(m.link) then Project(m.link, Nodes.NoParent) else Nodes.Empty()
  }

  predicate ReachesAt(acts: seq<Act>, trace: seq<Moment>, k: nat)
    requires k < |acts| && k < |trace|
  {
    acts[k].Do? && Accepted(TreeOf(trace[k]), acts[k].call) && Reaches(TreeOf(trace[k]), acts[k].call)
  }

  /** Since the last flush before act `k`, one of the calls was one that reaches the device; without a flush before it,
      that, or the root was marked at the start. */
  predicate MarkedSince(acts: seq<Act>, trace: seq<Moment>, k: nat)
    requires k <= |acts| && k <= |trace| && 0 < |trace|
  {
    if k == 0 then Dirty(trace[0].link)
    else acts[k - 1].Do? && (ReachesAt(acts, trace, k - 1) || MarkedSince(acts, trace, k - 1))
  }

  /** The files by id that the calls before act `k` should leave. */
  function MapAfter(m: map<Nodes.FileId, Nodes.File>, acts: seq<Act>, k: nat): map<Nodes.FileId, Nodes.File>
    requires k <= |acts|
  {
    if k == 0 then m
    else if acts[k - 1].Do? then MemTrees.MapStep(MapAfter(m, acts, k - 1), acts[k - 1].call).0
    else MapAfter(m, acts, k - 1)
  }

  /** What act `k` does: a call does to the tree what it should and leaves the device alone; a flush cleans the tree
      and leaves its contents alone. */
  ghost predicate Acts(acts: seq<Act>, trace: seq<Moment>, k: nat)
    requires k < |acts| && k + 1 < |trace|
  {
    var m, n := trace[k], trace[k + 1];
    match acts[k]
    case Do(call) =>
      && n.free == m.free && n.blocks == m.blocks
      && MemTrees.TreeStep(TreeOf(m), call).Some? && TreeOf(n) == MemTrees.TreeStep(TreeOf(m), call).value.0
    case Store =>
      && TreeOf(n) == TreeOf(m) && !AnyDirty(n.link)
      && FlushOf(m.link, Disk(m.free, m.blocks)) == Some((n.link, Disk(n.free, n.blocks)))
  }

  /** After a flush the device has the tree if a call since the flush before it reaches the device, or the root is a
      leave; otherwise the root stays the block it was. */
  ghost predicate Stores(acts: seq<Act>, trace: seq<Moment>, k: nat)
    requires k < |acts| && k + 1 < |trace|
  {
    var m, n := trace[k], trace[k + 1];
    acts[k].Store? ==>
      && (MarkedSince(acts, trace, k) || TreeOf(m).Leave? ==> Loads(n.blocks, n.link.ptr, Nodes.NoParent, TreeOf(n)))
      && (!MarkedSince(acts, trace, k) ==>
            n.link.ptr == m.link.ptr && n.link.ptr.Some? && SameBlock(m.blocks, n.blocks, n.link.ptr.value))
  }

  lemma {:induction false} MarkedSincePrefix(acts: seq<Act>, trace: seq<Moment>, m: Moment, k: nat)
    requires k <= |acts| && k <= |trace| && 0 < |trace|
    ensures MarkedSince(acts, trace + [m], k) == MarkedSince(acts, trace, k)
    decreases k
  {
    assert (trace + [m])[0] == trace[0];
    if k == 0 {
    } else {
      assert (trace + [m])[k - 1] == trace[k - 1];
      MarkedSincePrefix(acts, trace, m, k - 1);
    }
  }

  /** The trace of a run so far: every act has done its part, and the tree holds the files that the calls should leave. */
  ghost predicate Recorded(acts: seq<Act>, trace: seq<Moment>, m: map<Nodes.FileId, Nodes.File>) {
    && 0 < |trace| <= |acts| + 1
    && (forall k :: 0 <= k < |trace| - 1 ==> Acts(acts, trace, k) && Stores(acts, trace, k))
    && forall k :: 0 <= k < |trace| ==> MemTrees.Represents(TreeOf(trace[k]), MapAfter(m, acts, k))
  }

  lemma ActStays(acts: seq<Act>, trace: seq<Moment>, next: Moment, k: nat)
    requires k < |acts| && k + 1 < |trace| && Acts(acts, trace, k) && Stores(acts, trace, k)
    ensures Acts(acts, trace + [next], k) && Stores(acts, trace + [next], k)
  {
    hide TreeOf, MarkedSince, AnyDirty, Loads, FlushOf, MemTrees.TreeStep;
    var t := trace + [next];
    assert t[k] == trace[k] && t[k + 1] == trace[k + 1];
    MarkedSincePrefix(acts, trace, next, k);
  }

  /** One more moment. */
  lemma RecordedGrows(acts: seq<Act>, trace: seq<Moment>, m: map<Nodes.FileId, Nodes.File>, next: Moment)
    requires Recorded(acts, trace, m) && |trace| <= |acts|
    requires Acts(acts, trace + [next], |trace| - 1) && Stores(acts, trace + [next], |trace| - 1)
    requires MemTrees.Represents(TreeOf(next), MapAfter(m, acts, |trace|))
    ensures Recorded(acts, trace + [next], m)
  {
    var t := trace + [next];
    hide Acts, Stores, TreeOf, MapAfter, MemTrees.Represents;
    forall k | 0 <= k < |trace| - 1 ensures Acts(acts, t, k) && Stores(acts, t, k) {
      assert Acts(acts, trace, k) && Stores(acts, trace, k);
      ActStays(acts, trace, next, k);
    }
    forall k | 0 <= k < |t| ensures MemTrees.Represents(TreeOf(t[k]), MapAfter(m, acts, k)) {
      if k < |trace| { assert t[k] == trace[k]; }
    }
  }

  lemma RejectedChangesNothing(root: Nodes.MemNode, h: nat, call: MemTrees.Call)
    requires Nodes.Valid(root, h) && !Accepted(root, call) && MemTrees.TreeStep(root, call).Some?
    ensures MemTrees.TreeStep(root, call).value.0 == root
  {
    hide Nodes.Tree, Nodes.Find, TreeInsert.SplitsTwice, TreeInsert.Insert, TreeDelete.Delete;
    if call.Delete? {
      TreeDelete.DeleteExact(root, h, call.id);
    } else {
      TreeInsert.InsertExact(root, h, call.file, call.InsertNew?);
    }
  }

  /** A valid tree of at most two levels that holds the files `m`, with any number of changes not yet stored. */
  ghost predicate Going(l: Link, f: seq<BlockGroup>, d: map<nat, Block>, h: nat, m: map<Nodes.FileId, Nodes.File>) {
    && Usable(l, f, d) && AllLoaded(l) && h <= 1 && Nodes.Valid(Project(l, Nodes.NoParent), h)
    && MemTrees.Represents(Project(l, Nodes.NoParent), m) && MemTrees.Keyed(m)
  }

  /** One call. */
  method Call(l: Link, call: MemTrees.Call, ghost h: nat, ghost m: map<Nodes.FileId, Nodes.File>,
              ghost f: seq<BlockGroup>, ghost d: map<nat, Block>)
    returns (t: Link, ghost g: nat)
    requires Going(l, f, d, h, m) && AllLoaded(l) && !MemTrees.Overflows(Project(l, Nodes.NoParent), call)
    ensures Going(t, f, d, g, MemTrees.MapStep(m, call).0) && AllLoaded(t)
    ensures MemTrees.TreeStep(Project(l, Nodes.NoParent), call).Some?
    ensures MemTrees.TreeStep(Project(l, Nodes.NoParent), call).value.0 == Project(t, Nodes.NoParent)
    ensures Dirty(t) <==> Dirty(l) || (Accepted(Project(l, Nodes.NoParent), call) && Reaches(Project(l, Nodes.NoParent), call))
  {
    hide Usable, Project, Shallow, FitsIn, Apply, Marks, Reaches, ChangeOf, Accepted, MemTrees.Overflows, MemTrees.TreeStep,
         Nodes.Valid, Nodes.Find, Searched, Dirty, MemTrees.Represents, MemTrees.Keyed, MemTrees.MapStep;
    g := MemTrees.StepRefinesMap(Project(l, Nodes.NoParent), h, m, call);
    if Accepted(Project(l, Nodes.NoParent), call) {
      ChangeExact(l, h, call);
      MarksIsReaches(l, call);
      ApplyUsable(l, ChangeOf(l, call).value, f, d);
      t := Apply(l, ChangeOf(l, call).value);
      UsableIs(t, f, d);
    } else {
      RejectedChangesNothing(Project(l, Nodes.NoParent), h, call);
      SearchedUsable(l, f, d);
      t := Searched(l);
    }
  }

  /** A new tree, as `empty` makes it, can be used; so can one that is on the device. */
  lemma FreshUsable(f: seq<BlockGroup>, d: map<nat, Block>)
    requires Disjoint(f)
    ensures var l := Link(None, Leave([], true));
            Going(l, f, d, 0, map[])
  {
    MemTrees.EmptyIsMap();
    assert Project(Link(None, Leave([], true)), Nodes.NoParent) == Nodes.Empty();
  }

  lemma OnDeviceUsable(l: Link, f: seq<BlockGroup>, d: map<nat, Block>)
    requires OnDevice(l, f, d) && Shallow(l)
    ensures Usable(l, f, d) && !Dirty(l)
  {
    InSyncPlaced(l, d);
  }

  /** Calls and flushes in any order on a tree of at most two levels, up to a call that overflows it or a flush without
      a free block for every change. */
  method Run(start: Link, acts: seq<Act>, ghost h: nat, ghost m: map<Nodes.FileId, Nodes.File>,
             allocator: BlockAllocator, dev: Device)
    returns (l: Link, done: nat, ghost trace: seq<Moment>)
    requires Going(start, allocator.free, dev.blocks, h, m)
    modifies allocator, dev
    ensures done <= |acts| && |trace| == done + 1 && trace[0] == Moment(start, old(allocator.free), old(dev.blocks))
    ensures Recorded(acts, trace, m)
    ensures done == |acts| ==> trace[done] == Moment(l, allocator.free, dev.blocks)
    ensures done < |acts| ==> if acts[done].Do? then MemTrees.Overflows(TreeOf(trace[done]), acts[done].call)
                              else FreeCount(trace[done].free) < DirtyCount(trace[done].link)
  {
    hide Going, Dirty, Recorded, MemTrees.Overflows, FreeCount, DirtyCount, MarkedSince, Project, MapAfter, TreeOf, Usable;
    l, done, trace := start, 0, [Moment(start, allocator.free, dev.blocks)];
    ghost var g := h;
    RecordedStart(acts, trace[0], h, m);
    while done < |acts|
      invariant done <= |acts| && |trace| == done + 1 && trace[0] == Moment(start, old(allocator.free), old(dev.blocks))
      invariant trace[done] == Moment(l, allocator.free, dev.blocks) && Recorded(acts, trace, m)
      invariant Going(l, allocator.free, dev.blocks, g, MapAfter(m, acts, done))
      invariant Dirty(l) <==> MarkedSince(acts, trace, done)
    {
      GoingIs(l, allocator.free, dev.blocks, g, MapAfter(m, acts, done));
      var r;
      match acts[done] {
        case Do(call) =>
          if MemTrees.Overflows(Project(l, Nodes.NoParent), call) { break; }
          r, g := Call(l, call, g, MapAfter(m, acts, done), allocator.free, dev.blocks);
          CallRecorded(acts, trace, m, r, g);
        case Store =>
          var ok;
          ok, r := Flush(l, allocator, dev);
          if !ok { break; }
          StoreRecorded(acts, trace, m, r, allocator.free, dev.blocks, g);
      }
      trace := trace + [Moment(r, allocator.free, dev.blocks)];
      l, done := r, done + 1;
    }
  }

  lemma RecordedStart(acts: seq<Act>, start: Moment, h: nat, m: map<Nodes.FileId, Nodes.File>)
    requires Going(start.link, start.free, start.blocks, h, m)
    ensures Recorded(acts, [start], m) && MapAfter(m, acts, 0) == m
    ensures MarkedSince(acts, [start], 0) == Dirty(start.link)
  {
    hide Project, MemTrees.Represents, Usable, Nodes.Valid;
  }

  lemma GoingIs(l: Link, f: seq<BlockGroup>, d: map<nat, Block>, h: nat, m: map<Nodes.FileId, Nodes.File>)
    requires Going(l, f, d, h, m)
    ensures AllLoaded(l) && TreeOf(Moment(l, f, d)) == Project(l, Nodes.NoParent)
    ensures Owned(l) && InUse(f, Ptrs(l)) && (FreeCount(f) >= DirtyCount(l) ==> Affordable(l, f))
  {
  }

  /** A call is recorded with the tree it leaves. */
  lemma CallRecorded(acts: seq<Act>, trace: seq<Moment>, m: map<Nodes.FileId, Nodes.File>, r: Link, g: nat)
    requires Recorded(acts, trace, m) && 0 < |trace| <= |acts| && acts[|trace| - 1].Do?
    requires var now, call := trace[|trace| - 1], acts[|trace| - 1].call;
             && AllLoaded(now.link) && AllLoaded(r) && MemTrees.TreeStep(Project(now.link, Nodes.NoParent), call).Some?
             && MemTrees.TreeStep(Project(now.link, Nodes.NoParent), call).value.0 == Project(r, Nodes.NoParent)
             && (Dirty(r) <==> Dirty(now.link) || (Accepted(Project(now.link, Nodes.NoParent), call)
                                                   && Reaches(Project(now.link, Nodes.NoParent), call)))
             && (Dirty(now.link) <==> MarkedSince(acts, trace, |trace| - 1))
             && Going(r, now.free, now.blocks, g, MemTrees.MapStep(MapAfter(m, acts, |trace| - 1), call).0)
    ensures var now := trace[|trace| - 1];
            var t := trace + [Moment(r, now.free, now.blocks)];
            && Recorded(acts, t, m) && (Dirty(r) <==> MarkedSince(acts, t, |trace|))
            && Going(r, now.free, now.blocks, g, MapAfter(m, acts, |trace|))
  {
    hide Project, Dirty, Accepted, Reaches, MemTrees.TreeStep, Recorded, MemTrees.Represents, MemTrees.MapStep, Usable,
         Nodes.Valid, MemTrees.Keyed;
    var k := |trace| - 1;
    var next := Moment(r, trace[k].free, trace[k].blocks);
    var t := trace + [next];
    assert t[k] == trace[k] && t[k + 1] == next;
    MarkedSincePrefix(acts, trace, next, k);
    RecordedGrows(acts, trace, m, next);
  }

  /** So is a flush. */
  lemma StoreRecorded(acts: seq<Act>, trace: seq<Moment>, m: map<Nodes.FileId, Nodes.File>, r: Link,
                      f: seq<BlockGroup>, d: map<nat, Block>, g: nat)
    requires Recorded(acts, trace, m) && 0 < |trace| <= |acts| && acts[|trace| - 1].Store?
    requires var now := trace[|trace| - 1];
             && Going(now.link, now.free, now.blocks, g, MapAfter(m, acts, |trace| - 1))
             && Result(now.link, r, now.free, now.blocks, f, d)
             && FlushOf(now.link, Disk(now.free, now.blocks)) == Some((r, Disk(f, d)))
             && (Dirty(now.link) <==> MarkedSince(acts, trace, |trace| - 1))
    ensures var t := trace + [Moment(r, f, d)];
            && Recorded(acts, t, m) && (Dirty(r) <==> MarkedSince(acts, t, |trace|))
            && Going(r, f, d, g, MapAfter(m, acts, |trace|))
  {
    hide Project, Usable, Result, Loads, Mirrors, Dirty, FlushOf, AnyDirty, Recorded, MemTrees.Represents, Nodes.Valid,
         MemTrees.Keyed;
    var k := |trace| - 1;
    var now, next := trace[k], Moment(r, f, d);
    var t := trace + [next];
    assert t[k] == now && t[k + 1] == next;
    FlushedUsable(now.link, r, now.free, now.blocks, f, d);
    MarkedSincePrefix(acts, trace, next, k);
    if Mirrors(r, d) { MirrorsLoads(r, d, Nodes.NoParent); }
    LeaveTree(now.link);
    RecordedGrows(acts, trace, m, next);
  }

  lemma LeaveTree(l: Link)
    requires AllLoaded(l)
    ensures Project(l, Nodes.NoParent).Leave? == l.node.Leave?
  {
  }
}
