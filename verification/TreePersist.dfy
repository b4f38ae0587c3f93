/** Which changes of the file tree reach the device (modules/wasabi-fs/src/mem_tree/mod.rs). */
module TreePersist {
  import opened Machine
  import Sequences
  import opened FreeLists
  import opened BlockDevices
  import opened BlockAllocators
  import opened TreeFlush
  import Nodes = TreeNodes
  import TreeInsert
  import TreeDelete
  import TreeLimits

  // The tree without flags and blocks

  predicate AllLoaded(l: Link) {
    && !l.node.Unloaded?
    && (l.node.Inner? ==> |l.node.maxes| == |l.node.children|
                          && forall k :: 0 <= k < |l.node.children| ==> AllLoaded(l.node.children[k]))
  }

  /** The tree that `insert` and `delete` work on. */
  function Project(l: Link, parent: Nodes.Parent): (n: Nodes.MemNode)
    requires AllLoaded(l)
    ensures n.parent == parent && n.Leave? == l.node.Leave?
    decreases l
  {
    match l.node
    case Leave(files, _) => Nodes.Leave(parent, files)
    case Inner(cs, maxes, _, _) =>
      Nodes.Node(parent, seq(|cs|, k requires 0 <= k < |cs| => Nodes.Link(Project(cs[k], Nodes.Holder), maxes[k])))
  }

  lemma ProjectChild(l: Link, parent: Nodes.Parent, k: nat)
    requires AllLoaded(l) && l.node.Inner? && k < |l.node.children|
    ensures |Project(l, parent).children| == |l.node.children|
    ensures Project(l, parent).children[k] == Nodes.Link(Project(l.node.children[k], Nodes.Holder), l.node.maxes[k])
  {
  }

  /** Equal contents make equal trees. */
  lemma {:induction false} SameProject(l: Link, r: Link, parent: Nodes.Parent)
    requires AllLoaded(l) && SameContents(l, r)
    ensures AllLoaded(r) && Project(r, parent) == Project(l, parent)
    decreases l
  {
    match l.node
    case Leave(_, _) =>
    case Inner(cs, maxes, _, _) =>
      var rs := r.node.children;
      forall k | 0 <= k < |cs| ensures AllLoaded(rs[k]) && Project(rs[k], Nodes.Holder) == Project(cs[k], Nodes.Holder) {
        SameProject(cs[k], rs[k], Nodes.Holder);
      }
  }

  /** Loading everything from this block on gives the tree `n`. */
  predicate Loads(d: map<nat, Block>, ptr: Option<nat>, parent: Nodes.Parent, n: Nodes.MemNode)
    decreases n
  {
    ptr.Some? && ptr.value in d && n.parent == parent
    && match n
       case Leave(_, files) => d[ptr.value] == TreeLeave(files)
       case Node(_, cs) => LoadsNode(d, d[ptr.value], cs)
                           && forall k :: 0 <= k < |cs| ==> Loads(d, Some(d[ptr.value].children[k]), Nodes.Holder, cs[k].node)
  }

  predicate LoadsNode(d: map<nat, Block>, b: Block, cs: seq<Nodes.Link>) {
    b.TreeNode? && |b.children| == |b.maxes| == |cs| && forall k :: 0 <= k < |cs| ==> b.maxes[k] == cs[k].max
  }

  /** At most one tree is loaded from a block. */
  lemma {:induction false} LoadsUnique(d: map<nat, Block>, ptr: Option<nat>, parent: Nodes.Parent,
                                       n: Nodes.MemNode, m: Nodes.MemNode)
    requires Loads(d, ptr, parent, n) && Loads(d, ptr, parent, m)
    ensures n == m
    decreases n
  {
    if n.Node? {
      var b := d[ptr.value];
      forall k | 0 <= k < |n.children| ensures n.children[k] == m.children[k] {
        LoadsUnique(d, Some(b.children[k]), Nodes.Holder, n.children[k].node, m.children[k].node);
      }
    }
  }

  lemma {:induction false} MirrorsLoads(l: Link, d: map<nat, Block>, parent: Nodes.Parent)
    requires AllLoaded(l) && Mirrors(l, d)
    ensures Loads(d, l.ptr, parent, Project(l, parent))
    decreases l
  {
    if l.node.Inner? {
      var cs := l.node.children;
      var n := Project(l, parent);
      forall k | 0 <= k < |cs| ensures Loads(d, Some(d[l.ptr.value].children[k]), Nodes.Holder, n.children[k].node) {
        assert Some(d[l.ptr.value].children[k]) == cs[k].ptr;
        MirrorsLoads(cs[k], d, Nodes.Holder);
      }
    }
  }

  // Changing a leave in place

  predicate LeadsToLeave(l: Link, path: seq<nat>)
    decreases |path|
  {
    if path == [] then l.node.Leave?
    else l.node.Inner? && path[0] < |l.node.children| && LeadsToLeave(l.node.children[path[0]], path[1..])
  }

  /** What `insert` and `delete` do when nothing splits or merges: the leave is dirty, its ancestors have a dirty child. */
  function Touched(l: Link, path: seq<nat>, files: seq<Nodes.File>): Link
    requires LeadsToLeave(l, path)
    decreases |path|
  {
    if path == [] then Link(l.ptr, Leave(files, true))
    else
      var cs := l.node.children;
      Link(l.ptr, Inner(cs[path[0] := Touched(cs[path[0]], path[1..], files)], l.node.maxes, l.node.dirty, true))
  }

  lemma {:induction false} TouchedFlags(l: Link, path: seq<nat>, files: seq<Nodes.File>, d: map<nat, Block>)
    requires LeadsToLeave(l, path) && !AnyDirty(l) && InSync(l, d) && Flagged(l)
    ensures var t := Touched(l, path, files);
            && t.ptr == l.ptr && Flagged(t) && InSync(t, d) && (Closed(t) <==> path == []) && (Dirty(t) <==> path == [])
    decreases |path|
  {
    if path != [] {
      var cs, i, t := l.node.children, path[0], Touched(l, path, files);
      assert forall k :: 0 <= k < |cs| ==> !AnyDirty(cs[k]);
      TouchedFlags(cs[i], path[1..], files, d);
      var ts := t.node.children;
      assert ts[i] == Touched(cs[i], path[1..], files);
      assert AllStored(ts) && PtrList(ts) == PtrList(cs);
    }
  }

  // ... as `insert` and `delete` do it

  /** The way to the leave that should contain the id. */
  function PathTo(l: Link, id: Nodes.FileId): seq<nat>
    requires AllLoaded(l)
    decreases l
  {
    if l.node.Leave? then []
    else
      var i := Nodes.ChildIndex(Project(l, Nodes.Holder).children, id);
      if i < |l.node.children| then [i] + PathTo(l.node.children[i], id) else []
  }

  /** The leave the search ends at. */
  function LeaveFiles(n: Nodes.MemNode, id: Nodes.FileId): seq<Nodes.File> {
    match Nodes.LeaveFor(n, id)
    case None => []
    case Some(leave) => if leave.Leave? then leave.files else []
  }

  /** Nothing has to split: the file replaces one with its id, or its leave has room. */
  predicate InsertsInPlace(n: Nodes.MemNode, file: Nodes.File, createOnly: bool) {
    if Nodes.Find(n, file.id).Some? then !createOnly
    else |LeaveFiles(n, file.id)| < Nodes.LEAVE_MAX_FILE_COUNT
  }

  /** Nothing has to be rebalanced: the leave keeps enough files, or is the root. */
  predicate DeletesInPlace(n: Nodes.MemNode, id: Nodes.FileId) {
    && Nodes.Find(n, id).Some?
    && ((n.Leave? && n.parent == Nodes.NoParent) || |LeaveFiles(n, id)| > Nodes.LEAVE_MAX_FILE_COUNT / 2)
  }

  function InsertedFiles(files: seq<Nodes.File>, file: Nodes.File): seq<Nodes.File> {
    match Nodes.Position(files, file.id)
    case Some(p) => files[p := file]
    case None => Sequences.InsertAt(files, TreeInsert.InsertPosition(files, file.id), file)
  }

  function DeletedFiles(files: seq<Nodes.File>, id: Nodes.FileId): seq<Nodes.File> {
    match Nodes.Position(files, id)
    case Some(p) => Sequences.RemoveAt(files, p)
    case None => files
  }

  /** Exchanging a child of the flagged tree exchanges it in the projected one. */
  lemma ProjectUpdate(l: Link, parent: Nodes.Parent, i: nat, c: Link)
    requires AllLoaded(l) && l.node.Inner? && i < |l.node.children| && AllLoaded(c)
    ensures var t := Link(l.ptr, Inner(l.node.children[i := c], l.node.maxes, l.node.dirty, true));
            && AllLoaded(t)
            && var link := Nodes.Link(Project(c, Nodes.Holder), l.node.maxes[i]);
               Project(t, parent) == Nodes.Node(parent, Project(l, parent).children[i := link])
  {
    var t := Link(l.ptr, Inner(l.node.children[i := c], l.node.maxes, l.node.dirty, true));
    forall k | 0 <= k < |t.node.children| ensures AllLoaded(t.node.children[k]) {
      if k != i { assert t.node.children[k] == l.node.children[k]; }
    }
  }

  /** An insertion in place marks the leave and its ancestors as `Touched` says. */
  lemma {:induction false} InsertTouches(l: Link, parent: Nodes.Parent, lo: int, hi: int, h: nat,
                                         file: Nodes.File, createOnly: bool)
    requires AllLoaded(l) && Nodes.Tree(Project(l, parent), lo, hi, h) && lo < file.id <= hi
    requires InsertsInPlace(Project(l, parent), file, createOnly)
    ensures var n, path := Project(l, parent), PathTo(l, file.id);
            && LeadsToLeave(l, path) && (path == [] <==> l.node.Leave?)
            && var t := Touched(l, path, InsertedFiles(LeaveFiles(n, file.id), file));
               AllLoaded(t) && TreeInsert.InsertInto(n, file, createOnly) == TreeInsert.Done(Project(t, parent))
    decreases h
  {
    var n := Project(l, parent);
    match l.node
    case Leave(files, _) =>
      assert Nodes.LeaveFor(n, file.id) == Some(n);
    case Inner(cs, maxes, _, _) =>
      hide Nodes.Tree, Nodes.ChildIndex, TreeInsert.InsertInLeave, InsertedFiles, Project;
      Nodes.Descend(n, lo, hi, h, file.id);
      SameChildren(l, parent, Nodes.Holder);
      var i := Nodes.ChildIndex(n.children, file.id);
      ProjectChild(l, parent, i);
      var c := Project(cs[i], Nodes.Holder);
      assert Nodes.LeaveFor(n, file.id) == Nodes.LeaveFor(c, file.id);
      InsertTouches(cs[i], Nodes.Holder, Nodes.Bot(n.children, i, lo, hi), Nodes.Top(n.children[i], hi), h - 1,
                    file, createOnly);
      var path := PathTo(l, file.id);
      assert path[0] == i && path[1..] == PathTo(cs[i], file.id);
      var files := InsertedFiles(LeaveFiles(n, file.id), file);
      ProjectUpdate(l, parent, i, Touched(cs[i], path[1..], files));
  }

  lemma SameChildren(l: Link, p: Nodes.Parent, q: Nodes.Parent)
    requires AllLoaded(l) && l.node.Inner?
    ensures Project(l, p).children == Project(l, q).children && |Project(l, p).children| == |l.node.children|
  {
  }

  lemma {:induction false} DeleteTouches(l: Link, parent: Nodes.Parent, lo: int, hi: int, h: nat, id: Nodes.FileId)
    requires AllLoaded(l) && Nodes.Tree(Project(l, parent), lo, hi, h) && lo < id <= hi
    requires DeletesInPlace(Project(l, parent), id)
    ensures var n, path := Project(l, parent), PathTo(l, id);
            && LeadsToLeave(l, path) && (path == [] <==> l.node.Leave?)
            && var t := Touched(l, path, DeletedFiles(LeaveFiles(n, id), id));
               && AllLoaded(t) && Nodes.Find(n, id).Some?
               && TreeDelete.DeleteFrom(n, id) == TreeDelete.Removed(Project(t, parent), Nodes.Find(n, id).value)
    decreases h
  {
    var n := Project(l, parent);
    match l.node
    case Leave(files, _) =>
      assert Nodes.LeaveFor(n, id) == Some(n);
    case Inner(cs, maxes, _, _) =>
      hide Nodes.Tree, Nodes.ChildIndex, DeletedFiles, Project, Nodes.Find, TreeDelete.RebalanceLeave, TreeDelete.RebalanceNode;
      Nodes.Descend(n, lo, hi, h, id);
      SameChildren(l, parent, Nodes.Holder);
      var i := Nodes.ChildIndex(n.children, id);
      ProjectChild(l, parent, i);
      var c := Project(cs[i], Nodes.Holder);
      assert Nodes.LeaveFor(n, id) == Nodes.LeaveFor(c, id);
      DeleteTouches(cs[i], Nodes.Holder, Nodes.Bot(n.children, i, lo, hi), Nodes.Top(n.children[i], hi), h - 1, id);
      var path := PathTo(l, id);
      assert path[0] == i && path[1..] == PathTo(cs[i], id);
      ProjectUpdate(l, parent, i, Touched(cs[i], path[1..], DeletedFiles(LeaveFiles(n, id), id)));
  }

  // Flushing a leave changed in place

  lemma {:induction false} UpdateBlocks(cs: seq<Link>, i: nat, c: Link)
    requires i < |cs| && Ptrs(c) == Ptrs(cs[i]) && (Owned(cs[i]) ==> Owned(c))
    ensures PtrsIn(cs[i := c]) == PtrsIn(cs) && (OwnedIn(cs) ==> OwnedIn(cs[i := c]))
    decreases |cs|
  {
    hide Ptrs, Owned;
    var n, ds := |cs| - 1, cs[i := c];
    if i == n {
      assert ds[..n] == cs[..n];
    } else {
      assert ds[..n] == cs[..n][i := c] && ds[n] == cs[n];
      UpdateBlocks(cs[..n], i, c);
    }
  }

  lemma {:induction false} TouchedBlocks(l: Link, path: seq<nat>, files: seq<Nodes.File>)
    requires LeadsToLeave(l, path)
    ensures Ptrs(Touched(l, path, files)) == Ptrs(l) && (Owned(l) ==> Owned(Touched(l, path, files)))
    decreases |path|
  {
    if path == [] {
    } else {
      var i := path[0];
      TouchedBlocks(l.node.children[i], path[1..], files);
      UpdateBlocks(l.node.children, i, Touched(l.node.children[i], path[1..], files));
    }
  }

  lemma {:induction false} UpdateDirt(cs: seq<Link>, i: nat, c: Link)
    requires i < |cs|
    ensures DirtyCountIn(cs[i := c]) == DirtyCountIn(cs) - DirtyCount(cs[i]) + DirtyCount(c)
    decreases |cs|
  {
    hide DirtyCount;
    var n, ds := |cs| - 1, cs[i := c];
    if i == n {
      assert ds[..n] == cs[..n];
    } else {
      assert ds[..n] == cs[..n][i := c] && ds[n] == cs[n];
      UpdateDirt(cs[..n], i, c);
    }
  }

  lemma {:induction false} CleanCount(l: Link)
    requires !AnyDirty(l)
    ensures DirtyCount(l) == 0
    decreases l, 0
  {
    if l.node.Inner? {
      var cs := l.node.children;
      assert forall k :: 0 <= k < |cs| ==> !AnyDirty(cs[k]);
      CleanCountIn(cs);
    }
  }

  lemma {:induction false} CleanCountIn(cs: seq<Link>)
    requires forall k :: 0 <= k < |cs| ==> !AnyDirty(cs[k])
    ensures DirtyCountIn(cs) == 0
    decreases cs, |cs|
  {
    if |cs| == 0 {
    } else {
      CleanCount(cs[|cs| - 1]);
      CleanCountIn(cs[..|cs| - 1]);
    }
  }

  lemma {:induction false} TouchedCount(l: Link, path: seq<nat>, files: seq<Nodes.File>)
    requires LeadsToLeave(l, path) && !AnyDirty(l)
    ensures DirtyCount(Touched(l, path, files)) == 1 && AnyDirty(Touched(l, path, files))
    decreases |path|
  {
    if path == [] {
    } else {
      var cs, i, t := l.node.children, path[0], Touched(l, path, files);
      assert !AnyDirty(cs[i]);
      TouchedCount(cs[i], path[1..], files);
      CleanCount(l);
      CleanCount(cs[i]);
      UpdateDirt(cs, i, Touched(cs[i], path[1..], files));
      assert t.node.children[i] == Touched(cs[i], path[1..], files);
    }
  }

  /** The whole tree is on the device, in its own blocks, and nothing in memory is newer. */
  ghost predicate OnDevice(l: Link, f: seq<BlockGroup>, d: map<nat, Block>) {
    Owned(l) && InUse(f, Ptrs(l)) && InSync(l, d) && !AnyDirty(l) && Flagged(l)
  }

  /** Blocks in use that stay as they are keep what is on the device. */
  lemma StaysOnDevice(l: Link, s: Disk, e: Disk)
    requires OnDevice(l, s.free, s.blocks) && KeepsUsed(s, e)
    ensures Mirrors(l, s.blocks) && Mirrors(l, e.blocks)
  {
    CleanMirrors(l, s.blocks);
    forall x | x in Ptrs(l) ensures SameBlock(s.blocks, e.blocks, x) {
      assert !IsFree(s.free, x);
    }
    Frame(l, s.blocks, e.blocks);
  }

  /** Flushing one leave that was changed in place: takes one free block, and the device has the change if and only
      if the leave is the root. Otherwise it still has the tree it had, from the same block. */
  method FlushTouched(l: Link, path: seq<nat>, files: seq<Nodes.File>, allocator: BlockAllocator, dev: Device)
    returns (ok: bool, r: Link)
    requires OnDevice(l, allocator.free, dev.blocks) && LeadsToLeave(l, path)
    modifies allocator, dev
    ensures ok <==> FreeCount(old(allocator.free)) > 0
    ensures ok ==> SameContents(Touched(l, path, files), r) && !AnyDirty(r) && (Mirrors(r, dev.blocks) <==> path == [])
    ensures ok && path != [] ==> r.ptr == l.ptr && Mirrors(l, dev.blocks)
    ensures Flushes(Touched(l, path, files), Disk(old(allocator.free), old(dev.blocks)), ok, r, Disk(allocator.free, dev.blocks))
  {
    hide Owned, InUse, Moves, Mirrors, InSync, Closed, Flagged, AnyDirty, DirtyCount, FreeCount, SameContents, Placed,
         LeadsToLeave, Touched;
    var t := Touched(l, path, files);
    TouchedFlags(l, path, files, dev.blocks);
    TouchedBlocks(l, path, files);
    TouchedCount(l, path, files);
    InSyncPlaced(t, dev.blocks);
    ghost var s := Disk(allocator.free, dev.blocks);
    ok, r := Flush(t, allocator, dev);
    if ok {
      FewDirty(t, s);
      StaysOnDevice(l, s, Disk(allocator.free, dev.blocks));
    }
  }

  /** What a flush leaves on the device: the tree in memory, `r`, or, from the same block, the tree `l` of before. */
  ghost predicate Delivers(reaches: bool, l: Link, r: Link, d: map<nat, Block>)
    requires AllLoaded(l) && AllLoaded(r)
  {
    var was, now := Project(l, Nodes.NoParent), Project(r, Nodes.NoParent);
    && !AnyDirty(r) && Loads(d, r.ptr, Nodes.NoParent, if reaches then now else was)
    && (!reaches ==> r.ptr == l.ptr)
    && (Loads(d, r.ptr, Nodes.NoParent, now) <==> reaches || now == was)
  }

  lemma Delivered(reaches: bool, l: Link, r: Link, d: map<nat, Block>)
    requires AllLoaded(l) && AllLoaded(r) && !AnyDirty(r)
    requires if reaches then Mirrors(r, d) else r.ptr == l.ptr && Mirrors(l, d)
    ensures Delivers(reaches, l, r, d)
  {
    hide Loads, Mirrors, Project, AnyDirty;
    var was, now := Project(l, Nodes.NoParent), Project(r, Nodes.NoParent);
    if reaches {
      MirrorsLoads(r, d, Nodes.NoParent);
    } else {
      MirrorsLoads(l, d, Nodes.NoParent);
      if Loads(d, r.ptr, Nodes.NoParent, now) { LoadsUnique(d, r.ptr, Nodes.NoParent, now, was); }
    }
  }

  /** `insert` in place, then a flush. */
  method InsertAndFlush(l: Link, file: Nodes.File, createOnly: bool, ghost h: nat,
                        allocator: BlockAllocator, dev: Device)
    returns (ok: bool, r: Link)
    requires OnDevice(l, allocator.free, dev.blocks) && AllLoaded(l) && Nodes.Valid(Project(l, Nodes.NoParent), h)
    requires InsertsInPlace(Project(l, Nodes.NoParent), file, createOnly)
    modifies allocator, dev
    ensures ok <==> FreeCount(old(allocator.free)) > 0
    ensures ok ==> AllLoaded(r) && TreeInsert.Insert(Project(l, Nodes.NoParent), file, createOnly)
                                   == TreeInsert.Ok(Project(r, Nodes.NoParent))
    ensures ok ==> Delivers(l.node.Leave?, l, r, dev.blocks)
    ensures LeadsToLeave(l, PathTo(l, file.id))
    ensures Flushes(Touched(l, PathTo(l, file.id), InsertedFiles(LeaveFiles(Project(l, Nodes.NoParent), file.id), file)),
                    Disk(old(allocator.free), old(dev.blocks)), ok, r, Disk(allocator.free, dev.blocks))
  {
    hide Delivers, OnDevice, Mirrors, FreeCount, SameContents, Nodes.Tree, TreeInsert.InsertInto, InsertedFiles, LeaveFiles, PathTo,
         LeadsToLeave, Touched, Project, InsertsInPlace;
    var n := Project(l, Nodes.NoParent);
    InsertTouches(l, Nodes.NoParent, 0, U64_MAX, h, file, createOnly);
    var path, files := PathTo(l, file.id), InsertedFiles(LeaveFiles(n, file.id), file);
    ok, r := FlushTouched(l, path, files, allocator, dev);
    if ok {
      SameProject(Touched(l, path, files), r, Nodes.NoParent);
      Delivered(l.node.Leave?, l, r, dev.blocks);
    }
  }

  /** `delete` in place, then a flush. */
  method DeleteAndFlush(l: Link, id: Nodes.FileId, ghost h: nat, allocator: BlockAllocator, dev: Device)
    returns (ok: bool, r: Link)
    requires OnDevice(l, allocator.free, dev.blocks) && AllLoaded(l) && Nodes.Valid(Project(l, Nodes.NoParent), h)
    requires DeletesInPlace(Project(l, Nodes.NoParent), id)
    modifies allocator, dev
    ensures ok <==> FreeCount(old(allocator.free)) > 0
    ensures ok ==> AllLoaded(r) && TreeDelete.Delete(Project(l, Nodes.NoParent), id).Ok?
                   && TreeDelete.Delete(Project(l, Nodes.NoParent), id).root == Project(r, Nodes.NoParent)
    ensures ok ==> Delivers(l.node.Leave?, l, r, dev.blocks)
    ensures LeadsToLeave(l, PathTo(l, id))
    ensures Flushes(Touched(l, PathTo(l, id), DeletedFiles(LeaveFiles(Project(l, Nodes.NoParent), id), id)),
                    Disk(old(allocator.free), old(dev.blocks)), ok, r, Disk(allocator.free, dev.blocks))
  {
    hide Delivers, OnDevice, Mirrors, FreeCount, SameContents, Nodes.Tree, TreeDelete.DeleteFrom, DeletedFiles, LeaveFiles, PathTo,
         LeadsToLeave, Touched, Project, DeletesInPlace, Nodes.Find;
    var n := Project(l, Nodes.NoParent);
    DeleteTouches(l, Nodes.NoParent, 0, U64_MAX, h, id);
    var path, files := PathTo(l, id), DeletedFiles(LeaveFiles(n, id), id);
    ok, r := FlushTouched(l, path, files, allocator, dev);
    if ok {
      SameProject(Touched(l, path, files), r, Nodes.NoParent);
      Delivered(l.node.Leave?, l, r, dev.blocks);
    }
  }

  // An example

  /** A root with two half-full leaves, all of it on the device. */
  function Sample(): (Link, map<nat, Block>) {
    var a, b := TreeLimits.Files(0, 10), TreeLimits.Files(100, 10);
    var maxes := [Some(100), None];
    (Link(Some(1), Inner([Link(Some(2), Leave(a, false)), Link(Some(3), Leave(b, false))], maxes, false, false)),
     map[1 := TreeNode([2, 3], maxes), 2 := TreeLeave(a), 3 := TreeLeave(b)])
  }

  lemma SampleChild(ptr: nat, files: seq<Nodes.File>, d: map<nat, Block>)
    requires ptr in d && d[ptr] == TreeLeave(files)
    ensures var c := Link(Some(ptr), Leave(files, false));
            !AnyDirty(c) && InSync(c, d) && Flagged(c) && Owned(c) && Ptrs(c) == {ptr}
  {
  }

  lemma SampleBlocks(l: Link)
    requires l == Sample().0
    ensures Owned(l) && Ptrs(l) == {1, 2, 3}
  {
    var cs, d := l.node.children, Sample().1;
    SampleChild(2, cs[0].node.files, d);
    SampleChild(3, cs[1].node.files, d);
    hide Ptrs, Owned;
    PtrsSnoc([], cs[0]);
    PtrsSnoc([cs[0]], cs[1]);
    assert cs == [cs[0]] + [cs[1]] && [cs[0]] == [] + [cs[0]];
    PtrsNode(l.ptr, cs, l.node.maxes, false, false);
  }

  lemma SampleOnDevice(f: seq<BlockGroup>)
    requires Disjoint(f) && !IsFree(f, 1) && !IsFree(f, 2) && !IsFree(f, 3)
    ensures var (l, d) := Sample(); OnDevice(l, f, d)
  {
    hide Disjoint, IsFree;
    var (l, d) := Sample();
    var cs := l.node.children;
    SampleBlocks(l);
    SampleChild(2, cs[0].node.files, d);
    SampleChild(3, cs[1].node.files, d);
    hide Ptrs, Owned;
    assert PtrList(cs) == [2, 3];
  }

  lemma SampleValid()
    ensures var l := Sample().0;
            AllLoaded(l) && Nodes.Valid(Project(l, Nodes.NoParent), 1)
            && InsertsInPlace(Project(l, Nodes.NoParent), Nodes.File(50, 0), true)
            && Nodes.Find(Project(l, Nodes.NoParent), 50).None?
            && !TreeInsert.SplitsTwice(Project(l, Nodes.NoParent), 50)
  {
    var l := Sample().0;
    var cs := l.node.children;
    assert forall k :: 0 <= k < 2 ==> AllLoaded(cs[k]);
    var n := Project(l, Nodes.NoParent);
    var row := TreeLimits.Row(0, 2, 10);
    assert n.children == row;
    TreeLimits.RowSegment(0, 2, 10, U64_MAX);
    TreeLimits.ChildIndexAt(n.children, 50, 0);
    var leave := n.children[0].node;
    assert Nodes.LeaveFor(n, 50) == Nodes.LeaveFor(leave, 50) == Some(leave);
    assert Nodes.Find(n, 50) == None;
  }

  /** A file is inserted and the tree flushed: memory has the file and nothing is left to write, and the tree loaded
      from the device does not have it. */
  method SampleChangeIsLost() returns (ok: bool, r: Link, dev: Device, loaded: Nodes.MemNode)
    ensures ok && fresh(dev) && AllLoaded(Sample().0) && AllLoaded(r) && !AnyDirty(r)
    ensures TreeInsert.Insert(Project(Sample().0, Nodes.NoParent), Nodes.File(50, 0), true)
            == TreeInsert.Ok(Project(r, Nodes.NoParent))
    ensures Nodes.Find(Project(r, Nodes.NoParent), 50) == Some(Nodes.File(50, 0))
    ensures loaded == Project(Sample().0, Nodes.NoParent) && r.ptr == Sample().0.ptr
    ensures Loads(dev.blocks, r.ptr, Nodes.NoParent, loaded) && Nodes.Find(loaded, 50).None?
  {
    var allocator := new BlockAllocator.Empty([1, 2, 3], 10);
    dev := new Device();
    var (l, d) := Sample();
    dev.blocks := d;
    SampleOnDevice(allocator.free);
    SampleValid();
    assert IsFree(allocator.free, 0);
    SomeFree(allocator.free);
    hide OnDevice, Mirrors, Project, InsertsInPlace, Loads, Nodes.Find, TreeInsert.Insert, Nodes.Tree, AnyDirty;
    ok, r := InsertAndFlush(l, Nodes.File(50, 0), true, 1, allocator, dev);
    loaded := Project(l, Nodes.NoParent);
    FoundAfter(loaded, 1, Nodes.File(50, 0), Project(r, Nodes.NoParent));
  }

  /** A file that was inserted without breaking the tree is found. */
  lemma FoundAfter(n: Nodes.MemNode, h: nat, file: Nodes.File, m: Nodes.MemNode)
    requires Nodes.Valid(n, h) && Nodes.Find(n, file.id).None? && !TreeInsert.SplitsTwice(n, file.id)
    requires TreeInsert.Insert(n, file, true) == TreeInsert.Ok(m)
    ensures Nodes.Find(m, file.id) == Some(file)
  {
    hide TreeInsert.Insert, Nodes.Find, TreeInsert.SplitsTwice, Nodes.Tree;
    TreeInsert.InsertExact(n, h, file, true);
    Nodes.FindExact(m, 0, U64_MAX, TreeInsert.Height(n, h, m), file.id, file);
  }
}
