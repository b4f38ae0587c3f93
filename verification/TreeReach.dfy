/** Which calls on the file tree reach the device, for trees of at most two levels
    (modules/wasabi-fs/src/mem_tree/mod.rs). */
module TreeReach {
  import opened Machine
  import opened FreeLists
  import opened BlockDevices
  import opened BlockAllocators
  import opened TreeFlush
  import opened TreePersist
  import Sequences
  import Nodes = TreeNodes
  import TreeInsert
  import TreeDelete
  import MemTrees

  // ----- What a call does to the tree in memory, with its flags and blocks -----

  /** The tree is a leave or a node above leaves, all in memory. */
  predicate Shallow(l: Link) {
    AllLoaded(l) && (l.node.Inner? ==> forall k :: 0 <= k < |l.node.children| ==> l.node.children[k].node.Leave?)
  }

  /** What a call changes: the files of one leave; a leave that is split, as the root or below it; two leaves between
      which a file moves; two leaves that are merged, with others left or with the merged one as the new root. */
  datatype Change =
    | InPlace(path: seq<nat>, files: seq<Nodes.File>)
    | SplitRoot(a: seq<Nodes.File>, border: Nodes.FileId, b: seq<Nodes.File>)
    | SplitLeave(at: nat, a: seq<Nodes.File>, border: Nodes.FileId, b: seq<Nodes.File>, max: Nodes.FileId)
    | Rotation(at: nat, a: seq<Nodes.File>, border: Nodes.FileId, b: seq<Nodes.File>)
    | Merge(at: nat, files: seq<Nodes.File>)
    | Promotion(files: seq<Nodes.File>)

  /** There is a place for the change. */
  predicate FitsIn(l: Link, c: Change) {
    match c
    case InPlace(path, _) => LeadsToLeave(l, path)
    case SplitRoot(_, _, _) => l.node.Leave?
    case SplitLeave(i, _, _, _, _) => l.node.Inner? && i < |l.node.children| == |l.node.maxes|
    case Rotation(m, _, _, _) => l.node.Inner? && m + 1 < |l.node.children| == |l.node.maxes|
    case Merge(m, _) => l.node.Inner? && m + 1 < |l.node.children| == |l.node.maxes| && |l.node.children| > 2
    case Promotion(_) => l.node.Inner?
  }

  /** The tree in memory after the change, as the code marks it. */
  function Apply(l: Link, c: Change): Link
    requires FitsIn(l, c)
  {
    match c
    case InPlace(path, files) => Touched(l, path, files)
    case SplitRoot(a, border, b) =>
      Link(None, Inner([Link(None, Leave(a, true)), Link(None, Leave(b, true))], [Some(border), None], true, true))
    case SplitLeave(i, a, border, b, max) => SplitLink(l, i, a, border, b, max)
    case Rotation(m, a, border, b) => RotatedLink(l, m, a, border, b)
    case Merge(m, files) => JoinedLink(l, m, files)
    case Promotion(files) => Link(None, Leave(files, true))
  }

  /** The change marks the root. */
  predicate Marks(c: Change) {
    c.SplitRoot? || c.SplitLeave? || c.Promotion? || (c.InPlace? && c.path == [])
  }

  /** Splitting a leave below the root: the old one keeps its block, the new one has none, the root is marked. */
  function SplitLink(l: Link, i: nat, a: seq<Nodes.File>, border: Nodes.FileId, b: seq<Nodes.File>,
                     max: Nodes.FileId): Link
    requires l.node.Inner? && i < |l.node.children| == |l.node.maxes|
  {
    var cs := l.node.children;
    Link(l.ptr, Inner(Sequences.InsertAt(cs[i := Link(cs[i].ptr, Leave(a, true))], i + 1, Link(None, Leave(b, true))),
                      Sequences.InsertAt(l.node.maxes[i := Some(border)], i + 1, TreeInsert.MaxUnlessLast(i + 1, |cs|, max)),
                      true, true))
  }

  /** Two leaves changed below a node that is not marked. */
  function TwoChanged(l: Link, i: nat, j: nat, a: seq<Nodes.File>, b: seq<Nodes.File>,
                      maxes: seq<Option<Nodes.FileId>>): Link
    requires l.node.Inner? && i < j < |l.node.children|
  {
    var cs := l.node.children;
    Link(l.ptr, Inner(cs[i := Link(cs[i].ptr, Leave(a, true))][j := Link(cs[j].ptr, Leave(b, true))], maxes, l.node.dirty, true))
  }

  /** Moving a file between two leaves: both are dirty, the border between them is new, the node above is not marked. */
  function RotatedLink(l: Link, m: nat, a: seq<Nodes.File>, border: Nodes.FileId, b: seq<Nodes.File>): Link
    requires l.node.Inner? && m + 1 < |l.node.children| == |l.node.maxes|
  {
    TwoChanged(l, m, m + 1, a, b, l.node.maxes[m := Some(border)])
  }

  /** Merging two leaves: a new leave without a block takes their place, the node above is not marked. */
  function JoinedLink(l: Link, m: nat, files: seq<Nodes.File>): Link
    requires l.node.Inner? && m + 1 < |l.node.children| == |l.node.maxes|
  {
    var cs, maxes := l.node.children, l.node.maxes;
    Link(l.ptr, Inner(cs[..m] + [Link(None, Leave(files, true))] + cs[m + 2..],
                      maxes[..m] + [maxes[m + 1]] + maxes[m + 2..], l.node.dirty, true))
  }

  /** These are the children that `rebalance_leave` leaves when it moves a file. */
  lemma RotatedProject(l: Link, parent: Nodes.Parent, m: nat, a: seq<Nodes.File>, border: Nodes.FileId,
                       b: seq<Nodes.File>)
    requires AllLoaded(l) && l.node.Inner? && m + 1 < |l.node.children|
    ensures var cs := Project(l, parent).children;
            && |cs| == |l.node.children| && AllLoaded(RotatedLink(l, m, a, border, b))
            && Project(RotatedLink(l, m, a, border, b), parent)
               == Nodes.Node(parent, TreeDelete.Rotated(cs, m, Nodes.Leave(Nodes.Holder, a), border,
                                                            Nodes.Leave(Nodes.Holder, b)))
  {
    var r, cs := RotatedLink(l, m, a, border, b), Project(l, parent).children;
    forall k | 0 <= k < |r.node.children| ensures AllLoaded(r.node.children[k]) {
      if k != m && k != m + 1 { assert r.node.children[k] == l.node.children[k]; }
    }
    var ds := TreeDelete.Rotated(cs, m, Nodes.Leave(Nodes.Holder, a), border, Nodes.Leave(Nodes.Holder, b));
    hide Project, TreeDelete.Rotated;
    SameChildren(r, parent, parent);
    TreeDelete.RotatedAt(cs, m, Nodes.Leave(Nodes.Holder, a), border, Nodes.Leave(Nodes.Holder, b));
    SameChildren(l, parent, parent);
    forall k | 0 <= k < |ds| ensures Project(r, parent).children[k] == ds[k] {
      ProjectChild(r, parent, k);
      ProjectChild(l, parent, k);
      LeaveProject(r.node.children[k]);
    }
    NodeOf(r, parent);
  }

  lemma LeaveProject(l: Link)
    requires AllLoaded(l)
    ensures l.node.Leave? ==> Project(l, Nodes.Holder) == Nodes.Leave(Nodes.Holder, l.node.files)
  {
  }

  lemma NodeOf(l: Link, parent: Nodes.Parent)
    requires AllLoaded(l) && l.node.Inner?
    ensures Project(l, parent) == Nodes.Node(parent, Project(l, parent).children)
  {
  }

  /** And when it merges two leaves. */
  lemma JoinedProject(l: Link, parent: Nodes.Parent, m: nat, files: seq<Nodes.File>)
    requires AllLoaded(l) && l.node.Inner? && m + 1 < |l.node.children|
    ensures var cs := Project(l, parent).children;
            && |cs| == |l.node.children| && AllLoaded(JoinedLink(l, m, files))
            && Project(JoinedLink(l, m, files), parent)
               == Nodes.Node(parent, TreeDelete.Joined(cs, m, Nodes.Leave(Nodes.Holder, files)))
  {
    LoadedChild(l, m);
    hide Project, TreeDelete.Joined, JoinedLink, AllLoaded;
    JoinedLinkAt(l, m, files, 0);
    var r, cs := JoinedLink(l, m, files), Project(l, parent).children;
    SameChildren(l, parent, parent);
    forall k | 0 <= k < |l.node.children| - 1 ensures JoinedChild(l, m, files, k) { JoinedLinkAt(l, m, files, k); }
    JoinedLoaded(l, m, files);
    var ds := TreeDelete.Joined(cs, m, Nodes.Leave(Nodes.Holder, files));
    SameChildren(r, parent, parent);
    TreeDelete.JoinedAt(cs, m, Nodes.Leave(Nodes.Holder, files));
    forall k | 0 <= k < |ds| ensures Project(r, parent).children[k] == ds[k] {
      assert JoinedChild(l, m, files, k);
      ProjectChild(r, parent, k);
      ProjectChild(l, parent, if k < m then k else k + 1);
      LoadedChild(r, k);
      LeaveProject(r.node.children[k]);
    }
    NodeOf(r, parent);
  }

  lemma LoadedChild(l: Link, k: nat)
    requires AllLoaded(l) && l.node.Inner? && k < |l.node.children|
    ensures AllLoaded(l.node.children[k]) && |l.node.maxes| == |l.node.children|
  {
  }

  /** Child `k` of the node with two leaves merged. */
  predicate JoinedChild(l: Link, m: nat, files: seq<Nodes.File>, k: nat)
    requires l.node.Inner? && m + 1 < |l.node.children| == |l.node.maxes| && k < |l.node.children| - 1
  {
    var t := JoinedLink(l, m, files);
    && t.node.Inner? && |t.node.children| == |t.node.maxes| == |l.node.children| - 1
    && t.node.children[k] == (if k < m then l.node.children[k] else if k == m then Link(None, Leave(files, true))
                              else l.node.children[k + 1])
    && t.node.maxes[k] == if k < m then l.node.maxes[k] else l.node.maxes[k + 1]
  }

  lemma JoinedLinkAt(l: Link, m: nat, files: seq<Nodes.File>, k: nat)
    requires l.node.Inner? && m + 1 < |l.node.children| == |l.node.maxes| && k < |l.node.children| - 1
    ensures JoinedChild(l, m, files, k)
  {
  }

  lemma JoinedLoaded(l: Link, m: nat, files: seq<Nodes.File>)
    requires AllLoaded(l) && l.node.Inner? && m + 1 < |l.node.children|
    ensures AllLoaded(JoinedLink(l, m, files))
  {
    hide JoinedLink;
    var t := JoinedLink(l, m, files);
    JoinedLinkAt(l, m, files, 0);
    forall k | 0 <= k < |t.node.children| ensures AllLoaded(t.node.children[k]) {
      JoinedLinkAt(l, m, files, k);
    }
  }

  // ----- The change a call makes -----

  function InsertChange(l: Link, file: Nodes.File, createOnly: bool): Option<Change>
    requires Shallow(l)
  {
    match l.node
    case Leave(files, _) =>
      (match TreeInsert.InsertInLeave(Nodes.NoParent, files, file, createOnly)
       case Done(c) => Some(InPlace([], c.files))
       case Split(a, border, b, _) => Some(SplitRoot(a.files, border, b.files))
       case _ => None)
    case Inner(cs, _, _, _) =>
      var i := Nodes.ChildIndex(Project(l, Nodes.NoParent).children, file.id);
      if i >= |cs| then None
      else match TreeInsert.InsertInLeave(Nodes.Holder, cs[i].node.files, file, createOnly)
           case Done(c) => Some(InPlace([i], c.files))
           case Split(a, border, b, max) => Some(SplitLeave(i, a.files, border, b.files, max))
           case _ => None
  }

  function DeleteChange(l: Link, id: Nodes.FileId): Option<Change>
    requires Shallow(l)
  {
    match l.node
    case Leave(files, _) =>
      (match Nodes.Position(files, id)
       case None => None
       case Some(p) => Some(InPlace([], Sequences.RemoveAt(files, p))))
    case Inner(cs, _, _, _) =>
      var ns := Project(l, Nodes.NoParent).children;
      var i := Nodes.ChildIndex(ns, id);
      if i >= |cs| || |ns| != |cs| then None
      else match Nodes.Position(cs[i].node.files, id)
           case None => None
           case Some(p) =>
             var rest := Sequences.RemoveAt(cs[i].node.files, p);
             if |rest| >= Nodes.LEAVE_MAX_FILE_COUNT / 2 then Some(InPlace([i], rest))
             else RebalanceChange(cs, TreeDelete.ChooseMode(Nodes.NoParent, LoweredTo(ns, i, rest), i), i, rest)
  }

  /** The children with one leave as the deletion leaves it. */
  function LoweredTo(ns: seq<Nodes.Link>, i: nat, rest: seq<Nodes.File>): (r: seq<Nodes.Link>)
    requires i < |ns|
    ensures |r| == |ns|
  {
    ns[i := Nodes.Link(Nodes.Leave(Nodes.Holder, rest), ns[i].max)]
  }

  function RebalanceChange(cs: seq<Link>, mode: TreeDelete.Mode, i: nat, rest: seq<Nodes.File>): Option<Change>
    requires i < |cs| && forall k :: 0 <= k < |cs| ==> cs[k].node.Leave?
    requires mode == TreeDelete.TakeFromRight ==> i + 1 < |cs|
    requires mode == TreeDelete.TakeFromLeft ==> i > 0
    requires mode.Merge? ==> mode.left + 1 < |cs| && (mode.left == i || mode.left + 1 == i)
  {
    match mode
    case NoVariant => None
    case TakeFromRight =>
      var b := cs[i + 1].node.files;
      if b == [] then None else Some(Rotation(i, rest + [b[0]], b[0].id, b[1..]))
    case TakeFromLeft =>
      var a := cs[i - 1].node.files;
      if |a| < 2 then None else Some(Rotation(i - 1, a[..|a| - 1], a[|a| - 2].id, [a[|a| - 1]] + rest))
    case Merge(m) =>
      var files := if m == i then rest + cs[i + 1].node.files else cs[m].node.files + rest;
      Some(if |cs| == 2 then Promotion(files) else Merge(m, files))
  }

  function ChangeOf(l: Link, call: MemTrees.Call): Option<Change>
    requires Shallow(l)
  {
    match call
    case Delete(id) => DeleteChange(l, id)
    case _ => InsertChange(l, call.file, call.InsertNew?)
  }

  /** The change is what `insert` makes of the tree. */
  lemma InsertChangeExact(l: Link, file: Nodes.File, createOnly: bool)
    requires Shallow(l)
    requires Nodes.Find(Project(l, Nodes.NoParent), file.id).Some? || !TreeInsert.SplitsTwice(Project(l, Nodes.NoParent), file.id)
    requires TreeInsert.Insert(Project(l, Nodes.NoParent), file, createOnly).Ok?
    ensures var c := InsertChange(l, file, createOnly);
            && c.Some? && FitsIn(l, c.value) && Shallow(Apply(l, c.value))
            && TreeInsert.Insert(Project(l, Nodes.NoParent), file, createOnly).root == Project(Apply(l, c.value), Nodes.NoParent)
  {
    match l.node
    case Leave(files, _) =>
      RootInsertExact(l, file, createOnly);
    case Inner(cs, maxes, _, _) =>
      ChildInsertExact(l, file, createOnly);
  }

  lemma RootInsertExact(l: Link, file: Nodes.File, createOnly: bool)
    requires Shallow(l) && l.node.Leave?
    requires TreeInsert.Insert(Project(l, Nodes.NoParent), file, createOnly).Ok?
    ensures var c := InsertChange(l, file, createOnly);
            && c.Some? && FitsIn(l, c.value) && Shallow(Apply(l, c.value))
            && TreeInsert.Insert(Project(l, Nodes.NoParent), file, createOnly).root == Project(Apply(l, c.value), Nodes.NoParent)
  {
    var n := Project(l, Nodes.NoParent);
    var r := TreeInsert.InsertInLeave(Nodes.NoParent, l.node.files, file, createOnly);
    assert TreeInsert.InsertInto(n, file, createOnly) == r;
    LeaveResults(Nodes.NoParent, l.node.files, file, createOnly);
    hide TreeInsert.InsertInLeave;
    if r.Done? {
      assert Touched(l, [], r.node.files) == Link(l.ptr, Leave(r.node.files, true));
    } else {
      SplitRootProject(l, r.left.files, r.splitId, r.right.files);
    }
  }

  lemma SplitRootProject(l: Link, a: seq<Nodes.File>, border: Nodes.FileId, b: seq<Nodes.File>)
    requires l.node.Leave?
    ensures var t := Apply(l, SplitRoot(a, border, b));
            && Shallow(t)
            && Project(t, Nodes.NoParent)
               == TreeInsert.NewRoot(Nodes.Leave(Nodes.NoParent, a), border, Nodes.Leave(Nodes.NoParent, b))
  {
    var t := Apply(l, SplitRoot(a, border, b));
    assert AllLoaded(t.node.children[0]) && AllLoaded(t.node.children[1]);
    ShallowLeaves(t);
  }

  lemma ChildInsertExact(l: Link, file: Nodes.File, createOnly: bool)
    requires Shallow(l) && l.node.Inner?
    requires Nodes.Find(Project(l, Nodes.NoParent), file.id).Some? || !TreeInsert.SplitsTwice(Project(l, Nodes.NoParent), file.id)
    requires TreeInsert.Insert(Project(l, Nodes.NoParent), file, createOnly).Ok?
    ensures var c := InsertChange(l, file, createOnly);
            && c.Some? && FitsIn(l, c.value) && Shallow(Apply(l, c.value))
            && TreeInsert.Insert(Project(l, Nodes.NoParent), file, createOnly).root == Project(Apply(l, c.value), Nodes.NoParent)
  {
    var n, cs := Project(l, Nodes.NoParent), l.node.children;
    hide Nodes.ChildIndex, Project, TreeInsert.InsertInto, Shallow, FitsIn, Apply;
    SameChildren(l, Nodes.NoParent, Nodes.NoParent);
    NodeOf(l, Nodes.NoParent);
    var i := Nodes.ChildIndex(n.children, file.id);
    SearchEnds(n, file, createOnly);
    ShallowChild(l, i);
    ChildFiles(l, i);
    var files := cs[i].node.files;
    InsertBelow(n, i, files, file, createOnly);
    var r := TreeInsert.InsertInLeave(Nodes.Holder, files, file, createOnly);
    hide TreeInsert.InsertInLeave;
    LeaveResults(Nodes.Holder, files, file, createOnly);
    ProjectChild(l, Nodes.NoParent, i);
    if r.Done? {
      InPlaceBelow(l, i, r.node.files);
      ProjectUpdate(l, Nodes.NoParent, i, Link(cs[i].ptr, Leave(r.node.files, true)));
    } else if r.Split? {
      SplitBelow(l, i, r.left.files, r.splitId, r.right.files, r.rightMax);
      SplitProject(l, i, r.left.files, r.splitId, r.right.files, r.rightMax);
    }
  }

  lemma SplitBelow(l: Link, i: nat, a: seq<Nodes.File>, border: Nodes.FileId, b: seq<Nodes.File>, max: Nodes.FileId)
    requires Shallow(l) && l.node.Inner? && i < |l.node.children|
    ensures var c := SplitLeave(i, a, border, b, max); FitsIn(l, c) && Apply(l, c) == SplitLink(l, i, a, border, b, max)
  {
  }

  lemma SearchEnds(n: Nodes.MemNode, file: Nodes.File, createOnly: bool)
    requires n.Node? && TreeInsert.Insert(n, file, createOnly).Ok?
    ensures Nodes.ChildIndex(n.children, file.id) < |n.children|
  {
  }

  lemma LeaveResults(parent: Nodes.Parent, files: seq<Nodes.File>, file: Nodes.File, createOnly: bool)
    ensures var r := TreeInsert.InsertInLeave(parent, files, file, createOnly);
            && (r.Done? ==> r.node.Leave? && r.node == Nodes.Leave(parent, r.node.files))
            && (r.Split? ==> |files| >= Nodes.LEAVE_MAX_FILE_COUNT && Nodes.Position(files, file.id).None?
                             && r.left.Leave? && r.left == Nodes.Leave(parent, r.left.files)
                             && r.right.Leave? && r.right == Nodes.Leave(parent, r.right.files))
  {
    hide Nodes.Position, TreeInsert.InsertPosition, Sequences.InsertAt;
  }

  /** An insertion below the root of two levels. */
  lemma InsertBelow(n: Nodes.MemNode, i: nat, files: seq<Nodes.File>, file: Nodes.File, createOnly: bool)
    requires n.Node? && i == Nodes.ChildIndex(n.children, file.id) < |n.children|
    requires n.children[i].node == Nodes.Leave(Nodes.Holder, files)
    requires Nodes.Find(n, file.id).Some? || !TreeInsert.SplitsTwice(n, file.id)
    ensures var r := TreeInsert.InsertInLeave(Nodes.Holder, files, file, createOnly);
            && (r.Done? ==> TreeInsert.Insert(n, file, createOnly)
                            == TreeInsert.Ok(Nodes.Node(n.parent, n.children[i := Nodes.Link(r.node, n.children[i].max)])))
            && (r.Split? ==> TreeInsert.Insert(n, file, createOnly)
                             == TreeInsert.Ok(Nodes.Node(n.parent,
                                  Sequences.InsertAt(n.children[i := Nodes.Link(r.left, Some(r.splitId))], i + 1,
                                    Nodes.Link(r.right, TreeInsert.MaxUnlessLast(i + 1, |n.children|, r.rightMax))))))
            && (!r.Done? && !r.Split? ==> !TreeInsert.Insert(n, file, createOnly).Ok?)
  {
    hide Nodes.ChildIndex, TreeInsert.InsertInLeave, Sequences.InsertAt, Nodes.Find, TreeInsert.SplitsTwice,
         Nodes.Position, TreeInsert.InsertInto;
    LeaveResults(Nodes.Holder, files, file, createOnly);
    InsertIntoLeaf(n, i, files, file, createOnly);
    var r := TreeInsert.InsertInLeave(Nodes.Holder, files, file, createOnly);
    if r.Split? { RoomForChild(n, i, files, file); }
  }

  lemma InsertIntoLeaf(n: Nodes.MemNode, i: nat, files: seq<Nodes.File>, file: Nodes.File, createOnly: bool)
    requires n.Node? && i == Nodes.ChildIndex(n.children, file.id) < |n.children|
    requires n.children[i].node == Nodes.Leave(Nodes.Holder, files)
    ensures var r := TreeInsert.InsertInLeave(Nodes.Holder, files, file, createOnly);
            && (r.Done? ==> TreeInsert.InsertInto(n, file, createOnly)
                            == TreeInsert.Done(Nodes.Node(n.parent, n.children[i := Nodes.Link(r.node, n.children[i].max)])))
            && (r.Split? ==> TreeInsert.InsertInto(n, file, createOnly)
                             == TreeInsert.InsertSplit(n.parent, n.children, i, r.left, r.splitId, r.right, r.rightMax))
            && (!r.Done? && !r.Split? ==> TreeInsert.InsertInto(n, file, createOnly) == r)
  {
    hide Nodes.ChildIndex, TreeInsert.InsertInLeave, TreeInsert.InsertSplit;
    assert TreeInsert.InsertInto(n.children[i].node, file, createOnly)
           == TreeInsert.InsertInLeave(Nodes.Holder, files, file, createOnly);
  }

  lemma RoomForChild(n: Nodes.MemNode, i: nat, files: seq<Nodes.File>, file: Nodes.File)
    requires n.Node? && i == Nodes.ChildIndex(n.children, file.id) < |n.children|
    requires n.children[i].node == Nodes.Leave(Nodes.Holder, files)
    requires Nodes.Find(n, file.id).Some? || !TreeInsert.SplitsTwice(n, file.id)
    requires |files| >= Nodes.LEAVE_MAX_FILE_COUNT && Nodes.Position(files, file.id).None?
    ensures |n.children| < Nodes.NODE_MAX_CHILD_COUNT
  {
    hide Nodes.ChildIndex, Nodes.Position;
    var leave := n.children[i].node;
    assert Nodes.LeaveFor(n, file.id) == Nodes.LeaveFor(leave, file.id) == Some(leave);
  }

  lemma TouchedBelow(l: Link, i: nat, files: seq<Nodes.File>)
    requires Shallow(l) && l.node.Inner? && i < |l.node.children|
    ensures LeadsToLeave(l, [i]) && Shallow(Touched(l, [i], files))
    ensures Touched(l, [i], files)
            == Link(l.ptr, Inner(l.node.children[i := Link(l.node.children[i].ptr, Leave(files, true))],
                                 l.node.maxes, l.node.dirty, true))
  {
    var cs := l.node.children;
    assert [i][1..] == [] && LeadsToLeave(cs[i], []);
    assert Touched(cs[i], [], files) == Link(cs[i].ptr, Leave(files, true));
    ShallowLeaves(Touched(l, [i], files));
  }

  lemma ShallowLeaves(t: Link)
    requires t.node.Inner? && |t.node.maxes| == |t.node.children|
    requires forall k :: 0 <= k < |t.node.children| ==> t.node.children[k].node.Leave?
    ensures Shallow(t)
  {
  }

  lemma InsertedSecond<T>(s: seq<T>, i: nat, x: T, y: T, k: nat)
    requires i < |s| && k <= |s|
    ensures var t := Sequences.InsertAt(s[i := x], i + 1, y);
            |t| == |s| + 1 && t[k] == if k < i then s[k] else if k == i then x else if k == i + 1 then y else s[k - 1]
  {
  }

  /** Child `k` of the root with one leave split. */
  predicate SplitChild(l: Link, t: Link, i: nat, a: seq<Nodes.File>, border: Nodes.FileId, b: seq<Nodes.File>,
                       max: Nodes.FileId, k: nat)
    requires l.node.Inner? && i < |l.node.children| == |l.node.maxes| && k <= |l.node.children|
  {
    var cs, maxes := l.node.children, l.node.maxes;
    && t.ptr == l.ptr && t.node.Inner? && t.node.dirty && t.node.dirtyChildren
    && |t.node.children| == |t.node.maxes| == |cs| + 1
    && t.node.children[k] == (if k < i then cs[k] else if k == i then Link(cs[i].ptr, Leave(a, true))
                              else if k == i + 1 then Link(None, Leave(b, true)) else cs[k - 1])
    && t.node.maxes[k] == if k < i then maxes[k] else if k == i then Some(border)
                          else if k == i + 1 then TreeInsert.MaxUnlessLast(i + 1, |cs|, max) else maxes[k - 1]
  }

  lemma SplitLinkAt(l: Link, i: nat, a: seq<Nodes.File>, border: Nodes.FileId, b: seq<Nodes.File>,
                    max: Nodes.FileId, k: nat)
    requires l.node.Inner? && i < |l.node.children| == |l.node.maxes| && k <= |l.node.children|
    ensures SplitChild(l, SplitLink(l, i, a, border, b, max), i, a, border, b, max, k)
  {
    hide Sequences.InsertAt, TreeInsert.MaxUnlessLast;
    var cs := l.node.children;
    InsertedSecond(cs, i, Link(cs[i].ptr, Leave(a, true)), Link(None, Leave(b, true)), k);
    InsertedSecond(l.node.maxes, i, Some(border), TreeInsert.MaxUnlessLast(i + 1, |cs|, max), k);
  }

  lemma SplitShallow(l: Link, i: nat, a: seq<Nodes.File>, border: Nodes.FileId, b: seq<Nodes.File>, max: Nodes.FileId)
    requires Shallow(l) && l.node.Inner? && i < |l.node.children|
    ensures Shallow(SplitLink(l, i, a, border, b, max))
  {
    hide SplitLink;
    var t := SplitLink(l, i, a, border, b, max);
    SplitLinkAt(l, i, a, border, b, max, 0);
    forall k | 0 <= k < |t.node.children| ensures t.node.children[k].node.Leave? {
      SplitLinkAt(l, i, a, border, b, max, k);
    }
    ShallowLeaves(t);
  }

  /** These are the children that `insert_split` leaves when the root has room for one more. */
  lemma SplitProject(l: Link, i: nat, a: seq<Nodes.File>, border: Nodes.FileId, b: seq<Nodes.File>,
                     max: Nodes.FileId)
    requires Shallow(l) && l.node.Inner? && i < |l.node.children|
    ensures var t, n := SplitLink(l, i, a, border, b, max), Project(l, Nodes.NoParent);
            && Shallow(t) && |n.children| == |l.node.children|
            && Project(t, Nodes.NoParent)
               == Nodes.Node(Nodes.NoParent,
                    Sequences.InsertAt(n.children[i := Nodes.Link(Nodes.Leave(Nodes.Holder, a), Some(border))], i + 1,
                                       Nodes.Link(Nodes.Leave(Nodes.Holder, b),
                                                      TreeInsert.MaxUnlessLast(i + 1, |n.children|, max))))
  {
    hide Sequences.InsertAt, Project, TreeInsert.MaxUnlessLast, SplitLink;
    var t, n, cs := SplitLink(l, i, a, border, b, max), Project(l, Nodes.NoParent), l.node.children;
    var last := TreeInsert.MaxUnlessLast(i + 1, |cs|, max);
    SplitLinkAt(l, i, a, border, b, max, 0);
    SplitShallow(l, i, a, border, b, max);
    SameChildren(l, Nodes.NoParent, Nodes.NoParent);
    SameChildren(t, Nodes.NoParent, Nodes.NoParent);
    var x := Nodes.Link(Nodes.Leave(Nodes.Holder, a), Some(border));
    var y := Nodes.Link(Nodes.Leave(Nodes.Holder, b), last);
    var ds := Sequences.InsertAt(n.children[i := x], i + 1, y);
    InsertedSecond(n.children, i, x, y, 0);
    forall k | 0 <= k < |ds| ensures Project(t, Nodes.NoParent).children[k] == ds[k] {
      SplitLinkAt(l, i, a, border, b, max, k);
      InsertedSecond(n.children, i, x, y, k);
      ProjectChild(t, Nodes.NoParent, k);
      LeaveProject(t.node.children[k]);
      if k < i {
        ProjectChild(l, Nodes.NoParent, k);
      } else if k > i + 1 {
        ProjectChild(l, Nodes.NoParent, k - 1);
      }
    }
    NodeOf(t, Nodes.NoParent);
  }

  /** The change is what `delete` makes of the tree. */
  lemma DeleteChangeExact(l: Link, id: Nodes.FileId)
    requires Shallow(l) && TreeDelete.Delete(Project(l, Nodes.NoParent), id).Ok?
    ensures var c := DeleteChange(l, id);
            && c.Some? && FitsIn(l, c.value) && Shallow(Apply(l, c.value))
            && TreeDelete.Delete(Project(l, Nodes.NoParent), id).root == Project(Apply(l, c.value), Nodes.NoParent)
  {
    match l.node
    case Leave(files, _) =>
      hide Nodes.Position, Sequences.RemoveAt;
    case Inner(cs, maxes, _, _) =>
      hide Nodes.ChildIndex, Nodes.Position, Sequences.RemoveAt, TreeDelete.RebalanceLeave, RebalanceChange,
           TreeDelete.ChooseMode, Shallow, Apply, FitsIn, Project, TreeDelete.Delete, RootOf;
      var n := Project(l, Nodes.NoParent);
      SameChildren(l, Nodes.NoParent, Nodes.NoParent);
      NodeOf(l, Nodes.NoParent);
      var i := Nodes.ChildIndex(n.children, id);
      DeleteSearchEnds(n, id);
      ShallowChild(l, i);
      ChildFiles(l, i);
      DeleteBelow(n, i, cs[i].node.files, id);
      ProjectChild(l, Nodes.NoParent, i);
      var p := Nodes.Position(cs[i].node.files, id).value;
      var rest := Sequences.RemoveAt(cs[i].node.files, p);
      assert forall k :: 0 <= k < |cs| ==> cs[k].node.Leave? by {
        forall k | 0 <= k < |cs| ensures cs[k].node.Leave? { ShallowChild(l, k); }
      }
      if |rest| >= Nodes.LEAVE_MAX_FILE_COUNT / 2 {
        ProjectUpdate(l, Nodes.NoParent, i, Link(cs[i].ptr, Leave(rest, true)));
        InPlaceBelow(l, i, rest);
      } else {
        RebalanceExact(l, i, rest, cs[i].node.files[p]);
      }
  }

  lemma DeleteSearchEnds(n: Nodes.MemNode, id: Nodes.FileId)
    requires n.Node? && TreeDelete.Delete(n, id).Ok?
    ensures Nodes.ChildIndex(n.children, id) < |n.children|
  {
  }

  /** A deletion below the root of two levels. */
  lemma DeleteBelow(n: Nodes.MemNode, i: nat, files: seq<Nodes.File>, id: Nodes.FileId)
    requires n.Node? && n.parent == Nodes.NoParent && i == Nodes.ChildIndex(n.children, id) < |n.children|
    requires n.children[i].node == Nodes.Leave(Nodes.Holder, files) && TreeDelete.Delete(n, id).Ok?
    ensures Nodes.Position(files, id).Some?
    ensures var p := Nodes.Position(files, id).value;
            var rest := Sequences.RemoveAt(files, p);
            var ns := LoweredTo(n.children, i, rest);
            if |rest| >= Nodes.LEAVE_MAX_FILE_COUNT / 2 then
              TreeDelete.Delete(n, id).root == Nodes.Node(Nodes.NoParent, ns)
            else
              Some(TreeDelete.Delete(n, id).root) == RootOf(TreeDelete.RebalanceLeave(Nodes.NoParent, ns, i, files[p]))
  {
    hide Nodes.ChildIndex, Nodes.Position, Sequences.RemoveAt, TreeDelete.RebalanceLeave, TreeDelete.RebalanceNode;
    var leave := n.children[i].node;
    var r := TreeDelete.DeleteFrom(leave, id);
  }

  lemma ShallowChild(l: Link, i: nat)
    requires Shallow(l) && l.node.Inner? && i < |l.node.children|
    ensures l.node.children[i].node.Leave?
  {
  }

  lemma InPlaceBelow(l: Link, i: nat, files: seq<Nodes.File>)
    requires Shallow(l) && l.node.Inner? && i < |l.node.children|
    ensures var c := InPlace([i], files); FitsIn(l, c) && Shallow(Apply(l, c))
    ensures Apply(l, InPlace([i], files))
            == Link(l.ptr, Inner(l.node.children[i := Link(l.node.children[i].ptr, Leave(files, true))],
                                 l.node.maxes, l.node.dirty, true))
  {
    TouchedBelow(l, i, files);
  }

  /** The tree that `delete` ends with when a leave has to be rebalanced below the root. */
  function RootOf(r: TreeDelete.Deletion): Option<Nodes.MemNode> {
    match r
    case Removed(n, _) => Some(n)
    case Merged(n, _) =>
      if Nodes.Len(n) != 1 || n.Leave? then Some(n)
      else if n.children[0].max.Some? then None
      else Some(Nodes.WithParent(n.children[0].node, Nodes.NoParent))
    case _ => None
  }

  lemma RebalanceExact(l: Link, i: nat, rest: seq<Nodes.File>, file: Nodes.File)
    requires Shallow(l) && l.node.Inner? && i < |l.node.children| == |Project(l, Nodes.NoParent).children|
    requires forall k :: 0 <= k < |l.node.children| ==> l.node.children[k].node.Leave?
    requires var ns := LoweredTo(Project(l, Nodes.NoParent).children, i, rest);
             RootOf(TreeDelete.RebalanceLeave(Nodes.NoParent, ns, i, file)).Some?
    ensures var ns := LoweredTo(Project(l, Nodes.NoParent).children, i, rest);
            var c := RebalanceChange(l.node.children, TreeDelete.ChooseMode(Nodes.NoParent, ns, i), i, rest);
            && c.Some? && FitsIn(l, c.value) && Shallow(Apply(l, c.value))
            && RootOf(TreeDelete.RebalanceLeave(Nodes.NoParent, ns, i, file)) == Some(Project(Apply(l, c.value), Nodes.NoParent))
  {
    hide Project, TreeDelete.ChooseMode, RebalanceChange, TreeDelete.RebalanceLeave, RootOf, Apply, FitsIn;
    var ns := LoweredTo(Project(l, Nodes.NoParent).children, i, rest);
    match TreeDelete.ChooseMode(Nodes.NoParent, ns, i)
    case TakeFromRight => RightExact(l, i, rest, file);
    case TakeFromLeft => LeftExact(l, i, rest, file);
    case Merge(m) => MergedExact(l, i, rest, file, m);
    case NoVariant => NoVariantPanics(ns, i, file);
  }

  lemma NoVariantPanics(ns: seq<Nodes.Link>, i: nat, file: Nodes.File)
    requires i < |ns| && TreeDelete.ChooseMode(Nodes.NoParent, ns, i) == TreeDelete.NoVariant
    ensures RootOf(TreeDelete.RebalanceLeave(Nodes.NoParent, ns, i, file)).None?
  {
  }

  /** Child `i` of a tree of two levels has been left with the files `rest`, and the mode is chosen. */
  ghost predicate Rebalances(l: Link, i: nat, rest: seq<Nodes.File>, file: Nodes.File, mode: TreeDelete.Mode) {
    && Shallow(l) && l.node.Inner? && i < |l.node.children| == |Project(l, Nodes.NoParent).children|
    && var ns := LoweredTo(Project(l, Nodes.NoParent).children, i, rest);
       && TreeDelete.ChooseMode(Nodes.NoParent, ns, i) == mode
       && RootOf(TreeDelete.RebalanceLeave(Nodes.NoParent, ns, i, file)).Some?
  }

  /** The change stands for what `rebalance_leave` does. */
  ghost predicate Stands(l: Link, i: nat, rest: seq<Nodes.File>, file: Nodes.File, mode: TreeDelete.Mode)
    requires Rebalances(l, i, rest, file, mode)
  {
    var c := RebalanceChange(l.node.children, mode, i, rest);
    var ns := LoweredTo(Project(l, Nodes.NoParent).children, i, rest);
    && c.Some? && FitsIn(l, c.value) && Shallow(Apply(l, c.value))
    && RootOf(TreeDelete.RebalanceLeave(Nodes.NoParent, ns, i, file)) == Some(Project(Apply(l, c.value), Nodes.NoParent))
  }

  lemma RightExact(l: Link, i: nat, rest: seq<Nodes.File>, file: Nodes.File)
    requires Rebalances(l, i, rest, file, TreeDelete.TakeFromRight)
    ensures Stands(l, i, rest, file, TreeDelete.TakeFromRight)
  {
    var os, cs := Project(l, Nodes.NoParent).children, l.node.children;
    hide TreeDelete.ChooseMode, Project, TreeDelete.Rotated;
    ChildFiles(l, i + 1);
    var b := cs[i + 1].node.files;
    RotatedProject(l, Nodes.NoParent, i, rest + [b[0]], b[0].id, b[1..]);
    RotatedIgnores(os, i, rest, i, Nodes.Leave(Nodes.Holder, rest + [b[0]]), b[0].id, Nodes.Leave(Nodes.Holder, b[1..]));
  }

  lemma LeftExact(l: Link, i: nat, rest: seq<Nodes.File>, file: Nodes.File)
    requires Rebalances(l, i, rest, file, TreeDelete.TakeFromLeft)
    ensures Stands(l, i, rest, file, TreeDelete.TakeFromLeft)
  {
    var os, cs := Project(l, Nodes.NoParent).children, l.node.children;
    hide TreeDelete.ChooseMode, Project, TreeDelete.Rotated;
    ChildFiles(l, i - 1);
    var a := cs[i - 1].node.files;
    var k := |a| - 1;
    assert a[..k][k - 1] == a[k - 1];
    RotatedProject(l, Nodes.NoParent, i - 1, a[..k], a[k - 1].id, [a[k]] + rest);
    RotatedIgnores(os, i, rest, i - 1, Nodes.Leave(Nodes.Holder, a[..k]), a[k - 1].id,
                   Nodes.Leave(Nodes.Holder, [a[k]] + rest));
  }

  lemma MergedExact(l: Link, i: nat, rest: seq<Nodes.File>, file: Nodes.File, m: nat)
    requires Rebalances(l, i, rest, file, TreeDelete.Merge(m))
    ensures Stands(l, i, rest, file, TreeDelete.Merge(m))
  {
    hide RootOf, TreeDelete.ChooseMode, Project, TreeDelete.Joined, TreeDelete.RebalanceLeave, JoinedLink;
    var os, cs := Project(l, Nodes.NoParent).children, l.node.children;
    var files := if m == i then rest + cs[i + 1].node.files else cs[m].node.files + rest;
    var merged := Nodes.Leave(Nodes.Holder, files);
    MergedFiles(l, i, rest, file, m);
    MergedRoot(os, m, files, file);
    if |cs| == 2 {
      LeaveIsRoot(files);
    } else {
      JoinedProject(l, Nodes.NoParent, m, files);
      JoinedShallow(l, m, files);
    }
  }

  lemma MergedFiles(l: Link, i: nat, rest: seq<Nodes.File>, file: Nodes.File, m: nat)
    requires Rebalances(l, i, rest, file, TreeDelete.Merge(m))
    ensures m + 1 < |l.node.children| && (m == i || m + 1 == i)
    ensures forall k :: 0 <= k < |l.node.children| ==> l.node.children[k].node.Leave?
    ensures var os, cs := Project(l, Nodes.NoParent).children, l.node.children;
            var files := if m == i then rest + cs[i + 1].node.files else cs[m].node.files + rest;
            TreeDelete.RebalanceLeave(Nodes.NoParent, LoweredTo(os, i, rest), i, file)
            == TreeDelete.Merged(Nodes.Node(Nodes.NoParent, TreeDelete.Joined(os, m, Nodes.Leave(Nodes.Holder, files))), file)
  {
    hide TreeDelete.ChooseMode, Project, TreeDelete.Joined, RootOf;
    var os, cs := Project(l, Nodes.NoParent).children, l.node.children;
    var files := if m == i then rest + cs[i + 1].node.files else cs[m].node.files + rest;
    ChildFiles(l, if m == i then i + 1 else m);
    JoinedIgnores(os, i, rest, m, Nodes.Leave(Nodes.Holder, files));
  }

  lemma MergedRoot(os: seq<Nodes.Link>, m: nat, files: seq<Nodes.File>, file: Nodes.File)
    requires m + 1 < |os|
    ensures var n := Nodes.Node(Nodes.NoParent, TreeDelete.Joined(os, m, Nodes.Leave(Nodes.Holder, files)));
            var r := RootOf(TreeDelete.Merged(n, file));
            && (|os| > 2 ==> r == Some(n))
            && (|os| == 2 && r.Some? ==> r == Some(Nodes.Leave(Nodes.NoParent, files)))
  {
    TreeDelete.JoinedAt(os, m, Nodes.Leave(Nodes.Holder, files));
    hide TreeDelete.Joined;
  }

  lemma JoinedShallow(l: Link, m: nat, files: seq<Nodes.File>)
    requires Shallow(l) && l.node.Inner? && m + 1 < |l.node.children|
    ensures Shallow(JoinedLink(l, m, files))
  {
    hide JoinedLink;
    var t := JoinedLink(l, m, files);
    JoinedLinkAt(l, m, files, 0);
    forall k | 0 <= k < |t.node.children| ensures t.node.children[k].node.Leave? {
      JoinedLinkAt(l, m, files, k);
    }
    ShallowLeaves(t);
  }

  lemma LeaveIsRoot(files: seq<Nodes.File>)
    ensures var t := Link(None, Leave(files, true));
            Shallow(t) && Project(t, Nodes.NoParent) == Nodes.Leave(Nodes.NoParent, files)
  {
  }

  lemma ChildFiles(l: Link, k: nat)
    requires AllLoaded(l) && l.node.Inner? && k < |l.node.children| && l.node.children[k].node.Leave?
    ensures var ns := Project(l, Nodes.NoParent).children;
            |ns| == |l.node.children| && ns[k].node == Nodes.Leave(Nodes.Holder, l.node.children[k].node.files)
  {
    ProjectChild(l, Nodes.NoParent, k);
    LeaveProject(l.node.children[k]);
  }

  lemma RotatedIgnores(ns: seq<Nodes.Link>, i: nat, rest: seq<Nodes.File>, m: nat,
                       a: Nodes.MemNode, border: Nodes.FileId, b: Nodes.MemNode)
    requires i < |ns| && m + 1 < |ns| && (m == i || m + 1 == i)
    ensures TreeDelete.Rotated(LoweredTo(ns, i, rest), m, a, border, b) == TreeDelete.Rotated(ns, m, a, border, b)
  {
  }

  lemma JoinedIgnores(ns: seq<Nodes.Link>, i: nat, rest: seq<Nodes.File>, m: nat, a: Nodes.MemNode)
    requires i < |ns| && m + 1 < |ns| && (m == i || m + 1 == i)
    ensures TreeDelete.Joined(LoweredTo(ns, i, rest), m, a) == TreeDelete.Joined(ns, m, a)
  {
  }

  // ----- The marked tree is ready to be flushed -----

  /** A node above leaves, all of it on the device. */
  ghost predicate AboveLeaves(l: Link, f: seq<BlockGroup>, d: map<nat, Block>) {
    OnDevice(l, f, d) && Shallow(l) && l.node.Inner?
  }

  /** A tree with something to write, in blocks of its own. */
  ghost predicate Ready(t: Link, f: seq<BlockGroup>) {
    Owned(t) && InUse(f, Ptrs(t)) && Flagged(t) && Placed(t) && AnyDirty(t)
  }

  /** A tree with a root to write, above which nothing has to be written. */
  ghost predicate RootReady(t: Link, f: seq<BlockGroup>, d: map<nat, Block>) {
    Ready(t, f) && Dirty(t) && InSync(t, d) && Closed(t)
  }

  lemma {:induction false} AppendBlocks(a: seq<Link>, b: seq<Link>)
    ensures PtrsIn(a + b) == PtrsIn(a) + PtrsIn(b)
    ensures OwnedIn(a + b) <==> OwnedIn(a) && OwnedIn(b) && PtrsIn(a) !! PtrsIn(b)
    ensures DirtyCountIn(a + b) == DirtyCountIn(a) + DirtyCountIn(b)
    decreases |b|
  {
    hide Ptrs, Owned, DirtyCount;
    if |b| == 0 {
      assert a + b == a;
    } else {
      var n := |b| - 1;
      assert (a + b)[..|a| + n] == a + b[..n] && (a + b)[|a| + n] == b[n];
      AppendBlocks(a, b[..n]);
    }
  }

  lemma NewLeaveBlocks(files: seq<Nodes.File>)
    ensures PtrsIn([Link(None, Leave(files, true))]) == {} && OwnedIn([Link(None, Leave(files, true))])
    ensures DirtyCountIn([Link(None, Leave(files, true))]) == 1
  {
    var x := Link(None, Leave(files, true));
    PtrsSnoc([], x);
    assert [] + [x] == [x] && [x][..0] == [];
  }

  /** A new leave among others. */
  lemma InsertLeaveBlocks(cs: seq<Link>, i: nat, files: seq<Nodes.File>)
    requires i <= |cs|
    ensures var ds := Sequences.InsertAt(cs, i, Link(None, Leave(files, true)));
            PtrsIn(ds) == PtrsIn(cs) && (OwnedIn(cs) ==> OwnedIn(ds)) && DirtyCountIn(ds) == DirtyCountIn(cs) + 1
  {
    hide PtrsIn, OwnedIn, DirtyCountIn;
    var pre, post, one := cs[..i], cs[i..], [Link(None, Leave(files, true))];
    assert cs == pre + post && Sequences.InsertAt(cs, i, one[0]) == pre + one + post;
    NewLeaveBlocks(files);
    AppendBlocks(pre, post);
    AppendBlocks(pre, one);
    AppendBlocks(pre + one, post);
  }

  /** A node above leaves, with some of them changed and marked. */
  lemma MarkedAboveLeaves(t: Link, k: nat)
    requires t.node.Inner? && t.node.dirtyChildren && (t.ptr.None? ==> Dirty(t))
    requires forall k :: 0 <= k < |t.node.children| ==>
               t.node.children[k].node.Leave? && (t.node.children[k].ptr.None? ==> Dirty(t.node.children[k]))
    requires k < |t.node.children| && Dirty(t.node.children[k])
    ensures Flagged(t) && Placed(t) && AnyDirty(t)
  {
    assert AnyDirty(t.node.children[k]);
  }

  lemma StoredAboveLeaves(l: Link, f: seq<BlockGroup>, d: map<nat, Block>)
    requires AboveLeaves(l, f, d)
    ensures Written(l, d) && l.ptr.Some? && AllStored(l.node.children) && !l.node.dirty
    ensures forall k :: 0 <= k < |l.node.children| ==>
              && DirtyCount(l.node.children[k]) == 0 && Ptrs(l.node.children[k]) == SetOf(l.node.children[k].ptr)
              && InSync(l.node.children[k], d) && !Dirty(l.node.children[k])
    ensures DirtyCountIn(l.node.children) == 0
  {
    CleanCount(l);
    forall k | 0 <= k < |l.node.children|
      ensures && DirtyCount(l.node.children[k]) == 0 && Ptrs(l.node.children[k]) == SetOf(l.node.children[k].ptr)
              && InSync(l.node.children[k], d) && !Dirty(l.node.children[k])
    {
      assert !AnyDirty(l.node.children[k]);
      CleanCount(l.node.children[k]);
    }
  }

  /** A changed leave keeps its block. */
  lemma ChangedBlocks(cs: seq<Link>, i: nat, files: seq<Nodes.File>)
    requires i < |cs| && cs[i].node.Leave?
    ensures var ds := cs[i := Link(cs[i].ptr, Leave(files, true))];
            && PtrsIn(ds) == PtrsIn(cs) && (OwnedIn(cs) ==> OwnedIn(ds))
            && DirtyCountIn(ds) == DirtyCountIn(cs) + if Dirty(cs[i]) then 0 else 1
  {
    var x := Link(cs[i].ptr, Leave(files, true));
    assert Ptrs(x) == Ptrs(cs[i]) && DirtyCount(cs[i]) == (if Dirty(cs[i]) then 1 else 0) && DirtyCount(x) == 1;
    hide Ptrs, PtrsIn, OwnedIn, DirtyCountIn;
    UpdateBlocks(cs, i, x);
    UpdateDirt(cs, i, x);
  }

  /** The same blocks below the node, or fewer. */
  lemma SameBlocks(l: Link, t: Link, f: seq<BlockGroup>)
    requires l.node.Inner? && t.node.Inner? && t.ptr == l.ptr && Owned(l) && InUse(f, Ptrs(l))
    requires OwnedIn(t.node.children) && PtrsIn(t.node.children) <= PtrsIn(l.node.children)
    ensures Owned(t) && InUse(f, Ptrs(t))
    ensures DirtyCount(t) == DirtyCountIn(t.node.children) + if t.node.dirty then 1 else 0
  {
    hide PtrsIn, OwnedIn, DirtyCountIn, IsFree, Disjoint;
    PtrsNode(l.ptr, l.node.children, l.node.maxes, l.node.dirty, l.node.dirtyChildren);
    PtrsNode(t.ptr, t.node.children, t.node.maxes, t.node.dirty, t.node.dirtyChildren);
  }

  lemma ChangedMarked(l: Link, i: nat, j: nat, a: seq<Nodes.File>, b: seq<Nodes.File>,
                      maxes: seq<Option<Nodes.FileId>>)
    requires Shallow(l) && l.node.Inner? && i < j < |l.node.children| && l.ptr.Some? && AllStored(l.node.children)
    ensures var t := TwoChanged(l, i, j, a, b, maxes); Flagged(t) && Placed(t) && AnyDirty(t)
  {
    var t := TwoChanged(l, i, j, a, b, maxes);
    var ts := t.node.children;
    forall k | 0 <= k < |ts| ensures ts[k].node.Leave? && ts[k].ptr.Some? {
      if k != i && k != j { assert ts[k] == l.node.children[k]; }
    }
    MarkedAboveLeaves(t, i);
  }

  lemma TwoReady(l: Link, i: nat, j: nat, a: seq<Nodes.File>, b: seq<Nodes.File>,
                 maxes: seq<Option<Nodes.FileId>>, f: seq<BlockGroup>, d: map<nat, Block>)
    requires AboveLeaves(l, f, d) && i < j < |l.node.children|
    ensures var t := TwoChanged(l, i, j, a, b, maxes); Ready(t, f) && DirtyCount(t) == 2 && !Dirty(t)
  {
    hide Ptrs, PtrsIn, OwnedIn, DirtyCountIn, Flagged, Placed, InSync, AnyDirty, IsFree, Disjoint, Written, DirtyCount, Owned;
    var t, cs := TwoChanged(l, i, j, a, b, maxes), l.node.children;
    StoredAboveLeaves(l, f, d);
    ChangedMarked(l, i, j, a, b, maxes);
    ChangedBlocks(cs, i, a);
    ChangedBlocks(cs[i := Link(cs[i].ptr, Leave(a, true))], j, b);
    PtrsNode(l.ptr, cs, l.node.maxes, l.node.dirty, l.node.dirtyChildren);
    SameBlocks(l, t, f);
  }

  /** A new leave in the place of two neighbours. */
  lemma JoinedBlocks(cs: seq<Link>, m: nat, files: seq<Nodes.File>)
    requires m + 1 < |cs| && OwnedIn(cs)
    ensures var ds := cs[..m] + [Link(None, Leave(files, true))] + cs[m + 2..];
            OwnedIn(ds) && PtrsIn(ds) <= PtrsIn(cs) && (DirtyCountIn(cs) == 0 ==> DirtyCountIn(ds) == 1)
  {
    hide PtrsIn, OwnedIn, DirtyCountIn;
    var pre, mid, post, one := cs[..m], cs[m..m + 2], cs[m + 2..], [Link(None, Leave(files, true))];
    assert cs == pre + mid + post;
    NewLeaveBlocks(files);
    AppendBlocks(pre + mid, post);
    AppendBlocks(pre, mid);
    AppendBlocks(pre + one, post);
    AppendBlocks(pre, one);
  }

  lemma JoinedMarked(l: Link, m: nat, files: seq<Nodes.File>)
    requires Shallow(l) && l.node.Inner? && m + 1 < |l.node.children| && l.ptr.Some? && AllStored(l.node.children)
    ensures var t := JoinedLink(l, m, files); Flagged(t) && Placed(t) && AnyDirty(t)
  {
    hide JoinedLink;
    var t := JoinedLink(l, m, files);
    JoinedLinkAt(l, m, files, m);
    var cs, ts := l.node.children, t.node.children;
    forall k | 0 <= k < |ts| ensures ts[k].node.Leave? && (ts[k].ptr.None? ==> Dirty(ts[k])) { JoinedLinkAt(l, m, files, k); }
    JoinedFlags(l, m, files);
    MarkedAboveLeaves(t, m);
  }

  lemma JoinedFlags(l: Link, m: nat, files: seq<Nodes.File>)
    requires l.node.Inner? && m + 1 < |l.node.children| == |l.node.maxes|
    ensures var t := JoinedLink(l, m, files);
            t.ptr == l.ptr && t.node.Inner? && t.node.dirty == l.node.dirty && t.node.dirtyChildren
  {
  }

  lemma JoinedReady(l: Link, m: nat, files: seq<Nodes.File>, f: seq<BlockGroup>, d: map<nat, Block>)
    requires AboveLeaves(l, f, d) && m + 1 < |l.node.children|
    ensures var t := JoinedLink(l, m, files); Ready(t, f) && DirtyCount(t) == 1 && !Dirty(t)
  {
    hide Ptrs, PtrsIn, OwnedIn, DirtyCountIn, Flagged, Placed, InSync, AnyDirty, IsFree, Disjoint, Written, DirtyCount, Owned;
    var t, cs := JoinedLink(l, m, files), l.node.children;
    StoredAboveLeaves(l, f, d);
    PtrsNode(l.ptr, cs, l.node.maxes, l.node.dirty, l.node.dirtyChildren);
    JoinedBlocks(cs, m, files);
    JoinedMarked(l, m, files);
    SameBlocks(l, t, f);
  }

  lemma SplitMarked(l: Link, i: nat, a: seq<Nodes.File>, border: Nodes.FileId, b: seq<Nodes.File>,
                    max: Nodes.FileId, f: seq<BlockGroup>, d: map<nat, Block>)
    requires AboveLeaves(l, f, d) && i < |l.node.children|
    ensures var t := SplitLink(l, i, a, border, b, max);
            Flagged(t) && Placed(t) && AnyDirty(t) && InSync(t, d) && Closed(t)
  {
    StoredAboveLeaves(l, f, d);
    hide SplitLink, Flagged, Placed, AnyDirty, DirtyCountIn, Ptrs, OnDevice;
    var t := SplitLink(l, i, a, border, b, max);
    SplitLinkAt(l, i, a, border, b, max, i);
    forall k | 0 <= k < |t.node.children|
      ensures && t.node.children[k].node.Leave? && InSync(t.node.children[k], d)
              && (t.node.children[k].ptr.None? ==> Dirty(t.node.children[k]))
    {
      SplitLinkAt(l, i, a, border, b, max, k);
    }
    MarkedAboveLeaves(t, i);
  }

  lemma SplitReady(l: Link, i: nat, a: seq<Nodes.File>, border: Nodes.FileId, b: seq<Nodes.File>,
                   max: Nodes.FileId, f: seq<BlockGroup>, d: map<nat, Block>)
    requires AboveLeaves(l, f, d) && i < |l.node.children|
    ensures var t := SplitLink(l, i, a, border, b, max); RootReady(t, f, d) && DirtyCount(t) == 3
  {
    hide Ptrs, PtrsIn, OwnedIn, DirtyCountIn, Flagged, Placed, InSync, AnyDirty, IsFree, Disjoint, Written, DirtyCount, Owned,
         Closed, Sequences.InsertAt;
    var t, cs := SplitLink(l, i, a, border, b, max), l.node.children;
    StoredAboveLeaves(l, f, d);
    PtrsNode(l.ptr, cs, l.node.maxes, l.node.dirty, l.node.dirtyChildren);
    ChangedBlocks(cs, i, a);
    InsertLeaveBlocks(cs[i := Link(cs[i].ptr, Leave(a, true))], i + 1, b);
    SplitMarked(l, i, a, border, b, max, f, d);
    SameBlocks(l, t, f);
  }

  lemma SplitRootReady(l: Link, a: seq<Nodes.File>, border: Nodes.FileId, b: seq<Nodes.File>,
                       f: seq<BlockGroup>, d: map<nat, Block>)
    requires l.node.Leave? && Disjoint(f)
    ensures var t := Apply(l, SplitRoot(a, border, b)); RootReady(t, f, d) && DirtyCount(t) == 3
  {
    hide Disjoint, IsFree;
    var t := Apply(l, SplitRoot(a, border, b));
    var x, y := Link(None, Leave(a, true)), Link(None, Leave(b, true));
    assert t.node.children == [x] + [y];
    NewLeaveBlocks(a);
    NewLeaveBlocks(b);
    AppendBlocks([x], [y]);
    PtrsNode(t.ptr, t.node.children, t.node.maxes, true, true);
    assert InSync(x, d) && InSync(y, d) && Closed(x) && Closed(y);
    assert Ptrs(t) == {} && InUse(f, Ptrs(t));
    assert Owned(t);
    assert Dirty(t.node.children[0]);
    MarkedAboveLeaves(t, 0);
    assert InSync(t, d) && Closed(t);
  }

  lemma PromotionReady(files: seq<Nodes.File>, f: seq<BlockGroup>, d: map<nat, Block>)
    requires Disjoint(f)
    ensures var t := Link(None, Leave(files, true)); RootReady(t, f, d) && DirtyCount(t) == 1
  {
  }

  // ----- Two changed leaves: the second write can take the block the first gave back -----

  /** The free list after a block is taken and `b` given back. */
  ghost function Swapped(f: seq<BlockGroup>, b: nat): seq<BlockGroup>
    requires HasGroup(f, 1)
  {
    FreeGroup(WithoutFirst(f, BestFor(f, 1)), BlockGroup(b, 1))
  }

  /** The block given back is the next one taken. */
  ghost predicate Recycles(f: seq<BlockGroup>, b: nat) {
    HasGroup(f, 1) && HasGroup(Swapped(f, b), 1) && Swapped(f, b)[BestFor(Swapped(f, b), 1)].start == b
  }

  /** That is: there is a free block behind it, the block before it is in use, and no single free block stands further
      in front. */
  lemma RecyclesExactly(f: seq<BlockGroup>, b: nat)
    requires Disjoint(f) && !IsFree(f, b) && b + 1 < U64_MAX && HasGroup(f, 1)
    ensures var g := WithoutFirst(f, BestFor(f, 1));
            Recycles(f, b) <==> && (exists k :: 0 <= k < |g| && g[k].start > b)
                                && forall k :: 0 <= k < |g| && g[k].start < b ==> g[k].count > 1 && g[k].start + g[k].count != b
  {
    hide WithoutFirst, IsFree, Disjoint, HasGroup;
    var i := BestFor(f, 1);
    var g := WithoutFirst(f, i);
    TakenBest(f);
    NextTaken(g, b);
  }

  lemma TakenBest(f: seq<BlockGroup>)
    requires Disjoint(f) && HasGroup(f, 1)
    ensures var i := BestFor(f, 1);
            var g := WithoutFirst(f, i);
            && Disjoint(g) && IsFree(f, f[i].start) && f[i].start + 1 < U64_MAX
            && forall x :: IsFree(g, x) <==> IsFree(f, x) && x != f[i].start
  {
    var i := BestFor(f, 1);
    var g := WithoutFirst(f, i);
    assert AllocatesGroup(f, g, 1, BlockGroup(f[i].start, 1), i);
    hide IsFree, Disjoint, AllocatesGroup, WithoutFirst, BestFor;
    TakeOne(f, g, BlockGroup(f[i].start, 1), i);
  }

  lemma NextTaken(g: seq<BlockGroup>, b: nat)
    requires Disjoint(g) && !IsFree(g, b) && b + 1 < U64_MAX
    ensures var h := FreeGroup(g, BlockGroup(b, 1));
            HasGroup(h, 1) && h[BestFor(h, 1)].start == b
            <==> && (exists k :: 0 <= k < |g| && g[k].start > b)
                 && forall k :: 0 <= k < |g| && g[k].start < b ==> g[k].count > 1 && g[k].start + g[k].count != b
  {
    var one := BlockGroup(b, 1);
    var h := FreeGroup(g, one);
    var k := FreeFromStops(g, one, 0);
    StartsElsewhere(g, b);
    hide FreeGroup, IsFree;
    if k < |g| && g[k].start > b {
      InsertedAt(g, k, one);
      hide Sequences.InsertAt, BestFor;
      InsertedIsNext(g, b, k, h);
    } else {
      hide BestFor;
      assert forall m :: 0 <= m < |h| ==> h[m].start == g[m].start;
    }
  }

  lemma StartsElsewhere(g: seq<BlockGroup>, b: nat)
    requires Disjoint(g) && !IsFree(g, b)
    ensures forall m :: 0 <= m < |g| ==> g[m].start != b && g[m].count >= 1
  {
    forall m | 0 <= m < |g| ensures g[m].start != b && g[m].count >= 1 {
      assert InGroup(g[m].start, g[m]);
    }
  }

  lemma InsertedIsNext(g: seq<BlockGroup>, b: nat, k: nat, h: seq<BlockGroup>)
    requires Disjoint(g) && k < |g| && g[k].start > b && |h| == |g| + 1 && h[k] == BlockGroup(b, 1)
    requires forall m :: 0 <= m < |g| ==> g[m].start != b && g[m].count >= 1
    requires forall m :: 0 <= m < k ==> h[m] == g[m] && g[m].start < b && g[m].start + g[m].count != b
    requires forall m :: k < m < |h| ==> h[m] == g[m - 1]
    ensures HasGroup(h, 1)
    ensures h[BestFor(h, 1)].start == b
            <==> forall m :: 0 <= m < |g| && g[m].start < b ==> g[m].count > 1 && g[m].start + g[m].count != b
  {
    assert h[k].count >= 1;
    var i := BestFor(h, 1);
    assert h[i].count == 1;
    assert i <= k;
    forall m | k <= m < |g| ensures g[m].start > b {
      if m > k { assert g[k].start + g[k].count <= g[m].start; }
    }
    if i < k {
      assert g[i].count == 1 && g[i].start < b;
    } else {
      forall m | 0 <= m < |g| && g[m].start < b ensures g[m].count > 1 && g[m].start + g[m].count != b {
        assert h[m] == g[m];
      }
    }
  }

  /** All free space behind the tree: the block that is given back is used at once. */
  lemma RecycleExample()
    ensures Recycles([BlockGroup(10, 5)], 2)
  {
    var f := [BlockGroup(10, 5)];
    assert f[0].count >= 1;
    assert BestFor(f, 1) == 0;
    assert WithoutFirst(f, 0) == [BlockGroup(11, 4)];
    assert !IsFree(f, 2);
    RecyclesExactly(f, 2);
    assert WithoutFirst(f, BestFor(f, 1))[0].start > 2;
  }

  /** A stretch of clean leaves is passed over. */
  lemma {:induction false} FlushSkips(cs: seq<Link>, i: nat, j: nat, s: Disk, rs: seq<Link>, e: Disk)
    requires i <= j <= |cs| && FlushAll(cs[..i], s) == Some((rs, e))
    requires forall k :: i <= k < j ==> cs[k].node.Leave? && !Dirty(cs[k])
    ensures FlushAll(cs[..j], s) == Some((rs + cs[i..j], e))
    decreases j
  {
    hide FlushAll;
    if i == j {
      assert rs + cs[i..j] == rs;
    } else {
      FlushSkips(cs, i, j - 1, s, rs, e);
      FlushAllSnoc(cs, j - 1, s);
      assert rs + cs[i..j] == rs + cs[i..j - 1] + [cs[j - 1]];
    }
  }

  /** The disk after writing two leaves, one after the other. */
  ghost function TwoSaves(x: Option<nat>, a: seq<Nodes.File>, y: Option<nat>, b: seq<Nodes.File>, s: Disk): Option<Disk> {
    var v := SaveOf(x, TreeLeave(a), s);
    if v.None? then None
    else
      var w := SaveOf(y, TreeLeave(b), v.value.1);
      if w.None? then None else Some(w.value.1)
  }

  lemma DirtyLeave(l: Link, s: Disk)
    requires l.node.Leave? && Dirty(l)
    ensures var w := SaveOf(l.ptr, TreeLeave(l.node.files), s);
            if w.None? then FlushOf(l, s).None? else FlushOf(l, s).Some? && FlushOf(l, s).value.1 == w.value.1
  {
    hide SaveOf;
  }

  lemma FlushAllTwo(ts: seq<Link>, i: nat, j: nat, s: Disk)
    requires i < j < |ts| && Dirty(ts[i]) && Dirty(ts[j])
    requires forall k :: 0 <= k < |ts| ==> ts[k].node.Leave? && (k != i && k != j ==> !Dirty(ts[k]))
    ensures var c, w := FlushAll(ts, s), TwoSaves(ts[i].ptr, ts[i].node.files, ts[j].ptr, ts[j].node.files, s);
            if w.None? then c.None? else c.Some? && c.value.1 == w.value
  {
    hide FlushAll, SaveOf, FlushOf;
    FlushNothing(s);
    assert ts[..0] == [] && ts[..|ts|] == ts;
    FlushSkips(ts, 0, i, s, [], s);
    FlushAllSnoc(ts, i, s);
    DirtyLeave(ts[i], s);
    var v := SaveOf(ts[i].ptr, TreeLeave(ts[i].node.files), s);
    if v.None? {
      FlushAllStops(ts, i + 1, s);
    } else {
      FlushSkips(ts, i + 1, j, s, FlushAll(ts[..i + 1], s).value.0, v.value.1);
      FlushAllLast(ts, j, s, v.value.1);
    }
  }

  lemma FlushAllLast(ts: seq<Link>, j: nat, s: Disk, e: Disk)
    requires j < |ts| && Dirty(ts[j]) && ts[j].node.Leave? && FlushAll(ts[..j], s).Some? && FlushAll(ts[..j], s).value.1 == e
    requires forall k :: j < k < |ts| ==> ts[k].node.Leave? && !Dirty(ts[k])
    ensures var c, w := FlushAll(ts, s), SaveOf(ts[j].ptr, TreeLeave(ts[j].node.files), e);
            if w.None? then c.None? else c.Some? && c.value.1 == w.value.1
  {
    hide FlushAll, SaveOf, FlushOf;
    assert ts[..|ts|] == ts;
    FlushAllSnoc(ts, j, s);
    DirtyLeave(ts[j], e);
    var w := SaveOf(ts[j].ptr, TreeLeave(ts[j].node.files), e);
    if w.None? {
      FlushAllStops(ts, j + 1, s);
    } else {
      FlushSkips(ts, j + 1, |ts|, s, FlushAll(ts[..j + 1], s).value.0, w.value.1);
    }
  }

  lemma SaveOfMoves(was: Option<nat>, block: Block, s: Disk)
    requires Disjoint(s.free) && SaveOf(was, block, s).Some? && InUse(s.free, SetOf(was))
    ensures var (p, e) := SaveOf(was, block, s).value;
            && Moves(s.free, s.blocks, SetOf(was), e.free, e.blocks, {p}) && was != Some(p) && IsFree(s.free, p)
            && e.blocks == s.blocks[p := block]
  {
    SaveKeepsUsed(was, block, s);
    var i := BestFor(s.free, 1);
    var g := WithoutFirst(s.free, i);
    assert AllocatesGroup(s.free, g, 1, BlockGroup(s.free[i].start, 1), i);
    assert was.Some? ==> was.value in SetOf(was);
    hide IsFree, Disjoint, AllocatesGroup, WithoutFirst, BestFor, FreeGroup, Moves;
    SaveMoves(s.free, s.blocks, was, g, BlockGroup(s.free[i].start, 1), i, SaveOf(was, block, s).value.1.free, block);
  }

  /** Two writes leave all blocks in use alone, unless the second goes where the first leave was. */
  lemma TwoSavesExact(x: nat, a: seq<Nodes.File>, y: Option<nat>, b: seq<Nodes.File>, s: Disk)
    requires InUse(s.free, {x} + SetOf(y)) && Some(x) != y && TwoSaves(Some(x), a, y, b, s).Some?
    ensures var e := TwoSaves(Some(x), a, y, b, s).value;
            && (!Recycles(s.free, x) ==> KeepsUsed(s, e))
            && (Recycles(s.free, x) ==> x in e.blocks && e.blocks[x] == TreeLeave(b)
                                        && forall z: nat :: z != x && !IsFree(s.free, z) ==> SameBlock(s.blocks, e.blocks, z))
  {
    hide IsFree, Disjoint;
    var (p, s1) := SaveOf(Some(x), TreeLeave(a), s).value;
    SaveOfMoves(Some(x), TreeLeave(a), s);
    assert InUse(s1.free, SetOf(y));
    var (q, e) := SaveOf(y, TreeLeave(b), s1).value;
    SaveOfMoves(y, TreeLeave(b), s1);
    SecondBlock(Some(x), TreeLeave(a), y, TreeLeave(b), s);
    assert q == x <==> Recycles(s.free, x);
    assert IsFree(s.free, q) || q == x;
  }

  lemma SecondBlock(x: Option<nat>, a: Block, y: Option<nat>, b: Block, s: Disk)
    requires x.Some? && SaveOf(x, a, s).Some? && SaveOf(y, b, SaveOf(x, a, s).value.1).Some?
    ensures SaveOf(y, b, SaveOf(x, a, s).value.1).value.0 == x.value <==> Recycles(s.free, x.value)
  {
    hide FreeGroup, WithoutFirst, BestFor;
  }

  // ----- Flushing a change -----

  /** The blocks `s` that are in use and not in the flushed tree: they are not free afterwards, and the tree does not
      have them. */
  ghost predicate Abandoned(s: set<nat>, t: Link, r: Link, g: seq<BlockGroup>) {
    forall x :: x in s && x !in Ptrs(t) ==> !IsFree(g, x) && x !in Ptrs(r)
  }

  lemma NeverFreed(s: set<nat>, t: Link, r: Link, f: seq<BlockGroup>, d: map<nat, Block>, g: seq<BlockGroup>, e: map<nat, Block>)
    requires InUse(f, s) && Result(t, r, f, d, g, e)
    ensures Abandoned(s, t, r, g)
  {
    hide IsFree, Disjoint, Ptrs, Owned, Flushed;
  }

  /** Flushing a tree whose root is marked: the device has what memory has. */
  method FlushMarked(t: Link, ghost s: set<nat>, allocator: BlockAllocator, dev: Device) returns (ok: bool, r: Link)
    requires RootReady(t, allocator.free, dev.blocks) && InUse(allocator.free, s)
    modifies allocator, dev
    ensures FreeCount(old(allocator.free)) >= DirtyCount(t) ==> ok
    ensures FreeCount(old(allocator.free)) == 0 ==> !ok
    ensures ok ==> SameContents(t, r) && !AnyDirty(r) && Mirrors(r, dev.blocks) && Abandoned(s, t, r, allocator.free)
    ensures Flushes(t, Disk(old(allocator.free), old(dev.blocks)), ok, r, Disk(allocator.free, dev.blocks))
  {
    hide Owned, InUse, Moves, Mirrors, InSync, Closed, Flagged, AnyDirty, DirtyCount, FreeCount, SameContents, Placed, Abandoned;
    ghost var f, d := allocator.free, dev.blocks;
    ok, r := Flush(t, allocator, dev);
    if ok { NeverFreed(s, t, r, f, d, allocator.free, dev.blocks); }
  }

  /** The tree with other files in leave `i`. */
  function Mixed(n: Nodes.MemNode, i: nat, b: seq<Nodes.File>): Nodes.MemNode
    requires n.Node? && i < |n.children|
  {
    Nodes.Node(n.parent, n.children[i := Nodes.Link(Nodes.Leave(Nodes.Holder, b), n.children[i].max)])
  }

  /** Flushing two changed leaves below a root that is not marked. The device does not get them: what is loaded is the
      tree of before, or, if the second write takes the block that the first gave back, that tree with the second leave
      in the place of the first. */
  method FlushTwo(l: Link, i: nat, j: nat, a: seq<Nodes.File>, b: seq<Nodes.File>,
                  maxes: seq<Option<Nodes.FileId>>, allocator: BlockAllocator, dev: Device)
    returns (ok: bool, r: Link)
    requires AboveLeaves(l, allocator.free, dev.blocks) && i < j < |l.node.children|
    modifies allocator, dev
    ensures FreeCount(old(allocator.free)) >= 2 ==> ok
    ensures FreeCount(old(allocator.free)) == 0 ==> !ok
    ensures ok ==> SameContents(TwoChanged(l, i, j, a, b, maxes), r) && !AnyDirty(r) && r.ptr == l.ptr
    ensures Flushes(TwoChanged(l, i, j, a, b, maxes), Disk(old(allocator.free), old(dev.blocks)), ok, r, Disk(allocator.free, dev.blocks))
    ensures ok ==> l.node.children[i].ptr.Some? && |Project(l, Nodes.NoParent).children| == |l.node.children|
    ensures ok ==> Loads(dev.blocks, l.ptr, Nodes.NoParent,
                         if Recycles(old(allocator.free), l.node.children[i].ptr.value) then Mixed(Project(l, Nodes.NoParent), i, b)
                         else Project(l, Nodes.NoParent))
  {
    hide Owned, InUse, Moves, Mirrors, InSync, Closed, Flagged, AnyDirty, DirtyCount, FreeCount, SameContents, Placed, Loads,
         Written, Project, Recycles, FlushOf, OnDevice;
    var t := TwoChanged(l, i, j, a, b, maxes);
    TwoReady(l, i, j, a, b, maxes, allocator.free, dev.blocks);
    StoredAboveLeaves(l, allocator.free, dev.blocks);
    SameChildren(l, Nodes.NoParent, Nodes.NoParent);
    ghost var s := Disk(allocator.free, dev.blocks);
    ok, r := Flush(t, allocator, dev);
    if ok { TwoOutcome(l, i, j, a, b, maxes, s, Disk(allocator.free, dev.blocks)); }
  }

  lemma TwoOutcome(l: Link, i: nat, j: nat, a: seq<Nodes.File>, b: seq<Nodes.File>,
                   maxes: seq<Option<Nodes.FileId>>, s: Disk, e: Disk)
    requires AboveLeaves(l, s.free, s.blocks) && i < j < |l.node.children| && l.node.children[i].ptr.Some?
    requires FlushOf(TwoChanged(l, i, j, a, b, maxes), s).Some? && FlushOf(TwoChanged(l, i, j, a, b, maxes), s).value.1 == e
    ensures |Project(l, Nodes.NoParent).children| == |l.node.children|
    ensures Loads(e.blocks, l.ptr, Nodes.NoParent,
                  if Recycles(s.free, l.node.children[i].ptr.value) then Mixed(Project(l, Nodes.NoParent), i, b)
                  else Project(l, Nodes.NoParent))
  {
    var cs, x := l.node.children, l.node.children[i].ptr.value;
    SameChildren(l, Nodes.NoParent, Nodes.NoParent);
    StoredAboveLeaves(l, s.free, s.blocks);
    ApartBlocks(l, i, j);
    hide Owned, Mirrors, InSync, Closed, Flagged, AnyDirty, DirtyCount, Loads, Written, Project, Recycles, SaveOf, KeepsUsed,
         OnDevice, Ptrs, DirtyCountIn;
    var t := TwoChanged(l, i, j, a, b, maxes);
    FlushAllTwo(t.node.children, i, j, s);
    assert TwoSaves(cs[i].ptr, a, cs[j].ptr, b, s) == Some(e);
    TwoInUse(l, i, j, s.free, s.blocks);
    TwoSavesExact(x, a, cs[j].ptr, b, s);
    if Recycles(s.free, x) {
      MixedLoads(l, i, b, s, e);
    } else {
      StaysOnDevice(l, s, e);
      MirrorsLoads(l, e.blocks, Nodes.NoParent);
    }
  }

  lemma TwoInUse(l: Link, i: nat, j: nat, f: seq<BlockGroup>, d: map<nat, Block>)
    requires AboveLeaves(l, f, d) && i < j < |l.node.children| && l.node.children[i].ptr.Some?
    ensures InUse(f, {l.node.children[i].ptr.value} + SetOf(l.node.children[j].ptr))
  {
    hide IsFree, Disjoint;
    PtrsOfChild(l.node.children, i);
    PtrsOfChild(l.node.children, j);
    OwnPtr(l.node.children[i]);
    OwnPtr(l.node.children[j]);
  }

  lemma {:induction false} ApartIn(cs: seq<Link>, i: nat, j: nat)
    requires OwnedIn(cs) && i < j < |cs| && cs[i].ptr.Some?
    ensures cs[i].ptr != cs[j].ptr
    decreases |cs|
  {
    var n := |cs| - 1;
    if j == n {
      PtrsOfChild(cs[..n], i);
      OwnPtr(cs[i]);
      OwnPtr(cs[j]);
    } else {
      ApartIn(cs[..n], i, j);
    }
  }

  lemma ApartBlocks(l: Link, i: nat, j: nat)
    requires Owned(l) && l.node.Inner? && i < j < |l.node.children| && l.node.children[i].ptr.Some?
    ensures l.node.children[i].ptr != l.node.children[j].ptr && l.node.children[i].ptr != l.ptr
  {
    ApartIn(l.node.children, i, j);
    PtrsOfChild(l.node.children, i);
    OwnPtr(l.node.children[i]);
  }

  /** One leave of the stored tree has been overwritten with another. */
  lemma MixedLoads(l: Link, i: nat, b: seq<Nodes.File>, s: Disk, e: Disk)
    requires AboveLeaves(l, s.free, s.blocks) && i < |l.node.children| == |Project(l, Nodes.NoParent).children|
    requires var x := l.node.children[i].ptr;
             && x.Some? && x.value in e.blocks && e.blocks[x.value] == TreeLeave(b)
             && forall z: nat :: z != x.value && !IsFree(s.free, z) ==> SameBlock(s.blocks, e.blocks, z)
    ensures Loads(e.blocks, l.ptr, Nodes.NoParent, Mixed(Project(l, Nodes.NoParent), i, b))
  {
    var cs, x, n := l.node.children, l.node.children[i].ptr.value, Project(l, Nodes.NoParent);
    StoredAboveLeaves(l, s.free, s.blocks);
    NodeOf(l, Nodes.NoParent);
    RootInUse(l, i, s.free, s.blocks);
    var m := Mixed(n, i, b);
    hide IsFree, Owned, InSync, AnyDirty, DirtyCount, DirtyCountIn, Ptrs, OnDevice, Project;
    forall k | 0 <= k < |cs|
      ensures m.children[k].max == l.node.maxes[k] && Loads(e.blocks, cs[k].ptr, Nodes.Holder, m.children[k].node)
    {
      ProjectChild(l, Nodes.NoParent, k);
      LeaveProject(cs[k]);
      ChildInUse(l, i, k, s.free, s.blocks);
    }
    hide Loads;
    LoadsAbove(l, e.blocks, m);
  }

  lemma LoadsAbove(l: Link, d: map<nat, Block>, n: Nodes.MemNode)
    requires l.node.Inner? && AllStored(l.node.children) && StoredAt(d, l.ptr, TreeNode(PtrList(l.node.children), l.node.maxes))
    requires n.Node? && n.parent == Nodes.NoParent && |n.children| == |l.node.children| == |l.node.maxes|
    requires forall k :: 0 <= k < |n.children| ==>
               n.children[k].max == l.node.maxes[k] && Loads(d, l.node.children[k].ptr, Nodes.Holder, n.children[k].node)
    ensures Loads(d, l.ptr, Nodes.NoParent, n)
  {
    var b := d[l.ptr.value];
    forall k | 0 <= k < |n.children| ensures Loads(d, Some(b.children[k]), Nodes.Holder, n.children[k].node) {
      assert Some(b.children[k]) == l.node.children[k].ptr;
    }
  }

  lemma RootInUse(l: Link, i: nat, f: seq<BlockGroup>, d: map<nat, Block>)
    requires AboveLeaves(l, f, d) && i < |l.node.children| && l.node.children[i].ptr.Some? && l.ptr.Some?
    ensures !IsFree(f, l.ptr.value) && l.ptr != l.node.children[i].ptr
  {
    hide IsFree, Disjoint;
    PtrsOfChild(l.node.children, i);
    OwnPtr(l.node.children[i]);
    OwnPtr(l);
  }

  lemma ChildInUse(l: Link, i: nat, k: nat, f: seq<BlockGroup>, d: map<nat, Block>)
    requires AboveLeaves(l, f, d) && i < |l.node.children| && k < |l.node.children|
    requires l.node.children[i].ptr.Some? && l.node.children[k].ptr.Some?
    ensures k != i ==> !IsFree(f, l.node.children[k].ptr.value) && l.node.children[k].ptr != l.node.children[i].ptr
    ensures StoredAt(d, l.node.children[k].ptr, TreeLeave(l.node.children[k].node.files))
  {
    hide IsFree, Disjoint;
    var cs := l.node.children;
    assert !AnyDirty(cs[k]) && InSync(cs[k], d);
    if k < i { ApartIn(cs, k, i); }
    if i < k { ApartIn(cs, i, k); }
    PtrsOfChild(cs, k);
    OwnPtr(cs[k]);
  }

  /** Moving a file between two leaves, then a flush. */
  method FlushRotated(l: Link, m: nat, a: seq<Nodes.File>, border: Nodes.FileId, b: seq<Nodes.File>,
                      allocator: BlockAllocator, dev: Device)
    returns (ok: bool, r: Link)
    requires AboveLeaves(l, allocator.free, dev.blocks) && m + 1 < |l.node.children|
    modifies allocator, dev
    ensures FreeCount(old(allocator.free)) >= 2 ==> ok
    ensures FreeCount(old(allocator.free)) == 0 ==> !ok
    ensures ok ==> SameContents(RotatedLink(l, m, a, border, b), r) && !AnyDirty(r) && r.ptr == l.ptr
    ensures Flushes(RotatedLink(l, m, a, border, b), Disk(old(allocator.free), old(dev.blocks)), ok, r, Disk(allocator.free, dev.blocks))
    ensures ok ==> l.node.children[m].ptr.Some? && |Project(l, Nodes.NoParent).children| == |l.node.children|
    ensures ok ==> Loads(dev.blocks, l.ptr, Nodes.NoParent,
                         if Recycles(old(allocator.free), l.node.children[m].ptr.value) then Mixed(Project(l, Nodes.NoParent), m, b)
                         else Project(l, Nodes.NoParent))
  {
    hide AboveLeaves, TwoChanged, Loads, Mixed, Project, SameContents, AnyDirty, FreeCount, Recycles;
    assert |l.node.maxes| == |l.node.children| by { AboveLeavesIs(l, allocator.free, dev.blocks); }
    ok, r := FlushTwo(l, m, m + 1, a, b, l.node.maxes[m := Some(border)], allocator, dev);
  }

  lemma AboveLeavesIs(l: Link, f: seq<BlockGroup>, d: map<nat, Block>)
    requires AboveLeaves(l, f, d)
    ensures AllLoaded(l) && l.node.Inner? && |l.node.maxes| == |l.node.children|
  {
  }

  /** Merging two leaves of a root with others left, then a flush: the device still has the tree of before. */
  method FlushJoined(l: Link, m: nat, files: seq<Nodes.File>, allocator: BlockAllocator, dev: Device)
    returns (ok: bool, r: Link)
    requires AboveLeaves(l, allocator.free, dev.blocks) && m + 1 < |l.node.children| && |l.node.children| > 2
    modifies allocator, dev
    ensures ok <==> FreeCount(old(allocator.free)) > 0
    ensures ok ==> SameContents(JoinedLink(l, m, files), r) && !AnyDirty(r) && r.ptr == l.ptr && Mirrors(l, dev.blocks)
                   && Abandoned(Ptrs(l), JoinedLink(l, m, files), r, allocator.free)
    ensures Flushes(JoinedLink(l, m, files), Disk(old(allocator.free), old(dev.blocks)), ok, r, Disk(allocator.free, dev.blocks))
  {
    var t := JoinedLink(l, m, files);
    JoinedReady(l, m, files, allocator.free, dev.blocks);
    assert InUse(allocator.free, Ptrs(l));
    hide Abandoned, Owned, InUse, Moves, Mirrors, InSync, Closed, Flagged, AnyDirty, DirtyCount, FreeCount, SameContents, Placed,
         Written, OnDevice, FlushOf, JoinedLink;
    JoinedFlags(l, m, files);
    ghost var s := Disk(allocator.free, dev.blocks);
    ok, r := Flush(t, allocator, dev);
    if ok {
      FewDirty(t, s);
      StaysOnDevice(l, s, Disk(allocator.free, dev.blocks));
      NeverFreed(Ptrs(l), t, r, s.free, s.blocks, allocator.free, dev.blocks);
    }
  }

  /** Merging leaves the blocks of both leaves behind, a promotion also that of the root, and a split of the root its
      old block. */
  lemma LeftBehind(l: Link, c: Change, f: seq<BlockGroup>, d: map<nat, Block>)
    requires OnDevice(l, f, d) && Shallow(l) && FitsIn(l, c)
    ensures c.Merge? ==> SetOf(l.node.children[c.at].ptr) + SetOf(l.node.children[c.at + 1].ptr) <= Ptrs(l) - Ptrs(Apply(l, c))
    ensures c.Promotion? || c.SplitRoot? ==> Ptrs(Apply(l, c)) == {}
    ensures c.InPlace? || c.Rotation? ==> Ptrs(Apply(l, c)) == Ptrs(l)
  {
    hide Ptrs, JoinedLink, TwoChanged, SplitLink, OnDevice, Shallow;
    match c
    case InPlace(path, files) => TouchedBlocks(l, path, files);
    case Rotation(m, a, border, b) => RotatedKeepsBlocks(l, m, a, border, b);
    case Merge(m, files) =>
      InUseDisjoint(l, f, d);
      JoinedLeaves(l, m, files);
    case SplitRoot(a, border, b) => NewRootBlocks(a, border, b);
    case Promotion(files) => LeavePtrs(Apply(l, c));
    case SplitLeave(_, _, _, _, _) =>
  }

  lemma RotatedKeepsBlocks(l: Link, m: nat, a: seq<Nodes.File>, border: Nodes.FileId, b: seq<Nodes.File>)
    requires Shallow(l) && l.node.Inner? && m + 1 < |l.node.children|
    ensures Ptrs(RotatedLink(l, m, a, border, b)) == Ptrs(l)
  {
    var cs := l.node.children;
    hide PtrsIn, OwnedIn;
    ChangedBlocks(cs, m, a);
    ChangedBlocks(cs[m := Link(cs[m].ptr, Leave(a, true))], m + 1, b);
  }

  lemma NewRootBlocks(a: seq<Nodes.File>, border: Nodes.FileId, b: seq<Nodes.File>)
    ensures Ptrs(Link(None, Inner([Link(None, Leave(a, true)), Link(None, Leave(b, true))], [Some(border), None], true, true))) == {}
  {
    hide PtrsIn;
    var x, y := Link(None, Leave(a, true)), Link(None, Leave(b, true));
    NewLeaveBlocks(a);
    NewLeaveBlocks(b);
    AppendBlocks([x], [y]);
    assert [x, y] == [x] + [y];
  }

  lemma JoinedLeaves(l: Link, m: nat, files: seq<Nodes.File>)
    requires Owned(l) && l.node.Inner? && m + 1 < |l.node.children| == |l.node.maxes|
    ensures SetOf(l.node.children[m].ptr) + SetOf(l.node.children[m + 1].ptr) <= Ptrs(l) - Ptrs(JoinedLink(l, m, files))
  {
    var cs, t := l.node.children, JoinedLink(l, m, files);
    var pre, mid, post, one := cs[..m], cs[m..m + 2], cs[m + 2..], [Link(None, Leave(files, true))];
    assert cs == pre + mid + post && t.node.children == pre + one + post && mid == [cs[m], cs[m + 1]];
    hide PtrsIn, OwnedIn;
    NewLeaveBlocks(files);
    AppendBlocks(pre + mid, post);
    AppendBlocks(pre, mid);
    AppendBlocks(pre + one, post);
    AppendBlocks(pre, one);
    PtrsOfChild(mid, 0);
    PtrsOfChild(mid, 1);
    OwnPtr(cs[m]);
    OwnPtr(cs[m + 1]);
  }

  // ----- The calls that reach the device -----

  /** Before the call: the root is a leave, or the leave of a new file is full, or the leave of a file to delete is one
      of two and neither can spare a file. */
  predicate Reaches(n: Nodes.MemNode, call: MemTrees.Call) {
    n.Leave?
    || match call
       case Delete(id) =>
         && |n.children| == 2 && |LeaveFiles(n, id)| <= Nodes.LEAVE_MAX_FILE_COUNT / 2
         && !TreeDelete.CanLend(n.children, Nodes.ChildIndex(n.children, id))
       case _ =>
         Nodes.Find(n, call.file.id).None? && |LeaveFiles(n, call.file.id)| >= Nodes.LEAVE_MAX_FILE_COUNT
  }

  /** The call changes the tree: it is no `insert_new` of an id that is there and no `delete` of one that is not. */
  predicate Accepted(n: Nodes.MemNode, call: MemTrees.Call) {
    match call
    case InsertNew(file) => Nodes.Find(n, file.id).None?
    case Update(_) => true
    case Delete(id) => Nodes.Find(n, id).Some?
  }

  /** The change marks the root exactly for these calls. */
  lemma MarksIsReaches(l: Link, call: MemTrees.Call)
    requires Shallow(l) && ChangeOf(l, call).Some?
    ensures Marks(ChangeOf(l, call).value) <==> Reaches(Project(l, Nodes.NoParent), call)
  {
    if l.node.Inner? {
      hide Project, TreeDelete.CanLend;
      var n, cs := Project(l, Nodes.NoParent), l.node.children;
      SameChildren(l, Nodes.NoParent, Nodes.NoParent);
      NodeOf(l, Nodes.NoParent);
      match call
      case Delete(id) => DeleteMarks(l, id);
      case _ => InsertMarks(l, call.file, call.InsertNew?);
    }
  }

  lemma LeaveBelow(n: Nodes.MemNode, id: Nodes.FileId, i: nat, files: seq<Nodes.File>)
    requires n.Node? && i == Nodes.ChildIndex(n.children, id) < |n.children|
    requires n.children[i].node == Nodes.Leave(Nodes.Holder, files)
    ensures LeaveFiles(n, id) == files
    ensures Nodes.Find(n, id).Some? <==> Nodes.Position(files, id).Some?
  {
    hide Nodes.ChildIndex, Nodes.Position;
    var leave := n.children[i].node;
    assert Nodes.LeaveFor(n, id) == Nodes.LeaveFor(leave, id) == Some(leave);
  }

  lemma InsertMarks(l: Link, file: Nodes.File, createOnly: bool)
    requires Shallow(l) && l.node.Inner? && InsertChange(l, file, createOnly).Some?
    ensures var n := Project(l, Nodes.NoParent);
            Marks(InsertChange(l, file, createOnly).value)
            <==> Nodes.Find(n, file.id).None? && |LeaveFiles(n, file.id)| >= Nodes.LEAVE_MAX_FILE_COUNT
  {
    var n, cs := Project(l, Nodes.NoParent), l.node.children;
    SameChildren(l, Nodes.NoParent, Nodes.NoParent);
    hide Project, Nodes.ChildIndex, LeaveFiles, Nodes.Find, Nodes.Position, Sequences.InsertAt, TreeInsert.InsertPosition;
    var i := Nodes.ChildIndex(n.children, file.id);
    ChildFiles(l, i);
    LeaveBelow(n, file.id, i, cs[i].node.files);
  }

  lemma DeleteMarks(l: Link, id: Nodes.FileId)
    requires Shallow(l) && l.node.Inner? && DeleteChange(l, id).Some?
    ensures var n := Project(l, Nodes.NoParent);
            Marks(DeleteChange(l, id).value)
            <==> && |n.children| == 2 && |LeaveFiles(n, id)| <= Nodes.LEAVE_MAX_FILE_COUNT / 2
                 && !TreeDelete.CanLend(n.children, Nodes.ChildIndex(n.children, id))
  {
    var n, cs := Project(l, Nodes.NoParent), l.node.children;
    SameChildren(l, Nodes.NoParent, Nodes.NoParent);
    hide Project, Nodes.ChildIndex, LeaveFiles, Nodes.Find, Nodes.Position, TreeDelete.ChooseMode;
    var i := Nodes.ChildIndex(n.children, id);
    ChildFiles(l, i);
    LeaveBelow(n, id, i, cs[i].node.files);
    var p := Nodes.Position(cs[i].node.files, id).value;
    var rest := Sequences.RemoveAt(cs[i].node.files, p);
    TreeDelete.ModeIs(Nodes.NoParent, LoweredTo(n.children, i, rest), i);
    SameNeighbours(n.children, i, rest);
  }

  lemma SameNeighbours(ns: seq<Nodes.Link>, i: nat, rest: seq<Nodes.File>)
    requires i < |ns|
    ensures TreeDelete.CanLend(LoweredTo(ns, i, rest), i) == TreeDelete.CanLend(ns, i)
  {
  }

  /** A tree of two levels or one, as `Valid` sees it and as it is linked. */
  lemma ShallowFromValid(l: Link, h: nat)
    requires AllLoaded(l) && Nodes.Valid(Project(l, Nodes.NoParent), h) && h <= 1
    ensures Shallow(l)
  {
    if l.node.Inner? {
      var n := Project(l, Nodes.NoParent);
      SameChildren(l, Nodes.NoParent, Nodes.NoParent);
      TreeDelete.TreeKind(n, 0, U64_MAX, h);
      Nodes.TreeIs(n, 0, U64_MAX, h);
      forall k | 0 <= k < |l.node.children| ensures l.node.children[k].node.Leave? {
        ProjectChild(l, Nodes.NoParent, k);
        LeaveInRow(n.children, 0, U64_MAX, k);
      }
    }
  }

  lemma LeaveInRow(cs: seq<Nodes.Link>, lo: int, hi: int, k: nat)
    requires Nodes.Segment(cs, lo, hi, 0) && k < |cs|
    ensures cs[k].node.Leave?
  {
    assert Nodes.Child(cs, k, lo, hi, 0);
  }

  /** A call that changes a valid tree of at most two levels, and does not overflow it, makes the change. */
  lemma ChangeExact(l: Link, h: nat, call: MemTrees.Call)
    requires AllLoaded(l) && Nodes.Valid(Project(l, Nodes.NoParent), h) && h <= 1
    requires Accepted(Project(l, Nodes.NoParent), call) && !MemTrees.Overflows(Project(l, Nodes.NoParent), call)
    ensures Shallow(l) && ChangeOf(l, call).Some? && FitsIn(l, ChangeOf(l, call).value)
    ensures var t := Apply(l, ChangeOf(l, call).value);
            && Shallow(t) && MemTrees.TreeStep(Project(l, Nodes.NoParent), call).Some?
            && MemTrees.TreeStep(Project(l, Nodes.NoParent), call).value.0 == Project(t, Nodes.NoParent)
  {
    hide Project, Nodes.Tree, Nodes.Find, TreeInsert.Insert, TreeDelete.Delete, Shallow, InsertChange, DeleteChange,
         Apply, FitsIn, TreeInsert.SplitsTwice, TreeDelete.Cascades;
    var n := Project(l, Nodes.NoParent);
    ShallowFromValid(l, h);
    match call
    case Delete(id) =>
      MemTrees.ShallowNeverCascades(n, h, id);
      TreeDelete.DeleteExact(n, h, id);
      DeleteChangeExact(l, id);
    case _ =>
      TreeInsert.InsertExact(n, h, call.file, call.InsertNew?);
      InsertChangeExact(l, call.file, call.InsertNew?);
  }

  /** What is on the device after a change that does not mark the root. */
  ghost function Remains(l: Link, c: Change, f: seq<BlockGroup>): Nodes.MemNode
    requires Shallow(l)
  {
    var n := Project(l, Nodes.NoParent);
    if c.Rotation? && n.Node? && c.at < |n.children| && l.node.children[c.at].ptr.Some?
       && Recycles(f, l.node.children[c.at].ptr.value)
    then Mixed(n, c.at, c.b) else n
  }

  /** Flushing a change: it is on the device if it marks the root; otherwise the old root is, with what remains. */
  method FlushChange(l: Link, c: Change, allocator: BlockAllocator, dev: Device) returns (ok: bool, r: Link)
    requires OnDevice(l, allocator.free, dev.blocks) && Shallow(l) && FitsIn(l, c)
    modifies allocator, dev
    ensures FreeCount(old(allocator.free)) >= DirtyCount(Apply(l, c)) ==> ok
    ensures FreeCount(old(allocator.free)) == 0 ==> !ok
    ensures ok ==> SameContents(Apply(l, c), r) && !AnyDirty(r)
    ensures Flushes(Apply(l, c), Disk(old(allocator.free), old(dev.blocks)), ok, r, Disk(allocator.free, dev.blocks))
    ensures ok ==> Abandoned(Ptrs(l), Apply(l, c), r, allocator.free)
    ensures ok && Marks(c) ==> Mirrors(r, dev.blocks)
    ensures ok && !Marks(c) ==> r.ptr == l.ptr && Loads(dev.blocks, l.ptr, Nodes.NoParent, Remains(l, c, old(allocator.free)))
  {
    hide OnDevice, RootReady, Ready, SameContents, AnyDirty, Mirrors, Loads, Project, DirtyCount, FreeCount, Recycles, Mixed,
         AboveLeaves, JoinedLink, SplitLink, TwoChanged, Ptrs, InUse, IsFree;
    ghost var f, d := allocator.free, dev.blocks;
    LeftBehind(l, c, f, d);
    InUseDisjoint(l, f, d);
    IsAboveLeaves(l, f, d);
    match c
    case InPlace(path, files) =>
      TouchedCost(l, path, files, f, d);
      ok, r := FlushTouched(l, path, files, allocator, dev);
      if ok && path != [] { MirrorsLoads(l, dev.blocks, Nodes.NoParent); }
    case SplitRoot(a, border, b) =>
      SplitRootReady(l, a, border, b, f, d);
      ok, r := FlushMarked(Apply(l, c), Ptrs(l), allocator, dev);
    case SplitLeave(i, a, border, b, max) =>
      SplitReady(l, i, a, border, b, max, f, d);
      ok, r := FlushMarked(Apply(l, c), Ptrs(l), allocator, dev);
    case Rotation(m, a, border, b) =>
      TwoReady(l, m, m + 1, a, b, l.node.maxes[m := Some(border)], f, d);
      ok, r := FlushRotated(l, m, a, border, b, allocator, dev);
    case Merge(m, files) =>
      JoinedReady(l, m, files, f, d);
      ok, r := FlushJoined(l, m, files, allocator, dev);
      if ok { MirrorsLoads(l, dev.blocks, Nodes.NoParent); }
    case Promotion(files) =>
      PromotionReady(files, f, d);
      ok, r := FlushMarked(Apply(l, c), Ptrs(l), allocator, dev);
  }

  lemma InUseDisjoint(l: Link, f: seq<BlockGroup>, d: map<nat, Block>)
    requires OnDevice(l, f, d)
    ensures Disjoint(f) && InUse(f, Ptrs(l)) && Owned(l)
  {
  }

  lemma IsAboveLeaves(l: Link, f: seq<BlockGroup>, d: map<nat, Block>)
    requires OnDevice(l, f, d) && Shallow(l)
    ensures l.node.Inner? ==> AboveLeaves(l, f, d)
  {
  }

  lemma TouchedCost(l: Link, path: seq<nat>, files: seq<Nodes.File>, f: seq<BlockGroup>, d: map<nat, Block>)
    requires OnDevice(l, f, d) && LeadsToLeave(l, path)
    ensures DirtyCount(Touched(l, path, files)) == 1
  {
    TouchedCount(l, path, files);
  }

  /** A change has at most three nodes to write. */
  lemma CostOf(l: Link, c: Change, f: seq<BlockGroup>, d: map<nat, Block>)
    requires OnDevice(l, f, d) && Shallow(l) && FitsIn(l, c)
    ensures DirtyCount(Apply(l, c)) <= 3
  {
    hide OnDevice, RootReady, Ready, DirtyCount, AboveLeaves, JoinedLink, SplitLink, TwoChanged;
    InUseDisjoint(l, f, d);
    IsAboveLeaves(l, f, d);
    match c
    case InPlace(path, files) => TouchedCost(l, path, files, f, d);
    case SplitRoot(a, border, b) => SplitRootReady(l, a, border, b, f, d);
    case SplitLeave(i, a, border, b, max) => SplitReady(l, i, a, border, b, max, f, d);
    case Rotation(m, a, border, b) => TwoReady(l, m, m + 1, a, b, l.node.maxes[m := Some(border)], f, d);
    case Merge(m, files) => JoinedReady(l, m, files, f, d);
    case Promotion(files) => PromotionReady(files, f, d);
  }

  lemma RightMoves(ns: seq<Nodes.Link>, i: nat, file: Nodes.File)
    requires i < |ns| && TreeDelete.ChooseMode(Nodes.NoParent, ns, i) == TreeDelete.TakeFromRight
    requires RootOf(TreeDelete.RebalanceLeave(Nodes.NoParent, ns, i, file)).Some?
    ensures ns[i].max.Some? && i + 1 < |ns| && ns[i + 1].node.Leave? && ns[i + 1].node.files != []
    ensures ns[i + 1].node.files[0].id > ns[i].max.value
  {
    hide TreeDelete.ChooseMode;
  }

  lemma LeftMoves(cs: seq<Nodes.Link>, k: nat)
    requires Nodes.Segment(cs, 0, U64_MAX, 0) && k + 1 < |cs|
    ensures cs[k].max.Some? && cs[k].node.Leave? && |cs[k].node.files| >= 2
    ensures var a := cs[k].node.files; a[|a| - 2].id < cs[k].max.value
  {
    assert Nodes.Child(cs, k, 0, U64_MAX, 0);
    var a := cs[k].node.files;
    assert a[|a| - 2].id < a[|a| - 1].id;
  }

  /** A deletion that moves a file takes it from the right or from the left. */
  lemma RotationFrom(l: Link, id: Nodes.FileId) returns (i: nat, rest: seq<Nodes.File>, file: Nodes.File)
    requires Shallow(l) && l.node.Inner? && TreeDelete.Delete(Project(l, Nodes.NoParent), id).Ok?
    requires DeleteChange(l, id).Some? && DeleteChange(l, id).value.Rotation?
    ensures i < |l.node.children| == |Project(l, Nodes.NoParent).children|
    ensures var ns := LoweredTo(Project(l, Nodes.NoParent).children, i, rest);
            var mode := TreeDelete.ChooseMode(Nodes.NoParent, ns, i);
            && (mode == TreeDelete.TakeFromRight || mode == TreeDelete.TakeFromLeft)
            && RootOf(TreeDelete.RebalanceLeave(Nodes.NoParent, ns, i, file)).Some?
            && DeleteChange(l, id) == RebalanceChange(l.node.children, mode, i, rest)
  {
    var n, cs := Project(l, Nodes.NoParent), l.node.children;
    SameChildren(l, Nodes.NoParent, Nodes.NoParent);
    NodeOf(l, Nodes.NoParent);
    hide Project, TreeDelete.ChooseMode, Nodes.ChildIndex, Nodes.Position, Sequences.RemoveAt,
         TreeDelete.RebalanceLeave, RootOf, TreeDelete.Delete;
    i := Nodes.ChildIndex(n.children, id);
    ChildFiles(l, i);
    DeleteBelow(n, i, cs[i].node.files, id);
    var p := Nodes.Position(cs[i].node.files, id).value;
    rest, file := Sequences.RemoveAt(cs[i].node.files, p), cs[i].node.files[p];
  }

  /** Moving a file to another leave moves the border between them. */
  lemma RotationMoves(l: Link, id: Nodes.FileId)
    requires AllLoaded(l) && Nodes.Valid(Project(l, Nodes.NoParent), 1) && Shallow(l) && l.node.Inner?
    requires TreeDelete.Delete(Project(l, Nodes.NoParent), id).Ok?
    requires DeleteChange(l, id).Some? && DeleteChange(l, id).value.Rotation?
    ensures var c := DeleteChange(l, id).value; c.at < |l.node.maxes| && l.node.maxes[c.at] != Some(c.border)
  {
    var n := Project(l, Nodes.NoParent);
    SameChildren(l, Nodes.NoParent, Nodes.NoParent);
    Nodes.TreeIs(n, 0, U64_MAX, 1);
    hide Project, Nodes.Segment, TreeDelete.RebalanceLeave, RootOf, TreeDelete.Delete, Nodes.Tree, DeleteChange,
         RebalanceChange, LoweredTo, TreeDelete.ChooseMode;
    var i, rest, file := RotationFrom(l, id);
    if TreeDelete.ChooseMode(Nodes.NoParent, LoweredTo(n.children, i, rest), i) == TreeDelete.TakeFromRight {
      BorderFromRight(l, i, rest, file);
    } else {
      BorderFromLeft(l, i, rest);
    }
  }

  lemma BorderFromRight(l: Link, i: nat, rest: seq<Nodes.File>, file: Nodes.File)
    requires Shallow(l) && l.node.Inner? && i < |l.node.children| == |Project(l, Nodes.NoParent).children|
    requires var ns := LoweredTo(Project(l, Nodes.NoParent).children, i, rest);
             && TreeDelete.ChooseMode(Nodes.NoParent, ns, i) == TreeDelete.TakeFromRight
             && RootOf(TreeDelete.RebalanceLeave(Nodes.NoParent, ns, i, file)).Some?
    ensures var c := RebalanceChange(l.node.children, TreeDelete.TakeFromRight, i, rest);
            c.Some? && c.value.Rotation? && c.value.at < |l.node.maxes| && l.node.maxes[c.value.at] != Some(c.value.border)
  {
    hide Project, TreeDelete.ChooseMode, TreeDelete.RebalanceLeave, RootOf;
    var n := Project(l, Nodes.NoParent);
    RightMoves(LoweredTo(n.children, i, rest), i, file);
    ProjectChild(l, Nodes.NoParent, i);
    ChildFiles(l, i + 1);
  }

  lemma BorderFromLeft(l: Link, i: nat, rest: seq<Nodes.File>)
    requires Shallow(l) && l.node.Inner? && 0 < i < |l.node.children| == |Project(l, Nodes.NoParent).children|
    requires Nodes.Segment(Project(l, Nodes.NoParent).children, 0, U64_MAX, 0)
    ensures var c := RebalanceChange(l.node.children, TreeDelete.TakeFromLeft, i, rest);
            c.Some? && c.value.Rotation? && c.value.at < |l.node.maxes| && l.node.maxes[c.value.at] != Some(c.value.border)
  {
    hide Project, Nodes.Segment;
    var n := Project(l, Nodes.NoParent);
    LeftMoves(n.children, i - 1);
    ProjectChild(l, Nodes.NoParent, i - 1);
    ChildFiles(l, i - 1);
  }

  /** The new border of a rotation is in the new tree, and not in what is stored. */
  lemma RotationUnseen(l: Link, c: Change, f: seq<BlockGroup>)
    requires Shallow(l) && FitsIn(l, c) && c.Rotation? && l.node.maxes[c.at] != Some(c.border) && Shallow(Apply(l, c))
    ensures Project(Apply(l, c), Nodes.NoParent) != Remains(l, c, f)
    ensures Project(Apply(l, c), Nodes.NoParent) != Project(l, Nodes.NoParent)
  {
    var t := Apply(l, c);
    SameChildren(l, Nodes.NoParent, Nodes.NoParent);
    hide Project, Recycles;
    ProjectChild(l, Nodes.NoParent, c.at);
    ProjectChild(t, Nodes.NoParent, c.at);
    assert t.node.maxes[c.at] == Some(c.border);
  }

  /** A change that does not mark the root is not on the device, unless it changes nothing. */
  lemma Unseen(l: Link, h: nat, call: MemTrees.Call, f: seq<BlockGroup>)
    requires AllLoaded(l) && Nodes.Valid(Project(l, Nodes.NoParent), h) && h <= 1
    requires Accepted(Project(l, Nodes.NoParent), call) && !MemTrees.Overflows(Project(l, Nodes.NoParent), call)
    requires Shallow(l) && ChangeOf(l, call).Some? && FitsIn(l, ChangeOf(l, call).value) && !Marks(ChangeOf(l, call).value)
    requires Shallow(Apply(l, ChangeOf(l, call).value))
    ensures var c := ChangeOf(l, call).value;
            Project(Apply(l, c), Nodes.NoParent) == Remains(l, c, f)
            <==> Project(Apply(l, c), Nodes.NoParent) == Project(l, Nodes.NoParent)
  {
    hide Project, Nodes.Tree, Nodes.Find, TreeInsert.InsertInLeave, TreeDelete.Delete, Apply, TreeInsert.SplitsTwice,
         DeleteChange, Recycles, Mixed, Nodes.ChildIndex;
    var n, c := Project(l, Nodes.NoParent), ChangeOf(l, call).value;
    if c.Rotation? {
      MemTrees.ShallowNeverCascades(n, h, call.id);
      TreeDelete.DeleteExact(n, h, call.id);
      TreeDelete.TreeKind(n, 0, U64_MAX, h);
      RotationMoves(l, call.id);
      RotationUnseen(l, c, f);
    }
  }

  /** `insert_new`, `update` or `delete` on a stored tree of at most two levels, then a flush. Memory is clean and has
      the change. The device has it if and only if the root was a leave, a leave was split, or a merge left one leave;
      otherwise what is loaded from the old root is what remains of the tree of before. */
  method ChangeAndFlush(l: Link, call: MemTrees.Call, ghost h: nat, allocator: BlockAllocator, dev: Device)
    returns (ok: bool, r: Link)
    requires OnDevice(l, allocator.free, dev.blocks) && AllLoaded(l)
    requires Nodes.Valid(Project(l, Nodes.NoParent), h) && h <= 1
    requires Accepted(Project(l, Nodes.NoParent), call) && !MemTrees.Overflows(Project(l, Nodes.NoParent), call)
    modifies allocator, dev
    ensures FreeCount(old(allocator.free)) >= 3 ==> ok
    ensures FreeCount(old(allocator.free)) == 0 ==> !ok
    ensures ok ==> AllLoaded(r) && !AnyDirty(r) && MemTrees.TreeStep(Project(l, Nodes.NoParent), call).Some?
                   && MemTrees.TreeStep(Project(l, Nodes.NoParent), call).value.0 == Project(r, Nodes.NoParent)
    ensures ok ==> (Loads(dev.blocks, r.ptr, Nodes.NoParent, Project(r, Nodes.NoParent))
                    <==> || Reaches(Project(l, Nodes.NoParent), call)
                         || Project(r, Nodes.NoParent) == Project(l, Nodes.NoParent))
    ensures Shallow(l) && ChangeOf(l, call).Some? && FitsIn(l, ChangeOf(l, call).value)
    ensures Flushes(Apply(l, ChangeOf(l, call).value), Disk(old(allocator.free), old(dev.blocks)), ok, r, Disk(allocator.free, dev.blocks))
    ensures ok ==> Abandoned(Ptrs(l), Apply(l, ChangeOf(l, call).value), r, allocator.free)
    ensures ok && !Reaches(Project(l, Nodes.NoParent), call) ==>
              && r.ptr == l.ptr
              && Loads(dev.blocks, l.ptr, Nodes.NoParent, Remains(l, ChangeOf(l, call).value, old(allocator.free)))
  {
    hide OnDevice, Loads, Project, FitsIn, Apply, Marks, Reaches, Remains, ChangeOf, Shallow, SameContents, AnyDirty, Mirrors,
         FreeCount, DirtyCount, Accepted, MemTrees.Overflows, MemTrees.TreeStep, Nodes.Valid, Abandoned;
    ChangeExact(l, h, call);
    MarksIsReaches(l, call);
    var c := ChangeOf(l, call).value;
    CostOf(l, c, allocator.free, dev.blocks);
    ghost var f := allocator.free;
    ok, r := FlushChange(l, c, allocator, dev);
    if ok {
      assert AllLoaded(Apply(l, c)) by { ShallowLoaded(Apply(l, c)); }
      SameProject(Apply(l, c), r, Nodes.NoParent);
      if Marks(c) {
        MirrorsLoads(r, dev.blocks, Nodes.NoParent);
      } else {
        Unseen(l, h, call, f);
        OnlyRemains(l, c, f, r, dev.blocks);
      }
    }
  }

  lemma ShallowLoaded(l: Link)
    requires Shallow(l)
    ensures AllLoaded(l)
  {
  }

  /** What is loaded is what remains. */
  lemma OnlyRemains(l: Link, c: Change, f: seq<BlockGroup>, r: Link, d: map<nat, Block>)
    requires Shallow(l) && AllLoaded(r) && Loads(d, l.ptr, Nodes.NoParent, Remains(l, c, f))
    ensures Loads(d, l.ptr, Nodes.NoParent, Project(r, Nodes.NoParent)) <==> Project(r, Nodes.NoParent) == Remains(l, c, f)
  {
    hide Loads, Project, Remains;
    var n := Project(r, Nodes.NoParent);
    if Loads(d, l.ptr, Nodes.NoParent, n) { LoadsUnique(d, l.ptr, Nodes.NoParent, n, Remains(l, c, f)); }
  }
}
