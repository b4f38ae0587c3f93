/** The file tree as a map from ids to files, over whole runs (modules/wasabi-fs/src/mem_tree/mod.rs). */
module MemTrees {
  import opened Machine
  import opened TreeNodes
  import TreeInsert
  import TreeDelete

  class MemTree {
    var root: MemNode

    constructor Empty()
      ensures root == TreeNodes.Empty() && Valid(root, 0) && forall f :: !Holds(root, f)
    {
      root := TreeNodes.Empty();
    }

    /** The walk down to the leave that should contain the id. */
    method FindLeave(id: FileId) returns (leave: Option<MemNode>)
      ensures leave == LeaveFor(root, id)
    {
      var current := root;
      while current.Node?
        invariant LeaveFor(current, id) == LeaveFor(root, id)
        decreases current
      {
        var cs := current.children;
        var i := 0;
        while i < |cs| && cs[i].max.Some? && id > cs[i].max.value
          invariant 0 <= i <= |cs| && ChildIndex(cs, id) == i + ChildIndex(cs[i..], id)
        {
          assert cs[i..][1..] == cs[i + 1..];
          i := i + 1;
        }
        if i == |cs| { return None; }
        current := cs[i].node;
      }
      return Some(current);
    }

    method Find(id: FileId, ghost h: nat) returns (r: Option<File>)
      requires Valid(root, h)
      ensures r.Some? ==> Holds(root, r.value) && r.value.id == id
      ensures r.None? ==> forall f :: Holds(root, f) ==> f.id != id
    {
      hide Tree, Holds;
      forall f ensures TreeNodes.Find(root, id) == Some(f) <==> Holds(root, f) && f.id == id {
        FindExact(root, 0, U64_MAX, h, id, f);
      }
      FindExact(root, 0, U64_MAX, h, id, File(1, 0));
      var leave := FindLeave(id);
      match Position(leave.value.files, id)
      case None => return None;
      case Some(p) => return Some(leave.value.files[p]);
    }

    /** `insert_new` and `update`. A panic leaves the tree in whatever state it was in. */
    method Insert(file: File, createOnly: bool, ghost h: nat) returns (r: TreeInsert.Outcome)
      requires Valid(root, h)
      modifies this
      ensures r.FileNodeExists? <==> createOnly && TreeNodes.Find(old(root), file.id).Some?
      ensures r.FileNodeExists? ==> root == old(root)
      ensures TreeNodes.Find(old(root), file.id).Some? || !TreeInsert.SplitsTwice(old(root), file.id) ==>
                r.FileNodeExists? || (r == TreeInsert.Ok(root) && TreeInsert.Right(old(root), h, file, r))
      ensures TreeNodes.Find(old(root), file.id).None? && TreeInsert.SplitsTwice(old(root), file.id) ==>
                r.Panic? || (r == TreeInsert.Ok(root) && !Ordered(root))
    {
      hide Tree, Ordered, TreeNodes.Find, TreeInsert.SplitsTwice, TreeInsert.InsertInto, Changes;
      TreeInsert.InsertExact(root, h, file, createOnly);
      r := TreeInsert.Insert(root, file, createOnly);
      if r.Ok? { root := r.root; }
    }

    method Delete(id: FileId, ghost h: nat) returns (r: TreeDelete.Outcome)
      requires Valid(root, h)
      modifies this
      ensures r.FileDoesNotExist? <==> TreeNodes.Find(old(root), id).None?
      ensures r.FileDoesNotExist? ==> root == old(root)
      ensures TreeNodes.Find(old(root), id).Some? && !TreeDelete.Cascades(old(root), id) ==>
                r.Ok? && r.root == root && TreeDelete.Right(old(root), h, id, r)
      ensures TreeNodes.Find(old(root), id).Some? && TreeDelete.Cascades(old(root), id) ==>
                r.Panic? || (r.Ok? && r.root == root && !AssertValid(root))
    {
      hide Tree, Sound, TreeNodes.Find, TreeDelete.Cascades, TreeDelete.DeleteFrom, Changes;
      TreeDelete.DeleteExact(root, h, id);
      r := TreeDelete.Delete(root, id);
      if r.Ok? { root := r.root; }
    }
  }

  // Runs

  datatype Call = InsertNew(file: File) | Update(file: File) | Delete(id: FileId)

  datatype Answer = Done | AlreadyThere | Missing | Gave(file: File)

  /** What a call does to the tree; `None` if it panics. */
  function TreeStep(root: MemNode, call: Call): Option<(MemNode, Answer)> {
    match call
    case Delete(id) =>
      (match TreeDelete.Delete(root, id)
       case Ok(r, f) => Some((r, Gave(f)))
       case FileDoesNotExist => Some((root, Missing))
       case Panic => None)
    case _ =>
      match TreeInsert.Insert(root, call.file, call.InsertNew?)
      case Ok(r) => Some((r, Done))
      case FileNodeExists => Some((root, AlreadyThere))
      case Panic => None
  }

  /** What a call should do to the files by id. */
  function MapStep(m: map<FileId, File>, call: Call): (map<FileId, File>, Answer) {
    match call
    case InsertNew(f) => if f.id in m then (m, AlreadyThere) else (m[f.id := f], Done)
    case Update(f) => (m[f.id := f], Done)
    case Delete(id) => if id in m then (m - {id}, Gave(m[id])) else (m, Missing)
  }

  function TreeRun(root: MemNode, calls: seq<Call>): Option<(MemNode, seq<Answer>)>
    decreases |calls|
  {
    if calls == [] then Some((root, []))
    else match TreeStep(root, calls[0])
         case None => None
         case Some((r, a)) =>
           match TreeRun(r, calls[1..])
           case None => None
           case Some((s, answers)) => Some((s, [a] + answers))
  }

  function MapRun(m: map<FileId, File>, calls: seq<Call>): (map<FileId, File>, seq<Answer>)
    decreases |calls|
  {
    if calls == [] then (m, [])
    else
      var (n, a) := MapStep(m, calls[0]);
      var (o, answers) := MapRun(n, calls[1..]);
      (o, [a] + answers)
  }

  /** A run is its first call and the run of the others. */
  lemma RunCons(root: MemNode, m: map<FileId, File>, c: Call, rest: seq<Call>)
    ensures MapRun(m, [c] + rest).1 == [MapStep(m, c).1] + MapRun(MapStep(m, c).0, rest).1
    ensures TreeRun(root, [c] + rest).Some? <==>
            TreeStep(root, c).Some? && TreeRun(TreeStep(root, c).value.0, rest).Some?
    ensures TreeRun(root, [c] + rest).Some? ==>
              TreeRun(root, [c] + rest).value.1
              == [TreeStep(root, c).value.1] + TreeRun(TreeStep(root, c).value.0, rest).value.1
  {
    hide TreeStep, MapStep;
    assert ([c] + rest)[0] == c && ([c] + rest)[1..] == rest;
  }

  /** The tree holds exactly the files of the map, each under its own id. */
  ghost predicate Represents(root: MemNode, m: map<FileId, File>) {
    forall f :: Holds(root, f) <==> f.id in m && m[f.id] == f
  }

  ghost predicate Keyed(m: map<FileId, File>) {
    forall id :: id in m ==> m[id].id == id
  }

  /** With this many files or more the root and a leave below it can be full at the same time. */
  const SAFE_FILE_COUNT: nat := (NODE_MAX_CHILD_COUNT - 1) * (LEAVE_MAX_FILE_COUNT / 2) + LEAVE_MAX_FILE_COUNT

  // Counting files

  /** The files of a row of leaves, from left to right. */
  function Listing(cs: seq<Link>): seq<File> {
    if cs == [] then []
    else Listing(cs[..|cs| - 1]) + (if cs[|cs| - 1].node.Leave? then cs[|cs| - 1].node.files else [])
  }

  function LeaveSizes(cs: seq<Link>, i: nat): nat {
    LEAVE_MAX_FILE_COUNT / 2 * |cs| + if i < |cs| then LEAVE_MAX_FILE_COUNT / 2 else 0
  }

  /** The listing is in order, and as long as the leaves make it. */
  ghost predicate Listed(cs: seq<Link>, lo: int, hi: int, i: nat) {
    && Sorted(Listing(cs)) && Within(Listing(cs), lo, hi) && |Listing(cs)| >= LeaveSizes(cs, i)
    && forall f :: f in Listing(cs) ==> HoldsIn(cs, f)
  }

  lemma {:induction false} ListingSorted(cs: seq<Link>, lo: int, hi: int, i: nat)
    requires Segment(cs, lo, hi, 0) && |cs| > 0
    requires i < |cs| ==> cs[i].node.Leave? && |cs[i].node.files| >= LEAVE_MAX_FILE_COUNT
    ensures Listed(cs, lo, hi, i)
    decreases |cs|
  {
    hide Segment, Listed, Listing;
    var n := |cs| - 1;
    var pre, last := cs[..n], cs[n];
    assert cs == pre + [last];
    if n > 0 {
      SegmentSplit(pre, [last], lo, hi, 0);
      ListingSorted(pre, lo, pre[n - 1].max.value, i);
      SegmentOrder(pre, lo, pre[n - 1].max.value, 0);
      LeaveIs(last, pre[n - 1].max.value, hi);
      ListingStep(pre, last, lo, pre[n - 1].max.value, hi, i);
    } else {
      assert cs == [last];
      LeaveIs(last, lo, hi);
      ListingOne(last, lo, hi, i);
    }
  }

  lemma SegmentOrder(cs: seq<Link>, lo: int, hi: int, h: nat)
    requires Segment(cs, lo, hi, h) && |cs| > 0
    ensures lo < hi
  {
    SegmentBounds(cs, lo, hi, h, 0, |cs|);
  }

  lemma LeaveIs(l: Link, lo: int, hi: int)
    requires Segment([l], lo, hi, 0)
    ensures l.node.Leave? && Sorted(l.node.files) && Within(l.node.files, lo, hi) && lo < hi
    ensures LEAVE_MAX_FILE_COUNT / 2 <= |l.node.files|
  {
    SegmentFirst(l, lo, hi, 0);
  }

  lemma ListingOne(last: Link, lo: int, hi: int, i: nat)
    requires last.node.Leave? && Sorted(last.node.files) && Within(last.node.files, lo, hi)
    requires LEAVE_MAX_FILE_COUNT / 2 <= |last.node.files|
    requires i == 0 ==> |last.node.files| >= LEAVE_MAX_FILE_COUNT
    ensures Listed([last], lo, hi, i)
  {
    assert Listing([last]) == last.node.files;
    forall f | f in last.node.files ensures HoldsIn([last], f) { HoldsOne(last, f); }
  }

  lemma ListingSnoc(pre: seq<Link>, last: Link)
    requires last.node.Leave?
    ensures Listing(pre + [last]) == Listing(pre) + last.node.files
  {
    var cs := pre + [last];
    assert cs[..|cs| - 1] == pre && cs[|cs| - 1] == last;
  }

  lemma ListingStep(pre: seq<Link>, last: Link, lo: int, mid: int, hi: int, i: nat)
    requires Listed(pre, lo, mid, i) && lo < mid < hi
    requires last.node.Leave? && Sorted(last.node.files) && Within(last.node.files, mid, hi)
    requires LEAVE_MAX_FILE_COUNT / 2 <= |last.node.files|
    requires i == |pre| ==> |last.node.files| >= LEAVE_MAX_FILE_COUNT
    ensures Listed(pre + [last], lo, hi, i)
  {
    hide Sorted, Within, HoldsIn, Holds, Listing;
    var cs := pre + [last];
    ListingSnoc(pre, last);
    TreeDelete.JoinSorted(Listing(pre), last.node.files, lo, mid, hi);
    forall f | f in Listing(cs) ensures HoldsIn(cs, f) {
      HoldsAppend(pre, [last], f);
      if f in last.node.files { HoldsLeave(last, f); }
    }
  }

  lemma HoldsLeave(l: Link, f: File)
    requires l.node.Leave? && f in l.node.files
    ensures HoldsIn([l], f)
  {
    HoldsOne(l, f);
  }

  /** Before two levels have to split there are many files. */
  lemma {:induction false} SplitsTwiceCount(n: MemNode, lo: int, hi: int, h: nat, id: FileId) returns (files: seq<File>)
    requires Tree(n, lo, hi, h) && lo < id <= hi && TreeInsert.SplitsTwice(n, id)
    ensures Sorted(files) && |files| >= SAFE_FILE_COUNT && forall f :: f in files ==> Holds(n, f)
    decreases h
  {
    hide Tree, ChildIndex, HoldsIn, Listing;
    Descend(n, lo, hi, h, id);
    var cs, i := n.children, ChildIndex(n.children, id);
    if h == 1 {
      TreeIs(n, lo, hi, 1);
      ListingSorted(cs, lo, hi, i);
      files := Listing(cs);
      forall f | f in files ensures Holds(n, f) { HoldsNode(n, f); }
    } else {
      files := SplitsTwiceCount(cs[i].node, Bot(cs, i, lo, hi), Top(cs[i], hi), h - 1, id);
      forall f | f in files ensures Holds(n, f) { HoldsChild(n, i, f); }
    }
  }

  lemma HoldsNode(n: MemNode, f: File)
    requires n.Node? && HoldsIn(n.children, f)
    ensures Holds(n, f)
  {
  }

  lemma HoldsChild(n: MemNode, i: nat, f: File)
    requires n.Node? && i < |n.children| && Holds(n.children[i].node, f)
    ensures Holds(n, f)
  {
  }

  lemma {:induction false} SortedCount(files: seq<File>, ids: set<FileId>)
    requires Sorted(files) && forall i :: 0 <= i < |files| ==> files[i].id in ids
    ensures |files| <= |ids|
    decreases |files|
  {
    if files != [] {
      var n := |files| - 1;
      forall i | 0 <= i < n ensures files[..n][i].id in ids - {files[n].id} {
        assert files[..n][i] == files[i];
      }
      SortedCount(files[..n], ids - {files[n].id});
    }
  }

  /** A tree with fewer files never has to split two levels. */
  lemma FewFiles(root: MemNode, h: nat, m: map<FileId, File>, id: FileId)
    requires Valid(root, h) && Represents(root, m)
    ensures TreeInsert.SplitsTwice(root, id) ==> |m| >= SAFE_FILE_COUNT
  {
    hide Tree, Holds;
    if TreeInsert.SplitsTwice(root, id) {
      var files := SplitsTwiceCount(root, 0, U64_MAX, h, id);
      forall i | 0 <= i < |files| ensures files[i].id in m.Keys {
        assert files[i] in files;
      }
      SortedCount(files, m.Keys);
      assert |m.Keys| == |m|;
    }
  }

  // Refinement

  lemma FindIsLookup(root: MemNode, h: nat, m: map<FileId, File>, id: FileId)
    requires Valid(root, h) && Represents(root, m) && Keyed(m)
    ensures TreeNodes.Find(root, id) == if id in m then Some(m[id]) else None
  {
    hide Tree, Holds;
    if id in m {
      FindExact(root, 0, U64_MAX, h, id, m[id]);
    } else {
      var r := TreeNodes.Find(root, id);
      if r.Some? { FindExact(root, 0, U64_MAX, h, id, r.value); }
    }
  }

  /** In a tree of at most two levels no node other than the root is ever rebalanced. */
  lemma ShallowNeverCascades(root: MemNode, h: nat, id: FileId)
    requires Valid(root, h) && h <= 1
    ensures !TreeDelete.Cascades(root, id)
  {
    if root.Node? {
      hide Tree;
      Descend(root, 0, U64_MAX, h, id);
    }
  }

  /** The call adds a new file whose leave is full, below a node that is full as well. */
  predicate Overflows(root: MemNode, call: Call) {
    !call.Delete? && TreeNodes.Find(root, call.file.id).None? && TreeInsert.SplitsTwice(root, call.file.id)
  }

  lemma StepRefinesMap(root: MemNode, h: nat, m: map<FileId, File>, call: Call) returns (g: nat)
    requires Valid(root, h) && h <= 1 && Represents(root, m) && Keyed(m) && !Overflows(root, call)
    ensures g <= 1 && Keyed(MapStep(m, call).0)
    ensures TreeStep(root, call).Some? && TreeStep(root, call).value.1 == MapStep(m, call).1
    ensures Valid(TreeStep(root, call).value.0, g) && Represents(TreeStep(root, call).value.0, MapStep(m, call).0)
  {
    hide Tree, Holds, TreeNodes.Find, TreeInsert.SplitsTwice, TreeDelete.Cascades, TreeInsert.Insert, TreeDelete.Delete;
    ValidKind(root, h);
    if call.Delete? {
      FindIsLookup(root, h, m, call.id);
      ShallowNeverCascades(root, h, call.id);
      TreeDelete.DeleteExact(root, h, call.id);
    } else {
      FindIsLookup(root, h, m, call.file.id);
      TreeInsert.InsertExact(root, h, call.file, call.InsertNew?);
    }
    g := if TreeStep(root, call).Some? && TreeStep(root, call).value.0.Node? then 1 else 0;
    if TreeStep(root, call).Some? && TreeStep(root, call).value.0 != root {
      forall k | k <= 1 && Valid(TreeStep(root, call).value.0, k) ensures k == g { ValidKind(TreeStep(root, call).value.0, k); }
    }
  }

  /** The call that overflows panics or leaves wrong borders behind. */
  lemma OverflowBreaks(root: MemNode, h: nat, call: Call)
    requires Valid(root, h) && Overflows(root, call)
    ensures TreeStep(root, call).Some? ==> !Ordered(TreeStep(root, call).value.0)
  {
    hide Tree, Ordered, TreeNodes.Find, TreeInsert.SplitsTwice, TreeInsert.Insert;
    TreeInsert.InsertExact(root, h, call.file, call.InsertNew?);
  }

  lemma ValidOrdered(root: MemNode, h: nat)
    requires Valid(root, h)
    ensures AssertValid(root) && Ordered(root)
  {
    TreeInsert.TreeSound(root, 0, U64_MAX, h);
    SoundOrdered(root);
  }

  /** No call makes a tree of at most two levels taller, unless it breaks it. */
  lemma ShallowStaysShallow(root: MemNode, h: nat, m: map<FileId, File>, call: Call) returns (g: nat)
    requires Valid(root, h) && h <= 1 && Represents(root, m) && Keyed(m)
    requires TreeStep(root, call).Some? && Ordered(TreeStep(root, call).value.0)
    ensures g <= 1 && Valid(TreeStep(root, call).value.0, g)
  {
    hide Valid, Represents, Ordered, TreeStep, Overflows, Keyed;
    if Overflows(root, call) {
      OverflowBreaks(root, h, call);
      assert false;
    } else {
      g := StepRefinesMap(root, h, m, call);
    }
  }

  lemma ValidKind(root: MemNode, h: nat)
    requires Valid(root, h)
    ensures root.Leave? <==> h == 0
  {
  }

  /** No call of the run overflows the tree it is made on. */
  predicate Safe(root: MemNode, calls: seq<Call>)
    decreases |calls|
  {
    calls == []
    || (!Overflows(root, calls[0]) && (TreeStep(root, calls[0]).Some? ==> Safe(TreeStep(root, calls[0]).value.0, calls[1..])))
  }

  /** No call of the run panics or leaves wrong borders. */
  ghost predicate StaysOrdered(root: MemNode, calls: seq<Call>)
    decreases |calls|
  {
    calls == []
    || (TreeStep(root, calls[0]).Some? && Ordered(TreeStep(root, calls[0]).value.0)
        && StaysOrdered(TreeStep(root, calls[0]).value.0, calls[1..]))
  }

  /** A run answers as a map does as long as no call overflows; the first that does breaks the tree. */
  lemma {:induction false} RunRefinesMap(root: MemNode, h: nat, m: map<FileId, File>, calls: seq<Call>) returns (g: nat)
    requires Valid(root, h) && h <= 1 && Represents(root, m) && Keyed(m)
    ensures Safe(root, calls) <==> StaysOrdered(root, calls)
    ensures Safe(root, calls) ==>
              && g <= 1 && TreeRun(root, calls).Some?
              && TreeRun(root, calls).value.1 == MapRun(m, calls).1
              && Valid(TreeRun(root, calls).value.0, g) && Represents(TreeRun(root, calls).value.0, MapRun(m, calls).0)
    decreases |calls|
  {
    hide Valid, Represents, TreeStep, MapStep, Keyed, Overflows, Ordered;
    g := h;
    if calls == [] {
    } else if Overflows(root, calls[0]) {
      OverflowBreaks(root, h, calls[0]);
    } else {
      g := StepRefinesMap(root, h, m, calls[0]);
      var next := TreeStep(root, calls[0]).value.0;
      ValidOrdered(next, g);
      g := RunRefinesMap(next, g, MapStep(m, calls[0]).0, calls[1..]);
    }
  }

  lemma EmptyIsMap()
    ensures Valid(TreeNodes.Empty(), 0) && Represents(TreeNodes.Empty(), map[])
  {
  }

  /** From the empty tree every run of `insert_new`, `update` and `delete` answers as a map does, and keeps the tree
      valid, if and only if no call overflows. */
  lemma TreeIsMap(calls: seq<Call>) returns (g: nat)
    ensures Safe(TreeNodes.Empty(), calls) <==> StaysOrdered(TreeNodes.Empty(), calls)
    ensures Safe(TreeNodes.Empty(), calls) ==>
              && TreeRun(TreeNodes.Empty(), calls).Some?
              && TreeRun(TreeNodes.Empty(), calls).value.1 == MapRun(map[], calls).1
              && Valid(TreeRun(TreeNodes.Empty(), calls).value.0, g)
              && Represents(TreeRun(TreeNodes.Empty(), calls).value.0, MapRun(map[], calls).0)
  {
    hide Valid, Represents, TreeRun, MapRun, Safe, StaysOrdered;
    EmptyIsMap();
    g := RunRefinesMap(TreeNodes.Empty(), 0, map[], calls);
  }

  /** With fewer than 2510 files before each call no call overflows. */
  lemma {:induction false} SmallRunsAreSafe(root: MemNode, h: nat, m: map<FileId, File>, calls: seq<Call>)
    requires Valid(root, h) && h <= 1 && Represents(root, m) && Keyed(m)
    requires forall k :: 0 <= k < |calls| ==> |MapRun(m, calls[..k]).0| < SAFE_FILE_COUNT
    ensures SAFE_FILE_COUNT == 2510 && Safe(root, calls)
    decreases |calls|
  {
    hide Valid, Represents, TreeStep, MapStep, Keyed, Overflows;
    if calls == [] {
    } else {
      assert calls[..0] == [];
      SmallNeverOverflows(root, h, m, calls[0]);
      var g := StepRefinesMap(root, h, m, calls[0]);
      var next, rest := MapStep(m, calls[0]).0, calls[1..];
      forall k | 0 <= k < |rest| ensures |MapRun(next, rest[..k]).0| < SAFE_FILE_COUNT {
        assert calls[..k + 1][0] == calls[0] && calls[..k + 1][1..] == rest[..k];
        assert MapRun(m, calls[..k + 1]).0 == MapRun(next, rest[..k]).0;
      }
      SmallRunsAreSafe(TreeStep(root, calls[0]).value.0, g, next, rest);
    }
  }

  lemma SmallNeverOverflows(root: MemNode, h: nat, m: map<FileId, File>, call: Call)
    requires Valid(root, h) && Represents(root, m) && |m| < SAFE_FILE_COUNT
    ensures !Overflows(root, call)
  {
    hide Valid, Represents, TreeNodes.Find, TreeInsert.SplitsTwice;
    if !call.Delete? { FewFiles(root, h, m, call.file.id); }
  }
}
