/** Trees on which the file tree operations go wrong (modules/wasabi-fs/src/mem_tree/mod.rs). */
module TreeLimits {
  import opened Machine
  import opened Sequences
  import opened TreeNodes
  import TreeInsert
  import TreeDelete
  import MemTrees

  const HALF: nat := NODE_MAX_CHILD_COUNT / 2

  lemma {:induction false} ChildIndexAt(cs: seq<Link>, id: FileId, i: nat)
    requires i < |cs| && (cs[i].max.None? || id <= cs[i].max.value)
    requires forall k :: 0 <= k < i ==> cs[k].max.Some? && cs[k].max.value < id
    ensures ChildIndex(cs, id) == i
    decreases |cs|
  {
    if i > 0 {
      forall k | 0 <= k < i - 1 ensures cs[1..][k].max.Some? && cs[1..][k].max.value < id {
        assert cs[1..][k] == cs[k + 1];
      }
      assert cs[1..][i - 1] == cs[i];
      ChildIndexAt(cs[1..], id, i - 1);
    }
  }

  /** An id in the range of child `i` is above the largest ids of the children before it. */
  lemma BelowRange(cs: seq<Link>, lo: int, hi: int, h: nat, i: nat, x: int)
    requires Segment(cs, lo, hi, h) && i < |cs| && Bot(cs, i, lo, hi) < x <= Top(cs[i], hi)
    ensures forall k :: 0 <= k < i ==> cs[k].max.Some? && cs[k].max.value < x
    ensures forall k :: i <= k < |cs| && cs[k].max.Some? ==> x <= cs[k].max.value
  {
    hide Tree;
    forall k | 0 <= k < i ensures cs[k].max.Some? && cs[k].max.value < x {
      SegmentBounds(cs, lo, hi, h, k + 1, i);
    }
    forall k | i <= k < |cs| && cs[k].max.Some? ensures x <= cs[k].max.value {
      SegmentBounds(cs, lo, hi, h, i + 1, k + 1);
    }
  }

  /** In a node whose child `i` is the leave `left`, an id in the range of that child is looked for in `left` only. */
  lemma LooksLeft(parent: Parent, cs: seq<Link>, i: nat, left: MemNode, id: FileId)
    requires i < |cs| && (cs[i].max.None? || id <= cs[i].max.value)
    requires forall k :: 0 <= k < i ==> cs[k].max.Some? && cs[k].max.value < id
    requires left.Leave? && cs[i].node.Leave? && cs[i].node.files == left.files
    requires forall k :: 0 <= k < |left.files| ==> left.files[k].id != id
    ensures Find(Node(parent, cs), id) == None
  {
    ChildIndexAt(cs, id, i);
    assert LeaveFor(Node(parent, cs), id) == LeaveFor(cs[i].node, id) == Some(cs[i].node);
  }

  lemma LooksBelow(left: MemNode, s: FileId, right: MemNode, id: FileId)
    ensures Find(TreeInsert.NewRoot(left, s, right), id) == if id <= s then Find(left, id) else Find(right, id)
  {
    var root := TreeInsert.NewRoot(left, s, right);
    ChildIndexAt(root.children, id, if id <= s then 0 else 1);
    assert LeaveFor(WithParent(left, Holder), id) == WithParentOf(LeaveFor(left, id), left, Holder);
    assert LeaveFor(WithParent(right, Holder), id) == WithParentOf(LeaveFor(right, id), right, Holder);
  }

  /** Changing the parent pointer of the node the search starts from only shows if that node is the leave found. */
  function WithParentOf(found: Option<MemNode>, start: MemNode, parent: Parent): Option<MemNode> {
    if start.Leave? then Some(WithParent(start, parent)) else found
  }

  /** The split of a full leave below a full root, before the root is split. */
  ghost predicate SplitBelow(root: MemNode, i: nat, left: MemNode, s: FileId, right: MemNode, max: FileId, x: FileId) {
    && root.Node? && |root.children| == NODE_MAX_CHILD_COUNT && i < |root.children|
    && left.Leave? && (forall k :: 0 <= k < |left.files| ==> left.files[k].id != x)
    && (forall k :: 0 <= k < i ==> root.children[k].max.Some? && root.children[k].max.value < x)
    && (forall k :: i <= k < |root.children| && root.children[k].max.Some? ==> x <= root.children[k].max.value)
    && (forall k :: 0 <= k < |root.children| - 1 ==> root.children[k].max.Some?)
  }

  lemma LostInLowHalf(root: MemNode, i: nat, left: MemNode, s: FileId, right: MemNode, max: FileId, x: FileId)
    requires SplitBelow(root, i, left, s, right, max, x) && i + 1 < HALF
    ensures var r := TreeInsert.InsertSplit(NoParent, root.children, i, left, s, right, max);
            r.Split? && Find(TreeInsert.NewRoot(r.left, r.splitId, r.right), x) == None
  {
    var cs := root.children[i := Link(left, root.children[i].max)];
    var link := Link(right, Some(max));
    var low := InsertAt(cs[..HALF], i + 1, link);
    assert forall k :: 0 <= k <= i ==> low[k] == cs[k];
    assert low[HALF] == cs[HALF - 1] == root.children[HALF - 1];
    var r := TreeInsert.InsertSplit(NoParent, root.children, i, left, s, right, max);
    assert r == TreeInsert.SplitNode(NoParent, low, cs[HALF..], max);
    LooksLeft(NoParent, low, i, left, x);
    LooksBelow(r.left, r.splitId, r.right, x);
  }

  lemma LostInHighHalf(root: MemNode, i: nat, left: MemNode, s: FileId, right: MemNode, max: FileId, x: FileId)
    requires SplitBelow(root, i, left, s, right, max, x) && i >= HALF
    ensures var r := TreeInsert.InsertSplit(NoParent, root.children, i, left, s, right, max);
            r.Split? && Find(TreeInsert.NewRoot(r.left, r.splitId, r.right), x) == None
  {
    var cs := root.children[i := Link(left, root.children[i].max)];
    var at := i + 1 - HALF;
    var link := Link(right, TreeInsert.MaxUnlessLast(at, HALF, max));
    var high := InsertAt(cs[HALF..], at, link);
    assert forall k :: 0 <= k < at ==> high[k] == cs[HALF + k];
    var r := TreeInsert.InsertSplit(NoParent, root.children, i, left, s, right, max);
    assert r == TreeInsert.SplitNode(NoParent, cs[..HALF], high, max);
    var moved := Moved(high);
    LooksLeft(NoParent, moved, at - 1, left, x);
    assert cs[..HALF][HALF - 1] == root.children[HALF - 1];
    LooksBelow(r.left, r.splitId, r.right, x);
  }

  lemma PanicsAtTheMiddle(root: MemNode, i: nat, left: MemNode, s: FileId, right: MemNode, max: FileId, x: FileId)
    requires SplitBelow(root, i, left, s, right, max, x) && i + 1 == HALF
    ensures TreeInsert.InsertSplit(NoParent, root.children, i, left, s, right, max) == TreeInsert.Panicked
  {
  }

  /** Of the upper half of the leave, a file other than the new one. */
  lemma OldFileAbove(c: MemNode, lo: int, hi: int, file: File, r: TreeInsert.Insertion) returns (lost: File)
    requires r.Split? && TreeInsert.Inserts(c, lo, hi, 0, file, r)
    ensures Holds(c, lost) && r.splitId < lost.id <= hi && lo < lost.id && r.left.Leave?
    ensures forall k :: 0 <= k < |r.left.files| ==> r.left.files[k].id != lost.id
  {
    var files := r.right.files;
    lost := if files[0] == file then files[1] else files[0];
    assert files[0].id < files[1].id;
    assert Holds(r.right, lost);
  }

  /** With a full leave below a full root, `insert` panics at one place and loses files at all others. */
  lemma SplitTwiceLosesFiles(root: MemNode, file: File, createOnly: bool) returns (lost: File)
    requires Valid(root, 1) && Find(root, file.id).None? && TreeInsert.SplitsTwice(root, file.id)
    ensures var r := TreeInsert.Insert(root, file, createOnly);
            if ChildIndex(root.children, file.id) + 1 == HALF then r == TreeInsert.Panic
            else Holds(root, lost) && r.Ok? && Find(r.root, lost.id) == None
  {
    hide Tree, ChildIndex, Find, TreeInsert.InsertSplit, TreeInsert.InsertInLeave, TreeInsert.Inserts;
    Descend(root, 0, U64_MAX, 1, file.id);
    var cs, i := root.children, ChildIndex(root.children, file.id);
    var c, lo, hi := cs[i].node, Bot(cs, i, 0, U64_MAX), Top(cs[i], U64_MAX);
    var r := TreeInsert.InsertInto(c, file, createOnly);
    SplitOf(c, lo, hi, file, createOnly);
    lost := OldFileAbove(c, lo, hi, file, r);
    MemTrees.HoldsChild(root, i, lost);
    TreeIs(root, 0, U64_MAX, 1);
    BelowRange(cs, 0, U64_MAX, 0, i, lost.id);
    forall k | 0 <= k < |cs| - 1 ensures cs[k].max.Some? { InnerMax(cs, 0, U64_MAX, 0, k); }
    assert SplitBelow(root, i, r.left, r.splitId, r.right, r.rightMax, lost.id);
    if i + 1 < HALF {
      LostInLowHalf(root, i, r.left, r.splitId, r.right, r.rightMax, lost.id);
    } else if i >= HALF {
      LostInHighHalf(root, i, r.left, r.splitId, r.right, r.rightMax, lost.id);
    } else {
      PanicsAtTheMiddle(root, i, r.left, r.splitId, r.right, r.rightMax, lost.id);
    }
  }

  lemma SplitOf(c: MemNode, lo: int, hi: int, file: File, createOnly: bool)
    requires Tree(c, lo, hi, 0) && c.Leave? && lo < file.id <= hi
    requires Find(c, file.id).None? && |c.files| >= LEAVE_MAX_FILE_COUNT
    ensures var r := TreeInsert.InsertInto(c, file, createOnly);
            r.Split? && TreeInsert.Inserts(c, lo, hi, 0, file, r)
  {
    TreeInsert.InsertInLeaveExact(c, lo, hi, file, createOnly);
  }

  // What a caller sees

  /** A file that the search does not find cannot be deleted, whatever the tree looks like. */
  lemma {:induction false} NotFoundNotDeleted(n: MemNode, id: FileId)
    requires Find(n, id) == None
    ensures TreeDelete.DeleteFrom(n, id).Absent? || TreeDelete.DeleteFrom(n, id).Panicked?
    decreases n
  {
    match n
    case Leave(_, files) => assert LeaveFor(n, id) == Some(n);
    case Node(_, cs) =>
      var i := ChildIndex(cs, id);
      if i < |cs| {
        assert Find(n, id) == Find(cs[i].node, id);
        NotFoundNotDeleted(cs[i].node, id);
      }
  }

  /** After a call that overflows, some call panics or gives the wrong answer. */
  lemma OverflowIsSeen(root: MemNode, m: map<FileId, File>, call: MemTrees.Call) returns (next: MemTrees.Call)
    requires Valid(root, 1) && MemTrees.Represents(root, m) && MemTrees.Keyed(m) && MemTrees.Overflows(root, call)
    ensures MemTrees.TreeStep(root, call).Some? ==>
              var t := MemTrees.TreeStep(root, call).value.0;
              MemTrees.TreeStep(t, next).Some? ==>
                MemTrees.TreeStep(t, next).value.1 != MemTrees.MapStep(MemTrees.MapStep(m, call).0, next).1
  {
    hide Tree, Holds, Find, TreeInsert.SplitsTwice, TreeInsert.Insert, ChildIndex, TreeDelete.DeleteFrom;
    var lost := SplitTwiceLosesFiles(root, call.file, call.InsertNew?);
    next := MemTrees.Delete(lost.id);
    MemTrees.FindIsLookup(root, 1, m, call.file.id);
    if MemTrees.TreeStep(root, call).Some? {
      NotFoundNotDeleted(MemTrees.TreeStep(root, call).value.0, lost.id);
    }
  }

  /** A run that overflows can be told from a map: after some of its calls, one more call panics or answers wrongly. */
  lemma {:induction false} UnsafeRunIsSeen(root: MemNode, h: nat, m: map<FileId, File>, calls: seq<MemTrees.Call>)
    returns (k: nat, next: MemTrees.Call)
    requires Valid(root, h) && h <= 1 && MemTrees.Represents(root, m) && MemTrees.Keyed(m)
    requires !MemTrees.Safe(root, calls)
    ensures k <= |calls|
    ensures var run := calls[..k] + [next];
            MemTrees.TreeRun(root, run).Some? ==> MemTrees.TreeRun(root, run).value.1 != MemTrees.MapRun(m, run).1
    decreases |calls|
  {
    hide Valid, MemTrees.Represents, MemTrees.TreeStep, MemTrees.MapStep, MemTrees.Keyed, MemTrees.Overflows,
         MemTrees.TreeRun, MemTrees.MapRun;
    var c := calls[0];
    if MemTrees.Overflows(root, c) {
      OverflowsAtOne(root, h, c);
      next := OverflowIsSeen(root, m, c);
      if MemTrees.TreeStep(root, c).None? {
        k, next := 0, c;
        assert calls[..0] + [c] == [c] + [];
        MemTrees.RunCons(root, m, c, []);
      } else {
        k := 1;
        assert calls[..1] + [next] == [c] + [next];
        MemTrees.RunCons(root, m, c, [next]);
        var t, n := MemTrees.TreeStep(root, c).value.0, MemTrees.MapStep(m, c).0;
        OneCall(t, n, next);
        if MemTrees.TreeRun(t, [next]).Some? {
          ConsDiffers(MemTrees.TreeStep(root, c).value.1, MemTrees.TreeRun(t, [next]).value.1,
                      MemTrees.MapStep(m, c).1, MemTrees.MapRun(n, [next]).1);
        }
      }
    } else {
      var g := MemTrees.StepRefinesMap(root, h, m, c);
      var t, n := MemTrees.TreeStep(root, c).value.0, MemTrees.MapStep(m, c).0;
      UnsafeRest(root, calls);
      k, next := UnsafeRunIsSeen(t, g, n, calls[1..]);
      var rest := calls[1..][..k] + [next];
      assert calls[..k + 1] + [next] == [c] + rest;
      MemTrees.RunCons(root, m, c, rest);
      if MemTrees.TreeRun(t, rest).Some? {
        ConsDiffers(MemTrees.TreeStep(root, c).value.1, MemTrees.TreeRun(t, rest).value.1,
                    MemTrees.MapStep(m, c).1, MemTrees.MapRun(n, rest).1);
      }
      k := k + 1;
    }
  }

  lemma ConsDiffers<T>(a: T, x: seq<T>, b: T, y: seq<T>)
    requires x != y
    ensures [a] + x != [b] + y
  {
    assert ([a] + x)[1..] == x && ([b] + y)[1..] == y;
  }

  lemma UnsafeRest(root: MemNode, calls: seq<MemTrees.Call>)
    requires !MemTrees.Safe(root, calls) && !MemTrees.Overflows(root, calls[0]) && MemTrees.TreeStep(root, calls[0]).Some?
    ensures !MemTrees.Safe(MemTrees.TreeStep(root, calls[0]).value.0, calls[1..])
  {
  }

  lemma OneCall(root: MemNode, m: map<FileId, File>, c: MemTrees.Call)
    ensures MemTrees.MapRun(m, [c]).1 == [MemTrees.MapStep(m, c).1]
    ensures MemTrees.TreeRun(root, [c]).Some? <==> MemTrees.TreeStep(root, c).Some?
    ensures MemTrees.TreeRun(root, [c]).Some? ==> MemTrees.TreeRun(root, [c]).value.1 == [MemTrees.TreeStep(root, c).value.1]
  {
    hide MemTrees.TreeStep, MemTrees.MapStep;
    assert [c] + [] == [c];
    MemTrees.RunCons(root, m, c, []);
  }

  lemma OverflowsAtOne(root: MemNode, h: nat, call: MemTrees.Call)
    requires Valid(root, h) && h <= 1 && MemTrees.Overflows(root, call)
    ensures h == 1
  {
  }

  // Trees that exist

  /** `n` files with the ids behind `base`. */
  function Files(base: nat, n: nat): (r: seq<File>)
    requires base + n <= U64_MAX
    ensures |r| == n && forall j :: 0 <= j < n ==> r[j] == File(base + 1 + j, 0)
  {
    seq(n, j requires 0 <= j < n => File(base + 1 + j, 0))
  }

  const SPACE: nat := 100

  /** A row of half-full leaves, the first of them with `first` files; each leaves ids free above its files. */
  function Row(k0: nat, n: nat, first: nat): (r: seq<Link>)
    requires k0 + n <= 1000 && first <= LEAVE_MAX_FILE_COUNT
    ensures |r| == n
    ensures forall k :: 0 <= k < n ==>
              r[k] == Link(Leave(Holder, Files((k0 + k) * SPACE, if k == 0 then first else LEAVE_MAX_FILE_COUNT / 2)),
                           if k + 1 < n then Some((k0 + k + 1) * SPACE) else None)
  {
    seq(n, k requires 0 <= k < n =>
      Link(Leave(Holder, Files((k0 + k) * SPACE, if k == 0 then first else LEAVE_MAX_FILE_COUNT / 2)),
           if k + 1 < n then Some((k0 + k + 1) * SPACE) else None))
  }

  lemma RowSegment(k0: nat, n: nat, first: nat, hi: nat)
    requires k0 + n <= 1000 && LEAVE_MAX_FILE_COUNT / 2 <= first <= LEAVE_MAX_FILE_COUNT && hi >= (k0 + n) * SPACE
    ensures Segment(Row(k0, n, first), k0 * SPACE, hi, 0)
  {
    hide Row;
    var cs := Row(k0, n, first);
    forall k | 0 <= k < n ensures Child(cs, k, k0 * SPACE, hi, 0) {
      if k > 0 { assert cs[k - 1].max == Some((k0 + k) * SPACE); }
      assert Bot(cs, k, k0 * SPACE, hi) == (k0 + k) * SPACE;
    }
  }

  function FullRoot(): MemNode {
    Node(NoParent, Row(0, NODE_MAX_CHILD_COUNT, LEAVE_MAX_FILE_COUNT))
  }

  /** A valid tree with a full leave below a full root. */
  lemma FullRootSplitsTwice()
    ensures Valid(FullRoot(), 1) && Find(FullRoot(), 50) == None && TreeInsert.SplitsTwice(FullRoot(), 50)
  {
    hide Row;
    RowSegment(0, NODE_MAX_CHILD_COUNT, LEAVE_MAX_FILE_COUNT, U64_MAX);
    var cs := FullRoot().children;
    ChildIndexAt(cs, 50, 0);
    LooksLeft(NoParent, cs, 0, cs[0].node, 50);
  }

  // Ids in ascending order

  /** How many leaves are behind us when the ids 1 to `n` have been inserted in order. */
  function Behind(n: nat): nat {
    if n <= LEAVE_MAX_FILE_COUNT then 0 else (n - LEAVE_MAX_FILE_COUNT / 2 - 1) / (LEAVE_MAX_FILE_COUNT / 2)
  }

  const STEP: nat := LEAVE_MAX_FILE_COUNT / 2

  function HalfLeave(j: nat): Link
    requires j <= 1000
  {
    Link(Leave(Holder, Files(j * STEP, STEP)), Some((j + 1) * STEP))
  }

  function LastLeave(k: nat, r: nat): Link
    requires k <= 1000 && r <= LEAVE_MAX_FILE_COUNT
  {
    Link(Leave(Holder, Files(k * STEP, r)), None)
  }

  /** The children of the root: half-full leaves, and a last leave with `r` files. */
  function Leaves(k: nat, r: nat): (cs: seq<Link>)
    requires k <= 1000 && r <= LEAVE_MAX_FILE_COUNT
  {
    seq(k, j requires 0 <= j < k => HalfLeave(j)) + [LastLeave(k, r)]
  }

  lemma LeavesAre(k: nat, r: nat)
    requires k <= 1000 && r <= LEAVE_MAX_FILE_COUNT
    ensures var cs := Leaves(k, r);
            && |cs| == k + 1 && cs[k] == LastLeave(k, r)
            && forall j :: 0 <= j < k ==> cs[j] == HalfLeave(j)
  {
    hide Files, HalfLeave, LastLeave;
  }

  /** The tree after inserting the ids 1 to `n` in order. */
  function Grown(n: nat): MemNode
    requires n <= MemTrees.SAFE_FILE_COUNT
  {
    if n <= LEAVE_MAX_FILE_COUNT then Leave(NoParent, Files(0, n))
    else Node(NoParent, Leaves(Behind(n), n - Behind(n) * STEP))
  }

  lemma {:induction false} PositionNone(files: seq<File>, id: FileId)
    requires forall k :: 0 <= k < |files| ==> files[k].id < id
    ensures Position(files, id) == None && TreeInsert.InsertPosition(files, id) == |files|
    decreases |files|
  {
    if files == [] {
    } else {
      PositionNone(files[1..], id);
    }
  }

  /** Inserting behind all files of a leave. */
  lemma AppendToLeave(parent: Parent, base: nat, r: nat)
    requires base + r < U64_MAX && r <= LEAVE_MAX_FILE_COUNT
    ensures var files, file := Files(base, r), File(base + r + 1, 0);
            && (r < LEAVE_MAX_FILE_COUNT ==>
                  TreeInsert.InsertInLeave(parent, files, file, true) == TreeInsert.Done(Leave(parent, Files(base, r + 1))))
            && (r == LEAVE_MAX_FILE_COUNT ==>
                  TreeInsert.InsertInLeave(parent, files, file, true)
                  == TreeInsert.Split(Leave(parent, Files(base, STEP)), base + STEP,
                                      Leave(parent, Files(base + STEP, STEP + 1)), base + r + 1))
  {
    var files, file := Files(base, r), File(base + r + 1, 0);
    PositionNone(files, file.id);
    if r < LEAVE_MAX_FILE_COUNT {
      assert InsertAt(files, r, file) == Files(base, r + 1);
    } else {
      assert files[..STEP] == Files(base, STEP);
      assert InsertAt(files[STEP..], STEP, file) == Files(base + STEP, STEP + 1);
    }
  }

  lemma LastChild(k: nat, r: nat, id: FileId)
    requires k <= 1000 && r <= LEAVE_MAX_FILE_COUNT && k * STEP < id
    ensures ChildIndex(Leaves(k, r), id) == k
  {
    LeavesAre(k, r);
    forall j | 0 <= j < k ensures Leaves(k, r)[j].max.Some? && Leaves(k, r)[j].max.value < id {
      assert Leaves(k, r)[j] == HalfLeave(j);
    }
    ChildIndexAt(Leaves(k, r), id, k);
  }

  /** With room in the last leave it takes the file. */
  lemma LastTakes(k: nat, r: nat)
    requires k < NODE_MAX_CHILD_COUNT && r < LEAVE_MAX_FILE_COUNT
    ensures TreeInsert.InsertInto(Node(NoParent, Leaves(k, r)), File(k * STEP + r + 1, 0), true)
            == TreeInsert.Done(Node(NoParent, Leaves(k, r + 1)))
  {
    hide TreeInsert.InsertInLeave, ChildIndex, Files;
    var cs, file := Leaves(k, r), File(k * STEP + r + 1, 0);
    LeavesAre(k, r);
    LastChild(k, r, file.id);
    AppendToLeave(Holder, k * STEP, r);
    assert cs[k := Link(Leave(Holder, Files(k * STEP, r + 1)), None)] == Leaves(k, r + 1);
  }

  /** Otherwise it is split, as long as there is room for another child. */
  lemma LastSplits(k: nat)
    requires k + 1 < NODE_MAX_CHILD_COUNT
    ensures TreeInsert.InsertInto(Node(NoParent, Leaves(k, LEAVE_MAX_FILE_COUNT)), File(k * STEP + LEAVE_MAX_FILE_COUNT + 1, 0), true)
            == TreeInsert.Done(Node(NoParent, Leaves(k + 1, STEP + 1)))
  {
    hide TreeInsert.InsertInLeave, ChildIndex, Files;
    var r := LEAVE_MAX_FILE_COUNT;
    var cs, file := Leaves(k, r), File(k * STEP + r + 1, 0);
    LastChild(k, r, file.id);
    AppendToLeave(Holder, k * STEP, r);
    var right := Link(Leave(Holder, Files((k + 1) * STEP, STEP + 1)), None);
    assert InsertAt(cs[k := HalfLeave(k)], k + 1, right) == Leaves(k + 1, STEP + 1);
  }

  /** A last leave with 20 files moves on, any other takes one more. */
  lemma BehindNext(n: nat)
    requires LEAVE_MAX_FILE_COUNT <= n < MemTrees.SAFE_FILE_COUNT
    ensures var k, r := Behind(n), n - Behind(n) * STEP;
            n > LEAVE_MAX_FILE_COUNT ==>
              0 < r <= LEAVE_MAX_FILE_COUNT && k < NODE_MAX_CHILD_COUNT && (r == LEAVE_MAX_FILE_COUNT ==> k + 1 < NODE_MAX_CHILD_COUNT)
    ensures n == LEAVE_MAX_FILE_COUNT ==> Behind(n + 1) == 1
    ensures n > LEAVE_MAX_FILE_COUNT ==>
              Behind(n + 1) == if n - Behind(n) * STEP < LEAVE_MAX_FILE_COUNT then Behind(n) else Behind(n) + 1
  {
    var k := (n - 11) / 10;
    assert 10 * k <= n - 11 < 10 * k + 10;
    TensOf(n - 10, if n < 10 * k + 20 then k else k + 1);
  }

  lemma TensOf(x: int, q: int)
    requires 10 * q <= x < 10 * q + 10
    ensures x / 10 == q
  {
  }

  /** One more id: the tree grows as it should, up to 2510 files. */
  lemma GrowsByOne(n: nat)
    requires n < MemTrees.SAFE_FILE_COUNT
    ensures MemTrees.TreeStep(Grown(n), MemTrees.InsertNew(File(n + 1, 0))) == Some((Grown(n + 1), MemTrees.Done))
  {
    hide TreeInsert.InsertInLeave, TreeInsert.InsertInto, Files, Leaves;
    if n < LEAVE_MAX_FILE_COUNT {
      LeaveGrows(n);
      return;
    }
    BehindNext(n);
    hide Behind;
    var k, r := Behind(n), n - Behind(n) * STEP;
    if n == LEAVE_MAX_FILE_COUNT {
      LeaveSplits();
    } else if r < LEAVE_MAX_FILE_COUNT {
      LastTakes(k, r);
    } else {
      LastSplits(k);
    }
  }

  lemma LeaveGrows(n: nat)
    requires n < LEAVE_MAX_FILE_COUNT
    ensures TreeInsert.InsertInto(Leave(NoParent, Files(0, n)), File(n + 1, 0), true)
            == TreeInsert.Done(Leave(NoParent, Files(0, n + 1)))
  {
    AppendToLeave(NoParent, 0, n);
  }

  lemma LeaveSplits()
    ensures var n := LEAVE_MAX_FILE_COUNT;
            var r := TreeInsert.InsertInto(Leave(NoParent, Files(0, n)), File(n + 1, 0), true);
            r.Split? && TreeInsert.NewRoot(r.left, r.splitId, r.right) == Node(NoParent, Leaves(1, STEP + 1))
  {
    AppendToLeave(NoParent, 0, LEAVE_MAX_FILE_COUNT);
    var a := HalfLeave(0);
    var b := Link(Leave(Holder, Files(STEP, STEP + 1)), None);
    assert [a, b] == Leaves(1, STEP + 1);
  }

  function Ascending(n: nat): (calls: seq<MemTrees.Call>)
    requires n <= 10000
    ensures |calls| == n && forall k :: 0 <= k < n ==> calls[k] == MemTrees.InsertNew(File(k + 1, 0))
  {
    seq(n, k requires 0 <= k < n => MemTrees.InsertNew(File(k + 1, 0)))
  }

  lemma FullAtLimit()
    ensures MemTrees.Overflows(Grown(MemTrees.SAFE_FILE_COUNT), MemTrees.InsertNew(File(MemTrees.SAFE_FILE_COUNT + 1, 0)))
  {
    hide ChildIndex, Leaves, LeaveFor, Find, Position;
    var k, r := NODE_MAX_CHILD_COUNT - 1, LEAVE_MAX_FILE_COUNT;
    LeavesAre(k, r);
    var id := MemTrees.SAFE_FILE_COUNT + 1;
    assert Grown(MemTrees.SAFE_FILE_COUNT) == Node(NoParent, Leaves(k, r));
    LastChild(k, r, id);
    NotInLast(k, r, id);
  }

  lemma NotInLast(k: nat, r: nat, id: FileId)
    requires k <= 1000 && r <= LEAVE_MAX_FILE_COUNT && k * STEP + r < id
    ensures Find(Node(NoParent, Leaves(k, r)), id) == None
  {
    hide Leaves, ChildIndex;
    LeavesAre(k, r);
    var leave := Leaves(k, r)[k].node;
    LastChild(k, r, id);
    PositionNone(leave.files, id);
    assert LeaveFor(Node(NoParent, Leaves(k, r)), id) == LeaveFor(leave, id) == Some(leave);
  }

  /** Inserting the ids 1, 2, 3 and so on into an empty tree overflows at the 2511th file. */
  lemma {:induction false} AscendingOverflows(j: nat)
    requires j <= MemTrees.SAFE_FILE_COUNT
    ensures !MemTrees.Safe(Grown(j), Ascending(MemTrees.SAFE_FILE_COUNT + 1)[j..])
    ensures MemTrees.SAFE_FILE_COUNT == 2510 && Grown(0) == Empty()
    decreases MemTrees.SAFE_FILE_COUNT - j
  {
    hide MemTrees.Overflows, MemTrees.TreeStep;
    var calls := Ascending(MemTrees.SAFE_FILE_COUNT + 1);
    assert calls[j..][0] == calls[j] && calls[j..][1..] == calls[j + 1..];
    if j == MemTrees.SAFE_FILE_COUNT {
      FullAtLimit();
    } else {
      GrowsByOne(j);
      AscendingOverflows(j + 1);
    }
  }

  function TallRoot(): MemNode {
    Node(NoParent, [Link(Node(Holder, Row(0, HALF, LEAVE_MAX_FILE_COUNT / 2)), Some(HALF * SPACE)),
                    Link(Node(Holder, Row(HALF, HALF, LEAVE_MAX_FILE_COUNT / 2)), None)])
  }

  /** A valid tree of three levels in which no file can be deleted from the first leave. */
  lemma TallRootCascades()
    ensures Valid(TallRoot(), 2) && Find(TallRoot(), 1).Some? && TreeDelete.Cascades(TallRoot(), 1)
    ensures TreeDelete.Delete(TallRoot(), 1) == TreeDelete.Panic
  {
    hide Row;
    var a, b := TallRoot().children[0], TallRoot().children[1];
    RowSegment(0, HALF, LEAVE_MAX_FILE_COUNT / 2, HALF * SPACE);
    RowSegment(HALF, HALF, LEAVE_MAX_FILE_COUNT / 2, U64_MAX);
    SegmentOne(a, 0, HALF * SPACE, 1);
    SegmentOne(b, HALF * SPACE, U64_MAX, 1);
    SegmentJoin([a], [b], 0, U64_MAX, 1);
    assert TallRoot().children == [a] + [b];
    FirstLeave();
  }

  lemma FirstLeave()
    ensures Find(TallRoot(), 1) == Some(File(1, 0)) && TreeDelete.Cascades(TallRoot(), 1)
    ensures TreeDelete.DeleteFrom(TallRoot(), 1) == TreeDelete.Panicked
  {
    hide Row, TreeDelete.RebalanceLeave;
    var a := TallRoot().children[0].node;
    ChildIndexAt(TallRoot().children, 1, 0);
    ChildIndexAt(a.children, 1, 0);
    var leave := a.children[0].node;
    assert leave.files[0] == File(1, 0);
    assert LeaveFor(a, 1) == Some(leave) && LeaveFor(TallRoot(), 1) == Some(leave);
    assert Position(leave.files, 1) == Some(0);
    var rest := Leave(Holder, RemoveAt(leave.files, 0));
    assert TreeDelete.DeleteFrom(leave, 1) == TreeDelete.Unbalanced(rest, File(1, 0));
    TreeDelete.NoVariantPanics(Holder, a.children[0 := Link(rest, a.children[0].max)], 0, File(1, 0));
    assert TreeDelete.DeleteFrom(a, 1) == TreeDelete.Panicked;
  }
}
