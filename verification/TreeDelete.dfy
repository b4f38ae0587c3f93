/** Deleting from the file tree (modules/wasabi-fs/src/mem_tree/mod.rs, `delete` and the rebalancing). */
module TreeDelete {
  import opened Machine
  import opened Sequences
  import opened TreeNodes
  import TreeInsert

  /** What a deletion in a subtree reports to the node above, which rebalances what is left unbalanced. */
  datatype Deletion =
    | Absent
    | Removed(node: MemNode, file: File)
    | Unbalanced(node: MemNode, file: File)
    | Merged(node: MemNode, file: File)
    | Panicked

  datatype Outcome = Ok(root: MemNode, file: File) | FileDoesNotExist | Panic

  datatype Mode = TakeFromRight | TakeFromLeft | Merge(left: nat) | NoVariant

  function Cap(n: MemNode): nat {
    if n.Leave? then LEAVE_MAX_FILE_COUNT else NODE_MAX_CHILD_COUNT
  }

  predicate Lends(n: MemNode) {
    Len(n) > Half(n)
  }

  predicate Fits(a: MemNode, b: MemNode) {
    Len(a) + Len(b) <= Cap(a)
  }

  /** `get_children_for_rebalance`, with its two assertions and every child in memory. */
  function ChooseMode(parent: Parent, cs: seq<Link>, i: nat): (mode: Mode)
    requires i < |cs|
    ensures mode == TakeFromRight ==> i + 1 < |cs|
    ensures mode == TakeFromLeft ==> i > 0
    ensures mode.Merge? ==> mode.left + 1 < |cs| && (mode.left == i || mode.left + 1 == i)
  {
    if |cs| <= NODE_MAX_CHILD_COUNT / 2 && parent != NoParent then NoVariant
    else if |cs| < 2 then NoVariant
    else if i + 1 < |cs| && Lends(cs[i + 1].node) then TakeFromRight
    else if i > 0 && Lends(cs[i - 1].node) then TakeFromLeft
    else if i > 0 && Fits(cs[i - 1].node, cs[i].node) then Merge(i - 1)
    else if i + 1 < |cs| && Fits(cs[i].node, cs[i + 1].node) then Merge(i)
    else NoVariant
  }

  /** Two neighbours with new contents and a new border between them. */
  function Rotated(cs: seq<Link>, m: nat, left: MemNode, border: FileId, right: MemNode): seq<Link>
    requires m + 1 < |cs|
  {
    cs[..m] + [Link(left, Some(border)), Link(right, cs[m + 1].max)] + cs[m + 2..]
  }

  /** One child in the place of two. */
  function Joined(cs: seq<Link>, m: nat, merged: MemNode): seq<Link>
    requires m + 1 < |cs|
  {
    cs[..m] + [Link(merged, cs[m + 1].max)] + cs[m + 2..]
  }

  lemma RotatedAt(cs: seq<Link>, m: nat, a: MemNode, border: FileId, b: MemNode)
    requires m + 1 < |cs|
    ensures var ds := Rotated(cs, m, a, border, b);
            && |ds| == |cs| && ds[m] == Link(a, Some(border)) && ds[m + 1] == Link(b, cs[m + 1].max)
            && forall k :: 0 <= k < |cs| && k != m && k != m + 1 ==> ds[k] == cs[k]
  {
  }

  lemma JoinedAt(cs: seq<Link>, m: nat, a: MemNode)
    requires m + 1 < |cs|
    ensures var ds := Joined(cs, m, a);
            && |ds| == |cs| - 1 && ds[m] == Link(a, cs[m + 1].max)
            && (forall k :: 0 <= k < m ==> ds[k] == cs[k]) && (forall k :: m < k < |ds| ==> ds[k] == cs[k + 1])
  {
  }

  function RebalanceLeave(parent: Parent, cs: seq<Link>, i: nat, file: File): Deletion
    requires i < |cs|
  {
    match ChooseMode(parent, cs, i)
    case NoVariant => Panicked
    case TakeFromRight =>
      var left, right := cs[i].node, cs[i + 1].node;
      if left.Node? || right.Node? || right.files == [] || cs[i].max.None? then Panicked
      else
        var moved := right.files[0];
        if |right.files| - 1 < LEAVE_MAX_FILE_COUNT / 2 || moved.id <= cs[i].max.value then Panicked
        else Removed(Node(parent, Rotated(cs, i, Leave(left.parent, left.files + [moved]), moved.id,
                                          Leave(right.parent, right.files[1..]))), file)
    case TakeFromLeft =>
      var left, right := cs[i - 1].node, cs[i].node;
      if left.Node? || right.Node? || |left.files| < 2 || right.files == [] then Panicked
      else
        var rest, moved := left.files[..|left.files| - 1], left.files[|left.files| - 1];
        if |rest| < LEAVE_MAX_FILE_COUNT / 2 || moved.id >= right.files[0].id then Panicked
        else Removed(Node(parent, Rotated(cs, i - 1, Leave(left.parent, rest), rest[|rest| - 1].id,
                                          Leave(right.parent, [moved] + right.files))), file)
    case Merge(m) =>
      var left, right := cs[m].node, cs[m + 1].node;
      if left.Node? || right.Node? then Panicked
      else Merged(Node(parent, Joined(cs, m, Leave(left.parent, left.files + right.files))), file)
  }

  function RebalanceNode(parent: Parent, cs: seq<Link>, i: nat, file: File): Deletion
    requires i < |cs|
  {
    match ChooseMode(parent, cs, i)
    case NoVariant => Panicked
    case TakeFromRight =>
      var left, right := cs[i].node, cs[i + 1].node;
      if left.Leave? || right.Leave? || right.children == [] || cs[i].max.None? then Panicked
      else
        var moved := right.children[0];
        if |right.children| - 1 < NODE_MAX_CHILD_COUNT / 2 || moved.max.None? || moved.max.value <= cs[i].max.value then Panicked
        else
          var grown := Node(left.parent, left.children + [Link(WithParent(moved.node, Stale), moved.max)]);
          Removed(Node(parent, Rotated(cs, i, grown, moved.max.value, Node(right.parent, right.children[1..]))), file)
    case TakeFromLeft =>
      var left, right := cs[i - 1].node, cs[i].node;
      if left.Leave? || right.Leave? || |left.children| < 2 || cs[i - 1].max.None? then Panicked
      else
        var rest, moved := left.children[..|left.children| - 1], left.children[|left.children| - 1];
        var last := rest[|rest| - 1];
        if |rest| < NODE_MAX_CHILD_COUNT / 2 || moved.max.Some? || last.max.None? then Panicked
        else Removed(Node(parent, Rotated(cs, i - 1, Node(left.parent, rest[|rest| - 1 := Link(last.node, None)]), last.max.value,
                                          Node(right.parent, [Link(WithParent(moved.node, Stale), cs[i - 1].max)] + right.children))), file)
    case Merge(m) =>
      var left, right := cs[m].node, cs[m + 1].node;
      if left.Leave? || right.Leave? then Panicked
      else Merged(Node(parent, Joined(cs, m, Node(left.parent, Moved(left.children + right.children)))), file)
  }

  function DeleteFrom(n: MemNode, id: FileId): Deletion {
    match n
    case Leave(parent, files) =>
      (match Position(files, id)
       case None => Absent
       case Some(p) =>
         var rest := RemoveAt(files, p);
         if |rest| >= LEAVE_MAX_FILE_COUNT / 2 || parent == NoParent then Removed(Leave(parent, rest), files[p])
         else Unbalanced(Leave(parent, rest), files[p]))
    case Node(parent, cs) =>
      var i := ChildIndex(cs, id);
      if i == |cs| then Panicked
      else match DeleteFrom(cs[i].node, id)
           case Absent => Absent
           case Removed(c, file) => Removed(Node(parent, cs[i := Link(c, cs[i].max)]), file)
           case Unbalanced(c, file) => RebalanceLeave(parent, cs[i := Link(c, cs[i].max)], i, file)
           case Merged(c, file) => RebalanceNode(parent, cs[i := Link(c, cs[i].max)], i, file)
           case Panicked => Panicked
  }

  /** A root that is left with one child makes way for it. */
  function Delete(root: MemNode, id: FileId): Outcome {
    match DeleteFrom(root, id)
    case Absent => FileDoesNotExist
    case Removed(n, file) => Ok(n, file)
    case Unbalanced(_, _) => Panic
    case Merged(n, file) =>
      if Len(n) != 1 || n.Leave? then Ok(n, file)
      else if n.children[0].max.Some? then Panic
      else Ok(WithParent(n.children[0].node, NoParent), file)
    case Panicked => Panic
  }

  // Leaves

  lemma RemoveSorted(files: seq<File>, p: nat, lo: int, hi: int)
    requires Sorted(files) && Within(files, lo, hi) && p < |files|
    ensures var r := RemoveAt(files, p);
            && Sorted(r) && Within(r, lo, hi) && forall f :: f in r <==> f in files && f.id != files[p].id
  {
    var r := RemoveAt(files, p);
    forall f | f in files && f.id != files[p].id ensures f in r {
      var k :| 0 <= k < |files| && files[k] == f;
      assert r[if k < p then k else k - 1] == f;
    }
  }

  lemma JoinSorted(a: seq<File>, b: seq<File>, lo: int, m: int, hi: int)
    requires Sorted(a) && Within(a, lo, m) && Sorted(b) && Within(b, m, hi) && lo <= m <= hi
    ensures Sorted(a + b) && Within(a + b, lo, hi)
  {
  }

  /** `m` and `m + 1` are the leaves of the cut-out pair, before and after the file is removed from one of them. */
  ghost predicate Pair(cs: seq<Link>, m: nat, a: seq<File>, b: seq<File>, lo: int, hi: int, id: FileId) {
    && m + 1 < |cs| && cs[m].max.Some?
    && Edge(cs[..m], lo) < id <= Top(cs[m + 1], hi)
    && Sorted(a + b) && Within(a + b, Edge(cs[..m], lo), Top(cs[m + 1], hi))
    && Within(a, Edge(cs[..m], lo), cs[m].max.value) && Within(b, cs[m].max.value, Top(cs[m + 1], hi))
    && cs[m].node.parent == Holder && cs[m + 1].node.parent == Holder
    && forall f :: f in a + b <==> HoldsIn(cs[m..m + 2], f) && f.id != id
  }

  /** The two leaves of a pair, as the segment they form. */
  lemma PairIs(cs: seq<Link>, m: nat, lo: int, hi: int)
    requires Segment(cs, lo, hi, 0) && m + 1 < |cs|
    ensures cs[m].node.Leave? && cs[m + 1].node.Leave? && cs[m].max.Some?
    ensures cs[m].node.parent == Holder && cs[m + 1].node.parent == Holder
    ensures LEAVE_MAX_FILE_COUNT / 2 <= |cs[m].node.files| <= LEAVE_MAX_FILE_COUNT
    ensures LEAVE_MAX_FILE_COUNT / 2 <= |cs[m + 1].node.files| <= LEAVE_MAX_FILE_COUNT
    ensures Edge(cs[..m], lo) == Bot(cs, m, lo, hi) < cs[m].max.value < Top(cs[m + 1], hi)
    ensures Sorted(cs[m].node.files) && Within(cs[m].node.files, Edge(cs[..m], lo), cs[m].max.value)
    ensures Sorted(cs[m + 1].node.files) && Within(cs[m + 1].node.files, cs[m].max.value, Top(cs[m + 1], hi))
  {
    assert Child(cs, m, lo, hi, 0) && Child(cs, m + 1, lo, hi, 0);
    if m > 0 { assert cs[m - 1].max.Some?; }
  }

  lemma PairHolds(cs: seq<Link>, m: nat, f: File)
    requires m + 1 < |cs| && cs[m].node.Leave? && cs[m + 1].node.Leave?
    ensures HoldsIn(cs[m..m + 2], f) <==> f in cs[m].node.files || f in cs[m + 1].node.files
  {
    assert cs[m..m + 2] == [cs[m]] + [cs[m + 1]];
    HoldsAppend([cs[m]], [cs[m + 1]], f);
    HoldsOne(cs[m], f);
    HoldsOne(cs[m + 1], f);
  }

  /** The file is removed from the left or from the right leave of the pair. */
  lemma PairAfter(cs: seq<Link>, m: nat, lo: int, hi: int, onLeft: bool, p: nat, id: FileId)
    requires Segment(cs, lo, hi, 0) && m + 1 < |cs| && cs[m].node.Leave? && cs[m + 1].node.Leave?
    requires var files := if onLeft then cs[m].node.files else cs[m + 1].node.files; p < |files| && files[p].id == id
    ensures var a, b := cs[m].node.files, cs[m + 1].node.files;
            if onLeft then Pair(cs, m, RemoveAt(a, p), b, lo, hi, id) else Pair(cs, m, a, RemoveAt(b, p), lo, hi, id)
  {
    hide RemoveAt, HoldsIn;
    PairIs(cs, m, lo, hi);
    var a, b := cs[m].node.files, cs[m + 1].node.files;
    var e, b1, t := Edge(cs[..m], lo), cs[m].max.value, Top(cs[m + 1], hi);
    if onLeft { RemoveSorted(a, p, e, b1); } else { RemoveSorted(b, p, b1, t); }
    var c, d := if onLeft then RemoveAt(a, p) else a, if onLeft then b else RemoveAt(b, p);
    JoinSorted(c, d, e, b1, t);
    forall f ensures f in c + d <==> HoldsIn(cs[m..m + 2], f) && f.id != id {
      PairHolds(cs, m, f);
    }
  }

  lemma PairApart(cs: seq<Link>, m: nat, a: seq<File>, b: seq<File>, lo: int, hi: int, id: FileId)
    requires Pair(cs, m, a, b, lo, hi, id) && |a| > 0 && |b| > 0
    ensures a[|a| - 1].id < b[0].id
  {
  }

  /** Other leaves in the place of the pair, with the same range and the files of the pair that are left. */
  lemma PairReplaced(n: MemNode, lo: int, hi: int, m: nat, a: seq<File>, b: seq<File>, id: FileId, fit: seq<Link>)
    requires Tree(n, lo, hi, 1) && n.Node? && Pair(n.children, m, a, b, lo, hi, id)
    requires |fit| > 0 && fit[|fit| - 1].max == n.children[m + 1].max && |n.children| - 2 + |fit| <= NODE_MAX_CHILD_COUNT
    requires Segment(fit, Edge(n.children[..m], lo), Top(n.children[m + 1], hi), 0)
    requires forall f :: HoldsIn(fit, f) <==> f in a + b
    ensures Tree(Node(n.parent, n.children[..m] + fit + n.children[m + 2..]), lo, hi, 1)
    ensures Changes(n, Node(n.parent, n.children[..m] + fit + n.children[m + 2..]), id, None)
  {
    hide Tree, Segment, Holds, HoldsIn;
    var cs := n.children;
    TreeIs(n, lo, hi, 1);
    var pre, mid, post := cs[..m], cs[m..m + 2], cs[m + 2..];
    Around(cs, m, 2);
    var ds := pre + fit + post;
    LastTop(cs, lo, hi, 0);
    var top := Top(cs[m + 1], hi);
    if post != [] { InnerMax(cs, lo, hi, 0, m + 1); }
    Replace(pre, mid, post, fit, top, lo, hi, 0);
    ReplaceChanges(pre, mid, post, fit, lo, hi, 0, id, None);
    NodeChanges(n.parent, cs, n.parent, ds, id, None);
    assert ds[|ds| - 1] == if post == [] then fit[|fit| - 1] else cs[|cs| - 1];
    TreeOf(n.parent, ds, lo, hi, 1);
  }

  /** Two leaves made of one sorted list, with the last id of the first as the border. */
  lemma TwoLeaves(a: seq<File>, b: seq<File>, lo: int, hi: int, max: Option<FileId>)
    requires Sorted(a + b) && Within(a + b, lo, hi) && max in {None, Some(hi)}
    requires LEAVE_MAX_FILE_COUNT / 2 <= |a| <= LEAVE_MAX_FILE_COUNT
    requires LEAVE_MAX_FILE_COUNT / 2 <= |b| <= LEAVE_MAX_FILE_COUNT
    ensures var fit := [Link(Leave(Holder, a), Some(a[|a| - 1].id)), Link(Leave(Holder, b), max)];
            Segment(fit, lo, hi, 0) && forall f :: HoldsIn(fit, f) <==> f in a + b
  {
    var x, y := Link(Leave(Holder, a), Some(a[|a| - 1].id)), Link(Leave(Holder, b), max);
    TreeInsert.CutSorted(a, b, lo, hi);
    SegmentOne(x, lo, a[|a| - 1].id, 0);
    SegmentOne(y, a[|a| - 1].id, hi, 0);
    SegmentJoin([x], [y], lo, hi, 0);
    assert [x, y] == [x] + [y];
    forall f ensures HoldsIn([x, y], f) <==> f in a + b {
      HoldsAppend([x], [y], f);
      HoldsOne(x, f);
      HoldsOne(y, f);
    }
  }

  lemma OneLeave(c: seq<File>, lo: int, hi: int, max: Option<FileId>)
    requires Sorted(c) && Within(c, lo, hi) && lo < hi && max in {None, Some(hi)}
    requires LEAVE_MAX_FILE_COUNT / 2 <= |c| <= LEAVE_MAX_FILE_COUNT
    ensures var fit := [Link(Leave(Holder, c), max)];
            Segment(fit, lo, hi, 0) && forall f :: HoldsIn(fit, f) <==> f in c
  {
    var x := Link(Leave(Holder, c), max);
    SegmentOne(x, lo, hi, 0);
    forall f ensures HoldsIn([x], f) <==> f in c { HoldsOne(x, f); }
  }

  /** What a deletion below `n` delivers when nothing goes wrong; one child may have been merged away. */
  ghost predicate Deletes(n: MemNode, lo: int, hi: int, h: nat, id: FileId, m: MemNode, lost: nat) {
    && Tree(m, lo, hi, h) && Changes(n, m, id, None)
    && m.parent == n.parent && m.Node? == n.Node? && Len(m) + lost == Len(n)
  }

  lemma RotateExact(n: MemNode, lo: int, hi: int, m: nat, a: seq<File>, b: seq<File>, id: FileId, c: seq<File>, d: seq<File>)
    requires Tree(n, lo, hi, 1) && n.Node? && Pair(n.children, m, a, b, lo, hi, id) && a + b == c + d
    requires LEAVE_MAX_FILE_COUNT / 2 <= |c| <= LEAVE_MAX_FILE_COUNT
    requires LEAVE_MAX_FILE_COUNT / 2 <= |d| <= LEAVE_MAX_FILE_COUNT
    ensures Deletes(n, lo, hi, 1, id, Node(n.parent, Rotated(n.children, m, Leave(Holder, c), c[|c| - 1].id, Leave(Holder, d))), 0)
  {
    hide Tree, Segment, HoldsIn, Changes;
    var cs := n.children;
    TwoLeaves(c, d, Edge(cs[..m], lo), Top(cs[m + 1], hi), cs[m + 1].max);
    TreeIs(n, lo, hi, 1);
    var fit := [Link(Leave(Holder, c), Some(c[|c| - 1].id)), Link(Leave(Holder, d), cs[m + 1].max)];
    PairReplaced(n, lo, hi, m, a, b, id, fit);
  }

  lemma MergeExact(n: MemNode, lo: int, hi: int, m: nat, a: seq<File>, b: seq<File>, id: FileId)
    requires Tree(n, lo, hi, 1) && n.Node? && Pair(n.children, m, a, b, lo, hi, id)
    requires LEAVE_MAX_FILE_COUNT / 2 <= |a + b| <= LEAVE_MAX_FILE_COUNT
    ensures Deletes(n, lo, hi, 1, id, Node(n.parent, Joined(n.children, m, Leave(Holder, a + b))), 1)
  {
    hide Tree, Segment, HoldsIn, Changes;
    var cs := n.children;
    OneLeave(a + b, Edge(cs[..m], lo), Top(cs[m + 1], hi), cs[m + 1].max);
    TreeIs(n, lo, hi, 1);
    PairReplaced(n, lo, hi, m, a, b, id, [Link(Leave(Holder, a + b), cs[m + 1].max)]);
  }

  /** A neighbour has a file to spare. */
  predicate CanLend(cs: seq<Link>, i: nat) {
    (i + 1 < |cs| && Lends(cs[i + 1].node)) || (0 < i < |cs| && Lends(cs[i - 1].node))
  }

  /** A node whose child `i` is a leave with half of its files, one of which is about to go. */
  ghost predicate RunsLow(n: MemNode, lo: int, hi: int, i: nat, p: nat, id: FileId) {
    && Tree(n, lo, hi, 1) && n.Node? && i < |n.children| && n.children[i].node.Leave?
    && |n.children[i].node.files| == LEAVE_MAX_FILE_COUNT / 2 && p < LEAVE_MAX_FILE_COUNT / 2
    && n.children[i].node.files[p].id == id
  }

  function Rest(cs: seq<Link>, i: nat, p: nat): seq<File>
    requires i < |cs| && cs[i].node.Leave? && p < |cs[i].node.files|
  {
    RemoveAt(cs[i].node.files, p)
  }

  /** The children as `get_children_for_rebalance` finds them. */
  function Lowered(cs: seq<Link>, i: nat, p: nat): (r: seq<Link>)
    requires i < |cs| && cs[i].node.Leave? && p < |cs[i].node.files|
    ensures |r| == |cs|
  {
    cs[i := Link(Leave(Holder, Rest(cs, i, p)), cs[i].max)]
  }

  /** Of two neighbouring leaves one has given a file to the other, and the border is the last id of the first; the other
      children are the same. */
  predicate FileMoved(cs: seq<Link>, n: MemNode, m: nat, a: int, b: int)
    requires m + 1 < |cs|
  {
    && n.Node? && |n.children| == |cs|
    && (forall k :: 0 <= k < |cs| && k != m && k != m + 1 ==> n.children[k] == cs[k])
    && var x, y := n.children[m], n.children[m + 1];
       && x.node.Leave? && y.node.Leave? && Len(x.node) == a > 0 && Len(y.node) == b
       && x.max == Some(x.node.files[a - 1].id) && y.max == cs[m + 1].max
  }

  /** Two neighbouring leaves have become one, with all files but one; the other children are the same. */
  predicate LeavesMerged(cs: seq<Link>, n: MemNode, m: nat)
    requires m + 1 < |cs|
  {
    && n.Node? && |n.children| == |cs| - 1
    && (forall k :: 0 <= k < m ==> n.children[k] == cs[k]) && (forall k :: m < k < |cs| - 1 ==> n.children[k] == cs[k + 1])
    && var x := n.children[m];
       x.node.Leave? && Len(x.node) == Len(cs[m].node) + Len(cs[m + 1].node) - 1 && x.max == cs[m + 1].max
  }

  lemma RotatedLowered(cs: seq<Link>, i: nat, p: nat, m: nat, a: MemNode, border: FileId, b: MemNode)
    requires i < |cs| && cs[i].node.Leave? && p < |cs[i].node.files| && m + 1 < |cs| && (m == i || m + 1 == i)
    ensures Rotated(Lowered(cs, i, p), m, a, border, b) == Rotated(cs, m, a, border, b)
  {
    hide RemoveAt;
  }

  lemma JoinedLowered(cs: seq<Link>, i: nat, p: nat, m: nat, a: MemNode)
    requires i < |cs| && cs[i].node.Leave? && p < |cs[i].node.files| && m + 1 < |cs| && (m == i || m + 1 == i)
    ensures Joined(Lowered(cs, i, p), m, a) == Joined(cs, m, a)
  {
    hide RemoveAt;
  }

  lemma LoweredLengths(cs: seq<Link>, i: nat, p: nat, m: nat)
    requires i < |cs| && cs[i].node.Leave? && p < |cs[i].node.files| && m + 1 < |cs| && (m == i || m + 1 == i)
    ensures var ds := Lowered(cs, i, p);
            Len(ds[m].node) + Len(ds[m + 1].node) == Len(cs[m].node) + Len(cs[m + 1].node) - 1
  {
  }

  lemma TakeFromRightExact(n: MemNode, lo: int, hi: int, i: nat, p: nat, id: FileId, file: File)
    requires RunsLow(n, lo, hi, i, p, id) && ChooseMode(n.parent, Lowered(n.children, i, p), i) == TakeFromRight
    ensures var r := RebalanceLeave(n.parent, Lowered(n.children, i, p), i, file);
            && r.Removed? && r.file == file && Deletes(n, lo, hi, 1, id, r.node, 0)
            && FileMoved(n.children, r.node, i, LEAVE_MAX_FILE_COUNT / 2, Len(n.children[i + 1].node) - 1)
  {
    hide Tree, Segment, Deletes, RemoveAt, Pair, ChooseMode, Rotated;
    var cs, ds := n.children, Lowered(n.children, i, p);
    TreeIs(n, lo, hi, 1);
    PairIs(cs, i, lo, hi);
    PairAfter(cs, i, lo, hi, true, p, id);
    var rest, b := Rest(cs, i, p), cs[i + 1].node.files;
    assert Lends(ds[i + 1].node) by { ModeIs(n.parent, ds, i); }
    assert rest + b == (rest + [b[0]]) + b[1..];
    RotateExact(n, lo, hi, i, rest, b, id, rest + [b[0]], b[1..]);
    var left, right := Leave(Holder, rest + [b[0]]), Leave(Holder, b[1..]);
    RotatedLowered(cs, i, p, i, left, b[0].id, right);
    RotatedAt(cs, i, left, b[0].id, right);
  }

  lemma TakeFromLeftExact(n: MemNode, lo: int, hi: int, i: nat, p: nat, id: FileId, file: File)
    requires RunsLow(n, lo, hi, i, p, id) && ChooseMode(n.parent, Lowered(n.children, i, p), i) == TakeFromLeft
    ensures var r := RebalanceLeave(n.parent, Lowered(n.children, i, p), i, file);
            && r.Removed? && r.file == file && Deletes(n, lo, hi, 1, id, r.node, 0)
            && FileMoved(n.children, r.node, i - 1, Len(n.children[i - 1].node) - 1, LEAVE_MAX_FILE_COUNT / 2)
  {
    hide Tree, Segment, Deletes, RemoveAt, Pair, ChooseMode, Rotated;
    var cs, ds := n.children, Lowered(n.children, i, p);
    TreeIs(n, lo, hi, 1);
    PairIs(cs, i - 1, lo, hi);
    PairAfter(cs, i - 1, lo, hi, false, p, id);
    var a, rest := cs[i - 1].node.files, Rest(cs, i, p);
    assert Lends(ds[i - 1].node) by { ModeIs(n.parent, ds, i); }
    var k := |a| - 1;
    assert a + rest == a[..k] + ([a[k]] + rest);
    RotateExact(n, lo, hi, i - 1, a, rest, id, a[..k], [a[k]] + rest);
    PairApart(cs, i - 1, a, rest, lo, hi, id);
    var left, right := Leave(Holder, a[..k]), Leave(Holder, [a[k]] + rest);
    RotatedLowered(cs, i, p, i - 1, left, a[k - 1].id, right);
    RotatedAt(cs, i - 1, left, a[k - 1].id, right);
  }

  lemma MergesExact(n: MemNode, lo: int, hi: int, i: nat, p: nat, id: FileId, file: File, m: nat)
    requires RunsLow(n, lo, hi, i, p, id) && ChooseMode(n.parent, Lowered(n.children, i, p), i) == Merge(m)
    ensures var r := RebalanceLeave(n.parent, Lowered(n.children, i, p), i, file);
            && r.Merged? && r.file == file && Deletes(n, lo, hi, 1, id, r.node, 1)
            && LeavesMerged(n.children, r.node, m)
  {
    hide Tree, Segment, Deletes, RemoveAt, Pair, ChooseMode, Joined;
    var cs, ds := n.children, Lowered(n.children, i, p);
    TreeIs(n, lo, hi, 1);
    PairIs(cs, m, lo, hi);
    PairAfter(cs, m, lo, hi, m == i, p, id);
    assert Fits(ds[m].node, ds[m + 1].node) by { ModeIs(n.parent, ds, i); }
    var a, b := ds[m].node.files, ds[m + 1].node.files;
    MergeExact(n, lo, hi, m, a, b, id);
    JoinedLowered(cs, i, p, m, Leave(Holder, a + b));
    JoinedAt(cs, m, Leave(Holder, a + b));
    assert |a| + |b| == Len(cs[m].node) + Len(cs[m + 1].node) - 1 by { LoweredLengths(cs, i, p, m); }
  }

  lemma ModeIs(parent: Parent, cs: seq<Link>, i: nat)
    requires i < |cs|
    ensures var mode := ChooseMode(parent, cs, i);
            && (mode == TakeFromRight ==> i + 1 < |cs| && Lends(cs[i + 1].node))
            && (mode == TakeFromLeft ==> i > 0 && Lends(cs[i - 1].node))
            && (mode.Merge? ==> mode.left + 1 < |cs| && Fits(cs[mode.left].node, cs[mode.left + 1].node))
    ensures ChooseMode(parent, cs, i) in {TakeFromRight, TakeFromLeft} ==> CanLend(cs, i)
    ensures ChooseMode(parent, cs, i).Merge? ==> !CanLend(cs, i)
    ensures ChooseMode(parent, cs, i) == TakeFromLeft && i + 1 < |cs| ==> !Lends(cs[i + 1].node)
    ensures ChooseMode(parent, cs, i).Merge? && i > 0 && Fits(cs[i - 1].node, cs[i].node) ==> ChooseMode(parent, cs, i).left == i - 1
  {
  }

  /** With neighbours that are half full or more, one of the variants applies. */
  lemma SomeModeFits(n: MemNode, lo: int, hi: int, i: nat, p: nat, id: FileId)
    requires RunsLow(n, lo, hi, i, p, id)
    requires |n.children| >= 2 && (n.parent == NoParent || |n.children| > NODE_MAX_CHILD_COUNT / 2)
    ensures ChooseMode(n.parent, Lowered(n.children, i, p), i) != NoVariant
    ensures CanLend(Lowered(n.children, i, p), i) == CanLend(n.children, i)
  {
    hide Tree, Segment, RemoveAt;
    var cs := n.children;
    TreeIs(n, lo, hi, 1);
    if i + 1 < |cs| { PairIs(cs, i, lo, hi); }
    if i > 0 { PairIs(cs, i - 1, lo, hi); }
  }

  lemma NeighboursAreLeaves(n: MemNode, lo: int, hi: int, i: nat)
    requires Tree(n, lo, hi, 1) && n.Node? && i < |n.children|
    ensures i + 1 < |n.children| ==> n.children[i + 1].node.Leave?
    ensures i > 0 ==> n.children[i - 1].node.Leave?
  {
    hide Tree, Segment;
    TreeIs(n, lo, hi, 1);
    if i + 1 < |n.children| { PairIs(n.children, i, lo, hi); }
    if i > 0 { PairIs(n.children, i - 1, lo, hi); }
  }

  /** Below the root, or below a node with children to spare, rebalancing a leave always succeeds: a file comes from the
      right neighbour if that has more than half, else from the left one if that has, and else the leave is merged with
      its left neighbour, or with its right one if it is the first. */
  lemma RebalanceLeaveExact(n: MemNode, lo: int, hi: int, i: nat, p: nat, id: FileId, file: File)
    requires RunsLow(n, lo, hi, i, p, id)
    requires |n.children| >= 2 && (n.parent == NoParent || |n.children| > NODE_MAX_CHILD_COUNT / 2)
    ensures var r := RebalanceLeave(n.parent, Lowered(n.children, i, p), i, file);
            if CanLend(n.children, i) then r.Removed? && r.file == file && Deletes(n, lo, hi, 1, id, r.node, 0)
            else r.Merged? && r.file == file && Deletes(n, lo, hi, 1, id, r.node, 1)
    ensures var r, cs := RebalanceLeave(n.parent, Lowered(n.children, i, p), i, file), n.children;
            var half := LEAVE_MAX_FILE_COUNT / 2;
            if i + 1 < |cs| && Len(cs[i + 1].node) > half then FileMoved(cs, r.node, i, half, Len(cs[i + 1].node) - 1)
            else if i > 0 && Len(cs[i - 1].node) > half then FileMoved(cs, r.node, i - 1, Len(cs[i - 1].node) - 1, half)
            else LeavesMerged(cs, r.node, if i > 0 then i - 1 else i)
  {
    SomeModeFits(n, lo, hi, i, p, id);
    ModeIs(n.parent, Lowered(n.children, i, p), i);
    assert i + 1 < |n.children| ==> Lowered(n.children, i, p)[i + 1] == n.children[i + 1];
    assert i > 0 ==> Lowered(n.children, i, p)[i - 1] == n.children[i - 1];
    NeighboursAreLeaves(n, lo, hi, i);
    hide Tree, Deletes, ChooseMode, RebalanceLeave, CanLend, Lowered, FileMoved, LeavesMerged;
    match ChooseMode(n.parent, Lowered(n.children, i, p), i)
    case TakeFromRight => TakeFromRightExact(n, lo, hi, i, p, id, file);
    case TakeFromLeft => TakeFromLeftExact(n, lo, hi, i, p, id, file);
    case Merge(m) => MergesExact(n, lo, hi, i, p, id, file, m);
  }

  // Nodes

  /** The leave runs low below a node other than the root, and that node cannot settle it by moving one file. */
  predicate Cascades(n: MemNode, id: FileId) {
    n.Node?
    && var i := ChildIndex(n.children, id);
       i < |n.children|
       && if n.children[i].node.Node? then Cascades(n.children[i].node, id)
          else n.parent != NoParent && |n.children[i].node.files| <= LEAVE_MAX_FILE_COUNT / 2
               && (|n.children| <= NODE_MAX_CHILD_COUNT / 2 || !CanLend(n.children, i))
  }

  /** Below the root a subtree has at least half of its entries; a root that is a node has two children. */
  predicate Filled(n: MemNode) {
    if n.parent == NoParent then n.Leave? || |n.children| >= 2 else Len(n) >= Half(n)
  }

  ghost predicate DeletesRight(n: MemNode, lo: int, hi: int, h: nat, id: FileId, r: Deletion) {
    match r
    case Removed(m, f) => Deletes(n, lo, hi, h, id, m, if n.Leave? then 1 else 0) && Filled(m) && Find(n, id) == Some(f)
    case Unbalanced(m, f) =>
      && n.Leave? && n.parent != NoParent && Len(n) == LEAVE_MAX_FILE_COUNT / 2
      && Position(n.files, id).Some? && m == Leave(n.parent, RemoveAt(n.files, Position(n.files, id).value))
      && Find(n, id) == Some(f)
    case Merged(m, f) => n.Node? && h == 1 && n.parent == NoParent && Deletes(n, lo, hi, h, id, m, 1) && Find(n, id) == Some(f)
    case _ => false
  }

  lemma DeleteInLeave(n: MemNode, lo: int, hi: int, id: FileId)
    requires Tree(n, lo, hi, 0) && n.Leave? && Filled(n) && Find(n, id).Some?
    ensures DeletesRight(n, lo, hi, 0, id, DeleteFrom(n, id))
  {
    RemoveSorted(n.files, Position(n.files, id).value, lo, hi);
  }

  /** Unless a node other than the root has to be rebalanced, a deletion removes the file and nothing else. */
  lemma {:induction false} DeleteFromExact(n: MemNode, lo: int, hi: int, h: nat, id: FileId)
    requires Tree(n, lo, hi, h) && lo < id <= hi && Filled(n) && Find(n, id).Some? && !Cascades(n, id)
    ensures DeletesRight(n, lo, hi, h, id, DeleteFrom(n, id))
    decreases h
  {
    match n
    case Leave(_, files) => DeleteInLeave(n, lo, hi, id);
    case Node(parent, cs) =>
      hide Tree, ChildIndex, RebalanceLeave, RebalanceNode, Changes, RemoveAt, CanLend, Find;
      Descend(n, lo, hi, h, id);
      var i := ChildIndex(cs, id);
      DeleteFromExact(cs[i].node, Bot(cs, i, lo, hi), Top(cs[i], hi), h - 1, id);
      match DeleteFrom(cs[i].node, id)
      case Removed(c, f) => ChildRemoved(n, lo, hi, h, id, i, c, f);
      case Unbalanced(c, f) =>
        RebalanceLeaveExact(n, lo, hi, i, Position(cs[i].node.files, id).value, id, f);
      case _ =>
  }

  lemma ChildRemoved(n: MemNode, lo: int, hi: int, h: nat, id: FileId, i: nat, c: MemNode, f: File)
    requires Tree(n, lo, hi, h) && n.Node? && h > 0 && i < |n.children| && Filled(n)
    requires Bot(n.children, i, lo, hi) < id <= Top(n.children[i], hi) && n.children[i].node.parent == Holder
    requires Find(n, id) == Find(n.children[i].node, id)
    requires DeletesRight(n.children[i].node, Bot(n.children, i, lo, hi), Top(n.children[i], hi), h - 1, id, Removed(c, f))
    ensures DeletesRight(n, lo, hi, h, id, Removed(Node(n.parent, n.children[i := Link(c, n.children[i].max)]), f))
  {
    hide Tree, Changes, Find;
    UpdateChild(n, lo, hi, h, i, c);
    UpdateChanges(n, lo, hi, h, i, c, id, None);
  }

  lemma {:induction false} DeleteAbsent(n: MemNode, lo: int, hi: int, h: nat, id: FileId)
    requires Tree(n, lo, hi, h) && lo < id <= hi && Find(n, id).None?
    ensures DeleteFrom(n, id) == Absent
    decreases h
  {
    if n.Node? {
      hide Tree, ChildIndex;
      Descend(n, lo, hi, h, id);
      var i := ChildIndex(n.children, id);
      DeleteAbsent(n.children[i].node, Bot(n.children, i, lo, hi), Top(n.children[i], hi), h - 1, id);
    }
  }

  // When another node than the root has to be rebalanced

  ghost predicate UnsoundBelow(n: MemNode) {
    n.Node? && exists k :: 0 <= k < |n.children| && !Sound(n.children[k].node)
  }

  ghost predicate Broken(r: Deletion) {
    r.Panicked? || ((r.Removed? || r.Merged?) && UnsoundBelow(r.node))
  }

  lemma StaleChild(p: Parent, cs: seq<Link>, k: nat)
    requires k < |cs| && cs[k].node.parent == Stale
    ensures !Sound(Node(p, cs))
  {
    TreeInsert.UnsoundChild(p, cs, k);
  }

  lemma UnsoundAt(p: Parent, cs: seq<Link>, k: nat)
    requires k < |cs| && !Sound(cs[k].node)
    ensures UnsoundBelow(Node(p, cs))
  {
    hide Sound;
  }

  /** The last child of a node has no border. */
  predicate EndsOpen(cs: seq<Link>) {
    |cs| > 0 && cs[|cs| - 1].max.None?
  }

  predicate OpenEnds(cs: seq<Link>) {
    forall k :: 0 <= k < |cs| && cs[k].node.Node? ==> EndsOpen(cs[k].node.children)
  }

  ghost predicate UnorderedBelow(n: MemNode) {
    n.Node? && exists k :: 0 <= k < |n.children| && !Ordered(n.children[k].node)
  }

  lemma UnorderedAt(p: Parent, cs: seq<Link>, k: nat)
    requires k < |cs| && !Ordered(cs[k].node)
    ensures UnorderedBelow(Node(p, cs)) && UnsoundBelow(Node(p, cs))
  {
    hide Ordered, Sound;
    assert !Sound(cs[k].node) by { if Sound(cs[k].node) { SoundOrdered(cs[k].node); } }
  }

  /** A node that ends with a border. */
  lemma ClosedEnd(p: Parent, cs: seq<Link>, l: Link)
    requires l.max.Some?
    ensures !Ordered(Node(p, cs + [l]))
  {
  }

  /** Two lists of children in one node, the first of which ends without a border. */
  lemma OpenInside(p: Parent, a: seq<Link>, b: seq<Link>)
    requires EndsOpen(a) && |b| > 0
    ensures !Ordered(Node(p, Moved(a + b)))
  {
    hide Ordered;
    var cs := Moved(a + b);
    assert cs[|a| - 1].max == a[|a| - 1].max;
    BadBorder(p, cs, |a| - 1);
  }

  /** Taking a child from the right leaves a border at the end of a node, merging leaves one open in the middle of
      a node, and taking a child from the left leaves it with a pointer to its old parent. */
  lemma RebalanceNodeBreaks(parent: Parent, cs: seq<Link>, i: nat, file: File)
    requires i < |cs| && OpenEnds(cs)
    ensures Broken(RebalanceNode(parent, cs, i, file))
    ensures var r := RebalanceNode(parent, cs, i, file);
            !r.Panicked? && ChooseMode(parent, cs, i) != TakeFromLeft ==> UnorderedBelow(r.node)
  {
    hide Sound, Ordered, UnsoundBelow, UnorderedBelow;
    var r := RebalanceNode(parent, cs, i, file);
    match ChooseMode(parent, cs, i)
    case NoVariant =>
    case TakeFromRight =>
      if !r.Panicked? {
        var left := r.node.children[i].node;
        var n := |left.children| - 1;
        assert left.children == left.children[..n] + [left.children[n]];
        ClosedEnd(left.parent, left.children[..n], left.children[n]);
        UnorderedAt(parent, r.node.children, i);
      }
    case TakeFromLeft =>
      if !r.Panicked? {
        var right := r.node.children[i].node;
        StaleChild(right.parent, right.children, 0);
        UnsoundAt(parent, r.node.children, i);
      }
    case Merge(m) =>
      if !r.Panicked? {
        var merged := r.node.children[m].node;
        OpenInside(merged.parent, cs[m].node.children, cs[m + 1].node.children);
        UnorderedAt(parent, r.node.children, m);
      }
  }

  /** A merge below leaves the node with an open end. */
  lemma MergedEndsOpen(n: MemNode, id: FileId)
    requires n.Node? && EndsOpen(n.children) && DeleteFrom(n, id).Merged?
    ensures DeleteFrom(n, id).node.Node? && EndsOpen(DeleteFrom(n, id).node.children)
  {
    hide ChildIndex, ChooseMode;
  }

  lemma UnsoundAbove(p: Parent, cs: seq<Link>, i: nat, c: MemNode)
    requires i < |cs| && UnsoundBelow(c)
    ensures UnsoundBelow(Node(p, cs[i := Link(c, cs[i].max)]))
  {
    var k :| 0 <= k < |c.children| && !Sound(c.children[k].node);
    TreeInsert.UnsoundChild(c.parent, c.children, k);
    UnsoundAt(p, cs[i := Link(c, cs[i].max)], i);
  }

  /** The node above the leave merges two leaves, or its assertion fails. */
  lemma MergesOrPanics(n: MemNode, lo: int, hi: int, id: FileId)
    requires Tree(n, lo, hi, 1) && n.Node? && lo < id <= hi && Filled(n) && Find(n, id).Some? && Cascades(n, id)
    ensures DeleteFrom(n, id).Panicked? || DeleteFrom(n, id).Merged?
  {
    hide Tree, ChildIndex, RebalanceLeave, RebalanceNode, RemoveAt, CanLend, Deletes;
    Descend(n, lo, hi, 1, id);
    var i := ChildIndex(n.children, id);
    var c := n.children[i].node;
    DeleteInLeave(c, Bot(n.children, i, lo, hi), Top(n.children[i], hi), id);
    var p := Position(c.files, id).value;
    assert DeleteFrom(c, id) == Unbalanced(Leave(Holder, RemoveAt(c.files, p)), c.files[p]);
    if |n.children| <= NODE_MAX_CHILD_COUNT / 2 {
      NoVariantPanics(n.parent, n.children[i := Link(Leave(Holder, RemoveAt(c.files, p)), n.children[i].max)], i, c.files[p]);
    } else {
      RebalanceLeaveExact(n, lo, hi, i, p, id, c.files[p]);
    }
  }

  lemma NoVariantPanics(parent: Parent, cs: seq<Link>, i: nat, file: File)
    requires i < |cs| <= NODE_MAX_CHILD_COUNT / 2 && parent != NoParent
    ensures RebalanceLeave(parent, cs, i, file) == Panicked
  {
  }

  lemma NodesEndOpen(n: MemNode, lo: int, hi: int, h: nat)
    requires Tree(n, lo, hi, h) && n.Node?
    ensures OpenEnds(n.children)
  {
    forall k | 0 <= k < |n.children| && n.children[k].node.Node? ensures EndsOpen(n.children[k].node.children) {
      assert Child(n.children, k, lo, hi, h - 1);
      NodeEndsOpen(n.children[k].node, Bot(n.children, k, lo, hi), Top(n.children[k], hi), h - 1);
    }
  }

  lemma NodeEndsOpen(n: MemNode, lo: int, hi: int, h: nat)
    requires Tree(n, lo, hi, h) && n.Node?
    ensures EndsOpen(n.children)
  {
  }

  lemma {:induction false} DeleteFromBreaks(n: MemNode, lo: int, hi: int, h: nat, id: FileId)
    requires Tree(n, lo, hi, h) && lo < id <= hi && Filled(n) && Find(n, id).Some? && Cascades(n, id)
    ensures h > 1 ==> Broken(DeleteFrom(n, id))
    ensures h == 1 ==> n.parent != NoParent
    decreases h
  {
    hide Tree, ChildIndex, RebalanceNode, RebalanceLeave, UnsoundBelow, Find;
    Descend(n, lo, hi, h, id);
    var i := ChildIndex(n.children, id);
    var c := n.children[i].node;
    if h > 1 {
      DeleteFromBreaks(c, Bot(n.children, i, lo, hi), Top(n.children[i], hi), h - 1, id);
      if h == 2 { MergesOrPanics(c, Bot(n.children, i, lo, hi), Top(n.children[i], hi), id); }
      match DeleteFrom(c, id)
      case Removed(d, f) => UnsoundAbove(n.parent, n.children, i, d);
      case Merged(d, f) =>
        NodesEndOpen(n, lo, hi, h);
        MergedEndsOpen(c, id);
        RebalanceNodeBreaks(n.parent, n.children[i := Link(d, n.children[i].max)], i, f);
      case _ =>
    }
  }

  // The whole tree

  function Height(root: MemNode, h: nat, r: MemNode): nat {
    if root.Node? && r.Leave? then 0 else h
  }

  /** The file is gone and returned, the others are as before, and the tree is valid. */
  ghost predicate Right(root: MemNode, h: nat, id: FileId, r: Outcome) {
    && r.Ok? && Find(root, id) == Some(r.file)
    && Valid(r.root, Height(root, h, r.root)) && Changes(root, r.root, id, None)
  }

  /** `delete` is right exactly unless a node other than the root would have to be rebalanced. */
  lemma DeleteExact(root: MemNode, h: nat, id: FileId)
    requires Valid(root, h)
    ensures Find(root, id).None? ==> Delete(root, id) == FileDoesNotExist
    ensures Find(root, id).Some? && !Cascades(root, id) ==> Right(root, h, id, Delete(root, id))
    ensures Find(root, id).Some? && Cascades(root, id) ==>
              Delete(root, id) == Panic || (Delete(root, id).Ok? && !AssertValid(Delete(root, id).root))
  {
    hide Tree, Find, Cascades, Changes, DeleteFrom, Sound, UnsoundBelow;
    if Find(root, id).None? {
      DeleteAbsent(root, 0, U64_MAX, h, id);
    } else if !Cascades(root, id) {
      DeleteFromExact(root, 0, U64_MAX, h, id);
      var r := DeleteFrom(root, id);
      if r.Merged? && Len(r.node) == 1 {
        PromoteExact(root, id, r.node);
      }
      TreeKind(root, 0, U64_MAX, h);
    } else {
      TreeKind(root, 0, U64_MAX, h);
      CascadesIsNode(root, id);
      DeleteFromBreaks(root, 0, U64_MAX, h, id);
      var r := DeleteFrom(root, id);
      if r.Removed? || r.Merged? { UnsoundRoot(r.node); }
    }
  }

  lemma TreeKind(n: MemNode, lo: int, hi: int, h: nat)
    requires Tree(n, lo, hi, h)
    ensures n.Leave? <==> h == 0
  {
  }

  lemma CascadesIsNode(n: MemNode, id: FileId)
    requires Cascades(n, id)
    ensures n.Node?
  {
  }

  lemma UnsoundRoot(n: MemNode)
    requires UnsoundBelow(n)
    ensures n.Node? && !Sound(n)
    ensures Len(n) == 1 ==> !Sound(WithParent(n.children[0].node, NoParent))
  {
    var k :| 0 <= k < |n.children| && !Sound(n.children[k].node);
    TreeInsert.UnsoundChild(n.parent, n.children, k);
    assert Sound(WithParent(n.children[k].node, NoParent)) == Sound(n.children[k].node);
  }

  lemma PromoteExact(root: MemNode, id: FileId, m: MemNode)
    requires root.Node? && Deletes(root, 0, U64_MAX, 1, id, m, 1) && Len(m) == 1
    ensures m.Node? && m.children[0].max.None?
    ensures var child := WithParent(m.children[0].node, NoParent);
            child.Leave? && Valid(child, 0) && Changes(root, child, id, None)
  {
    var l := m.children[0];
    assert m.children == [l];
    SegmentFirst(l, 0, U64_MAX, 0);
    forall f ensures Holds(WithParent(l.node, NoParent), f) <==> Holds(m, f) {
      HoldsOne(l, f);
    }
  }
}
