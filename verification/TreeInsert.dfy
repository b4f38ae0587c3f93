/** Inserting into the file tree (modules/wasabi-fs/src/mem_tree/mod.rs, `insert` and the splits). */
module TreeInsert {
  import opened Machine
  import opened Sequences
  import opened TreeNodes

  /** What an insertion into a subtree reports to the node above. */
  datatype Insertion =
    | Done(node: MemNode)
    | Exists
    | Split(left: MemNode, splitId: FileId, right: MemNode, rightMax: FileId)
    | Panicked

  datatype Outcome = Ok(root: MemNode) | FileNodeExists | Panic

  /** The first file with a larger id, or the end. */
  function InsertPosition(files: seq<File>, id: FileId): (p: nat)
    ensures p <= |files|
    ensures forall k :: 0 <= k < p ==> files[k].id <= id
    ensures p < |files| ==> files[p].id > id
  {
    if |files| == 0 || files[0].id > id then 0 else 1 + InsertPosition(files[1..], id)
  }

  function InsertInLeave(parent: Parent, files: seq<File>, file: File, createOnly: bool): Insertion {
    match Position(files, file.id)
    case Some(p) => if createOnly then Exists else Done(Leave(parent, files[p := file]))
    case None =>
      var p := InsertPosition(files, file.id);
      if |files| < LEAVE_MAX_FILE_COUNT then
        Done(Leave(parent, InsertAt(files, p, file)))
      else
        var half := LEAVE_MAX_FILE_COUNT / 2;
        var left, right := files[..half], files[half..];
        if |left| != |right| then Panicked
        else if p <= half then
          SplitLeave(parent, InsertAt(left, p, file), right)
        else
          SplitLeave(parent, left, InsertAt(right, p - half, file))
  }

  function SplitLeave(parent: Parent, left: seq<File>, right: seq<File>): Insertion {
    if left == [] || right == [] then Panicked
    else Split(Leave(parent, left), left[|left| - 1].id, Leave(parent, right), right[|right| - 1].id)
  }

  function MaxUnlessLast(position: nat, count: nat, max: FileId): Option<FileId> {
    if position != count then Some(max) else None
  }

  /** `insert_split`: child `i` has become `left`, and `right` goes behind it. */
  function InsertSplit(parent: Parent, cs: seq<Link>, i: nat, left: MemNode, splitId: FileId,
                       right: MemNode, rightMax: FileId): Insertion
    requires i < |cs|
  {
    var at := i + 1;
    if |cs| < NODE_MAX_CHILD_COUNT then
      var link := Link(right, MaxUnlessLast(at, |cs|, rightMax));
      Done(Node(parent, InsertAt(cs[i := Link(left, Some(splitId))], at, link)))
    else
      var half := NODE_MAX_CHILD_COUNT / 2;
      var cs := cs[i := Link(left, cs[i].max)];
      var low, high := cs[..half], cs[half..];
      if |low| != |high| then Panicked
      else if at <= half then
        SplitNode(parent, InsertAt(low, at, Link(right, MaxUnlessLast(at, |low|, rightMax))), high, rightMax)
      else
        SplitNode(parent, low, InsertAt(high, at - half, Link(right, MaxUnlessLast(at - half, |high|, rightMax))), rightMax)
  }

  function SplitNode(parent: Parent, low: seq<Link>, high: seq<Link>, rightMax: FileId): Insertion {
    if low == [] || low[|low| - 1].max.None? then Panicked
    else Split(Node(parent, low), low[|low| - 1].max.value, Node(parent, Moved(high)), rightMax)
  }

  function InsertInto(n: MemNode, file: File, createOnly: bool): Insertion {
    match n
    case Leave(parent, files) => InsertInLeave(parent, files, file, createOnly)
    case Node(parent, cs) =>
      var i := ChildIndex(cs, file.id);
      if i == |cs| then Panicked
      else match InsertInto(cs[i].node, file, createOnly)
           case Done(c) => Done(Node(parent, cs[i := Link(c, cs[i].max)]))
           case Exists => Exists
           case Split(left, splitId, right, rightMax) => InsertSplit(parent, cs, i, left, splitId, right, rightMax)
           case Panicked => Panicked
  }

  /** `insert_split_at_root`: a new root above the two halves, whose parent pointers are set. */
  function NewRoot(left: MemNode, splitId: FileId, right: MemNode): MemNode {
    Node(NoParent, [Link(WithParent(left, Holder), Some(splitId)), Link(WithParent(right, Holder), None)])
  }

  function Insert(root: MemNode, file: File, createOnly: bool): Outcome {
    match InsertInto(root, file, createOnly)
    case Done(n) => Ok(n)
    case Exists => FileNodeExists
    case Split(left, splitId, right, _) => Ok(NewRoot(left, splitId, right))
    case Panicked => Panic
  }

  // Leaves

  ghost predicate SplitAdds(n: MemNode, left: MemNode, right: MemNode, file: File) {
    forall f :: Holds(left, f) || Holds(right, f) <==> f == file || (Holds(n, f) && f.id != file.id)
  }

  lemma Inserted<T>(s: seq<T>, i: nat, x: T)
    requires i <= |s|
    ensures var r := InsertAt(s, i, x);
            && r[i] == x && (forall k :: 0 <= k < i ==> r[k] == s[k]) && (forall k :: i < k < |r| ==> r[k] == s[k - 1])
            && forall y :: y in r <==> y == x || y in s
  {
    var r := InsertAt(s, i, x);
    forall y | y in s ensures y in r {
      var k :| 0 <= k < |s| && s[k] == y;
      assert r[if k < i then k else k + 1] == y;
    }
  }

  lemma InsertSorted(files: seq<File>, file: File, lo: int, hi: int)
    requires Sorted(files) && Within(files, lo, hi) && lo < file.id <= hi && Position(files, file.id).None?
    ensures var r := InsertAt(files, InsertPosition(files, file.id), file);
            && Sorted(r) && Within(r, lo, hi)
            && forall f :: f in r <==> f == file || (f in files && f.id != file.id)
  {
    hide InsertAt, InsertPosition, Position;
    var p := InsertPosition(files, file.id);
    Inserted(files, p, file);
  }

  lemma ReplaceSorted(files: seq<File>, p: nat, file: File, lo: int, hi: int)
    requires Sorted(files) && Within(files, lo, hi) && p < |files| && files[p].id == file.id
    ensures var r := files[p := file];
            && Sorted(r) && Within(r, lo, hi)
            && forall f :: f in r <==> f == file || (f in files && f.id != file.id)
  {
    var r := files[p := file];
    forall f | f in files && f.id != file.id ensures f in r {
      var k :| 0 <= k < |files| && files[k] == f;
      assert r[k] == f;
    }
    assert r[p] == file;
  }

  /** Cutting a sorted list in two leaves two sorted lists, the first of which ends at its last id. */
  lemma CutSorted(a: seq<File>, b: seq<File>, lo: int, hi: int)
    requires Sorted(a + b) && Within(a + b, lo, hi) && |a| > 0 && |b| > 0
    ensures var s, m := a[|a| - 1].id, b[|b| - 1].id;
            && lo < s < m <= hi && Sorted(a) && Within(a, lo, s) && Sorted(b) && Within(b, s, m)
  {
    var c := a + b;
    assert forall k :: 0 <= k < |a| ==> c[k] == a[k];
    assert forall k :: 0 <= k < |b| ==> c[|a| + k] == b[k];
    var s, m := a[|a| - 1].id, b[|b| - 1].id;
    assert c[|a| - 1].id == s && c[|c| - 1].id == m;
    forall k | 0 <= k < |b| ensures s < b[k].id <= m {
      assert c[|a| + k] == b[k];
    }
    forall i, j | 0 <= i < j < |b| ensures b[i].id < b[j].id {
      assert c[|a| + i] == b[i] && c[|a| + j] == b[j];
    }
  }

  /** What an insertion below `n` delivers when nothing goes wrong. */
  ghost predicate Inserts(n: MemNode, lo: int, hi: int, h: nat, file: File, r: Insertion) {
    match r
    case Done(m) =>
      && Tree(m, lo, hi, h) && m.parent == n.parent && m.Node? == n.Node? && Len(m) >= Len(n)
      && Changes(n, m, file.id, Some(file))
    case Split(left, s, right, max) =>
      && n.Leave? && Len(n) == LEAVE_MAX_FILE_COUNT
      && lo < s < max <= hi && Tree(left, lo, s, h) && Tree(right, s, max, h)
      && left.parent == n.parent == right.parent && Len(left) >= Half(left) && Len(right) >= Half(right)
      && left.Leave? && right.Leave? && SplitAdds(n, left, right, file)
    case _ => false
  }

  lemma InsertInLeaveExact(n: MemNode, lo: int, hi: int, file: File, createOnly: bool)
    requires Tree(n, lo, hi, 0) && n.Leave? && lo < file.id <= hi
    ensures var r := InsertInto(n, file, createOnly);
            if Position(n.files, file.id).Some? && createOnly then r == Exists else Inserts(n, lo, hi, 0, file, r)
    ensures Position(n.files, file.id).Some? && !createOnly ==> InsertInto(n, file, createOnly).Done?
    ensures Position(n.files, file.id).None? && Len(n) == LEAVE_MAX_FILE_COUNT ==> InsertInto(n, file, createOnly).Split?
  {
    var files := n.files;
    var at := Position(files, file.id);
    if at.Some? {
      ReplaceSorted(files, at.value, file, lo, hi);
    } else {
      InsertSorted(files, file, lo, hi);
      if |files| == LEAVE_MAX_FILE_COUNT {
        SplitLeaveExact(n, lo, hi, file, createOnly);
      }
    }
  }

  /** Inserting into one of the halves is inserting first and halving afterwards. */
  lemma InsertInHalf(files: seq<File>, p: nat, half: nat, file: File)
    requires p <= |files| && half <= |files|
    ensures p <= half ==> InsertAt(files[..half], p, file) + files[half..] == InsertAt(files, p, file)
    ensures p > half ==> files[..half] + InsertAt(files[half..], p - half, file) == InsertAt(files, p, file)
  {
    if p > half {
      assert files[half..][..p - half] == files[half..p];
      assert files[..p] == files[..half] + files[half..p];
    } else {
      assert files[..half][p..] == files[p..half];
      assert files[p..] == files[p..half] + files[half..];
    }
  }

  /** Two halves of the enlarged list make two leaves. */
  lemma HalvesMakeLeaves(n: MemNode, lo: int, hi: int, file: File, all: seq<File>, a: seq<File>, b: seq<File>)
    requires n.Leave? && Len(n) == LEAVE_MAX_FILE_COUNT
    requires Sorted(all) && Within(all, lo, hi) && all == a + b
    requires forall f :: f in all <==> f == file || (f in n.files && f.id != file.id)
    requires LEAVE_MAX_FILE_COUNT / 2 <= |a| <= LEAVE_MAX_FILE_COUNT && LEAVE_MAX_FILE_COUNT / 2 <= |b| <= LEAVE_MAX_FILE_COUNT
    ensures Inserts(n, lo, hi, 0, file, SplitLeave(n.parent, a, b))
  {
    CutSorted(a, b, lo, hi);
    forall f ensures f in a || f in b <==> f == file || (f in n.files && f.id != file.id) {
      assert f in a + b <==> f in all;
    }
  }

  lemma FullLeaveSplits(parent: Parent, files: seq<File>, file: File, createOnly: bool)
    requires Position(files, file.id).None? && |files| == LEAVE_MAX_FILE_COUNT
    ensures var p, half := InsertPosition(files, file.id), LEAVE_MAX_FILE_COUNT / 2;
            InsertInLeave(parent, files, file, createOnly)
            == if p <= half then SplitLeave(parent, InsertAt(files[..half], p, file), files[half..])
               else SplitLeave(parent, files[..half], InsertAt(files[half..], p - half, file))
  {
    hide SplitLeave, InsertAt, InsertPosition, Position;
  }

  /** The first half gets the new file if the file behind it has a larger id; each half is bordered by its last id. */
  lemma SplitSizes(n: MemNode, file: File, createOnly: bool)
    requires n.Leave? && Sorted(n.files) && Position(n.files, file.id).None? && |n.files| == LEAVE_MAX_FILE_COUNT
    ensures var r, half := InsertInto(n, file, createOnly), LEAVE_MAX_FILE_COUNT / 2;
            && r.Split? && r.left.Leave? && r.right.Leave?
            && Len(r.left) == (if n.files[half].id > file.id then half + 1 else half) && Len(r.left) + Len(r.right) == 2 * half + 1
            && r.splitId == r.left.files[Len(r.left) - 1].id && r.rightMax == r.right.files[Len(r.right) - 1].id
  {
    hide InsertPosition, Position;
    var p, half := InsertPosition(n.files, file.id), LEAVE_MAX_FILE_COUNT / 2;
    assert n.files[half].id > file.id <==> p <= half;
  }

  lemma SplitLeaveExact(n: MemNode, lo: int, hi: int, file: File, createOnly: bool)
    requires Tree(n, lo, hi, 0) && n.Leave? && lo < file.id <= hi
    requires Position(n.files, file.id).None? && |n.files| == LEAVE_MAX_FILE_COUNT
    ensures Inserts(n, lo, hi, 0, file, InsertInto(n, file, createOnly))
  {
    hide Inserts, SplitLeave, InsertAt, InsertPosition, Position, Sorted, Within, ChildIndex, InsertSplit, InsertInLeave;
    var files := n.files;
    var p := InsertPosition(files, file.id);
    var half := LEAVE_MAX_FILE_COUNT / 2;
    FullLeaveSplits(n.parent, files, file, createOnly);
    InsertSorted(files, file, lo, hi);
    InsertInHalf(files, p, half, file);
    var all := InsertAt(files, p, file);
    if p <= half {
      HalvesMakeLeaves(n, lo, hi, file, all, InsertAt(files[..half], p, file), files[half..]);
    } else {
      HalvesMakeLeaves(n, lo, hi, file, all, files[..half], InsertAt(files[half..], p - half, file));
    }
  }

  // Nodes

  /** A full leave below a node with room becomes two neighbours, each bordered by its last id; the last child of a node
      is left without a border, and the other children are the same. */
  lemma SplitBorders(n: MemNode, i: nat, file: File, createOnly: bool)
    requires n.Node? && i == ChildIndex(n.children, file.id) < |n.children| < NODE_MAX_CHILD_COUNT && n.children[i].node.Leave?
    requires var files := n.children[i].node.files;
             Sorted(files) && Position(files, file.id).None? && |files| == LEAVE_MAX_FILE_COUNT
    ensures var r, cs := InsertInto(n, file, createOnly), n.children;
            && r.Done? && r.node.Node? && |r.node.children| == |cs| + 1
            && (forall k :: 0 <= k < i ==> r.node.children[k] == cs[k])
            && (forall k :: i + 1 < k <= |cs| ==> r.node.children[k] == cs[k - 1])
            && var a, b := r.node.children[i], r.node.children[i + 1];
               && a.node.Leave? && b.node.Leave? && Len(a.node) > 0 && Len(b.node) > 0
               && a.max == Some(a.node.files[Len(a.node) - 1].id)
               && b.max == if i + 1 == |cs| then None else Some(b.node.files[Len(b.node) - 1].id)
  {
    var cs := n.children;
    SplitSizes(cs[i].node, file, createOnly);
    SplitWithRoom(n, i, file, createOnly);
    hide InsertInLeave, ChildIndex, Position, InsertAt, InsertInto, InsertSplit;
    var r := InsertInto(cs[i].node, file, createOnly);
    InsertedBehind(cs, i, Link(r.left, Some(r.splitId)), Link(r.right, MaxUnlessLast(i + 1, |cs|, r.rightMax)));
  }

  lemma SplitWithRoom(n: MemNode, i: nat, file: File, createOnly: bool)
    requires n.Node? && i == ChildIndex(n.children, file.id) < |n.children| < NODE_MAX_CHILD_COUNT
    requires InsertInto(n.children[i].node, file, createOnly).Split?
    ensures var r, cs := InsertInto(n.children[i].node, file, createOnly), n.children;
            InsertInto(n, file, createOnly)
            == Done(Node(n.parent, InsertAt(cs[i := Link(r.left, Some(r.splitId))], i + 1,
                                            Link(r.right, MaxUnlessLast(i + 1, |cs|, r.rightMax)))))
  {
    hide InsertInLeave, ChildIndex, InsertAt, MaxUnlessLast;
  }

  lemma InsertedBehind(cs: seq<Link>, i: nat, x: Link, y: Link)
    requires i < |cs|
    ensures var t := InsertAt(cs[i := x], i + 1, y);
            && |t| == |cs| + 1 && t[i] == x && t[i + 1] == y
            && (forall k :: 0 <= k < i ==> t[k] == cs[k]) && (forall k :: i + 1 < k < |t| ==> t[k] == cs[k - 1])
  {
  }

  /** The leave for the id is full and so is the node above it. */
  predicate SplitsTwice(n: MemNode, id: FileId) {
    n.Node?
    && var i := ChildIndex(n.children, id);
       i < |n.children|
       && if n.children[i].node.Leave? then |n.children[i].node.files| >= LEAVE_MAX_FILE_COUNT
                                            && |n.children| >= NODE_MAX_CHILD_COUNT
          else SplitsTwice(n.children[i].node, id)
  }

  /** With room for one more child, a split below makes two children out of one. */
  lemma InsertSplitExact(n: MemNode, lo: int, hi: int, h: nat, i: nat, file: File,
                         left: MemNode, s: FileId, right: MemNode, max: FileId)
    requires Tree(n, lo, hi, h) && n.Node? && h > 0 && i < |n.children| < NODE_MAX_CHILD_COUNT
    requires Bot(n.children, i, lo, hi) < file.id <= Top(n.children[i], hi)
    requires n.children[i].node.parent == Holder
    requires Inserts(n.children[i].node, Bot(n.children, i, lo, hi), Top(n.children[i], hi), h - 1, file,
                     Split(left, s, right, max))
    ensures Inserts(n, lo, hi, h, file, InsertSplit(n.parent, n.children, i, left, s, right, max))
  {
    hide Tree, Segment, Holds, HoldsIn, ChangesIn, Changes;
    var cs, g := n.children, h - 1;
    TreeIs(n, lo, hi, h);
    var link := Link(right, MaxUnlessLast(i + 1, |cs|, max));
    var ds := InsertAt(cs[i := Link(left, Some(s))], i + 1, link);
    var fit := [Link(left, Some(s)), link];
    assert ds == cs[..i] + fit + cs[i + 1..];
    BotIsEdge(cs, i, lo, hi, g);
    var top := if i + 1 == |cs| then hi else max;
    LastTop(cs, lo, hi, g);
    assert Segment(fit, Edge(cs[..i], lo), top, g) by {
      Widen(right, s, max, s, top, g);
      SegmentOne(Link(left, Some(s)), Edge(cs[..i], lo), s, g);
      SegmentOne(link, s, top, g);
      SegmentJoin([Link(left, Some(s))], [link], Edge(cs[..i], lo), top, g);
      assert fit == [Link(left, Some(s))] + [link];
    }
    Replace(cs[..i], [cs[i]], cs[i + 1..], fit, top, lo, hi, g);
    TwoForOne(cs[i], Link(left, Some(s)), link, file);
    ReplaceChanges(cs[..i], [cs[i]], cs[i + 1..], fit, lo, hi, g, file.id, Some(file));
    NodeChanges(n.parent, cs, n.parent, ds, file.id, Some(file));
    assert ds[|ds| - 1] == if i + 1 == |cs| then link else cs[|cs| - 1];
    TreeOf(n.parent, ds, lo, hi, h);
  }

  lemma TwoForOne(a: Link, b: Link, c: Link, file: File)
    requires SplitAdds(a.node, b.node, c.node, file)
    ensures ChangesIn([a], [b, c], file.id, Some(file))
  {
    hide Holds, HoldsIn;
    assert [b, c] == [b] + [c];
    forall f ensures HoldsIn([b, c], f) <==> Some(file) == Some(f) || (HoldsIn([a], f) && f.id != file.id) {
      HoldsAppend([b], [c], f);
      HoldsOne(a, f);
      HoldsOne(b, f);
      HoldsOne(c, f);
    }
  }

  /** Unless two levels have to split, an insertion keeps the subtree a search tree and adds the file. */
  lemma {:induction false} InsertIntoExact(n: MemNode, lo: int, hi: int, h: nat, file: File, createOnly: bool)
    requires Tree(n, lo, hi, h) && lo < file.id <= hi
    requires Find(n, file.id).Some? || !SplitsTwice(n, file.id)
    ensures var r := InsertInto(n, file, createOnly);
            if Find(n, file.id).Some? && createOnly then r == Exists else Inserts(n, lo, hi, h, file, r)
    ensures Find(n, file.id).Some? && !createOnly ==> InsertInto(n, file, createOnly).Done?
    decreases h
  {
    match n
    case Leave(_, files) => InsertInLeaveExact(n, lo, hi, file, createOnly);
    case Node(parent, cs) =>
      hide Tree, InsertInLeave, ChildIndex, InsertSplit;
      Descend(n, lo, hi, h, file.id);
      var i := ChildIndex(cs, file.id);
      InsertIntoExact(cs[i].node, Bot(cs, i, lo, hi), Top(cs[i], hi), h - 1, file, createOnly);
      match InsertInto(cs[i].node, file, createOnly)
      case Done(c) =>
        UpdateChild(n, lo, hi, h, i, c);
        UpdateChanges(n, lo, hi, h, i, c, file.id, Some(file));
      case Split(left, s, right, max) =>
        InsertSplitExact(n, lo, hi, h, i, file, left, s, right, max);
      case _ =>
  }

  // When two levels have to split

  /** Whatever comes of the insertion, its borders are wrong. */
  ghost predicate Broken(r: Insertion) {
    match r
    case Done(m) => !Ordered(m)
    case Exists => false
    case Split(left, _, right, _) => !Ordered(left) || !Ordered(right)
    case Panicked => true
  }

  lemma UnsoundChild(p: Parent, cs: seq<Link>, i: nat)
    requires i < |cs| && !SoundChild(cs[i].node)
    ensures !Sound(Node(p, cs))
  {
  }

  /** A node with wrong borders in one of its halves. */
  lemma SplitNodeBreaks(parent: Parent, low: seq<Link>, high: seq<Link>, max: FileId)
    requires !Ordered(Node(parent, low)) || !Ordered(Node(parent, Moved(high)))
    ensures Broken(SplitNode(parent, low, high, max))
  {
    hide Ordered;
  }

  /** In a full node the child that was split keeps its old border, and the border put behind it is not larger. */
  ghost predicate OldBorderStays(cs: seq<Link>, i: nat, max: FileId) {
    && i < |cs| == NODE_MAX_CHILD_COUNT
    && (if i + 1 < |cs| then cs[i].max.Some? && max <= cs[i].max.value else cs[i].max.None?)
  }

  lemma FullSplitBreaks(parent: Parent, cs: seq<Link>, i: nat, left: MemNode, s: FileId, right: MemNode, max: FileId)
    requires OldBorderStays(cs, i, max)
    ensures Broken(InsertSplit(parent, cs, i, left, s, right, max))
  {
    hide Ordered, SplitNode, InsertAt, Broken;
    var half := NODE_MAX_CHILD_COUNT / 2;
    var ds := cs[i := Link(left, cs[i].max)];
    var at := i + 1;
    if at < half {
      var low := InsertAt(ds[..half], at, Link(right, Some(max)));
      Inserted(ds[..half], at, Link(right, Some(max)));
      BadBorder(parent, low, i);
      SplitNodeBreaks(parent, low, ds[half..], max);
    } else if at == half {
      MiddlePanics(parent, ds, right, max);
    } else {
      var p := at - half;
      var link := Link(right, MaxUnlessLast(p, half, max));
      var high := InsertAt(ds[half..], p, link);
      Inserted(ds[half..], p, link);
      assert high[p - 1] == ds[i];
      BadBorder(parent, Moved(high), p - 1);
      SplitNodeBreaks(parent, ds[..half], high, max);
    }
  }

  lemma MiddlePanics(parent: Parent, ds: seq<Link>, right: MemNode, max: FileId)
    requires |ds| == NODE_MAX_CHILD_COUNT
    ensures var half := NODE_MAX_CHILD_COUNT / 2;
            Broken(SplitNode(parent, InsertAt(ds[..half], half, Link(right, MaxUnlessLast(half, half, max))), ds[half..], max))
  {
    var half := NODE_MAX_CHILD_COUNT / 2;
    var link := Link(right, None);
    Inserted(ds[..half], half, link);
  }

  /** A child with wrong borders inside, or a new one behind it, in the list it is put in. */
  lemma UnorderedInserted(parent: Parent, ds: seq<Link>, i: nat, link: Link)
    requires i < |ds| && (!Ordered(ds[i].node) || !Ordered(link.node))
    ensures !Ordered(Node(parent, InsertAt(ds, i + 1, link))) && !Ordered(Node(parent, Moved(InsertAt(ds, i + 1, link))))
  {
    hide Ordered, InsertAt;
    var r := InsertAt(ds, i + 1, link);
    Inserted(ds, i + 1, link);
    var k := if Ordered(ds[i].node) then i + 1 else i;
    UnorderedChild(parent, r, k);
    OrderedMoved(r[k].node, Stale);
    UnorderedChild(parent, Moved(r), k);
  }

  /** A child with wrong borders inside stays where it is or moves to the upper half. */
  lemma DeepBreaks(parent: Parent, cs: seq<Link>, i: nat, left: MemNode, s: FileId, right: MemNode, max: FileId)
    requires i < |cs| <= NODE_MAX_CHILD_COUNT && (!Ordered(left) || !Ordered(right))
    ensures Broken(InsertSplit(parent, cs, i, left, s, right, max))
  {
    if |cs| < NODE_MAX_CHILD_COUNT {
      DeepBreaksWithRoom(parent, cs, i, left, s, right, max);
    } else {
      DeepBreaksInHalf(parent, cs, i, left, s, right, max);
    }
  }

  lemma DeepBreaksWithRoom(parent: Parent, cs: seq<Link>, i: nat, left: MemNode, s: FileId, right: MemNode, max: FileId)
    requires i < |cs| < NODE_MAX_CHILD_COUNT && (!Ordered(left) || !Ordered(right))
    ensures Broken(InsertSplit(parent, cs, i, left, s, right, max))
  {
    hide Ordered, InsertAt, Moved;
    var ds, link := cs[i := Link(left, Some(s))], Link(right, MaxUnlessLast(i + 1, |cs|, max));
    assert ds[i].node == left && link.node == right;
    UnorderedInserted(parent, ds, i, link);
  }

  lemma DeepBreaksInHalf(parent: Parent, cs: seq<Link>, i: nat, left: MemNode, s: FileId, right: MemNode, max: FileId)
    requires i < |cs| == NODE_MAX_CHILD_COUNT && (!Ordered(left) || !Ordered(right))
    ensures Broken(InsertSplit(parent, cs, i, left, s, right, max))
  {
    hide Ordered, SplitNode, InsertAt, Moved, Broken;
    var half, at := NODE_MAX_CHILD_COUNT / 2, i + 1;
    var ds := cs[i := Link(left, cs[i].max)];
    var low, high := ds[..half], ds[half..];
    if at <= half {
      var link := Link(right, MaxUnlessLast(at, half, max));
      assert low[i].node == left;
      UnorderedInserted(parent, low, i, link);
      SplitNodeBreaks(parent, InsertAt(low, at, link), high, max);
    } else {
      var link := Link(right, MaxUnlessLast(at - half, half, max));
      assert high[i - half].node == left;
      UnorderedInserted(parent, high, i - half, link);
      SplitNodeBreaks(parent, low, InsertAt(high, at - half, link), max);
    }
  }

  lemma {:induction false} InsertIntoBreaks(n: MemNode, lo: int, hi: int, h: nat, file: File, createOnly: bool)
    requires Tree(n, lo, hi, h) && lo < file.id <= hi
    requires Find(n, file.id).None? && SplitsTwice(n, file.id)
    ensures Broken(InsertInto(n, file, createOnly))
    decreases h
  {
    hide Ordered, InsertSplit, Tree, InsertInLeave, ChildIndex;
    var cs := n.children;
    Descend(n, lo, hi, h, file.id);
    var i := ChildIndex(cs, file.id);
    var c := cs[i].node;
    if c.Leave? {
      InsertInLeaveExact(c, Bot(cs, i, lo, hi), Top(cs[i], hi), file, createOnly);
      BorderOf(n, lo, hi, h, i);
    } else {
      InsertIntoBreaks(c, Bot(cs, i, lo, hi), Top(cs[i], hi), h - 1, file, createOnly);
    }
    match InsertInto(c, file, createOnly)
    case Done(d) =>
      UnorderedChild(n.parent, cs[i := Link(d, cs[i].max)], i);
    case Split(left, s, right, max) =>
      if c.Leave? {
        FullSplitBreaks(n.parent, cs, i, left, s, right, max);
      } else {
        DeepBreaks(n.parent, cs, i, left, s, right, max);
      }
    case _ =>
  }

  lemma BorderOf(n: MemNode, lo: int, hi: int, h: nat, i: nat)
    requires Tree(n, lo, hi, h) && n.Node? && i < |n.children|
    ensures i + 1 < |n.children| <==> n.children[i].max.Some?
  {
  }

  // The whole tree

  lemma {:induction false} TreeSound(n: MemNode, lo: int, hi: int, h: nat)
    requires Tree(n, lo, hi, h)
    ensures Sound(n)
    decreases h
  {
    match n
    case Leave(_, _) =>
    case Node(_, cs) =>
      var g := h - 1;
      forall k | 0 <= k < |cs| ensures SoundChild(cs[k].node) {
        assert Child(cs, k, lo, hi, g);
        TreeSound(cs[k].node, Bot(cs, k, lo, hi), Top(cs[k], hi), g);
      }
      forall k | 0 <= k < |cs| - 1 ensures Increasing(cs[k].max, cs[k + 1].max) {
        assert Child(cs, k + 1, lo, hi, g);
      }
  }

  /** The height grows by one when a single leave splits. */
  function Height(root: MemNode, h: nat, r: MemNode): nat {
    if root.Leave? && r.Node? then h + 1 else h
  }

  /** `insert` is right exactly unless the leave for a new file and the node above it are both full. */
  lemma InsertExact(root: MemNode, h: nat, file: File, createOnly: bool)
    requires Valid(root, h)
    ensures Find(root, file.id).Some? && createOnly ==> Insert(root, file, createOnly) == FileNodeExists
    ensures Find(root, file.id).Some? && !createOnly ==> Right(root, h, file, Insert(root, file, createOnly))
    ensures Find(root, file.id).None? && !SplitsTwice(root, file.id) ==> Right(root, h, file, Insert(root, file, createOnly))
    ensures Find(root, file.id).None? && SplitsTwice(root, file.id) ==>
              Insert(root, file, createOnly) == Panic
              || (Insert(root, file, createOnly).Ok? && !Ordered(Insert(root, file, createOnly).root))
  {
    hide Tree, Ordered, Find, Changes, SplitsTwice, InsertInto;
    if Find(root, file.id).None? && SplitsTwice(root, file.id) {
      InsertIntoBreaks(root, 0, U64_MAX, h, file, createOnly);
      var r := InsertInto(root, file, createOnly);
      if r.Split? { NewRootUnordered(r.left, r.splitId, r.right); }
    } else {
      InsertIntoExact(root, 0, U64_MAX, h, file, createOnly);
      var r := InsertInto(root, file, createOnly);
      if r.Split? { NewRootExact(root, h, file, r); }
    }
  }

  /** The file is in, the others are as before, and the tree is a search tree that passes `assert_valid`. */
  ghost predicate Right(root: MemNode, h: nat, file: File, r: Outcome) {
    r.Ok? && Valid(r.root, Height(root, h, r.root)) && Changes(root, r.root, file.id, Some(file))
  }

  lemma NewRootUnordered(left: MemNode, s: FileId, right: MemNode)
    requires !Ordered(left) || !Ordered(right)
    ensures !Ordered(NewRoot(left, s, right))
  {
    hide Ordered;
    OrderedMoved(left, Holder);
    OrderedMoved(right, Holder);
    UnorderedChild(NoParent, NewRoot(left, s, right).children, if Ordered(left) then 1 else 0);
  }

  lemma NewRootExact(root: MemNode, h: nat, file: File, r: Insertion)
    requires Valid(root, h) && r.Split? && Inserts(root, 0, U64_MAX, h, file, r)
    ensures Valid(NewRoot(r.left, r.splitId, r.right), 1)
    ensures h == 0 && root.Leave? && Changes(root, NewRoot(r.left, r.splitId, r.right), file.id, Some(file))
  {
    var left, right := WithParent(r.left, Holder), WithParent(r.right, Holder);
    var a, b := Link(left, Some(r.splitId)), Link(right, None);
    Widen(r.right, r.splitId, r.rightMax, r.splitId, U64_MAX, 0);
    SegmentOne(a, 0, r.splitId, 0);
    SegmentOne(b, r.splitId, U64_MAX, 0);
    SegmentJoin([a], [b], 0, U64_MAX, 0);
    assert NewRoot(r.left, r.splitId, r.right).children == [a] + [b];
    forall f ensures Holds(NewRoot(r.left, r.splitId, r.right), f) <==> f == file || (Holds(root, f) && f.id != file.id) {
      HoldsAppend([a], [b], f);
      HoldsOne(a, f);
      HoldsOne(b, f);
    }
  }
}
