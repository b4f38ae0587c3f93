/** The nodes of the file tree and the search for a file (modules/wasabi-fs/src/mem_tree/mod.rs). */
module TreeNodes {
  import opened Machine

  const LEAVE_MAX_FILE_COUNT: nat := 20
  const NODE_MAX_CHILD_COUNT: nat := 250

  type FileId = x: int | 1 <= x <= U64_MAX witness 1

  /** A file node; `body` stands for everything but its id. */
  datatype File = File(id: FileId, body: nat)

  /** Where the parent pointer of a node leads: nowhere, to the node that holds it, or to another one. */
  datatype Parent = NoParent | Holder | Stale

  datatype MemNode =
    | Leave(parent: Parent, files: seq<File>)
    | Node(parent: Parent, children: seq<Link>)

  /** A child and the largest id of its subtree, which is left open for the last child. */
  datatype Link = Link(node: MemNode, max: Option<FileId>)

  function Len(n: MemNode): nat {
    match n
    case Leave(_, files) => |files|
    case Node(_, children) => |children|
  }

  function Half(n: MemNode): nat {
    if n.Leave? then LEAVE_MAX_FILE_COUNT / 2 else NODE_MAX_CHILD_COUNT / 2
  }

  function WithParent(n: MemNode, parent: Parent): MemNode {
    match n
    case Leave(_, files) => Leave(parent, files)
    case Node(_, children) => Node(parent, children)
  }

  /** Children that have moved to another node keep the pointer to the node they came from. */
  function Moved(cs: seq<Link>): (r: seq<Link>)
    ensures |r| == |cs|
    ensures forall k :: 0 <= k < |cs| ==> r[k] == Link(WithParent(cs[k].node, Stale), cs[k].max)
  {
    seq(|cs|, k requires 0 <= k < |cs| => Link(WithParent(cs[k].node, Stale), cs[k].max))
  }

  function Empty(): MemNode {
    Leave(NoParent, [])
  }

  // What `assert_valid` checks

  predicate Increasing(a: Option<FileId>, b: Option<FileId>) {
    a.Some? && (b.Some? ==> a.value < b.value)
  }

  /** The part of `assert_valid` that does not look at the parent of the node itself. */
  ghost predicate Sound(n: MemNode)
    decreases n, 0
  {
    match n
    case Leave(_, files) => forall i, j :: 0 <= i < j < |files| ==> files[i].id <= files[j].id
    case Node(_, cs) =>
      && |cs| > 0 && cs[|cs| - 1].max.None?
      && (forall i :: 0 <= i < |cs| - 1 ==> Increasing(cs[i].max, cs[i + 1].max))
      && (forall i :: 0 <= i < |cs| ==> SoundChild(cs[i].node))
  }

  ghost predicate SoundChild(n: MemNode)
    decreases n, 1
  {
    n.parent == Holder && Len(n) >= Half(n) && Sound(n)
  }

  /** The part of `assert_valid` that survives writing and loading: files in order, borders increasing, and
      left open for the last child only. */
  ghost predicate Ordered(n: MemNode) {
    match n
    case Leave(_, files) => forall i, j :: 0 <= i < j < |files| ==> files[i].id <= files[j].id
    case Node(_, cs) =>
      && |cs| > 0 && cs[|cs| - 1].max.None?
      && (forall i :: 0 <= i < |cs| - 1 ==> Increasing(cs[i].max, cs[i + 1].max))
      && (forall i :: 0 <= i < |cs| ==> Ordered(cs[i].node))
  }

  lemma {:induction false} SoundOrdered(n: MemNode)
    requires Sound(n)
    ensures Ordered(n)
    decreases n
  {
    match n
    case Leave(_, _) =>
    case Node(_, cs) =>
      forall i | 0 <= i < |cs| ensures Ordered(cs[i].node) {
        assert SoundChild(cs[i].node);
        SoundOrdered(cs[i].node);
      }
  }

  lemma OrderedMoved(n: MemNode, parent: Parent)
    ensures Ordered(WithParent(n, parent)) == Ordered(n)
  {
  }

  lemma UnorderedChild(p: Parent, cs: seq<Link>, i: nat)
    requires i < |cs| && !Ordered(cs[i].node)
    ensures !Ordered(Node(p, cs))
  {
  }

  lemma BadBorder(p: Parent, cs: seq<Link>, k: nat)
    requires k + 1 < |cs| && !Increasing(cs[k].max, cs[k + 1].max)
    ensures !Ordered(Node(p, cs))
  {
  }

  ghost predicate AssertValid(root: MemNode) {
    root.parent == NoParent && Sound(root)
  }

  /** What `assert_valid` asks of every child, at any depth: a leave has ten files or more, a node 125 children. */
  lemma {:induction false} SoundIsHalfFull(n: MemNode, path: seq<nat>)
    requires Sound(n) && LeadsDown(n, path) && path != []
    ensures match Below(n, path)
            case Leave(_, files) => |files| >= 10
            case Node(_, cs) => |cs| >= 125
    decreases |path|
  {
    var c := n.children[path[0]].node;
    assert SoundChild(c);
    if |path| > 1 { SoundIsHalfFull(c, path[1..]); }
  }

  predicate LeadsDown(n: MemNode, path: seq<nat>)
    decreases |path|
  {
    path == [] || (n.Node? && path[0] < |n.children| && LeadsDown(n.children[path[0]].node, path[1..]))
  }

  function Below(n: MemNode, path: seq<nat>): MemNode
    requires LeadsDown(n, path)
    decreases |path|
  {
    if path == [] then n else Below(n.children[path[0]].node, path[1..])
  }

  // The invariant: a search tree of one height

  /** The largest id that may be found behind a link, in a node whose ids end at `hi`. */
  function Top(l: Link, hi: int): int {
    if l.max.Some? then l.max.value else hi
  }

  function Bot(cs: seq<Link>, k: nat, lo: int, hi: int): int
    requires k <= |cs|
  {
    if k == 0 then lo else Top(cs[k - 1], hi)
  }

  ghost predicate Sorted(files: seq<File>) {
    forall i, j :: 0 <= i < j < |files| ==> files[i].id < files[j].id
  }

  ghost predicate Within(files: seq<File>, lo: int, hi: int) {
    forall i :: 0 <= i < |files| ==> lo < files[i].id <= hi
  }

  /** A subtree of height `h` with ids above `lo` and up to `hi`. */
  ghost predicate Tree(n: MemNode, lo: int, hi: int, h: nat)
    decreases h, 0
  {
    match n
    case Leave(_, files) => h == 0 && |files| <= LEAVE_MAX_FILE_COUNT && Sorted(files) && Within(files, lo, hi)
    case Node(_, cs) =>
      && h > 0 && 0 < |cs| <= NODE_MAX_CHILD_COUNT && cs[|cs| - 1].max.None?
      && Segment(cs, lo, hi, h - 1)
  }

  ghost predicate Child(cs: seq<Link>, k: nat, lo: int, hi: int, h: nat)
    requires k < |cs|
    decreases h, 1
  {
    && cs[k].node.parent == Holder && Len(cs[k].node) >= Half(cs[k].node)
    && Bot(cs, k, lo, hi) < Top(cs[k], hi)
    && Tree(cs[k].node, Bot(cs, k, lo, hi), Top(cs[k], hi), h)
  }

  /** Neighbouring children that together cover the ids above `lo` and up to `hi`. */
  ghost predicate Segment(cs: seq<Link>, lo: int, hi: int, h: nat)
    decreases h, 2
  {
    && (forall k :: 0 <= k < |cs| - 1 ==> cs[k].max.Some?)
    && (|cs| > 0 ==> Top(cs[|cs| - 1], hi) == hi)
    && (forall k :: 0 <= k < |cs| ==> Child(cs, k, lo, hi, h))
  }

  ghost predicate Valid(root: MemNode, h: nat) {
    && root.parent == NoParent && Tree(root, 0, U64_MAX, h)
    && (root.Node? ==> |root.children| >= 2)
  }

  // What a tree holds

  ghost predicate Holds(n: MemNode, f: File) {
    match n
    case Leave(_, files) => f in files
    case Node(_, cs) => exists k :: 0 <= k < |cs| && Holds(cs[k].node, f)
  }

  ghost predicate HoldsIn(cs: seq<Link>, f: File) {
    exists k :: 0 <= k < |cs| && Holds(cs[k].node, f)
  }

  lemma HoldsAppend(a: seq<Link>, b: seq<Link>, f: File)
    ensures HoldsIn(a + b, f) <==> HoldsIn(a, f) || HoldsIn(b, f)
  {
    hide Holds;
    if HoldsIn(a, f) {
      var k :| 0 <= k < |a| && Holds(a[k].node, f);
      assert (a + b)[k] == a[k];
    }
    if HoldsIn(b, f) {
      var k :| 0 <= k < |b| && Holds(b[k].node, f);
      assert (a + b)[|a| + k] == b[k];
    }
  }

  lemma HoldsOne(l: Link, f: File)
    ensures HoldsIn([l], f) <==> Holds(l.node, f)
  {
    hide Holds;
    assert [l][0] == l;
  }

  lemma {:induction false} SegmentBounds(cs: seq<Link>, lo: int, hi: int, h: nat, i: nat, j: nat)
    requires Segment(cs, lo, hi, h) && i <= j <= |cs|
    ensures lo <= Bot(cs, i, lo, hi) <= Bot(cs, j, lo, hi) <= hi || |cs| == 0
    ensures i < j ==> Bot(cs, i, lo, hi) < Bot(cs, j, lo, hi)
    decreases j
  {
    hide Tree;
    if |cs| > 0 {
      BotBelow(cs, lo, hi, h, j);
      if i < j {
        assert Child(cs, j - 1, lo, hi, h);
        SegmentBounds(cs, lo, hi, h, i, j - 1);
      } else if i > 0 {
        assert Child(cs, i - 1, lo, hi, h);
        SegmentBounds(cs, lo, hi, h, i - 1, i - 1);
      }
    }
  }

  lemma {:induction false} BotBelow(cs: seq<Link>, lo: int, hi: int, h: nat, j: nat)
    requires Segment(cs, lo, hi, h) && 0 < |cs| && j <= |cs|
    ensures Bot(cs, j, lo, hi) <= hi
    decreases |cs| - j
  {
    hide Tree;
    if j < |cs| {
      assert Child(cs, j, lo, hi, h);
      BotBelow(cs, lo, hi, h, j + 1);
    }
  }

  /** Every file of a subtree has an id in its range. */
  lemma {:induction false} HoldsWithin(n: MemNode, lo: int, hi: int, h: nat, f: File)
    requires Tree(n, lo, hi, h) && Holds(n, f)
    ensures lo < f.id <= hi
    decreases h
  {
    match n
    case Leave(_, files) =>
    case Node(_, cs) =>
      var k :| 0 <= k < |cs| && Holds(cs[k].node, f);
      assert Child(cs, k, lo, hi, h - 1);
      HoldsWithin(cs[k].node, Bot(cs, k, lo, hi), Top(cs[k], hi), h - 1, f);
      SegmentBounds(cs, lo, hi, h - 1, 0, k);
      SegmentBounds(cs, lo, hi, h - 1, k + 1, |cs|);
  }

  // Taking segments apart and putting them together

  lemma SegmentSplit(a: seq<Link>, b: seq<Link>, lo: int, hi: int, h: nat)
    requires Segment(a + b, lo, hi, h) && |a| > 0 && |b| > 0
    ensures a[|a| - 1].max.Some?
    ensures Segment(a, lo, a[|a| - 1].max.value, h)
    ensures Segment(b, a[|a| - 1].max.value, hi, h)
  {
    hide Tree;
    var cs := a + b;
    assert cs[|a| - 1] == a[|a| - 1];
    var m := a[|a| - 1].max.value;
    forall k | 0 <= k < |a| - 1 ensures a[k].max.Some? {
      assert cs[k] == a[k];
    }
    forall k | 0 <= k < |a| ensures Child(a, k, lo, m, h) {
      assert cs[k] == a[k] && (k > 0 ==> cs[k - 1] == a[k - 1]);
      assert Child(cs, k, lo, hi, h);
    }
    forall k | 0 <= k < |b| - 1 ensures b[k].max.Some? {
      assert cs[|a| + k] == b[k];
    }
    assert cs[|cs| - 1] == b[|b| - 1];
    forall k | 0 <= k < |b| ensures Child(b, k, m, hi, h) {
      assert cs[|a| + k] == b[k] && (k > 0 ==> cs[|a| + k - 1] == b[k - 1]);
      assert Child(cs, |a| + k, lo, hi, h);
    }
  }

  lemma SegmentJoin(a: seq<Link>, b: seq<Link>, lo: int, hi: int, h: nat)
    requires |a| > 0 && |b| > 0 && a[|a| - 1].max.Some?
    requires Segment(a, lo, a[|a| - 1].max.value, h)
    requires Segment(b, a[|a| - 1].max.value, hi, h)
    ensures Segment(a + b, lo, hi, h)
  {
    hide Tree;
    var cs := a + b;
    var m := a[|a| - 1].max.value;
    forall k | 0 <= k < |cs| - 1 ensures cs[k].max.Some? {
    }
    forall k | 0 <= k < |cs| ensures Child(cs, k, lo, hi, h) {
      if k < |a| {
        assert Child(a, k, lo, m, h);
      } else {
        assert Child(b, k - |a|, m, hi, h);
      }
    }
  }

  lemma SegmentOne(l: Link, lo: int, hi: int, h: nat)
    requires l.node.parent == Holder && Len(l.node) >= Half(l.node) && lo < hi && Top(l, hi) == hi
    requires Tree(l.node, lo, hi, h)
    ensures Segment([l], lo, hi, h)
  {
    hide Tree;
    assert Child([l], 0, lo, hi, h);
  }

  lemma SegmentFirst(l: Link, lo: int, hi: int, h: nat)
    requires Segment([l], lo, hi, h)
    ensures l.node.parent == Holder && Len(l.node) >= Half(l.node) && lo < hi && Top(l, hi) == hi
    ensures Tree(l.node, lo, hi, h)
  {
    hide Tree;
    assert Child([l], 0, lo, hi, h);
  }

  /** A tree with ids in a range has them in any wider range. */
  lemma {:induction false} Widen(n: MemNode, lo: int, hi: int, lower: int, higher: int, h: nat)
    requires Tree(n, lo, hi, h) && lower <= lo && hi <= higher
    ensures Tree(n, lower, higher, h)
    decreases h, 0
  {
    match n
    case Leave(_, files) =>
    case Node(_, cs) =>
      var g := h - 1;
      forall k | 0 <= k < |cs| ensures Child(cs, k, lower, higher, g) {
        assert Child(cs, k, lo, hi, g);
        SegmentBounds(cs, lo, hi, g, k, k + 1);
        Widen(cs[k].node, Bot(cs, k, lo, hi), Top(cs[k], hi), Bot(cs, k, lower, higher), Top(cs[k], higher), g);
      }
  }

  lemma SegmentWiden(cs: seq<Link>, lo: int, hi: int, lower: int, h: nat)
    requires Segment(cs, lo, hi, h) && lower <= lo
    ensures Segment(cs, lower, hi, h)
  {
    hide Tree;
    forall k | 0 <= k < |cs| ensures Child(cs, k, lower, hi, h) {
      assert Child(cs, k, lo, hi, h);
      Widen(cs[k].node, Bot(cs, k, lo, hi), Top(cs[k], hi), Bot(cs, k, lower, hi), Top(cs[k], hi), h);
    }
  }

  /** The id behind which the links that follow `pre` begin. */
  function Edge(pre: seq<Link>, lo: int): int {
    if pre == [] then lo else Top(pre[|pre| - 1], lo)
  }

  lemma Extract(pre: seq<Link>, mid: seq<Link>, post: seq<Link>, lo: int, hi: int, h: nat)
    requires Segment(pre + mid + post, lo, hi, h) && |mid| > 0
    ensures Segment(mid, Edge(pre, lo), Top(mid[|mid| - 1], hi), h)
    ensures |post| > 0 ==> mid[|mid| - 1].max.Some? && Segment(post, mid[|mid| - 1].max.value, hi, h)
    ensures |pre| > 0 ==> pre[|pre| - 1].max.Some? && Segment(pre, lo, pre[|pre| - 1].max.value, h)
  {
    hide Segment, Tree;
    var rest := mid + post;
    assert pre + mid + post == pre + rest;
    if |pre| > 0 {
      SegmentSplit(pre, rest, lo, hi, h);
    } else {
      assert pre + rest == rest;
    }
    if |post| > 0 {
      SegmentSplit(mid, post, Edge(pre, lo), hi, h);
    } else {
      assert rest == mid;
      LastTop(mid, Edge(pre, lo), hi, h);
    }
  }

  lemma LastTop(cs: seq<Link>, lo: int, hi: int, h: nat)
    requires Segment(cs, lo, hi, h) && |cs| > 0
    ensures Top(cs[|cs| - 1], hi) == hi
  {
  }

  /** Some neighbouring children make way for others in the same range, or in one that ends earlier. */
  lemma Replace(pre: seq<Link>, mid: seq<Link>, post: seq<Link>, fit: seq<Link>, top: int, lo: int, hi: int, h: nat)
    requires Segment(pre + mid + post, lo, hi, h) && |mid| > 0 && |fit| > 0
    requires Segment(fit, Edge(pre, lo), top, h) && top <= Top(mid[|mid| - 1], hi)
    requires if post == [] then top == hi else fit[|fit| - 1].max == Some(top)
    ensures Segment(pre + fit + post, lo, hi, h)
  {
    hide Segment, Tree, Edge;
    Extract(pre, mid, post, lo, hi, h);
    assert post == [] ==> fit + post == fit;
    if |post| > 0 {
      SegmentWiden(post, mid[|mid| - 1].max.value, hi, top, h);
      SegmentJoin(fit, post, Edge(pre, lo), hi, h);
    }
    Prepend(pre, fit + post, lo, hi, h);
    assert pre + fit + post == pre + (fit + post);
  }

  lemma Prepend(pre: seq<Link>, rest: seq<Link>, lo: int, hi: int, h: nat)
    requires |rest| > 0 && Segment(rest, Edge(pre, lo), hi, h)
    requires |pre| > 0 ==> pre[|pre| - 1].max.Some? && Segment(pre, lo, pre[|pre| - 1].max.value, h)
    ensures Segment(pre + rest, lo, hi, h)
  {
    hide Segment, Tree;
    if |pre| > 0 {
      SegmentJoin(pre, rest, lo, hi, h);
    } else {
      assert pre + rest == rest;
    }
  }

  // Changing what a tree holds

  /** The files of `m` are those of `n` with any file of the id replaced by `file`, or left out. */
  ghost predicate Changes(n: MemNode, m: MemNode, id: FileId, file: Option<File>) {
    forall f :: Holds(m, f) <==> file == Some(f) || (Holds(n, f) && f.id != id)
  }

  ghost predicate ChangesIn(cs: seq<Link>, ds: seq<Link>, id: FileId, file: Option<File>) {
    forall f :: HoldsIn(ds, f) <==> file == Some(f) || (HoldsIn(cs, f) && f.id != id)
  }

  lemma HoldsInWithin(cs: seq<Link>, lo: int, hi: int, h: nat, f: File)
    requires Segment(cs, lo, hi, h) && HoldsIn(cs, f)
    ensures lo < f.id <= hi
  {
    hide Tree, Holds;
    var k :| 0 <= k < |cs| && Holds(cs[k].node, f);
    assert Child(cs, k, lo, hi, h);
    HoldsWithin(cs[k].node, Bot(cs, k, lo, hi), Top(cs[k], hi), h, f);
    SegmentBounds(cs, lo, hi, h, 0, k);
    SegmentBounds(cs, lo, hi, h, k + 1, |cs|);
  }

  /** A change among some children is a change of the whole list, if the id falls in their range. */
  lemma ReplaceChanges(pre: seq<Link>, mid: seq<Link>, post: seq<Link>, fit: seq<Link>, lo: int, hi: int, h: nat,
                       id: FileId, file: Option<File>)
    requires Segment(pre + mid + post, lo, hi, h) && |mid| > 0
    requires Edge(pre, lo) < id <= Top(mid[|mid| - 1], hi) && ChangesIn(mid, fit, id, file)
    ensures ChangesIn(pre + mid + post, pre + fit + post, id, file)
  {
    hide Segment, HoldsIn;
    Extract(pre, mid, post, lo, hi, h);
    forall f ensures HoldsIn(pre + fit + post, f) <==> file == Some(f) || (HoldsIn(pre + mid + post, f) && f.id != id) {
      HoldsAppend(pre + fit, post, f);
      HoldsAppend(pre, fit, f);
      HoldsAppend(pre + mid, post, f);
      HoldsAppend(pre, mid, f);
      if |pre| > 0 && HoldsIn(pre, f) {
        HoldsInWithin(pre, lo, Edge(pre, lo), h, f);
      }
      if |post| > 0 && HoldsIn(post, f) {
        HoldsInWithin(post, mid[|mid| - 1].max.value, hi, h, f);
      }
      if |pre| == 0 { HoldsNone(pre, f); }
      if |post| == 0 { HoldsNone(post, f); }
    }
  }

  lemma HoldsNone(cs: seq<Link>, f: File)
    requires |cs| == 0
    ensures !HoldsIn(cs, f)
  {
  }

  lemma Around(cs: seq<Link>, i: nat, n: nat)
    requires i + n <= |cs|
    ensures cs == cs[..i] + cs[i..i + n] + cs[i + n..]
  {
  }

  /** The children around child `i`, and where its range begins and ends. */
  lemma AroundOne(cs: seq<Link>, i: nat, lo: int, hi: int)
    requires i < |cs|
    ensures cs == cs[..i] + [cs[i]] + cs[i + 1..]
    ensures i == 0 || cs[i - 1].max.Some? ==> Edge(cs[..i], lo) == Bot(cs, i, lo, hi)
  {
  }

  lemma TreeIs(n: MemNode, lo: int, hi: int, h: nat)
    requires Tree(n, lo, hi, h) && n.Node? && h > 0
    ensures Segment(n.children, lo, hi, h - 1) && 0 < |n.children| <= NODE_MAX_CHILD_COUNT
    ensures n.children[|n.children| - 1].max.None?
  {
  }

  lemma TreeOf(p: Parent, cs: seq<Link>, lo: int, hi: int, h: nat)
    requires h > 0 && Segment(cs, lo, hi, h - 1) && 0 < |cs| <= NODE_MAX_CHILD_COUNT && cs[|cs| - 1].max.None?
    ensures Tree(Node(p, cs), lo, hi, h)
  {
  }

  lemma BotIsEdge(cs: seq<Link>, i: nat, lo: int, hi: int, h: nat)
    requires Segment(cs, lo, hi, h) && i < |cs|
    ensures cs == cs[..i] + [cs[i]] + cs[i + 1..] && Edge(cs[..i], lo) == Bot(cs, i, lo, hi)
    ensures i + 1 < |cs| ==> cs[i].max.Some?
  {
    AroundOne(cs, i, lo, hi);
  }

  lemma InnerMax(cs: seq<Link>, lo: int, hi: int, h: nat, k: nat)
    requires Segment(cs, lo, hi, h) && k + 1 < |cs|
    ensures cs[k].max.Some?
  {
  }

  /** Child `i` is exchanged for one with the same range. */
  lemma UpdateChild(n: MemNode, lo: int, hi: int, h: nat, i: nat, c: MemNode)
    requires Tree(n, lo, hi, h) && n.Node? && i < |n.children| && h > 0
    requires c.parent == Holder && Len(c) >= Half(c)
    requires Tree(c, Bot(n.children, i, lo, hi), Top(n.children[i], hi), h - 1)
    ensures Tree(Node(n.parent, n.children[i := Link(c, n.children[i].max)]), lo, hi, h)
  {
    var cs, g := n.children, h - 1;
    var ds := cs[i := Link(c, cs[i].max)];
    forall k | 0 <= k < |ds| ensures Child(ds, k, lo, hi, g) {
      assert Child(cs, k, lo, hi, g);
    }
  }

  lemma UpdateChanges(n: MemNode, lo: int, hi: int, h: nat, i: nat, c: MemNode, id: FileId, file: Option<File>)
    requires Tree(n, lo, hi, h) && n.Node? && i < |n.children| && h > 0
    requires Bot(n.children, i, lo, hi) < id <= Top(n.children[i], hi) && Changes(n.children[i].node, c, id, file)
    ensures Changes(n, Node(n.parent, n.children[i := Link(c, n.children[i].max)]), id, file)
  {
    var cs := n.children;
    var ds := cs[i := Link(c, cs[i].max)];
    AroundOne(cs, i, lo, hi);
    AroundOne(ds, i, lo, hi);
    OneChanges(cs[i], ds[i], id, file);
    ReplaceChanges(cs[..i], [cs[i]], cs[i + 1..], [ds[i]], lo, hi, h - 1, id, file);
    assert ds[..i] == cs[..i] && ds[i + 1..] == cs[i + 1..];
    NodeChanges(n.parent, cs, n.parent, ds, id, file);
  }

  lemma OneChanges(a: Link, b: Link, id: FileId, file: Option<File>)
    requires Changes(a.node, b.node, id, file)
    ensures ChangesIn([a], [b], id, file)
  {
    hide Holds, HoldsIn;
    forall f ensures HoldsIn([b], f) <==> file == Some(f) || (HoldsIn([a], f) && f.id != id) {
      HoldsOne(a, f);
      HoldsOne(b, f);
    }
  }

  lemma NodeChanges(p: Parent, cs: seq<Link>, q: Parent, ds: seq<Link>, id: FileId, file: Option<File>)
    requires ChangesIn(cs, ds, id, file)
    ensures Changes(Node(p, cs), Node(q, ds), id, file)
  {
    forall f ensures Holds(Node(q, ds), f) <==> file == Some(f) || (Holds(Node(p, cs), f) && f.id != id) {
      assert HoldsIn(ds, f) <==> file == Some(f) || (HoldsIn(cs, f) && f.id != id);
    }
  }

  // Search

  /** The first child whose largest id is not below `id`; the number of children if there is none. */
  function ChildIndex(cs: seq<Link>, id: FileId): (i: nat)
    ensures i <= |cs|
  {
    if |cs| == 0 || cs[0].max.None? || id <= cs[0].max.value then 0 else 1 + ChildIndex(cs[1..], id)
  }

  lemma {:induction false} ChildIndexIs(cs: seq<Link>, lo: int, hi: int, h: nat, id: FileId)
    requires Segment(cs, lo, hi, h) && |cs| > 0 && lo < id <= hi
    ensures ChildIndex(cs, id) < |cs|
    ensures var i := ChildIndex(cs, id); Bot(cs, i, lo, hi) < id <= Top(cs[i], hi)
    decreases |cs|
  {
    hide Tree;
    if cs[0].max.Some? && id > cs[0].max.value {
      assert cs == [cs[0]] + cs[1..];
      if |cs| > 1 {
        SegmentSplit([cs[0]], cs[1..], lo, hi, h);
        ChildIndexIs(cs[1..], cs[0].max.value, hi, h, id);
      }
    }
  }

  /** The leave that should contain `id`. */
  function LeaveFor(n: MemNode, id: FileId): Option<MemNode> {
    match n
    case Leave(_, _) => Some(n)
    case Node(_, cs) =>
      var i := ChildIndex(cs, id);
      if i == |cs| then None else LeaveFor(cs[i].node, id)
  }

  function Position(files: seq<File>, id: FileId): (p: Option<nat>)
    ensures p.Some? ==> p.value < |files| && files[p.value].id == id && forall k :: 0 <= k < p.value ==> files[k].id != id
    ensures p.None? ==> forall k :: 0 <= k < |files| ==> files[k].id != id
  {
    if |files| == 0 then None
    else if files[0].id == id then Some(0)
    else match Position(files[1..], id)
         case None => None
         case Some(p) => Some(p + 1)
  }

  function Find(n: MemNode, id: FileId): Option<File> {
    match LeaveFor(n, id)
    case None => None
    case Some(leave) =>
      if leave.Node? then None
      else match Position(leave.files, id)
           case None => None
           case Some(p) => Some(leave.files[p])
  }

  /** The search finds exactly the files the tree holds. */
  lemma {:induction false} FindExact(n: MemNode, lo: int, hi: int, h: nat, id: FileId, f: File)
    requires Tree(n, lo, hi, h) && lo < id <= hi
    ensures LeaveFor(n, id).Some? && LeaveFor(n, id).value.Leave?
    ensures Find(n, id) == Some(f) <==> Holds(n, f) && f.id == id
    decreases h
  {
    match n
    case Leave(_, files) =>
    case Node(_, cs) =>
      ChildIndexIs(cs, lo, hi, h - 1, id);
      var i := ChildIndex(cs, id);
      assert Child(cs, i, lo, hi, h - 1);
      FindExact(cs[i].node, Bot(cs, i, lo, hi), Top(cs[i], hi), h - 1, id, f);
      if Holds(n, f) && f.id == id {
        OnlyChild(cs, lo, hi, h - 1, id, i, f);
      }
  }

  /** A file is held by the child whose range its id falls in. */
  lemma OnlyChild(cs: seq<Link>, lo: int, hi: int, h: nat, id: FileId, i: nat, f: File)
    requires Segment(cs, lo, hi, h) && i < |cs| && Bot(cs, i, lo, hi) < id <= Top(cs[i], hi)
    requires HoldsIn(cs, f) && f.id == id
    ensures Holds(cs[i].node, f)
  {
    hide Tree, Holds;
    var k :| 0 <= k < |cs| && Holds(cs[k].node, f);
    assert Child(cs, k, lo, hi, h);
    HoldsWithin(cs[k].node, Bot(cs, k, lo, hi), Top(cs[k], hi), h, f);
    if k < i {
      SegmentBounds(cs, lo, hi, h, k + 1, i);
    } else if i < k {
      SegmentBounds(cs, lo, hi, h, i + 1, k);
    }
  }

  /** One step of the search: the child it goes to, and that child's range. */
  lemma Descend(n: MemNode, lo: int, hi: int, h: nat, id: FileId)
    requires Tree(n, lo, hi, h) && n.Node? && lo < id <= hi
    ensures h > 0 && 0 < |n.children| <= NODE_MAX_CHILD_COUNT && ChildIndex(n.children, id) < |n.children|
    ensures var i := ChildIndex(n.children, id);
            && Bot(n.children, i, lo, hi) < id <= Top(n.children[i], hi)
            && n.children[i].node.parent == Holder && Len(n.children[i].node) >= Half(n.children[i].node)
            && Tree(n.children[i].node, Bot(n.children, i, lo, hi), Top(n.children[i], hi), h - 1)
            && (n.children[i].node.Leave? <==> h == 1)
            && Find(n, id) == Find(n.children[i].node, id)
  {
    ChildIndexIs(n.children, lo, hi, h - 1, id);
    assert Child(n.children, ChildIndex(n.children, id), lo, hi, h - 1);
  }
}
