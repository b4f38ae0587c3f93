/** What a splice means, on values: the steps of the lazy iterator of `StaticVec::splice`
    (forked-libs/staticvec/src/iterators.rs) and the vector it leaves behind. */
module Splice {
  import opened Machine
  import opened Sequences

  /** The vector, the part of the range not yet yielded, and the replacement items not yet used. */
  datatype State<T> = State(vec: seq<T>, start: nat, end: nat, pending: seq<T>)

  ghost predicate Valid<T>(st: State<T>) {
    st.start <= st.end <= |st.vec|
  }

  /** `next`: the first item of the range leaves; a replacement takes its place, or the gap closes. */
  function Next<T>(st: State<T>): (r: (State<T>, Option<T>))
    requires Valid(st)
    ensures Valid(r.0)
  {
    if st.end == st.start then (st, None)
    else if |st.pending| > 0 then
      (State(st.vec[st.start := st.pending[0]], st.start + 1, st.end, st.pending[1..]), Some(st.vec[st.start]))
    else
      (State(RemoveAt(st.vec, st.start), st.start, st.end - 1, st.pending), Some(st.vec[st.start]))
  }

  /** `next_back`: the same at the other end of the range and of the replacement. */
  function NextBack<T>(st: State<T>): (r: (State<T>, Option<T>))
    requires Valid(st)
    ensures Valid(r.0)
  {
    if st.end == st.start then (st, None)
    else if |st.pending| > 0 then
      var n := |st.pending| - 1;
      (State(st.vec[st.end - 1 := st.pending[n]], st.start, st.end - 1, st.pending[..n]), Some(st.vec[st.end - 1]))
    else
      (State(RemoveAt(st.vec, st.end - 1), st.start, st.end - 1, st.pending), Some(st.vec[st.end - 1]))
  }

  /** `drop`, first part: yield the rest of the range to nobody. */
  function Drain<T>(st: State<T>): (r: State<T>)
    requires Valid(st)
    ensures Valid(r) && r.start == r.end
    decreases st.end - st.start
  {
    if st.end == st.start then st else Drain(Next(st).0)
  }

  /** The items `drop` takes out of the range. */
  function DrainItems<T>(st: State<T>): seq<T>
    requires Valid(st)
    decreases st.end - st.start
  {
    if st.end == st.start then [] else Yielded(Next(st).1) + DrainItems(Next(st).0)
  }

  /** `drop`, second part: insert what is left of the replacement, as long as the vector has room. */
  function Fill<T>(st: State<T>, capacity: nat): (r: State<T>)
    requires Valid(st)
    ensures Valid(r)
    decreases |st.pending|
  {
    if |st.pending| == 0 || |st.vec| == capacity then st
    else Fill(State(InsertAt(st.vec, st.end, st.pending[0]), st.start, st.end + 1, st.pending[1..]), capacity)
  }

  datatype End = Front | Back

  function Reverse<T>(s: seq<T>): seq<T> {
    if |s| == 0 then [] else [s[|s| - 1]] + Reverse(s[..|s| - 1])
  }

  /** The state, the items yielded at the front and the items yielded at the back, in yield order. */
  datatype Trace<T> = Trace(st: State<T>, front: seq<T>, back: seq<T>)

  function Yielded<T>(o: Option<T>): seq<T> {
    if o.Some? then [o.value] else []
  }

  function Step<T>(t: Trace<T>, end: End): (r: Trace<T>)
    requires Valid(t.st)
    ensures Valid(r.st)
  {
    match end
    case Front => Trace(Next(t.st).0, t.front + Yielded(Next(t.st).1), t.back)
    case Back => Trace(NextBack(t.st).0, t.front, t.back + Yielded(NextBack(t.st).1))
  }

  /** Any interleaving of `next` and `next_back`. */
  function Run<T>(t: Trace<T>, ends: seq<End>): (r: Trace<T>)
    requires Valid(t.st)
    ensures Valid(r.st)
  {
    if |ends| == 0 then t else Step(Run(t, ends[..|ends| - 1]), ends[|ends| - 1])
  }

  // ----- The shape every reachable state has -----

  /** The pieces of a splice: what stands before and after the range, the range, and the replacement. */
  datatype Job<T> = Job(before: seq<T>, range: seq<T>, after: seq<T>, replacement: seq<T>)

  function Start<T>(job: Job<T>): State<T> {
    State(job.before + job.range + job.after, |job.before|, |job.before| + |job.range|, job.replacement)
  }

  function Left<T>(job: Job<T>, f: nat): seq<T>
    requires f <= |job.replacement|
  {
    job.before + job.replacement[..f]
  }

  function Right<T>(job: Job<T>, b: nat): seq<T>
    requires b <= |job.replacement|
  {
    job.replacement[|job.replacement| - b..] + job.after
  }

  /** `f` replacements placed at the front and `b` at the back; `p` and `q` items of the range gone there. */
  ghost predicate Shape<T>(job: Job<T>, st: State<T>, f: nat, b: nat, p: nat, q: nat) {
    var n, m := |job.range|, |job.replacement|;
    && f + b <= m && p + q <= n && f <= p && b <= q
    && st.vec == Left(job, f) + job.range[p..n - q] + Right(job, b)
    && st.start == |Left(job, f)| && st.end == st.start + (n - q - p)
    && st.pending == job.replacement[f..m - b]
  }

  lemma ShapeStart<T>(job: Job<T>)
    ensures Shape(job, Start(job), 0, 0, 0, 0)
  {
    assert Left(job, 0) == job.before && Right(job, 0) == job.after;
  }

  lemma FirstOf<T>(l: seq<T>, m: seq<T>, r: seq<T>, x: T)
    requires |m| > 0
    ensures (l + m + r)[|l|] == m[0]
    ensures (l + m + r)[|l| := x] == (l + [x]) + m[1..] + r
    ensures RemoveAt(l + m + r, |l|) == l + m[1..] + r
  {
  }

  lemma LastOf<T>(l: seq<T>, m: seq<T>, r: seq<T>, x: T)
    requires |m| > 0
    ensures var k := |l| + |m| - 1;
            && (l + m + r)[k] == m[|m| - 1]
            && (l + m + r)[k := x] == l + m[..|m| - 1] + ([x] + r)
            && RemoveAt(l + m + r, k) == l + m[..|m| - 1] + r
  {
  }

  lemma Grows<T>(job: Job<T>, k: nat)
    requires k < |job.replacement|
    ensures Left(job, k) + [job.replacement[k]] == Left(job, k + 1)
    ensures [job.replacement[|job.replacement| - 1 - k]] + Right(job, k) == Right(job, k + 1)
  {
  }

  lemma ShapeNext<T>(job: Job<T>, st: State<T>, f: nat, b: nat, p: nat, q: nat)
    requires Shape(job, st, f, b, p, q) && p + q < |job.range|
    ensures Valid(st) && st.start < st.end && Next(st).1 == Some(job.range[p])
    ensures f + b < |job.replacement| ==> Shape(job, Next(st).0, f + 1, b, p + 1, q)
    ensures f + b == |job.replacement| ==> Shape(job, Next(st).0, f, b, p + 1, q)
  {
    hide Left, Right, RemoveAt;
    var m := job.range[p..|job.range| - q];
    assert m[1..] == job.range[p + 1..|job.range| - q];
    FirstOf(Left(job, f), m, Right(job, b), if f + b < |job.replacement| then job.replacement[f] else m[0]);
    if f + b < |job.replacement| {
      Grows(job, f);
    }
  }

  lemma ShapeNextBack<T>(job: Job<T>, st: State<T>, f: nat, b: nat, p: nat, q: nat)
    requires Shape(job, st, f, b, p, q) && p + q < |job.range|
    ensures Valid(st) && st.start < st.end && NextBack(st).1 == Some(job.range[|job.range| - 1 - q])
    ensures f + b < |job.replacement| ==> Shape(job, NextBack(st).0, f, b + 1, p, q + 1)
    ensures f + b == |job.replacement| ==> Shape(job, NextBack(st).0, f, b, p, q + 1)
  {
    hide Left, Right, RemoveAt;
    var n := |job.replacement|;
    var m := job.range[p..|job.range| - q];
    assert m[..|m| - 1] == job.range[p..|job.range| - q - 1];
    LastOf(Left(job, f), m, Right(job, b), if f + b < n then job.replacement[n - 1 - b] else m[0]);
    if f + b < n {
      Grows(job, b);
    }
  }

  // ----- What drop completes -----

  /** Draining uses up the range; the items it removes are the ones not yet yielded. */
  lemma {:induction false} DrainShape<T>(job: Job<T>, st: State<T>, f: nat, b: nat, p: nat, q: nat) returns (g: nat)
    requires Shape(job, st, f, b, p, q) && Valid(st)
    ensures Shape(job, Drain(st), g, b, |job.range| - q, q)
    ensures p + q <= |job.range| && DrainItems(st) == job.range[p..|job.range| - q]
    decreases |job.range| - q - p
  {
    hide Shape, Next, Valid;
    ShapeCount(job, st, f, b, p, q);
    if p + q == |job.range| {
      g := f;
    } else {
      ShapeNext(job, st, f, b, p, q);
      g := DrainShape(job, Next(st).0, if f + b < |job.replacement| then f + 1 else f, b, p + 1, q);
      assert job.range[p..|job.range| - q] == [job.range[p]] + job.range[p + 1..|job.range| - q];
    }
  }

  lemma ShapeCount<T>(job: Job<T>, st: State<T>, f: nat, b: nat, p: nat, q: nat)
    requires Shape(job, st, f, b, p, q)
    ensures f + b <= |job.replacement| && p + q <= |job.range|
    ensures st.end - st.start == |job.range| - q - p
    ensures |st.vec| == |job.before| + f + (|job.range| - q - p) + b + |job.after|
  {
  }

  lemma LeftLength<T>(job: Job<T>, k: nat)
    requires k <= |job.replacement|
    ensures |Left(job, k)| == |job.before| + k && |Right(job, k)| == |job.after| + k
  {
  }

  lemma InsertBetween<T>(l: seq<T>, r: seq<T>, x: T)
    ensures InsertAt(l + r, |l|, x) == (l + [x]) + r
  {
  }

  /** Filling places further replacement items until they run out or the vector is full. */
  lemma {:induction false} FillShape<T>(job: Job<T>, st: State<T>, capacity: nat, f: nat, b: nat)
    requires f + b <= |job.replacement| && Valid(st) && |st.vec| <= capacity
    requires st.vec == Left(job, f) + Right(job, b) && st.end == |Left(job, f)|
    requires st.pending == job.replacement[f..|job.replacement| - b]
    ensures var g := Min(|job.replacement| - b, capacity - |job.before| - |job.after| - b);
            g >= f && Fill(st, capacity).vec == Left(job, g) + Right(job, b)
    decreases |job.replacement| - f
  {
    hide Left, Right, InsertAt;
    LeftLength(job, f);
    LeftLength(job, b);
    if |st.pending| > 0 && |st.vec| < capacity {
      var next := State(InsertAt(st.vec, st.end, st.pending[0]), st.start, st.end + 1, st.pending[1..]);
      InsertBetween(Left(job, f), Right(job, b), st.pending[0]);
      Grows(job, f);
      LeftLength(job, f + 1);
      FillShape(job, next, capacity, f + 1, b);
    }
  }

  // ----- Every interleaving -----

  /** What has been yielded is the two ends of the range, the back one in reverse. */
  ghost predicate YieldedEnds<T>(job: Job<T>, t: Trace<T>, p: nat, q: nat) {
    && p + q <= |job.range|
    && t.front == job.range[..p]
    && Reverse(t.back) == job.range[|job.range| - q..]
  }

  /** How many of the first `n` calls are at the given end. */
  function CallsAt(ends: seq<End>, end: End, n: nat): nat
    requires n <= |ends|
  {
    if n == 0 then 0 else CallsAt(ends, end, n - 1) + if ends[n - 1] == end then 1 else 0
  }

  lemma {:induction false} CallsAtPrefix(ends: seq<End>, end: End, m: nat, n: nat)
    requires n <= m <= |ends|
    ensures CallsAt(ends[..m], end, n) == CallsAt(ends, end, n)
    ensures Back !in ends ==> CallsAt(ends, Back, n) == 0
    decreases n
  {
    if n > 0 {
      CallsAtPrefix(ends, end, m, n - 1);
      assert ends[n - 1] in ends;
    }
  }

  /** The calls that yield an item are those made while the range lasts; the calls that place a replacement are those
      made while both last. */
  ghost predicate Counted<T>(job: Job<T>, ends: seq<End>, f: nat, b: nat, p: nat, q: nat) {
    var n := Min(|ends|, |job.range|);
    var m := Min(n, |job.replacement|);
    && p == CallsAt(ends, Front, n) && q == CallsAt(ends, Back, n) && p + q == n
    && f == CallsAt(ends, Front, m) && b == CallsAt(ends, Back, m) && f + b == m
  }

  lemma CountedNext<T>(job: Job<T>, ends: seq<End>, f: nat, b: nat, p: nat, q: nat)
    requires |ends| > 0 && Counted(job, ends[..|ends| - 1], f, b, p, q)
    ensures var e, more, place := ends[|ends| - 1], p + q < |job.range|, p + q < |job.range| && f + b < |job.replacement|;
            Counted(job, ends, if place && e.Front? then f + 1 else f, if place && e.Back? then b + 1 else b,
                    if more && e.Front? then p + 1 else p, if more && e.Back? then q + 1 else q)
  {
    var k := |ends| - 1;
    var n := Min(k, |job.range|);
    var m := Min(n, |job.replacement|);
    CallsAtPrefix(ends, Front, k, n);
    CallsAtPrefix(ends, Back, k, n);
    CallsAtPrefix(ends, Front, k, m);
    CallsAtPrefix(ends, Back, k, m);
  }

  lemma {:induction false} RunShape<T>(job: Job<T>, ends: seq<End>) returns (f: nat, b: nat, p: nat, q: nat)
    ensures var t := Run(Trace(Start(job), [], []), ends);
            Shape(job, t.st, f, b, p, q) && YieldedEnds(job, t, p, q)
    ensures Counted(job, ends, f, b, p, q)
    decreases |ends|
  {
    hide Shape, Next, NextBack, Start, Valid, YieldedEnds, Counted;
    var t0 := Trace(Start(job), [], []);
    StartValid(job);
    if |ends| == 0 {
      ShapeStart(job);
      NothingYielded(job, Start(job));
      f, b, p, q := 0, 0, 0, 0;
      NothingCounted(job, ends);
    } else {
      var e := ends[|ends| - 1];
      f, b, p, q := RunShape(job, ends[..|ends| - 1]);
      var t := Run(t0, ends[..|ends| - 1]);
      ShapeCount(job, t.st, f, b, p, q);
      CountedNext(job, ends, f, b, p, q);
      if p + q == |job.range| {
        StepAtEnd(t, e);
      } else if e.Front? {
        ShapeNext(job, t.st, f, b, p, q);
        YieldFront(job, t, Next(t.st).0, p, q);
        f, p := if f + b < |job.replacement| then f + 1 else f, p + 1;
      } else {
        ShapeNextBack(job, t.st, f, b, p, q);
        YieldBack(job, t, NextBack(t.st).0, p, q);
        b, q := if f + b < |job.replacement| then b + 1 else b, q + 1;
      }
    }
  }

  lemma NothingCounted<T>(job: Job<T>, ends: seq<End>)
    requires |ends| == 0
    ensures Counted(job, ends, 0, 0, 0, 0)
  {
  }

  lemma StartValid<T>(job: Job<T>)
    ensures Valid(Start(job))
  {
  }

  lemma StepAtEnd<T>(t: Trace<T>, e: End)
    requires Valid(t.st) && t.st.start == t.st.end
    ensures Step(t, e) == t
  {
  }

  lemma NothingYielded<T>(job: Job<T>, st: State<T>)
    ensures YieldedEnds(job, Trace(st, [], []), 0, 0)
  {
  }

  lemma YieldFront<T>(job: Job<T>, t: Trace<T>, st: State<T>, p: nat, q: nat)
    requires YieldedEnds(job, t, p, q) && p + q < |job.range|
    ensures YieldedEnds(job, Trace(st, t.front + [job.range[p]], t.back), p + 1, q)
  {
  }

  lemma YieldBack<T>(job: Job<T>, t: Trace<T>, st: State<T>, p: nat, q: nat)
    requires YieldedEnds(job, t, p, q) && p + q < |job.range|
    ensures YieldedEnds(job, Trace(st, t.front, t.back + [job.range[|job.range| - 1 - q]]), p, q + 1)
  {
    var x := job.range[|job.range| - 1 - q];
    assert (t.back + [x])[..|t.back|] == t.back;
  }

  /** The vector after any interleaving and a drop. `b` replacement items went in at the back; of the others as
      many as fit follow in order. Together the removed items are exactly the old range. */
  lemma SpliceMeaning<T>(job: Job<T>, ends: seq<End>, capacity: nat) returns (b: nat)
    requires |job.before| + |job.range| + |job.after| <= capacity
    ensures Valid(Start(job)) && b <= |job.replacement|
    ensures var t := Run(Trace(Start(job), [], []), ends);
            var room := capacity - |job.before| - |job.after| - b;
            && room >= 0
            && Fill(Drain(t.st), capacity).vec == Left(job, Min(|job.replacement| - b, room)) + Right(job, b)
            && t.front + DrainItems(t.st) + Reverse(t.back) == job.range
    ensures var t, n := Run(Trace(Start(job), [], []), ends), Min(|ends|, |job.range|);
            && |t.front| == CallsAt(ends, Front, n) && |t.back| == CallsAt(ends, Back, n)
            && b == CallsAt(ends, Back, Min(n, |job.replacement|))
    ensures Back !in ends ==> b == 0
  {
    hide Next, NextBack, Start, Left, Right, Drain, DrainItems, Run, Fill;
    StartValid(job);
    var f, p, q;
    f, b, p, q := RunShape(job, ends);
    CallsAtPrefix(ends, Back, |ends|, Min(Min(|ends|, |job.range|), |job.replacement|));
    var t := Run(Trace(Start(job), [], []), ends);
    ReverseLength(t.back);
    var g := DrainShape(job, t.st, f, b, p, q);
    var st := Drain(t.st);
    LeftLength(job, g);
    LeftLength(job, b);
    var m := job.range[|job.range| - q..|job.range| - q];
    assert m == [] && Left(job, g) + m + Right(job, b) == Left(job, g) + Right(job, b);
    FillShape(job, st, capacity, g, b);
    assert job.range == job.range[..p] + job.range[p..|job.range| - q] + job.range[|job.range| - q..];
  }

  lemma ReverseLength<T>(s: seq<T>)
    ensures |Reverse(s)| == |s|
  {
  }

  /** If the result fits, a splice replaces the range by the replacement, however it is consumed. */
  lemma SpliceReplaces<T>(job: Job<T>, ends: seq<End>, capacity: nat)
    requires |job.before| + |job.range| + |job.after| <= capacity
    requires |job.before| + |job.replacement| + |job.after| <= capacity
    ensures Valid(Start(job))
    ensures Fill(Drain(Run(Trace(Start(job), [], []), ends).st), capacity).vec
            == job.before + job.replacement + job.after
  {
    hide Start, Drain, Run, Fill, Reverse, DrainItems;
    var b := SpliceMeaning(job, ends, capacity);
    var n := |job.replacement|;
    assert job.replacement == job.replacement[..n - b] + job.replacement[n - b..];
  }

  /** Consumed from the front only, a replacement that does not fit is cut to its longest prefix that does. */
  lemma SpliceTruncates<T>(job: Job<T>, ends: seq<End>, capacity: nat)
    requires |job.before| + |job.range| + |job.after| <= capacity && Back !in ends
    ensures Valid(Start(job))
    ensures var n := Min(|job.replacement|, capacity - |job.before| - |job.after|);
            Fill(Drain(Run(Trace(Start(job), [], []), ends).st), capacity).vec
            == job.before + job.replacement[..n] + job.after
  {
    hide Start, Drain, Run, Fill, Reverse, DrainItems;
    var b := SpliceMeaning(job, ends, capacity);
    assert job.replacement[|job.replacement|..] == [];
  }
}
