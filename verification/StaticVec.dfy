/** The fixed-capacity vector, its splice iterator and its in-place sort
    (forked-libs/staticvec/src/lib.rs, forked-libs/staticvec/src/iterators.rs). */
module StaticVecs {
  import opened Machine
  import opened Sequences
  import opened QuickSort
  import S = Splice

  /** One end of a range argument. */
  datatype Bound = Included(idx: nat) | Excluded(idx: nat) | Unbounded

  function StartOf(b: Bound): nat {
    match b
    case Included(idx) => idx
    case Excluded(idx) => idx + 1
    case Unbounded => 0
  }

  function EndOf(b: Bound, length: nat): nat {
    match b
    case Included(idx) => idx + 1
    case Excluded(idx) => idx
    case Unbounded => length
  }

  /** Position `k` is not in front of a start bound. */
  predicate FromBound(b: Bound, k: nat) {
    match b
    case Included(idx) => idx <= k
    case Excluded(idx) => idx < k
    case Unbounded => true
  }

  /** Position `k` is not behind an end bound. */
  predicate UpToBound(b: Bound, k: nat) {
    match b
    case Included(idx) => k <= idx
    case Excluded(idx) => k < idx
    case Unbounded => true
  }

  /** The bounds describe a range of a vector of `n` elements: every position in front of the start lies inside and not
      behind the end, and the end does not lie outside. */
  ghost predicate InRange(start: Bound, end: Bound, n: nat) {
    && (end.Unbounded? || !UpToBound(end, n))
    && forall k: nat :: !FromBound(start, k) ==> k < n && UpToBound(end, k)
  }

  /** The positions of the range are those from `lo` up to `hi`. */
  ghost predicate Cuts(start: Bound, end: Bound, n: nat, lo: nat, hi: nat) {
    && lo <= hi <= n
    && forall k: nat :: k < n ==> (lo <= k <==> FromBound(start, k)) && (k < hi <==> UpToBound(end, k))
  }

  lemma BoundsAreRight(start: Bound, end: Bound, n: nat)
    ensures InRange(start, end, n) <==> StartOf(start) <= EndOf(end, n) <= n
    ensures InRange(start, end, n) ==> Cuts(start, end, n, StartOf(start), EndOf(end, n))
  {
    var lo, hi := StartOf(start), EndOf(end, n);
    if InRange(start, end, n) {
      assert lo > 0 ==> !FromBound(start, lo - 1);
    }
  }

  class StaticVec<T(0, !new)> {
    const data: array<T>
    var length: nat

    ghost predicate Valid()
      reads this
    {
      length <= data.Length
    }

    function Contents(): seq<T>
      requires length <= data.Length
      reads this, data
    {
      data[..length]
    }

    constructor (capacity: nat)
      ensures Valid() && Contents() == [] && data.Length == capacity && fresh(data)
    {
      data := new T[capacity];
      length := 0;
    }

    method RemoveUnchecked(index: nat) returns (x: T)
      requires Valid() && index < length
      modifies this`length, data
      ensures Valid() && x == old(Contents())[index] && Contents() == RemoveAt(old(Contents()), index)
    {
      x := data[index];
      forall k | index <= k < length - 1 { data[k] := data[k + 1]; }
      length := length - 1;
    }

    /** Fails, changing nothing, when the vector is full or the index is past its end. */
    method Insert(index: nat, value: T) returns (ok: bool)
      requires Valid()
      modifies this`length, data
      ensures Valid() && (ok <==> old(length) < data.Length && index <= old(length))
      ensures ok ==> Contents() == InsertAt(old(Contents()), index, value)
      ensures !ok ==> Contents() == old(Contents())
    {
      if length >= data.Length || index > length { return false; }
      forall k | index < k <= length { data[k] := data[k - 1]; }
      data[index] := value;
      length := length + 1;
      return true;
    }

    /** The inhabited part is rearranged, and sorted when the comparison is a strict weak order; what lies
        behind it is not touched. */
    method QuicksortUnstable(lt: (T, T) -> bool)
      requires Valid() && Irreflexive(lt)
      modifies data
      ensures Valid() && data[length..] == old(data[length..])
      ensures multiset(Contents()) == multiset(old(Contents()))
      ensures StrictWeakOrder(lt) ==> Sorted(lt, Contents(), 0, length - 1)
    {
      if length < 2 { return; }
      ghost var depth := QuickSortInternal(data, lt, 0, length - 1);
      assert data[..][0..length] == data[..length];
      assert old(data[..])[0..length] == old(data[..length]);
    }

    method Splice(start: Bound, end: Bound, replaceWith: seq<T>) returns (r: Option<StaticVecSplice<T>>)
      requires Valid()
      ensures r.Some? <==> InRange(start, end, length)
      ensures r.Some? ==>
                var lo, hi := r.value.start, r.value.end;
                && fresh(r.value) && r.value.vec == this && r.value.Valid() && Cuts(start, end, length, lo, hi)
                && r.value.State() == S.Start(S.Job(Contents()[..lo], Contents()[lo..hi], Contents()[hi..], replaceWith))
    {
      BoundsAreRight(start, end, length);
      var lo, hi := StartOf(start), EndOf(end, length);
      if !(lo <= hi <= length) { return None; }
      var splice := new StaticVecSplice(this, lo, hi, replaceWith);
      assert Contents() == Contents()[..lo] + Contents()[lo..hi] + Contents()[hi..];
      return Some(splice);
    }
  }

  class StaticVecSplice<T(0, !new)> {
    const vec: StaticVec<T>
    var start: nat
    var end: nat
    var replaceWith: seq<T>

    ghost predicate Valid()
      reads this, vec
    {
      start <= end <= vec.length <= vec.data.Length
    }

    function State(): S.State<T>
      requires vec.length <= vec.data.Length
      reads this, vec, vec.data
    {
      S.State(vec.Contents(), start, end, replaceWith)
    }

    constructor (v: StaticVec<T>, lo: nat, hi: nat, items: seq<T>)
      requires lo <= hi <= v.length <= v.data.Length
      ensures vec == v && Valid() && State() == S.State(v.Contents(), lo, hi, items)
    {
      vec, start, end, replaceWith := v, lo, hi, items;
    }

    method Next() returns (r: Option<T>)
      requires Valid()
      modifies this, vec`length, vec.data
      ensures Valid() && State() == S.Next(old(State())).0 && r == S.Next(old(State())).1
    {
      if end - start == 0 { return None; }
      if |replaceWith| > 0 {
        r := Some(vec.data[start]);
        vec.data[start] := replaceWith[0];
        replaceWith := replaceWith[1..];
        start := start + 1;
      } else {
        var removed := vec.RemoveUnchecked(start);
        end := end - 1;
        r := Some(removed);
      }
    }

    method NextBack() returns (r: Option<T>)
      requires Valid()
      modifies this, vec`length, vec.data
      ensures Valid() && State() == S.NextBack(old(State())).0 && r == S.NextBack(old(State())).1
    {
      if end - start == 0 { return None; }
      if |replaceWith| > 0 {
        r := Some(vec.data[end - 1]);
        vec.data[end - 1] := replaceWith[|replaceWith| - 1];
        replaceWith := replaceWith[..|replaceWith| - 1];
        end := end - 1;
      } else {
        var removed := vec.RemoveUnchecked(end - 1);
        end := end - 1;
        r := Some(removed);
      }
    }

    /** Finishes the edit: the rest of the range goes, the rest of the replacement comes in while there is room. */
    method Drop()
      requires Valid()
      modifies this, vec`length, vec.data
      ensures vec.Valid() && vec.Contents() == S.Fill(S.Drain(old(State())), vec.data.Length).vec
    {
      ghost var st := State();
      while true
        invariant Valid() && S.Drain(State()) == S.Drain(st)
        decreases end - start
      {
        var yielded := Next();
        if yielded.None? { break; }
      }
      ghost var drained := S.Drain(st);
      while |replaceWith| > 0
        invariant Valid() && S.Fill(State(), vec.data.Length) == S.Fill(drained, vec.data.Length)
        decreases |replaceWith|
      {
        var item := replaceWith[0];
        if vec.length == vec.data.Length { break; }
        var ok := vec.Insert(end, item);
        replaceWith := replaceWith[1..];
        end := end + 1;
      }
    }
  }

  function JobOf<T>(contents: seq<T>, lo: nat, hi: nat, replaceWith: seq<T>): S.Job<T>
    requires lo <= hi <= |contents|
  {
    S.Job(contents[..lo], contents[lo..hi], contents[hi..], replaceWith)
  }

  /** What is in the vector after a splice: `b` replacement items were placed from the back, of the others as many as
      fit follow from the front. */
  predicate Spliced<T(==)>(job: S.Job<T>, capacity: nat, b: nat, contents: seq<T>) {
    var n, room := |job.replacement|, capacity - |job.before| - |job.after| - b;
    && b <= n && room >= 0
    && contents == job.before + job.replacement[..Min(n - b, room)] + job.replacement[n - b..] + job.after
  }

  /** A splice, any sequence of `next` and `next_back`, and the drop. What the calls yield and what the drop discards
      is the old range, and a replacement that fits takes its place as a whole. */
  method SpliceAndDrop<T(0, !new, ==)>(v: StaticVec<T>, start: Bound, end: Bound, replaceWith: seq<T>, ends: seq<S.End>)
    returns (ok: bool, front: seq<T>, back: seq<T>, ghost dropped: seq<T>, ghost b: nat, ghost lo: nat, ghost hi: nat)
    requires v.Valid()
    modifies v`length, v.data
    ensures v.Valid() && (ok <==> InRange(start, end, old(v.length)))
    ensures !ok ==> v.Contents() == old(v.Contents())
    ensures ok ==> Cuts(start, end, old(v.length), lo, hi)
    ensures ok ==> var job := JobOf(old(v.Contents()), lo, hi, replaceWith);
                   var n := Min(|ends|, |job.range|);
                   && |front| == S.CallsAt(ends, S.Front, n) && |back| == S.CallsAt(ends, S.Back, n)
                   && b == S.CallsAt(ends, S.Back, Min(n, |replaceWith|))
                   && Spliced(job, v.data.Length, b, v.Contents()) && (S.Back !in ends ==> b == 0)
                   && front + dropped + S.Reverse(back) == job.range
                   && (|job.before| + |replaceWith| + |job.after| <= v.data.Length ==>
                         v.Contents() == job.before + replaceWith + job.after)
  {
    hide S.Run, S.Step, S.Next, S.NextBack, S.Yielded, S.Drain, S.DrainItems, S.Fill, S.Start, S.Reverse, Spliced, InRange, Cuts, S.CallsAt;
    front, back, dropped, b, lo, hi := [], [], [], 0, 0, 0;
    var splice := v.Splice(start, end, replaceWith);
    if splice.None? { return false, front, back, dropped, b, lo, hi; }
    ok := true;
    lo, hi := splice.value.start, splice.value.end;
    ghost var job := JobOf(v.Contents(), lo, hi, replaceWith);
    ghost var t0 := S.Trace(splice.value.State(), [], []);
    assert ends[..0] == [];
    RunNothing(t0);
    for i := 0 to |ends|
      invariant v.Valid() && splice.value.vec == v && splice.value.Valid()
      invariant S.Trace(splice.value.State(), front, back) == S.Run(t0, ends[..i])
    {
      RunSnoc(t0, ends, i);
      if ends[i].Front? {
        var item := splice.value.Next();
        front := front + S.Yielded(item);
      } else {
        var item := splice.value.NextBack();
        back := back + S.Yielded(item);
      }
    }
    assert ends[..|ends|] == ends;
    dropped := S.DrainItems(splice.value.State());
    splice.value.Drop();
    b := SpliceDone(job, ends, v.data.Length);
  }

  lemma SpliceDone<T>(job: S.Job<T>, ends: seq<S.End>, capacity: nat) returns (b: nat)
    requires |job.before| + |job.range| + |job.after| <= capacity
    ensures S.Valid(S.Start(job)) && (S.Back !in ends ==> b == 0)
    ensures var t, n := S.Run(S.Trace(S.Start(job), [], []), ends), Min(|ends|, |job.range|);
            && |t.front| == S.CallsAt(ends, S.Front, n) && |t.back| == S.CallsAt(ends, S.Back, n)
            && b == S.CallsAt(ends, S.Back, Min(n, |job.replacement|))
    ensures var t := S.Run(S.Trace(S.Start(job), [], []), ends);
            && Spliced(job, capacity, b, S.Fill(S.Drain(t.st), capacity).vec)
            && t.front + S.DrainItems(t.st) + S.Reverse(t.back) == job.range
            && (|job.before| + |job.replacement| + |job.after| <= capacity ==>
                  S.Fill(S.Drain(t.st), capacity).vec == job.before + job.replacement + job.after)
  {
    hide S.Run, S.Drain, S.DrainItems, S.Fill, S.Start, S.Reverse;
    b := S.SpliceMeaning(job, ends, capacity);
    var n := |job.replacement|;
    var g := Min(n - b, capacity - |job.before| - |job.after| - b);
    assert S.Left(job, g) + S.Right(job, b) == job.before + job.replacement[..g] + job.replacement[n - b..] + job.after;
    if |job.before| + n + |job.after| <= capacity { S.SpliceReplaces(job, ends, capacity); }
  }

  lemma RunNothing<T>(t: S.Trace<T>)
    requires S.Valid(t.st)
    ensures S.Run(t, []) == t
  {
  }

  lemma RunSnoc<T>(t: S.Trace<T>, ends: seq<S.End>, i: nat)
    requires S.Valid(t.st) && i < |ends|
    ensures var r, s := S.Run(t, ends[..i]), S.Run(t, ends[..i + 1]);
            && (ends[i].Front? ==> s == S.Trace(S.Next(r.st).0, r.front + S.Yielded(S.Next(r.st).1), r.back))
            && (ends[i].Back? ==> s == S.Trace(S.NextBack(r.st).0, r.front, r.back + S.Yielded(S.NextBack(r.st).1)))
  {
    assert ends[..i + 1][..i] == ends[..i] && ends[..i + 1][i] == ends[i];
  }
}
