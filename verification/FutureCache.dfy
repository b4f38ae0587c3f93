/** The cache of run-once futures (builder/src/sync.rs): a map under a lock, looked up first with the read lock and
    again with the write lock before anything is inserted. */
module FutureCache {
  import Once = FutureOnce

  /** A call of `spawn_or_get`. */
  datatype Caller<I> = Asking(id: I) | Missed(id: I) | Got(id: I, once: nat)

  /** `onces` are all the futures ever put in the cache, `owners` the ids they were made for. */
  datatype State<I, T> = State(cache: map<I, nat>, onces: seq<Once.State<T>>, owners: seq<I>, callers: map<nat, Caller<I>>)

  function Move<I, T>(s: State<I, T>, c: nat, caller: Caller<I>): State<I, T> {
    s.(callers := s.callers[c := caller])
  }

  predicate Call<I(==), T(==)>(s: State<I, T>, t: State<I, T>, c: nat, id: I) {
    c !in s.callers && t == Move(s, c, Asking(id))
  }

  /** The look-up under the read lock. */
  predicate LookUp<I(==), T(==)>(s: State<I, T>, t: State<I, T>, c: nat) {
    && c in s.callers && s.callers[c].Asking?
    && var id := s.callers[c].id;
       t == Move(s, c, if id in s.cache then Got(id, s.cache[id]) else Missed(id))
  }

  /** The second look-up and the insertion, under the write lock. */
  predicate InsertOrGet<I(==), T(==)>(s: State<I, T>, t: State<I, T>, c: nat) {
    && c in s.callers && s.callers[c].Missed?
    && var id := s.callers[c].id;
       t == if id in s.cache then Move(s, c, Got(id, s.cache[id]))
            else Move(s, c, Got(id, |s.onces|))
                   .(cache := s.cache[id := |s.onces|], onces := s.onces + [Once.Initial()], owners := s.owners + [id])
  }

  /** One of the cached futures makes a step. */
  ghost predicate OnceStep<I(!new), T(!new)>(s: State<I, T>, t: State<I, T>, k: nat) {
    && k < |s.onces| == |t.onces| && Once.Step(s.onces[k], t.onces[k])
    && t == s.(onces := s.onces[k := t.onces[k]])
  }

  ghost predicate Step<I(!new), T(!new)>(s: State<I, T>, t: State<I, T>) {
    || (exists c: nat, id: I :: Call(s, t, c, id))
    || (exists c: nat :: LookUp(s, t, c) || InsertOrGet(s, t, c))
    || (exists k: nat :: OnceStep(s, t, k))
  }

  ghost predicate IsRun<I(!new), T(!new)>(run: seq<State<I, T>>) {
    && |run| > 0 && run[0] == State(map[], [], [], map[])
    && forall i :: 0 <= i < |run| - 1 ==> Step(run[i], run[i + 1])
  }

  /** The cache and the futures name each other, and a caller holds the cached future of its id. */
  ghost predicate CacheOk<I, T>(s: State<I, T>) {
    && |s.owners| == |s.onces|
    && (forall id :: id in s.cache ==> s.cache[id] < |s.onces| && s.owners[s.cache[id]] == id)
    && (forall k :: 0 <= k < |s.owners| ==> s.owners[k] in s.cache && s.cache[s.owners[k]] == k)
    && (forall c :: c in s.callers && s.callers[c].Got? ==>
          s.callers[c].id in s.cache && s.cache[s.callers[c].id] == s.callers[c].once)
  }

  ghost predicate OncesOk<I, T>(s: State<I, T>) {
    forall k :: 0 <= k < |s.onces| ==> Once.Inv(s.onces[k])
  }

  ghost predicate Inv<I, T>(s: State<I, T>) {
    CacheOk(s) && OncesOk(s)
  }

  lemma CallKeepsInv<I, T>(s: State<I, T>, t: State<I, T>, c: nat, id: I)
    requires Inv(s) && Call(s, t, c, id)
    ensures Inv(t)
  {
    hide Once.Inv;
  }

  lemma LookUpKeepsInv<I, T>(s: State<I, T>, t: State<I, T>, c: nat)
    requires Inv(s) && LookUp(s, t, c)
    ensures Inv(t)
  {
    hide Once.Inv;
  }

  lemma InsertKeepsInv<I, T>(s: State<I, T>, t: State<I, T>, c: nat)
    requires Inv(s) && InsertOrGet(s, t, c)
    ensures Inv(t)
  {
    Once.InitialInv<T>();
    hide Once.Inv, Once.Initial;
  }

  lemma OnceKeepsInv<I(!new), T(!new)>(s: State<I, T>, t: State<I, T>, k: nat)
    requires Inv(s) && OnceStep(s, t, k)
    ensures Inv(t)
  {
    Once.StepKeepsInv(s.onces[k], t.onces[k]);
    hide Once.Inv, Once.Step;
  }

  lemma StepKeepsInv<I(!new), T(!new)>(s: State<I, T>, t: State<I, T>)
    requires Inv(s) && Step(s, t)
    ensures Inv(t)
  {
    hide Inv, Call, LookUp, InsertOrGet, OnceStep;
    if c: nat, id: I :| Call(s, t, c, id) {
      CallKeepsInv(s, t, c, id);
    } else if c: nat :| LookUp(s, t, c) || InsertOrGet(s, t, c) {
      if LookUp(s, t, c) {
        LookUpKeepsInv(s, t, c);
      } else {
        InsertKeepsInv(s, t, c);
      }
    } else {
      var k: nat :| OnceStep(s, t, k);
      OnceKeepsInv(s, t, k);
    }
  }

  lemma {:induction false} RunKeepsInv<I(!new), T(!new)>(run: seq<State<I, T>>, k: nat)
    requires IsRun(run) && k < |run|
    ensures Inv(run[k])
    decreases k
  {
    hide Step;
    if k > 0 {
      RunKeepsInv(run, k - 1);
      hide Inv;
      assert Step(run[k - 1], run[k - 1 + 1]);
      StepKeepsInv(run[k - 1], run[k]);
    }
  }

  /** Futures started for an id, over everything the cache ever held. */
  ghost function Starts<I, T>(s: State<I, T>, id: I, n: nat): nat
    requires n <= |s.onces| == |s.owners|
  {
    if n == 0 then 0 else Starts(s, id, n - 1) + (if s.owners[n - 1] == id then s.onces[n - 1].starts else 0)
  }

  lemma {:induction false} StartsOfCached<I, T>(s: State<I, T>, id: I, n: nat)
    requires Inv(s) && n <= |s.onces|
    ensures Starts(s, id, n) == if id in s.cache && s.cache[id] < n then s.onces[s.cache[id]].starts else 0
  {
    hide Once.Inv;
    if n > 0 {
      StartsOfCached(s, id, n - 1);
    }
  }

  /** In every run at most one future is ever started for an id, and all callers of the id hold the same one. */
  lemma OneFuturePerId<I(!new), T(!new)>(run: seq<State<I, T>>, k: nat, id: I)
    requires IsRun(run) && k < |run|
    ensures |run[k].owners| == |run[k].onces| && Starts(run[k], id, |run[k].onces|) <= 1
    ensures forall a, b :: a in run[k].callers && b in run[k].callers && run[k].callers[a].Got? && run[k].callers[b].Got?
                           && run[k].callers[a].id == run[k].callers[b].id ==>
              run[k].callers[a].once == run[k].callers[b].once
  {
    RunKeepsInv(run, k);
    var s := run[k];
    StartsOfCached(s, id, |s.onces|);
    if id in s.cache {
      assert Once.Inv(s.onces[s.cache[id]]);
    }
  }

  lemma StepKeepsCache<I(!new), T(!new)>(s: State<I, T>, t: State<I, T>, id: I)
    requires Step(s, t) && id in s.cache
    ensures id in t.cache && t.cache[id] == s.cache[id]
  {
    hide Once.Step;
  }

  /** A cached future is never replaced. */
  lemma {:induction false} CacheIsStable<I(!new), T(!new)>(run: seq<State<I, T>>, i: nat, k: nat, id: I)
    requires IsRun(run) && i <= k < |run| && id in run[i].cache
    ensures id in run[k].cache && run[k].cache[id] == run[i].cache[id]
    decreases k
  {
    hide Step;
    if i < k {
      CacheIsStable(run, i, k - 1, id);
      assert Step(run[k - 1], run[k - 1 + 1]);
      StepKeepsCache(run[k - 1], run[k], id);
    }
  }

  /** A step leaves every caller with the id it asked for, and with the future it has got. */
  lemma StepKeepsCaller<I(!new), T(!new)>(s: State<I, T>, t: State<I, T>, c: nat)
    requires Step(s, t) && c in s.callers
    ensures c in t.callers && t.callers[c].id == s.callers[c].id
    ensures s.callers[c].Got? ==> t.callers[c] == s.callers[c]
  {
    hide Once.Step;
  }

  /** A caller that has asked for an id and got a future has got the one that was made for that id. */
  lemma {:induction false} CallerGetsItsOwn<I(!new), T(!new)>(run: seq<State<I, T>>, i: nat, k: nat, c: nat, id: I)
    requires IsRun(run) && i <= k < |run| && c in run[i].callers && run[i].callers[c] == Asking(id)
    ensures c in run[k].callers && run[k].callers[c].id == id
    ensures run[k].callers[c].Got? ==>
              && id in run[k].cache && run[k].callers[c].once == run[k].cache[id] < |run[k].onces| == |run[k].owners|
              && run[k].owners[run[k].callers[c].once] == id
    decreases k
  {
    hide Step, Inv;
    if i < k {
      CallerGetsItsOwn(run, i, k - 1, c, id);
      assert Step(run[k - 1], run[k - 1 + 1]);
      StepKeepsCaller(run[k - 1], run[k], c);
    }
    RunKeepsInv(run, k);
    if run[k].callers[c].Got? { CallersHold(run[k], c); }
  }

  /** Two callers that have asked for one id and got a future have got the same one. */
  lemma CallersShare<I(!new), T(!new)>(run: seq<State<I, T>>, i: nat, j: nat, k: nat, a: nat, b: nat, id: I)
    requires IsRun(run) && i <= k < |run| && j <= k
    requires a in run[i].callers && run[i].callers[a] == Asking(id) && b in run[j].callers && run[j].callers[b] == Asking(id)
    ensures a in run[k].callers && b in run[k].callers
    ensures run[k].callers[a].Got? && run[k].callers[b].Got? ==> run[k].callers[a] == run[k].callers[b]
  {
    hide IsRun;
    CallerGetsItsOwn(run, i, k, a, id);
    CallerGetsItsOwn(run, j, k, b, id);
  }

  lemma CallersHold<I, T>(s: State<I, T>, c: nat)
    requires Inv(s) && c in s.callers && s.callers[c].Got?
    ensures s.callers[c].id in s.cache && s.callers[c].once == s.cache[s.callers[c].id] < |s.onces| == |s.owners|
    ensures s.owners[s.callers[c].once] == s.callers[c].id
  {
    hide Once.Inv;
  }
}
