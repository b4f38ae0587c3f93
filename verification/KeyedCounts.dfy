/** Sums of counts by key. A dense histogram, a sparse histogram and a list of recorded values are all
    keyed counts; `Tally` is what they have in common. */
module KeyedCounts {
  import opened Machine

  /** The sum of the counts whose key is `k`. */
  function Tally(keys: seq<nat>, counts: seq<nat>, k: nat): nat
    requires |keys| == |counts|
  {
    if |keys| == 0 then 0
    else
      var n := |keys| - 1;
      Tally(keys[..n], counts[..n], k) + (if keys[n] == k then counts[n] else 0)
  }

  lemma TallyPush(keys: seq<nat>, counts: seq<nat>, key: nat, count: nat)
    requires |keys| == |counts|
    ensures forall k: nat :: Tally(keys + [key], counts + [count], k)
                             == Tally(keys, counts, k) + (if key == k then count else 0)
  {
    assert (keys + [key])[..|keys|] == keys;
    assert (counts + [count])[..|counts|] == counts;
  }

  /** The tally of a prefix grows by the entry that follows it. */
  lemma TallyStep(keys: seq<nat>, counts: seq<nat>, i: nat)
    requires i < |keys| == |counts|
    ensures forall k: nat :: Tally(keys[..i + 1], counts[..i + 1], k)
                             == Tally(keys[..i], counts[..i], k) + (if keys[i] == k then counts[i] else 0)
  {
    assert keys[..i + 1] == keys[..i] + [keys[i]];
    assert counts[..i + 1] == counts[..i] + [counts[i]];
    TallyPush(keys[..i], counts[..i], keys[i], counts[i]);
  }

  lemma {:induction false} TallyAppend(xs: seq<nat>, xc: seq<nat>, ys: seq<nat>, yc: seq<nat>)
    requires |xs| == |xc| && |ys| == |yc|
    ensures forall k: nat :: Tally(xs + ys, xc + yc, k) == Tally(xs, xc, k) + Tally(ys, yc, k)
    decreases |ys|
  {
    if |ys| == 0 {
      assert xs + ys == xs && xc + yc == xc;
    } else {
      var n := |ys| - 1;
      TallyAppend(xs, xc, ys[..n], yc[..n]);
      assert xs + ys == (xs + ys[..n]) + [ys[n]];
      assert xc + yc == (xc + yc[..n]) + [yc[n]];
      TallyPush(xs + ys[..n], xc + yc[..n], ys[n], yc[n]);
    }
  }

  lemma TallySplit(keys: seq<nat>, counts: seq<nat>, i: nat)
    requires i <= |keys| == |counts|
    ensures forall k: nat :: Tally(keys, counts, k)
                             == Tally(keys[..i], counts[..i], k) + Tally(keys[i..], counts[i..], k)
  {
    assert keys == keys[..i] + keys[i..] && counts == counts[..i] + counts[i..];
    TallyAppend(keys[..i], counts[..i], keys[i..], counts[i..]);
  }

  lemma {:induction false} TallyAbsent(keys: seq<nat>, counts: seq<nat>, k: nat)
    requires |keys| == |counts| && k !in keys
    ensures Tally(keys, counts, k) == 0
  {
    if |keys| == 0 {
    } else {
      TallyAbsent(keys[..|keys| - 1], counts[..|keys| - 1], k);
    }
  }

  /** A prefix never tallies more than the whole. */
  lemma TallyPrefixBound(keys: seq<nat>, counts: seq<nat>, i: nat, k: nat)
    requires i <= |keys| == |counts|
    ensures Tally(keys[..i], counts[..i], k) <= Tally(keys, counts, k)
  {
    TallySplit(keys, counts, i);
  }

  /** Adding to one count adds to the tally of its key only. */
  lemma {:induction false} TallyBump(keys: seq<nat>, counts: seq<nat>, i: nat, n: nat, k: nat)
    requires i < |keys| == |counts|
    ensures Tally(keys, counts[i := counts[i] + n], k)
            == Tally(keys, counts, k) + (if keys[i] == k then n else 0)
  {
    var m := |keys| - 1;
    var bumped := counts[i := counts[i] + n];
    if i < m {
      TallyBump(keys[..m], counts[..m], i, n, k);
      assert bumped[..m] == counts[..m][i := counts[i] + n];
    } else {
      assert bumped[..m] == counts[..m];
    }
  }

  lemma {:induction false} TallyZeros(keys: seq<nat>, counts: seq<nat>, k: nat)
    requires |keys| == |counts|
    requires forall i :: 0 <= i < |counts| ==> counts[i] == 0
    ensures Tally(keys, counts, k) == 0
  {
    if |keys| == 0 {
    } else {
      TallyZeros(keys[..|keys| - 1], counts[..|keys| - 1], k);
    }
  }

  /** Wrapping the counts does not change the wrapped tally. */
  lemma {:induction false} TallyWrap(keys: seq<nat>, a: seq<nat>, b: seq<nat>, k: nat)
    requires |keys| == |a| == |b|
    requires forall i :: 0 <= i < |a| ==> Wrap(a[i]) == Wrap(b[i])
    ensures Wrap(Tally(keys, a, k)) == Wrap(Tally(keys, b, k))
  {
    if |keys| > 0 {
      var n := |keys| - 1;
      TallyWrap(keys[..n], a[..n], b[..n], k);
      WrapAdd(Tally(keys[..n], a[..n], k), Tally(keys[..n], b[..n], k), a[n], b[n]);
    }
  }

  // ----- Renaming keys -----

  /** `keys` with every key replaced by its image. */
  function Rename(keys: seq<nat>, image: seq<nat>): seq<nat>
    requires forall i :: 0 <= i < |keys| ==> keys[i] < |image|
  {
    seq(|keys|, i requires 0 <= i < |keys| => image[keys[i]])
  }

  /** The tallies of all keys below `n`. */
  function Tallies(keys: seq<nat>, counts: seq<nat>, n: nat): seq<nat>
    requires |keys| == |counts|
  {
    seq(n, k requires 0 <= k < n => Tally(keys, counts, k))
  }

  /** Tallying first and renaming the buckets afterwards is renaming the keys first and tallying once. */
  lemma {:induction false} TallyOfTallies(keys: seq<nat>, counts: seq<nat>, image: seq<nat>, k: nat)
    requires |keys| == |counts|
    requires forall i :: 0 <= i < |keys| ==> keys[i] < |image|
    ensures Tally(image, Tallies(keys, counts, |image|), k) == Tally(Rename(keys, image), counts, k)
    decreases |keys|
  {
    if |keys| == 0 {
      TallyZeros(image, Tallies(keys, counts, |image|), k);
    } else {
      var n := |keys| - 1;
      var before := Tallies(keys[..n], counts[..n], |image|);
      var i := keys[n];
      TallyOfTallies(keys[..n], counts[..n], image, k);
      assert Tallies(keys, counts, |image|) == before[i := before[i] + counts[n]];
      TallyBump(image, before, i, counts[n], k);
      assert Rename(keys, image)[..n] == Rename(keys[..n], image);
    }
  }
}
