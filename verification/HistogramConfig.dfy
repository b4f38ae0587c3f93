/** The bucketing scheme of the H2 histogram (forked-libs/histogram/src/config.rs). */
module HistogramConfig {
  import opened Machine

  datatype Error =
    | MaxPowerTooHigh | MaxPowerTooLow | OutOfRange | Overflow | Underflow
    | IncompatibleParameters | InvalidSubset | InvalidPercentile

  /** `Panic` stands for arithmetic that leaves its machine type and for an index out of bounds. */
  datatype Outcome<+T> = Ok(value: T) | Err(error: Error) | Panic

  datatype Config = Config(
    max: nat,
    groupingPower: nat,
    maxValuePower: nat,
    cutoffPower: nat,
    cutoffValue: nat,
    lowerBinCount: nat,
    upperBinDivisions: nat,
    upperBinCount: nat)

  function New(groupingPower: nat, maxValuePower: nat): Outcome<Config> {
    if maxValuePower > 64 then Err(MaxPowerTooHigh)
    else if groupingPower >= maxValuePower then Err(MaxPowerTooLow)
    else
      var cutoffPower := groupingPower + 1;
      var cutoffValue := Pow2(cutoffPower);
      var upperBinDivisions := Pow2(groupingPower);
      if cutoffValue > U64_MAX || upperBinDivisions > U32_MAX then Panic
      else
        var max := if maxValuePower == 64 then U64_MAX else Pow2(maxValuePower);
        var lowerBinCount := cutoffValue % (U32_MAX + 1); // `as u32`
        var upperBinCount := Mul(maxValuePower - cutoffPower, upperBinDivisions);
        if upperBinCount > U32_MAX then Panic
        else Ok(Config(max, groupingPower, maxValuePower, cutoffPower, cutoffValue,
                       lowerBinCount, upperBinDivisions, upperBinCount))
  }

  function TotalBuckets(c: Config): Outcome<nat> {
    if c.lowerBinCount + c.upperBinCount > U32_MAX then Panic
    else Ok(c.lowerBinCount + c.upperBinCount)
  }

  /** The number of buckets the scheme asks for, without a machine width. */
  function IdealBuckets(groupingPower: nat, maxValuePower: nat): nat
    requires groupingPower < maxValuePower
  {
    Mul(maxValuePower - groupingPower + 1, Pow2(groupingPower))
  }

  /** A configuration whose bucket count fits the `u32` fields. */
  ghost predicate Fits(c: Config) {
    && c.groupingPower < c.maxValuePower <= 64
    && IdealBuckets(c.groupingPower, c.maxValuePower) <= U32_MAX
    && New(c.groupingPower, c.maxValuePower) == Ok(c)
  }

  function Total(c: Config): nat {
    c.lowerBinCount + c.upperBinCount
  }

  function ValueToIndex(c: Config, value: u64): Outcome<nat>
    requires Fits(c)
  {
    if value < c.cutoffValue then Ok(value)
    else if value > c.max then Err(OutOfRange)
    else
      CutoffPower(c, value);
      Ok(LogarithmicIndex(c, value))
  }

  function LogarithmicIndex(c: Config, value: nat): nat
    requires value > 0 && Log2(value) >= c.cutoffPower > c.groupingPower
  {
    var power := Log2(value);
    var logBin := power - c.cutoffPower;
    var offset := Div(value - Pow2(power), Pow2(power - c.groupingPower));
    c.lowerBinCount + Mul(logBin, c.upperBinDivisions) + offset
  }

  function LowerBound(c: Config, index: nat): nat {
    var g := Div(index, Pow2(c.groupingPower));
    DivMod(index, Pow2(c.groupingPower));
    var h := index - Mul(g, Pow2(c.groupingPower));
    if g < 1 then h else Pow2(c.groupingPower + g - 1) + Mul(Pow2(g - 1), h)
  }

  function UpperBound(c: Config, index: nat): int {
    if index == Total(c) - 1 then c.max
    else
      var g := Div(index, Pow2(c.groupingPower));
      DivMod(index, Pow2(c.groupingPower));
      var h := index - Mul(g, Pow2(c.groupingPower)) + 1;
      if g < 1 then h - 1 else Pow2(c.groupingPower + g - 1) + Mul(Pow2(g - 1), h) - 1
  }

  // ----- The constructor -----

  lemma IdealSplit(g: nat, n: nat)
    requires g < n
    ensures IdealBuckets(g, n) == Mul(n - g - 1, Pow2(g)) + Pow2(g + 1)
  {
    hide Mul, Pow2;
    Pow2Succ(g);
    MulSucc(n - g, Pow2(g));
    MulSucc(n - g - 1, Pow2(g));
  }

  lemma FitsFields(c: Config)
    requires Fits(c)
    ensures c.groupingPower < c.maxValuePower <= 64
    ensures c.cutoffPower == c.groupingPower + 1 <= 31
    ensures c.cutoffValue == Pow2(c.cutoffPower) == c.lowerBinCount == 2 * c.upperBinDivisions
    ensures c.upperBinDivisions == Pow2(c.groupingPower)
    ensures c.upperBinCount == Mul(c.maxValuePower - c.groupingPower - 1, Pow2(c.groupingPower))
    ensures Total(c) == IdealBuckets(c.groupingPower, c.maxValuePower)
    ensures c.max == if c.maxValuePower == 64 then U64_MAX else Pow2(c.maxValuePower)
  {
    hide Pow2, Mul, IdealBuckets;
    var g := c.groupingPower;
    Pow2Values();
    IdealSplit(g, c.maxValuePower);
    Pow2Succ(g);
    if g > 30 {
      Pow2Monotone(32, g + 1);
    }
  }

  lemma MaxIsLimit(c: Config)
    requires Fits(c)
    ensures c.max == if c.maxValuePower == 64 then U64_MAX else Pow2(c.maxValuePower)
    ensures c.maxValuePower == 64 ==> Pow2(c.maxValuePower) == U64_MAX + 1
    ensures c.maxValuePower < 64 ==> Pow2(c.maxValuePower) <= U64_MAX
    ensures c.maxValuePower <= 64 && c.cutoffValue <= Pow2(c.maxValuePower)
  {
    hide *;
    FitsFields(c);
    Pow2Values();
    Pow2Succ(63);
    Pow2Monotone(c.cutoffPower, c.maxValuePower);
    if c.maxValuePower < 64 {
      Pow2Monotone(c.maxValuePower, 63);
    }
  }

  /** `Config::new` answers an error exactly for powers out of order, and otherwise delivers the bucket count of the
      scheme exactly when that count fits a `u32`. */
  lemma NewExact(g: nat, n: nat)
    ensures n > 64 <==> New(g, n) == Err(MaxPowerTooHigh)
    ensures g >= n && n <= 64 <==> New(g, n) == Err(MaxPowerTooLow)
    ensures New(g, n).Err? <==> !(g < n <= 64)
    ensures g < n <= 64 ==>
              ((New(g, n).Ok? && TotalBuckets(New(g, n).value) == Ok(IdealBuckets(g, n)))
               <==> IdealBuckets(g, n) <= U32_MAX)
  {
    hide Pow2, Mul, IdealBuckets;
    if !(g < n <= 64) { return; }
    Pow2Values();
    Pow2Succ(g);
    IdealSplit(g, n);
    if g >= 32 {
      Pow2Monotone(32, g);
    } else if g == 31 {
    } else {
      Pow2Monotone(g + 1, 31);
      Pow2Succ(31);
    }
  }

  /** Accepted by `Config::new`, yet left with no bucket at all: the cast of the cutoff to `u32` drops it. */
  lemma NewTruncates()
    ensures New(31, 32).Ok? && TotalBuckets(New(31, 32).value) == Ok(0)
  {
    hide Pow2;
    Pow2Values();
    Pow2Succ(31);
  }

  lemma CutoffPower(c: Config, v: nat)
    requires Fits(c) && v >= c.cutoffValue
    ensures v > 0 && Log2(v) >= c.cutoffPower > c.groupingPower
  {
    hide *;
    FitsFields(c);
    if Log2(v) < c.cutoffPower {
      Pow2Monotone(Log2(v) + 1, c.cutoffPower);
    }
  }

  // ----- Buckets as (exponent, mantissa) pairs -----

  /** The number of low bits a value loses when it is put in a bucket. */
  function Exponent(g: nat, v: nat): nat {
    if v < Pow2(g) || Log2(v) < g then 0 else Log2(v) - g
  }

  lemma ExponentBounds(g: nat, v: nat)
    ensures var e := Exponent(g, v);
            && v < Pow2(g + e + 1)
            && (e > 0 ==> Pow2(g + e) <= v)
            && Div(v, Pow2(e)) < Pow2(g + 1)
            && (e > 0 ==> Pow2(g) <= Div(v, Pow2(e)))
  {
    var e := Exponent(g, v);
    var d := Pow2(e);
    assert v < Pow2(g + e + 1) && (e > 0 ==> Pow2(g + e) <= v) by {
      hide Pow2, Log2;
      Pow2Succ(g);
      if v >= Pow2(g) && Log2(v) < g {
        Pow2Monotone(Log2(v) + 1, g);
      }
    }
    hide *;
    Pow2Add(g, e);
    Pow2Add(g + 1, e);
    DivMod(v, d);
    if Div(v, d) >= Pow2(g + 1) {
      MulMonotone(Pow2(g + 1), Div(v, d), d);
    }
    if e > 0 {
      DivLower(v, d, Pow2(g));
    }
  }

  lemma LowerBoundBy(c: Config, i: nat, q: nat, h: nat)
    requires Div(i, Pow2(c.groupingPower)) == q && i == Mul(q, Pow2(c.groupingPower)) + h
    ensures LowerBound(c, i) == if q < 1 then h else Pow2(c.groupingPower + q - 1) + Mul(Pow2(q - 1), h)
  {
    hide Mul, Div, Pow2;
  }

  lemma LowerBoundAt(c: Config, e: nat, m: nat)
    requires m <= Pow2(c.groupingPower + 1)
    requires e > 0 ==> Pow2(c.groupingPower) <= m
    ensures LowerBound(c, Mul(e, Pow2(c.groupingPower)) + m) == Mul(Pow2(e), m)
  {
    hide *;
    var g := c.groupingPower;
    var p := Pow2(g);
    var i := Mul(e, p) + m;
    Pow2Succ(g);
    MulSucc(e, p);
    if e == 0 && m < p {
      MulOne(p);
      MulOne(m);
      DivUnique(i, p, 0);
      LowerBoundBy(c, i, 0, m);
      Pow2Zero();
    } else if m < 2 * p {
      DivUnique(i, p, e + 1);
      LowerBoundBy(c, i, e + 1, m - p);
      Pow2Add(g, e);
      MulAdd(p, m - p, Pow2(e));
      MulCommutes(m - p, Pow2(e));
      MulCommutes(m, Pow2(e));
    } else {
      MulSucc(e + 1, p);
      DivUnique(i, p, e + 2);
      LowerBoundBy(c, i, e + 2, 0);
      MulOne(Pow2(e + 1));
      Pow2Add(g + 1, e);
      MulCommutes(m, Pow2(e));
    }
  }

  /** Every index is `e * 2^g + m` for one pair with `m` in the upper half of `g + 1` bits (or any, when `e` is 0). */
  lemma Decompose(c: Config, i: nat) returns (e: nat, m: nat)
    ensures i == Mul(e, Pow2(c.groupingPower)) + m
    ensures m < Pow2(c.groupingPower + 1)
    ensures e > 0 ==> Pow2(c.groupingPower) <= m
    ensures LowerBound(c, i) == Mul(Pow2(e), m)
    ensures LowerBound(c, i + 1) == Mul(Pow2(e), m) + Pow2(e)
  {
    hide *;
    Pow2Succ(c.groupingPower);
    var p := Pow2(c.groupingPower);
    var q := Div(i, p);
    DivMod(i, p);
    MulOne(p);
    if q == 0 {
      e := 0;
    } else {
      e := q - 1;
      MulSucc(e, p);
    }
    m := i - Mul(e, p);
    LowerBoundAt(c, e, m);
    LowerBoundAt(c, e, m + 1);
    MulSucc(m, Pow2(e));
    MulCommutes(m, Pow2(e));
    MulCommutes(m + 1, Pow2(e));
  }

  lemma ValueToIndexForm(c: Config, v: u64)
    requires Fits(c) && v <= Pow2(c.maxValuePower)
    ensures var e := Exponent(c.groupingPower, v);
            ValueToIndex(c, v) == Ok(Mul(e, Pow2(c.groupingPower)) + Div(v, Pow2(e)))
  {
    hide Pow2, Log2, Fits, Mul, Div;
    FitsFields(c);
    MaxIsLimit(c);
    var g := c.groupingPower;
    var p := Pow2(g);
    var e := Exponent(g, v);
    Pow2Succ(g);
    if v < c.cutoffValue {
      if v >= p {
        Log2Unique(v, g);
      }
      Pow2Zero();
      MulOne(p);
      MulOne(v);
      DivUnique(v, 1, v);
    } else {
      CutoffPower(c, v);
      Pow2Add(g, e);
      DivShift(v, Pow2(e), p);
      MulSucc(e - 1, p);
    }
  }

  /** A bucket starts where its values, with their low bits cleared, agree: a value below `2^(g + 1)` has a bucket of
      its own, and one between `2^p` and `2^(p + 1)` loses its `p - g` low bits. */
  lemma BucketRounds(c: Config, v: u64, p: nat)
    requires Fits(c) && v <= Pow2(c.maxValuePower)
    requires if v == 0 then p == 0 else Pow2(p) <= v < Pow2(p + 1)
    ensures ValueToIndex(c, v).Ok?
    ensures LowerBound(c, ValueToIndex(c, v).value)
            == v - Rem(v, Pow2(if p > c.groupingPower then p - c.groupingPower else 0))
  {
    hide *;
    var g := c.groupingPower;
    var e := Exponent(g, v);
    assert e == if p > g then p - g else 0 by { ExponentIs(g, v, p); }
    ValueToIndexForm(c, v);
    ExponentBounds(g, v);
    LowerBoundAt(c, e, Div(v, Pow2(e)));
    DivMod(v, Pow2(e));
    MulCommutes(Div(v, Pow2(e)), Pow2(e));
    RemUnique(v, Pow2(e), Div(v, Pow2(e)), v - Mul(Div(v, Pow2(e)), Pow2(e)));
  }

  lemma ExponentIs(g: nat, v: nat, p: nat)
    requires if v == 0 then p == 0 else Pow2(p) <= v < Pow2(p + 1)
    ensures Exponent(g, v) == if p > g then p - g else 0
  {
    hide Pow2, Log2;
    if v > 0 {
      Log2Unique(v, p);
      if p < g { Pow2Monotone(p + 1, g); } else { Pow2Monotone(g, p); }
    }
  }

  // ----- Buckets tile the value range -----

  lemma {:induction false} LowerBoundMonotone(c: Config, i: nat, j: nat)
    requires i < j
    ensures LowerBound(c, i) < LowerBound(c, j)
    decreases j
  {
    hide *;
    var e, m := Decompose(c, j - 1);
    if i < j - 1 {
      LowerBoundMonotone(c, i, j - 1);
    }
  }

  lemma LowerBoundEnds(c: Config)
    requires Fits(c)
    ensures LowerBound(c, 0) == 0
    ensures LowerBound(c, Total(c)) == Pow2(c.maxValuePower)
  {
    hide *;
    var g, n := c.groupingPower, c.maxValuePower;
    FitsFields(c);
    Pow2Succ(g);
    MulOne(Pow2(g));
    MulOne(Pow2(0));
    LowerBoundAt(c, 0, 0);
    LowerBoundAt(c, n - g - 1, Pow2(g + 1));
    IdealSplit(g, n);
    Pow2Add(n - g - 1, g + 1);
  }

  /** The index of a value lies between the bounds of its bucket. */
  lemma IndexBrackets(c: Config, v: u64)
    requires Fits(c) && v <= Pow2(c.maxValuePower)
    ensures ValueToIndex(c, v).Ok?
    ensures var i := ValueToIndex(c, v).value; LowerBound(c, i) <= v < LowerBound(c, i + 1)
  {
    hide *;
    var e := Exponent(c.groupingPower, v);
    var d := Pow2(e);
    var m := Div(v, d);
    ValueToIndexForm(c, v);
    ExponentBounds(c.groupingPower, v);
    DivMod(v, d);
    LowerBoundAt(c, e, m);
    LowerBoundAt(c, e, m + 1);
    MulSucc(m, d);
    MulCommutes(m, d);
    MulCommutes(m + 1, d);
  }

  lemma IndexUnique(c: Config, v: u64, i: nat)
    requires Fits(c) && v <= Pow2(c.maxValuePower)
    requires LowerBound(c, i) <= v < LowerBound(c, i + 1)
    ensures ValueToIndex(c, v) == Ok(i)
  {
    hide *;
    IndexBrackets(c, v);
    var j := ValueToIndex(c, v).value;
    if i < j {
      if i + 1 < j { LowerBoundMonotone(c, i + 1, j); }
    } else if j < i {
      if j + 1 < i { LowerBoundMonotone(c, j + 1, i); }
    }
  }

  lemma UpperBoundBy(c: Config, i: nat, q: nat, h: nat)
    requires Div(i, Pow2(c.groupingPower)) == q && i == Mul(q, Pow2(c.groupingPower)) + h && i + 1 != Total(c)
    ensures UpperBound(c, i) ==
            if q < 1 then h else Pow2(c.groupingPower + q - 1) + Mul(Pow2(q - 1), h + 1) - 1
  {
    hide Mul, Div, Pow2;
  }

  lemma UpperBoundNext(c: Config, i: nat)
    requires i + 1 != Total(c)
    ensures UpperBound(c, i) == LowerBound(c, i + 1) - 1
  {
    hide *;
    var g := c.groupingPower;
    var p := Pow2(g);
    var e, m := Decompose(c, i);
    var d := Pow2(e);
    Pow2Succ(g);
    if p <= m {
      MulSucc(e, p);
      DivUnique(i, p, e + 1);
      UpperBoundBy(c, i, e + 1, m - p);
      Pow2Add(g, e);
      MulAdd(p, m - p + 1, d);
      MulSucc(m, d);
      MulCommutes(m - p + 1, d);
      MulCommutes(m, d);
    } else {
      MulOne(p);
      DivUnique(i, p, 0);
      UpperBoundBy(c, i, 0, m);
      Pow2Zero();
      MulOne(m);
    }
  }

  /** The upper bound of a bucket is one less than the next lower bound; the last bucket ends at `max`. */
  lemma BucketsConsecutive(c: Config, i: nat)
    requires Fits(c) && i < Total(c)
    ensures LowerBound(c, i) < LowerBound(c, i + 1) <= Pow2(c.maxValuePower) <= U64_MAX + 1
    ensures i + 1 < Total(c) ==> UpperBound(c, i) == LowerBound(c, i + 1) - 1 < U64_MAX
    ensures i + 1 == Total(c) ==> UpperBound(c, i) == c.max
    ensures LowerBound(c, i) <= UpperBound(c, i) <= U64_MAX
  {
    assert i + 1 == Total(c) ==> UpperBound(c, i) == c.max by { hide Pow2, Mul, Div, Fits; }
    hide *;
    MaxIsLimit(c);
    LowerBoundMonotone(c, i, i + 1);
    LowerBoundEnds(c);
    if i + 1 < Total(c) {
      LowerBoundMonotone(c, i + 1, Total(c));
      UpperBoundNext(c, i);
    }
  }

  /** A value gets a bucket of the histogram exactly when it is below `2^n`. */
  lemma IndexInBoundsIff(c: Config, v: u64)
    requires Fits(c)
    ensures (ValueToIndex(c, v).Ok? && ValueToIndex(c, v).value < Total(c)) <==> v < Pow2(c.maxValuePower)
    ensures v < Pow2(c.maxValuePower) ==>
              var i := ValueToIndex(c, v).value; LowerBound(c, i) <= v <= UpperBound(c, i)
    ensures v > Pow2(c.maxValuePower) ==> ValueToIndex(c, v) == Err(OutOfRange)
  {
    MaxIsLimit(c);
    if v <= Pow2(c.maxValuePower) {
      hide *;
      IndexBrackets(c, v);
      LowerBoundEnds(c);
      var i := ValueToIndex(c, v).value;
      var t := Total(c);
      if i < t {
        BucketsConsecutive(c, i);
      } else if t < i {
        LowerBoundMonotone(c, t, i);
      }
    } else {
      hide Pow2, Fits;
    }
  }

  /** Below 64 bits the range check lets `2^n` through, one index past the end. */
  lemma LimitSlipsThrough(c: Config)
    requires Fits(c) && c.maxValuePower < 64
    ensures Pow2(c.maxValuePower) <= U64_MAX
    ensures ValueToIndex(c, Pow2(c.maxValuePower)) == Ok(Total(c))
  {
    hide *;
    MaxIsLimit(c);
    LowerBoundEnds(c);
    LowerBoundMonotone(c, Total(c), Total(c) + 1);
    IndexUnique(c, Pow2(c.maxValuePower), Total(c));
  }

  lemma IndexOfLowerBound(c: Config, i: nat)
    requires Fits(c) && i < Total(c)
    ensures LowerBound(c, i) < Pow2(c.maxValuePower) && LowerBound(c, i) <= U64_MAX
    ensures ValueToIndex(c, LowerBound(c, i)) == Ok(i)
  {
    hide *;
    BucketsConsecutive(c, i);
    IndexUnique(c, LowerBound(c, i), i);
  }

  /** The relative error promised by the grouping power, for every bucket. */
  lemma RelativeError(c: Config, i: nat)
    requires Fits(c) && i < Total(c)
    ensures UpperBound(c, i) >= LowerBound(c, i)
    ensures Mul(UpperBound(c, i) - LowerBound(c, i), Pow2(c.groupingPower)) <= LowerBound(c, i)
  {
    hide *;
    var p := Pow2(c.groupingPower);
    var e, m := Decompose(c, i);
    var d := Pow2(e);
    BucketsConsecutive(c, i);
    var w := UpperBound(c, i) - LowerBound(c, i);
    if i + 1 == Total(c) {
      MaxIsLimit(c);
      LowerBoundEnds(c);
      LastBucket(c, e, m);
    }
    if p <= m {
      MulMonotone(w, d, p);
      MulMonotone(p, m, d);
      MulCommutes(p, d);
      MulCommutes(m, d);
    } else {
      Pow2Zero();
      MulOne(p);
    }
  }

  /** The mantissa of the last bucket is in the upper half, also when there is no logarithmic part. */
  lemma LastBucket(c: Config, e: nat, m: nat)
    requires Fits(c)
    requires Mul(e, Pow2(c.groupingPower)) + m + 1 == Total(c)
    requires e > 0 ==> Pow2(c.groupingPower) <= m
    ensures Pow2(c.groupingPower) <= m
  {
    hide *;
    var p := Pow2(c.groupingPower);
    FitsFields(c);
    IdealSplit(c.groupingPower, c.maxValuePower);
    Pow2Succ(c.groupingPower);
    MulOne(p);
  }

  // ----- Coarser configurations -----

  /** Lowering the grouping power of a configuration that fits gives one that fits. */
  lemma {:induction false} CoarserFits(fine: Config, groupingPower: nat)
    requires Fits(fine) && groupingPower <= fine.groupingPower
    ensures New(groupingPower, fine.maxValuePower).Ok?
    ensures Coarsens(fine, New(groupingPower, fine.maxValuePower).value)
    ensures New(groupingPower, fine.maxValuePower).value.groupingPower == groupingPower
  {
    hide Pow2, Mul, IdealBuckets;
    NewExact(groupingPower, fine.maxValuePower);
    IdealMonotone(groupingPower, fine.groupingPower, fine.maxValuePower);
  }

  lemma {:induction false} IdealMonotone(k: nat, g: nat, n: nat)
    requires k <= g < n
    ensures IdealBuckets(k, n) <= IdealBuckets(g, n)
    decreases g
  {
    if k < g {
      IdealMonotone(k, g - 1, n);
      hide Mul, Pow2;
      var d := n - g;
      Pow2Succ(g - 1);
      MulAdd(d + 1, d + 1, Pow2(g - 1));
      MulCommutes(2 * Pow2(g - 1), d + 1);
      MulAdd(Pow2(g - 1), Pow2(g - 1), d + 1);
      MulCommutes(Pow2(g - 1), d + 1);
      MulMonotone(d + 2, 2 * d + 2, Pow2(g - 1));
    }
  }

  lemma IndexMonotone(c: Config, v: u64, w: u64)
    requires Fits(c) && v <= w < Pow2(c.maxValuePower)
    ensures ValueToIndex(c, v).Ok? && ValueToIndex(c, w).Ok?
    ensures ValueToIndex(c, v).value <= ValueToIndex(c, w).value
  {
    hide *;
    IndexBrackets(c, v);
    IndexBrackets(c, w);
    var i, j := ValueToIndex(c, v).value, ValueToIndex(c, w).value;
    if j + 1 < i {
      LowerBoundMonotone(c, j + 1, i);
    }
  }

  ghost predicate Coarsens(fine: Config, coarse: Config) {
    && Fits(fine) && Fits(coarse)
    && fine.maxValuePower == coarse.maxValuePower
    && coarse.groupingPower <= fine.groupingPower
  }

  /** Downsampling never splits a bucket: a value and the lower bound of its fine bucket share a coarse bucket. */
  lemma CoarseningIsWellDefined(fine: Config, coarse: Config, v: u64)
    requires Coarsens(fine, coarse) && v < Pow2(fine.maxValuePower)
    ensures ValueToIndex(fine, v).Ok?
    ensures var low := LowerBound(fine, ValueToIndex(fine, v).value);
            low <= v && ValueToIndex(coarse, low) == ValueToIndex(coarse, v)
  {
    hide Fits, Pow2, LowerBound, ValueToIndex, Exponent, Mul, Div;
    var g := fine.groupingPower;
    var e := Exponent(g, v);
    var m := Div(v, Pow2(e));
    IndexBrackets(fine, v);
    ValueToIndexForm(fine, v);
    ExponentBounds(g, v);
    LowerBoundAt(fine, e, m);
    var low := Mul(m, Pow2(e));
    MulCommutes(m, Pow2(e));
    ValueToIndexForm(coarse, v);
    ValueToIndexForm(coarse, low);
    CoarseForm(g, coarse.groupingPower, v);
  }

  /** The bits dropped by the finer grouping are among those dropped by the coarser one. */
  lemma CoarseForm(g: nat, k: nat, v: nat)
    requires k <= g
    ensures var d := Pow2(Exponent(g, v));
            var low := Mul(Div(v, d), d);
            && Exponent(k, low) == Exponent(k, v)
            && Div(low, Pow2(Exponent(k, v))) == Div(v, Pow2(Exponent(k, v)))
  {
    hide Pow2, Log2, Mul, Div;
    var e := Exponent(g, v);
    var d := Pow2(e);
    var low := Mul(Div(v, d), d);
    ExponentBounds(g, v);
    DivMod(v, d);
    if e > 0 {
      Pow2Add(g, e);
      MulMonotone(Pow2(g), Div(v, d), d);
      Log2Unique(v, g + e);
      Log2Unique(low, g + e);
      Pow2Monotone(k, g + e);
      Pow2Add(g - k, e);
      DivCoarser(v, d, Pow2(g - k), Pow2(g - k + e));
    } else {
      Pow2Zero();
      MulOne(v);
      DivUnique(v, 1, v);
    }
  }
}
