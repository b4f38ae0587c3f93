/** Machine words and powers of two: the part of Rust's integer arithmetic the other modules rely on.
    Shifts are written as multiplication and division by `Pow2`; masks are tied to remainders here.
    `Mul` and `Div` name the products and quotients so that proofs can reason about them by the laws below. */
module Machine {

  const U32_MAX: nat := 0xFFFF_FFFF
  const U64_MAX: nat := 0xFFFF_FFFF_FFFF_FFFF

  type u64 = x: int | 0 <= x <= U64_MAX

  datatype Option<+T> = None | Some(value: T)

  function Min(a: int, b: int): int {
    if a <= b then a else b
  }

  function Max(a: int, b: int): int {
    if a >= b then a else b
  }

  /** Wrapping arithmetic on `u64`. */
  function Wrap(x: nat): u64 {
    x % 0x1_0000_0000_0000_0000
  }

  lemma WrapOnce(x: nat)
    requires x <= 2 * U64_MAX + 1
    ensures Wrap(x) == if x <= U64_MAX then x else x - U64_MAX - 1
  {
  }

  lemma WrapAdd(a: nat, b: nat, x: nat, y: nat)
    requires Wrap(a) == Wrap(b) && Wrap(x) == Wrap(y)
    ensures Wrap(a + x) == Wrap(b + y)
  {
  }

  // ----- Products and quotients -----

  function Mul(a: nat, b: nat): nat {
    a * b
  }

  function Div(a: nat, b: nat): nat
    requires b > 0
  {
    a / b
  }

  lemma MulOne(a: nat)
    ensures Mul(a, 1) == a && Mul(1, a) == a && Mul(0, a) == 0 && Mul(a, 0) == 0
  {
  }

  lemma MulCommutes(a: nat, b: nat)
    ensures Mul(a, b) == Mul(b, a)
  {
  }

  lemma MulAdd(a: nat, b: nat, d: nat)
    ensures Mul(a + b, d) == Mul(a, d) + Mul(b, d)
  {
  }

  lemma MulSucc(a: nat, d: nat)
    ensures Mul(a + 1, d) == Mul(a, d) + d
  {
  }

  lemma MulAssoc(a: nat, b: nat, c: nat)
    ensures Mul(Mul(a, b), c) == Mul(a, Mul(b, c))
  {
  }

  lemma MulMonotone(a: nat, b: nat, d: nat)
    requires a <= b
    ensures Mul(a, d) <= Mul(b, d)
  {
  }

  lemma DivMod(x: nat, d: nat)
    requires d > 0
    ensures Mul(Div(x, d), d) <= x < Mul(Div(x, d), d) + d
  {
    assert x == x / d * d + x % d;
  }

  lemma DivUnique(x: nat, d: nat, q: nat)
    requires d > 0
    requires Mul(q, d) <= x < Mul(q, d) + d
    ensures Div(x, d) == q
  {
    hide *;
    var k := Div(x, d);
    DivMod(x, d);
    MulSucc(k, d);
    MulSucc(q, d);
    if k < q {
      MulMonotone(k + 1, q, d);
    } else if q < k {
      MulMonotone(q + 1, k, d);
    }
  }

  lemma DivLower(x: nat, d: nat, q: nat)
    requires d > 0 && Mul(q, d) <= x
    ensures q <= Div(x, d)
  {
    hide *;
    var k := Div(x, d);
    DivMod(x, d);
    MulSucc(k, d);
    if k < q {
      MulMonotone(k + 1, q, d);
    }
  }

  lemma DivShift(v: nat, d: nat, k: nat)
    requires d > 0 && Mul(k, d) <= v
    ensures Div(v, d) >= k && Div(v - Mul(k, d), d) == Div(v, d) - k
  {
    hide *;
    var q := Div(v, d);
    DivMod(v, d);
    DivLower(v, d, k);
    MulAdd(q - k, k, d);
    DivUnique(v - Mul(k, d), d, q - k);
  }

  /** Rounding down to a multiple of `a` first does not change the quotient by a multiple `d` of `a`. */
  lemma DivCoarser(x: nat, a: nat, b: nat, d: nat)
    requires a > 0 && b > 0 && d == Mul(b, a) && d > 0
    ensures Div(Mul(Div(x, a), a), d) == Div(x, d)
  {
    hide *;
    var q := Div(x, d);
    var k := Div(x, a);
    DivMod(x, d);
    DivMod(x, a);
    MulAssoc(q, b, a);
    DivLower(x, a, Mul(q, b));
    MulMonotone(Mul(q, b), k, a);
    DivUnique(Mul(k, a), d, q);
  }

  // ----- Powers of two -----

  function Pow2(n: nat): (r: nat)
    ensures r >= 1
  {
    if n == 0 then 1 else 2 * Pow2(n - 1)
  }

  /** `v.ilog2()`, which is also `63 - v.leading_zeros()`. */
  function Log2(v: nat): (p: nat)
    requires v > 0
    ensures Pow2(p) <= v < Pow2(p + 1)
  {
    if v == 1 then 0 else 1 + Log2(v / 2)
  }

  lemma Pow2Zero()
    ensures Pow2(0) == 1
  {
  }

  lemma Pow2Succ(n: nat)
    ensures Pow2(n + 1) == 2 * Pow2(n)
  {
  }

  lemma {:induction false} Pow2Add(a: nat, b: nat)
    ensures Pow2(a + b) == Mul(Pow2(a), Pow2(b))
  {
    if a == 0 {
    } else {
      Pow2Add(a - 1, b);
      MulAdd(Pow2(a - 1), Pow2(a - 1), Pow2(b));
    }
  }

  lemma {:induction false} Pow2Monotone(a: nat, b: nat)
    requires a <= b
    ensures Pow2(a) <= Pow2(b)
    decreases b
  {
    if a < b {
      Pow2Monotone(a, b - 1);
    }
  }

  lemma Pow2Double(n: nat, p: nat)
    requires Pow2(n) == p
    ensures Pow2(2 * n) == p * p
  {
    Pow2Add(n, n);
  }

  lemma Pow2Values()
    ensures Pow2(32) == U32_MAX + 1
    ensures Pow2(64) == U64_MAX + 1
  {
    assert Pow2(8) == 256;
    hide Pow2;
    Pow2Double(8, 256);
    Pow2Double(16, 0x1_0000);
    Pow2Double(32, 0x1_0000_0000);
  }

  lemma Log2Unique(v: nat, p: nat)
    requires v > 0 && Pow2(p) <= v < Pow2(p + 1)
    ensures Log2(v) == p
  {
    hide *;
    var q := Log2(v);
    if q < p {
      Pow2Monotone(q + 1, p);
    } else if p < q {
      Pow2Monotone(p + 1, q);
    }
  }

  // ----- Bits -----

  /** `a & b`, bit by bit. */
  function BitAnd(a: nat, b: nat): nat {
    if a == 0 || b == 0 then 0 else 2 * BitAnd(a / 2, b / 2) + (if a % 2 == 1 && b % 2 == 1 then 1 else 0)
  }

  /** `x.count_ones()`. */
  function CountOnes(x: nat): nat {
    if x == 0 then 0 else x % 2 + CountOnes(x / 2)
  }

  ghost predicate IsPow2(x: nat) {
    exists k: nat :: x == Pow2(k)
  }

  function Rem(x: nat, d: nat): nat
    requires d > 0
  {
    x % d
  }

  lemma RemUnique(x: nat, d: nat, q: nat, r: nat)
    requires d > 0 && x == Mul(q, d) + r && r < d
    ensures Rem(x, d) == r
  {
    DivUnique(x, d, q);
    assert x == x / d * d + x % d;
  }

  lemma RemIs(x: nat, d: nat)
    requires d > 0
    ensures x == Mul(Div(x, d), d) + Rem(x, d) && Rem(x, d) < d
  {
    assert x == x / d * d + x % d;
  }

  /** A remainder by `2 * p` is the lowest bit and the remainder of the rest by `p`. */
  lemma RemainderByDouble(x: nat, p: nat)
    requires p > 0
    ensures Rem(x, 2 * p) == 2 * Rem(x / 2, p) + x % 2
  {
    hide *;
    var q, r := Div(x / 2, p), Rem(x / 2, p);
    RemIs(x / 2, p);
    MulCommutes(q, p);
    MulAdd(p, p, q);
    MulCommutes(2 * p, q);
    RemUnique(x, 2 * p, q, 2 * r + x % 2);
  }

  lemma {:induction false} MaskIsRemainder(x: nat, k: nat)
    ensures BitAnd(x, Pow2(k) - 1) == Rem(x, Pow2(k))
    decreases k
  {
    if k == 0 {
    } else if x == 0 {
    } else {
      var m := Pow2(k) - 1;
      assert m / 2 == Pow2(k - 1) - 1 && m % 2 == 1;
      MaskIsRemainder(x / 2, k - 1);
      RemainderByDouble(x, Pow2(k - 1));
      hide Rem;
    }
  }

  lemma {:induction false} CountOnesZero(x: nat)
    ensures CountOnes(x) == 0 <==> x == 0
  {
    if x > 0 {
      CountOnesZero(x / 2);
    }
  }

  /** The alignment test `align.count_ones() != 1` rejects exactly the non-powers of two. */
  lemma {:induction false} OneBitIsPow2(x: nat)
    ensures CountOnes(x) == 1 <==> IsPow2(x)
  {
    if x == 0 {
    } else if x == 1 {
      assert x == Pow2(0);
    } else {
      OneBitIsPow2(x / 2);
      CountOnesZero(x / 2);
      if IsPow2(x) {
        var k: nat :| x == Pow2(k);
        assert x / 2 == Pow2(k - 1);
      }
      if x % 2 == 0 && IsPow2(x / 2) {
        var k: nat :| x / 2 == Pow2(k);
        assert x == Pow2(k + 1);
      }
    }
  }
}
