/**
 Products, quotients and powers. The steps that are not linear are small lemmas here; `Mul`, `Quot`
 and `Rem` name the operations where a proof only needs such steps.
 */
module Arithmetic {

  lemma {:induction false} Distribute(a: int, b: int, m: int)
    ensures (a + b) * m == a * m + b * m
  {
  }

  /** Multiples of `m` are at least `m` apart. */
  lemma {:induction false} Spread(a: int, b: int, m: nat)
    requires a < b
    ensures a * m + m <= b * m
  {
    Distribute(a, b - a, m);
    Distribute(b - a - 1, 1, m);
    assert (b - a - 1) * m >= 0;
  }

  lemma {:induction false} Squares(a: nat, b: nat)
    requires a <= b
    ensures a * a <= b * b
  {
    if a < b {
      Spread(a, b, a);
      Spread(a, b, b);
    }
  }

  /** The square of the sum of two numbers is at least four times their product. */
  lemma {:induction false} Mean(a: nat, b: nat)
    ensures 4 * (a * b) <= (a + b) * (a + b)
  {
    var d := a - b;
    assert d * d >= 0;
    assert (a + b) * (a + b) == 4 * (a * b) + d * d;
  }

  function Mul(a: nat, b: nat): nat {
    a * b
  }

  lemma {:induction false} MulNext(a: nat, b: nat)
    ensures Mul(a + 1, b) == Mul(a, b) + b
  {
    Distribute(a, 1, b);
  }

  lemma {:induction false} MulSpread(a: nat, b: nat, m: nat)
    requires a < b
    ensures Mul(a, m) + m <= Mul(b, m)
  {
    Spread(a, b, m);
  }

  function Quot(n: nat, d: nat): (q: nat)
    requires d > 0
    ensures n > 0 && d >= 2 ==> q < n
  {
    n / d
  }

  function Rem(n: nat, d: nat): (r: nat)
    requires d > 0
    ensures r < d
  {
    n % d
  }

  lemma {:induction false} Grows(q: nat, a: nat, b: nat)
    requires a <= b
    ensures q * a <= q * b
  {
  }

  lemma {:induction false} DivLow(n: nat, d: nat)
    requires d > 0
    ensures n / d * d <= n
  {
  }

  lemma {:induction false} DivHigh(n: nat, d: nat)
    requires d > 0
    ensures n < n / d * d + d
  {
  }

  /** A quotient by 8 or more is below every `p` with `n < 8 * p`. */
  lemma {:induction false} DivSmaller(n: nat, d: nat, p: nat)
    requires d >= 8 && 0 < n < 8 * p
    ensures Quot(n, d) < p && Quot(n, d) < n
  {
    DivLow(n, d);
    ProductSmaller(n, d, p, n / d);
  }

  lemma {:induction false} ProductSmaller(n: nat, d: nat, p: nat, q: nat)
    requires d >= 8 && 0 < n < 8 * p && q * d <= n
    ensures q < p && q < n
  {
    Grows(q, 8, d);
  }

  /** The division theorem, and a quotient by 2 or more is smaller. */
  lemma {:induction false} DivMod(n: nat, d: nat)
    requires n > 0 && d >= 2
    ensures Quot(n, d) < n && Mul(Quot(n, d), d) + Rem(n, d) == n
  {
    Grows(n / d, 2, d);
  }

  lemma {:induction false} Remainder(k: nat, m: nat, r: nat)
    requires r < m
    ensures (k * m + r) % m == r
  {
    var n := k * m + r;
    var q, r' := n / m, n % m;
    assert q * m + r' == k * m + r;
    if q < k { Spread(q, k, m); }
    if k < q { Spread(k, q, m); }
  }

  // ----- powers -----

  function Pow2(n: nat): (r: nat)
    ensures r >= 1
  {
    if n == 0 then 1 else 2 * Pow2(n - 1)
  }

  lemma {:induction false} Pow2Adds(a: nat, b: nat)
    ensures Pow2(a + b) == Pow2(a) * Pow2(b)
  {
    if a > 0 {
      Pow2Adds(a - 1, b);
      assert Pow2(a + b) == 2 * Pow2((a - 1) + b) == 2 * (Pow2(a - 1) * Pow2(b));
    }
  }

  lemma {:induction false} Pow2Grows(a: nat, b: nat)
    requires a <= b
    ensures Pow2(a) <= Pow2(b)
    decreases b - a
  {
    if a < b { Pow2Grows(a, b - 1); }
  }

  lemma {:induction false} PowersOf2()
    ensures Pow2(16) == 0x1_0000 && Pow2(32) == 0x1_0000_0000
  {
    assert Pow2(4) == 16;
    Pow2Adds(4, 4);
    Pow2Adds(8, 8);
    Pow2Adds(16, 16);
  }

  function Pow8(n: nat): (r: nat)
    ensures r >= 1
  {
    if n == 0 then 1 else 8 * Pow8(n - 1)
  }

  lemma {:induction false} PowersOf8()
    ensures Pow8(6) == 0x4_0000 && Pow8(11) == 0x2_0000_0000 && Pow8(22) == 0x4_0000_0000_0000_0000
  {
    assert Pow8(3) == 0x200;
    assert Pow8(9) == 0x800_0000 by { assert Pow8(6) == 0x4_0000; }
    assert Pow8(14) == 0x400_0000_0000 by { assert Pow8(11) == 0x2_0000_0000; }
    assert Pow8(18) == 0x40_0000_0000_0000;
  }
}
