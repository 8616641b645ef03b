/** The integer square root: Newton's iteration from a bit-length guess, in 32-bit arithmetic. */
module IntegerSqrt {

  import opened Arithmetic

  const U32_MAX := 0xFFFF_FFFF

  predicate U32(v: int) { 0 <= v <= U32_MAX }

  /** The number of bits of `n`: 32 less the leading zeros. */
  function BitLength(n: nat): (b: nat)
    ensures n < Pow2(b) && (n > 0 ==> b > 0 && Pow2(b - 1) <= n)
  {
    if n == 0 then 0 else 1 + BitLength(n / 2)
  }

  /** `x` is not below the square root of `n`. */
  predicate AtLeastRoot(n: nat, x: nat) {
    (x + 1) * (x + 1) > n
  }

  function NewtonStep(n: nat, x: nat): nat
    requires x > 0
  {
    (x + n / x) / 2
  }

  /** A 32-bit input has at most 32 bits, and the guess from its bit length is not below the root. */
  lemma {:induction false} GuessAboveRoot(n: nat)
    requires 0 < n <= U32_MAX
    ensures var h := (BitLength(n) + 1) / 2;
            BitLength(n) <= 32 && h <= 16 && 0 < Pow2(h) <= 0x1_0000 && AtLeastRoot(n, Pow2(h))
  {
    hide Pow2, BitLength, AtLeastRoot;
    BitsBound(n);
    PowersOf2();
    var b := BitLength(n);
    var h := (b + 1) / 2;
    Pow2Grows(h, 16);
    GuessSquare(n, b, h);
  }

  lemma {:induction false} GuessSquare(n: nat, b: nat, h: nat)
    requires n < Pow2(b) && b <= h + h
    ensures AtLeastRoot(n, Pow2(h))
  {
    hide Pow2;
    Pow2Grows(b, h + h);
    Pow2Adds(h, h);
    SquareAbove(n, Pow2(h));
  }

  lemma {:induction false} SquareAbove(n: nat, g: nat)
    requires n < g * g
    ensures AtLeastRoot(n, g)
  {
    Squares(g, g + 1);
  }

  lemma {:induction false} BitsBound(n: nat)
    requires n <= U32_MAX
    ensures BitLength(n) <= 32
  {
    hide Pow2;
    PowersOf2();
    if BitLength(n) > 32 { Pow2Grows(32, BitLength(n) - 1); }
  }

  /** A Newton step never falls below the root, whatever it starts from. */
  lemma {:induction false} NewtonAbove(n: nat, x: nat)
    requires x > 0
    ensures AtLeastRoot(n, NewtonStep(n, x)) && (n > 0 ==> NewtonStep(n, x) > 0)
  {
    hide AtLeastRoot;
    var q := n / x;
    var y := (x + q) / 2;
    assert n < (q + 1) * x by { DivHigh(n, x); Distribute(q, 1, x); }
    MeanAbove(n, x, q + 1, y + 1);
    AboveMeans(n, y);
    if n > 0 && x == 1 { DivHigh(n, 1); }
  }

  lemma {:induction false} AboveMeans(n: nat, y: nat)
    requires n < (y + 1) * (y + 1)
    ensures AtLeastRoot(n, y)
  {
  }

  /** Twice the root of a product is at most the sum of its factors. */
  lemma {:induction false} MeanAbove(n: nat, a: nat, b: nat, z: nat)
    requires n < b * a && a + b <= 2 * z
    ensures n < z * z
  {
    Mean(a, b);
    Squares(a + b, 2 * z);
    assert (2 * z) * (2 * z) == 4 * (z * z);
    assert a * b == b * a;
  }

  /** The step does not decrease exactly if the current value is at most the root. */
  lemma {:induction false} NewtonStops(n: nat, x: nat)
    requires x > 0
    ensures NewtonStep(n, x) >= x <==> x * x <= n
  {
    var q := n / x;
    DivLow(n, x);
    DivHigh(n, x);
    if q > x { Spread(x, q, x); }
    Distribute(q, 1, x);
    if q + 1 < x { Spread(q + 1, x, x); }
  }

  /** From a value that is not below the root the sum of the step stays in range. */
  lemma {:induction false} StepInRange(n: nat, x: nat)
    requires 0 < x <= 0x1_0000 && AtLeastRoot(n, x)
    ensures U32(x + n / x)
  {
    var q := n / x;
    DivLow(n, x);
    assert (x + 1) * (x + 1) == (x + 2) * x + 1;
    if q > x + 2 { Spread(x + 2, q, x); }
  }

  /** The value that the iteration starts from. */
  function Guess(n: nat): (x: nat)
    ensures x > 0
  {
    Pow2((BitLength(n) + 1) / 2)
  }

  /** How many times the loop goes round from `x`. */
  function Rounds(n: nat, x: nat): nat
    requires n > 0 && x > 0
    decreases x
  {
    var y := NewtonStep(n, x);
    if y >= x then 0 else NewtonAbove(n, x); 1 + Rounds(n, y)
  }

  /** Two rounds are enough exactly if the guess, or one of the two values after it, is at most the
      root. */
  lemma {:induction false} TwoRounds(n: nat)
    requires n > 0
    ensures var x0 := Guess(n); var x1 := NewtonStep(n, x0);
            x1 > 0 && (Rounds(n, x0) <= 2 <==>
                         x0 * x0 <= n || x1 * x1 <= n || NewtonStep(n, x1) * NewtonStep(n, x1) <= n)
  {
    hide NewtonStep, Guess, Rounds;
    var x0 := Guess(n);
    NextRound(n, x0);
    var x1 := NewtonStep(n, x0);
    NextRound(n, x1);
    NextRound(n, NewtonStep(n, x1));
  }

  lemma {:induction false} NextRound(n: nat, x: nat)
    requires n > 0 && x > 0
    ensures NewtonStep(n, x) > 0 && Rounds(n, x) == if x * x <= n then 0 else 1 + Rounds(n, NewtonStep(n, x))
  {
    hide NewtonStep, AtLeastRoot;
    NewtonAbove(n, x);
    NewtonStops(n, x);
  }

  /** They are not always: from the guess 65536 for this number the third still decreases. */
  lemma {:induction false} MoreThanTwoRounds()
    ensures Rounds(0x4000_0001, Guess(0x4000_0001)) > 2
  {
    hide BitLength, Pow2, Rounds;
    PowersOf2();
    ThirtyOneBits(0x4000_0001);
    TwoRounds(0x4000_0001);
    assert NewtonStep(0x4000_0001, 65536) == 40960 && NewtonStep(0x4000_0001, 40960) == 33587;
  }

  lemma {:induction false} ThirtyOneBits(n: nat)
    requires 0x4000_0000 <= n < 0x8000_0000
    ensures BitLength(n) == 31
  {
    assert Pow2(30) == 0x4000_0000 && Pow2(31) == 0x8000_0000 by {
      assert Pow2(16) == 0x1_0000 by { PowersOf2(); }
      Pow2Adds(16, 14);
      assert Pow2(7) == 128;
      Pow2Adds(7, 7);
    }
    hide Pow2, BitLength;
    if BitLength(n) < 31 { Pow2Grows(BitLength(n), 30); }
    if BitLength(n) > 31 { Pow2Grows(31, BitLength(n) - 1); }
  }

  /** The integer square root. */
  method Isqrt(n: nat) returns (r: nat)
    requires n <= U32_MAX
    ensures r * r <= n < (r + 1) * (r + 1)
  {
    if n == 0 { return 0; }
    var x, y, rounds := Newton(n);
    NewtonStops(n, x);
    r := x;
  }

  /** The iteration: from the bit-length guess down to the first value that the step does not decrease,
      in as many rounds as the steps take. */
  method Newton(n: nat) returns (x: nat, y: nat, rounds: nat)
    requires 0 < n <= U32_MAX
    ensures x > 0 && AtLeastRoot(n, x) && y == NewtonStep(n, x) && y >= x
    ensures rounds == Rounds(n, Guess(n))
  {
    hide AtLeastRoot, NewtonStep, Pow2, BitLength;
    GuessAboveRoot(n);
    var bits := BitLength(n);
    x := Pow2((bits + 1) / 2);
    StepInRange(n, x);
    y := NewtonStep(n, x);
    rounds := 0;
    while y < x
      invariant 0 < x <= 0x1_0000 && AtLeastRoot(n, x) && y == NewtonStep(n, x)
      invariant rounds + Rounds(n, x) == Rounds(n, Guess(n))
      decreases x
    {
      NewtonAbove(n, x);
      x := y;
      StepInRange(n, x);
      y := NewtonStep(n, x);
      rounds := rounds + 1;
    }
  }
}
