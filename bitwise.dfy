/** Bitwise AND and OR of natural numbers, bit by bit from the least
    significant end, with the two facts the bound routines rely on: the
    power-of-two test m & (m - 1) == 0, and an OR of disjoint bit ranges. */
module Bitwise {
  import opened Arith
  import opened Words

  function And(x: nat, y: nat): nat
  {
    if x == 0 || y == 0 then 0
    else 2 * And(x / 2, y / 2) + (if x % 2 == 1 && y % 2 == 1 then 1 else 0)
  }

  function Or(x: nat, y: nat): nat
  {
    if x == 0 then y
    else if y == 0 then x
    else 2 * Or(x / 2, y / 2) + (if x % 2 == 1 || y % 2 == 1 then 1 else 0)
  }

  /** UWORD(1) << k. */
  function Pow2Word(k: nat): (w: Word)
    requires k < FlintBits
    ensures w == Pow2(k)
  {
    Pow2Monotone(k, FlintBits);
    Pow2StrictMonotone(k, FlintBits);
    Pow2Of64();
    Pow2(k)
  }

  /** The C test (m & (m - 1)) == 0 on a word, m - 1 wrapping at zero. */
  predicate PowerOfTwoTest(m: Word)
  {
    And(m, ToWord(m - 1)) == 0
  }

  /** A power of two has no bit in common with its predecessor. */
  lemma {:induction false} AndPow2Pred(k: nat)
    ensures And(Pow2(k), Pow2(k) - 1) == 0
  {
    if k > 0 {
      AndPow2Pred(k - 1);
      assert Pow2(k) == 2 * Pow2(k - 1);
      assert (Pow2(k) - 1) / 2 == Pow2(k - 1) - 1;
    }
  }

  /** Two numbers with the same bit length b + 1 share bit b. */
  lemma {:induction false} AndTopBit(x: nat, y: nat, b: nat)
    requires Pow2(b) <= x < Pow2(b + 1) && Pow2(b) <= y < Pow2(b + 1)
    ensures And(x, y) >= Pow2(b)
  {
    if b > 0 {
      assert Pow2(b + 1) == 2 * Pow2(b) && Pow2(b) == 2 * Pow2(b - 1);
      AndTopBit(x / 2, y / 2, b - 1);
    }
  }

  /** A word m with 1 <= m < B is its own ToWord, and so is m - 1. */
  lemma WordFixed(m: int, m1: int)
    requires 0 < m < WordBase && m1 == m - 1
    ensures ToWord(m) == m && ToWord(ToWord(m) - 1) == m1
  {
    DivModSmall(m, WordBase);
    DivModSmall(m1, WordBase);
  }

  /** Once the increment of a b-bit mantissa is formed in a word, the test
      m & (m - 1) == 0 holds exactly when it reached 2^b (which wraps to 0
      when b = FLINT_BITS). */
  lemma PowerOfTwoTestExact(t: int, b: nat)
    requires 1 <= b <= FlintBits && Pow2(b - 1) < t <= Pow2(b)
    ensures PowerOfTwoTest(ToWord(t)) <==> t == Pow2(b)
  {
    if t == Pow2(b) && b == FlintBits {
      Pow2Of64();
      DivMulExact(1, WordBase);
      assert ToWord(t) == 0;
    } else {
      Pow2AtMostWord(b);
      if t == Pow2(b) {
        Pow2BelowWord(b);
        AndPow2Pred(b);
      } else {
        Pow2Add(b - 1, 1);
        AndTopBit(t, t - 1, b - 1);
      }
      WordFixed(t, t - 1);
    }
  }

  lemma OrZero(x: nat)
    ensures Or(x, 0) == x && Or(0, x) == x
  {
  }

  /** OR of a multiple of 2^k with a number below 2^k is their sum. */
  lemma {:induction false} OrDisjoint(a: nat, c: nat, k: nat)
    requires c < Pow2(k)
    ensures Or(a * Pow2(k), c) == a * Pow2(k) + c
  {
    var x := a * Pow2(k);
    if k == 0 {
      OrZero(x);
    } else if a == 0 || c == 0 {
      OrZero(x);
      OrZero(c);
    } else {
      Pow2Add(k - 1, 1);
      assert x == 2 * (a * Pow2(k - 1));
      assert x / 2 == a * Pow2(k - 1) && x % 2 == 0;
      OrDisjoint(a, c / 2, k - 1);
    }
  }

  /** OrDisjoint for named operands. */
  lemma OrOfParts(x: nat, y: nat, a: nat, k: nat)
    requires x == a * Pow2(k) && y < Pow2(k)
    ensures Or(x, y) == x + y
  {
    OrDisjoint(a, y, k);
  }
}
