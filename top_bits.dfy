/** The leading-bits window shared by fmpz_abs_lbound_ui_2exp and
    fmpz_abs_ubound_ui_2exp: the top `bits` bits of a magnitude as a word m
    and an exponent e with m = floor(|x| / 2^e), read from one word or from
    the top one or two limbs of an mpz. */
module TopBits {
  import opened Arith
  import opened Words
  import opened Limbs
  import opened Bitwise

  /** A number of bit length b + e, shifted down by e places, has bit length b. */
  lemma ShrWindow(x: nat, e: nat, b: nat)
    requires b >= 1 && x >= 1 && BitLength(x) == b + e
    ensures Pow2(b - 1) <= x / Pow2(e) < Pow2(b)
  {
    BitLengthBounds(x);
    Pow2Add(b - 1, e);
    Pow2Add(b, e);
    DivLowerBound(x, Pow2(e), Pow2(b - 1));
    DivUpperBound(x, Pow2(e), Pow2(b));
  }

  /** A number of bit length b - c, shifted up by c places, has bit length b. */
  lemma ShlWindow(x: nat, c: nat, b: nat)
    requires x >= 1 && BitLength(x) + c == b
    ensures Pow2(b - 1) <= x * Pow2(c) < Pow2(b)
  {
    BitLengthBounds(x);
    var l := BitLength(x);
    Pow2Add(l - 1, c);
    Pow2Add(l, c);
    MulMonotone(Pow2(l - 1), x, Pow2(c));
    MulStrictMonotone(x, Pow2(l), Pow2(c));
  }

  /** A word shifted left by c places stays exact while it fits. */
  lemma ShlExact(x: Word, c: nat)
    requires c < FlintBits && x * Pow2(c) < WordBase
    ensures Shl(x, c) == x * Pow2(c)
  {
    DivModSmall(x * Pow2(c), WordBase);
  }

  /** Bit length of a nonzero word. */
  lemma WordBits(x: Word)
    requires x != 0
    ensures 1 <= BitLength(x) <= FlintBits
  {
    WordBitLength(x);
    BitLengthBounds(x);
  }

  /** low + p * top with low < p lies in [p * lo, p * hi) when lo <= top < hi. */
  lemma ScaledBounds(low: int, p: int, top: int, lo: int, hi: int)
    requires 0 <= low < p && lo <= top < hi
    ensures p * lo <= low + p * top < p * hi
  {
    MulMonotone(lo, top, p);
    MulMonotone(top + 1, hi, p);
  }

  lemma TopBounds(v: int, low: int, p: int, top: int, lo: int, hi: int, plo: int, phi: int)
    requires v == low + p * top && 0 <= low < p && lo <= top < hi
    requires plo == p * lo && phi == p * hi
    ensures plo <= v < phi
  {
    ScaledBounds(low, p, top, lo, hi);
  }

  /** An mpz's bit length is that of its top limb plus FLINT_BITS per lower limb. */
  lemma TopBitLength(limbs: seq<Word>)
    requires |limbs| >= 1 && limbs[|limbs| - 1] != 0
    ensures Value(limbs) >= 1
    ensures BitLength(Value(limbs)) == FlintBits * (|limbs| - 1) + BitLength(limbs[|limbs| - 1])
  {
    var n := |limbs|;
    WordBits(limbs[n - 1]);
    BitLengthBounds(limbs[n - 1]);
    ValueTop(limbs);
    ValueBound(limbs[..n - 1]);
    TopAlgebraBits(Value(limbs), Value(limbs[..n - 1]), LimbPow(n - 1), limbs[n - 1],
                   FlintBits * (n - 1), BitLength(limbs[n - 1]));
    BitLengthFromBounds(Value(limbs), FlintBits * (n - 1) + BitLength(limbs[n - 1]));
  }

  lemma TopAlgebraBits(v: int, low: int, p: int, top: int, lowBits: nat, l: nat)
    requires v == low + p * top && 0 <= low < p && p == Pow2(lowBits)
    requires l >= 1 && Pow2(l - 1) <= top < Pow2(l)
    ensures Pow2(lowBits + l - 1) <= v < Pow2(lowBits + l)
  {
    Pow2Sum(lowBits, l - 1, lowBits + l - 1);
    Pow2Sum(lowBits, l, lowBits + l);
    TopBounds(v, low, p, top, Pow2(l - 1), Pow2(l), Pow2(lowBits + l - 1), Pow2(lowBits + l));
  }

  /** Lines 75-93 of the upper bound and 64-71 of the lower bound, before
      rounding: the exponent e = bitlength(m) - bits, then m >> e when e >= 0
      and m << -e otherwise. */
  function SingleWindow(m: Word, bits: nat): (r: (Word, int))
    requires m != 0 && 1 <= bits <= FlintBits
    ensures r.1 == BitLength(m) - bits
    ensures Pow2(bits - 1) <= r.0 < Pow2(bits)
    ensures r.1 >= 0 ==> r.0 == m / Pow2(r.1)
    ensures r.1 < 0 ==> r.0 == m * Pow2(-r.1)
  {
    WordBits(m);
    var e := FlintBits - Clz(m) - bits;
    if e >= 0 then
      ShrWindow(m, e, bits);
      (Shr(m, e), e)
    else
      (ShlUp(m, -e, bits), e)
  }

  /** m << c for a word of bit length bits - c: exact, of bit length bits. */
  function ShlUp(m: Word, c: nat, bits: nat): (r: Word)
    requires m != 0 && BitLength(m) + c == bits && bits <= FlintBits
    ensures r == m * Pow2(c) && Pow2(bits - 1) <= r < Pow2(bits)
  {
    ShlWindow(m, c, bits);
    Pow2AtMostWord(bits);
    ShlExact(m, c);
    Shl(m, c)
  }

  /** Lines 42-58 (40-57 of the lower bound), before rounding: for an mpz of
      two or more limbs, e = (size - 1) * FLINT_BITS + shift with shift the
      excess of the top limb's length over bits; a short top limb is shifted
      up and completed from the limb below it. */
  function TopWindow(limbs: seq<Word>, bits: nat): (r: (Word, int))
    requires |limbs| >= 2 && limbs[|limbs| - 1] != 0 && 1 <= bits <= FlintBits
    ensures r.1 == BitLength(Value(limbs)) - bits && r.1 > 0
    ensures Pow2(bits - 1) <= r.0 < Pow2(bits)
    ensures r.0 == Value(limbs) / Pow2(r.1)
  {
    var size := |limbs|;
    var top := limbs[size - 1];
    WordBits(top);
    TopBitLength(limbs);
    var shift := FlintBits - Clz(top) - bits;
    var e := FlintBits * (size - 1) + shift;
    var m := WindowAt(limbs, bits, shift, e);
    ShrWindow(Value(limbs), e, bits);
    (m, e)
  }

  /** The window of either case, as Value(limbs) >> e. */
  function WindowAt(limbs: seq<Word>, bits: nat, shift: int, e: int): (m: Word)
    requires |limbs| >= 2 && limbs[|limbs| - 1] != 0 && 1 <= bits <= FlintBits
    requires shift == BitLength(limbs[|limbs| - 1]) - bits && e == FlintBits * (|limbs| - 1) + shift
    ensures e >= 0 && m == Value(limbs) / Pow2(e)
  {
    WordBits(limbs[|limbs| - 1]);
    if shift >= 0 then TopLimbShifted(limbs, shift) else TwoLimbWindow(limbs, bits, -shift)
  }

  /** Shift >= 0: top >> shift. */
  function TopLimbShifted(limbs: seq<Word>, shift: nat): (m: Word)
    requires |limbs| >= 1 && shift < FlintBits
    ensures m == Value(limbs) / Pow2(FlintBits * (|limbs| - 1) + shift)
  {
    TopLimbWindow(limbs, shift);
    Shr(limbs[|limbs| - 1], shift)
  }

  /** Shift >= 0: the top limb alone, shifted down. */
  lemma TopLimbWindow(limbs: seq<Word>, shift: nat)
    requires |limbs| >= 1 && shift < FlintBits
    ensures Value(limbs) / Pow2(FlintBits * (|limbs| - 1) + shift)
            == limbs[|limbs| - 1] / Pow2(shift)
  {
    var n := |limbs|;
    ValueHigh(limbs, n - 1);
    DivPow2Split(Value(limbs), FlintBits * (n - 1), shift);
    ValueSingle(limbs[n - 1]);
    assert limbs[n - 1..] == [limbs[n - 1]];
  }

  /** Shift = -k < 0: (top << k) | (m2 >> (FLINT_BITS - k)) with m2 the limb
      below the top; the two parts do not overlap, so the OR is a sum, and it
      is the value shifted down by (size - 1) * FLINT_BITS - k places. */
  function TwoLimbWindow(limbs: seq<Word>, bits: nat, k: nat): (m: Word)
    requires |limbs| >= 2 && limbs[|limbs| - 1] != 0 && 1 <= k < FlintBits && bits <= FlintBits
    requires BitLength(limbs[|limbs| - 1]) + k == bits
    ensures m == Value(limbs) / Pow2(FlintBits * (|limbs| - 1) - k)
  {
    var n := |limbs|;
    TwoLimbValue(limbs, FlintBits - k, k);
    TwoLimbOr(limbs[n - 1], limbs[n - 2], bits, k);
    Or(Shl(limbs[n - 1], k), Shr(limbs[n - 2], FlintBits - k))
  }

  /** The OR of the shifted top limb and the shifted limb below it is their sum. */
  lemma TwoLimbOr(top: Word, m2: Word, bits: nat, k: nat)
    requires 1 <= k < FlintBits && bits <= FlintBits
    requires top != 0 && BitLength(top) + k == bits
    ensures Or(Shl(top, k), Shr(m2, FlintBits - k)) == top * Pow2(k) + m2 / Pow2(FlintBits - k)
    ensures top * Pow2(k) + m2 / Pow2(FlintBits - k) < WordBase
  {
    var s := FlintBits - k;
    TwoLimbParts(top, m2, bits, s, k);
    ShlExact(top, k);
    OrOfParts(Shl(top, k), Shr(m2, s), top, k);
  }

  lemma TwoLimbParts(top: Word, m2: Word, bits: nat, s: nat, k: nat)
    requires 1 <= k < FlintBits && s == FlintBits - k && bits <= FlintBits
    requires top != 0 && BitLength(top) + k == bits
    ensures top * Pow2(k) + m2 / Pow2(s) < WordBase
    ensures top * Pow2(k) < WordBase && m2 / Pow2(s) < Pow2(k)
  {
    ShlWindow(top, k, bits);
    Pow2AtMostWord(bits);
    WordSplit(s);
    QuotientBelow(m2, Pow2(s), Pow2(k));
    ShlRoom(top, k, bits);
  }

  /** top * 2^k has its low k bits clear, so adding less than 2^k stays below 2^bits. */
  lemma ShlRoom(top: nat, k: nat, bits: nat)
    requires top * Pow2(k) < Pow2(bits) && k <= bits
    ensures top * Pow2(k) + Pow2(k) <= Pow2(bits)
  {
    Pow2Add(bits - k, k);
    NextMultiple(top, Pow2(bits - k), Pow2(k));
  }

  lemma NextMultiple(a: int, q: int, p: int)
    requires p > 0 && a * p < q * p
    ensures a * p + p <= q * p
  {
    if a >= q {
      MulMonotone(q, a, p);
    }
    MulMonotone(a + 1, q, p);
  }

  lemma TwoLimbValue(limbs: seq<Word>, s: nat, k: nat)
    requires |limbs| >= 2 && s + k == FlintBits
    ensures Value(limbs) / Pow2(FlintBits * (|limbs| - 1) - k)
            == limbs[|limbs| - 1] * Pow2(k) + limbs[|limbs| - 2] / Pow2(s)
  {
    var n := |limbs|;
    var top, m2 := limbs[n - 1], limbs[n - 2];
    ValueHigh(limbs, n - 2);
    assert FlintBits * (n - 1) - k == FlintBits * (n - 2) + s;
    DivPow2Split(Value(limbs), FlintBits * (n - 2), s);
    assert limbs[n - 2..] == [m2, top];
    assert Value([m2, top]) == m2 + WordBase * top by {
      assert [m2, top][1..] == [top];
      ValueSingle(top);
    }
    WordSplit(s);
    DivMulAdd(m2, top, Pow2(s), Pow2(k));
  }
}
