/** mag_set_ui and mag_set_ui_lower (src/mag/set_ui.c): a word x as a
    magnitude man * 2^(exp - MAG_BITS) with a MAG_BITS-bit mantissa, rounded
    up or down. The routines are stated for a mantissa width b; mag.h fixes
    it at MAG_BITS = 30. */
module MagSetUi {
  import opened Arith
  import opened Words
  import opened TopBits

  /** MAG_BITS, the mantissa width of a mag_t (defined in mag.h). */
  const MagBits: nat := 30

  /** A mag_t: exponent and mantissa. The exponent is an fmpz in the source;
      it is an unbounded integer here. */
  datatype Mag = Mag(exp: int, man: Word)

  /** mag_set_ui (lines 14-47) for a mantissa width b (MAG_BITS): the bit
      length of x becomes the exponent; a short x is shifted up exactly, a
      long one is shifted down and rounded up. For a long x the mantissa is
      floor(x / 2^(exp - b)) + 1, so x < man * 2^(exp - b), and the exponent
      is bitlength(x), or one more when the increment carried. */
  function MagSetUiUpper(x: Word, b: nat): (z: Mag)
    requires 1 <= b < FlintBits
    ensures x == 0 ==> z == Mag(0, 0)
    ensures x != 0 ==> Pow2(b - 1) <= z.man < Pow2(b)
    ensures x != 0 && BitLength(x) <= b ==>
      z.exp == BitLength(x) && z.man == x * Pow2(b - BitLength(x))
    ensures BitLength(x) > b ==> RoundsUp(x, z, b)
  {
    if x == 0 then Mag(0, 0)
    else
      var bits := FlintBits - Clz(x);
      assert bits == BitLength(x);
      if bits <= b then ShortMag(x, bits, b)
      else LongMagUpper(x, bits, b)
  }

  /** mag_set_ui_lower (lines 49-74): as mag_set_ui but truncating; the
      exponent is always bitlength(x), and a long x gives
      man * 2^(exp - b) <= x < (man + 1) * 2^(exp - b). */
  function MagSetUiLower(x: Word, b: nat): (z: Mag)
    requires 1 <= b < FlintBits
    ensures x == 0 ==> z == Mag(0, 0)
    ensures x != 0 ==> Pow2(b - 1) <= z.man < Pow2(b) && z.exp == BitLength(x)
    ensures x != 0 && BitLength(x) <= b ==> z.man == x * Pow2(b - BitLength(x))
    ensures BitLength(x) > b ==> z.exp >= b && Brackets(x, z, b)
  {
    if x == 0 then Mag(0, 0)
    else
      var bits := FlintBits - Clz(x);
      assert bits == BitLength(x);
      if bits <= b then ShortMag(x, bits, b)
      else LongMagLower(x, bits, b)
  }

  /** z rounds x up: man = floor(x / 2^(exp - b)) + 1, and exp is bitlength(x),
      or one more when the increment carried into a new top bit. */
  predicate RoundsUp(x: nat, z: Mag, b: nat)
    requires b >= 1
  {
    && z.exp > b
    && z.man == x / Pow2(z.exp - b) + 1
    && (z.exp == BitLength(x) || (z.exp == BitLength(x) + 1 && z.man == Pow2(b - 1)))
  }

  /** (man - 1) * 2^(exp - b) <= x < man * 2^(exp - b): z exceeds x by at
      most one unit of its last place. */
  predicate BracketsAbove(x: nat, z: Mag, b: nat)
    requires z.exp >= b
  {
    (z.man - 1) * Pow2(z.exp - b) <= x < z.man * Pow2(z.exp - b)
  }

  /** man * 2^(exp - b) <= x < (man + 1) * 2^(exp - b): z truncates x. */
  predicate Brackets(x: nat, z: Mag, b: nat)
    requires z.exp >= b
  {
    z.man * Pow2(z.exp - b) <= x < (z.man + 1) * Pow2(z.exp - b)
  }

  /** mag_set_ui at MAG_BITS = 30: a nonzero x gets a 30-bit mantissa, exact
      for x below 2^30 and otherwise an upper bound within one unit. */
  function MagSetUi(x: Word): (z: Mag)
    ensures x == 0 ==> z == Mag(0, 0)
    ensures x != 0 ==> Pow2(MagBits - 1) <= z.man < Pow2(MagBits)
    ensures x != 0 && BitLength(x) <= MagBits ==>
      z.exp == BitLength(x) && z.man == x * Pow2(MagBits - BitLength(x))
    ensures BitLength(x) > MagBits ==> z.exp > MagBits && BracketsAbove(x, z, MagBits)
  {
    UpperBrackets(x, MagBits);
    MagSetUiUpper(x, MagBits)
  }

  /** mag_set_ui_lower at MAG_BITS = 30: the exponent is bitlength(x) and a
      long x is truncated to its top 30 bits. */
  function MagSetUiLower30(x: Word): (z: Mag)
    ensures x == 0 ==> z == Mag(0, 0)
    ensures x != 0 ==> Pow2(MagBits - 1) <= z.man < Pow2(MagBits) && z.exp == BitLength(x)
    ensures x != 0 && BitLength(x) <= MagBits ==> z.man == x * Pow2(MagBits - BitLength(x))
    ensures BitLength(x) > MagBits ==> z.exp >= MagBits && Brackets(x, z, MagBits)
  {
    MagSetUiLower(x, MagBits)
  }

  /** Lines 32-35 and 66-67: x << (b - bits) for a mantissa width b, exact. */
  function ShortMag(x: Word, bits: nat, b: nat): (z: Mag)
    requires x != 0 && bits == BitLength(x) && bits <= b <= FlintBits
    ensures z.exp == bits && z.man == x * Pow2(b - bits)
    ensures Pow2(b - 1) <= z.man < Pow2(b)
  {
    Mag(bits, ShlUp(x, b - bits, b))
  }

  /** Lines 36-42: (x >> (bits - b)) + 1, then the carry overflow = x >> b is
      added to the exponent and shifted out. */
  function LongMagUpper(x: Word, bits: nat, b: nat): (z: Mag)
    requires x != 0 && bits == BitLength(x) && 1 <= b < bits && b < FlintBits
    ensures Pow2(b - 1) <= z.man < Pow2(b)
    ensures RoundsUp(x, z, b)
  {
    var y := RoundedWindow(x, bits, b);
    var overflow := Carry(y, b);
    RoundWindow(x, b, y, overflow);
    Mag(bits + overflow, Shr(y, overflow))
  }

  /** Line 69: x >> (bits - b). */
  function LongMagLower(x: Word, bits: nat, b: nat): (z: Mag)
    requires x != 0 && bits == BitLength(x) && 1 <= b < bits
    ensures z.exp == bits && Pow2(b - 1) <= z.man < Pow2(b)
    ensures z.exp >= b && Brackets(x, z, b)
  {
    WordBitLength(x);
    var m := Shr(x, bits - b);
    TruncWindow(x, b, m);
    Mag(bits, m)
  }

  /** (x >> (bits - b)) + 1 for x of bit length bits > b: at most 2^b, so
      still a word. */
  function RoundedWindow(x: Word, bits: nat, b: nat): (y: Word)
    requires x != 0 && bits == BitLength(x) && 1 <= b < bits
    ensures y == x / Pow2(bits - b) + 1
    ensures Pow2(b - 1) < y <= Pow2(b)
  {
    WordBitLength(x);
    WindowFits(x, bits, b);
    Shr(x, bits - b) + 1
  }

  lemma WindowFits(x: nat, bits: nat, b: nat)
    requires x >= 1 && bits == BitLength(x) && 1 <= b < bits <= FlintBits
    ensures Pow2(b - 1) < x / Pow2(bits - b) + 1 <= Pow2(b) < WordBase
  {
    ShrWindow(x, bits - b, b);
    Pow2BelowWord(b);
  }

  /** overflow = y >> b for 2^(b - 1) < y <= 2^b: one exactly at 2^b. */
  function Carry(y: Word, b: nat): (o: nat)
    requires 1 <= b < FlintBits && Pow2(b - 1) < y <= Pow2(b)
    ensures o == Shr(y, b) && o <= 1 && (o == 1 <==> y == Pow2(b))
  {
    if y == Pow2(b) then
      DivMulExact(1, Pow2(b));
      Shr(y, b)
    else
      DivModSmall(y, Pow2(b));
      Shr(y, b)
  }

  /** Halving a carried mantissa: when y = v / 2^e + 1 and the carry o is 0 or
      1 (one exactly when y = 2^b), y >> o is v / 2^(e + o) + 1 and lies in
      [2^(b - 1), 2^b). */
  lemma CarryHalves(v: nat, e: nat, b: nat, y: nat, o: nat)
    requires b >= 1 && Pow2(b - 1) <= v / Pow2(e) < Pow2(b) && y == v / Pow2(e) + 1
    requires o <= 1 && (o == 1 <==> y == Pow2(b))
    ensures y / Pow2(o) == v / Pow2(e + o) + 1
    ensures Pow2(b - 1) <= y / Pow2(o) < Pow2(b)
    ensures o == 1 ==> y / Pow2(o) == Pow2(b - 1)
  {
    assert Pow2(b) == 2 * Pow2(b - 1);
    if o == 1 {
      DivPow2Split(v, e, 1);
      DivModUnique(v / Pow2(e), Pow2(1), Pow2(b - 1) - 1, 1);
      DivModUnique(y, Pow2(1), Pow2(b - 1), 0);
    } else {
      assert Pow2(0) == 1;
    }
  }

  /** Rounding up a word x of more than b bits to b bits, as mag_set_ui does
      it: with e = bitlength(x) - b and o the carry, the mantissa is
      x / 2^(e + o) + 1, of b bits, and 2^(b - 1) after a carry. */
  lemma RoundWindow(x: Word, b: nat, y: Word, o: nat)
    requires 1 <= b < BitLength(x) && b < FlintBits
    requires y == x / Pow2(BitLength(x) - b) + 1 && o <= 1 && (o == 1 <==> y == Pow2(b))
    ensures Pow2(b - 1) <= Shr(y, o) < Pow2(b)
    ensures Shr(y, o) == x / Pow2(BitLength(x) - b + o) + 1
    ensures o == 1 ==> Shr(y, o) == Pow2(b - 1)
  {
    var e := BitLength(x) - b;
    ShrWindow(x, e, b);
    CarryHalves(x, e, b, y, o);
    assert Shr(y, o) == y / Pow2(o);
  }

  /** Truncating a number x of more than b bits to b bits: with
      e = bitlength(x) - b, m = x >> e has b bits and m * 2^e <= x < (m + 1) * 2^e. */
  lemma TruncWindow(x: nat, b: nat, m: Word)
    requires 1 <= b < BitLength(x) && m == x / Pow2(BitLength(x) - b)
    ensures Pow2(b - 1) <= m < Pow2(b)
    ensures Brackets(x, Mag(BitLength(x), m), b)
  {
    var e := BitLength(x) - b;
    ShrWindow(x, e, b);
    Truncation(x, e);
  }

  lemma Truncation(x: nat, e: nat)
    ensures x / Pow2(e) * Pow2(e) <= x < (x / Pow2(e) + 1) * Pow2(e)
  {
    DivModUnique(x, Pow2(e), x / Pow2(e), x % Pow2(e));
  }

  /** mag_set_ui is an upper bound, never more than one unit too large: for a
      long x, (man - 1) * 2^(exp - b) <= x < man * 2^(exp - b). */
  lemma UpperBrackets(x: Word, b: nat)
    requires 1 <= b < FlintBits
    ensures var z := MagSetUiUpper(x, b); BitLength(x) > b ==> z.exp > b && BracketsAbove(x, z, b)
  {
    var z := MagSetUiUpper(x, b);
    if BitLength(x) > b {
      AboveFromFloor(x, z, b);
    }
  }

  /** A mantissa one above floor(x / 2^(exp - b)) brackets x from above. */
  lemma AboveFromFloor(x: nat, z: Mag, b: nat)
    requires z.exp > b && z.man == x / Pow2(z.exp - b) + 1
    ensures BracketsAbove(x, z, b)
  {
    var p, q := Pow2(z.exp - b), x / Pow2(z.exp - b);
    Truncation(x, z.exp - b);
    assert (z.man - 1) * p == q * p;
  }

  /** mag_set_ui rounds up and mag_set_ui_lower rounds down: for a long x
      without a carry they share the exponent and the upper mantissa is one
      more than the lower; a short x gives the same exact result in both. */
  lemma UpperLowerAdjacent(x: Word, b: nat)
    requires x != 0 && 1 <= b < FlintBits
    ensures var u, l := MagSetUiUpper(x, b), MagSetUiLower(x, b);
      if BitLength(x) <= b then u == l
      else u.exp == l.exp ==> u.man == l.man + 1
  {
    var u, l := MagSetUiUpper(x, b), MagSetUiLower(x, b);
    if BitLength(x) > b && u.exp == l.exp {
      LongAdjacent(x, b, u, l);
    }
  }

  /** A rounded-up and a truncated mantissa at the same exponent differ by one. */
  lemma LongAdjacent(x: nat, b: nat, u: Mag, l: Mag)
    requires u.exp == l.exp && l.exp >= b && Brackets(x, l, b)
    requires u.man == x / Pow2(u.exp - b) + 1
    ensures u.man == l.man + 1
  {
    BracketsFloor(x, l, b);
  }

  /** Brackets pin the mantissa down as the floor of x / 2^(exp - b). */
  lemma BracketsFloor(x: nat, z: Mag, b: nat)
    requires z.exp >= b && Brackets(x, z, b)
    ensures x / Pow2(z.exp - b) == z.man
  {
    var p := Pow2(z.exp - b);
    DivBetween(x, p, z.man);
  }
}
