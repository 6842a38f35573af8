/** fmpz_abs_ubound_ui_2exp (src/fmpz/abs_ubound_ui_2exp.c): an upper bound
    |x| <= m * 2^exp with m a word of exactly `bits` bits, rounding up. */
module AbsUbound {
  import opened Arith
  import opened Words
  import opened Limbs
  import opened Fmpz
  import opened Bitwise
  import opened TopBits
  import AbsLbound

  /** Lines 63-68 and 83-88: a mantissa that the increment carried to the next
      power of two (the test m & (m - 1) == 0) becomes 2^(bits - 1) with the
      exponent one larger. */
  function Renormalize(m: Word, e: int, bits: nat): (Word, int)
    requires 1 <= bits <= FlintBits
  {
    if PowerOfTwoTest(m) then (Pow2Word(bits - 1), e + 1) else (m, e)
  }

  /** Rounding up a b-bit window v / 2^e: the incremented, renormalised
      mantissa is v / 2^e' + 1 for the final exponent e', still of b bits,
      and the exponent grows exactly when the window was all ones. */
  lemma RoundUp(v: nat, e: nat, bits: nat)
    requires 1 <= bits <= FlintBits && Pow2(bits - 1) <= v / Pow2(e) < Pow2(bits)
    ensures var r := Renormalize(ToWord(v / Pow2(e) + 1), e, bits);
      && Pow2(bits - 1) <= r.0 < Pow2(bits)
      && r.0 == v / Pow2(r.1) + 1
      && (r.1 == e + 1 <==> v / Pow2(e) == Pow2(bits) - 1)
      && (r.1 == e || r.1 == e + 1)
  {
    var t := v / Pow2(e) + 1;
    PowerOfTwoTestExact(t, bits);
    Pow2StrictMonotone(bits - 1, bits);
    if t == Pow2(bits) {
      DivPow2Split(v, e, 1);
      assert Pow2(bits) == 2 * Pow2(bits - 1);
      DivModUnique(v / Pow2(e), Pow2(1), Pow2(bits - 1) - 1, 1);
    } else {
      Pow2AtMostWord(bits);
      DivModSmall(t, WordBase);
    }
  }

  /** Lines 75-93: the word window, incremented and renormalised when it
      truncated (exp >= 0), exact otherwise. */
  function SingleUbound(m: Word, bits: nat): (r: (Word, int))
    requires m != 0 && 1 <= bits <= FlintBits
    ensures Pow2(bits - 1) <= r.0 < Pow2(bits)
    ensures r.1 >= 0 ==> r.0 == m / Pow2(r.1) + 1
    ensures r.1 < 0 ==> r.0 == m * Pow2(-r.1)
    ensures r.1 == BitLength(m) - bits || (r.1 == BitLength(m) - bits + 1 && r.0 == Pow2(bits - 1))
  {
    var (w, e) := SingleWindow(m, bits);
    if e >= 0 then
      RoundUp(m, e, bits);
      Renormalize(ToWord(w + 1), e, bits)
    else
      (w, e)
  }

  /** Lines 16-97: the upper bound. When exp >= 0 the mantissa is
      floor(|x| / 2^exp) + 1, so (m - 1) * 2^exp <= |x| < m * 2^exp; when
      exp < 0, |x| * 2^-exp = m exactly. The exponent is bitlength(|x|) -
      bits, or one more when the rounding carried to 2^bits. */
  function AbsUboundUi2Exp(x: Fmpz, bits: nat): (r: (Word, int))
    requires x.Canonical() && x.Value() != 0 && 1 <= bits <= FlintBits
    ensures var v := Abs(x.Value());
      && Pow2(bits - 1) <= r.0 < Pow2(bits)
      && (r.1 >= 0 ==> r.0 == v / Pow2(r.1) + 1)
      && (r.1 < 0 ==> r.0 == v * Pow2(-r.1))
      && (r.1 == BitLength(v) - bits || (r.1 == BitLength(v) - bits + 1 && r.0 == Pow2(bits - 1)))
  {
    match x
    case Small(c) =>
      AbsLbound.SmallIsWord(c);
      SingleUbound(Abs(c), bits)
    case Large(negative, limbs) =>
      if |limbs| == 1 then
        AbsLbound.OneLimb(limbs);
        SingleUbound(limbs[0], bits)
      else
        MultiUbound(limbs, bits)
  }

  /** Lines 40-71: an mpz of two or more limbs; its window always truncates,
      so it is always incremented and renormalised. */
  function MultiUbound(limbs: seq<Word>, bits: nat): (r: (Word, int))
    requires |limbs| >= 2 && limbs[|limbs| - 1] != 0 && 1 <= bits <= FlintBits
    ensures var v := Value(limbs);
      && Pow2(bits - 1) <= r.0 < Pow2(bits)
      && r.1 > 0 && r.0 == v / Pow2(r.1) + 1
      && (r.1 == BitLength(v) - bits || (r.1 == BitLength(v) - bits + 1 && r.0 == Pow2(bits - 1)))
  {
    var (w, e) := TopWindow(limbs, bits);
    RoundUp(Value(limbs), e, bits);
    Renormalize(ToWord(w + 1), e, bits)
  }

  /** The bound holds: |x| <= m * 2^exp, strictly when exp >= 0, and the
      mantissa is never more than one unit too large: (m - 1) * 2^exp <= |x|. */
  lemma UboundBrackets(x: Fmpz, bits: nat)
    requires x.Canonical() && x.Value() != 0 && 1 <= bits <= FlintBits
    ensures var (m, e) := AbsUboundUi2Exp(x, bits); var v := Abs(x.Value());
      e >= 0 ==> (m - 1) * Pow2(e) <= v < m * Pow2(e)
  {
    var (m, e) := AbsUboundUi2Exp(x, bits);
    var v := Abs(x.Value());
    if e >= 0 {
      AbsLbound.FloorBrackets(v, Pow2(e), m - 1);
    }
  }

  /** The upper and lower bounds share their exponent unless the upper one
      carried, and then differ by exactly one unit in the mantissa. */
  lemma UboundAboveLbound(x: Fmpz, bits: nat)
    requires x.Canonical() && x.Value() != 0 && 1 <= bits <= FlintBits
    ensures var (mu, eu) := AbsUboundUi2Exp(x, bits);
            var (ml, el) := AbsLbound.AbsLboundUi2Exp(x, bits);
      eu >= 0 && eu == el ==> mu == ml + 1
  {
  }
}
