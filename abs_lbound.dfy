/** fmpz_abs_lbound_ui_2exp (src/fmpz/abs_lbound_ui_2exp.c): a lower bound
    m * 2^exp <= |x| with m a word of exactly `bits` bits, by truncation. */
module AbsLbound {
  import opened Arith
  import opened Words
  import opened Limbs
  import opened Fmpz
  import opened TopBits

  /** Lines 17-72: an inline value or a one-limb mpz goes through the word
      window, a longer mpz through its top limbs. The result is (m, exp). */
  function AbsLboundUi2Exp(x: Fmpz, bits: nat): (r: (Word, int))
    requires x.Canonical() && x.Value() != 0 && 1 <= bits <= FlintBits
    ensures var v := Abs(x.Value());
      && Pow2(bits - 1) <= r.0 < Pow2(bits)
      && r.1 == BitLength(v) - bits
      && (r.1 >= 0 ==> r.0 == v / Pow2(r.1))
      && (r.1 < 0 ==> r.0 == v * Pow2(-r.1))
  {
    match x
    case Small(c) =>
      SmallIsWord(c);
      SingleWindow(Abs(c), bits)
    case Large(negative, limbs) =>
      if |limbs| == 1 then
        OneLimb(limbs);
        SingleWindow(limbs[0], bits)
      else
        TopWindow(limbs, bits)
  }

  /** The magnitude of an inline value is a word. */
  lemma SmallIsWord(c: int)
    requires IsSmall(c)
    ensures Abs(c) < WordBase
  {
  }

  /** A one-limb mpz holds its single limb, which is nonzero. */
  lemma OneLimb(limbs: seq<Word>)
    requires |limbs| == 1 && Normalized(limbs)
    ensures Value(limbs) == limbs[0] && limbs[0] != 0
  {
    assert limbs == [limbs[0]];
    ValueSingle(limbs[0]);
  }

  /** m = floor(v / p) brackets v between m * p and (m + 1) * p. */
  lemma FloorBrackets(v: nat, p: nat, m: int)
    requires p > 0 && m == v / p
    ensures m * p <= v < (m + 1) * p
  {
    DivModUnique(v, p, m, v % p);
  }

  /** The bound is a truncation: m * 2^exp <= |x| < (m + 1) * 2^exp, with
      equality when exp <= 0, i.e. when |x| has at most `bits` bits. */
  lemma LboundBrackets(x: Fmpz, bits: nat)
    requires x.Canonical() && x.Value() != 0 && 1 <= bits <= FlintBits
    ensures var (m, e) := AbsLboundUi2Exp(x, bits); var v := Abs(x.Value());
      && (e >= 0 ==> m * Pow2(e) <= v < (m + 1) * Pow2(e))
      && (BitLength(v) <= bits ==> e <= 0 && m == v * Pow2(-e))
  {
    var (m, e) := AbsLboundUi2Exp(x, bits);
    var v := Abs(x.Value());
    if e >= 0 {
      FloorBrackets(v, Pow2(e), m);
    }
    if BitLength(v) <= bits && e == 0 {
      assert Pow2(0) == 1;
    }
  }
}
