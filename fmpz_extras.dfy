/** The inline fmpz helpers of fmpz_extras.h: fast paths on inline values that
    fall back to the general routines, rounding division by a power of two,
    size and limb access, and the copy of a limb vector into a heap integer.
    The general routines they fall back to (fmpz_add, fmpz_add_si, fmpz_mul_ui,
    fmpz_cdiv_q_2exp, ...) are taken to return the canonical fmpz of the exact
    result. */
module FmpzExtras {
  import opened Arith
  import opened Words
  import Limbs
  import opened Fmpz

  /** fmpz_set_si: the canonical fmpz of a signed word. */
  function SetSi(v: int): (z: Fmpz)
    requires IsSigned(v)
    ensures z.Canonical() && z.Value() == v
  {
    FromInt(v)
  }

  /** Two inline values add without leaving the signed word range. */
  lemma SmallSumSigned(f: int, g: int)
    requires IsSmall(f) && IsSmall(g)
    ensures IsSigned(f + g) && WrapSigned(f + g) == f + g
  {
    WrapSignedExact(f + g);
  }

  /** The slong sum f + g of two inline values: it does not wrap. */
  function SmallSum(f: int, g: int): (r: int)
    requires IsSmall(f) && IsSmall(g)
    ensures IsSigned(r) && r == f + g
  {
    SmallSumSigned(f, g);
    WrapSigned(f + g)
  }

  /** fmpz_add_inline: f + g as a signed word when both are inline. */
  function AddInline(x: Fmpz, y: Fmpz): (z: Fmpz)
    requires x.Canonical() && y.Canonical()
    ensures z.Canonical() && z.Value() == x.Value() + y.Value()
  {
    if x.Small? && y.Small? then
      SetSi(SmallSum(x.v, y.v))
    else
      FromInt(x.Value() + y.Value())
  }

  /** fmpz_add_si_inline: the fast path needs x inline and y in the inline range. */
  function AddSiInline(x: Fmpz, y: int): (z: Fmpz)
    requires x.Canonical() && IsSigned(y)
    ensures z.Canonical() && z.Value() == x.Value() + y
  {
    if x.Small? && IsSmall(y) then
      SetSi(SmallSum(x.v, y))
    else
      FromInt(x.Value() + y)
  }

  /** fmpz_sub_si_inline. */
  function SubSiInline(x: Fmpz, y: int): (z: Fmpz)
    requires x.Canonical() && IsSigned(y)
    ensures z.Canonical() && z.Value() == x.Value() - y
  {
    if x.Small? && IsSmall(y) then
      SetSi(SmallSum(x.v, -y))
    else
      FromInt(x.Value() - y)
  }

  /** fmpz_add_ui_inline: f + y is formed in unsigned arithmetic and read back
      as a signed word by fmpz_set_si. */
  function AddUiInline(x: Fmpz, y: Word): (z: Fmpz)
    requires x.Canonical()
    ensures z.Canonical() && z.Value() == x.Value() + y
  {
    if x.Small? && y <= CoeffMax then
      SmallSumSigned(x.v, y);
      UnsignedSumWraps(x.v, y);
      SetSi(ToSigned(ToWord(ToWord(x.v) + y)))
    else
      FromInt(x.Value() + y)
  }

  /** The unsigned sum of the bits of a signed f and an unsigned y, read back as
      a signed word, is the wrapped signed sum. */
  lemma UnsignedSumWraps(f: int, y: Word)
    ensures ToSigned(ToWord(ToWord(f) + y)) == WrapSigned(f + y)
  {
    ModAdd(f, y, WordBase);
    ModAdd(ToWord(f), y, WordBase);
    DivModSmall(y, WordBase);
    ModMod(f, WordBase, 1);
  }

  /** fmpz_add2_fmpz_si_inline: h = f + g when both are inline, then h + c on the
      fast path when h and c are both in the inline range; otherwise x + y then
      + c through the general routines. */
  function Add2FmpzSiInline(x: Fmpz, y: Fmpz, c: int): (z: Fmpz)
    requires x.Canonical() && y.Canonical() && IsSigned(c)
    ensures z.Canonical() && z.Value() == x.Value() + y.Value() + c
  {
    if x.Small? && y.Small? && IsSmall(WrapSigned(x.v + y.v)) && IsSmall(c) then
      SmallSumSigned(x.v, y.v);
      var h := WrapSigned(x.v + y.v);
      SmallSumSigned(h, c);
      SetSi(WrapSigned(h + c))
    else
      var t := FromInt(x.Value() + y.Value());
      FromInt(t.Value() + c)
  }

  /** Division of x by 2^e rounding towards minus infinity (fmpz_fdiv_q_2exp). */
  function FloorDiv2Exp(x: int, e: nat): (q: int)
    ensures q * Pow2(e) <= x < q * Pow2(e) + Pow2(e)
  {
    DivModUnique(x, Pow2(e), x / Pow2(e), x % Pow2(e));
    x / Pow2(e)
  }

  /** Division of x by 2^e rounding towards plus infinity (fmpz_cdiv_q_2exp). */
  function CeilDiv2Exp(x: int, e: nat): (q: int)
    ensures q * Pow2(e) - Pow2(e) < x <= q * Pow2(e)
  {
    -FloorDiv2Exp(-x, e)
  }

  /** fmpz_adiv_q_2exp: the ceiling for x > 0 and the floor otherwise. */
  function AdivQ2Exp(x: Fmpz, e: nat): (z: Fmpz)
    requires x.Canonical()
    ensures z.Canonical()
    ensures x.Value() > 0 ==> z.Value() == CeilDiv2Exp(x.Value(), e)
    ensures x.Value() <= 0 ==> z.Value() == FloorDiv2Exp(x.Value(), e)
  {
    if x.Value() > 0 then FromInt(CeilDiv2Exp(x.Value(), e))
    else FromInt(FloorDiv2Exp(x.Value(), e))
  }

  /** fmpz_adiv_q_2exp rounds away from zero: the quotient has the sign of x
      and its magnitude times 2^e lies in [|x|, |x| + 2^e). */
  lemma AdivRoundsAway(x: Fmpz, e: nat)
    requires x.Canonical()
    ensures var q := AdivQ2Exp(x, e).Value();
      Abs(x.Value()) <= Abs(q) * Pow2(e) < Abs(x.Value()) + Pow2(e)
      && (x.Value() > 0 ==> q > 0) && (x.Value() < 0 ==> q < 0) && (x.Value() == 0 ==> q == 0)
  {
    var v, q, p := x.Value(), AdivQ2Exp(x, e).Value(), Pow2(e);
    if v > 0 {
      AwayPositive(v, q, p);
    } else if v < 0 {
      AwayNegative(v, q, p);
    } else {
      AwayZero(q, p);
    }
  }

  lemma AwayPositive(v: int, q: int, p: int)
    requires v > 0 && p > 0 && q * p - p < v <= q * p
    ensures Abs(v) <= Abs(q) * p < Abs(v) + p && q > 0
  {
    if q <= 0 { MulMonotone(q, 0, p); }
  }

  lemma AwayNegative(v: int, q: int, p: int)
    requires v < 0 && p > 0 && q * p <= v < q * p + p
    ensures Abs(v) <= Abs(q) * p < Abs(v) + p && q < 0
  {
    if q >= 0 { MulMonotone(0, q, p); }
    assert Abs(q) * p == -(q * p);
  }

  lemma AwayZero(q: int, p: int)
    requires p > 0 && q * p <= 0 < q * p + p
    ensures Abs(q) * p < p && q == 0
  {
    if q > 0 { MulMonotone(1, q, p); }
    if q < 0 { MulMonotone(q, -1, p); }
  }

  /** fmpz_set_ui: the canonical fmpz of an unsigned word. */
  function SetUi(w: Word): (z: Fmpz)
    ensures z.Canonical() && z.Value() == w
  {
    FromInt(w)
  }

  /** fmpz_ui_mul_ui: a single-word product when both factors have at most
      FLINT_BITS / 2 bits, otherwise fmpz_mul_ui. */
  function UiMulUi(a: Word, b: Word): (r: Fmpz)
    ensures r.Canonical() && r.Value() == a * b
  {
    if a < Pow2(FlintBits / 2) && b < Pow2(FlintBits / 2) then
      HalfWordProduct(a, b, Pow2(FlintBits / 2));
      SetUi(ToWord(a * b))
    else
      FromInt(a * b)
  }

  /** Two factors below 2^32 multiply without leaving a word. */
  lemma HalfWordProduct(a: nat, b: nat, h: nat)
    requires h == Pow2(FlintBits / 2) && a < h && b < h
    ensures a * b < WordBase && ToWord(a * b) == a * b
  {
    MulMonotone(a, h, b);
    MulStrictMonotone(b, h, h);
    Pow2Add(FlintBits / 2, FlintBits / 2);
    Pow2Of64();
    DivModSmall(a * b, WordBase);
  }

  /** fmpz_max: x when fmpz_cmp(x, y) >= 0, else y. */
  function Max(x: Fmpz, y: Fmpz): (z: Fmpz)
    ensures z.Value() >= x.Value() && z.Value() >= y.Value()
    ensures z == x || z == y
  {
    if x.Value() >= y.Value() then x else y
  }

  /** fmpz_min: x when fmpz_cmp(x, y) < 0, else y. */
  function Min(x: Fmpz, y: Fmpz): (z: Fmpz)
    ensures z.Value() <= x.Value() && z.Value() <= y.Value()
    ensures z == x || z == y
  {
    if x.Value() < y.Value() then x else y
  }

  /** fmpz_max and fmpz_min pick opposite arguments: together they return both
      values, and on a tie max keeps x while min keeps y. */
  lemma MaxMinComplement(x: Fmpz, y: Fmpz)
    ensures Max(x, y).Value() + Min(x, y).Value() == x.Value() + y.Value()
    ensures x.Value() == y.Value() ==> Max(x, y) == x && Min(x, y) == y
  {
  }

  /** _fmpz_size: 1 for an inline value (zero included), the limb count of the
      mpz otherwise. */
  function Size(f: Fmpz): (n: nat)
    requires f.Canonical()
    ensures n >= 1 && Abs(f.Value()) < Limbs.LimbPow(n)
    ensures f.Small? ==> n == 1
    ensures f.Large? ==> Limbs.LimbPow(n - 1) <= Abs(f.Value())
  {
    match f
    case Small(v) =>
      SmallBounds();
      Pow2Monotone(SmallBitsMax, FlintBits);
      Limbs.LimbPowStep(0);
      1
    case Large(negative, limbs) =>
      Limbs.ValueBound(limbs);
      Limbs.ValueLowerBound(limbs);
      assert |limbs| >= 1;
      |limbs|
  }

  /** The size is the least limb count that holds |f|: any m >= 1 with
      |f| < B^m is at least Size(f). */
  lemma SizeMinimal(f: Fmpz, m: nat)
    requires f.Canonical() && 1 <= m && Abs(f.Value()) < Limbs.LimbPow(m)
    ensures Size(f) <= m
  {
    var n := Size(f);
    if m < n {
      Limbs.LimbPowMonotone(m, n - 1);
      assert false;
    }
  }

  /** FMPZ_GET_MPN_READONLY: a sign and a magnitude limb vector; an inline value
      yields its absolute value as one limb. */
  function GetMpnReadonly(f: Fmpz): (r: (bool, seq<Word>))
    requires f.Canonical()
    ensures |r.1| == Size(f)
    ensures f.Value() == SignedValue(r.0, r.1)
    ensures r.0 <==> f.Value() < 0
  {
    match f
    case Small(v) =>
      SmallBounds();
      Pow2Monotone(SmallBitsMax, FlintBits);
      Pow2Of64();
      Limbs.ValueSingle(Abs(v));
      (v < 0, [Abs(v)])
    case Large(negative, limbs) =>
      Limbs.ValueLowerBound(limbs);
      Limbs.LimbPowStep(0);
      (negative, limbs)
  }

  /** fmpz_set_mpn_large: the mpz of z is grown to n limbs when its allocation
      is short, src[0..n) is copied into it and the size gets the sign. */
  method SetMpnLarge(z: Mpz, src: array<Word>, n: nat, negative: bool)
    requires z.Valid() && n <= src.Length
    modifies z, z.d
    ensures z.Valid() && z.Used() == old(src[..n])
    ensures z.size == (if negative then -(n as int) else n)
    ensures z.Value() == SignedValue(negative, old(src[..n]))
    ensures old(z.d.Length) >= n ==> z.d == old(z.d)
    ensures old(z.d.Length) < n ==> fresh(z.d) && z.d.Length == n
  {
    ghost var s := src[..n];
    if z.d.Length < n {
      z.d := new Word[n];
    }
    var p, i := z.d, 0;
    while i < n
      invariant 0 <= i <= n <= p.Length && z.d == p
      invariant p[..i] == s[..i]
      invariant forall j :: i <= j < n ==> src[j] == s[j]
    {
      p[i] := src[i];
      i := i + 1;
    }
    z.size := if negative then -(n as int) else n;
    assert z.Used() == z.d[..n];
  }
}
