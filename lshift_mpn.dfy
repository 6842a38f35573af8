/** fmpz_lshift_mpn: z = (-1)^sgnbit * d * 2^shift for a limb vector d. */
module LshiftMpn {
  import opened Arith
  import opened Words
  import Limbs
  import opened Fmpz
  import opened Mpn

  /** The limb count before normalisation: dn + shift / FLINT_BITS, plus one
      limb for the bits shifted out when shift is not a multiple of FLINT_BITS. */
  function ResultLimbs(dn: nat, shift: nat): nat
  {
    dn + shift / FlintBits + (if shift % FlintBits != 0 then 1 else 0)
  }

  /** Zero limbs below a vector multiply its value by B^k. */
  lemma ValueAfterZeros(k: nat, s: seq<Word>)
    ensures Limbs.Value(Limbs.Zeros(k) + s) == Limbs.LimbPow(k) * Limbs.Value(s)
  {
    Limbs.ValueAppend(Limbs.Zeros(k), s);
    Limbs.ValueZeros(k);
  }

  /** 2^shift = B^(shift / FLINT_BITS) * 2^(shift % FLINT_BITS). */
  lemma ShiftSplit(v: nat, shift: nat)
    ensures v * Pow2(shift) == Limbs.LimbPow(shift / FlintBits) * (v * Pow2(shift % FlintBits))
  {
    var q, r := shift / FlintBits, shift % FlintBits;
    Pow2Sum(FlintBits * q, r, shift);
    ScaleSplit(v, Pow2(shift), Limbs.LimbPow(q), Pow2(r));
  }

  lemma ScaleSplit(v: int, p: int, a: int, b: int)
    requires p == a * b
    ensures v * p == a * (v * b)
  {
    MulAssoc(v, a, b);
    MulAssoc(a, v, b);
  }

  /** Limbs that are zero below shift / FLINT_BITS and hold v * 2^(shift mod
      FLINT_BITS) from there on hold v * 2^shift. */
  lemma ShiftedValue(t: seq<Word>, v: nat, shift: nat)
    requires shift / FlintBits <= |t| && t[..shift / FlintBits] == Limbs.Zeros(shift / FlintBits)
    requires Limbs.Value(t[shift / FlintBits..]) == v * Pow2(shift % FlintBits)
    ensures Limbs.Value(t) == v * Pow2(shift)
  {
    var k := shift / FlintBits;
    assert t == Limbs.Zeros(k) + t[k..];
    ValueAfterZeros(k, t[k..]);
    ShiftSplit(v, shift);
  }

  lemma SignedScale(negative: bool, s: seq<Word>, t: seq<Word>, p: nat)
    requires Limbs.Value(t) == Limbs.Value(s) * p
    ensures SignedValue(negative, t) == SignedValue(negative, s) * p
  {
    var a := Limbs.Value(s);
    NegMul(a, p);
  }

  lemma NegMul(a: int, p: int)
    ensures (-a) * p == -(a * p)
  {
  }

  /** The limb-writing part of fmpz_lshift_mpn: copy s to zp[off..] when bits
      is 0; otherwise mpn_lshift it there, store the carried-out limb on top and
      strip zero top limbs. Returns the final limb count zn. */
  method WriteShifted(zp: array<Word>, off: nat, s: seq<Word>, bits: nat) returns (zn: nat)
    requires |s| >= 1 && s[|s| - 1] != 0 && bits < FlintBits
    requires off + |s| + (if bits != 0 then 1 else 0) <= zp.Length
    modifies zp
    ensures off < zn <= off + |s| + (if bits != 0 then 1 else 0)
    ensures zp[..off] == old(zp[..off]) && zp[zn - 1] != 0
    ensures Limbs.Value(zp[off..zn]) == Limbs.Value(s) * Pow2(bits)
  {
    if bits == 0 {
      CopyLimbs(zp, off, s);
      zn := off + |s|;
      assert zp[zn - 1] == zp[off..zn][|s| - 1] == s[|s| - 1];
    } else {
      var shifted := Limbs.LShift(s, bits);
      CopyLimbs(zp, off, shifted);
      Limbs.ValueLowerBound(s);
      MulAtLeast(Limbs.Value(s), Pow2(bits));
      zn := StripTop(zp, off, off + |s| + 1);
    }
  }

  /** The loop `while (zp[zn - 1] == 0) zn--;` on limbs zp[off..zn) of nonzero
      value: the value is kept and the new top limb is nonzero. */
  method StripTop(zp: array<Word>, off: nat, n: nat) returns (zn: nat)
    requires off < n <= zp.Length && Limbs.Value(zp[off..n]) >= 1
    ensures off < zn <= n && zp[zn - 1] != 0
    ensures Limbs.Value(zp[off..zn]) == Limbs.Value(zp[off..n])
  {
    zn := n;
    while zp[zn - 1] == 0
      invariant off < zn <= n
      invariant Limbs.Value(zp[off..zn]) == Limbs.Value(zp[off..n])
      decreases zn
    {
      Limbs.ValueDropZero(zp[off..zn]);
      assert zp[off..zn][..zn - 1 - off] == zp[off..zn - 1];
      zn := zn - 1;
    }
  }

  /** fmpz_lshift_mpn. z's mpz (made by _fmpz_promote) is grown to zn limbs when
      short and its low shift / FLINT_BITS limbs are cleared; d is written above
      them by WriteShifted; the size gets the sign and _fmpz_demote_val gives the
      resulting fmpz. */
  method LshiftMpn(z: Mpz, d: array<Word>, dn: nat, sgnbit: bool, shift: nat) returns (r: Fmpz)
    requires z.Valid() && z.d != d
    requires 1 <= dn <= d.Length && d[dn - 1] != 0
    modifies z, z.d
    ensures z.Valid() && Limbs.Normalized(z.Used())
    ensures z.Value() == SignedValue(sgnbit, d[..dn]) * Pow2(shift)
    ensures |z.Used()| > shift / FlintBits
    ensures z.Used()[..shift / FlintBits] == Limbs.Zeros(shift / FlintBits)
    ensures z.d.Length >= ResultLimbs(dn, shift)
    ensures old(z.d.Length) >= ResultLimbs(dn, shift) ==> z.d == old(z.d)
    ensures r.Canonical() && r.Value() == SignedValue(sgnbit, d[..dn]) * Pow2(shift)
  {
    var zn: int := ResultLimbs(dn, shift);
    if z.d.Length < zn {
      z.d := new Word[zn];
    }
    var zp := z.d;
    zn := FillShifted(zp, d[..dn], shift);
    SignedScale(sgnbit, d[..dn], zp[..zn], Pow2(shift));
    z.size := if sgnbit then -zn else zn;
    assert z.Used() == zp[..zn];
    r := DemoteVal(sgnbit, zp[..zn]);
  }

  /** Lines 32-44 on the limbs: the low shift / FLINT_BITS limbs cleared, s
      written above them shifted by shift mod FLINT_BITS, and the length of
      the normalised result. */
  method FillShifted(zp: array<Word>, s: seq<Word>, shift: nat) returns (zn: nat)
    requires |s| >= 1 && s[|s| - 1] != 0 && ResultLimbs(|s|, shift) <= zp.Length
    modifies zp
    ensures shift / FlintBits < zn <= zp.Length
    ensures Limbs.Normalized(zp[..zn])
    ensures zp[..zn][..shift / FlintBits] == Limbs.Zeros(shift / FlintBits)
    ensures Limbs.Value(zp[..zn]) == Limbs.Value(s) * Pow2(shift)
  {
    var shiftLimbs := shift / FlintBits;
    ZeroLimbs(zp, shiftLimbs);
    zn := WriteShifted(zp, shiftLimbs, s, shift % FlintBits);
    ghost var t := zp[..zn];
    assert t[shiftLimbs..] == zp[shiftLimbs..zn];
    assert t[..shiftLimbs] == zp[..shiftLimbs];
    assert Limbs.Normalized(t) by {
      assert t[zn - 1] == zp[zn - 1];
    }
    ShiftedValue(t, Limbs.Value(s), shift);
  }
}
