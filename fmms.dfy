/** fmpz_fmms (src/fmpz/fmms.c): f = a*b - c*d for fmpz variables that may
    be the same variable, with an inline fast path in two-word arithmetic. */
module Fmms {
  import opened Arith
  import opened Words
  import opened Fmpz

  /** An fmpz_t: one fmpz that the routines read and overwrite in place. Two
      arguments that are the same Cell are aliased. */
  class Cell {
    var val: Fmpz

    constructor (v: Fmpz)
      ensures val == v
    {
      val := v;
    }
  }

  /** fmpz_set_signed_uiui: the canonical fmpz of a signed 128-bit value hi:lo. */
  function SetSignedUiui(hi: Word, lo: Word): (z: Fmpz)
    ensures z.Canonical() && z.Value() == DWord(hi, lo).Signed()
  {
    FromInt(DWord(hi, lo).Signed())
  }

  /** Lines 24-35: the two signed double-word products and their double-word
      difference, read back as a signed 128-bit value. */
  function SmallFmms(s: int, t: int, u: int, v: int): (r: Fmpz)
    requires IsSmall(s) && IsSmall(t) && IsSmall(u) && IsSmall(v)
    ensures r.Canonical() && r.Value() == s * t - u * v
  {
    var p := SMulPPMM(s, t);
    var q := SMulPPMM(u, v);
    var diff := SubDDMMSS(p, q);
    SmallFmmsExact(s, t, u, v);
    SetSignedUiui(diff.hi, diff.lo)
  }

  /** The double-word difference of the two double-word products is exact:
      each product of inline values is below 2^124 in magnitude, so the
      difference stays inside the signed 128-bit range. */
  lemma SmallFmmsExact(s: int, t: int, u: int, v: int)
    requires IsSmall(s) && IsSmall(t) && IsSmall(u) && IsSmall(v)
    ensures SubDDMMSS(SMulPPMM(s, t), SMulPPMM(u, v)).Signed() == s * t - u * v
  {
    var m := WordBase * WordBase;
    ProductBelow(s, t);
    ProductBelow(u, v);
    ModSub(s * t, u * v, m);
    DWordSignedExact(s * t - u * v);
  }

  /** The product of two inline values is at most COEFF_MAX^2 in magnitude. */
  lemma ProductBelow(x: int, y: int)
    requires IsSmall(x) && IsSmall(y)
    ensures -CoeffMax * CoeffMax <= x * y <= CoeffMax * CoeffMax
  {
    var ax, ay := Abs(x), Abs(y);
    MulMonotone(ax, CoeffMax, ay);
    MulMonotone(ay, CoeffMax, CoeffMax);
    assert Abs(x * y) == ax * ay;
  }

  /** fmpz_fmms on values: the branch structure of lines 19-73 with the general
      routines (fmpz_mul, fmpz_submul, fmpz_neg) taken as exact. */
  function FmmsValue(a: Fmpz, b: Fmpz, c: Fmpz, d: Fmpz): (f: Fmpz)
    requires a.Canonical() && b.Canonical() && c.Canonical() && d.Canonical()
    ensures f.Canonical() && f.Value() == a.Value() * b.Value() - c.Value() * d.Value()
  {
    if a.Small? && b.Small? && c.Small? && d.Small? then
      SmallFmms(a.v, b.v, c.v, d.v)
    else if a == Small(0) || b == Small(0) then
      ZeroFactor(a.Value(), b.Value());
      Neg(FromInt(c.Value() * d.Value()))
    else if c == Small(0) || d == Small(0) then
      ZeroFactor(c.Value(), d.Value());
      FromInt(a.Value() * b.Value())
    else
      FromInt(a.Value() * b.Value() - c.Value() * d.Value())
  }

  lemma ZeroFactor(x: int, y: int)
    requires x == 0 || y == 0
    ensures x * y == 0
  {
  }

  /** fmpz_mul(f, x, y). */
  method MulInto(f: Cell, x: Cell, y: Cell)
    modifies f
    ensures f.val == FromInt(old(x.val.Value()) * old(y.val.Value()))
  {
    f.val := FromInt(x.val.Value() * y.val.Value());
  }

  /** fmpz_submul(f, x, y): f = f - x*y. */
  method SubmulInto(f: Cell, x: Cell, y: Cell)
    modifies f
    ensures f.val == FromInt(old(f.val.Value()) - old(x.val.Value()) * old(y.val.Value()))
  {
    f.val := FromInt(f.val.Value() - x.val.Value() * y.val.Value());
  }

  /** fmpz_neg(f, f). */
  method NegInPlace(f: Cell)
    requires f.val.Canonical()
    modifies f
    ensures f.val == Neg(old(f.val))
  {
    f.val := Neg(f.val);
  }

  /** fmpz_swap(f, g). */
  method Swap(f: Cell, g: Cell)
    modifies f, g
    ensures f.val == old(g.val) && g.val == old(f.val)
  {
    f.val, g.val := g.val, f.val;
  }

  /** fmpz_fmms (lines 14-73): whichever of a, b, c, d are the variable f, f
      ends as the canonical a*b - c*d of the values on entry. When f is one of
      c, d it computes -(c*d - a*b), so that c and d are read before f is
      written, and when it is also one of a, b it goes through a temporary. */
  method FmmsCells(f: Cell, a: Cell, b: Cell, c: Cell, d: Cell)
    requires a.val.Canonical() && b.val.Canonical() && c.val.Canonical() && d.val.Canonical()
    modifies f
    ensures f.val.Canonical()
    ensures f.val.Value() == old(a.val.Value() * b.val.Value() - c.val.Value() * d.val.Value())
    ensures f.val == FmmsValue(old(a.val), old(b.val), old(c.val), old(d.val))
  {
    var s, t, u, v := a.val, b.val, c.val, d.val;
    ghost var r := FmmsValue(s, t, u, v);
    if s.Small? && t.Small? && u.Small? && v.Small? {
      f.val := SmallFmms(s.v, t.v, u.v, v.v);
      return;
    }
    if s == Small(0) || t == Small(0) {
      MulInto(f, c, d);
      NegInPlace(f);
      return;
    }
    if u == Small(0) || v == Small(0) {
      MulInto(f, a, b);
      return;
    }
    if f == c || f == d {
      if f == a || f == b {
        var tmp := new Cell(Small(0));
        MulInto(tmp, a, b);
        SubmulInto(tmp, c, d);
        Swap(tmp, f);
      } else {
        MulInto(f, c, d);
        SubmulInto(f, a, b);
        NegInPlace(f);
        CanonicalUnique(f.val, r);
      }
    } else {
      MulInto(f, a, b);
      SubmulInto(f, c, d);
    }
  }
}
