/** Limb sequences in the mpn convention: a natural number stored as 64-bit
    limbs, least significant first. The mpn primitives that the core calls
    (mpn_rshift, mpn_lshift, mpn_com, mpn_add_1, mpn_sub_n, mpn_cmp, copies)
    are given here as value-level functions on such sequences. */
module Limbs {
  import opened Arith
  import opened Words

  /** Value of a limb sequence, least significant limb first. */
  function Value(s: seq<Word>): nat
  {
    if |s| == 0 then 0 else s[0] + WordBase * Value(s[1..])
  }

  /** B^n for the limb base B = 2^FLINT_BITS. */
  function LimbPow(n: nat): (r: nat)
    ensures r >= 1
  {
    Pow2(FlintBits * n)
  }

  lemma LimbPowStep(n: nat)
    ensures LimbPow(n + 1) == WordBase * LimbPow(n)
    ensures LimbPow(1) == WordBase && LimbPow(0) == 1
  {
    Pow2Of64();
    Pow2Add(FlintBits * n, FlintBits);
  }

  lemma LimbPowAdd(a: nat, b: nat)
    ensures LimbPow(a + b) == LimbPow(a) * LimbPow(b)
  {
    Pow2Add(FlintBits * a, FlintBits * b);
  }

  lemma LimbPowMonotone(a: nat, b: nat)
    requires a <= b
    ensures LimbPow(a) <= LimbPow(b)
  {
    Pow2Monotone(FlintBits * a, FlintBits * b);
  }

  /** mpn normal form: no zero most significant limb. */
  predicate Normalized(s: seq<Word>)
  {
    |s| == 0 || s[|s| - 1] != 0
  }

  function Zeros(n: nat): (s: seq<Word>)
    ensures |s| == n && forall i :: 0 <= i < n ==> s[i] == 0
  {
    seq(n, i => 0)
  }

  lemma {:induction false} ValueZeros(n: nat)
    ensures Value(Zeros(n)) == 0
  {
    if n > 0 {
      assert Zeros(n)[1..] == Zeros(n - 1);
      ValueZeros(n - 1);
    }
  }

  lemma {:induction false} ValueBound(s: seq<Word>)
    ensures Value(s) < LimbPow(|s|)
  {
    LimbPowStep(|s|);
    if |s| > 0 {
      ValueBound(s[1..]);
      LimbPowStep(|s| - 1);
      MulMonotone(Value(s[1..]), LimbPow(|s| - 1) - 1, WordBase);
    }
  }

  /** Concatenation is addition at the right place value. */
  lemma {:induction false} ValueAppend(s: seq<Word>, t: seq<Word>)
    ensures Value(s + t) == Value(s) + LimbPow(|s|) * Value(t)
  {
    LimbPowStep(0);
    if |s| > 0 {
      assert (s + t)[1..] == s[1..] + t;
      ValueAppend(s[1..], t);
      LimbPowStep(|s| - 1);
      Distrib(s[0], WordBase, Value(s[1..]), LimbPow(|s| - 1), Value(t));
      assert (s + t)[0] == s[0];
      assert Value(s + t) == s[0] + WordBase * Value(s[1..] + t);
    } else {
      assert s + t == t;
    }
  }

  lemma ValueSplit(s: seq<Word>, k: nat)
    requires k <= |s|
    ensures Value(s) == Value(s[..k]) + LimbPow(k) * Value(s[k..])
  {
    assert s == s[..k] + s[k..];
    ValueAppend(s[..k], s[k..]);
  }

  /** Dropping the j low limbs divides the value by B^j. */
  lemma ValueHigh(arr: seq<Word>, j: nat)
    requires j <= |arr|
    ensures Value(arr) / Pow2(FlintBits * j) == Value(arr[j..])
  {
    var low: int, p: int, high: int := Value(arr[..j]), LimbPow(j), Value(arr[j..]);
    ValueSplit(arr, j);
    ValueBound(arr[..j]);
    assert Pow2(FlintBits * j) == p;
    QuotientOfSplit(Value(arr), low, Pow2(FlintBits * j), high);
  }

  /** v = low + p high with 0 <= low < p gives v / p = high. */
  lemma QuotientOfSplit(v: int, low: int, p: int, high: int)
    requires 0 <= low < p && v == low + p * high
    ensures v / p == high
  {
    HighPart(low, p, high);
  }

  lemma ValueSingle(w: Word)
    ensures Value([w]) == w
  {
    assert [w][1..] == [];
  }

  /** The most significant limb carries weight B^(n-1). */
  lemma ValueTop(s: seq<Word>)
    requires |s| >= 1
    ensures Value(s) == Value(s[..|s| - 1]) + LimbPow(|s| - 1) * s[|s| - 1]
  {
    ValueSplit(s, |s| - 1);
    ValueSingle(s[|s| - 1]);
    assert s[|s| - 1..] == [s[|s| - 1]];
  }

  /** A value below B^(n-1) * h has its top limb below h. */
  lemma ValueTopBelow(s: seq<Word>, h: nat)
    requires |s| >= 1 && Value(s) < LimbPow(|s| - 1) * h
    ensures s[|s| - 1] < h
  {
    ValueTop(s);
    TopDigitBelow(Value(s[..|s| - 1]), LimbPow(|s| - 1), s[|s| - 1], h);
  }

  /** low + p t < p h with 0 <= low and p > 0 forces t < h. */
  lemma TopDigitBelow(low: int, p: int, t: int, h: int)
    requires 0 <= low && 0 < p && low + p * t < p * h
    ensures t < h
  {
    if t >= h {
      MulMonotone(h, t, p);
    }
  }

  lemma ValueLowerBound(s: seq<Word>)
    requires |s| >= 1 && s[|s| - 1] != 0
    ensures Value(s) >= LimbPow(|s| - 1)
  {
    var top, p, low := s[|s| - 1], LimbPow(|s| - 1), Value(s[..|s| - 1]);
    ValueTop(s);
    AddMulAtLeast(low, p, top);
  }

  lemma Distrib(x: int, b: int, u: int, p: int, v: int)
    ensures x + b * (u + p * v) == x + b * u + (b * p) * v
  {
  }

  lemma AddMulAtLeast(low: nat, p: nat, top: int)
    requires top >= 1
    ensures low + p * top >= p
  {
    MulMonotone(1, top, p);
  }

  lemma ValueDropZero(s: seq<Word>)
    requires |s| >= 1 && s[|s| - 1] == 0
    ensures Value(s) == Value(s[..|s| - 1])
  {
    ValueTop(s);
  }

  /** Normalised sequences of equal value are equal. */
  lemma {:induction false} NormalizedUnique(s: seq<Word>, t: seq<Word>)
    requires Normalized(s) && Normalized(t) && Value(s) == Value(t)
    ensures s == t
  {
    if |s| == 0 || |t| == 0 {
      if |s| > 0 { ValueLowerBound(s); }
      if |t| > 0 { ValueLowerBound(t); }
    } else {
      DivAddMultiple(s[0], Value(s[1..]), WordBase);
      DivAddMultiple(t[0], Value(t[1..]), WordBase);
      DivModSmall(s[0], WordBase);
      DivModSmall(t[0], WordBase);
      if |s| == 1 || |t| == 1 {
        assert Value(s[1..]) == 0 && Value(t[1..]) == 0;
        if |s| > 1 { ValueLowerBound(s[1..]); }
        if |t| > 1 { ValueLowerBound(t[1..]); }
      } else {
        NormalizedUnique(s[1..], t[1..]);
        assert s == [s[0]] + s[1..] && t == [t[0]] + t[1..];
      }
    }
  }

  /** The n low limbs of v: the limbs an n-limb mpn buffer holds for v mod B^n. */
  function FromNat(v: nat, n: nat): (s: seq<Word>)
    ensures |s| == n
  {
    if n == 0 then [] else [v % WordBase] + FromNat(v / WordBase, n - 1)
  }

  lemma {:induction false} FromNatValue(v: nat, n: nat)
    ensures Value(FromNat(v, n)) == v % LimbPow(n)
  {
    LimbPowStep(0);
    if n > 0 {
      FromNatValue(v / WordBase, n - 1);
      var s := FromNat(v, n);
      assert s[1..] == FromNat(v / WordBase, n - 1);
      LimbPowStep(n - 1);
      DivDiv(v, WordBase, LimbPow(n - 1));
    } else {
      DivModSmall(0, 1);
      DivMulExact(v, 1);
    }
  }

  lemma FromNatExact(v: nat, n: nat)
    requires v < LimbPow(n)
    ensures Value(FromNat(v, n)) == v
  {
    FromNatValue(v, n);
    DivModSmall(v, LimbPow(n));
  }

  /** Strip zero most significant limbs. */
  function Normalize(s: seq<Word>): (r: seq<Word>)
    ensures Normalized(r) && |r| <= |s| && r == s[..|r|]
    ensures Value(r) == Value(s)
  {
    if |s| == 0 then s
    else if s[|s| - 1] != 0 then s
    else
      ValueDropZero(s);
      Normalize(s[..|s| - 1])
  }

  /** The normalised limbs of v (the magnitude of an mpz holding v). */
  function ToLimbs(v: nat): (s: seq<Word>)
    ensures Normalized(s) && Value(s) == v
  {
    if v == 0 then []
    else
      var rest := ToLimbs(v / WordBase);
      assert Value([v % WordBase] + rest) == v by {
        ValueAppend([v % WordBase], rest);
        ValueSingle(v % WordBase);
        LimbPowStep(0);
      }
      [v % WordBase] + rest
  }

  /** The limb count of a positive value v is pinned by B^(n-1) <= v < B^n. */
  lemma ToLimbsLength(v: nat, n: nat)
    requires n >= 1 && LimbPow(n - 1) <= v < LimbPow(n)
    ensures |ToLimbs(v)| == n
  {
    var s := ToLimbs(v);
    ValueBound(s);
    if |s| < n {
      LimbPowMonotone(|s|, n - 1);
      assert false;
    }
    if |s| > n {
      ValueLowerBound(s);
      LimbPowMonotone(n, |s| - 1);
      assert false;
    }
  }

  /** mpn_lshift of n limbs by 0 < c < FLINT_BITS places, with the limb shifted
      out at the top appended: n + 1 limbs holding value * 2^c. */
  function LShift(s: seq<Word>, c: nat): (r: seq<Word>)
    requires c < FlintBits
    ensures |r| == |s| + 1 && Value(r) == Value(s) * Pow2(c)
  {
    ValueBound(s);
    LShiftFits(Value(s), |s|, c);
    FromNatExact(Value(s) * Pow2(c), |s| + 1);
    FromNat(Value(s) * Pow2(c), |s| + 1)
  }

  lemma LShiftFits(v: nat, n: nat, c: nat)
    requires v < LimbPow(n) && c < FlintBits
    ensures v * Pow2(c) < LimbPow(n + 1)
  {
    Pow2Monotone(c, FlintBits);
    LimbPowStep(n);
    Pow2Of64();
    MulStrictMonotone(v, LimbPow(n), Pow2(c));
    MulMonotone(Pow2(c), WordBase, LimbPow(n));
  }

  /** mpn_rshift of n limbs by c places: the n limbs of value / 2^c. */
  function RShift(s: seq<Word>, c: nat): (r: seq<Word>)
    ensures |r| == |s| && Value(r) == Value(s) / Pow2(c)
  {
    ValueBound(s);
    DivAtMost(Value(s), Pow2(c));
    FromNatExact(Value(s) / Pow2(c), |s|);
    FromNat(Value(s) / Pow2(c), |s|)
  }
}
