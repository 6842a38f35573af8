/** n_mod2_preinv (src/ulong_extras/mod2_preinv.c): a mod n for a word a and a
    nonzero word n, given the precomputed inverse of the normalised n, by
    Algorithm 4 of Moller and Granlund, "Improved Division by Invariant
    Integers": one two-word product, a candidate remainder and two corrections. */
module Mod2Preinv {
  import opened Arith
  import opened Words

  /** r_shift (line 21): x >> c, where a shift by the whole word gives 0. */
  function RShift(x: Word, c: nat): (r: Word)
    requires c <= FlintBits
    ensures r == x / Pow2(c)
  {
    if c == FlintBits then
      Pow2Of64();
      DivModSmall(x, WordBase);
      0
    else
      Shr(x, c)
  }

  /** n << clz(n) (line 31): the top bit is set and nothing is shifted out. */
  function Normalize(n: Word): (d: Word)
    requires n != 0
    ensures d == n * Pow2(Clz(n)) && HalfBase <= d
  {
    NormalizeExact(n);
    Shl(n, Clz(n))
  }

  lemma NormalizeExact(n: Word)
    requires n != 0
    ensures var c := Clz(n); HalfBase <= n * Pow2(c) < WordBase && Shl(n, c) == n * Pow2(c)
  {
    var b, c := BitLength(n), Clz(n);
    BitLengthBounds(n);
    assert b + c == FlintBits;
    MulStrictMonotone(n, Pow2(b), Pow2(c));
    Pow2Add(b, c);
    Pow2Of64();
    MulMonotone(Pow2(b - 1), n, Pow2(c));
    Pow2Add(b - 1, c);
    Pow2Of63();
    DivModSmall(n * Pow2(c), WordBase);
  }

  /** The inverse n_preinvert_limb computes for n, v = floor((B^2 - 1) / d) - B
      with B = 2^FLINT_BITS and d the normalised n; it is a word. */
  function PreinvOf(n: Word): (v: int)
    requires n != 0
    ensures 0 <= v < WordBase
  {
    var d := Normalize(n);
    var x := WordBase * WordBase - 1;
    DivLowerBound(x, d, WordBase);
    DivUpperBound(x, d, 2 * WordBase);
    x / d - WordBase
  }

  /** Lines 34-35: u1:u0 = (r_shift(a, FLINT_BITS - norm), a << norm) is the
      double word of a * 2^norm, and u1 < 2^norm. */
  lemma SplitShifted(a: Word, norm: nat)
    requires norm < FlintBits
    ensures RShift(a, FlintBits - norm) * WordBase + Shl(a, norm) == a * Pow2(norm)
    ensures RShift(a, FlintBits - norm) < Pow2(norm)
  {
    var hi, lo := RShift(a, FlintBits - norm), Shl(a, norm);
    if norm == 0 {
      assert hi == 0 && Pow2(norm) == 1;
      DivModSmall(a, WordBase);
    } else {
      SplitShiftedPositive(a, norm, hi, lo);
    }
  }

  /** SplitShifted for 0 < norm < FLINT_BITS. */
  lemma SplitShiftedPositive(a: Word, norm: nat, hi: Word, lo: Word)
    requires 0 < norm < FlintBits && hi == RShift(a, FlintBits - norm) && lo == Shl(a, norm)
    ensures hi * WordBase + lo == a * Pow2(norm) && hi < Pow2(norm)
  {
    var p, q := Pow2(norm), Pow2(FlintBits - norm);
    ShlSplit(a, norm);
    assert hi == a / q;
    WordSplit(norm);
    SplitAlgebra(a, p, q, lo, hi, WordBase);
    QuotientBelow(a, q, p);
  }

  /** p a = lo + b hi with b = p q, regrouped. */
  lemma SplitAlgebra(a: int, p: int, q: int, lo: int, hi: int, b: int)
    requires p * a == lo + b * hi && p * q == b && a < b
    ensures hi * b + lo == a * p && a < q * p
  {
  }

  /** The candidate remainder rt = U - (q1 + 1) d of Algorithm 4, scaled by B,
      in terms of the parts of the products (the proof of Theorem 2). */
  lemma CandidateIdentity(b: int, d: int, v: int, k0: int, u1: int, u0: int, q1: int, q0: int)
    requires (b + v) * d + k0 == b * b - 1
    requires q1 * b + q0 == v * u1 + u1 * b + u0
    ensures b * (u1 * b + u0 - (q1 + 1) * d) == u1 * (1 + k0) + u0 * (b - d) + d * (q0 - b)
  {
    ExpandCandidate(b, d, u1, u0, q1);
    ExpandQuotient(b, d, v, u1, u0);
    assert d * (q1 * b) == d * (v * u1 + u1 * b + u0) - d * q0 by {
      Distribute(d, q1 * b, v * u1 + u1 * b + u0 - q0);
    }
    assert u1 * ((b + v) * d) == u1 * (b * b) - u1 * (1 + k0) by {
      Distribute(u1, (b + v) * d, b * b - 1 - k0);
    }
    ExpandRemainder(b, d, k0, u1, u0, q0);
  }

  lemma ExpandRemainder(b: int, d: int, k0: int, u1: int, u0: int, q0: int)
    ensures u1 * (1 + k0) + u0 * (b - d) + d * (q0 - b) == u1 * (1 + k0) + b * u0 - d * u0 + d * q0 - b * d
  {
  }

  lemma ExpandCandidate(b: int, d: int, u1: int, u0: int, q1: int)
    ensures b * (u1 * b + u0 - (q1 + 1) * d) == u1 * (b * b) + b * u0 - d * (q1 * b) - b * d
  {
  }

  lemma ExpandQuotient(b: int, d: int, v: int, u1: int, u0: int)
    ensures d * (v * u1 + u1 * b + u0) == u1 * ((b + v) * d) + d * u0
  {
  }

  lemma Distribute(a: int, x: int, y: int)
    requires x == y
    ensures a * x == a * y
  {
  }

  /** Bounds on the three parts of B * rt in CandidateIdentity. */
  lemma CandidateTerms(b: int, d: int, k0: int, u1: int, u0: int, q0: int)
    requires 0 < d < b && 0 <= k0 < d && 0 <= u1 < d && 0 <= u0 < b && 0 <= q0 < b
    ensures 0 <= u1 * (1 + k0) + u0 * (b - d)
    ensures d * (q0 - b) >= -(d * b)
    ensures u1 * (1 + k0) + u0 * (b - d) + d * (q0 - b) <= (b - d) * (b - d) + d * q0 - b
  {
    var t1, t2 := u1 * (1 + k0), u0 * (b - d);
    MulMonotone(0, u1, 1 + k0);
    MulMonotone(u1, d - 1, 1 + k0);
    MulMonotone(1 + k0, d, d - 1);
    MulMonotone(0, u0, b - d);
    MulMonotone(u0, b - 1, b - d);
    MulMonotone(0, q0, d);
    assert t1 <= (d - 1) * d;
    assert t2 <= (b - 1) * (b - d);
    assert (d - 1) * d + (b - 1) * (b - d) + d * (q0 - b) == (b - d) * (b - d) + d * q0 - b;
  }

  /** B * rt >= -(d * B) gives rt >= -d. */
  lemma CandidateAboveMinusD(b: int, d: int, rt: int, s: int)
    requires 0 < d < b && s == b * rt && s >= -(d * b)
    ensures -d <= rt
  {
    if rt < -d {
      MulMonotone(rt, -d - 1, b);
      assert false;
    }
  }

  /** B * rt >= d (q0 - B) with q0 < B and d < B gives rt > q0 - B. */
  lemma CandidateAboveQ0(b: int, d: int, q0: int, rt: int, s: int)
    requires 0 < d < b && 0 <= q0 < b && s == b * rt && s >= d * (q0 - b)
    ensures q0 + 1 - b <= rt
  {
    MulStrictMonotone(0, b - d, b - q0);
    assert d * (q0 - b) - b * (q0 - b) == (b - d) * (b - q0);
    if rt <= q0 - b {
      MulMonotone(rt, q0 - b, b);
      assert false;
    }
  }

  /** B * rt <= (B - d)^2 + d q0 - B gives rt < max(B - d, q0). */
  lemma CandidateBelowMax(b: int, d: int, q0: int, rt: int, s: int)
    requires 0 < d < b && 0 <= q0 < b && s == b * rt && s <= (b - d) * (b - d) + d * q0 - b
    ensures rt < (if b - d > q0 then b - d else q0)
  {
    var m := if b - d > q0 then b - d else q0;
    MulMonotone(b - d, m, b - d);
    MulMonotone(q0, m, d);
    assert (b - d) * m + d * m == b * m;
    if rt >= m {
      MulMonotone(m, rt, b);
      assert false;
    }
  }

  /** Theorem 2 of Moller and Granlund: for B/2 <= d < B, u1 < d and v the
      inverse of d, the candidate remainder rt = U - (q1 + 1) d lies in
      [max(-d, q0 + 1 - B), max(B - d, q0)). */
  lemma CandidateBounds(b: int, d: int, v: int, k0: int, u1: int, u0: int, q1: int, q0: int)
    requires 2 <= b <= 2 * d && d < b
    requires (b + v) * d + k0 == b * b - 1 && 0 <= k0 < d
    requires 0 <= u1 < d && 0 <= u0 < b && 0 <= q0 < b
    requires q1 * b + q0 == v * u1 + u1 * b + u0
    ensures var rt := u1 * b + u0 - (q1 + 1) * d;
      -d <= rt && q0 + 1 - b <= rt && rt < (if b - d > q0 then b - d else q0)
  {
    var rt := u1 * b + u0 - (q1 + 1) * d;
    CandidateIdentity(b, d, v, k0, u1, u0, q1, q0);
    CandidateTerms(b, d, k0, u1, u0, q0);
    var s := b * rt;
    CandidateAboveMinusD(b, d, rt, s);
    CandidateAboveQ0(b, d, q0, rt, s);
    CandidateBelowMax(b, d, q0, rt, s);
  }

  /** Lines 42-44 in word arithmetic: d is added back when r > q0, then
      subtracted once when the result is at least d. */
  function Adjust(r: Word, q0: Word, d: Word): Word
  {
    var r2 := if r > q0 then ToWord(r + d) else r;
    if r2 < d then r2 else ToWord(r2 - d)
  }

  /** Lines 42-45: with r = rt mod B, adding d back when r > q0 and then
      subtracting d once when r >= d gives U mod d. */
  lemma Corrections(d: Word, u: int, q1: int, q0: Word, r: Word, rt: int)
    requires HalfBase <= d && rt == u - (q1 + 1) * d
    requires r == ToWord(rt) && 0 <= rt + d && q0 + 1 - WordBase <= rt
    requires rt < (if WordBase - d > q0 then WordBase - d else q0)
    ensures Adjust(r, q0, d) == u % d
  {
    var r2 := if r > q0 then ToWord(r + d) else r;
    if rt < 0 {
      DivAddMultiple(rt + WordBase, -1, WordBase);
      DivModSmall(rt + WordBase, WordBase);
      assert r == rt + WordBase;
      DivAddMultiple(rt + d, 1, WordBase);
      DivModSmall(rt + d, WordBase);
      assert r2 == rt + d;
      DivModUnique(u, d, q1, rt + d);
    } else {
      DivModSmall(rt, WordBase);
      assert r == rt;
      if r > q0 {
        DivModSmall(rt + d, WordBase);
        DivModSmall(rt, WordBase);
        DivModUnique(u, d, q1 + 1, rt);
      } else if rt < d {
        DivModUnique(u, d, q1 + 1, rt);
      } else {
        DivModSmall(rt - d, WordBase);
        DivModUnique(u, d, q1 + 2, rt - d);
      }
    }
  }

  /** Reducing modulo m on the way, as word arithmetic does, keeps
      (u1 m + u0 - c d) mod m. */
  lemma WrappedCandidate(u1: int, u0: int, c: int, d: int, m: int)
    requires m > 0
    ensures (u0 - ((c % m) * d) % m) % m == (u1 * m + u0 - c * d) % m
  {
    var x := (c % m) * d;
    assert c * d == x + ((c / m) * d) * m;
    DivAddMultiple(x, (c / m) * d, m);
    ModMod(x, m, 1);
    ModSub(u0, x % m, m);
    ModSub(u0, c * d, m);
    DivAddMultiple(u0 - c * d, u1, m);
  }

  /** Line 40: r = u0 - (q1 + 1) n in word arithmetic is U - (q1 + 1) d mod B. */
  lemma CandidateInWords(u1: Word, u0: Word, q1: Word, d: Word, rt: int)
    requires rt == u1 * WordBase + u0 - (q1 + 1) * d
    ensures ToWord(u0 - ToWord(ToWord(q1 + 1) * d)) == ToWord(rt)
  {
    WrappedCandidate(u1, u0, q1 + 1, d, WordBase);
  }

  /** n_mod2_preinv: a mod n. */
  function Mod2Preinv(a: Word, n: Word, ninv: Word): (r: Word)
    requires n != 0 && ninv == PreinvOf(n)
    ensures r == a % n
  {
    var norm := Clz(n);
    var d := Normalize(n);
    var u1 := RShift(a, FlintBits - norm);
    var u0 := Shl(a, norm);
    var q := AddSSAAAA(UMulPPMM(ninv, u1), DWord(u1, u0));
    var r := ToWord(u0 - ToWord(ToWord(q.hi + 1) * d));
    var res := Adjust(r, q.lo, d);
    Mod2PreinvSteps(a, n, ninv, norm, d, u1, u0, q, r);
    Shr(res, norm)
  }

  /** The proof of Mod2Preinv, step by step along lines 30-45. */
  lemma Mod2PreinvSteps(a: Word, n: Word, ninv: Word, norm: nat, d: Word, u1: Word, u0: Word,
                        q: DWord, r: Word)
    requires n != 0 && ninv == PreinvOf(n)
    requires norm == Clz(n) && d == Normalize(n)
    requires u1 == RShift(a, FlintBits - norm) && u0 == Shl(a, norm)
    requires q == AddSSAAAA(UMulPPMM(ninv, u1), DWord(u1, u0))
    requires r == ToWord(u0 - ToWord(ToWord(q.hi + 1) * d))
    ensures var res := Adjust(r, q.lo, d);
      res == (a % n) * Pow2(norm) && Shr(res, norm) == a % n
  {
    var u := u1 * WordBase + u0;
    ShiftedParts(a, n, norm, d, u1, u0);
    CorrectedRemainder(n, ninv, d, u1, u0, q, r);
    ScaledRemainder(a, n, norm, u, d);
  }

  /** Lines 37-44: the candidate remainder, corrected as the source does,
      is U mod d for U = u1 B + u0. */
  lemma CorrectedRemainder(n: Word, ninv: Word, d: Word, u1: Word, u0: Word, q: DWord, r: Word)
    requires n != 0 && ninv == PreinvOf(n) && d == Normalize(n) && u1 < d
    requires q == AddSSAAAA(UMulPPMM(ninv, u1), DWord(u1, u0))
    requires r == ToWord(u0 - ToWord(ToWord(q.hi + 1) * d))
    ensures Adjust(r, q.lo, d) == (u1 * WordBase + u0) % d
  {
    var u := u1 * WordBase + u0;
    var rt := u - (q.hi + 1) * d;
    QuotientCandidate(n, ninv, d, u1, u0, q, rt);
    CandidateInWords(u1, u0, q.hi, d, rt);
    Corrections(d, u, q.hi, q.lo, r, rt);
  }

  /** Lines 30-35: u1:u0 = a 2^norm, and u1 < d since a < B and d >= B/2. */
  lemma ShiftedParts(a: Word, n: Word, norm: nat, d: Word, u1: Word, u0: Word)
    requires n != 0 && norm == Clz(n) && d == Normalize(n)
    requires u1 == RShift(a, FlintBits - norm) && u0 == Shl(a, norm)
    ensures u1 * WordBase + u0 == a * Pow2(norm) && u1 < d
  {
    SplitShifted(a, norm);
    assert u1 < d by {
      Pow2Monotone(norm, FlintBits - 1);
      Pow2Of63();
    }
  }

  /** Lines 37-40: the quotient words q1:q0 = v u1 + U leave the candidate
      remainder U - (q1 + 1) d in the range of CandidateBounds. */
  lemma QuotientCandidate(n: Word, ninv: Word, d: Word, u1: Word, u0: Word, q: DWord, rt: int)
    requires n != 0 && ninv == PreinvOf(n) && d == Normalize(n) && u1 < d
    requires q == AddSSAAAA(UMulPPMM(ninv, u1), DWord(u1, u0))
    requires rt == u1 * WordBase + u0 - (q.hi + 1) * d
    ensures 0 <= rt + d && q.lo + 1 - WordBase <= rt
      && rt < (if WordBase - d > q.lo then WordBase - d else q.lo)
  {
    var k0 := PreinvRemainder(n, ninv, d);
    SumBelow(ninv, u1, u0, d, k0);
    QuotientWords(ninv, u1, u0, q);
    CandidateBounds(WordBase, d, ninv, k0, u1, u0, q.hi, q.lo);
  }

  /** The inverse v of d leaves k0 = (B^2 - 1) - (B + v) d in [0, d). */
  lemma PreinvRemainder(n: Word, ninv: Word, d: Word) returns (k0: int)
    requires n != 0 && ninv == PreinvOf(n) && d == Normalize(n)
    ensures (WordBase + ninv) * d + k0 == WordBase * WordBase - 1 && 0 <= k0 < d
  {
    var x := WordBase * WordBase - 1;
    k0 := x % d;
    assert ninv == x / d - WordBase;
  }

  /** Lines 37-38: umul_ppmm then add_ssaaaa give q1:q0 = v u1 + U exactly,
      since the sum is below B^2. */
  lemma QuotientWords(v: Word, u1: Word, u0: Word, q: DWord)
    requires v * u1 + u1 * WordBase + u0 < WordBase * WordBase
    requires q == AddSSAAAA(UMulPPMM(v, u1), DWord(u1, u0))
    ensures q.hi * WordBase + q.lo == v * u1 + u1 * WordBase + u0
  {
    UMulPPMMExact(v, u1);
    var s := v * u1 + u1 * WordBase + u0;
    DivModSmall(s, WordBase * WordBase);
  }

  /** Line 45: the remainder of a 2^norm by n 2^norm, shifted back, is a mod n. */
  lemma ScaledRemainder(a: Word, n: Word, norm: nat, u: int, d: int)
    requires n != 0 && norm < FlintBits && u == a * Pow2(norm) && d == n * Pow2(norm)
    ensures u % d == (a % n) * Pow2(norm)
    ensures u % d < WordBase ==> Shr(u % d, norm) == a % n
  {
    var p := Pow2(norm);
    MulModSplit(a, n, p);
    assert u == p * a;
    MulDivPow2(a % n, norm);
  }

  /** The sum v u1 + U stays below B^2, so add_ssaaaa does not wrap. */
  lemma SumBelow(v: Word, u1: Word, u0: Word, d: Word, k0: int)
    requires u1 < d && 0 <= k0 && (WordBase + v) * d + k0 == WordBase * WordBase - 1
    ensures v * u1 + u1 * WordBase + u0 < WordBase * WordBase
  {
    SumBelowAlgebra(WordBase, v, u1, u0, d, k0);
  }

  lemma SumBelowAlgebra(b: int, v: int, u1: int, u0: int, d: int, k0: int)
    requires 0 <= v && 0 <= u1 < d && 0 <= u0 < b && 0 <= k0 && (b + v) * d + k0 == b * b - 1
    ensures v * u1 + u1 * b + u0 < b * b
  {
    var w := b + v;
    MulMonotone(u1, d - 1, w);
    assert v * u1 + u1 * b == u1 * w;
    assert (d - 1) * w == w * d - w;
  }
}
