/** fq_nmod_mpoly_compression_do and fq_nmod_mpoly_compression_undo: the
    exponent arithmetic of the compression used by multivariate
    factorisation. Compressing copies a polynomial A whose exponents were
    already mapped to mvars variables into L; undoing it maps each exponent
    vector t of L back through the affine map deltas + umat t to nvars
    variables and then shifts every variable down by its minimum over the
    terms. Exponent vectors are kept unpacked (one word per variable); the
    bit-packing of monomials, the sorting of terms and the monic scaling
    are not part of this model. */
module Compression {
  import opened Arith
  import opened Words

  /** mpoly_compression_t: the affine map from the mvars compressed
      variables to the nvars original ones, the degrees of the compressed
      variables, and a scratch buffer exps of nvars slongs per term. */
  class Compression {
    var mvars: nat
    var nvars: nat
    var degs: seq<int>
    var deltas: seq<int>
    var umat: seq<int>
    var exps: seq<int>

    constructor(mvars: nat, nvars: nat, degs: seq<int>, deltas: seq<int>, umat: seq<int>)
      ensures this.mvars == mvars && this.nvars == nvars && this.degs == degs
      ensures this.deltas == deltas && this.umat == umat && this.exps == []
    {
      this.mvars, this.nvars, this.degs := mvars, nvars, degs;
      this.deltas, this.umat, this.exps := deltas, umat, [];
    }
  }

  /** An fq_nmod_mpoly_t: length terms, d coefficient words per term, one
      exponent vector per term, and the packing width bits. */
  class Mpoly {
    var length: nat
    var bits: nat
    var coeffs: seq<Word>
    var exps: seq<seq<Word>>

    constructor()
      ensures length == 0 && bits == 0 && coeffs == [] && exps == []
    {
      length, bits, coeffs, exps := 0, 0, [], [];
    }

    /** length terms of d coefficient words and nv exponents each. */
    predicate Valid(d: nat, nv: nat)
      reads this
    {
      |coeffs| == d * length && |exps| == length &&
      forall i :: 0 <= i < length ==> |exps[i]| == nv
    }
  }

  // ---------------------------------------------------------------------
  // Specification functions

  /** The largest of degs[0..count), and degs[0] when count is 0 or 1. */
  function MaxOf(degs: seq<int>, count: nat): int
    requires 1 <= |degs| && count <= |degs|
  {
    if count <= 1 then degs[0]
    else var m := MaxOf(degs, count - 1);
      if m < degs[count - 1] then degs[count - 1] else m
  }

  /** Σ_{l < n} umat[base + l] t[l], with the words of t read as slongs. */
  function RowSum(umat: seq<int>, base: nat, t: seq<Word>, n: nat): int
    requires base + n <= |umat| && n <= |t|
  {
    if n == 0 then 0
    else RowSum(umat, base, t, n - 1) + umat[base + n - 1] * ToSigned(t[n - 1])
  }

  /** Lines 91-93: the raw exponent of variable k for the compressed
      exponent vector t, deltas[k] + Σ_l umat[k nvars + l] t[l]. */
  function Raw(deltas: seq<int>, umat: seq<int>, nvars: nat, t: seq<Word>, k: nat): int
    requires MapShape(deltas, umat, nvars, |t|) && k < nvars
  {
    RowFits(umat, nvars, |t|, k);
    deltas[k] + RowSum(umat, k * nvars, t, |t|)
  }

  /** The shapes the affine map needs: every row of umat holds nvars entries. */
  predicate MapShape(deltas: seq<int>, umat: seq<int>, nvars: nat, mvars: nat)
  {
    mvars <= nvars && nvars <= |deltas| && nvars * nvars <= |umat|
  }

  lemma RowFits(umat: seq<int>, nvars: nat, mvars: nat, k: nat)
    requires mvars <= nvars && nvars * nvars <= |umat| && k < nvars
    ensures k * nvars + mvars <= |umat|
  {
    MulMonotone(k + 1, nvars, nvars);
  }

  /** Lines 79-80 and 95: min(WORD_MAX, the raw exponents of variable k
      over the first i terms). */
  function ColumnMin(deltas: seq<int>, umat: seq<int>, nvars: nat, mvars: nat,
                     rows: seq<seq<Word>>, k: nat, i: nat): int
    requires MapShape(deltas, umat, nvars, mvars) && k < nvars && i <= |rows|
    requires forall j :: 0 <= j < |rows| ==> |rows[j]| == mvars
  {
    if i == 0 then WordMax
    else
      var m, r := ColumnMin(deltas, umat, nvars, mvars, rows, k, i - 1),
                  Raw(deltas, umat, nvars, rows[i - 1], k);
      if m > r then r else m
  }

  /** The position i nvars + k of variable k of term i in a buffer of nvars
      slots per term, counted term by term. */
  function Index(i: nat, k: nat, nvars: nat): nat
  {
    if i == 0 then k else nvars + Index(i - 1, k, nvars)
  }

  lemma {:induction false} IndexValue(i: nat, k: nat, nvars: nat)
    ensures Index(i, k, nvars) == i * nvars + k
  {
    if i > 0 {
      IndexValue(i - 1, k, nvars);
    }
  }

  lemma IndexBound(i: nat, k: nat, n: nat, nvars: nat)
    requires i < n && k < nvars
    ensures Index(i, k, nvars) < n * nvars
  {
    IndexValue(i, k, nvars);
    Within(i, n, nvars);
  }

  /** Term i of n, w words each, ends at w (i + 1) <= w n. */
  lemma Within(i: nat, n: nat, w: nat)
    requires i < n
    ensures w * i + w == w * (i + 1) <= w * n
  {
    MulMonotone(i + 1, n, w);
  }

  /** Distinct (term, variable) pairs use distinct slots. */
  lemma IndexDistinct(i: nat, k: nat, j: nat, l: nat, nvars: nat)
    requires k < nvars && l < nvars && (i, k) != (j, l)
    ensures Index(i, k, nvars) != Index(j, l, nvars)
  {
    IndexValue(i, k, nvars);
    IndexValue(j, l, nvars);
    if i < j {
      MulMonotone(i + 1, j, nvars);
    } else if j < i {
      MulMonotone(j + 1, i, nvars);
    }
  }

  /** The slot of variable k of term i. */
  function Slot(e: seq<int>, nvars: nat, i: nat, k: nat): int
    requires k < nvars && Index(i, k, nvars) < |e|
  {
    e[Index(i, k, nvars)]
  }

  // ---------------------------------------------------------------------
  // Properties of the specification functions

  /** The loop of lines 33-35 and its reference: MaxOf bounds every degree
      it looks at and is one of them. */
  lemma {:induction false} MaxOfIsMaximum(degs: seq<int>, count: nat)
    requires 1 <= |degs| && count <= |degs|
    ensures forall j :: 0 <= j < count ==> degs[j] <= MaxOf(degs, count)
    ensures exists j :: 0 <= j < |degs| && j < (if count == 0 then 1 else count)
                        && MaxOf(degs, count) == degs[j]
  {
    if count > 1 {
      MaxOfIsMaximum(degs, count - 1);
      if MaxOf(degs, count) != degs[count - 1] {
        var j :| 0 <= j < |degs| && j < count - 1 && MaxOf(degs, count - 1) == degs[j];
        assert MaxOf(degs, count) == degs[j];
      }
    } else {
      assert MaxOf(degs, count) == degs[0];
    }
  }

  /** Line 36: with Lbits = 1 + FLINT_BIT_COUNT(max_deg), every nonnegative
      degree fits in Lbits - 1 bits, leaving the spare top bit of packed
      exponent fields clear. */
  lemma DegreesFit(degs: seq<int>, count: nat, j: nat)
    requires 1 <= |degs| && count <= |degs| && j < count && 0 <= degs[j]
    requires forall t :: 0 <= t < |degs| ==> IsSigned(degs[t])
    ensures degs[j] < Pow2(LBits(degs, count) - 1)
  {
    MaxOfIsMaximum(degs, count);
    var m := MaxOf(degs, count);
    DegreeBelowWord(degs, count, m);
    DivModSmall(m, WordBase);
    BitLengthBounds(m);
  }

  /** The degrees are slongs, so their maximum is below 2^63. */
  lemma DegreeBelowWord(degs: seq<int>, count: nat, m: int)
    requires 1 <= |degs| && count <= |degs| && m == MaxOf(degs, count)
    requires m >= 0 && forall j :: 0 <= j < |degs| ==> IsSigned(degs[j])
    ensures m < WordBase
  {
    MaxOfIsMaximum(degs, count);
  }

  /** Line 36 without mpoly_fix_bits: one more than the bit count of the
      largest degree, read as a ulong. */
  function LBits(degs: seq<int>, count: nat): (b: nat)
    requires 1 <= |degs| && count <= |degs|
    ensures b >= 1
  {
    1 + BitLength(ToWord(MaxOf(degs, count)))
  }

  /** ColumnMin is at most WORD_MAX and at most every raw exponent it saw. */
  lemma {:induction false} ColumnMinBelow(deltas: seq<int>, umat: seq<int>, nvars: nat,
                                          mvars: nat, rows: seq<seq<Word>>, k: nat, i: nat)
    requires MapShape(deltas, umat, nvars, mvars) && k < nvars && i <= |rows|
    requires forall j :: 0 <= j < |rows| ==> |rows[j]| == mvars
    ensures ColumnMin(deltas, umat, nvars, mvars, rows, k, i) <= WordMax
    ensures forall j :: 0 <= j < i ==>
      ColumnMin(deltas, umat, nvars, mvars, rows, k, i) <= Raw(deltas, umat, nvars, rows[j], k)
  {
    if i > 0 {
      ColumnMinBelow(deltas, umat, nvars, mvars, rows, k, i - 1);
    }
  }

  /** ColumnMin is WORD_MAX or one of the raw exponents it saw. */
  lemma {:induction false} ColumnMinAttained(deltas: seq<int>, umat: seq<int>, nvars: nat,
                                             mvars: nat, rows: seq<seq<Word>>, k: nat, i: nat)
    requires MapShape(deltas, umat, nvars, mvars) && k < nvars && i <= |rows|
    requires forall j :: 0 <= j < |rows| ==> |rows[j]| == mvars
    ensures ColumnMin(deltas, umat, nvars, mvars, rows, k, i) == WordMax ||
      exists j :: 0 <= j < i &&
        ColumnMin(deltas, umat, nvars, mvars, rows, k, i) == Raw(deltas, umat, nvars, rows[j], k)
  {
    if i > 0 {
      ColumnMinAttained(deltas, umat, nvars, mvars, rows, k, i - 1);
    }
  }

  /** Lines 99-102: every shifted exponent is nonnegative. */
  lemma ShiftedNonnegative(deltas: seq<int>, umat: seq<int>, nvars: nat, mvars: nat,
                           rows: seq<seq<Word>>, k: nat)
    requires MapShape(deltas, umat, nvars, mvars) && k < nvars
    requires forall j :: 0 <= j < |rows| ==> |rows[j]| == mvars
    ensures forall j :: 0 <= j < |rows| ==> Shifted(deltas, umat, nvars, mvars, rows, j, k) >= 0
  {
    ColumnMinBelow(deltas, umat, nvars, mvars, rows, k, |rows|);
  }

  /** Lines 99-102: when the raw exponents of variable k are slongs (so at
      most WORD_MAX), some term of a nonempty polynomial has exponent 0 in
      variable k after the shift. */
  lemma ShiftedReachesZero(deltas: seq<int>, umat: seq<int>, nvars: nat, mvars: nat,
                           rows: seq<seq<Word>>, k: nat)
    requires MapShape(deltas, umat, nvars, mvars) && k < nvars && |rows| > 0
    requires forall j :: 0 <= j < |rows| ==> |rows[j]| == mvars
    requires forall j :: 0 <= j < |rows| ==> Raw(deltas, umat, nvars, rows[j], k) <= WordMax
    ensures exists j :: 0 <= j < |rows| && Shifted(deltas, umat, nvars, mvars, rows, j, k) == 0
  {
    var m := ColumnMin(deltas, umat, nvars, mvars, rows, k, |rows|);
    ColumnMinBelow(deltas, umat, nvars, mvars, rows, k, |rows|);
    ColumnMinAttained(deltas, umat, nvars, mvars, rows, k, |rows|);
    if m == WordMax {
      assert Shifted(deltas, umat, nvars, mvars, rows, 0, k) == 0;
    } else {
      var j :| 0 <= j < |rows| && m == Raw(deltas, umat, nvars, rows[j], k);
      assert Shifted(deltas, umat, nvars, mvars, rows, j, k) == 0;
    }
  }

  /** Lines 99-102: the exponent of variable k in term j after the shift. */
  function Shifted(deltas: seq<int>, umat: seq<int>, nvars: nat, mvars: nat,
                   rows: seq<seq<Word>>, j: nat, k: nat): int
    requires MapShape(deltas, umat, nvars, mvars) && k < nvars && j < |rows|
    requires forall t :: 0 <= t < |rows| ==> |rows[t]| == mvars
  {
    Raw(deltas, umat, nvars, rows[j], k) - ColumnMin(deltas, umat, nvars, mvars, rows, k, |rows|)
  }

  /** Raw exponents are affine in deltas. */
  lemma RawShift(deltas: seq<int>, umat: seq<int>, nvars: nat, t: seq<Word>, k: nat, c: int)
    requires MapShape(deltas, umat, nvars, |t|) && k < nvars
    ensures MapShape(deltas[k := deltas[k] + c], umat, nvars, |t|)
    ensures Raw(deltas[k := deltas[k] + c], umat, nvars, t, k) == Raw(deltas, umat, nvars, t, k) + c
  {
  }

  /** Adding c to deltas[k] adds c to every raw exponent of variable k and,
      while those stay slongs, to their running minimum. */
  lemma {:induction false} ColumnMinShift(deltas: seq<int>, umat: seq<int>, nvars: nat,
                                          mvars: nat, rows: seq<seq<Word>>, k: nat, i: nat, c: int)
    requires MapShape(deltas, umat, nvars, mvars) && k < nvars && 0 < i <= |rows|
    requires forall j :: 0 <= j < |rows| ==> |rows[j]| == mvars
    requires forall j :: 0 <= j < i ==>
      Raw(deltas, umat, nvars, rows[j], k) <= WordMax && Raw(deltas, umat, nvars, rows[j], k) + c <= WordMax
    ensures MapShape(deltas[k := deltas[k] + c], umat, nvars, mvars)
    ensures ColumnMin(deltas[k := deltas[k] + c], umat, nvars, mvars, rows, k, i)
            == ColumnMin(deltas, umat, nvars, mvars, rows, k, i) + c
  {
    RawShift(deltas, umat, nvars, rows[i - 1], k, c);
    if i > 1 {
      ColumnMinShift(deltas, umat, nvars, mvars, rows, k, i - 1, c);
    }
  }

  /** The shifted exponents do not depend on the translation part deltas of
      the map, as long as the raw exponents stay slongs. */
  lemma ShiftedIgnoresDeltas(deltas: seq<int>, umat: seq<int>, nvars: nat, mvars: nat,
                             rows: seq<seq<Word>>, j: nat, k: nat, c: int)
    requires MapShape(deltas, umat, nvars, mvars) && k < nvars && j < |rows|
    requires forall t :: 0 <= t < |rows| ==> |rows[t]| == mvars
    requires forall t :: 0 <= t < |rows| ==>
      Raw(deltas, umat, nvars, rows[t], k) <= WordMax && Raw(deltas, umat, nvars, rows[t], k) + c <= WordMax
    ensures MapShape(deltas[k := deltas[k] + c], umat, nvars, mvars)
    ensures Shifted(deltas[k := deltas[k] + c], umat, nvars, mvars, rows, j, k)
            == Shifted(deltas, umat, nvars, mvars, rows, j, k)
  {
    ColumnMinShift(deltas, umat, nvars, mvars, rows, k, |rows|, c);
    RawShift(deltas, umat, nvars, rows[j], k, c);
  }

  // ---------------------------------------------------------------------
  // The two routines

  /** Lines 33-35: the largest of M->degs[0..mvars), starting from degs[0]. */
  method MaxDegree(degs: seq<int>, mvars: nat) returns (maxDeg: int)
    requires 1 <= |degs| && mvars <= |degs|
    ensures maxDeg == MaxOf(degs, mvars)
  {
    maxDeg := degs[0];
    var i := 1;
    while i < mvars
      invariant 1 <= i <= (if mvars == 0 then 1 else mvars)
      invariant maxDeg == MaxOf(degs, i)
    {
      maxDeg := if maxDeg > degs[i] then maxDeg else degs[i];
      i := i + 1;
    }
  }

  /** s[..d i] followed by the d words at d i is s[..d (i + 1)]. */
  lemma CopyStep(s: seq<Word>, d: nat, i: nat)
    requires d * (i + 1) <= |s|
    ensures d * i + d == d * (i + 1)
    ensures s[..d * i] + s[d * i..d * i + d] == s[..d * (i + 1)]
  {
    var lo, hi := d * i, d * (i + 1);
    assert lo + d == hi;
    assert s[..lo] + s[lo..hi] == s[..hi];
  }

  /** Line 46: the exponents of term i as mpoly_set_monomial_ui reads them,
      the first mvars of its nvars slots in e, each as a ulong. */
  function ReadRow(e: seq<int>, nvars: nat, mvars: nat, i: nat): (row: seq<Word>)
    requires mvars <= nvars && nvars * i + mvars <= |e|
    ensures |row| == mvars
  {
    seq<Word>(mvars, j requires 0 <= j < mvars => ToWord(e[nvars * i + j]))
  }

  /** Lines 42-47 of compression_do: L gets Alen terms, the coefficients of A
      unchanged and exponent row i read (as ulongs) from the first mvars of
      the nvars slots of term i in M->exps. Lines 33-36 compute L's bits from
      the largest compressed degree; the bits are 1 + FLINT_BIT_COUNT(max_deg),
      the request made of mpoly_fix_bits, and L is left unsorted and not made
      monic (lines 50-51 are not part of this model). */
  method CompressionDo(L: Mpoly, d: nat, acoeffs: seq<Word>, alen: nat, M: Compression)
    requires 1 <= |M.degs| && M.mvars <= |M.degs| && M.mvars <= M.nvars
    requires d * alen <= |acoeffs| && M.nvars * alen <= |M.exps|
    modifies L
    ensures L.bits == LBits(M.degs, M.mvars) && L.length == alen
    ensures L.coeffs == acoeffs[..d * alen] && L.Valid(d, M.mvars)
    ensures forall i :: 0 <= i < alen ==>
      M.nvars * i + M.mvars <= |M.exps| && L.exps[i] == ReadRow(M.exps, M.nvars, M.mvars, i)
  {
    var mvars, nvars := M.mvars, M.nvars;
    var maxDeg := MaxDegree(M.degs, mvars);
    L.bits := 1 + BitLength(ToWord(maxDeg));
    L.length := alen;
    L.coeffs, L.exps := [], [];
    for i := 0 to alen
      invariant L.bits == LBits(M.degs, mvars) && L.length == alen
      invariant L.coeffs == acoeffs[..d * i] && |L.exps| == i
      invariant forall t :: 0 <= t < i ==>
        nvars * t + mvars <= |M.exps| && L.exps[t] == ReadRow(M.exps, nvars, mvars, t)
    {
      CopyTerm(L, d, acoeffs, alen, M.exps, nvars, mvars, i);
    }
  }

  /** Lines 45-46 for term i: its d coefficient words and its exponent row. */
  method CopyTerm(L: Mpoly, d: nat, acoeffs: seq<Word>, alen: nat, e: seq<int>,
                  nvars: nat, mvars: nat, i: nat)
    requires i < alen && d * alen <= |acoeffs| && mvars <= nvars && nvars * alen <= |e|
    requires L.coeffs == acoeffs[..d * i]
    modifies L`coeffs, L`exps
    ensures nvars * i + mvars <= |e|
    ensures d * (i + 1) <= |acoeffs| && L.coeffs == acoeffs[..d * (i + 1)]
    ensures L.exps == old(L.exps) + [ReadRow(e, nvars, mvars, i)]
  {
    var lo := d * i;
    Within(i, alen, d);
    CopyStep(acoeffs, d, i);
    L.coeffs := L.coeffs + acoeffs[lo..lo + d];
    Within(i, alen, nvars);
    var row := ReadRow(e, nvars, mvars, i);
    L.exps := L.exps + [row];
  }

  /** Lines 91-93: the raw exponent of variable k for the compressed exponents t. */
  method RawExponent(deltas: seq<int>, umat: seq<int>, nvars: nat, mvars: nat,
                     t: seq<Word>, k: nat)
    returns (tot: int)
    requires MapShape(deltas, umat, nvars, mvars) && k < nvars && |t| == mvars
    ensures tot == Raw(deltas, umat, nvars, t, k)
  {
    RowFits(umat, nvars, mvars, k);
    tot := deltas[k];
    for l := 0 to mvars
      invariant tot == deltas[k] + RowSum(umat, k * nvars, t, l)
    {
      tot := tot + umat[k * nvars + l] * ToSigned(t[l]);
    }
  }

  /** Every exponent row of rows has mvars entries. */
  predicate RowsShape(rows: seq<seq<Word>>, mvars: nat)
  {
    forall j :: 0 <= j < |rows| ==> |rows[j]| == mvars
  }

  /** After line 94 for (i, k): the slots of the terms before i, and of the
      variables before k in term i, hold their raw exponents. */
  ghost predicate RawUpTo(e: seq<int>, deltas: seq<int>, umat: seq<int>, nvars: nat, mvars: nat,
                          rows: seq<seq<Word>>, i: nat, k: nat)
    requires MapShape(deltas, umat, nvars, mvars) && RowsShape(rows, mvars)
  {
    forall ii, kk :: 0 <= ii < |rows| && 0 <= kk < nvars && (ii < i || (ii == i && kk < k)) ==>
      Index(ii, kk, nvars) < |e| && Slot(e, nvars, ii, kk) == Raw(deltas, umat, nvars, rows[ii], kk)
  }

  /** After line 102 for (i, k): every slot holds its raw exponent, less the
      minimum of its variable for the terms before i and the variables
      before k in term i. */
  ghost predicate ShiftedUpTo(e: seq<int>, deltas: seq<int>, umat: seq<int>, nvars: nat,
                              mvars: nat, rows: seq<seq<Word>>, i: nat, k: nat)
    requires MapShape(deltas, umat, nvars, mvars) && RowsShape(rows, mvars)
  {
    forall ii, kk :: 0 <= ii < |rows| && 0 <= kk < nvars ==>
      Index(ii, kk, nvars) < |e| &&
      Slot(e, nvars, ii, kk) == Raw(deltas, umat, nvars, rows[ii], kk)
        - (if ii < i || (ii == i && kk < k) then ColumnMin(deltas, umat, nvars, mvars, rows, kk, |rows|) else 0)
  }

  lemma RawSlotStep(e: seq<int>, deltas: seq<int>, umat: seq<int>, nvars: nat, mvars: nat,
                    rows: seq<seq<Word>>, i: nat, k: nat, tot: int)
    requires MapShape(deltas, umat, nvars, mvars) && RowsShape(rows, mvars)
    requires i < |rows| && k < nvars && Index(i, k, nvars) < |e|
    requires RawUpTo(e, deltas, umat, nvars, mvars, rows, i, k)
    requires tot == Raw(deltas, umat, nvars, rows[i], k)
    ensures RawUpTo(e[Index(i, k, nvars) := tot], deltas, umat, nvars, mvars, rows, i, k + 1)
  {
    var e' := e[Index(i, k, nvars) := tot];
    forall ii, kk | 0 <= ii < |rows| && 0 <= kk < nvars && (ii < i || (ii == i && kk < k + 1))
      ensures Index(ii, kk, nvars) < |e'| && Slot(e', nvars, ii, kk) == Raw(deltas, umat, nvars, rows[ii], kk)
    {
      if (ii, kk) != (i, k) {
        IndexDistinct(ii, kk, i, k, nvars);
      }
    }
  }

  lemma ShiftSlotStep(e: seq<int>, deltas: seq<int>, umat: seq<int>, nvars: nat, mvars: nat,
                      rows: seq<seq<Word>>, i: nat, k: nat, m: int)
    requires MapShape(deltas, umat, nvars, mvars) && RowsShape(rows, mvars)
    requires i < |rows| && k < nvars && Index(i, k, nvars) < |e|
    requires ShiftedUpTo(e, deltas, umat, nvars, mvars, rows, i, k)
    requires m == ColumnMin(deltas, umat, nvars, mvars, rows, k, |rows|)
    ensures ShiftedUpTo(e[Index(i, k, nvars) := e[Index(i, k, nvars)] - m], deltas, umat, nvars,
                        mvars, rows, i, k + 1)
  {
    var e' := e[Index(i, k, nvars) := e[Index(i, k, nvars)] - m];
    forall ii, kk | 0 <= ii < |rows| && 0 <= kk < nvars
      ensures Index(ii, kk, nvars) < |e'| &&
        Slot(e', nvars, ii, kk) == Raw(deltas, umat, nvars, rows[ii], kk)
          - (if ii < i || (ii == i && kk < k + 1) then ColumnMin(deltas, umat, nvars, mvars, rows, kk, |rows|) else 0)
    {
      if (ii, kk) != (i, k) {
        IndexDistinct(ii, kk, i, k, nvars);
      }
    }
  }

  /** Lines 89-96 for term i: each raw exponent is stored in its slot and
      folded into the running minimum of its variable. */
  method RawTerm(M: Compression, rows: seq<seq<Word>>, i: nat, mins: array<int>)
    requires MapShape(M.deltas, M.umat, M.nvars, M.mvars) && RowsShape(rows, M.mvars)
    requires i < |rows| && |rows| * M.nvars <= |M.exps| && mins.Length == M.nvars
    requires RawUpTo(M.exps, M.deltas, M.umat, M.nvars, M.mvars, rows, i, 0)
    requires forall k :: 0 <= k < M.nvars ==>
      mins[k] == ColumnMin(M.deltas, M.umat, M.nvars, M.mvars, rows, k, i)
    modifies M`exps, mins
    ensures |M.exps| == old(|M.exps|)
    ensures RawUpTo(M.exps, M.deltas, M.umat, M.nvars, M.mvars, rows, i + 1, 0)
    ensures forall k :: 0 <= k < M.nvars ==>
      mins[k] == ColumnMin(M.deltas, M.umat, M.nvars, M.mvars, rows, k, i + 1)
  {
    var nvars, mvars := M.nvars, M.mvars;
    for k := 0 to nvars
      invariant |M.exps| == old(|M.exps|)
      invariant RawUpTo(M.exps, M.deltas, M.umat, nvars, mvars, rows, i, k)
      invariant forall kk :: 0 <= kk < nvars ==>
        mins[kk] == ColumnMin(M.deltas, M.umat, nvars, mvars, rows, kk, if kk < k then i + 1 else i)
    {
      var tot := RawExponent(M.deltas, M.umat, nvars, mvars, rows[i], k);
      IndexBound(i, k, |rows|, nvars);
      var j := Index(i, k, nvars);  // i * nvars + k, by IndexValue
      RawSlotStep(M.exps, M.deltas, M.umat, nvars, mvars, rows, i, k, tot);
      M.exps := M.exps[j := tot];
      mins[k] := if mins[k] > tot then tot else mins[k];
    }
  }

  /** Line 103: the nvars slots of term i, read as ulongs. */
  function TermRow(e: seq<int>, nvars: nat, i: nat): (row: seq<Word>)
    requires forall k :: 0 <= k < nvars ==> Index(i, k, nvars) < |e|
    ensures |row| == nvars
    ensures forall k :: 0 <= k < nvars ==> row[k] == ToWord(Slot(e, nvars, i, k))
  {
    seq<Word>(nvars, k requires 0 <= k < nvars => ToWord(e[Index(i, k, nvars)]))
  }

  /** Every slot holds its raw exponent once all terms are done. */
  lemma RawToShifted(e: seq<int>, deltas: seq<int>, umat: seq<int>, nvars: nat, mvars: nat,
                     rows: seq<seq<Word>>)
    requires MapShape(deltas, umat, nvars, mvars) && RowsShape(rows, mvars)
    requires RawUpTo(e, deltas, umat, nvars, mvars, rows, |rows|, 0)
    ensures ShiftedUpTo(e, deltas, umat, nvars, mvars, rows, 0, 0)
  {
  }

  /** Lines 101-103 for term i: each slot less the minimum of its variable,
      then the row of nvars slots read as ulongs into A's exponents. */
  method ShiftTerm(M: Compression, rows: seq<seq<Word>>, i: nat, mins: array<int>)
    returns (row: seq<Word>)
    requires MapShape(M.deltas, M.umat, M.nvars, M.mvars) && RowsShape(rows, M.mvars)
    requires i < |rows| && |rows| * M.nvars <= |M.exps| && mins.Length == M.nvars
    requires ShiftedUpTo(M.exps, M.deltas, M.umat, M.nvars, M.mvars, rows, i, 0)
    requires forall k :: 0 <= k < M.nvars ==>
      mins[k] == ColumnMin(M.deltas, M.umat, M.nvars, M.mvars, rows, k, |rows|)
    modifies M`exps
    ensures |M.exps| == old(|M.exps|)
    ensures ShiftedUpTo(M.exps, M.deltas, M.umat, M.nvars, M.mvars, rows, i + 1, 0)
    ensures |row| == M.nvars
    ensures forall k :: 0 <= k < M.nvars ==>
      row[k] == ToWord(Shifted(M.deltas, M.umat, M.nvars, M.mvars, rows, i, k))
  {
    var nvars, mvars := M.nvars, M.mvars;
    for k := 0 to nvars
      invariant |M.exps| == old(|M.exps|)
      invariant ShiftedUpTo(M.exps, M.deltas, M.umat, nvars, mvars, rows, i, k)
    {
      IndexBound(i, k, |rows|, nvars);
      var j := Index(i, k, nvars);  // i * nvars + k, by IndexValue
      ShiftSlotStep(M.exps, M.deltas, M.umat, nvars, mvars, rows, i, k, mins[k]);
      M.exps := M.exps[j := M.exps[j] - mins[k]];
    }
    row := TermRow(M.exps, nvars, i);
  }

  /** fq_nmod_mpoly_compression_undo, lines 79-105: A gets L's length and
      coefficients, and the exponents of term i of A (and the slots of term
      i of M->exps) are the raw exponents of L's term i under the map,
      shifted down by the minimum of each variable over all terms. A is left
      in L's term order and not made monic (lines 109-110 are not part of
      this model). */
  method CompressionUndo(A: Mpoly, abits: nat, L: Mpoly, M: Compression, d: nat)
    requires A != L && L.Valid(d, M.mvars) && MapShape(M.deltas, M.umat, M.nvars, M.mvars)
    modifies A, M`exps
    ensures A.bits == abits && A.length == L.length && A.coeffs == L.coeffs && A.Valid(d, M.nvars)
    ensures L.length * M.nvars <= |M.exps|
    ensures forall i, k :: 0 <= i < L.length && 0 <= k < M.nvars ==>
      Index(i, k, M.nvars) < |M.exps| &&
      Slot(M.exps, M.nvars, i, k) == Shifted(M.deltas, M.umat, M.nvars, M.mvars, L.exps, i, k) &&
      A.exps[i][k] == ToWord(Slot(M.exps, M.nvars, i, k))
  {
    var nvars, n := M.nvars, L.length;
    var mins := new int[nvars];
    for k := 0 to nvars
      invariant forall j :: 0 <= j < k ==> mins[j] == WordMax
    {
      mins[k] := WordMax;
    }
    if |M.exps| < n * nvars {
      M.exps := M.exps + seq(n * nvars - |M.exps|, _ => 0);
    }
    A.bits, A.length := abits, n;
    RawPass(A, L, M, mins, d);
    ShiftPass(A, M, L.exps, mins);
  }

  /** Lines 85-97: the coefficients of L are copied into A, and every raw
      exponent is stored in its slot of M->exps and folded into mins. */
  method RawPass(A: Mpoly, L: Mpoly, M: Compression, mins: array<int>, d: nat)
    requires A != L && L.Valid(d, M.mvars) && MapShape(M.deltas, M.umat, M.nvars, M.mvars)
    requires L.length * M.nvars <= |M.exps| && mins.Length == M.nvars
    requires forall k :: 0 <= k < M.nvars ==> mins[k] == WordMax
    modifies A`coeffs, M`exps, mins
    ensures |M.exps| == old(|M.exps|) && A.coeffs == L.coeffs
    ensures RawUpTo(M.exps, M.deltas, M.umat, M.nvars, M.mvars, L.exps, L.length, 0)
    ensures forall k :: 0 <= k < M.nvars ==>
      mins[k] == ColumnMin(M.deltas, M.umat, M.nvars, M.mvars, L.exps, k, L.length)
  {
    var nvars, mvars, n, rows := M.nvars, M.mvars, L.length, L.exps;
    A.coeffs := [];
    for i := 0 to n
      invariant |M.exps| == old(|M.exps|) && A.coeffs == L.coeffs[..d * i]
      invariant RawUpTo(M.exps, M.deltas, M.umat, nvars, mvars, rows, i, 0)
      invariant forall k :: 0 <= k < nvars ==>
        mins[k] == ColumnMin(M.deltas, M.umat, nvars, mvars, rows, k, i)
    {
      MulMonotone(i + 1, n, d);
      CopyStep(L.coeffs, d, i);
      A.coeffs := A.coeffs + L.coeffs[d * i..d * i + d];
      RawTerm(M, rows, i, mins);
    }
  }

  /** Lines 99-105: every slot less the minimum of its variable, and the
      rows of slots as A's exponents. */
  method ShiftPass(A: Mpoly, M: Compression, rows: seq<seq<Word>>, mins: array<int>)
    requires MapShape(M.deltas, M.umat, M.nvars, M.mvars) && RowsShape(rows, M.mvars)
    requires |rows| * M.nvars <= |M.exps| && mins.Length == M.nvars
    requires RawUpTo(M.exps, M.deltas, M.umat, M.nvars, M.mvars, rows, |rows|, 0)
    requires forall k :: 0 <= k < M.nvars ==>
      mins[k] == ColumnMin(M.deltas, M.umat, M.nvars, M.mvars, rows, k, |rows|)
    modifies A`exps, M`exps
    ensures |M.exps| == old(|M.exps|) && |A.exps| == |rows|
    ensures forall i :: 0 <= i < |rows| ==> |A.exps[i]| == M.nvars
    ensures forall i, k :: 0 <= i < |rows| && 0 <= k < M.nvars ==>
      Index(i, k, M.nvars) < |M.exps| &&
      Slot(M.exps, M.nvars, i, k) == Shifted(M.deltas, M.umat, M.nvars, M.mvars, rows, i, k) &&
      A.exps[i][k] == ToWord(Slot(M.exps, M.nvars, i, k))
  {
    var nvars, mvars := M.nvars, M.mvars;
    RawToShifted(M.exps, M.deltas, M.umat, nvars, mvars, rows);
    A.exps := [];
    for i := 0 to |rows|
      invariant |M.exps| == old(|M.exps|) && |A.exps| == i
      invariant ShiftedUpTo(M.exps, M.deltas, M.umat, nvars, mvars, rows, i, 0)
      invariant forall t :: 0 <= t < i ==> |A.exps[t]| == nvars
      invariant forall t, k :: 0 <= t < i && 0 <= k < nvars ==>
        A.exps[t][k] == ToWord(Shifted(M.deltas, M.umat, nvars, mvars, rows, t, k))
    {
      var row := ShiftTerm(M, rows, i, mins);
      ghost var before := A.exps;
      A.exps := A.exps + [row];
      assert forall t :: 0 <= t < i ==> A.exps[t] == before[t];
    }
  }
}
