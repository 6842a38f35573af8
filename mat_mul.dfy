/** fmpz_mat_mul: C = A B for integer matrices. A matrix is a two-dimensional
    array of entry values; the alias guard compares matrix identities, the
    kernel is chosen from the dimensions and the signed maximum entry bit
    widths, and the three small-entry kernels accumulate each inner product
    in one, two or three machine words. */
module MatMul {
  import opened Arith
  import opened Words
  import opened Matrix
  import Fmpz

  /** The entry values of m, as rows. */
  function Entries(m: array2<int>): (g: Grid)
    reads m
    ensures IsMatrix(g, m.Length0, m.Length1)
    ensures forall i, j :: 0 <= i < m.Length0 && 0 <= j < m.Length1 ==> g[i][j] == m[i, j]
  {
    seq(m.Length0, i requires 0 <= i < m.Length0 reads m =>
      seq(m.Length1, j requires 0 <= j < m.Length1 reads m => m[i, j]))
  }

  /** Every entry of m is below 2^b in absolute value. */
  predicate ArrayFits(m: array2<int>, b: nat)
    reads m
  {
    forall i, j :: 0 <= i < m.Length0 && 0 <= j < m.Length1 ==> Abs(m[i, j]) < Pow2(b)
  }

  /** C has A's rows and B's columns, and A's columns are B's rows. */
  predicate Shapes(C: array2<int>, A: array2<int>, B: array2<int>)
  {
    C.Length0 == A.Length0 && C.Length1 == B.Length1 && A.Length1 == B.Length0
  }

  /** Every entry before (i, j) in row-major order holds its value in P. */
  predicate Done(C: array2<int>, P: Grid, i: nat, j: nat)
    reads C
  {
    IsMatrix(P, C.Length0, C.Length1) &&
    forall ii, jj :: 0 <= ii < C.Length0 && 0 <= jj < C.Length1 && (ii < i || (ii == i && jj < j)) ==>
      C[ii, jj] == P[ii][jj]
  }

  /** C[i, j] := v, where v is P's entry: the next entry in row-major order is done. */
  method Store(C: array2<int>, ghost P: Grid, i: nat, j: nat, v: int)
    requires i < C.Length0 && j < C.Length1 && Done(C, P, i, j) && v == P[i][j]
    modifies C
    ensures Done(C, P, i, j + 1)
    ensures j + 1 == C.Length1 ==> Done(C, P, i + 1, 0)
  {
    C[i, j] := v;
  }

  lemma DoneAll(C: array2<int>, P: Grid)
    requires Done(C, P, C.Length0, 0)
    ensures Entries(C) == P
  {
    assert forall i :: 0 <= i < C.Length0 ==> Entries(C)[i] == P[i];
  }

  lemma FitsOfEntries(m: array2<int>, b: nat)
    requires FitsBits(Entries(m), b)
    ensures ArrayFits(m, b)
  {
  }

  /** The row and column of an inner product of A and B obey the entry bounds. */
  lemma RowColFit(A: array2<int>, B: array2<int>, i: nat, j: nat, p: nat, q: nat)
    requires A.Length1 == B.Length0 && i < A.Length0 && j < B.Length1
    requires ArrayFits(A, p) && ArrayFits(B, q)
    ensures forall l :: 0 <= l < A.Length1 ==> Abs(Entries(A)[i][l]) < Pow2(p)
    ensures forall l :: 0 <= l < B.Length0 ==> Abs(Column(Entries(B), j)[l]) < Pow2(q)
  {
  }

  /** A value below 2^b, b <= 63, fits a signed word and survives wrapping. */
  lemma SignedIfBelow(v: int, b: nat)
    requires Abs(v) < Pow2(b) && b <= 63
    ensures IsSigned(v)
  {
    Pow2Monotone(b, 63);
    Pow2Of63();
  }

  /** fmpz_mat_zero. */
  method MatZero(C: array2<int>)
    modifies C
    ensures Entries(C) == Zero(C.Length0, C.Length1)
  {
    var i := 0;
    while i < C.Length0
      invariant 0 <= i <= C.Length0
      invariant forall ii, jj :: 0 <= ii < i && 0 <= jj < C.Length1 ==> C[ii, jj] == 0
    {
      var j := 0;
      while j < C.Length1
        invariant 0 <= j <= C.Length1
        invariant forall ii, jj :: 0 <= ii < C.Length0 && 0 <= jj < C.Length1 && (ii < i || (ii == i && jj < j)) ==> C[ii, jj] == 0
      {
        C[i, j] := 0;
        j := j + 1;
      }
      i := i + 1;
    }
    assert forall ii :: 0 <= ii < C.Length0 ==> Entries(C)[ii] == Zero(C.Length0, C.Length1)[ii];
  }

  /** fmpz_mat_swap_entrywise: C and T exchange all their entries. */
  method SwapEntrywise(C: array2<int>, T: array2<int>)
    requires C != T && C.Length0 == T.Length0 && C.Length1 == T.Length1
    modifies C, T
    ensures Entries(C) == old(Entries(T)) && Entries(T) == old(Entries(C))
  {
    ghost var oc, ot := Entries(C), Entries(T);
    var i := 0;
    while i < C.Length0
      invariant 0 <= i <= C.Length0
      invariant forall ii, jj :: 0 <= ii < C.Length0 && 0 <= jj < C.Length1 ==>
        if ii < i then C[ii, jj] == ot[ii][jj] && T[ii, jj] == oc[ii][jj]
        else C[ii, jj] == oc[ii][jj] && T[ii, jj] == ot[ii][jj]
    {
      var j := 0;
      while j < C.Length1
        invariant 0 <= j <= C.Length1
        invariant forall ii, jj :: 0 <= ii < C.Length0 && 0 <= jj < C.Length1 ==>
          if ii < i || (ii == i && jj < j) then C[ii, jj] == ot[ii][jj] && T[ii, jj] == oc[ii][jj]
          else C[ii, jj] == oc[ii][jj] && T[ii, jj] == ot[ii][jj]
      {
        C[i, j], T[i, j] := T[i, j], C[i, j];
        j := j + 1;
      }
      i := i + 1;
    }
    assert forall ii :: 0 <= ii < C.Length0 ==> Entries(C)[ii] == ot[ii] && Entries(T)[ii] == oc[ii];
  }

  /** One inner product with exact integer arithmetic (fmpz_addmul). */
  method DotExact(A: array2<int>, B: array2<int>, i: nat, j: nat) returns (s: int)
    requires A.Length1 == B.Length0 && i < A.Length0 && j < B.Length1
    ensures s == Dot(Entries(A)[i], Column(Entries(B), j))
  {
    ghost var row, col := Entries(A)[i], Column(Entries(B), j);
    s := 0;
    var k := 0;
    while k < B.Length0
      invariant 0 <= k <= B.Length0
      invariant s == Dot(row[..k], col[..k])
    {
      DotStep(row, col, k);
      s := s + A[i, k] * B[k, j];
      k := k + 1;
    }
    assert row[..k] == row && col[..k] == col;
  }

  /** Every term and every prefix sum of an inner product of cbits <= 62 bits
      is an inline fmpz. */
  predicate StepsSmall(row: seq<int>, col: seq<int>)
    requires |row| == |col|
  {
    (forall k :: 0 <= k < |row| ==> Fmpz.IsSmall(row[k] * col[k]))
    && (forall k :: 0 <= k <= |row| ==> Fmpz.IsSmall(Dot(row[..k], col[..k])))
  }

  lemma WidthStepsSmall(row: seq<int>, col: seq<int>, p: nat, q: nat)
    requires |row| == |col|
    requires forall l :: 0 <= l < |row| ==> Abs(row[l]) < Pow2(p)
    requires forall l :: 0 <= l < |col| ==> Abs(col[l]) < Pow2(q)
    requires p + q + BitLength(|row|) <= Fmpz.SmallBitsMax
    ensures StepsSmall(row, col)
  {
    TermsSmall(row, col, p, q);
    PrefixesSmall(row, col, p, q);
  }

  lemma TermsSmall(row: seq<int>, col: seq<int>, p: nat, q: nat)
    requires |row| == |col|
    requires forall l :: 0 <= l < |row| ==> Abs(row[l]) < Pow2(p)
    requires forall l :: 0 <= l < |col| ==> Abs(col[l]) < Pow2(q)
    requires p + q <= Fmpz.SmallBitsMax
    ensures forall k :: 0 <= k < |row| ==> Fmpz.IsSmall(row[k] * col[k])
  {
    forall k | 0 <= k < |row|
      ensures Fmpz.IsSmall(row[k] * col[k])
    {
      TermSmall(row[k], col[k], p, q);
    }
  }

  lemma PrefixesSmall(row: seq<int>, col: seq<int>, p: nat, q: nat)
    requires |row| == |col|
    requires forall l :: 0 <= l < |row| ==> Abs(row[l]) < Pow2(p)
    requires forall l :: 0 <= l < |col| ==> Abs(col[l]) < Pow2(q)
    requires p + q + BitLength(|row|) <= Fmpz.SmallBitsMax
    ensures forall k :: 0 <= k <= |row| ==> Fmpz.IsSmall(Dot(row[..k], col[..k]))
  {
    forall k | 0 <= k <= |row|
      ensures Fmpz.IsSmall(Dot(row[..k], col[..k]))
    {
      PrefixSmall(row, col, p, q, k);
    }
  }

  lemma PrefixSmall(row: seq<int>, col: seq<int>, p: nat, q: nat, k: nat)
    requires |row| == |col| && k <= |row|
    requires forall l :: 0 <= l < |row| ==> Abs(row[l]) < Pow2(p)
    requires forall l :: 0 <= l < |col| ==> Abs(col[l]) < Pow2(q)
    requires p + q + BitLength(|row|) <= Fmpz.SmallBitsMax
    ensures Fmpz.IsSmall(Dot(row[..k], col[..k]))
  {
    PrefixBitsBound(row, col, p, q, k);
    WidthSmall(row, col, p, q, k);
  }

  lemma WidthSmall(row: seq<int>, col: seq<int>, p: nat, q: nat, k: nat)
    requires |row| == |col| && k <= |row|
    requires p + q + BitLength(|row|) <= Fmpz.SmallBitsMax
    requires Abs(Dot(row[..k], col[..k])) < Pow2(p + q + BitLength(|row|))
    ensures Fmpz.IsSmall(Dot(row[..k], col[..k]))
  {
    SmallIfBelow(Dot(row[..k], col[..k]), p + q + BitLength(|row|));
  }

  lemma TermSmall(x: int, y: int, p: nat, q: nat)
    requires Abs(x) < Pow2(p) && Abs(y) < Pow2(q) && p + q <= Fmpz.SmallBitsMax
    ensures Fmpz.IsSmall(x * y)
  {
    AbsMulBits(x, y, p, q);
    SmallIfBelow(x * y, p + q);
  }

  /** A value below 2^b, b <= 62, is an inline fmpz. */
  lemma SmallIfBelow(v: int, b: nat)
    requires Abs(v) < Pow2(b) && b <= Fmpz.SmallBitsMax
    ensures Fmpz.IsSmall(v)
  {
    Pow2Monotone(b, Fmpz.SmallBitsMax);
    Fmpz.SmallBounds();
  }

  /** One step of the one-word accumulator, s += x * y on slong: when neither
      the product nor the new partial sum leaves the inline range, wrapping
      changes nothing. */
  lemma Small1Step(d: int, t: int)
    requires Fmpz.IsSmall(t) && Fmpz.IsSmall(d + t)
    ensures WrapSigned(d + WrapSigned(t)) == d + t
  {
    WrapSignedExact(t);
    WrapSignedExact(d + t);
  }

  /** The body of the accumulation loop of _fmpz_mat_mul_small_1: one wrapping
      multiply-add keeps s equal to the prefix sum. */
  method Small1Accumulate(ghost row: seq<int>, ghost col: seq<int>, k: nat, s: int, x: int, y: int) returns (r: int)
    requires |row| == |col| && k < |row| && StepsSmall(row, col)
    requires x == row[k] && y == col[k] && s == Dot(row[..k], col[..k])
    ensures r == Dot(row[..k + 1], col[..k + 1])
  {
    DotStep(row, col, k);
    Small1Step(s, x * y);
    r := WrapSigned(s + WrapSigned(x * y));
  }

  /** The accumulation loop of _fmpz_mat_mul_small_1: a signed word that wraps
      modulo 2^64. Under the width bound no step wraps, so the word holds the
      exact inner product, and it is a valid inline fmpz. */
  method DotSmall1(A: array2<int>, B: array2<int>, i: nat, j: nat, abits: nat, bbits: nat) returns (s: int)
    requires A.Length1 == B.Length0 && i < A.Length0 && j < B.Length1
    requires ArrayFits(A, abits) && ArrayFits(B, bbits)
    requires abits + bbits + BitLength(B.Length0) <= Fmpz.SmallBitsMax
    ensures s == Dot(Entries(A)[i], Column(Entries(B), j)) && Fmpz.IsSmall(s)
  {
    ghost var row, col := Entries(A)[i], Column(Entries(B), j);
    RowColFit(A, B, i, j, abits, bbits);
    WidthStepsSmall(row, col, abits, bbits);
    s := 0;
    var k := 0;
    while k < B.Length0
      invariant 0 <= k <= B.Length0
      invariant s == Dot(row[..k], col[..k])
    {
      var x, y := A[i, k], B[k, j];
      assert x == row[k] && y == col[k];
      s := Small1Accumulate(row, col, k, s, x, y);
      k := k + 1;
    }
    assert row[..k] == row && col[..k] == col;
  }

  /** The body of the accumulation loop of _fmpz_mat_mul_small_2a: smul_ppmm
      then add_ssaaaa keeps the double word equal to the prefix sum modulo 2^128. */
  method Small2aAccumulate(ghost row: seq<int>, ghost col: seq<int>, k: nat, acc: DWord, x: int, y: int)
    returns (r: DWord)
    requires |row| == |col| && k < |row| && x == row[k] && y == col[k]
    requires IsSigned(x) && IsSigned(y) && acc == ToDWord(Dot(row[..k], col[..k]))
    ensures r == ToDWord(Dot(row[..k + 1], col[..k + 1]))
  {
    DotStep(row, col, k);
    AddSSAAAAStep(Dot(row[..k], col[..k]), x, y);
    r := AddSSAAAA(acc, SMulPPMM(x, y));
  }

  /** The body of the accumulation loop of _fmpz_mat_mul_small_2b: smul_ppmm,
      sign extension with FLINT_SIGN_EXT, then add_sssaaaaaa keeps the triple
      word equal to the prefix sum modulo 2^192. */
  method Small2bAccumulate(ghost row: seq<int>, ghost col: seq<int>, k: nat, acc: TWord, x: int, y: int)
    returns (r: TWord)
    requires |row| == |col| && k < |row| && x == row[k] && y == col[k]
    requires IsSigned(x) && IsSigned(y) && acc == ToTWord(Dot(row[..k], col[..k]))
    ensures r == ToTWord(Dot(row[..k + 1], col[..k + 1]))
  {
    DotStep(row, col, k);
    AddSSSAAAAAAStep(Dot(row[..k], col[..k]), x, y);
    var p := SMulPPMM(x, y);
    r := AddSSSAAAAAA(acc, TWord(SignExt(p.hi), p.hi, p.lo));
  }

  /** The accumulation loop of _fmpz_mat_mul_small_2a: add_ssaaaa of each
      smul_ppmm product into (shi, slo), modulo 2^128. */
  method DotSmall2a(A: array2<int>, B: array2<int>, i: nat, j: nat, abits: nat, bbits: nat) returns (acc: DWord)
    requires A.Length1 == B.Length0 && i < A.Length0 && j < B.Length1
    requires ArrayFits(A, abits) && ArrayFits(B, bbits)
    requires abits <= Fmpz.SmallBitsMax && bbits <= Fmpz.SmallBitsMax
    ensures acc == ToDWord(Dot(Entries(A)[i], Column(Entries(B), j)))
  {
    ghost var row, col := Entries(A)[i], Column(Entries(B), j);
    RowColFit(A, B, i, j, abits, bbits);
    acc := DWord(0, 0);
    var k := 0;
    while k < B.Length0
      invariant 0 <= k <= B.Length0
      invariant acc == ToDWord(Dot(row[..k], col[..k]))
    {
      var x, y := A[i, k], B[k, j];
      assert x == row[k] && y == col[k];
      SignedIfBelow(x, abits);
      SignedIfBelow(y, bbits);
      acc := Small2aAccumulate(row, col, k, acc, x, y);
      k := k + 1;
    }
    assert row[..k] == row && col[..k] == col;
  }

  /** The accumulation loop of _fmpz_mat_mul_small_2b: each smul_ppmm product
      is sign-extended with FLINT_SIGN_EXT and added into (shi, smid, slo),
      modulo 2^192. */
  method DotSmall2b(A: array2<int>, B: array2<int>, i: nat, j: nat, abits: nat, bbits: nat) returns (acc: TWord)
    requires A.Length1 == B.Length0 && i < A.Length0 && j < B.Length1
    requires ArrayFits(A, abits) && ArrayFits(B, bbits)
    requires abits <= Fmpz.SmallBitsMax && bbits <= Fmpz.SmallBitsMax
    ensures acc == ToTWord(Dot(Entries(A)[i], Column(Entries(B), j)))
  {
    ghost var row, col := Entries(A)[i], Column(Entries(B), j);
    RowColFit(A, B, i, j, abits, bbits);
    acc := TWord(0, 0, 0);
    var k := 0;
    while k < B.Length0
      invariant 0 <= k <= B.Length0
      invariant acc == ToTWord(Dot(row[..k], col[..k]))
    {
      var x, y := A[i, k], B[k, j];
      assert x == row[k] && y == col[k];
      SignedIfBelow(x, abits);
      SignedIfBelow(y, bbits);
      acc := Small2bAccumulate(row, col, k, acc, x, y);
      k := k + 1;
    }
    assert row[..k] == row && col[..k] == col;
  }

  /** Under the 2a width bound the two-word accumulator reads back exactly. */
  lemma Small2aExact(A: array2<int>, B: array2<int>, i: nat, j: nat, abits: nat, bbits: nat)
    requires A.Length1 == B.Length0 && i < A.Length0 && j < B.Length1
    requires ArrayFits(A, abits) && ArrayFits(B, bbits)
    requires abits + bbits + BitLength(B.Length0) <= 2 * FlintBits - 1
    ensures var d := Dot(Entries(A)[i], Column(Entries(B), j));
      ToDWord(d).Signed() == d
  {
    EntryDotBound(A, B, i, j, abits, bbits);
    DWordFits(Dot(Entries(A)[i], Column(Entries(B), j)), abits + bbits + BitLength(B.Length0));
  }

  /** An entry of the product of A and B has at most abits + bbits + bitlength(inner) bits. */
  lemma EntryDotBound(A: array2<int>, B: array2<int>, i: nat, j: nat, abits: nat, bbits: nat)
    requires A.Length1 == B.Length0 && i < A.Length0 && j < B.Length1
    requires ArrayFits(A, abits) && ArrayFits(B, bbits)
    ensures Abs(Dot(Entries(A)[i], Column(Entries(B), j))) < Pow2(abits + bbits + BitLength(B.Length0))
  {
    var row, col := Entries(A)[i], Column(Entries(B), j);
    RowColFit(A, B, i, j, abits, bbits);
    assert row[..B.Length0] == row && col[..B.Length0] == col;
    PrefixBitsBound(row, col, abits, bbits, B.Length0);
  }

  /** A value of at most 127 bits besides its sign reads back from a double word. */
  lemma DWordFits(v: int, k: nat)
    requires Abs(v) < Pow2(k) && k <= 127
    ensures ToDWord(v).Signed() == v
  {
    Pow2Monotone(k, 127);
    Pow2Of127();
    DWordSignedExact(v);
  }

  /** With entries of at most 62 bits and an slong inner dimension, cbits is at
      most 187, so the three-word accumulator reads back exactly. */
  lemma Small2bExact(A: array2<int>, B: array2<int>, i: nat, j: nat, abits: nat, bbits: nat)
    requires A.Length1 == B.Length0 && i < A.Length0 && j < B.Length1
    requires ArrayFits(A, abits) && ArrayFits(B, bbits)
    requires abits <= Fmpz.SmallBitsMax && bbits <= Fmpz.SmallBitsMax && B.Length0 < HalfBase
    ensures var d := Dot(Entries(A)[i], Column(Entries(B), j));
      ToTWord(d).Signed() == d
  {
    var cbits := abits + bbits + BitLength(B.Length0);
    Pow2Of63();
    Pow2Of191();
    BitLengthFits(B.Length0, 63);
    EntryDotBound(A, B, i, j, abits, bbits);
    Pow2Monotone(cbits, 191);
    TWordSignedExact(Dot(Entries(A)[i], Column(Entries(B), j)));
  }

  /** The classical triple loop with exact integer arithmetic. It stands in for
      every kernel whose body is not part of this model. */
  method MulClassical(C: array2<int>, A: array2<int>, B: array2<int>)
    requires Shapes(C, A, B) && C != A && C != B
    modifies C
    ensures Entries(C) == Product(Entries(A), Entries(B), A.Length0, A.Length1, B.Length1)
  {
    ghost var P := Product(Entries(A), Entries(B), A.Length0, A.Length1, B.Length1);
    var i := 0;
    while i < A.Length0
      invariant 0 <= i <= A.Length0
      invariant Done(C, P, i, 0)
    {
      var j := 0;
      while j < B.Length1
        invariant 0 <= j <= B.Length1
        invariant Done(C, P, i, j)
      {
        var s := DotExact(A, B, i, j);
        Store(C, P, i, j, s);
        j := j + 1;
      }
      i := i + 1;
    }
    DoneAll(C, P);
  }

  /** The inner-dimension-2 path: each entry is one fmpz_fmma,
      A[i][0] B[0][j] + A[i][1] B[1][j]. */
  method MulInner2(C: array2<int>, A: array2<int>, B: array2<int>)
    requires Shapes(C, A, B) && C != A && C != B && B.Length0 == 2
    modifies C
    ensures Entries(C) == Product(Entries(A), Entries(B), A.Length0, 2, B.Length1)
  {
    ghost var P := Product(Entries(A), Entries(B), A.Length0, A.Length1, B.Length1);
    var i := 0;
    while i < A.Length0
      invariant 0 <= i <= A.Length0
      invariant Done(C, P, i, 0)
    {
      var j := 0;
      while j < B.Length1
        invariant 0 <= j <= B.Length1
        invariant Done(C, P, i, j)
      {
        DotTwo(Entries(A)[i], Column(Entries(B), j));
        Store(C, P, i, j, A[i, 0] * B[0, j] + A[i, 1] * B[1, j]);
        j := j + 1;
      }
      i := i + 1;
    }
    DoneAll(C, P);
  }

  /** _fmpz_mat_mul_small_1: C is zeroed, then each entry is stored raw as the
      one-word inner product. */
  method MulSmall1(C: array2<int>, A: array2<int>, B: array2<int>, abits: nat, bbits: nat)
    requires Shapes(C, A, B) && C != A && C != B
    requires ArrayFits(A, abits) && ArrayFits(B, bbits)
    requires abits + bbits + BitLength(B.Length0) <= Fmpz.SmallBitsMax
    modifies C
    ensures Entries(C) == Product(Entries(A), Entries(B), A.Length0, A.Length1, B.Length1)
  {
    ghost var P := Product(Entries(A), Entries(B), A.Length0, A.Length1, B.Length1);
    MatZero(C);
    var i := 0;
    while i < A.Length0
      invariant 0 <= i <= A.Length0
      invariant Done(C, P, i, 0)
    {
      var j := 0;
      while j < B.Length1
        invariant 0 <= j <= B.Length1
        invariant Done(C, P, i, j)
      {
        var s := DotSmall1(A, B, i, j, abits, bbits);
        Store(C, P, i, j, s);
        j := j + 1;
      }
      i := i + 1;
    }
    DoneAll(C, P);
  }

  /** _fmpz_mat_mul_small_2a: each entry is fmpz_set_signed_uiui of the
      two-word accumulator. */
  method MulSmall2a(C: array2<int>, A: array2<int>, B: array2<int>, abits: nat, bbits: nat)
    requires Shapes(C, A, B) && C != A && C != B
    requires ArrayFits(A, abits) && ArrayFits(B, bbits)
    requires abits <= Fmpz.SmallBitsMax && bbits <= Fmpz.SmallBitsMax
    requires abits + bbits + BitLength(B.Length0) <= 2 * FlintBits - 1
    modifies C
    ensures Entries(C) == Product(Entries(A), Entries(B), A.Length0, A.Length1, B.Length1)
  {
    ghost var P := Product(Entries(A), Entries(B), A.Length0, A.Length1, B.Length1);
    var i := 0;
    while i < A.Length0
      invariant 0 <= i <= A.Length0
      invariant Done(C, P, i, 0)
    {
      var j := 0;
      while j < B.Length1
        invariant 0 <= j <= B.Length1
        invariant Done(C, P, i, j)
      {
        var acc := DotSmall2a(A, B, i, j, abits, bbits);
        Small2aExact(A, B, i, j, abits, bbits);
        Store(C, P, i, j, acc.Signed());
        j := j + 1;
      }
      i := i + 1;
    }
    DoneAll(C, P);
  }

  /** _fmpz_mat_mul_small_2b: each entry is fmpz_set_signed_uiuiui of the
      three-word accumulator. */
  method MulSmall2b(C: array2<int>, A: array2<int>, B: array2<int>, abits: nat, bbits: nat)
    requires Shapes(C, A, B) && C != A && C != B
    requires ArrayFits(A, abits) && ArrayFits(B, bbits)
    requires abits <= Fmpz.SmallBitsMax && bbits <= Fmpz.SmallBitsMax
    requires B.Length0 < HalfBase
    modifies C
    ensures Entries(C) == Product(Entries(A), Entries(B), A.Length0, A.Length1, B.Length1)
  {
    ghost var P := Product(Entries(A), Entries(B), A.Length0, A.Length1, B.Length1);
    var i := 0;
    while i < A.Length0
      invariant 0 <= i <= A.Length0
      invariant Done(C, P, i, 0)
    {
      var j := 0;
      while j < B.Length1
        invariant 0 <= j <= B.Length1
        invariant Done(C, P, i, j)
      {
        var acc := DotSmall2b(A, B, i, j, abits, bbits);
        Small2bExact(A, B, i, j, abits, bbits);
        Store(C, P, i, j, acc.Signed());
        j := j + 1;
      }
      i := i + 1;
    }
    DoneAll(C, P);
  }

  /** The kernels fmpz_mat_mul can hand the product to. */
  datatype Kernel =
    | MatZeroKernel      // fmpz_mat_zero
    | Classical          // fmpz_mat_mul_classical
    | Inner2             // the fmpz_fmma loop for inner dimension 2
    | Small1             // _fmpz_mat_mul_small_1
    | Small2a            // _fmpz_mat_mul_small_2a
    | Small2b            // _fmpz_mat_mul_small_2b
    | SmallInternal      // _fmpz_mat_mul_small_internal
    | Strassen           // fmpz_mat_mul_strassen
    | MultiMod           // _fmpz_mat_mul_multi_mod
    | DoubleWord         // _fmpz_mat_mul_double_word_internal
    | Waksman            // fmpz_mat_mul_waksman

  /** The width bound on the entries of C: abits + bbits + bitcount(br). */
  function Cbits(abits: nat, bbits: nat, br: nat): nat
  {
    abits + bbits + BitLength(br)
  }

  /** The double-word threshold (cbits - 2 FLINT_BITS)/8, squared and scaled by
      the thread count. cbits is unsigned, so for cbits < 128 the subtraction
      wraps; the slong products wrap as well. */
  function DoubleWordLimit(cbits: nat, threads: int): int
  {
    var l := ToSigned(ToWord(cbits - 2 * FlintBits) / 8);
    WrapSigned(WrapSigned(l * l) * threads)
  }

  /** For cbits >= 128 the threshold is the intended ((cbits - 128)/8)^2 threads. */
  lemma DoubleWordLimitExact(cbits: nat, threads: int)
    requires 128 <= cbits <= 400 && 1 <= threads < 0x8000_0000
    ensures DoubleWordLimit(cbits, threads) == ((cbits - 128) / 8) * ((cbits - 128) / 8) * threads
  {
    var l := (cbits - 128) / 8;
    DivModSmall(cbits - 128, WordBase);
    assert 0 <= l <= 34;
    assert ToSigned(ToWord(cbits - 128) / 8) == l;
    MulMonotone(l, 34, l);
    MulMonotone(l, 34, 34);
    WrapSignedExact(l * l);
    MulMonotone(l * l, 34 * 34, threads);
    MulMonotone(threads, 0x8000_0000, 34 * 34);
    WrapSignedExact(l * l * threads);
  }

  /** For cbits < 128 the threshold wraps: with cbits = 66 it is 64 threads,
      not 0, so the double-word kernel is kept up to dim 364 on one thread. */
  lemma DoubleWordLimitWraps()
    ensures DoubleWordLimit(66, 1) == 64
  {
    var w := ToWord(66 - 128);
    DivAddMultiple(-62, 1, WordBase);
    DivModSmall(WordBase - 62, WordBase);
    assert w == 0xFFFF_FFFF_FFFF_FFC2;
    var l := w / 8;
    DivModUnique(w, 8, 0x1FFF_FFFF_FFFF_FFF8, 2);
    assert ToSigned(l) == 0x1FFF_FFFF_FFFF_FFF8;
    var sq := 0x1FFF_FFFF_FFFF_FFF8 * 0x1FFF_FFFF_FFFF_FFF8;
    DivModUnique(sq, WordBase, 0x3FF_FFFF_FFFF_FFFE, 64);
    WrapSignedExact(64);
  }

  /** The branch tree of fmpz_mat_mul after the alias guard, with the BLAS
      branch compiled out. amax and bmax are fmpz_mat_max_bits of A and B. */
  function Select(ar: nat, br: nat, bc: nat, amax: int, bmax: int, threads: int): (k: Kernel)
    ensures k == MatZeroKernel ==> ar == 0 || br == 0 || bc == 0 || amax == 0 || bmax == 0
    ensures k == Inner2 ==> br == 2
    ensures k == Small1 ==>
      Cbits(Abs(amax), Abs(bmax), br) <= Fmpz.SmallBitsMax
    ensures k == Small2a ==>
      Abs(amax) <= Fmpz.SmallBitsMax && Abs(bmax) <= Fmpz.SmallBitsMax &&
      Cbits(Abs(amax), Abs(bmax), br) <= 2 * FlintBits - 1
    ensures k == Small2b ==>
      Abs(amax) <= Fmpz.SmallBitsMax && Abs(bmax) <= Fmpz.SmallBitsMax
    ensures k == DoubleWord ==>
      Abs(amax) + (if amax < 0 || bmax < 0 then 1 else 0) <= 2 * FlintBits &&
      Abs(bmax) + (if amax < 0 || bmax < 0 then 1 else 0) <= 2 * FlintBits
  {
    if ar == 0 || br == 0 || bc == 0 then MatZeroKernel
    else if br == 1 then Classical
    else if br == 2 then Inner2
    else
      var dim := if ar < bc then ar else bc;
      var dim := if dim < br then dim else br;
      var sign := if amax < 0 || bmax < 0 then 1 else 0;
      var abits, bbits := Abs(amax), Abs(bmax);
      if abits == 0 || bbits == 0 then MatZeroKernel
      else
        var cbits := Cbits(abits, bbits, br);
        if abits <= Fmpz.SmallBitsMax && bbits <= Fmpz.SmallBitsMax then
          if ar < 9 || ar + br < 20 then
            if cbits <= Fmpz.SmallBitsMax then Small1
            else if cbits <= 2 * FlintBits - 1 then Small2a
            else Small2b
          else if dim > 1000 && cbits <= Fmpz.SmallBitsMax && dim - 1000 > 300 * threads then Strassen
          else if dim > 1000 && cbits > Fmpz.SmallBitsMax && dim - 4000 > 300 * threads then MultiMod
          else SmallInternal
        else if abits + sign <= 2 * FlintBits && bbits + sign <= 2 * FlintBits then
          var dim := if sign == 1 then 2 * dim else dim;
          if dim > 300 && dim - 300 > DoubleWordLimit(cbits, threads) then MultiMod
          else DoubleWord
        else
          var minBits := if abits < bbits then abits else bbits;
          var maxBits := if abits < bbits then bbits else abits;
          if dim >= 3 * BitLength(cbits) then MultiMod
          else if dim < 20 &&
            ((dim == 2 && minBits >= 5000 && 10 * maxBits <= 11 * minBits) ||
             (5 * maxBits <= 8 * minBits &&
              ((dim == 3 && minBits >= 3000) || (dim >= 4 && minBits >= 1000) || (dim >= 12 && minBits >= 500))))
          then Waksman
          else if abits >= 500 && bbits >= 500 && dim >= 8 then Strassen
          else Classical
  }

  /** The small-entry kernels are chosen exactly when both operands have
      nonzero entries of at most SMALL_FMPZ_BITCOUNT_MAX bits, the inner
      dimension is at least 3 and the matrix is small; among them the
      narrowest accumulator that holds cbits bits is used. */
  lemma SelectSmallKernels(ar: nat, br: nat, bc: nat, amax: int, bmax: int, threads: int)
    requires ar > 0 && bc > 0
    ensures var k := Select(ar, br, bc, amax, bmax, threads);
      (k == Small1 || k == Small2a || k == Small2b) <==>
        (br >= 3 && 1 <= Abs(amax) <= Fmpz.SmallBitsMax && 1 <= Abs(bmax) <= Fmpz.SmallBitsMax &&
         (ar < 9 || ar + br < 20))
    ensures var k := Select(ar, br, bc, amax, bmax, threads);
      k == Small1 <==>
        (br >= 3 && 1 <= Abs(amax) <= Fmpz.SmallBitsMax && 1 <= Abs(bmax) <= Fmpz.SmallBitsMax &&
         (ar < 9 || ar + br < 20) && Cbits(Abs(amax), Abs(bmax), br) <= Fmpz.SmallBitsMax)
  {
  }

  /** Whenever a small-entry kernel is selected for A and B, every entry of
      the product fits that kernel's accumulator: below 2^62 for one word,
      2^127 for two and 2^191 for three. */
  lemma KernelWidthSafe(ga: Grid, gb: Grid, ar: nat, br: nat, bc: nat, threads: int, i: nat, j: nat)
    requires IsMatrix(ga, ar, br) && IsMatrix(gb, br, bc) && br < HalfBase
    requires i < ar && j < bc
    ensures var k := Select(ar, br, bc, MaxBits(ga), MaxBits(gb), threads);
      var d := Dot(ga[i], Column(gb, j));
      (k == Small1 ==> Abs(d) < Pow2(Fmpz.SmallBitsMax)) &&
      (k == Small2a ==> Abs(d) < Pow2(2 * FlintBits - 1)) &&
      (k == Small2b ==> Abs(d) < Pow2(3 * FlintBits - 1))
  {
    var k := Select(ar, br, bc, MaxBits(ga), MaxBits(gb), threads);
    var p, q := Abs(MaxBits(ga)), Abs(MaxBits(gb));
    if k == Small1 {
      EntryWidth(ga, gb, ar, br, bc, i, j, Fmpz.SmallBitsMax);
    } else if k == Small2a {
      EntryWidth(ga, gb, ar, br, bc, i, j, 2 * FlintBits - 1);
    } else if k == Small2b {
      Pow2Of63();
      BitLengthFits(br, 63);
      EntryWidth(ga, gb, ar, br, bc, i, j, 3 * FlintBits - 1);
    }
  }

  /** An entry of the product is below 2^w once cbits <= w. */
  lemma EntryWidth(ga: Grid, gb: Grid, ar: nat, br: nat, bc: nat, i: nat, j: nat, w: nat)
    requires IsMatrix(ga, ar, br) && IsMatrix(gb, br, bc) && i < ar && j < bc
    requires Cbits(Abs(MaxBits(ga)), Abs(MaxBits(gb)), br) <= w
    ensures Abs(Dot(ga[i], Column(gb, j))) < Pow2(w)
  {
    var p, q := Abs(MaxBits(ga)), Abs(MaxBits(gb));
    MaxBitsMeaning(ga);
    MaxBitsMeaning(gb);
    var row, col := ga[i], Column(gb, j);
    assert forall l :: 0 <= l < br ==> Abs(row[l]) < Pow2(p);
    assert forall l :: 0 <= l < br ==> Abs(col[l]) < Pow2(q);
    assert row[..br] == row && col[..br] == col;
    PrefixBitsBound(row, col, p, q, br);
    Pow2Monotone(Cbits(p, q, br), w);
  }

  /** fmpz_mat_mul once C is known to be distinct from A and B and all
      dimensions are nonzero: pick the kernel and run it. */
  method MulDistinct(C: array2<int>, A: array2<int>, B: array2<int>, threads: int)
    requires Shapes(C, A, B) && C != A && C != B
    requires A.Length0 > 0 && B.Length0 > 0 && B.Length1 > 0 && B.Length0 < HalfBase
    modifies C
    ensures Entries(C) == Product(Entries(A), Entries(B), A.Length0, A.Length1, B.Length1)
  {
    var ar, br, bc := A.Length0, B.Length0, B.Length1;
    var amax := MaxBits(Entries(A));
    var bmax := MaxBits(Entries(B));
    MaxBitsMeaning(Entries(A));
    MaxBitsMeaning(Entries(B));
    FitsOfEntries(A, Abs(amax));
    FitsOfEntries(B, Abs(bmax));
    var kernel := Select(ar, br, bc, amax, bmax, threads);
    match kernel
    case MatZeroKernel =>
      ProductOfZero(Entries(A), Entries(B), ar, br, bc);
      MatZero(C);
    case Inner2 =>
      MulInner2(C, A, B);
    case Small1 =>
      MulSmall1(C, A, B, Abs(amax), Abs(bmax));
    case Small2a =>
      MulSmall2a(C, A, B, Abs(amax), Abs(bmax));
    case Small2b =>
      MulSmall2b(C, A, B, Abs(amax), Abs(bmax));
    case _ =>
      MulClassical(C, A, B);
  }

  /** fmpz_mat_mul: C = A B. An empty dimension zeroes C; when C is A or B
      the product is formed in a fresh temporary whose entries are then
      swapped into C. */
  method Mul(C: array2<int>, A: array2<int>, B: array2<int>, threads: int)
    requires Shapes(C, A, B) && B.Length0 < HalfBase
    modifies C
    ensures Entries(C) == Product(old(Entries(A)), old(Entries(B)), A.Length0, A.Length1, B.Length1)
    decreases if C == A || C == B then 1 else 0
  {
    var ar, br, bc := A.Length0, B.Length0, B.Length1;
    if ar == 0 || br == 0 || bc == 0 {
      ProductWhenEmpty(Entries(A), Entries(B), ar, br, bc);
      MatZero(C);
      return;
    }
    if C == A || C == B {
      var T := new int[ar, bc];
      Mul(T, A, B, threads);
      SwapEntrywise(C, T);
      return;
    }
    MulDistinct(C, A, B, threads);
  }
}
