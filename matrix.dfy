/** Integer matrices as sequences of rows, the exact product they should
    multiply to, and the entry bit widths that drive kernel selection in
    fmpz_mat_mul. */
module Matrix {
  import opened Arith

  type Grid = seq<seq<int>>

  /** m has r rows of c entries each. */
  predicate IsMatrix(m: Grid, r: nat, c: nat)
  {
    |m| == r && forall i :: 0 <= i < r ==> |m[i]| == c
  }

  /** Column j of m. */
  function Column(m: Grid, j: nat): (col: seq<int>)
    requires forall i :: 0 <= i < |m| ==> j < |m[i]|
    ensures |col| == |m| && forall i :: 0 <= i < |m| ==> col[i] == m[i][j]
  {
    seq(|m|, i requires 0 <= i < |m| => m[i][j])
  }

  /** Inner product of a row and a column, summed in index order. */
  function Dot(row: seq<int>, col: seq<int>): int
    requires |row| == |col|
  {
    if |row| == 0 then 0
    else Dot(row[..|row| - 1], col[..|col| - 1]) + row[|row| - 1] * col[|col| - 1]
  }

  /** The exact product of an ar-by-br and a br-by-bc matrix. */
  function Product(a: Grid, b: Grid, ar: nat, br: nat, bc: nat): (c: Grid)
    requires IsMatrix(a, ar, br) && IsMatrix(b, br, bc)
    ensures IsMatrix(c, ar, bc)
  {
    seq(ar, i requires 0 <= i < ar => seq(bc, j requires 0 <= j < bc => Dot(a[i], Column(b, j))))
  }

  function Zero(r: nat, c: nat): (z: Grid)
    ensures IsMatrix(z, r, c) && forall i, j :: 0 <= i < r && 0 <= j < c ==> z[i][j] == 0
  {
    seq(r, i => seq(c, j => 0))
  }

  predicate IsZero(m: Grid)
  {
    forall i, j :: 0 <= i < |m| && 0 <= j < |m[i]| ==> m[i][j] == 0
  }

  /** Every entry of m is below 2^b in absolute value. */
  predicate FitsBits(m: Grid, b: nat)
  {
    forall i, j :: 0 <= i < |m| && 0 <= j < |m[i]| ==> Abs(m[i][j]) < Pow2(b)
  }

  /** The largest bit length of an entry in a row. */
  function RowMagBits(row: seq<int>): nat
  {
    if |row| == 0 then 0
    else
      var last := BitLength(Abs(row[|row| - 1]));
      var rest := RowMagBits(row[..|row| - 1]);
      if last > rest then last else rest
  }

  /** The largest bit length of an entry of m. */
  function MagBits(m: Grid): nat
  {
    if |m| == 0 then 0
    else
      var last := RowMagBits(m[|m| - 1]);
      var rest := MagBits(m[..|m| - 1]);
      if last > rest then last else rest
  }

  predicate HasNegative(m: Grid)
  {
    exists i, j :: 0 <= i < |m| && 0 <= j < |m[i]| && m[i][j] < 0
  }

  /** fmpz_mat_max_bits: the largest entry bit length, negated when some
      entry is negative. */
  function MaxBits(m: Grid): int
  {
    if HasNegative(m) then -(MagBits(m) as int) else MagBits(m)
  }

  lemma {:induction false} RowMagBitsBound(row: seq<int>)
    ensures forall j :: 0 <= j < |row| ==> Abs(row[j]) < Pow2(RowMagBits(row))
    ensures RowMagBits(row) == 0 <==> forall j :: 0 <= j < |row| ==> row[j] == 0
  {
    if |row| > 0 {
      var n := |row| - 1;
      RowMagBitsBound(row[..n]);
      var last := BitLength(Abs(row[n]));
      BitLengthBounds(Abs(row[n]));
      forall j | 0 <= j < |row|
        ensures Abs(row[j]) < Pow2(RowMagBits(row))
      {
        if j < n {
          assert row[j] == row[..n][j];
          Pow2Monotone(RowMagBits(row[..n]), RowMagBits(row));
        } else {
          Pow2Monotone(last, RowMagBits(row));
        }
      }
      if RowMagBits(row) == 0 {
        forall j | 0 <= j < |row|
          ensures row[j] == 0
        {
          if j < n {
            assert row[j] == row[..n][j];
          }
        }
      }
      if forall j :: 0 <= j < |row| ==> row[j] == 0 {
        assert forall j :: 0 <= j < n ==> row[..n][j] == 0;
      }
    }
  }

  /** Every entry of m is below 2^MagBits(m) in absolute value, and MagBits(m)
      is zero exactly for the zero matrix. */
  lemma {:induction false} MagBitsBound(m: Grid)
    ensures FitsBits(m, MagBits(m))
    ensures MagBits(m) == 0 <==> IsZero(m)
  {
    if |m| > 0 {
      var n := |m| - 1;
      MagBitsBound(m[..n]);
      RowMagBitsBound(m[n]);
      forall i, j | 0 <= i < |m| && 0 <= j < |m[i]|
        ensures Abs(m[i][j]) < Pow2(MagBits(m))
      {
        if i < n {
          assert m[i] == m[..n][i];
          Pow2Monotone(MagBits(m[..n]), MagBits(m));
        } else {
          Pow2Monotone(RowMagBits(m[n]), MagBits(m));
        }
      }
      if MagBits(m) == 0 {
        forall i, j | 0 <= i < |m| && 0 <= j < |m[i]|
          ensures m[i][j] == 0
        {
          if i < n {
            assert m[i] == m[..n][i];
          }
        }
      }
      if IsZero(m) {
        assert forall i :: 0 <= i < n ==> m[..n][i] == m[i];
      }
    }
  }

  /** The magnitude of fmpz_mat_max_bits bounds every entry; it is zero only
      for the zero matrix and negative exactly when some entry is negative. */
  lemma MaxBitsMeaning(m: Grid)
    ensures FitsBits(m, Abs(MaxBits(m)))
    ensures MaxBits(m) == 0 <==> IsZero(m)
    ensures MaxBits(m) < 0 <==> HasNegative(m)
  {
    MagBitsBound(m);
    if HasNegative(m) {
      var i, j :| 0 <= i < |m| && 0 <= j < |m[i]| && m[i][j] < 0;
      assert !IsZero(m);
    }
  }

  lemma AbsMul(x: int, y: int)
    ensures Abs(x * y) == Abs(x) * Abs(y)
  {
    if x < 0 && y < 0 {
      assert x * y == (-x) * (-y);
    } else if x < 0 {
      assert x * y == -((-x) * y);
    } else if y < 0 {
      assert x * y == -(x * (-y));
    }
  }

  lemma AbsMulBound(x: int, y: int, p: nat, q: nat)
    requires Abs(x) < Pow2(p) && Abs(y) < Pow2(q)
    ensures Abs(x * y) <= (Pow2(p) - 1) * (Pow2(q) - 1)
  {
    AbsMul(x, y);
    ProductAtMost(Abs(x), Abs(y), Pow2(p) - 1, Pow2(q) - 1);
  }

  /** A product of a p-bit and a q-bit magnitude has fewer than p + q bits. */
  lemma AbsMulBits(x: int, y: int, p: nat, q: nat)
    requires Abs(x) < Pow2(p) && Abs(y) < Pow2(q)
    ensures Abs(x * y) < Pow2(p + q)
  {
    var bigP, bigQ := Pow2(p), Pow2(q);
    AbsMulBound(x, y, p, q);
    Pow2Add(p, q);
    assert bigP * bigQ - (bigP - 1) * (bigQ - 1) == bigP + bigQ - 1;
  }

  lemma ProductAtMost(a: nat, b: nat, bigA: nat, bigB: nat)
    requires a <= bigA && b <= bigB
    ensures a * b <= bigA * bigB
  {
    MulMonotone(a, bigA, b);
    MulMonotone(b, bigB, bigA);
    assert b * bigA == bigA * b;
  }

  lemma AddBound(u: int, v: int, n: nat, e: int)
    requires Abs(u) <= n * e && Abs(v) <= e
    ensures Abs(u + v) <= (n + 1) * e
  {
    assert (n + 1) * e == n * e + e;
  }

  /** Each of k terms is at most (2^p - 1)(2^q - 1) in absolute value. */
  lemma {:induction false} DotBound(row: seq<int>, col: seq<int>, p: nat, q: nat)
    requires |row| == |col|
    requires forall l :: 0 <= l < |row| ==> Abs(row[l]) < Pow2(p)
    requires forall l :: 0 <= l < |col| ==> Abs(col[l]) < Pow2(q)
    ensures Abs(Dot(row, col)) <= |row| * ((Pow2(p) - 1) * (Pow2(q) - 1))
  {
    var e := (Pow2(p) - 1) * (Pow2(q) - 1);
    if |row| == 0 {
      assert Dot(row, col) == 0;
    } else {
      var n := |row| - 1;
      DotBound(row[..n], col[..n], p, q);
      AbsMulBound(row[n], col[n], p, q);
      AddBound(Dot(row[..n], col[..n]), row[n] * col[n], n, e);
    }
  }

  /** The bound behind cbits = abits + bbits + bitcount(br): an inner product of
      at most br terms with entries below 2^abits and 2^bbits is below 2^cbits. */
  lemma DotBitsBound(row: seq<int>, col: seq<int>, p: nat, q: nat, br: nat)
    requires |row| == |col| <= br
    requires forall l :: 0 <= l < |row| ==> Abs(row[l]) < Pow2(p)
    requires forall l :: 0 <= l < |col| ==> Abs(col[l]) < Pow2(q)
    ensures Abs(Dot(row, col)) < Pow2(p + q + BitLength(br))
  {
    DotBound(row, col, p, q);
    Pow2Add(p, q);
    Pow2Add(p + q, BitLength(br));
    BitLengthBounds(br);
    CountTimesTermBound(|row|, Pow2(BitLength(br)), Pow2(p), Pow2(q));
  }

  /** k < K terms each at most (P - 1)(Q - 1) sum to less than K P Q. */
  lemma CountTimesTermBound(k: nat, bigK: nat, bigP: nat, bigQ: nat)
    requires k < bigK && bigP >= 1 && bigQ >= 1
    ensures k * ((bigP - 1) * (bigQ - 1)) < (bigP * bigQ) * bigK
  {
    var e := (bigP - 1) * (bigQ - 1);
    assert e < bigP * bigQ by {
      assert bigP * bigQ - e == bigP + bigQ - 1;
    }
    MulMonotone(k, bigK, e);
    MulStrictMonotone(e, bigP * bigQ, bigK);
    assert bigK * e == e * bigK;
  }

  lemma {:induction false} DotZeroRow(row: seq<int>, col: seq<int>)
    requires |row| == |col|
    requires (forall l :: 0 <= l < |row| ==> row[l] == 0) || (forall l :: 0 <= l < |col| ==> col[l] == 0)
    ensures Dot(row, col) == 0
  {
    if |row| > 0 {
      var n := |row| - 1;
      assert forall l :: 0 <= l < n ==> row[..n][l] == row[l] && col[..n][l] == col[l];
      DotZeroRow(row[..n], col[..n]);
    }
  }

  /** A zero factor gives the zero product. */
  lemma ProductOfZero(a: Grid, b: Grid, ar: nat, br: nat, bc: nat)
    requires IsMatrix(a, ar, br) && IsMatrix(b, br, bc)
    requires IsZero(a) || IsZero(b)
    ensures Product(a, b, ar, br, bc) == Zero(ar, bc)
  {
    var c := Product(a, b, ar, br, bc);
    forall i, j | 0 <= i < ar && 0 <= j < bc
      ensures c[i][j] == 0
    {
      DotZeroRow(a[i], Column(b, j));
    }
    assert forall i :: 0 <= i < ar ==> c[i] == Zero(ar, bc)[i];
  }

  /** With no inner dimension every entry of the product is an empty sum. */
  lemma ProductEmptyInner(a: Grid, b: Grid, ar: nat, bc: nat)
    requires IsMatrix(a, ar, 0) && IsMatrix(b, 0, bc)
    ensures Product(a, b, ar, 0, bc) == Zero(ar, bc)
  {
    var c := Product(a, b, ar, 0, bc);
    assert forall i :: 0 <= i < ar ==> c[i] == Zero(ar, bc)[i];
  }

  /** Inner dimension two: the entry is a[i][0] b[0][j] + a[i][1] b[1][j]. */
  lemma DotTwo(row: seq<int>, col: seq<int>)
    requires |row| == |col| == 2
    ensures Dot(row, col) == row[0] * col[0] + row[1] * col[1]
  {
    var r1, c1 := row[..1], col[..1];
    assert r1[..0] == [] && c1[..0] == [];
    assert Dot(r1, c1) == Dot([], []) + r1[0] * c1[0];
    assert Dot(row, col) == Dot(r1, c1) + row[1] * col[1];
  }

  /** Extending a prefix sum by one term. */
  lemma DotStep(row: seq<int>, col: seq<int>, k: nat)
    requires |row| == |col| && k < |row|
    ensures Dot(row[..k + 1], col[..k + 1]) == Dot(row[..k], col[..k]) + row[k] * col[k]
  {
    assert row[..k + 1][..k] == row[..k];
    assert col[..k + 1][..k] == col[..k];
  }

  /** The bound of DotBitsBound for every prefix of a row and a column. */
  lemma PrefixBitsBound(row: seq<int>, col: seq<int>, p: nat, q: nat, k: nat)
    requires |row| == |col| && k <= |row|
    requires forall l :: 0 <= l < |row| ==> Abs(row[l]) < Pow2(p)
    requires forall l :: 0 <= l < |col| ==> Abs(col[l]) < Pow2(q)
    ensures Abs(Dot(row[..k], col[..k])) < Pow2(p + q + BitLength(|row|))
  {
    DotBitsBound(row[..k], col[..k], p, q, |row|);
  }

  /** An empty dimension gives the all-zero product. */
  lemma ProductWhenEmpty(a: Grid, b: Grid, ar: nat, br: nat, bc: nat)
    requires IsMatrix(a, ar, br) && IsMatrix(b, br, bc)
    requires ar == 0 || br == 0 || bc == 0
    ensures Product(a, b, ar, br, bc) == Zero(ar, bc)
  {
    var c := Product(a, b, ar, br, bc);
    assert forall i :: 0 <= i < ar ==> c[i] == Zero(ar, bc)[i];
  }
}
