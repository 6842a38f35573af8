/** In-place limb-buffer primitives from mpn_extras.h and GMP that the core
    calls: zeroing, copying, one's complement, adding one, and stripping zero
    top limbs. Their effect on values is stated through Limbs.Value. */
module Mpn {
  import opened Arith
  import opened Words
  import opened Limbs

  /** flint_mpn_zero: clear dst[0..n). */
  method ZeroLimbs(dst: array<Word>, n: nat)
    requires n <= dst.Length
    modifies dst
    ensures dst[..n] == Zeros(n) && dst[n..] == old(dst[n..])
  {
    var i := 0;
    while i < n
      invariant 0 <= i <= n
      invariant dst[..i] == Zeros(i) && dst[n..] == old(dst[n..])
    {
      dst[i] := 0;
      i := i + 1;
    }
  }

  /** flint_mpn_copyi: write src into dst from offset off on. */
  method CopyLimbs(dst: array<Word>, off: nat, src: seq<Word>)
    requires off + |src| <= dst.Length
    modifies dst
    ensures dst[..off] == old(dst[..off]) && dst[off..off + |src|] == src
    ensures dst[off + |src|..] == old(dst[off + |src|..])
  {
    var i := 0;
    while i < |src|
      invariant 0 <= i <= |src|
      invariant dst[..off] == old(dst[..off]) && dst[off..off + i] == src[..i]
      invariant dst[off + |src|..] == old(dst[off + |src|..])
    {
      dst[off + i] := src[i];
      i := i + 1;
    }
  }

  /** mpn_com: the bitwise complement of every limb. */
  function Com(s: seq<Word>): (r: seq<Word>)
    ensures |r| == |s|
  {
    seq(|s|, i requires 0 <= i < |s| => WordBase - 1 - s[i])
  }

  /** The complement of an n-limb value v is B^n - 1 - v. */
  lemma {:induction false} ComValue(s: seq<Word>)
    ensures Value(Com(s)) == LimbPow(|s|) - 1 - Value(s)
  {
    LimbPowStep(0);
    if |s| > 0 {
      assert Com(s)[1..] == Com(s[1..]);
      ComValue(s[1..]);
      LimbPowStep(|s| - 1);
    }
  }

  /** mpn_add_1 with addend 1, the carry out dropped: the n limbs of v + 1. */
  function Add1(s: seq<Word>): (r: seq<Word>)
    ensures |r| == |s|
  {
    FromNat(Value(s) + 1, |s|)
  }

  /** Adding one to an n-limb value that is below B^n - 1 is exact. */
  lemma Add1Exact(s: seq<Word>)
    requires Value(s) + 1 < LimbPow(|s|)
    ensures Value(Add1(s)) == Value(s) + 1
  {
    FromNatExact(Value(s) + 1, |s|);
  }

  /** mpn_com(p, p, n) over the whole buffer. */
  method ComInPlace(p: array<Word>)
    modifies p
    ensures p[..] == Com(old(p[..]))
    ensures Value(p[..]) == LimbPow(p.Length) - 1 - old(Value(p[..]))
  {
    ComValue(p[..]);
    CopyLimbs(p, 0, Com(p[..]));
    assert p[..] == p[0..p.Length];
  }

  /** mpn_add_1(p, p, n, 1) over the whole buffer, when it does not carry out. */
  method AddOneInPlace(p: array<Word>)
    requires Value(p[..]) + 1 < LimbPow(p.Length)
    modifies p
    ensures Value(p[..]) == old(Value(p[..])) + 1
  {
    Add1Exact(p[..]);
    CopyLimbs(p, 0, Add1(p[..]));
    assert p[..] == p[0..p.Length];
  }

  /** s with its top limb replaced by w: the effect of a store to p[l - 1]. */
  function SetTop(s: seq<Word>, w: Word): (r: seq<Word>)
    requires |s| >= 1
    ensures |r| == |s| && r[..|s| - 1] == s[..|s| - 1] && r[|s| - 1] == w
  {
    s[..|s| - 1] + [w]
  }

  lemma ValueSetTop(s: seq<Word>, w: Word)
    requires |s| >= 1
    ensures Value(SetTop(s, w)) == Value(s[..|s| - 1]) + LimbPow(|s| - 1) * w
  {
    ValueAppend(s[..|s| - 1], [w]);
    ValueSingle(w);
  }

  /** `while (l && p[l - 1] == 0) l--`: the normalised length of p[0..n). */
  method NormalizeLength(p: array<Word>, n: nat) returns (l: nat)
    requires n <= p.Length
    ensures l <= n && Normalized(p[..l]) && Value(p[..l]) == Value(p[..n])
    ensures p[..l] == Normalize(p[..n])
  {
    l := n;
    while l > 0 && p[l - 1] == 0
      invariant l <= n && Value(p[..l]) == Value(p[..n])
      invariant Normalize(p[..l]) == Normalize(p[..n])
    {
      assert p[..l][..l - 1] == p[..l - 1];
      ValueDropZero(p[..l]);
      l := l - 1;
    }
  }
}
