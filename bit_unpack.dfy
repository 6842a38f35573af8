/** fmpz_bit_unpack and fmpz_bit_unpack_unsigned: read the bit field of `bits`
    bits that starts at bit `shift` of a packed limb array as an fmpz. The
    signed variant reads the field in two's complement, adds an optional
    borrow, negates on request and reports whether the field was negative. */
module BitUnpack {
  import opened Arith
  import opened Words
  import opened Limbs
  import opened Fmpz
  import opened Mpn

  /** Limbs the field touches: (shift + bits) / FLINT_BITS whole limbs, and
      one more when rem_bits spill into the next limb. */
  function Span(shift: nat, bits: nat): nat
  {
    (shift + bits) / FlintBits + (if (shift + bits) % FlintBits != 0 then 1 else 0)
  }

  /** The unsigned field: bits shift .. shift + bits - 1 of the array's value. */
  function Field(arr: seq<Word>, shift: nat, bits: nat): (f: nat)
    ensures f < Pow2(bits)
  {
    (Value(arr) / Pow2(shift)) % Pow2(bits)
  }

  /** The field read as a bits-bit two's-complement number. */
  function SignedField(arr: seq<Word>, shift: nat, bits: nat): int
    requires bits >= 1
  {
    var f := Field(arr, shift, bits);
    if f >= Pow2(bits - 1) then f - Pow2(bits) else f
  }

  /** The value fmpz_bit_unpack leaves in coeff: the signed field, plus one
      when borrow is set, negated when negate is set. */
  function Unpacked(arr: seq<Word>, shift: nat, bits: nat, negate: bool, borrow: bool): int
    requires bits >= 1
  {
    var t := SignedField(arr, shift, bits) + (if borrow then 1 else 0);
    if negate then -t else t
  }

  /** The signed reading lies in [-2^(bits-1), 2^(bits-1)) and agrees with the
      unsigned field modulo 2^bits; it is negative exactly when the field's
      top bit, bit shift + bits - 1 of the array, is set. */
  lemma SignedFieldRange(arr: seq<Word>, shift: nat, bits: nat)
    requires bits >= 1
    ensures var s := SignedField(arr, shift, bits);
      -(Pow2(bits - 1) as int) <= s < Pow2(bits - 1)
      && s % Pow2(bits) == Field(arr, shift, bits)
      && (s < 0 <==> (Value(arr) / Pow2(shift + bits - 1)) % 2 == 1)
  {
    var f := Field(arr, shift, bits);
    assert Pow2(bits) == 2 * Pow2(bits - 1);
    if f >= Pow2(bits - 1) {
      DivAddMultiple(f - Pow2(bits), 1, Pow2(bits));
      DivModSmall(f, Pow2(bits));
    } else {
      DivModSmall(f, Pow2(bits));
    }
    FieldTopBit(arr, shift, bits);
  }

  /** The field is at least 2^(bits-1) exactly when its top bit is set. */
  lemma FieldTopBit(arr: seq<Word>, shift: nat, bits: nat)
    requires bits >= 1
    ensures Field(arr, shift, bits) >= Pow2(bits - 1)
            <==> (Value(arr) / Pow2(shift + bits - 1)) % 2 == 1
  {
    var x := Value(arr) / Pow2(shift);
    var p := Pow2(bits - 1);
    DivPow2Split(x, bits - 1, 1);
    DivPow2Split(Value(arr), shift, bits - 1);
    assert Pow2(1) == 2;
    TopBitSplit(x % Pow2(bits), x % p, p, (x / p) % 2);
  }

  /** y = r + p c with r < p and c a bit: y >= p exactly when c = 1. */
  lemma TopBitSplit(y: int, r: int, p: int, c: int)
    requires 0 <= r < p && (c == 0 || c == 1) && y == r + p * c
    ensures y >= p <==> c == 1
  {
  }

  /** Bit k of a limb array's value is bit k % FLINT_BITS of limb k / FLINT_BITS. */
  lemma BitOfValue(arr: seq<Word>, k: nat)
    requires k < FlintBits * |arr|
    ensures (Value(arr) / Pow2(k)) % 2 == (arr[k / FlintBits] / Pow2(k % FlintBits)) % 2
  {
    var j, r := k / FlintBits, k % FlintBits;
    ValueHigh(arr, j);
    DivPow2Split(Value(arr), FlintBits * j, r);
    assert arr[j..][1..] == arr[j + 1..];
    LimbBit(arr[j], Value(arr[j + 1..]), r);
  }

  /** Bit r < FLINT_BITS of w + B * rest is bit r of w. */
  lemma LimbBit(w: Word, rest: int, r: nat)
    requires r < FlintBits
    ensures ((w + WordBase * rest) / Pow2(r)) % 2 == (w / Pow2(r)) % 2
  {
    Pow2Of64();
    DivShiftAdd(w, rest, r, FlintBits - r);
    ModHighMultiple(w / Pow2(r), rest, FlintBits - r, 1);
    assert Pow2(1) == 2;
  }

  /** Bits at or above shift + bits do not reach the field: the first k limbs
      suffice when the field ends within them. */
  lemma FieldPrefix(arr: seq<Word>, shift: nat, bits: nat, k: nat)
    requires k <= |arr| && shift + bits <= FlintBits * k
    ensures Field(arr, shift, bits) == Field(arr[..k], shift, bits)
  {
    var low, rest := Value(arr[..k]), Value(arr[k..]);
    ValueSplit(arr, k);
    var e := FlintBits * k - shift;
    DivShiftAdd(low, rest, shift, e);
    ModHighMultiple(low / Pow2(shift), rest, e, bits);
  }

  /** A field of b bits ending by the end of limb k - 1 touches at most k limbs. */
  lemma SpanBound(shift: nat, bits: nat)
    ensures shift + bits <= FlintBits * Span(shift, bits)
    ensures FlintBits * Span(shift, bits) < shift + bits + FlintBits
  {
  }

  /** `((ulong) 1 << i) & w`: bit i of w is set. */
  predicate Bit(w: Word, i: nat)
    requires i < FlintBits
  {
    (w / Pow2(i)) % 2 == 1
  }

  /** `w & (((ulong) 1 << b) - 1)`: the low b bits of w. */
  function MaskLow(w: Word, b: nat): (r: Word)
    requires b <= FlintBits
    ensures r < Pow2(b)
  {
    ModAtMost(w, Pow2(b));
    w % Pow2(b)
  }

  /** The sign test of fmpz_bit_unpack: bit rem_bits - 1 of arr[limbs], or the
      top bit of arr[limbs - 1] when the field ends on a limb boundary. */
  predicate SignTest(arr: seq<Word>, shift: nat, bits: nat)
    requires bits >= 1 && Span(shift, bits) <= |arr|
  {
    var limbs, rem := (shift + bits) / FlintBits, (shift + bits) % FlintBits;
    if rem != 0 then Bit(arr[limbs], rem - 1) else Bit(arr[limbs - 1], FlintBits - 1)
  }

  /** The sign test reads bit shift + bits - 1, the top bit of the field, so it
      holds exactly when the field's signed reading is negative. */
  lemma SignTestCorrect(arr: seq<Word>, shift: nat, bits: nat)
    requires bits >= 1 && Span(shift, bits) <= |arr|
    ensures SignTest(arr, shift, bits) <==> SignedField(arr, shift, bits) < 0
  {
    var k := shift + bits - 1;
    var limbs, rem := (shift + bits) / FlintBits, (shift + bits) % FlintBits;
    if rem != 0 {
      DivModUnique(k, FlintBits, limbs, rem - 1);
    } else {
      DivModUnique(k, FlintBits, limbs - 1, FlintBits - 1);
    }
    BitOfValue(arr, k);
    SignedFieldRange(arr, shift, bits);
  }

  /** `~(ulong) 0 << b`: ones above the low b bits. */
  lemma ShlOnes(b: nat)
    requires b < FlintBits
    ensures Shl(WordBase - 1, b) == WordBase - Pow2(b)
  {
    Pow2Of64();
    Pow2Monotone(b, FlintBits);
    var p := Pow2(b);
    assert (WordBase - 1) * p == (WordBase - p) + WordBase * (p - 1);
    HighPart(WordBase - p, WordBase, p - 1);
  }

  /** Lines 36-38: for 0 < shift < FLINT_BITS the two shifted limbs occupy
      disjoint bits, so their sum does not wrap, and masking it gives the
      field of the two-limb value a0 + B * a1. */
  lemma CrossField(a0: Word, a1: Word, shift: nat, bits: nat)
    requires 0 < shift < FlintBits && bits <= FlintBits
    ensures Shr(a0, shift) + Shl(a1, FlintBits - shift) < WordBase
    ensures MaskLow(ToWord(Shr(a0, shift) + Shl(a1, FlintBits - shift)), bits)
            == ((a0 + WordBase * a1) / Pow2(shift)) % Pow2(bits)
  {
    var c := FlintBits - shift;
    var ps, pc := Pow2(shift), Pow2(c);
    var y, sh := Shr(a0, shift), Shl(a1, c);
    assert y == a0 / ps;
    ShlSplit(a1, c);
    WordSplit(shift);
    QuotientBelow(a0, ps, pc);
    DivModSmall(y + sh, WordBase);
    DivMulAdd(a0, a1, ps, pc);
    ModWordMultiple(y + sh, a1 / ps, bits);
  }

  /** The inline-size field (lines 36-40): one shifted limb, or two when the
      field crosses a limb boundary, masked to bits bits. */
  function SmallField(arr: seq<Word>, shift: nat, bits: nat): (c: Word)
    requires shift < FlintBits && bits <= SmallBitsMax
    requires 1 <= |arr| && Span(shift, bits) <= |arr|
    ensures c == Field(arr, shift, bits)
  {
    var limbs, rem := (shift + bits) / FlintBits, (shift + bits) % FlintBits;
    if limbs + (if rem != 0 then 1 else 0) > 1 then
      assert Value(arr[..2]) == arr[0] + WordBase * arr[1] by {
        assert arr[..2][1..] == [arr[1]];
        ValueSingle(arr[1]);
      }
      CrossField(arr[0], arr[1], shift, bits);
      FieldPrefix(arr, shift, bits, 2);
      MaskLow(ToWord(Shr(arr[0], shift) + Shl(arr[1], FlintBits - shift)), bits)
    else
      assert arr[..1] == [arr[0]];
      ValueSingle(arr[0]);
      FieldPrefix(arr, shift, bits, 1);
      MaskLow(Shr(arr[0], shift), bits)
  }

  /** Line 44: adding `~0 << bits` to a field with its top bit set and read as
      a signed word gives f - 2^bits. */
  lemma SignExtendSmall(f: nat, bits: nat)
    requires 1 <= bits <= SmallBitsMax && Pow2(bits - 1) <= f < Pow2(bits)
    ensures ToSigned(ToWord(f + Shl(WordBase - 1, bits))) == f - Pow2(bits)
  {
    ShlOnes(bits);
    Pow2Monotone(bits, SmallBitsMax);
    Pow2Of62();
    Pow2Of64();
    DivModSmall(f + WordBase - Pow2(bits), WordBase);
  }

  /** The small branch of fmpz_bit_unpack (lines 29-65): the field is read into
      an inline value, sign extended when its top bit is set, incremented on a
      borrow (moved to an mpz by fmpz_set_ui should it pass COEFF_MAX) and
      negated on request. The result is the signed field's unpacked value;
      the returned flag says the field was negative. */
  method UnpackSmall(arr: array<Word>, shift: nat, bits: nat, negate: bool, borrow: bool,
                     signBit: bool)
      returns (coeff: Fmpz, sign: bool)
    requires 1 <= bits <= SmallBitsMax && shift < FlintBits && Span(shift, bits) <= arr.Length
    requires signBit == SignTest(arr[..], shift, bits)
    ensures coeff.Canonical() && coeff.Value() == Unpacked(arr[..], shift, bits, negate, borrow)
    ensures sign <==> SignedField(arr[..], shift, bits) < 0
  {
    ghost var f := Field(arr[..], shift, bits);
    SignTestCorrect(arr[..], shift, bits);
    SignedFieldRange(arr[..], shift, bits);
    SmallSignedRange(bits);
    var c: int := SmallField(arr[..], shift, bits);
    if signBit {
      SignExtendSmall(c, bits);
      c := ToSigned(ToWord(c + Shl(WordBase - 1, bits)));
    }
    assert c == SignedField(arr[..], shift, bits);
    sign := c < 0;
    if borrow {
      c := c + 1;
      if c > CoeffMax {
        coeff := FromInt(c);
      } else {
        coeff := Small(c);
      }
    } else {
      coeff := Small(c);
    }
    if negate {
      coeff := Neg(coeff);
    }
  }

  /** A signed field of at most SMALL_FMPZ_BITCOUNT_MAX bits, plus one, is still
      an inline value, so the promotion on line 53 is never taken. */
  lemma SmallSignedRange(bits: nat)
    requires 1 <= bits <= SmallBitsMax
    ensures IsSmall(-(Pow2(bits - 1) as int)) && IsSmall(Pow2(bits - 1))
  {
    Pow2Monotone(bits - 1, SmallBitsMax - 1);
    SmallBounds();
  }

  /** l = (bits - 1) / FLINT_BITS + 1: the limbs that hold a bits-bit field. */
  function FieldLimbs(bits: nat): (l: nat)
    requires bits >= 1
    ensures l >= 1 && FlintBits * (l - 1) < bits <= FlintBits * l
    ensures bits % FlintBits != 0 ==> bits == FlintBits * (l - 1) + bits % FlintBits
    ensures bits % FlintBits == 0 ==> bits == FlintBits * l
  {
    (bits - 1) / FlintBits + 1
  }

  /** Line 91: when p holds arr[0..l) / 2^shift, the limb arr[l] shifted up
      by FLINT_BITS - shift fills the top bits of p's last limb without a
      carry, giving the l low limbs of arr[0..l] / 2^shift. */
  lemma CrossTop(a: seq<Word>, p: seq<Word>, shift: nat)
    requires |a| >= 2 && |p| == |a| - 1 && 0 < shift < FlintBits
    requires Value(p) == Value(a[..|a| - 1]) / Pow2(shift)
    ensures var l := |p|;
      var s := Shl(a[l], FlintBits - shift);
      p[l - 1] + s < WordBase
      && Value(SetTop(p, p[l - 1] + s)) == (Value(a) / Pow2(shift)) % LimbPow(l)
  {
    var l := |p|;
    var s := Shl(a[l], FlintBits - shift);
    ValueBound(a[..l]);
    ValueBound(p[..l - 1]);
    ValueTop(p);
    ValueTop(a);
    var v0, low, t := Value(a[..l]), Value(p[..l - 1]), p[l - 1];
    assert Value(a) == v0 + LimbPow(l) * a[l];
    CrossTopValues(v0, a[l], low, t, shift, l);
    ValueSetTop(p, t + s);
  }

  /** CrossTop on values: v0 holds the l low limbs, x the next one, and
      low + B^(l-1) * t is v0 / 2^shift with its top limb t split off. */
  lemma CrossTopValues(v0: nat, x: Word, low: nat, t: Word, shift: nat, l: nat)
    requires l >= 1 && 0 < shift < FlintBits
    requires v0 < LimbPow(l) && low < LimbPow(l - 1)
    requires v0 / Pow2(shift) == low + LimbPow(l - 1) * t
    ensures t + Shl(x, FlintBits - shift) < WordBase
    ensures low + LimbPow(l - 1) * (t + Shl(x, FlintBits - shift))
            == ((v0 + LimbPow(l) * x) / Pow2(shift)) % LimbPow(l)
  {
    var c := FlintBits - shift;
    var ps, pc, lp := Pow2(shift), Pow2(c), LimbPow(l - 1);
    WordSplit(shift);
    LimbPowStep(l - 1);
    ShlSplit(x, c);
    CrossArith(v0, x, low, t, ps, pc, lp, Shl(x, c), x / ps, WordBase, LimbPow(l));
  }

  /** The arithmetic of CrossTop, with B = ps * pc and B^(l-1) = lp. */
  lemma CrossArith(v0: int, x: int, low: int, t: int, ps: int, pc: int, lp: int, s: int, q: int,
                   b: int, big: int)
    requires ps > 0 && pc > 0 && lp > 0 && x >= 0 && low >= 0 && t >= 0 && v0 >= 0
    requires b == ps * pc && big == b * lp
    requires v0 < big && low < lp
    requires v0 / ps == low + lp * t
    requires 0 <= s <= b - pc && pc * x == s + b * q
    ensures t + s < b
    ensures low + lp * (t + s) == ((v0 + big * x) / ps) % big
  {
    MulAssoc(ps, pc, lp);
    var vp := v0 / ps;
    QuotientBelow(v0, ps, pc * lp);
    TopBelow(low, lp, t, pc);
    DivMulAdd(v0, x, ps, pc * lp);
    CrossRest(vp, lp, pc, s, x, q, ps * pc);
    MulAssoc(ps, pc, lp);
    HighPart(vp + lp * s, (ps * pc) * lp, q);
    assert lp * (t + s) == lp * t + lp * s;
  }

  /** low + lp * t < pc * lp forces t < pc. */
  lemma TopBelow(low: int, lp: int, t: int, pc: int)
    requires low >= 0 && lp > 0 && low + lp * t < pc * lp
    ensures t < pc
  {
    if t >= pc {
      MulMonotone(pc, t, lp);
    }
  }

  /** v + (pc * lp) * x splits as (v + lp * s) + (w * lp) * q when
      pc * x == s + w * q, and the first part stays below w * lp. */
  lemma CrossRest(v: int, lp: int, pc: int, s: int, x: int, q: int, w: int)
    requires lp > 0 && 0 <= v < pc * lp && 0 <= s <= w - pc && pc * x == s + w * q
    ensures v + (pc * lp) * x == (v + lp * s) + (w * lp) * q
    ensures v + lp * s < w * lp
  {
    assert (pc * lp) * x == lp * (pc * x);
    assert lp * (s + w * q) == lp * s + (w * lp) * q;
    MulMonotone(s, w - pc, lp);
    assert (w - pc) * lp == w * lp - pc * lp;
  }

  /** Line 97: masking the top limb to its b low bits reduces the value modulo
      2^(FLINT_BITS * (l - 1) + b). */
  lemma MaskTopValue(s: seq<Word>, b: nat)
    requires |s| >= 1 && 0 < b < FlintBits
    ensures Value(SetTop(s, MaskLow(s[|s| - 1], b)))
            == Value(s) % Pow2(FlintBits * (|s| - 1) + b)
  {
    var l := |s|;
    ValueTop(s);
    ValueBound(s[..l - 1]);
    HighPart(Value(s[..l - 1]), LimbPow(l - 1), s[l - 1]);
    DivPow2Split(Value(s), FlintBits * (l - 1), b);
    ValueSetTop(s, MaskLow(s[l - 1], b));
  }

  /** Line 104: adding `~0 << b` to the top limb of a field of
      FLINT_BITS * (l - 1) + b bits does not carry, and adds B^l - 2^bits. */
  lemma SignExtendTop(s: seq<Word>, b: nat)
    requires |s| >= 1 && 0 < b < FlintBits
    requires Value(s) < Pow2(FlintBits * (|s| - 1) + b)
    ensures s[|s| - 1] + Shl(WordBase - 1, b) < WordBase
    ensures Value(SetTop(s, s[|s| - 1] + Shl(WordBase - 1, b)))
            == Value(s) + LimbPow(|s|) - Pow2(FlintBits * (|s| - 1) + b)
  {
    SignExtendParts(s, b, s[|s| - 1], Shl(WordBase - 1, b), LimbPow(|s| - 1), Pow2(b));
  }

  /** SignExtendTop with the top limb t, the mask w and the powers lp, pb named. */
  lemma SignExtendParts(s: seq<Word>, b: nat, t: Word, w: Word, lp: nat, pb: nat)
    requires |s| >= 1 && 0 < b < FlintBits
    requires t == s[|s| - 1] && w == Shl(WordBase - 1, b) && lp == LimbPow(|s| - 1) && pb == Pow2(b)
    requires Value(s) < Pow2(FlintBits * (|s| - 1) + b)
    ensures Pow2(FlintBits * (|s| - 1) + b) == lp * pb && LimbPow(|s|) == WordBase * lp
    ensures t + w < WordBase
    ensures Value(SetTop(s, t + w)) == Value(s) + WordBase * lp - lp * pb
  {
    var l := |s|;
    Pow2Add(FlintBits * (l - 1), b);
    ShlOnes(b);
    ValueTop(s);
    LimbPowStep(l - 1);
    TopFill(Value(s), Value(s[..l - 1]), lp, t, pb, WordBase, w);
    ValueSetTop(s, t + w);
  }

  /** The arithmetic behind SignExtendTop, for a word base bw: a value
      low + lp t below lp pb has t < pb, and raising t by bw - pb adds
      bw lp - lp pb. */
  lemma TopFill(v: int, low: int, lp: int, t: int, pb: int, bw: int, w: int)
    requires 0 <= low && 0 < lp && v == low + lp * t && v < lp * pb && w == bw - pb
    ensures t < pb && t + w < bw
    ensures low + lp * (t + w) == v + bw * lp - lp * pb
  {
    if t >= pb {
      MulMonotone(pb, t, lp);
    }
    assert lp * (t + w) == lp * t + lp * bw - lp * pb;
  }

  /** The field's l = FieldLimbs(bits) limbs fit in the span it touches, and
      the span is one limb more exactly when the field starts inside a limb
      and spills past the l-th limb (the case of line 90). */
  lemma LimbCounts(shift: nat, bits: nat)
    requires bits >= 1 && shift < FlintBits
    ensures var l, limbs := FieldLimbs(bits), (shift + bits) / FlintBits;
      l <= Span(shift, bits) <= l + 1
      && (Span(shift, bits) > l <==> limbs + (if (shift + bits) % FlintBits != 0 then 1 else 0) > l)
      && (Span(shift, bits) > l ==>
            limbs == l && (shift + bits) % FlintBits != 0 && shift != 0)
  {
    SpanBound(shift, bits);
  }

  /** In the spilling case the buffer holds arr[0..l] / 2^shift modulo B^l,
      which modulo 2^bits is the field. */
  lemma CrossFieldValue(arr: seq<Word>, shift: nat, bits: nat, l: nat)
    requires l + 1 <= |arr| && bits <= FlintBits * l && shift + bits <= FlintBits * (l + 1)
    ensures ((Value(arr[..l + 1]) / Pow2(shift)) % LimbPow(l)) % Pow2(bits)
            == Field(arr, shift, bits)
  {
    ModPow2Mod(Value(arr[..l + 1]) / Pow2(shift), bits, FlintBits * l);
    FieldPrefix(arr, shift, bits, l + 1);
  }

  /** Lines 84-87: mpn_rshift of arr[0..l) into p when shift is nonzero,
      flint_mpn_copyi otherwise. */
  method ShiftedCopy(p: array<Word>, arr: array<Word>, shift: nat)
    requires p != arr && p.Length <= arr.Length
    modifies p
    ensures Value(p[..]) == Value(arr[..p.Length]) / Pow2(shift)
  {
    var l := p.Length;
    if shift != 0 {
      CopyLimbs(p, 0, RShift(arr[..l], shift));
    } else {
      CopyLimbs(p, 0, arr[..l]);
    }
    assert p[..] == p[0..l];
  }

  /** Line 91: the bits of arr[l] that the shift left out go into the top limb
      of p; the sum does not wrap, and p then holds the field modulo 2^bits. */
  method AddSpill(p: array<Word>, arr: array<Word>, shift: nat, bits: nat)
    requires p != arr && 1 <= p.Length < arr.Length && 0 < shift < FlintBits
    requires bits <= FlintBits * p.Length && shift + bits <= FlintBits * (p.Length + 1)
    requires Value(p[..]) == Value(arr[..p.Length]) / Pow2(shift)
    modifies p
    ensures Value(p[..]) % Pow2(bits) == Field(arr[..], shift, bits)
  {
    var l := p.Length;
    ghost var q := p[..];
    assert arr[..l + 1][..l] == arr[..l];
    CrossTop(arr[..l + 1], q, shift);
    var w := p[l - 1] + Shl(arr[l], FlintBits - shift);
    DivModSmall(w, WordBase);
    p[l - 1] := ToWord(w);
    assert p[..] == SetTop(q, w);
    CrossFieldValue(arr[..], shift, bits, l);
  }

  /** Lines 84-91: the l = FieldLimbs(bits) limbs of arr shifted right by
      shift (or copied when shift is zero), with the bits of arr[limbs] that
      the shift leaves out added to the top limb when the field reaches into
      that limb. Modulo 2^bits the buffer then holds the field. */
  method ShiftIn(p: array<Word>, arr: array<Word>, shift: nat, bits: nat)
    requires p != arr && bits >= 1 && p.Length == FieldLimbs(bits)
    requires shift < FlintBits && Span(shift, bits) <= arr.Length
    modifies p
    ensures Value(p[..]) % Pow2(bits) == Field(arr[..], shift, bits)
  {
    var l := p.Length;
    var limbs, rem := (shift + bits) / FlintBits, (shift + bits) % FlintBits;
    LimbCounts(shift, bits);
    SpanBound(shift, bits);
    ShiftedCopy(p, arr, shift);
    if limbs + (if rem != 0 then 1 else 0) > l {
      AddSpill(p, arr, shift, bits);
    } else {
      FieldPrefix(arr[..], shift, bits, l);
    }
  }

  /** Lines 94-98: when bits is not a multiple of FLINT_BITS, the top limb is
      masked to its b = bits % FLINT_BITS low bits; the buffer then holds its
      old value modulo 2^bits (when b is zero it already does). */
  method MaskTop(p: array<Word>, bits: nat)
    requires bits >= 1 && p.Length == FieldLimbs(bits)
    modifies p
    ensures Value(p[..]) == old(Value(p[..])) % Pow2(bits)
  {
    var l := p.Length;
    var b := bits % FlintBits;
    ghost var q := p[..];
    if b != 0 {
      p[l - 1] := MaskLow(p[l - 1], b);
      assert p[..] == SetTop(q, MaskLow(q[l - 1], b));
      MaskTopValue(q, b);
    } else {
      ValueBound(q);
      DivModSmall(Value(q), Pow2(bits));
    }
  }

  /** Lines 103-104: `p[l - 1] += ~0 << b` fills the bits above the field with
      ones when b is nonzero; the buffer then holds f + B^l - 2^bits, the l-limb
      two's complement of the negative value f - 2^bits. */
  method SignExtendInPlace(p: array<Word>, bits: nat)
    requires bits >= 1 && p.Length == FieldLimbs(bits) && Value(p[..]) < Pow2(bits)
    modifies p
    ensures Value(p[..]) == old(Value(p[..])) + LimbPow(p.Length) - Pow2(bits)
  {
    var l := p.Length;
    var b := bits % FlintBits;
    if b != 0 {
      ghost var q := p[..];
      SignExtendTop(q, b);
      var w := p[l - 1] + Shl(WordBase - 1, b);
      DivModSmall(w, WordBase);
      p[l - 1] := ToWord(w);
      assert p[..] == SetTop(q, w);
    }
  }

  /** Lines 102-109: a field with its top bit set is sign extended to l limbs,
      complemented, and incremented unless a borrow is pending; the buffer
      then holds the magnitude 2^bits - f - borrow of the negative value. */
  method NegateField(p: array<Word>, bits: nat, borrow: bool)
    requires bits >= 1 && p.Length == FieldLimbs(bits)
    requires Pow2(bits - 1) <= Value(p[..]) < Pow2(bits)
    modifies p
    ensures Value(p[..]) == Pow2(bits) - old(Value(p[..])) - (if borrow then 1 else 0)
  {
    SignExtendInPlace(p, bits);
    ComInPlace(p);
    if !borrow {
      Pow2Monotone(bits, FlintBits * p.Length);
      AddOneInPlace(p);
    }
  }

  /** Lines 73-98 (and 171-196 of the unsigned variant): the mpz's limbs are
      reallocated to l = FieldLimbs(bits) limbs and receive the field. */
  method FieldIntoMpz(m: Mpz, arr: array<Word>, shift: nat, bits: nat)
      returns (p: array<Word>)
    requires m.d != arr && bits >= 1 && shift < FlintBits && Span(shift, bits) <= arr.Length
    modifies m, m.d
    ensures p == m.d && p != arr && p.Length == FieldLimbs(bits)
    ensures fresh(p) || p == old(m.d)
    ensures m.size == old(m.size)
    ensures Value(p[..]) == Field(arr[..], shift, bits)
  {
    var l := (bits - 1) / FlintBits + 1;
    if m.d.Length != l {
      m.d := new Word[l];
    }
    p := m.d;
    ShiftIn(p, arr, shift, bits);
    MaskTop(p, bits);
  }

  /** The magnitude lines 100-123 leave for a field f with top bit signBit:
      |f - 2^bits + borrow| for a negative field, f + borrow otherwise. */
  function MagnitudeOf(f: int, bits: nat, signBit: bool, borrow: bool): int
  {
    var t := (if signBit then f - Pow2(bits) else f) + (if borrow then 1 else 0);
    if signBit then -t else t
  }

  /** Lines 100-123: the magnitude of the signed field plus borrow. A negative
      field f - 2^bits goes through NegateField; a nonnegative one gets the
      borrow added by mpn_add_1. */
  method Magnitude(p: array<Word>, bits: nat, borrow: bool, signBit: bool)
    requires bits >= 1 && p.Length == FieldLimbs(bits) && Value(p[..]) < Pow2(bits)
    requires signBit <==> Value(p[..]) >= Pow2(bits - 1)
    modifies p
    ensures Value(p[..]) == MagnitudeOf(old(Value(p[..])), bits, signBit, borrow)
  {
    if signBit {
      NegateField(p, bits, borrow);
    } else if borrow {
      Pow2Monotone(bits, FlintBits * p.Length);
      assert Pow2(bits) == 2 * Pow2(bits - 1);
      AddOneInPlace(p);
    }
  }

  /** The large branch of fmpz_bit_unpack (lines 67-141): the field is built
      in the mpz's limbs, turned into the magnitude of the signed field plus
      borrow with the sign in the size, normalised, negated on request and
      demoted when it fits inline. */
  method UnpackLarge(m: Mpz, arr: array<Word>, shift: nat, bits: nat, negate: bool,
                     borrow: bool, signBit: bool)
      returns (coeff: Fmpz, sign: bool)
    requires m.d != arr
    requires SmallBitsMax < bits && shift < FlintBits && Span(shift, bits) <= arr.Length
    requires signBit == SignTest(arr[..], shift, bits)
    modifies m, m.d
    ensures coeff.Canonical() && coeff.Value() == Unpacked(arr[..], shift, bits, negate, borrow)
    ensures sign <==> SignedField(arr[..], shift, bits) < 0
    ensures m.Valid() && Normalized(m.Used()) && m.Value() == coeff.Value()
    ensures m.d.Length == FieldLimbs(bits)
  {
    SignTestCorrect(arr[..], shift, bits);
    var l := FieldMagnitude(m, arr, shift, bits, borrow, signBit);
    coeff := SetSignedSize(m, l, signBit, negate);
    UnpackedFromMagnitude(arr[..], shift, bits, negate, borrow, signBit, Field(arr[..], shift, bits),
                          m.Used(), coeff.Value());
    sign := signBit;
  }

  /** Lines 78-116: the field copied into the mpz's limbs, turned into its
      magnitude plus borrow, and the length of the normalised magnitude. */
  method FieldMagnitude(m: Mpz, arr: array<Word>, shift: nat, bits: nat, borrow: bool, signBit: bool)
      returns (l: nat)
    requires m.d != arr
    requires SmallBitsMax < bits && shift < FlintBits && Span(shift, bits) <= arr.Length
    requires signBit <==> SignedField(arr[..], shift, bits) < 0
    modifies m, m.d
    ensures m.d != arr && m.d.Length == FieldLimbs(bits) && l <= m.d.Length
    ensures Normalized(m.d[..l])
    ensures Value(m.d[..l]) == MagnitudeOf(Field(arr[..], shift, bits), bits, signBit, borrow)
  {
    ghost var a := arr[..];
    FieldSign(a, shift, bits);
    var p := FieldIntoMpz(m, arr, shift, bits);
    assert arr[..] == a;
    Magnitude(p, bits, borrow, signBit);
    assert arr[..] == a;
    l := NormalizeLength(p, p.Length);
    assert p[..p.Length] == p[..];
  }

  /** The field is negative exactly when its top bit is set. */
  lemma FieldSign(a: seq<Word>, shift: nat, bits: nat)
    requires bits >= 1
    ensures SignedField(a, shift, bits) < 0 <==> Field(a, shift, bits) >= Pow2(bits - 1)
  {
  }

  /** The value of lines 103-141 in terms of the field: the magnitude left
      in the limbs, signed by the sign bit and by negate, is Unpacked. */
  lemma UnpackedFromMagnitude(arr: seq<Word>, shift: nat, bits: nat, negate: bool, borrow: bool,
                              signBit: bool, f: int, q: seq<Word>, c: int)
    requires bits >= 1 && f == Field(arr, shift, bits)
    requires signBit <==> SignedField(arr, shift, bits) < 0
    requires Value(q) == MagnitudeOf(f, bits, signBit, borrow)
    requires c == (if negate then -1 else 1) * SignedValue(signBit, q)
    ensures c == Unpacked(arr, shift, bits, negate, borrow)
  {
  }

  /** Lines 118-141: the size of the mpz is l limbs with the sign of the field,
      flipped when negating; the result is the demoted value. */
  method SetSignedSize(m: Mpz, l: nat, negative: bool, negate: bool) returns (coeff: Fmpz)
    requires l <= m.d.Length && Normalized(m.d[..l])
    modifies m
    ensures m.d == old(m.d) && m.Valid() && m.Used() == m.d[..l]
    ensures m.Value() == coeff.Value() && coeff.Canonical()
    ensures coeff.Value() == (if negate then -1 else 1) * SignedValue(negative, m.d[..l])
  {
    if negative {
      m.size := -(l as int);
    } else {
      m.size := l;
    }
    if negate {
      m.size := -m.size;
    }
    coeff := DemoteVal(m.size < 0, m.Used());
  }

  /** fmpz_bit_unpack (lines 15-142): coeff becomes the bits-bit two's-complement
      field at bit shift of arr, plus one on a borrow, negated on request, in
      canonical form; the result says whether the field was negative, which is
      the borrow a caller passes on to the next field. */
  method BitUnpack(m: Mpz, arr: array<Word>, shift: nat, bits: nat, negate: bool, borrow: bool)
      returns (coeff: Fmpz, sign: bool)
    requires m.d != arr
    requires 1 <= bits && shift < FlintBits && Span(shift, bits) <= arr.Length
    modifies m, m.d
    ensures coeff.Canonical() && coeff.Value() == Unpacked(arr[..], shift, bits, negate, borrow)
    ensures sign <==> SignedField(arr[..], shift, bits) < 0
  {
    var signBit := SignTest(arr[..], shift, bits);
    if bits <= SmallBitsMax {
      coeff, sign := UnpackSmall(arr, shift, bits, negate, borrow, signBit);
    } else {
      coeff, sign := UnpackLarge(m, arr, shift, bits, negate, borrow, signBit);
    }
  }

  /** fmpz_bit_unpack_unsigned (lines 144-207): coeff becomes the unsigned
      field, in [0, 2^bits), in canonical form. */
  method BitUnpackUnsigned(m: Mpz, arr: array<Word>, shift: nat, bits: nat)
      returns (coeff: Fmpz)
    requires m.d != arr
    requires shift < FlintBits && 1 <= arr.Length && Span(shift, bits) <= arr.Length
    modifies m, m.d
    ensures coeff.Canonical() && coeff.Value() == Field(arr[..], shift, bits)
    ensures 0 <= coeff.Value() < Pow2(bits)
  {
    if bits <= SmallBitsMax {
      var c := SmallField(arr[..], shift, bits);
      Pow2Monotone(bits, SmallBitsMax);
      SmallBounds();
      coeff := Small(c);
    } else {
      var p := FieldIntoMpz(m, arr, shift, bits);
      var l := NormalizeLength(p, p.Length);
      assert p[..p.Length] == p[..];
      m.size := l;
      coeff := DemoteVal(false, p[..l]);
    }
  }
}
