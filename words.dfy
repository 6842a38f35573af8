/** Machine words of FLINT_BITS = 64 bits and the double- and triple-word
    arithmetic of longlong.h (smul_ppmm, umul_ppmm, add_ssaaaa, sub_ddmmss,
    add_sssaaaaaa), stated on unbounded integers with the wrap-around written out. */
module Words {
  import opened Arith

  const FlintBits: nat := 64
  const WordBase: int := 0x1_0000_0000_0000_0000
  const HalfBase: int := 0x8000_0000_0000_0000
  /** Largest signed word value, WORD_MAX. */
  const WordMax: int := 0x7FFF_FFFF_FFFF_FFFF

  /** An unsigned machine word (ulong). */
  type Word = x: int | 0 <= x < 0x1_0000_0000_0000_0000

  /** A value a signed machine word (slong) can hold. */
  predicate IsSigned(x: int)
  {
    -HalfBase <= x < HalfBase
  }

  /** Two's-complement reading of the bits of w. */
  function ToSigned(w: Word): (r: int)
    ensures IsSigned(r)
  {
    if w >= HalfBase then w - WordBase else w
  }

  /** The C conversion of a signed value to ulong. */
  function ToWord(x: int): (w: Word)
  {
    x % WordBase
  }

  /** Signed word arithmetic that wraps around modulo 2^64. */
  function WrapSigned(v: int): (r: int)
    ensures IsSigned(r)
  {
    ToSigned(ToWord(v))
  }

  /** A signed value that fits a word is unchanged by wrapping. */
  lemma WrapSignedExact(v: int)
    requires IsSigned(v)
    ensures WrapSigned(v) == v
  {
    if v >= 0 {
      DivModSmall(v, WordBase);
    } else {
      DivAddMultiple(v + WordBase, -1, WordBase);
      DivModSmall(v + WordBase, WordBase);
    }
  }

  /** A word splits into a low part of s bits and a high part of FLINT_BITS - s. */
  lemma WordSplit(s: nat)
    requires s <= FlintBits
    ensures Pow2(s) * Pow2(FlintBits - s) == WordBase
  {
    Pow2Add(s, FlintBits - s);
    Pow2Of64();
  }

  /** 2^b fits the word base for b <= FLINT_BITS. */
  lemma Pow2AtMostWord(b: nat)
    requires b <= FlintBits
    ensures Pow2(b) <= WordBase
  {
    Pow2Monotone(b, FlintBits);
    Pow2Of64();
  }

  /** 2^b is a word for b < FLINT_BITS. */
  lemma Pow2BelowWord(b: nat)
    requires b < FlintBits
    ensures Pow2(b) < WordBase
  {
    Pow2StrictMonotone(b, FlintBits);
    Pow2Of64();
  }

  /** A multiple of the word base vanishes modulo 2^bits for bits <= FLINT_BITS. */
  lemma ModWordMultiple(y: int, q: int, bits: nat)
    requires bits <= FlintBits
    ensures (y + WordBase * q) % Pow2(bits) == y % Pow2(bits)
  {
    WordSplit(bits);
    DivMulAdd(y, q, Pow2(bits), Pow2(FlintBits - bits));
  }

  /** Right shift of a word by c < FLINT_BITS places. */
  function Shr(x: Word, c: nat): (r: Word)
    requires c < FlintBits
  {
    DivAtMost(x, Pow2(c));
    x / Pow2(c)
  }

  /** Left shift of a word by c < FLINT_BITS places; high bits fall off. */
  function Shl(x: Word, c: nat): (r: Word)
    requires c < FlintBits
  {
    (x * Pow2(c)) % WordBase
  }

  /** `x << c` for 0 < c < FLINT_BITS keeps the low FLINT_BITS - c bits of x
      moved up by c places, and what falls off is x >> (FLINT_BITS - c). */
  lemma ShlSplit(x: Word, c: nat)
    requires 0 < c < FlintBits
    ensures Shl(x, c) == (x % Pow2(FlintBits - c)) * Pow2(c)
    ensures Shl(x, c) <= WordBase - Pow2(c)
    ensures Pow2(c) * x == Shl(x, c) + WordBase * (x / Pow2(FlintBits - c))
  {
    var s := FlintBits - c;
    WordSplit(s);
    MulModSplit(x, Pow2(s), Pow2(c));
  }

  /** flint_clz: leading zero bits of a nonzero word. */
  function Clz(x: Word): (r: nat)
    requires x != 0
    ensures r < FlintBits && r == FlintBits - BitLength(x)
  {
    Pow2Of64();
    BitLengthFits(x, 64);
    BitLengthBounds(x);
    FlintBits - BitLength(x)
  }

  lemma WordBitLength(x: Word)
    ensures BitLength(x) <= FlintBits
  {
    Pow2Of64();
    BitLengthFits(x, 64);
  }

  /** Two words hi:lo, most significant first. */
  datatype DWord = DWord(hi: Word, lo: Word)
  {
    function Value(): (v: nat)
      ensures v < WordBase * WordBase
    {
      hi * WordBase + lo
    }

    /** The 128-bit two's-complement reading, as fmpz_set_signed_uiui takes it. */
    function Signed(): int
    {
      if hi >= HalfBase then Value() - WordBase * WordBase else Value()
    }
  }

  /** Three words hi:mid:lo. */
  datatype TWord = TWord(hi: Word, mid: Word, lo: Word)
  {
    function Value(): (v: nat)
      ensures v < WordBase * WordBase * WordBase
    {
      hi * WordBase * WordBase + mid * WordBase + lo
    }

    /** The 192-bit two's-complement reading, as fmpz_set_signed_uiuiui takes it. */
    function Signed(): int
    {
      if hi >= HalfBase then Value() - WordBase * WordBase * WordBase else Value()
    }
  }

  /** The double word holding v modulo 2^128. */
  function ToDWord(v: int): (d: DWord)
    ensures d.Value() == v % (WordBase * WordBase)
  {
    var p := v % (WordBase * WordBase);
    DWord(p / WordBase, p % WordBase)
  }

  /** The triple word holding v modulo 2^192. */
  function ToTWord(v: int): (t: TWord)
    ensures t.Value() == v % (WordBase * WordBase * WordBase)
  {
    var p := v % (WordBase * WordBase * WordBase);
    var q := p / WordBase;
    TWord(q / WordBase, q % WordBase, p % WordBase)
  }

  /** smul_ppmm: the signed product of two signed words as a double word. */
  function SMulPPMM(x: int, y: int): (d: DWord)
    requires IsSigned(x) && IsSigned(y)
  {
    ToDWord(x * y)
  }

  /** umul_ppmm: the unsigned product of two words as a double word. */
  function UMulPPMM(x: Word, y: Word): (d: DWord)
  {
    ToDWord(x * y)
  }

  /** umul_ppmm is exact: the double word holds the whole product, and its low
      word is the product modulo 2^64. */
  lemma UMulPPMMExact(x: Word, y: Word)
    ensures UMulPPMM(x, y).Value() == x * y && UMulPPMM(x, y).lo == (x * y) % WordBase
  {
    var v := x * y;
    MulMonotone(0, x, y);
    MulMonotone(x, WordBase - 1, y);
    MulMonotone(y, WordBase - 1, WordBase - 1);
    assert v <= (WordBase - 1) * (WordBase - 1) < WordBase * WordBase;
    DivModSmall(v, WordBase * WordBase);
  }

  /** add_ssaaaa: double-word addition modulo 2^128. */
  function AddSSAAAA(a: DWord, b: DWord): (d: DWord)
  {
    ToDWord(a.Value() + b.Value())
  }

  /** sub_ddmmss: double-word subtraction modulo 2^128. */
  function SubDDMMSS(a: DWord, b: DWord): (d: DWord)
  {
    ToDWord(a.Value() - b.Value())
  }

  /** FLINT_SIGN_EXT: all ones if the top bit of w is set, else zero. */
  function SignExt(w: Word): (r: Word)
  {
    if w >= HalfBase then WordBase - 1 else 0
  }

  /** add_sssaaaaaa: triple-word addition modulo 2^192. */
  function AddSSSAAAAAA(a: TWord, b: TWord): (t: TWord)
  {
    ToTWord(a.Value() + b.Value())
  }

  /** A value in the signed 128-bit range is recovered from its double word. */
  lemma DWordSignedExact(v: int)
    requires -HalfBase * WordBase <= v < HalfBase * WordBase
    ensures ToDWord(v).Signed() == v
  {
    var m := WordBase * WordBase;
    var d := ToDWord(v);
    if v >= 0 {
      DivModSmall(v, m);
      assert d.hi < HalfBase;
    } else {
      DivAddMultiple(v + m, -1, m);
      DivModSmall(v + m, m);
      assert d.Value() == v + m;
      assert d.hi >= HalfBase;
    }
  }

  /** A value in the signed 192-bit range is recovered from its triple word. */
  lemma TWordSignedExact(v: int)
    requires -HalfBase * WordBase * WordBase <= v < HalfBase * WordBase * WordBase
    ensures ToTWord(v).Signed() == v
  {
    var m := WordBase * WordBase * WordBase;
    var t := ToTWord(v);
    if v >= 0 {
      DivModSmall(v, m);
      assert t.hi < HalfBase;
    } else {
      DivAddMultiple(v + m, -1, m);
      DivModSmall(v + m, m);
      assert t.Value() == v + m;
      assert t.hi >= HalfBase;
    }
  }

  /** The product of two signed words is exact in a signed double word. */
  lemma SMulPPMMExact(x: int, y: int)
    requires IsSigned(x) && IsSigned(y)
    ensures -HalfBase * WordBase < x * y <= HalfBase * HalfBase
    ensures SMulPPMM(x, y).Signed() == x * y
  {
    var ax := if x < 0 then -x else x;
    var ay := if y < 0 then -y else y;
    MulMonotone(ax, HalfBase, ay);
    MulMonotone(ay, HalfBase, HalfBase);
    assert ax * ay == (if x * y < 0 then -(x * y) else x * y);
    DWordSignedExact(x * y);
  }

  /** The sign extension of a signed double word is the same value in three words. */
  lemma SignExtendDWord(d: DWord)
    ensures TWord(SignExt(d.hi), d.hi, d.lo).Value()
            == d.Signed() % (WordBase * WordBase * WordBase)
  {
    var m := WordBase * WordBase * WordBase;
    if d.hi >= HalfBase {
      DivAddMultiple(d.Signed(), 1, m);
      DivModSmall(d.Signed() + m, m);
    } else {
      DivModSmall(d.Value(), m);
    }
  }

  /** One step of the two-word accumulator of _fmpz_mat_mul_small_2a. */
  lemma AddSSAAAAStep(v: int, x: int, y: int)
    requires IsSigned(x) && IsSigned(y)
    ensures AddSSAAAA(ToDWord(v), SMulPPMM(x, y)) == ToDWord(v + x * y)
  {
    ModAdd(v, x * y, WordBase * WordBase);
  }

  /** One step of the sign-extended three-word accumulator of _fmpz_mat_mul_small_2b. */
  lemma AddSSSAAAAAAStep(v: int, x: int, y: int)
    requires IsSigned(x) && IsSigned(y)
    ensures var p := SMulPPMM(x, y);
            AddSSSAAAAAA(ToTWord(v), TWord(SignExt(p.hi), p.hi, p.lo)) == ToTWord(v + x * y)
  {
    var p := SMulPPMM(x, y);
    SMulPPMMExact(x, y);
    SignExtendDWord(p);
    ModAdd(v, x * y, WordBase * WordBase * WordBase);
  }
}
