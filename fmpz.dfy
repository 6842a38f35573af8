/** The fmpz integer type: a value of at most SMALL_FMPZ_BITCOUNT_MAX bits is
    stored inline as a signed word, anything larger lives in a heap mpz with a
    sign and a normalised limb vector. */
module Fmpz {
  import opened Arith
  import opened Words
  import Limbs

  /** SMALL_FMPZ_BITCOUNT_MAX: bits of magnitude an inline fmpz may hold. */
  const SmallBitsMax: nat := 62
  /** COEFF_MAX = 2^62 - 1 and COEFF_MIN = -COEFF_MAX. */
  const CoeffMax: int := 0x3FFF_FFFF_FFFF_FFFF
  const CoeffMin: int := -0x3FFF_FFFF_FFFF_FFFF

  /** v can be stored inline (COEFF_IS_MPZ is false for it). */
  predicate IsSmall(v: int)
  {
    CoeffMin <= v <= CoeffMax
  }

  lemma SmallBounds()
    ensures CoeffMax == Pow2(SmallBitsMax) - 1
  {
    Pow2Of62();
  }

  /** An fmpz: an inline signed value, or an mpz with a sign and magnitude limbs. */
  datatype Fmpz = Small(v: int) | Large(negative: bool, limbs: seq<Word>)
  {
    function Value(): int
    {
      match this
      case Small(v) => v
      case Large(negative, limbs) => SignedValue(negative, limbs)
    }

    /** The representation FLINT maintains: small values inline, and an mpz
        only for a value that does not fit, with no zero top limb. */
    predicate Canonical()
    {
      match this
      case Small(v) => IsSmall(v)
      case Large(negative, limbs) =>
        Limbs.Normalized(limbs) && !IsSmall(Value())
    }
  }

  /** The canonical fmpz holding x (fmpz_set_si, fmpz_set_ui, _fmpz_demote_val). */
  function FromInt(x: int): (f: Fmpz)
    ensures f.Canonical() && f.Value() == x
    ensures IsSmall(x) <==> f.Small?
  {
    if IsSmall(x) then Small(x) else Large(x < 0, Limbs.ToLimbs(Abs(x)))
  }

  /** The signed value of a sign and a magnitude limb vector. */
  function SignedValue(negative: bool, limbs: seq<Word>): int
  {
    if negative then -(Limbs.Value(limbs) as int) else Limbs.Value(limbs)
  }

  /** _fmpz_demote_val: an mpz with normalised limbs becomes inline when its
      value fits, and stays an mpz otherwise. */
  function DemoteVal(negative: bool, limbs: seq<Word>): (f: Fmpz)
    requires Limbs.Normalized(limbs)
    ensures f.Canonical() && f.Value() == SignedValue(negative, limbs)
  {
    var v := SignedValue(negative, limbs);
    if IsSmall(v) then Small(v) else Large(negative, limbs)
  }

  /** fmpz_neg (and mpz_neg on the mpz of a large value): flip the sign. */
  function Neg(f: Fmpz): (g: Fmpz)
    requires f.Canonical()
    ensures g.Canonical() && g.Value() == -f.Value()
  {
    match f
    case Small(v) => Small(-v)
    case Large(negative, limbs) => Large(!negative, limbs)
  }

  /** Two canonical fmpz with the same value are the same representation. */
  lemma CanonicalUnique(f: Fmpz, g: Fmpz)
    requires f.Canonical() && g.Canonical() && f.Value() == g.Value()
    ensures f == g
  {
    if f.Large? && g.Large? {
      assert f.negative == g.negative;
      Limbs.NormalizedUnique(f.limbs, g.limbs);
    }
  }

  /** A heap integer (mpz): the limb buffer _mp_d, whose length is _mp_alloc,
      and the signed limb count _mp_size. */
  class Mpz {
    var d: array<Word>
    var size: int

    predicate Valid()
      reads this
    {
      Abs(size) <= d.Length
    }

    /** The limbs in use, least significant first. */
    function Used(): seq<Word>
      reads this, d
      requires Valid()
    {
      d[..Abs(size)]
    }

    function Value(): int
      reads this, d
      requires Valid()
    {
      SignedValue(size < 0, Used())
    }

    constructor (alloc: nat)
      ensures Valid() && size == 0 && d.Length == alloc && fresh(d)
    {
      d := new Word[alloc];
      size := 0;
    }
  }
}
