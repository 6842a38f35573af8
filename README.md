# Exact integer matrix multiplication and word-level fmpz routines of FLINT

This project models, in Dafny, the core of FLINT's exact integer matrix
product `fmpz_mat_mul` together with the word- and limb-level integer routines
around it, and proves their arithmetic contracts.

- `fmpz_mat_mul` (src/fmpz_mat/mul.c): the zero short-cuts, the alias guard
  that multiplies into a temporary and swaps it into C, the `br == 1` and
  `br == 2` paths, the kernel selector driven by the dimensions and the signed
  maximum bit widths, and the three small-entry kernels that accumulate each
  inner product in one, two or three machine words. Matrices are `array2<int>`
  viewed as `seq<seq<int>>`; every kernel is proved to leave C equal to the
  product A·B, and the selector is proved to pick a small kernel only when
  every entry of A·B fits its accumulator.
- The fmpz integer type: an inline signed value of at most 62 bits or an mpz
  with a sign and a normalised little-endian vector of 64-bit limbs; the
  canonical form is unique.
- `fmpz_fmms` (a·b − c·d under every aliasing of f with a, b, c, d),
  `fmpz_bit_unpack` and `fmpz_bit_unpack_unsigned` (a signed or unsigned bit
  field with borrow and negate), `fmpz_lshift_mpn` (±limbs·2^shift), and the
  inline helpers of fmpz_extras.h.
- `fmpz_abs_ubound_ui_2exp`, `fmpz_abs_lbound_ui_2exp`, `mag_set_ui` and
  `mag_set_ui_lower`: upper and lower bounds of the form m·2^e with an m of a
  fixed number of bits.
- `fmpz_fib_ui`: the table of the first 94 Fibonacci numbers and the two-word
  doubling path.
- `n_mod2_preinv` (Möller and Granlund, "Improved Division by Invariant
  Integers", algorithm 4) and `flint_mpn_divrem_preinvn` (multi-limb division
  by a precomputed n-limb inverse with correction loops).
- The exponent arithmetic of `fq_nmod_mpoly_compression_do` and
  `fq_nmod_mpoly_compression_undo`: an affine map on exponent vectors followed
  by per-variable minimum normalisation.

Words are 64 bits (`FLINT_BITS = 64`). Unsigned wrap-around, signed
two's-complement reinterpretation and double- and triple-word arithmetic are
written out explicitly (module `Words`); integers are otherwise unbounded.

src/fmpz_mat/mul.c:188 computes `cbits = abits + bbits + bitcount(br)` with
no extra sign bit. `MatMul.KernelWidthSafe` shows this is enough for the
small kernels, because the bound is on absolute values.

The double-word threshold of src/fmpz_mat/mul.c:267-268 computes
`(cbits - 2*FLINT_BITS)/8` in an unsigned `cbits`, so for `cbits < 128` the
subtraction wraps before it is divided and squared. The model keeps this as
written (`MatMul.DoubleWordLimit`). `MatMul.DoubleWordLimitExact` shows the
intended value for `cbits >= 128`, and `MatMul.DoubleWordLimitWraps` exhibits
the wrapped value 64 at `cbits = 66`. Only the choice between two exact
kernels depends on it, so the product is correct either way.

## Model

| member | source | states |
|---|---|---|
| Fmpz.FromInt | src/fmpz_extras/lshift_mpn.c:47 | the canonical fmpz of any integer has that value, and it is inline exactly when the value lies in [COEFF_MIN, COEFF_MAX] |
| Fmpz.DemoteVal | src/fmpz/bit_unpack.c:138 | `_fmpz_demote_val` of a normalised sign-and-limbs mpz is canonical and keeps its signed value |
| Fmpz.Neg | src/fmpz/fmms.c:40 | `fmpz_neg` keeps a canonical fmpz canonical and negates its value |
| Fmpz.CanonicalUnique | src/fmpz/fmms.c:62-66 | two canonical fmpz with the same value are the same representation |
| Matrix.Column | src/fmpz_mat/mul.c:38 | column j of a matrix has one entry per row, entry i being m[i][j] |
| Matrix.Product | src/fmpz_mat/mul.c:20-108 | the reference product A·B is an ar×bc matrix (its entries are the inner products Σ_k A[i][k]·B[k][j]) |
| Matrix.Zero | src/fmpz_mat/mul.c:129 | the zero matrix has the given shape and every entry 0 |
| Matrix.RowMagBitsBound | src/fmpz_mat/mul.c:166-167 | every entry of a row is below 2^bits in absolute value for the row's maximum bit count, and that count is 0 exactly when the row is zero |
| Matrix.MagBitsBound | src/fmpz_mat/mul.c:166-167 | every entry of a matrix is below 2^bits for its maximum bit count, which is 0 exactly when the matrix is zero |
| Matrix.MaxBitsMeaning | src/fmpz_mat/mul.c:166-186 | `fmpz_mat_max_bits`: its absolute value bounds every entry's bit length, it is 0 exactly for a zero matrix and negative exactly when some entry is negative |
| Matrix.AbsMulBits | src/fmpz_mat/mul.c:188 | a product of a p-bit and a q-bit magnitude is below 2^(p+q) |
| Matrix.DotBound | src/fmpz_mat/mul.c:188 | an inner product of length k of entries below 2^p and 2^q is at most k·(2^p − 1)(2^q − 1) in absolute value |
| Matrix.DotBitsBound | src/fmpz_mat/mul.c:188 | such an inner product of length br is below 2^(p + q + bitcount(br)), the cbits bound |
| Matrix.PrefixBitsBound | src/fmpz_mat/mul.c:37-38 | every partial sum of the inner product is below 2^(p + q + bitcount(length)) |
| Matrix.ProductOfZero | src/fmpz_mat/mul.c:182-186 | if A or B is all zeros, A·B is the zero matrix |
| Matrix.ProductEmptyInner | src/fmpz_mat/mul.c:127-131 | with inner dimension 0 the product is the zero matrix |
| Matrix.ProductWhenEmpty | src/fmpz_mat/mul.c:127-131 | with any of ar, br, bc zero, the product is the zero ar×bc matrix |
| Matrix.DotTwo | src/fmpz_mat/mul.c:151-159 | an inner product of length 2 is row[0]·col[0] + row[1]·col[1] |
| Matrix.DotStep | src/fmpz_mat/mul.c:37-38 | extending a prefix by one index adds row[k]·col[k] to the partial inner product |
| MatMul.Entries | src/fmpz_mat/mul.c:20-27 | the value of an `array2` matrix is the grid of its entries with the same shape |
| MatMul.Store | src/fmpz_mat/mul.c:40 | writing the (i, j) entry of the product extends the row-major prefix of C that already equals the product |
| MatMul.DoneAll | src/fmpz_mat/mul.c:31-42 | once every row is written, C equals the product |
| MatMul.FitsOfEntries | src/fmpz_mat/mul.c:166-167 | a bit bound on the grid of an array is a bound on every array entry |
| MatMul.RowColFit | src/fmpz_mat/mul.c:65-66 | the bounds on A and B bound every entry of row i of A and column j of B |
| MatMul.SignedIfBelow | src/fmpz_mat/mul.c:38 | a value below 2^63 in absolute value is a signed word |
| MatMul.MatZero | src/fmpz_mat/mul.c:129 | `fmpz_mat_zero` leaves every entry of C zero |
| MatMul.SwapEntrywise | src/fmpz_mat/mul.c:138 | `fmpz_mat_swap_entrywise` exchanges the entries of C and T |
| MatMul.DotExact | src/fmpz_mat/mul.c:145 | the exact accumulation loop returns the inner product of row i of A and column j of B |
| MatMul.WidthStepsSmall | src/fmpz_mat/mul.c:221-222 | under cbits ≤ 62 every term and every partial sum of the inner product is an inline fmpz value |
| MatMul.TermSmall | src/fmpz_mat/mul.c:38 | a term of a p-bit and a q-bit entry with p + q ≤ 62 is inline |
| MatMul.SmallIfBelow | src/fmpz_mat/mul.c:221 | a value below 2^b with b ≤ 62 is inline |
| MatMul.Small1Step | src/fmpz_mat/mul.c:38 | the wrapping one-word add `s += A[i][k]*B[k][j]` is exact while the sum stays a signed word |
| MatMul.Small1Accumulate | src/fmpz_mat/mul.c:38 | one step of the one-word kernel's accumulator gives the next partial inner product |
| MatMul.DotSmall1 | src/fmpz_mat/mul.c:35-40 | the one-word loop returns the exact inner product, which is inline |
| MatMul.Small2aAccumulate | src/fmpz_mat/mul.c:68-69 | one `smul_ppmm` / `add_ssaaaa` step leaves the two-word accumulator equal to the next partial inner product mod 2^128 |
| MatMul.Small2bAccumulate | src/fmpz_mat/mul.c:100-102 | one step of the three-word accumulator gives the next partial inner product mod 2^192 |
| MatMul.DotSmall2a | src/fmpz_mat/mul.c:61-70 | the two-word loop's accumulator is the inner product as a two-word value |
| MatMul.DotSmall2b | src/fmpz_mat/mul.c:93-103 | the three-word loop's accumulator is the inner product as a three-word value |
| MatMul.Small2aExact | src/fmpz_mat/mul.c:72 | under cbits ≤ 127 the signed reading of the two-word accumulator is the exact inner product |
| MatMul.Small2bExact | src/fmpz_mat/mul.c:105 | under 62-bit entries and br < 2^63 the signed reading of the three-word accumulator is exact |
| MatMul.MulClassical | src/fmpz_mat/mul.c:145 | the classical kernel (and every kernel whose source is not part of this model) leaves C = A·B |
| MatMul.MulInner2 | src/fmpz_mat/mul.c:151-159 | the br == 2 path with `fmpz_fmma` leaves C = A·B |
| MatMul.MulSmall1 | src/fmpz_mat/mul.c:20-43 | `_fmpz_mat_mul_small_1` leaves C = A·B when cbits ≤ 62 |
| MatMul.MulSmall2a | src/fmpz_mat/mul.c:45-75 | `_fmpz_mat_mul_small_2a` leaves C = A·B when the entries are inline and cbits ≤ 127 |
| MatMul.MulSmall2b | src/fmpz_mat/mul.c:77-108 | `_fmpz_mat_mul_small_2b` leaves C = A·B when the entries are inline |
| MatMul.DoubleWordLimitExact | src/fmpz_mat/mul.c:267-268 | for 128 ≤ cbits the wrapped threshold equals ((cbits − 128)/8)²·threads |
| MatMul.DoubleWordLimitWraps | src/fmpz_mat/mul.c:267-268 | at cbits = 66 on one thread the unsigned subtraction wraps and the threshold is 64, not 0 |
| MatMul.Select | src/fmpz_mat/mul.c:161-297 | the selector returns the zero kernel only for an empty or zero operand, the inner-2 path only for br = 2, each small kernel only when its width condition on abits, bbits and cbits holds, and the double-word kernel only when abits + sign and bbits + sign are at most 128 |
| MatMul.SelectSmallKernels | src/fmpz_mat/mul.c:209-229 | a small kernel is chosen exactly when br ≥ 3, both magnitudes are in 1..62 and ar < 9 or ar + br < 20, and the one-word kernel exactly when also cbits ≤ 62 |
| MatMul.KernelWidthSafe | src/fmpz_mat/mul.c:219-226 | whenever the selector picks a small kernel, every entry of A·B fits its accumulator: below 2^62, 2^127 or 2^191 |
| MatMul.EntryWidth | src/fmpz_mat/mul.c:188 | every entry of A·B is below 2^w once cbits ≤ w |
| MatMul.MulDistinct | src/fmpz_mat/mul.c:143-297 | with C distinct from A and B and nonzero dimensions, the selected kernel leaves C = A·B |
| MatMul.Mul | src/fmpz_mat/mul.c:110-298 | `fmpz_mat_mul` leaves C equal to the product of A and B as they were on entry, also when C is A or B |
| Fmms.SetSignedUiui | src/fmpz/fmms.c:33 | `fmpz_set_signed_uiui` gives the canonical fmpz of the signed 128-bit value hi:lo |
| Fmms.SmallFmms | src/fmpz/fmms.c:24-35 | the all-inline path gives the canonical a·b − c·d |
| Fmms.SmallFmmsExact | src/fmpz/fmms.c:29-31 | two signed two-word products and a two-word subtract give a·b − c·d exactly for inline a, b, c, d |
| Fmms.ProductBelow | src/fmpz/fmms.c:29-30 | a product of two inline values is at most COEFF_MAX² in absolute value |
| Fmms.FmmsValue | src/fmpz/fmms.c:14-73 | every branch (all inline, a or b zero, c or d zero, general) gives the canonical a·b − c·d |
| Fmms.MulInto | src/fmpz/fmms.c:70 | `fmpz_mul(f, x, y)` sets f to the canonical product of the values x and y had on entry |
| Fmms.SubmulInto | src/fmpz/fmms.c:71 | `fmpz_submul(f, x, y)` sets f to f − x·y, reading all three before writing |
| Fmms.NegInPlace | src/fmpz/fmms.c:65 | `fmpz_neg(f, f)` negates f |
| Fmms.Swap | src/fmpz/fmms.c:58 | `fmpz_swap` exchanges two variables |
| Fmms.FmmsCells | src/fmpz/fmms.c:14-73 | whichever of a, b, c, d is the variable f, f ends as the canonical a·b − c·d of the values on entry |
| FmpzExtras.SetSi | src/fmpz_extras.h:30 | `fmpz_set_si` gives the canonical fmpz of v |
| FmpzExtras.SmallSumSigned | src/fmpz_extras.h:29-30 | the sum of two inline values is a signed word, so the C add does not wrap |
| FmpzExtras.SmallSum | src/fmpz_extras.h:29-30 | the slong sum of two inline values is the exact sum and a signed word |
| FmpzExtras.AddInline | src/fmpz_extras.h:21-33 | `fmpz_add_inline` gives the canonical x + y |
| FmpzExtras.AddSiInline | src/fmpz_extras.h:35-46 | `fmpz_add_si_inline` gives the canonical x + y for every slong y |
| FmpzExtras.SubSiInline | src/fmpz_extras.h:48-59 | `fmpz_sub_si_inline` gives the canonical x − y for every slong y |
| FmpzExtras.AddUiInline | src/fmpz_extras.h:61-70 | `fmpz_add_ui_inline` gives the canonical x + y for every ulong y |
| FmpzExtras.UnsignedSumWraps | src/fmpz_extras.h:66-67 | the slong-plus-ulong sum read back as an slong is the signed wrap of the true sum |
| FmpzExtras.Add2FmpzSiInline | src/fmpz_extras.h:72-94 | `fmpz_add2_fmpz_si_inline` gives the canonical x + y + c |
| FmpzExtras.FloorDiv2Exp | src/fmpz_extras.h:120 | `fmpz_fdiv_q_2exp`: q·2^e ≤ x < (q + 1)·2^e |
| FmpzExtras.CeilDiv2Exp | src/fmpz_extras.h:118 | `fmpz_cdiv_q_2exp`: (q − 1)·2^e < x ≤ q·2^e |
| FmpzExtras.AdivQ2Exp | src/fmpz_extras.h:112-121 | `fmpz_adiv_q_2exp` is the ceiling quotient for x > 0 and the floor quotient otherwise, canonical |
| FmpzExtras.AdivRoundsAway | src/fmpz_extras.h:112-121 | the quotient rounds away from zero: \|x\| ≤ \|q\|·2^e < \|x\| + 2^e, with the sign of x |
| FmpzExtras.SetUi | src/fmpz_extras.h:161 | `fmpz_set_ui` gives the canonical fmpz of a word |
| FmpzExtras.UiMulUi | src/fmpz_extras.h:156-168 | `fmpz_ui_mul_ui` gives the canonical a·b on both paths |
| FmpzExtras.HalfWordProduct | src/fmpz_extras.h:159-161 | two factors below 2^32 have a product that is a word, so the one-word multiply is exact |
| FmpzExtras.Max | src/fmpz_extras.h:170-177 | `fmpz_max` returns one of its arguments, at least both |
| FmpzExtras.Min | src/fmpz_extras.h:179-186 | `fmpz_min` returns one of its arguments, at most both |
| FmpzExtras.MaxMinComplement | src/fmpz_extras.h:170-186 | max + min = x + y, and on a tie max returns x and min returns y, as the comparisons in the source do |
| FmpzExtras.Size | src/fmpz_extras.h:145-154 | `_fmpz_size` is 1 for every inline value (zero included); for an mpz it is the limb count n with 2^(64·(n − 1)) ≤ \|f\| < 2^(64·n) |
| FmpzExtras.SizeMinimal | src/fmpz_extras.h:145-154 | the size is the least limb count that holds the value: any m ≥ 1 with \|f\| < 2^(64·m) is at least size |
| FmpzExtras.GetMpnReadonly | src/fmpz_extras.h:188-203 | `FMPZ_GET_MPN_READONLY` gives size limbs and a sign flag, true exactly for a negative value, whose signed value is f |
| FmpzExtras.SetMpnLarge | src/fmpz_extras.h:96-110 | `fmpz_set_mpn_large` copies n limbs into z, sets the signed size to ±n and the value to ±value(src), growing the buffer to n limbs only when it is too small |
| LshiftMpn.LshiftMpn | src/fmpz_extras/lshift_mpn.c:15-48 | `fmpz_lshift_mpn` leaves the mpz normalised with value ±value(d)·2^shift, its low shift/64 limbs zero, its buffer grown only when too small, and returns the canonical fmpz of that value |
| LshiftMpn.WriteShifted | src/fmpz_extras/lshift_mpn.c:35-44 | the shifted limbs written after the zero limbs have value value(d)·2^bits and a nonzero top limb |
| LshiftMpn.FillShifted | src/fmpz_extras/lshift_mpn.c:32-44 | after clearing and writing, the first zn limbs are normalised, their low shift/64 limbs are zero and their value is value(d)·2^shift |
| LshiftMpn.StripTop | src/fmpz_extras/lshift_mpn.c:42-43 | stripping zero top limbs keeps the value and ends on a nonzero limb |
| LshiftMpn.ShiftedValue | src/fmpz_extras/lshift_mpn.c:25-37 | shift/64 zero limbs followed by the limbs of v·2^(shift mod 64) have value v·2^shift |
| LshiftMpn.ShiftSplit | src/fmpz_extras/lshift_mpn.c:25-26 | v·2^shift = 2^(64·(shift/64))·(v·2^(shift mod 64)) |
| LshiftMpn.ValueAfterZeros | src/fmpz_extras/lshift_mpn.c:33 | k zero limbs below s multiply its value by 2^(64k) |
| LshiftMpn.SignedScale | src/fmpz_extras/lshift_mpn.c:46 | the sign flag commutes with scaling the magnitude |
| Mpn.ZeroLimbs | src/fmpz_extras/lshift_mpn.c:33 | `flint_mpn_zero` zeroes the first n limbs and leaves the rest |
| Mpn.CopyLimbs | src/fmpz_extras/lshift_mpn.c:37 | `flint_mpn_copyi` writes src at the offset and leaves the other limbs |
| Mpn.Com | src/fmpz/bit_unpack.c:107 | `mpn_com` keeps the length |
| Mpn.ComValue | src/fmpz/bit_unpack.c:107 | the complement of n limbs has value 2^(64n) − 1 − value |
| Mpn.Add1 | src/fmpz/bit_unpack.c:109 | `mpn_add_1` keeps the length |
| Mpn.Add1Exact | src/fmpz/bit_unpack.c:123 | adding one to limbs below 2^(64n) − 1 adds one to the value |
| Mpn.ComInPlace | src/fmpz/bit_unpack.c:107 | in place, the buffer becomes its complement, of value 2^(64n) − 1 − old value |
| Mpn.AddOneInPlace | src/fmpz/bit_unpack.c:109 | in place, the buffer's value grows by one |
| Mpn.SetTop | src/fmpz/bit_unpack.c:91 | replacing the top limb keeps every other limb |
| Mpn.ValueSetTop | src/fmpz/bit_unpack.c:91 | the value after replacing the top limb is the low limbs' value plus w·2^(64(n − 1)) |
| Mpn.NormalizeLength | src/fmpz/bit_unpack.c:112-113 | the loop that decrements l stops at the normalised length, which keeps the value |
| BitUnpack.Field | src/fmpz/bit_unpack.c:19-27 | the unsigned bit field of width bits at bit shift is below 2^bits |
| BitUnpack.SignedFieldRange | src/fmpz/bit_unpack.c:23-27 | the two's-complement field lies in [−2^(bits−1), 2^(bits−1)) |
| BitUnpack.FieldTopBit | src/fmpz/bit_unpack.c:23-27 | when the sign bit is set the unsigned field is at least 2^(bits−1) |
| BitUnpack.SignTestCorrect | src/fmpz/bit_unpack.c:23-27 | the test of bit rem_bits − 1 of arr[limbs] (or the top bit of arr[limbs − 1]) is true exactly when the signed field is negative |
| BitUnpack.MaskLow | src/fmpz/bit_unpack.c:34 | masking with (1 << b) − 1 leaves a value below 2^b |
| BitUnpack.CrossField | src/fmpz/bit_unpack.c:36-38 | (arr[0] >> shift) + (arr[1] << (64 − shift)) does not wrap and masks to the field |
| BitUnpack.SmallField | src/fmpz/bit_unpack.c:36-40 | both branches of the small path read exactly the field |
| BitUnpack.SignExtendSmall | src/fmpz/bit_unpack.c:43-44 | adding ~0 << bits and reading the word as signed gives field − 2^bits |
| BitUnpack.UnpackSmall | src/fmpz/bit_unpack.c:29-66 | the small path stores the canonical field value with borrow and negate applied and returns whether the field is negative |
| BitUnpack.SmallSignedRange | src/fmpz/bit_unpack.c:50-58 | for bits ≤ 62 both ±2^(bits−1) are inline values |
| BitUnpack.FieldLimbs | src/fmpz/bit_unpack.c:76 | l = (bits − 1)/64 + 1 is the least limb count holding bits bits |
| BitUnpack.CrossTop | src/fmpz/bit_unpack.c:91 | adding arr[limbs] << (64 − shift) to the top limb does not wrap and completes the field |
| BitUnpack.LimbCounts | src/fmpz/bit_unpack.c:76-90 | limbs + (rem_bits ≠ 0) exceeds l by at most one, and exceeds it exactly when the field spills into another limb |
| BitUnpack.CrossFieldValue | src/fmpz/bit_unpack.c:90-91 | the low l limbs of the shifted array, reduced mod 2^bits, are the field |
| BitUnpack.MaskTopValue | src/fmpz/bit_unpack.c:97 | masking the top limb to b bits reduces the value mod 2^(64(l − 1) + b) |
| BitUnpack.SignExtendTop | src/fmpz/bit_unpack.c:104 | adding ~0 << b to the top limb does not wrap and adds 2^(64l) − 2^bits to the value |
| BitUnpack.ShiftedCopy | src/fmpz/bit_unpack.c:84-87 | `mpn_rshift` (or the copy for shift 0) fills p with the first l limbs of arr shifted down |
| BitUnpack.AddSpill | src/fmpz/bit_unpack.c:90-91 | after adding the spilled bits, p mod 2^bits is the field |
| BitUnpack.ShiftIn | src/fmpz/bit_unpack.c:84-91 | after shifting in and adding the spill, p mod 2^bits is the field |
| BitUnpack.MaskTop | src/fmpz/bit_unpack.c:94-98 | masking the top limb reduces p mod 2^bits |
| BitUnpack.SignExtendInPlace | src/fmpz/bit_unpack.c:103-104 | sign extension adds 2^(64l) − 2^bits to p |
| BitUnpack.NegateField | src/fmpz/bit_unpack.c:102-109 | complementing (and adding one without borrow) gives 2^bits − field − borrow |
| BitUnpack.FieldIntoMpz | src/fmpz/bit_unpack.c:73-98 | the promoted mpz's buffer holds exactly l limbs whose value is the field |
| BitUnpack.Magnitude | src/fmpz/bit_unpack.c:100-123 | the buffer holds the magnitude of the signed field plus borrow |
| BitUnpack.FieldMagnitude | src/fmpz/bit_unpack.c:78-116 | the field copied into the mpz's limbs and turned into its magnitude plus borrow ends in l normalised limbs holding that magnitude |
| BitUnpack.SetSignedSize | src/fmpz/bit_unpack.c:115-138 | setting the signed size, negating and demoting gives a canonical fmpz equal to the mpz |
| BitUnpack.UnpackLarge | src/fmpz/bit_unpack.c:67-141 | the large path stores the canonical field value with borrow and negate applied, in a normalised mpz of l limbs, and returns whether the field is negative |
| BitUnpack.BitUnpack | src/fmpz/bit_unpack.c:15-142 | `fmpz_bit_unpack` stores the canonical (−1)^negate·(signed field + borrow) and returns 1 exactly when the field is negative |
| BitUnpack.BitUnpackUnsigned | src/fmpz/bit_unpack.c:144-207 | `fmpz_bit_unpack_unsigned` stores the canonical unsigned field, in [0, 2^bits) |
| Bitwise.Pow2Word | src/fmpz/abs_ubound_ui_2exp.c:66 | the word 1 << k is 2^k |
| Bitwise.PowerOfTwoTestExact | src/fmpz/abs_ubound_ui_2exp.c:63-68 | for an incremented mantissa in (2^(b−1), 2^b], `(m & (m − 1)) == 0` holds exactly when m = 2^b |
| Bitwise.OrDisjoint | src/fmpz/abs_lbound_ui_2exp.c:56 | or-ing a·2^k with c < 2^k is addition |
| TopBits.ShrWindow | src/fmpz/abs_lbound_ui_2exp.c:66-67 | shifting x down by bitlength(x) − b leaves a b-bit value |
| TopBits.WordBits | src/fmpz/abs_lbound_ui_2exp.c:64-65 | a nonzero word has between 1 and 64 bits |
| TopBits.TopBitLength | src/fmpz/abs_lbound_ui_2exp.c:33-46 | the bit length of a normalised limb vector is 64·(size − 1) + bitlength(top limb) |
| TopBits.SingleWindow | src/fmpz/abs_lbound_ui_2exp.c:64-71 | a one-word magnitude gives a b-bit m with exp = bitlength − b, exact when exp ≤ 0 and truncated otherwise |
| TopBits.ShlUp | src/fmpz/abs_lbound_ui_2exp.c:68-69 | a short word shifted left by the missing bits is exact and has b bits |
| TopBits.TopWindow | src/fmpz/abs_lbound_ui_2exp.c:28-60 | for two or more limbs, m = \|x\| >> exp with b bits and exp = bitlength(\|x\|) − b > 0 |
| TopBits.TopLimbWindow | src/fmpz/abs_lbound_ui_2exp.c:48-51 | when the top limb has enough bits, m is the top limb shifted down |
| TopBits.TopLimbShifted | src/fmpz/abs_lbound_ui_2exp.c:48-51 | top >> shift is the whole value shifted down by 64·(size − 1) + shift |
| TopBits.WindowAt | src/fmpz/abs_lbound_ui_2exp.c:46-57 | in either case the window is the value shifted down by exp = 64·(size − 1) + shift, with exp ≥ 0 |
| TopBits.TwoLimbWindow | src/fmpz/abs_lbound_ui_2exp.c:52-57 | when the top limb is short, m is assembled from the top two limbs and equals the value shifted down |
| TopBits.TwoLimbOr | src/fmpz/abs_lbound_ui_2exp.c:56 | the or of the shifted top limb and the next limb's high bits is their sum and fits in a word |
| AbsLbound.OneLimb | src/fmpz/abs_lbound_ui_2exp.c:35-38 | a one-limb normalised mpz has the value of its limb, which is nonzero |
| AbsLbound.AbsLboundUi2Exp | src/fmpz/abs_lbound_ui_2exp.c:16-72 | `fmpz_abs_lbound_ui_2exp`: 2^(bits−1) ≤ m < 2^bits, exp = bitlength(\|x\|) − bits, m = \|x\| >> exp for exp ≥ 0 and \|x\| << −exp otherwise |
| AbsLbound.LboundBrackets | src/fmpz/abs_lbound_ui_2exp.c:64-71 | the lower bound truncates: m·2^exp ≤ \|x\| < (m + 1)·2^exp, and is exact when \|x\| has at most bits bits |
| AbsUbound.RoundUp | src/fmpz/abs_ubound_ui_2exp.c:49-68 | incrementing a truncated b-bit window and renormalising on a power of two gives a b-bit m = v >> e' + 1, with e' = e + 1 exactly when the window was all ones |
| AbsUbound.SingleUbound | src/fmpz/abs_ubound_ui_2exp.c:75-93 | a one-word magnitude gives a b-bit m, exact when shifted up and one more than the truncation when shifted down |
| AbsUbound.MultiUbound | src/fmpz/abs_ubound_ui_2exp.c:40-71 | for two or more limbs m = \|x\| >> exp + 1 with b bits and exp one more than the truncation exponent only after a carry |
| AbsUbound.AbsUboundUi2Exp | src/fmpz/abs_ubound_ui_2exp.c:16-97 | `fmpz_abs_ubound_ui_2exp`: 2^(bits−1) ≤ m < 2^bits, m = \|x\| >> exp + 1 for exp ≥ 0 and \|x\| << −exp otherwise, exp = bitlength − bits or one more with m = 2^(bits−1) |
| AbsUbound.UboundBrackets | src/fmpz/abs_ubound_ui_2exp.c:79-89 | the upper bound is strict and tight: (m − 1)·2^exp ≤ \|x\| < m·2^exp when exp ≥ 0 |
| AbsUbound.UboundAboveLbound | src/fmpz/abs_ubound_ui_2exp.c:16-97 | when upper and lower bounds share a nonnegative exponent, the upper mantissa is the lower plus one |
| MagSetUi.MagSetUiUpper | src/mag/set_ui.c:14-47 | `mag_set_ui`: 0 gives (0, 0); otherwise a b-bit mantissa, exact for a short x, and for a long x man = x >> (exp − b) + 1 with exp = bitlength(x), or one more with man = 2^(b−1) after a carry |
| MagSetUi.MagSetUiLower | src/mag/set_ui.c:49-74 | `mag_set_ui_lower`: 0 gives (0, 0); otherwise exp = bitlength(x), a b-bit mantissa, exact for a short x and man·2^(exp−b) ≤ x < (man + 1)·2^(exp−b) for a long one |
| MagSetUi.MagSetUi | src/mag/set_ui.c:14-47 | `mag_set_ui` at MAG_BITS = 30: 0 gives (0, 0); otherwise 2^29 ≤ man < 2^30, exact with exp = bitlength(x) for x < 2^30, and for a longer x exp > 30 and (man − 1)·2^(exp−30) ≤ x < man·2^(exp−30) |
| MagSetUi.MagSetUiLower30 | src/mag/set_ui.c:49-74 | `mag_set_ui_lower` at MAG_BITS = 30: 0 gives (0, 0); otherwise exp = bitlength(x) and 2^29 ≤ man < 2^30, exact for x < 2^30, and man·2^(exp−30) ≤ x < (man + 1)·2^(exp−30) for a longer x |
| MagSetUi.ShortMag | src/mag/set_ui.c:32-35 | a short x is shifted up exactly to a b-bit mantissa with exp = bitlength(x) |
| MagSetUi.LongMagUpper | src/mag/set_ui.c:36-42 | a long x rounds up to man = x >> (exp − b) + 1 of b bits, exp growing by one only on a carry |
| MagSetUi.LongMagLower | src/mag/set_ui.c:68-69 | a long x truncates to a b-bit man with man·2^(exp−b) ≤ x < (man + 1)·2^(exp−b) |
| MagSetUi.RoundedWindow | src/mag/set_ui.c:38 | (x >> (bits − b)) + 1 lies in (2^(b−1), 2^b] |
| MagSetUi.Carry | src/mag/set_ui.c:39-41 | overflow = y >> b is 0 or 1, and 1 exactly when y = 2^b |
| MagSetUi.CarryHalves | src/mag/set_ui.c:39-41 | shifting out the carry keeps man = x >> (e + o) + 1 within b bits |
| MagSetUi.RoundWindow | src/mag/set_ui.c:36-42 | the rounded and renormalised mantissa is x >> (e + o) + 1 with b bits, 2^(b−1) after a carry |
| MagSetUi.TruncWindow | src/mag/set_ui.c:68-69 | the truncated window m = x >> e has b bits and m·2^e ≤ x < (m + 1)·2^e |
| MagSetUi.UpperBrackets | src/mag/set_ui.c:36-42 | `mag_set_ui` is an upper bound at most one unit too large: for x of more than b bits, exp > b and (man − 1)·2^(exp−b) ≤ x < man·2^(exp−b) |
| MagSetUi.UpperLowerAdjacent | src/mag/set_ui.c:14-74 | the two roundings agree on a short x, and on a long x without a carry the upper mantissa is the lower plus one |
| Fib.TableStepAt | src/fmpz/fib_ui.c:25-48 | every entry of `small_fib` from index 2 on is the sum of the two before it |
| Fib.RunIsFib | src/fmpz/fib_ui.c:25-48 | a sequence starting 0, 1 whose entries each sum the two before has F(i) at index i |
| Fib.TableIsFib | src/fmpz/fib_ui.c:25-48 | `small_fib` has NUM_SMALL_FIB = 94 entries and entry i is F(i) |
| Fib.FibFitsWord | src/fmpz/fib_ui.c:25-48 | F(n) < 2^64 for n < 94 |
| Fib.FibAdd | src/fmpz/fib_ui.c:61-72 | the addition formula F(m + n + 1) = F(m + 1)F(n + 1) + F(m)F(n) |
| Fib.Cassini | src/fmpz/fib_ui.c:61-68 | F(k − 1)F(k + 1) − F(k)² = (−1)^k |
| Fib.FibDoubleEven | src/fmpz/fib_ui.c:69-72 | F(2k) = F(k)(F(k) + 2F(k − 1)) |
| Fib.FibDoubleOdd | src/fmpz/fib_ui.c:61-68 | F(2k + 1) = (2F(k) + F(k − 1))(2F(k) − F(k − 1)) + 2(−1)^k |
| Fib.NoCarryAt | src/fmpz/fib_ui.c:63-67 | for every k of the doubling range, adding ±2 to the low word of the odd-path product neither carries nor borrows |
| Fib.DoublingFactors | src/fmpz/fib_ui.c:63 | the one-word factors 2F(k) + F(k − 1) and 2F(k) − F(k − 1) do not overflow |
| Fib.SetUiUi | src/fmpz/fib_ui.c:73 | `fmpz_set_uiui` gives the canonical fmpz of the two-word value hi:lo |
| Fib.OddPath | src/fmpz/fib_ui.c:61-68 | the odd doubling path yields the two-word value F(2k + 1) |
| Fib.EvenPath | src/fmpz/fib_ui.c:69-72 | the even doubling path yields the two-word value F(2k) |
| Fib.EvenPathExact | src/fmpz/fib_ui.c:71 | `umul_ppmm` of F(k) and F(k) + 2F(k − 1) is exactly F(2k) |
| Fib.EvenPathFib | src/fmpz/fib_ui.c:69-72 | F(k)·(F(k) + 2F(k − 1)) = F(2k) |
| Fib.OddPathExact | src/fmpz/fib_ui.c:63-67 | the two-word product with the ±2 applied to the low word is exactly F(2k + 1) |
| Fib.OddPathWords | src/fmpz/fib_ui.c:63-67 | hi·2^64 + lo is the product plus ±2 when no carry crosses the word boundary |
| Fib.OddPathFib | src/fmpz/fib_ui.c:61-68 | the odd-path product plus ±2 is F(2k + 1) |
| Fib.LowWordShift | src/fmpz/fib_ui.c:64-67 | adding c to the low word alone adds c to the two-word value when no carry occurs |
| Fib.DoublingPath | src/fmpz/fib_ui.c:56-74 | for n in [NUM_SMALL_FIB, NUM_SMALL_FIB2) the doubling path gives the two-word F(n) |
| Fib.FibUi | src/fmpz/fib_ui.c:50-79 | `fmpz_fib_ui` gives the canonical fmpz of F(n) for every n |
| Mod2Preinv.RShift | src/ulong_extras/mod2_preinv.c:21 | `r_shift` is x / 2^c, and 0 for a shift by the full word |
| Mod2Preinv.Normalize | src/ulong_extras/mod2_preinv.c:30-31 | n << clz(n) equals n·2^clz(n) and has its top bit set |
| Mod2Preinv.NormalizeExact | src/ulong_extras/mod2_preinv.c:30-31 | the normalising shift does not lose bits |
| Mod2Preinv.PreinvOf | src/ulong_extras/mod2_preinv.c:24-28 | the precomputed inverse ninv = floor((2^128 − 1)/d) − 2^64 of the normalised d is a word |
| Mod2Preinv.PreinvRemainder | src/ulong_extras/mod2_preinv.c:37 | (2^64 + ninv)·d + k0 = 2^128 − 1 with 0 ≤ k0 < d |
| Mod2Preinv.SplitShifted | src/ulong_extras/mod2_preinv.c:34-35 | u1:u0 = (a >> (64 − norm)):(a << norm) is a·2^norm and u1 < 2^norm |
| Mod2Preinv.QuotientWords | src/ulong_extras/mod2_preinv.c:37-38 | the two-word q = ninv·u1 + u1:u0 is computed exactly |
| Mod2Preinv.SumBelow | src/ulong_extras/mod2_preinv.c:38 | ninv·u1 + u1:u0 stays below 2^128 |
| Mod2Preinv.CandidateIdentity | src/ulong_extras/mod2_preinv.c:40 | the scaled candidate remainder equals u1(1 + k0) + u0(2^64 − d) + d(q0 − 2^64) |
| Mod2Preinv.CandidateTerms | src/ulong_extras/mod2_preinv.c:40-43 | bounds on the three terms of that identity |
| Mod2Preinv.CandidateAboveMinusD | src/ulong_extras/mod2_preinv.c:40-43 | the candidate remainder is at least −d |
| Mod2Preinv.CandidateAboveQ0 | src/ulong_extras/mod2_preinv.c:40-43 | the candidate remainder is at least q0 + 1 − 2^64 |
| Mod2Preinv.CandidateBelowMax | src/ulong_extras/mod2_preinv.c:40-43 | the candidate remainder is below max(2^64 − d, q0) |
| Mod2Preinv.CandidateBounds | src/ulong_extras/mod2_preinv.c:37-40 | the candidate remainder u − (q1 + 1)d lies in [max(−d, q0 + 1 − 2^64), max(2^64 − d, q0)) |
| Mod2Preinv.WrappedCandidate | src/ulong_extras/mod2_preinv.c:40 | computing u0 − (q1 + 1)·d mod 2^64 gives the true candidate mod 2^64 |
| Mod2Preinv.CandidateInWords | src/ulong_extras/mod2_preinv.c:40 | the word expression for r equals the candidate remainder mod 2^64 |
| Mod2Preinv.Corrections | src/ulong_extras/mod2_preinv.c:42-45 | adding d back when r > q0 and subtracting it once more when r ≥ d gives u mod d |
| Mod2Preinv.CorrectedRemainder | src/ulong_extras/mod2_preinv.c:37-45 | the candidate remainder of the two-word quotient estimate, corrected as the source does, is (u1·2^64 + u0) mod d |
| Mod2Preinv.ShiftedParts | src/ulong_extras/mod2_preinv.c:30-35 | u1:u0 is a·2^norm and u1 < d |
| Mod2Preinv.ScaledRemainder | src/ulong_extras/mod2_preinv.c:45 | (a·2^norm) mod (n·2^norm) = (a mod n)·2^norm, and shifting it right by norm gives a mod n |
| Mod2Preinv.Mod2PreinvSteps | src/ulong_extras/mod2_preinv.c:30-45 | the steps of the algorithm produce a remainder whose shift by norm is a mod n |
| Mod2Preinv.Mod2Preinv | src/ulong_extras/mod2_preinv.c:23-47 | `n_mod2_preinv` returns a mod n for every a and every n ≠ 0 with its precomputed inverse |
| DivremPreinvn.PreinvnOf | src/mpn_extras/divrem_preinvn.c:24 | the n-limb inverse floor((2^(128n) − 1)/d) − 2^(64n) is below 2^(64n) |
| DivremPreinvn.Preinvn | src/mpn_extras/divrem_preinvn.c:24 | the inverse of a normalised d fits in |d| limbs |
| DivremPreinvn.PreinvnValue | src/mpn_extras/divrem_preinvn.c:24 | the inverse plus 2^(64n) is floor((2^(128n) − 1)/d) |
| DivremPreinvn.InverseRange | src/mpn_extras/divrem_preinvn.c:24 | for a normalised d, p ≤ (p² − 1)/d < 2p |
| DivremPreinvn.Normalised | src/mpn_extras/divrem_preinvn.c:23-24 | a top limb with its high bit set gives 2^(64n) ≤ 2d < 2^(64n+1) |
| DivremPreinvn.TruncatedInverse | src/mpn_extras/divrem_preinvn.c:86 | truncating the inverse to its high limbs commutes with adding 2^(64s) |
| DivremPreinvn.EstimateAsQuotient | src/mpn_extras/divrem_preinvn.c:86 | the mulhigh estimate plus the top limbs is the truncated full-inverse quotient |
| DivremPreinvn.EstimateLow | src/mpn_extras/divrem_preinvn.c:50-51 | the quotient estimate never exceeds the true quotient |
| DivremPreinvn.EstimateHigh | src/mpn_extras/divrem_preinvn.c:50-51 | the quotient estimate is short of the true quotient by fewer than three |
| DivremPreinvn.EstimateCore | src/mpn_extras/divrem_preinvn.c:50-51 | q·d ≤ x < q·d + 5d and q fits its limbs |
| DivremPreinvn.EstimateBounds | src/mpn_extras/divrem_preinvn.c:50-51 | the estimate q of a block x satisfies q·d ≤ x < q·d + 5d and has s limbs |
| DivremPreinvn.SubLowLimbs | src/mpn_extras/divrem_preinvn.c:53-56 | subtracting q·d in the low limbs leaves a top-limb difference and a low remainder with c·2^(64n) + r = x − q·d |
| DivremPreinvn.LowLimbsDifference | src/mpn_extras/divrem_preinvn.c:56 | the top limb computed in wrapping word arithmetic is that difference |
| DivremPreinvn.SubtractStep | src/mpn_extras/divrem_preinvn.c:60-61 | one correction subtracts d from r and adds one to q, preserving q·d + r |
| DivremPreinvn.QuotientBound | src/mpn_extras/divrem_preinvn.c:70 | the quotient of a block below d·2^(64s) fits in s limbs |
| DivremPreinvn.QuotientRoom | src/mpn_extras/divrem_preinvn.c:66-67 | while a correction is still due the quotient increment does not carry out of s limbs |
| DivremPreinvn.Correct | src/mpn_extras/divrem_preinvn.c:58-68 | the correction loops end with q·d + r = x, r < d and q < 2^(64s) |
| DivremPreinvn.Step | src/mpn_extras/divrem_preinvn.c:50-70 | one block step gives x = q·d + r with r < d |
| DivremPreinvn.BlockBelow | src/mpn_extras/divrem_preinvn.c:70 | a remainder below d followed by k limbs is below d·2^(64k) |
| DivremPreinvn.PendingStep | src/mpn_extras/divrem_preinvn.c:72-75 | moving down k limbs after a block step keeps the loop invariant value(a) = low + 2^(64l)(rem + d·quotient) |
| DivremPreinvn.BlockStepValue | src/mpn_extras/divrem_preinvn.c:72-75 | the block step's equation regroups into the invariant for the new position |
| DivremPreinvn.QuotientPrepend | src/mpn_extras/divrem_preinvn.c:72-75 | prepending k new low quotient limbs adds qb to the quotient scaled by 2^(64k) |
| DivremPreinvn.TopBlock | src/mpn_extras/divrem_preinvn.c:34-41 | the top-limb comparison starts the invariant with an empty quotient |
| DivremPreinvn.TopLimbs | src/mpn_extras/divrem_preinvn.c:34-41 | the returned high word is 1 exactly when the top n limbs of a are at least d, and the remainder block is below d |
| DivremPreinvn.DivideBlock | src/mpn_extras/divrem_preinvn.c:48-76 | one pass of the main loop prepends k quotient limbs and keeps the remainder below d and the invariant |
| DivremPreinvn.DivideLimbs | src/mpn_extras/divrem_preinvn.c:47-108 | the main loop and the leftover step produce |a| − n quotient limbs and a remainder below d with the invariant at position 0 |
| DivremPreinvn.Finish | src/mpn_extras/divrem_preinvn.c:107-112 | the invariant at position 0 is value(a) = quotient·d + r |
| DivremPreinvn.DivremPreinvn | src/mpn_extras/divrem_preinvn.c:23-113 | `flint_mpn_divrem_preinvn` returns hi = [top n limbs ≥ d], |a| − n quotient limbs and n remainder limbs with value(a) = (hi·2^(64(|a|−n)) + q)·d + r and r < d |
| Compression.MaxDegree | src/fq_nmod_mpoly_factor/compression.c:33-35 | the loop finds the maximum of degs[0..mvars) |
| Compression.MaxOfIsMaximum | src/fq_nmod_mpoly_factor/compression.c:33-35 | that maximum bounds every listed degree and is one of them |
| Compression.LBits | src/fq_nmod_mpoly_factor/compression.c:36 | Lbits = 1 + bitcount(max degree) is at least 1 |
| Compression.DegreesFit | src/fq_nmod_mpoly_factor/compression.c:36 | every degree is below 2^(Lbits − 1), so the packed exponents keep a free bit |
| Compression.DegreeBelowWord | src/fq_nmod_mpoly_factor/compression.c:33-36 | a maximum degree that is a slong is below 2^64 |
| Compression.ReadRow | src/fq_nmod_mpoly_factor/compression.c:46 | row i of M->exps has mvars entries |
| Compression.CopyStep | src/fq_nmod_mpoly_factor/compression.c:45 | the coefficient blocks copied so far concatenate to the first d·(i + 1) coefficients |
| Compression.CopyTerm | src/fq_nmod_mpoly_factor/compression.c:45-46 | copying term i appends its d coefficients and its exponent row to L |
| Compression.CompressionDo | src/fq_nmod_mpoly_factor/compression.c:33-47 | up to the call of `fq_nmod_mpoly_sort_terms`: L's bits are 1 + FLINT_BIT_COUNT(max_deg), the value line 36 hands to `mpoly_fix_bits`; L's length is Alen, its coefficients are A's and its exponent row i is row i of M->exps |
| Compression.IndexValue | src/fq_nmod_mpoly_factor/compression.c:94 | the slot of variable k in term i is i·nvars + k |
| Compression.IndexBound | src/fq_nmod_mpoly_factor/compression.c:82 | every slot of n terms is below n·nvars |
| Compression.IndexDistinct | src/fq_nmod_mpoly_factor/compression.c:94 | distinct (term, variable) pairs have distinct slots |
| Compression.RowFits | src/fq_nmod_mpoly_factor/compression.c:93 | each row of umat lies inside the matrix |
| Compression.RawExponent | src/fq_nmod_mpoly_factor/compression.c:91-93 | the inner loop computes deltas[k] + Σ_l umat[k·nvars + l]·texps[l] |
| Compression.RawSlotStep | src/fq_nmod_mpoly_factor/compression.c:94 | storing a raw exponent extends the prefix of slots that hold raw exponents |
| Compression.RawTerm | src/fq_nmod_mpoly_factor/compression.c:89-96 | term i stores all its raw exponents and folds them into mins |
| Compression.RawPass | src/fq_nmod_mpoly_factor/compression.c:85-97 | the first loop copies the coefficients and leaves every slot raw and mins[k] the column minimum |
| Compression.ColumnMinBelow | src/fq_nmod_mpoly_factor/compression.c:79-80 | the running minimum starting at WORD_MAX bounds every raw exponent seen |
| Compression.ColumnMinAttained | src/fq_nmod_mpoly_factor/compression.c:79-95 | the minimum is WORD_MAX or one of the raw exponents |
| Compression.RawShift | src/fq_nmod_mpoly_factor/compression.c:91-93 | changing deltas[k] by c changes the raw exponent of variable k by c |
| Compression.ColumnMinShift | src/fq_nmod_mpoly_factor/compression.c:95 | changing deltas[k] by c changes the column minimum by c |
| Compression.ShiftedIgnoresDeltas | src/fq_nmod_mpoly_factor/compression.c:99-102 | the normalised exponents do not depend on deltas |
| Compression.ShiftSlotStep | src/fq_nmod_mpoly_factor/compression.c:102 | subtracting the minimum from a slot extends the prefix of normalised slots |
| Compression.RawToShifted | src/fq_nmod_mpoly_factor/compression.c:94-102 | the raw slots start the second loop's invariant |
| Compression.TermRow | src/fq_nmod_mpoly_factor/compression.c:103 | the row handed to A holds the nvars slots of term i as words |
| Compression.ShiftTerm | src/fq_nmod_mpoly_factor/compression.c:101-103 | term i has mins subtracted from its slots and its row set in A |
| Compression.ShiftPass | src/fq_nmod_mpoly_factor/compression.c:99-105 | the second loop leaves every slot raw − mins[k] and A's exponent rows those values |
| Compression.ShiftedNonnegative | src/fq_nmod_mpoly_factor/compression.c:99-102 | every normalised exponent is at least 0 |
| Compression.ShiftedReachesZero | src/fq_nmod_mpoly_factor/compression.c:99-102 | for a nonempty L every variable has a term with normalised exponent 0 |
| Compression.CompressionUndo | src/fq_nmod_mpoly_factor/compression.c:55-105 | up to the call of `fq_nmod_mpoly_sort_terms`: `compression_undo` gives A the length and coefficients of L, in L's term order, and, for every term and variable, the raw exponent minus its column minimum |

## Left out

- The BLAS branch of `fmpz_mat_mul` (src/fmpz_mat/mul.c:190-207) is floating point and a foreign call; the selector models the build without it.
- `flint_get_num_threads` (src/fmpz_mat/mul.c:234, 268) is a parameter of `MatMul.Select` and `MatMul.Mul`.
- The kernels `fmpz_mat_mul_classical`, `fmpz_mat_mul_strassen`, `fmpz_mat_mul_waksman`, `_fmpz_mat_mul_multi_mod`, `_fmpz_mat_mul_double_word_internal` and `_fmpz_mat_mul_small_internal` are not part of this model: their tags are selected, and each is run by `MatMul.MulClassical`, whose contract is the exact product.
- The Waksman tests `max_bits <= 1.1 * min_bits` and `max_bits <= 1.6 * min_bits` are compared exactly as 10·max ≤ 11·min and 5·max ≤ 8·min; rounding of the double-precision products is not modelled.
- `fmpz_mul`, `fmpz_submul`, `fmpz_add`, `fmpz_add_si`, `fmpz_sub_si`, `fmpz_add_ui`, `fmpz_mul_ui`, `fmpz_cdiv_q_2exp`, `fmpz_fdiv_q_2exp` and `fmpz_fmma` are taken as giving the exact canonical result; their source is not part of this model.
- mpz and mpn memory management (`_fmpz_promote`, `mpz_realloc`, `mpz_realloc2`, `TMP_ALLOC`, `fmpz_mat_init`/`clear`) is modelled by values and fresh arrays; allocation failure is not modelled.
- `flint_mpn_mul_or_mulhigh_n` and `mpn_mul` in `flint_mpn_divrem_preinvn` are modelled as exact products on limb values, and `mpn_sub_n`/`mpn_add_n` by their values with the borrow or carry.
- DivremPreinvn.DivremPreinvn works on limb sequences and returns q and r as values; writing into the caller's buffers, the temporary t and the `rp == ap` aliasing are not modelled.
- The large-n path of `fmpz_fib_ui` (src/fmpz/fib_ui.c:77) calls `flint_mpz_fib_ui`, a foreign routine; `Fib.FibUi` returns F(n) there.
- In compression.c, `mpoly_fix_bits`, `mpoly_words_per_exp`, the monomial packing (`mpoly_set_monomial_ui`, `mpoly_get_monomial_ui`), `fq_nmod_mpoly_sort_terms` and `fq_nmod_mpoly_make_monic` are not part of this model; exponents are kept as unpacked vectors of words.
- Compression.CompressionDo: the contract gives L as lines 33-47 leave it, with the bit count passed to `mpoly_fix_bits` rather than the one it returns (which can be larger, at least MPOLY_MIN_BITS); the reordering by `fq_nmod_mpoly_sort_terms` and the scaling by `fq_nmod_mpoly_make_monic` (lines 50-51) are not applied.
- Compression.CompressionUndo: the contract gives A as lines 84-105 leave it; the reordering by `fq_nmod_mpoly_sort_terms` and the scaling by `fq_nmod_mpoly_make_monic` (lines 109-110) are not applied. The slong accumulator `tot` and the stored exponents are unbounded integers, so an slong overflow of `tot` is not modelled.
- `_fmpz_set_si_small` and `_fmpz_sub_small` (src/fmpz_extras.h:123-143) are not part of this model: neither is among the helpers modelled here, and the second forwards to `_fmpz_sub_small_large`, whose source is not available.
- LshiftMpn.LshiftMpn requires the top limb of d to be nonzero, a normalised input; the source needs only a nonzero d, and only when the shift is not a multiple of 64.
- BitUnpack.BitUnpack requires bits ≥ 1 (with bits = 0 the sign test reads bit shift − 1 of the array) and shift < 64, as the callers guarantee.
- Mul (MatMul.Mul) requires br < 2^63, the range of an slong dimension.
- MagSetUi.MagSetUiUpper and MagSetUi.MagSetUiLower are stated for a mantissa width b with 1 ≤ b < 64; `mag.h` fixes it at MAG_BITS = 30, the instance stated by `MagSetUi.MagSetUi` and `MagSetUi.MagSetUiLower30`. The fmpz exponent of a `mag_t` is an unbounded integer here.
- Bounds returned as (m, exp) pairs by the `abs_*bound_ui_2exp` functions are values; the `slong *exp` out-parameter is not modelled as a pointer.
