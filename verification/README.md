# Contrib algorithms of PostgreSQL 8.2.4

A Dafny model of the self-contained algorithms in PostgreSQL's contrib
modules, with proofs of what they compute.

**Multi-precision arithmetic** (`pgcrypto/imath.c`). Numbers are arrays of
base-2^32 digits with a length and a sign. The model keeps the arrays, the
offsets into shared buffers and the aliasing of outputs with inputs; every
routine is proved against the integer its digits denote. It goes from the carry
loops over Karatsuba multiplication and squaring, shifts, long division,
Barrett reduction and modular exponentiation to binary gcd, extended gcd,
modular inverse, square root and two's complement conversion. `Digits` and
`Buffers` hold runs of digits, `MpInts` the number record, `Quotients` what the
digits of the long division denote, `QuotientRoom` how many there are, `EgcdRows`
the extended gcd in numbers, the other modules one algorithm each.

**Integer-array indexes** (`intarray`). Sorting and merging, the lossy
compression of index keys to 100 ranges (and why the greedy choice is the best
cover), page splitting, searching trees of range keys and of signatures, and
boolean queries: linked postfix form, evaluation, the operator-stack parser
(`BoolGrammar` says which texts it accepts, `BoolTokens` what it puts out for
them, `BoolPostfix` when that is a postfix form, `BoolDistinct` when the meaning
survives) and the printer.

**hstore**. Packed entries and data as a map: the two-level parser, the grammar
of what it accepts (`HstoreGrammar`), the printer, sorting out duplicates, lookup, deletion, concatenation and containment.

**Levenshtein distance** as the length of a shortest edit script, and
**Blowfish in ECB and CBC mode** (sections 6.1 and 6.2 of NIST SP 800-38A) over
whole runs of calls.

State that the C code updates in place is held in arrays and in classes
(`MpInt`, `BfCipher`, `Output`, `HSParser`, `WorkState`); each method is tied to
a function or a number, and the theorems are about those.
`dafny verify dfyconfig.toml` covers the whole project.

## Where the code differs from what one might expect

- `s_udiv` is documented to leave a / b. When a partial remainder has one digit
  more than the divisor and the same top digit, it puts out several digits for
  one position. The quotient is right exactly when that does not happen
  (`Division.UDiv`, `Quotients.TieExample`); the remainder is right either way, as
  long as the digits fit their buffer:
- Each such tie puts out surplus digits, and the buffer for them is only as long as
  the dividend. `Division.DivideDigits` has the exact number of digits, and the
  routines built on it ask that they fit. Without a tie they do
  (`QuotientRoom.NoTieFits`); for B^56 by 2^64 - 2^32 + 1 they do not
  (`QuotientRoom.PowerFitsExactly`).
- So `s_brmu` does not give the reduction constant of every modulus:
  `ModExp.Brmu` has the exact condition, and it fails for the prime
  2^64 - 2^32 + 1 (`Quotients.TieModulus`).
- `mp_int_sqrt` stops a step early on some numbers one less than a square, for
  example 3, 8 and 48, and is then one too large. `SquareRoot.Sqrt` says exactly
  when: the iteration meets the number two above the root.
- `mp_int_exptmod` gives 1 for b = 0 also modulo 1 (`ModExp.ExptMod`).
- `mp_int_mul` asks for as many digits as the product has, `s_embar` for twice the
  reduction constant's; `Multiply.RoomExactly` and `ModExp.ScratchExactly` say when
  Karatsuba touches more.
- `mp_int_compare` answers wrongly for two zeros whose sign fields differ;
  `Signed.Compare` says that this is the only such case, and `Signed.Add` that a
  sum can be such a zero.
- `s_qsub` does not update the length, so its result is the difference only
  when that fits the old length; `Barrett.WrapDifference` shows that in `s_reduce`
  it does.
- The comment of `mp_int_egcd` promises c = ax + by; the code gives it for the
  absolute values. `EgcdRows.PromiseHoldsExactly` says for which signed operands
  that is the same.
- In `g_int_compress` a gap of 2^31 or more wraps to a negative difference and
  is closed first. The key is still covered; that the closed gaps are the
  smallest holds exactly when there is no such gap (`IntRanges.CompressRanges`,
  `IntRanges.HugeGapExample`).
- `g_int_decompress` counts in 32 bits and does not end on a range up to
  2^31 - 1, and its size wraps from 2^31 integers on; otherwise it is right
  (`IntRanges.EndsExactly`, `IntRanges.Decompress`). The index theorems are about
  trees whose stored keys can be decompressed; `IntSplit.InnerKey` has the exact
  condition for the next key.
- A leaf key of 200 or more elements is taken for ranges; the source gives a
  notice. With an odd number of elements the last pair is read past the array.
  With an even number, where decompression ends, the test is right, for any
  strategy, exactly when the key is made of pairs of neighbours
  (`IntIndex.LongLeafExactly`).
- `findoprnd` keeps links in 16 bits; they are right exactly when no right
  operand has more than 32767 items (`BoolQuery.StoredExactly`).
- `makepol` pops one operator behind a parenthesis, so `1 & !( 2 | 3 ) | 4` is
  read as `(1 | !(2 | 3)) & 4`. Printed queries keep their meaning when no
  disjunction has a conjunction pending on its left, and with different values
  only then (`BoolText.ReadMeans`, `BoolDistinct.CleanExactly`).
- For the same reason `!!(1)|2` does not give a postfix form at all. The exact
  condition is that a level reads `|` with a non-empty stack while no `&` or `|`
  is pending (`BoolPostfix.WellFormedExactly`).
- `bf_decrypt` takes the next vector from the input buffer after decrypting, so
  decrypting in place chains the plaintext (`BfCiphers.BfCipher.Decrypt`).
- `inner_int_inter` compares its first element with the word before the output,
  the lower bound 1 of the new array. So a 1 is lost when it is the least common
  element and something less was passed: {0,1} & {1} is empty
  (`IntInter.InnerInter`). Page splitting measures waste with it
  (`IntSplit.WasteIs`).
- An unquoted hstore value may begin with a comma: `a=>,b` gives `,b`
  (`HstoreGrammar.ProperLexeme`).
- `_int_same` compares with duplicates, the index without; the operator class
  rechecks it, and then the search is exact (`IntIndex.RecheckedIsExact`).
- `boolop` is false on an empty array, the leaf test of the index is not (for
  example for `!1`); `IntIndex.BoolopExactly` says when they agree.

## Model

| member | source | states |
|---|---|---|
| `Digits.LowsVal` | postgresql-8.2.4/contrib/pgcrypto/imath.c:2463-2533 | Propagating carries or borrows place by place keeps the number: the digits written plus the carry out denote a + m b, for any integer multiplier m (1, -1 or a digit) |
| `Digits.ValUnique` | postgresql-8.2.4/contrib/pgcrypto/imath.c:2378-2392 | Two digit runs of one length that denote the same number are the same digits |
| `Buffers.UAdd` | postgresql-8.2.4/contrib/pgcrypto/imath.c:2463-2495 | The digits written and the carry out denote the exact sum, for any sizes and also when the output overlaps an input from below; nothing else in the buffer changes |
| `Buffers.BorrowStep` | postgresql-8.2.4/contrib/pgcrypto/imath.c:2502-2533 | The test on the upper half of a word that wrapped around is floor division by the radix, so it is the right borrow |
| `Buffers.USub` | postgresql-8.2.4/contrib/pgcrypto/imath.c:2502-2533 | The exact difference, and never a borrow out when the subtrahend is not larger |
| `Buffers.AddMul` | postgresql-8.2.4/contrib/pgcrypto/imath.c:2641-2667 | One row of a product never overflows a double-word accumulator and adds exactly x times the multiplicand, carry out included |
| `Buffers.UMul` | postgresql-8.2.4/contrib/pgcrypto/imath.c:2641-2667 | Schoolbook product: exactly A B in a cleared run, nothing outside it touched |
| `Karatsuba.CrossProduct` | postgresql-8.2.4/contrib/pgcrypto/imath.c:2592-2615 | (a0 + a1)(b0 + b1) less both outer products is the sum of the mixed products |
| `Karatsuba.TakeOuter` | postgresql-8.2.4/contrib/pgcrypto/imath.c:2613-2615 | Neither subtraction of an outer product from the product of the sums borrows out |
| `Karatsuba.Assemble` | postgresql-8.2.4/contrib/pgcrypto/imath.c:2617-2623 | Adding the middle and the high product into the output loses no carry, and digits above the product that are read are written back unchanged |
| `Karatsuba.KMul` | postgresql-8.2.4/contrib/pgcrypto/imath.c:2540-2634 | Karatsuba recursion leaves exactly A B for all sizes and every threshold that is 0 or at least 4, terminates, and changes no digit outside the product |
| `Squaring.OneFlag` | postgresql-8.2.4/contrib/pgcrypto/imath.c:2762-2784 | 2t + u stays below two words and the two overflow tests never fire together, so one flag and the truncated word give digit and carry exactly |
| `Squaring.DoubledPlace` | postgresql-8.2.4/contrib/pgcrypto/imath.c:2760-2785 | One step of the inner squaring loop, in 64-bit words, computes digit and carry of 2xy + w + c |
| `Squaring.Ripple` | postgresql-8.2.4/contrib/pgcrypto/imath.c:2787-2796 | The carry of a row dies out inside the output |
| `Squaring.USqr` | postgresql-8.2.4/contrib/pgcrypto/imath.c:2739-2798 | Squaring with each mixed product computed once and doubled leaves exactly A A |
| `Squaring.KSqr` | postgresql-8.2.4/contrib/pgcrypto/imath.c:2674-2732 | Recursive squaring agrees with multiplying the run by itself at every size and threshold |
| `MpInts.Pad` | postgresql-8.2.4/contrib/pgcrypto/imath.c:2323-2338 | Reallocation keeps every digit and never shrinks the room |
| `MpInts.Clamp` | postgresql-8.2.4/contrib/pgcrypto/imath.c:131-133 | Dropping zero digits from the top keeps the magnitude and leaves a canonical length |
| `MpInts.Cdig` | postgresql-8.2.4/contrib/pgcrypto/imath.c:2378-2392 | Comparing equal-length runs from the top decides the order of the numbers |
| `MpInts.Ucmp` | postgresql-8.2.4/contrib/pgcrypto/imath.c:2424-2435 | Comparing lengths first, then digits, decides the order of magnitudes |
| `MpInts.Cmpz` | postgresql-8.2.4/contrib/pgcrypto/imath.c:146-147 | The sign of the value; a zero counts as zero whatever its sign field says |
| `MpInts.CopyTo` | postgresql-8.2.4/contrib/pgcrypto/imath.c:510-532 | Copying gives the same magnitude and sign, also onto itself |
| `Signed.Add` | postgresql-8.2.4/contrib/pgcrypto/imath.c:607-677 | The sum of the values for every combination of signs and when the output is one of the inputs; a sum of opposite values is a zero with the sign field of the first |
| `Signed.Sub` | postgresql-8.2.4/contrib/pgcrypto/imath.c:699-772 | The difference of the values for every combination of signs and aliasing, with the lengths a caller may rely on |
| `Signed.Compare` | postgresql-8.2.4/contrib/pgcrypto/imath.c:1241-1269 | Orders the values exactly unless both are zeros with different sign fields, and is wrong precisely then |
| `Signed.Neg` | postgresql-8.2.4/contrib/pgcrypto/imath.c:587-600 | The negated value; a zero keeps its sign field |
| `Multiply.Mul` | postgresql-8.2.4/contrib/pgcrypto/imath.c:794-859 | The product of the values for all signs, also into one of the factors, when the room mp_int_mul asks for is all that Karatsuba touches |
| `Multiply.RoomExactly` | postgresql-8.2.4/contrib/pgcrypto/imath.c:824-842 | The room mp_int_mul asks for is as much as the recursion touches exactly when it does not recurse, or the longer size is even and the sizes differ by at most one |
| `Multiply.RoomExample` | postgresql-8.2.4/contrib/pgcrypto/imath.c:824-842 | Two numbers of 51 digits at the default threshold: 102 digits asked for, 104 touched |
| `Shifts.QDiv` | postgresql-8.2.4/contrib/pgcrypto/imath.c:2916-2966 | Right shift: the magnitude divided by 2^p2, rounded down; a zero result is not negative |
| `Shifts.QMod` | postgresql-8.2.4/contrib/pgcrypto/imath.c:2973-2986 | The magnitude modulo 2^p2 |
| `Shifts.QMul` | postgresql-8.2.4/contrib/pgcrypto/imath.c:2993-3067 | Left shift: the magnitude times 2^p2; the digits stay where they are when the result fits the room there is |
| `Shifts.QSub` | postgresql-8.2.4/contrib/pgcrypto/imath.c:3075-3103 | 2^p2 less the magnitude, exactly when that fits the unchanged length field, and not otherwise |
| `Shifts.Dp2k` | postgresql-8.2.4/contrib/pgcrypto/imath.c:3110-3133 | The exponent of the largest power of two that divides a non-zero number, with an odd cofactor |
| `Barrett.NotAbove` | postgresql-8.2.4/contrib/pgcrypto/imath.c:3251-3254 | The estimated multiple of the modulus is not above x |
| `Barrett.NotFarBelow` | postgresql-8.2.4/contrib/pgcrypto/imath.c:3251-3254 | The estimate of the quotient is short by at most two |
| `Barrett.GuessClose` | postgresql-8.2.4/contrib/pgcrypto/imath.c:3251-3254 | 0 <= x - q m < 3 m for the estimate q, every k-digit m, mu = floor(B^2k / m) and 0 <= x < B^2k |
| `Barrett.WrapDifference` | postgresql-8.2.4/contrib/pgcrypto/imath.c:3256-3273 | The difference computed modulo B^(k+1) is the true one: whenever it comes out negative its magnitude fills exactly k + 1 digits, which is what s_qsub needs |
| `Barrett.Settle` | postgresql-8.2.4/contrib/pgcrypto/imath.c:3275-3282 | Two conditional subtractions bring any value below 3 m into range |
| `Barrett.Reduce` | postgresql-8.2.4/contrib/pgcrypto/imath.c:3239-3286 | s_reduce leaves exactly x mod m, with scratch numbers that hold what the products touch |
| `ModExp.MulStepMod` | postgresql-8.2.4/contrib/pgcrypto/imath.c:3321-3331 | A set exponent bit moves one factor from the power to the product |
| `ModExp.SquareStepMod` | postgresql-8.2.4/contrib/pgcrypto/imath.c:3334-3342 | Squaring the base halves an even exponent |
| `ModExp.LowDigit` | postgresql-8.2.4/contrib/pgcrypto/imath.c:3319-3345 | A whole digit consumed bit by bit keeps c a^e mod m, leading zero bits included |
| `ModExp.TopDigit` | postgresql-8.2.4/contrib/pgcrypto/imath.c:3350-3376 | The last digit consumed until it is zero, without a last squaring, keeps c a^e mod m |
| `ModExp.Embar` | postgresql-8.2.4/contrib/pgcrypto/imath.c:3295-3383 | s_embar, in temporaries of its own size, returns a^b mod m for 0 <= a < m, every b >= 0 and the reduction constant of m, but 1 for b = 0 and m = 1 |
| `ModExp.ScratchExactly` | postgresql-8.2.4/contrib/pgcrypto/imath.c:3309-3311 | The temporaries of s_embar hold what the products touch exactly when these do not recurse, or the reduction constant has an even number of digits or at most 31 |
| `ModExp.Expt2` | postgresql-8.2.4/contrib/pgcrypto/imath.c:3171-3190 | The number 2^k |
| `ModExp.Brmu` | postgresql-8.2.4/contrib/pgcrypto/imath.c:3222-3233 | s_brmu leaves the reduction constant of a modulus of k digits if and only if the long division of B^2k by it does not tie |
| `Quotients.TieModulus` | postgresql-8.2.4/contrib/pgcrypto/imath.c:3222-3233 | A modulus, the prime 2^64 - 2^32 + 1, whose reduction constant does not come out |
| `ModExp.ExptMod` | postgresql-8.2.4/contrib/pgcrypto/imath.c:1333-1381 | mp_int_exptmod: a^b mod m for every signed a, every b >= 0 and every m > 0 whose division of B^2k does not tie, except that it is 1 for b = 0 and m = 1, whatever a is; each error exactly in its case |
| `Division.DbMul` | postgresql-8.2.4/contrib/pgcrypto/imath.c:2861-2876 | A run times one digit, exactly, into one digit more |
| `Division.GuessDigit` | postgresql-8.2.4/contrib/pgcrypto/imath.c:3446-3458 | The estimate is at least 1 and below the radix, also in the branch that falls back to 1 |
| `Quotients.GuessHigh` | postgresql-8.2.4/contrib/pgcrypto/imath.c:3446-3458 | Below a tie, an estimate from one or two digits of the remainder and the top digit of a normalized divisor is not too small |
| `Quotients.GuessTie` | postgresql-8.2.4/contrib/pgcrypto/imath.c:3446-3458 | When the remainder has one digit more than the divisor and the same top digit, the estimate is 1 |
| `Division.LowerGuess` | postgresql-8.2.4/contrib/pgcrypto/imath.c:3460-3467 | Lowering the estimate ends with a positive multiple that is not above the partial remainder |
| `Division.TakeMultiple` | postgresql-8.2.4/contrib/pgcrypto/imath.c:3446-3470 | Each turn takes a positive multiple of b off the partial remainder, never more than it; below a tie it leaves less than b, in a tie the multiple is b itself |
| `Division.DivideDigits` | postgresql-8.2.4/contrib/pgcrypto/imath.c:3422-3476 | The digit loop terminates (digit position, then partial remainder) and leaves a remainder below b congruent to a; it puts out exactly as many digits as the count over its positions says, which must be the room there is; they never denote less than the quotient, and denote it if and only if no partial remainder ties with the top digit of b |
| `Division.Norm` | postgresql-8.2.4/contrib/pgcrypto/imath.c:3197-3216 | Both operands times one power of two, below the radix, that brings the top digit of the divisor to half the radix or more without lengthening it |
| `Division.UDiv` | postgresql-8.2.4/contrib/pgcrypto/imath.c:3393-3495 | For a >= b > 0 whose quotient digits fit the buffer s_udiv leaves abs(a) mod abs(b) in b, and abs(a) / abs(b) in a if and only if the division does not tie |
| `Quotients.TiesIs` | postgresql-8.2.4/contrib/pgcrypto/imath.c:3197-3216 | There is one normalizing shift, so the condition is one on the operands as they are given |
| `QuotientRoom.CountTakes` | postgresql-8.2.4/contrib/pgcrypto/imath.c:3444-3473 | Every multiple taken has a place in the count, and the last one at a position completes its surplus |
| `QuotientRoom.CountMoves` | postgresql-8.2.4/contrib/pgcrypto/imath.c:3433-3443 | Every zero put out has a place in the count, which is complete below the lowest position |
| `QuotientRoom.FitsIs` | postgresql-8.2.4/contrib/pgcrypto/imath.c:3411-3419 | There is one normalizing shift, so the room condition is one on the operands as they are given |
| `QuotientRoom.NoTieFits` | postgresql-8.2.4/contrib/pgcrypto/imath.c:3411-3419 | When the division does not tie the digits fit |
| `QuotientRoom.PowerFitsExactly` | postgresql-8.2.4/contrib/pgcrypto/imath.c:3411-3473 | B^n by 2^64 - 2^32 + 1 puts out n + (n + 2) / 6 digits and fits the buffer exactly for n below 56 |
| `Quotients.DigitNeverTies` | postgresql-8.2.4/contrib/pgcrypto/imath.c:3422-3476 | A divisor of one digit never ties |
| `Quotients.SmallNeverTies` | postgresql-8.2.4/contrib/pgcrypto/imath.c:962-1000 | A dividend of at most half the radix times the divisor never ties |
| `Quotients.PowerNeverTies` | postgresql-8.2.4/contrib/pgcrypto/imath.c:1008-1046 | A power of two as divisor never ties |
| `Quotients.TieExample` | postgresql-8.2.4/contrib/pgcrypto/imath.c:3385-3388 | A dividend and a divisor that tie, so s_udiv does not meet its documented postcondition a = a / b |
| `Division.IsP2` | postgresql-8.2.4/contrib/pgcrypto/imath.c:3140-3165 | The exponent of a power of two, or -1 for every number that is none |
| `Division.Div` | postgresql-8.2.4/contrib/pgcrypto/imath.c:954-1072 | mp_int_div, each output optional or one of the operands, when the digits of the long division fit: the remainder of truncating division with the sign of the dividend; its quotient if and only if the division does not tie; undefined exactly for a zero divisor |
| `Division.Mod` | postgresql-8.2.4/contrib/pgcrypto/imath.c:1079-1110 | The unique residue in [0, m) of every signed a for m > 0 when the digits of the long division fit, also when the output is a or m, and what a negative modulus gives |
| `GcdTheory.GcdDivides` | postgresql-8.2.4/contrib/pgcrypto/imath.c:1533-1619 | Reference: the gcd divides both numbers |
| `GcdTheory.GcdGreatest` | postgresql-8.2.4/contrib/pgcrypto/imath.c:1533-1619 | Reference: every common divisor divides the gcd |
| `GcdTheory.GcdHalve` | postgresql-8.2.4/contrib/pgcrypto/imath.c:1588-1588 | A factor two of one number does not count when the other is odd |
| `GcdTheory.GcdSub` | postgresql-8.2.4/contrib/pgcrypto/imath.c:1601-1602 | Subtracting the smaller number keeps the gcd |
| `BinaryGcd.TakeCommonTwos` | postgresql-8.2.4/contrib/pgcrypto/imath.c:1566-1573 | The common power of two is taken out of both and one of them is odd afterwards |
| `BinaryGcd.SteinLoop` | postgresql-8.2.4/contrib/pgcrypto/imath.c:1586-1606 | Shift and subtract steps keep the gcd, and the loop ends because the operands fall |
| `BinaryGcd.GcdInto` | postgresql-8.2.4/contrib/pgcrypto/imath.c:1535-1619 | mp_int_gcd returns gcd(a, b) for all integers, undefined exactly when both are zero |
| `EgcdRows.ParityFix` | postgresql-8.2.4/contrib/pgcrypto/imath.c:1700-1706 | The fix-up makes both coefficients even in every parity case and keeps A ou + B ov |
| `ExtendedGcd.HalveRow` | postgresql-8.2.4/contrib/pgcrypto/imath.c:1696-1710 | A halving loop computes the halved row, which expresses the halved number in the same two operands |
| `ExtendedGcd.EgcdLoop` | postgresql-8.2.4/contrib/pgcrypto/imath.c:1694-1765 | The loop ends with the row that the recursion on both rows gives; it expresses the gcd |
| `EgcdRows.LoopIsGcd` | postgresql-8.2.4/contrib/pgcrypto/imath.c:1694-1765 | Every turn keeps what both rows express and the gcd of their numbers, so the last row is the gcd with its coefficients |
| `EgcdRows.FirstIsZero` | postgresql-8.2.4/contrib/pgcrypto/imath.c:1694-1765 | The first coefficient is zero if and only if the second number divides the first |
| `EgcdRows.SecondIsZero` | postgresql-8.2.4/contrib/pgcrypto/imath.c:1694-1765 | The second coefficient is zero if and only if the first number is a power of two that divides the second and is less |
| `EgcdRows.CoefficientBound` | postgresql-8.2.4/contrib/pgcrypto/imath.c:1694-1765 | The first coefficient is at most half as many times the second number as the sum of both has bits, plus two |
| `ExtendedGcd.Egcd` | postgresql-8.2.4/contrib/pgcrypto/imath.c:1630-1773 | The gcd of all integers not both zero, and coefficients of their absolute values, namely those the recursion gives; either coefficient may be left out as an output where the code allows it |
| `EgcdRows.PromiseHoldsExactly` | postgresql-8.2.4/contrib/pgcrypto/imath.c:1624-1628 | The documented c = ax + by with the signed operands holds if and only if both are not negative, or a < 0 < b and b divides a, or b < 0 < a and a is a power of two that divides b and is less than -b |
| `ExtendedGcd.InvMod` | postgresql-8.2.4/contrib/pgcrypto/imath.c:1480-1527 | The inverse: a c = 1 mod m, 1 <= c < m for m > 1 and every signed a coprime to m; each error exactly in its case |
| `SquareRoot.NotBelow` | postgresql-8.2.4/contrib/pgcrypto/imath.c:1830-1837 | A Newton step with rounded division never falls below the square root, nor, from elsewhere, below its successor when the number is one less than a square |
| `SquareRoot.ByOne` | postgresql-8.2.4/contrib/pgcrypto/imath.c:1839-1844 | A step down by exactly one comes from just above the square root, or from two above it when the number is one less than a square |
| `SquareRoot.EndsByOne` | postgresql-8.2.4/contrib/pgcrypto/imath.c:1841-1844 | The early exit is right unless the number is one less than a square and the iteration meets the root plus two; then it is one too large |
| `SquareRoot.EarlyExamples` | postgresql-8.2.4/contrib/pgcrypto/imath.c:1841-1844 | 3, 8 and 48 are such numbers |
| `SquareRoot.TwoDigitsDivide` | postgresql-8.2.4/contrib/pgcrypto/imath.c:1832-1833 | For every number below (2^31 - 1)^2 all divisions of the iteration give their quotients |
| `SquareRoot.Sqrt` | postgresql-8.2.4/contrib/pgcrypto/imath.c:1806-1857 | mp_int_sqrt: terminates with the square root rounded down, or one more exactly in that case; undefined exactly when the sign field is set |
| `Bytes.BigUnique` | postgresql-8.2.4/contrib/pgcrypto/imath.c:2124-2162 | A byte string of given length is determined by its number |
| `BinaryForm.TwosComp` | postgresql-8.2.4/contrib/pgcrypto/imath.c:3573-3590 | The two's complement of a byte string with the last carry dropped; bytes behind it untouched |
| `BinaryForm.PutDigits` | postgresql-8.2.4/contrib/pgcrypto/imath.c:3606-3626 | Bytes come out least significant first until nothing is left, and a leftover is reported exactly when the limit cut bytes off |
| `BinaryForm.ToBin` | postgresql-8.2.4/contrib/pgcrypto/imath.c:3597-3643 | Big-endian bytes with the sign bit free, of least length; succeeds exactly when the limit leaves that room |
| `BinaryForm.ToBinary` | postgresql-8.2.4/contrib/pgcrypto/imath.c:2102-2117 | The bytes read as two's complement are the signed value; succeeds exactly when the limit is at least mp_int_binary_len |
| `BinaryForm.ReadBinary` | postgresql-8.2.4/contrib/pgcrypto/imath.c:2124-2162 | The signed value of any byte string, with the buffer as it was before; the digits never move under the cached pointer |
| `BinaryForm.BinaryLen` | postgresql-8.2.4/contrib/pgcrypto/imath.c:2169-2188 | The least number of bytes that hold the magnitude and a sign bit |
| `BinaryForm.CountBits` | postgresql-8.2.4/contrib/pgcrypto/imath.c:2072-2095 | The position of the highest bit, 1 for zero |
| `BinaryForm.RoundTrip` | postgresql-8.2.4/contrib/pgcrypto/imath.c:2102-2188 | Writing with room for the binary length and reading that many bytes gives the number back; writing fails exactly with less room |
| `Levenshtein.CellIsLowerBound` | postgresql-8.2.4/contrib/fuzzystrmatch/fuzzystrmatch.c:126-179 | No sequence of single-character edits, at any places and in any order, is shorter than the cell of the table |
| `Levenshtein.CellIsReached` | postgresql-8.2.4/contrib/fuzzystrmatch/fuzzystrmatch.c:126-179 | Some sequence of edits is as short as the cell |
| `Levenshtein.CellIsDistance` | postgresql-8.2.4/contrib/fuzzystrmatch/fuzzystrmatch.c:126-179 | The table's recurrence is the length of a shortest edit script |
| `Levenshtein.Symmetric` | postgresql-8.2.4/contrib/fuzzystrmatch/fuzzystrmatch.c:110-196 | The distance is symmetric |
| `Levenshtein.Triangle` | postgresql-8.2.4/contrib/fuzzystrmatch/fuzzystrmatch.c:110-196 | The distance obeys the triangle inequality |
| `Levenshtein.ZeroIffEqual` | postgresql-8.2.4/contrib/fuzzystrmatch/fuzzystrmatch.c:110-196 | Distance zero exactly for equal strings |
| `Levenshtein.FillRow` | postgresql-8.2.4/contrib/fuzzystrmatch/fuzzystrmatch.c:133-171 | One lower row from the upper row |
| `Levenshtein.Levenshtein` | postgresql-8.2.4/contrib/fuzzystrmatch/fuzzystrmatch.c:57-197 | The two-row loop returns the length of a shortest edit script, or refuses exactly the strings over 255 characters |
| `Blowfish.WordIs` | postgresql-8.2.4/contrib/pgcrypto/blf.c:624-625 | The word of four bytes is the number they write in base 256, the first byte the most significant |
| `Blowfish.PlusIs` | postgresql-8.2.4/contrib/pgcrypto/blf.c:52-55 | The addition of the round function is that of the numbers modulo 2^32 |
| `Blowfish.FReads` | postgresql-8.2.4/contrib/pgcrypto/blf.c:52-55 | Another value at one table place changes the round function if and only if a byte of the word selects the place, the most significant byte in the first table |
| `Blowfish.FCombines` | postgresql-8.2.4/contrib/pgcrypto/blf.c:52-55 | How the four selected entries combine: the second is added to the first, the third xored onto the sum, the fourth added, modulo 2^32 |
| `Blowfish.FeistelBack` | postgresql-8.2.4/contrib/pgcrypto/blf.c:59-123 | The network with its subkeys in reverse order leads back, for any round function and any subkeys |
| `Blowfish.CipherBack` | postgresql-8.2.4/contrib/pgcrypto/blf.c:59-123 | Deciphering inverts enciphering for arbitrary subkeys and S-boxes |
| `Blowfish.CipherHalves` | postgresql-8.2.4/contrib/pgcrypto/blf.c:57-90 | The output is the end of the sequence in which every half is the one before the last with the round function of the last and its subkey xored on, started and ended with the outer subkeys |
| `Blowfish.SilentCipher` | postgresql-8.2.4/contrib/pgcrypto/blf.c:57-90 | With a round function that gives zero the halves change sides, the even subkeys xored onto the left, the odd onto the right |
| `Blowfish.EncipherWords` | postgresql-8.2.4/contrib/pgcrypto/blf.c:59-90 | The sixteen unrolled rounds are that network, in place, with the round function `FReads` and `FCombines` describe |
| `Blowfish.DecipherWords` | postgresql-8.2.4/contrib/pgcrypto/blf.c:92-123 | The unrolled decipher rounds are the network with the subkeys reversed, and the same round function |
| `Cbc.BlockBack` | postgresql-8.2.4/contrib/pgcrypto/blf.c:611-695 | Unpacking, deciphering and packing a block undoes enciphering it |
| `Cbc.CbcBack` | postgresql-8.2.4/contrib/pgcrypto/blf.c:611-695 | CBC decryption undoes CBC encryption |
| `Cbc.CbcChains` | postgresql-8.2.4/contrib/pgcrypto/blf.c:612-643 | Every ciphertext block is the plaintext block, xored with the ciphertext block before it or the vector, enciphered |
| `Cbc.CbcEncrypt` | postgresql-8.2.4/contrib/pgcrypto/blf.c:612-643 | Forward in place, each ciphertext block the next vector: the CBC encryption of the first len bytes |
| `Cbc.CbcDecrypt` | postgresql-8.2.4/contrib/pgcrypto/blf.c:645-695 | Backward in place, every block still finding its predecessor: the CBC decryption |
| `BfCiphers.EcbBack` | postgresql-8.2.4/contrib/pgcrypto/blf.c:553-609 | ECB decryption undoes ECB encryption |
| `BfCiphers.EcbBlock` | postgresql-8.2.4/contrib/pgcrypto/blf.c:553-609 | Every block comes out as its own, whatever the others are |
| `BfCiphers.EcbEncrypt` | postgresql-8.2.4/contrib/pgcrypto/blf.c:553-580 | In place, block by block: the ECB encryption of the first len bytes |
| `BfCiphers.EcbDecrypt` | postgresql-8.2.4/contrib/pgcrypto/blf.c:582-609 | and the ECB decryption |
| `BfCiphers.BfCipher.Encrypt` | postgresql-8.2.4/contrib/pgcrypto/internal.c:450-471 | ECB or CBC encryption of the first dlen bytes, the rest of the buffer and, in ECB, the vector untouched; in CBC the last block becomes the vector; refused exactly when dlen is no multiple of 8 |
| `BfCiphers.BfCipher.Decrypt` | postgresql-8.2.4/contrib/pgcrypto/internal.c:473-496 | ECB or CBC decryption; the next vector is what stands in the input buffer afterwards, so decrypting in place chains the plaintext |
| `BfCiphers.EncryptAll` | postgresql-8.2.4/contrib/pgcrypto/internal.c:450-471 | A sequence of bf_encrypt calls puts out what the run over the chunks says |
| `BfCiphers.DecryptAll` | postgresql-8.2.4/contrib/pgcrypto/internal.c:473-496 | and a sequence of bf_decrypt calls |
| `Cbc.EncRunIsWhole` | postgresql-8.2.4/contrib/pgcrypto/internal.c:450-471 | However a plaintext is cut into calls, the outputs together are one encryption of the whole |
| `Cbc.DecRunIsWhole` | postgresql-8.2.4/contrib/pgcrypto/internal.c:473-496 | The same for decryption |
| `Cbc.RunBack` | postgresql-8.2.4/contrib/pgcrypto/internal.c:450-496 | Decrypting the ciphertext of a run under any other cutting recovers the plaintext |
| `HstoreData.KeyOrder` | postgresql-8.2.4/contrib/hstore/hstore_io.c:261-283 | Length first, then strncmp, is a total order on keys without NUL bytes |
| `HstoreData.KeyTrans` | postgresql-8.2.4/contrib/hstore/hstore_io.c:261-283 | and transitive |
| `HstoreData.KeyOrderIs` | postgresql-8.2.4/contrib/hstore/hstore_io.c:261-283 | A key comes before another exactly when it is shorter, or as long and less at the first byte that differs |
| `HstoreData.RepresentsItems` | postgresql-8.2.4/contrib/hstore/hstore_io.c:381-397 | Contiguous entries and data determine the items they hold |
| `HstoreOps.FindKey` | postgresql-8.2.4/contrib/hstore/hstore_op.c:10-36 | Binary search returns the entry of a key exactly when the map has the key |
| `HstoreOps.WithoutMap` | postgresql-8.2.4/contrib/hstore/hstore_op.c:104-153 | Filtering keeps strict order and removes exactly one key from the map |
| `HstoreOps.Output.Finish` | postgresql-8.2.4/contrib/hstore/hstore_op.c:136-146 | Moving the data area over the unused entries leaves the entries and the data, one behind the other |
| `HstoreOps.Delete` | postgresql-8.2.4/contrib/hstore/hstore_op.c:104-153 | The result in memory, its data area moved up behind the entries that were kept, is the layout of a well-formed store whose map is the old one without the key |
| `HstoreOps.MergeMap` | postgresql-8.2.4/contrib/hstore/hstore_op.c:158-266 | Merging two strictly ordered lists keeps strict order and is the first map overridden by the second |
| `HstoreOps.Join` | postgresql-8.2.4/contrib/hstore/hstore_op.c:174-248 | The three loops over entries and data areas lay out exactly that merge |
| `HstoreOps.Concat` | postgresql-8.2.4/contrib/hstore/hstore_op.c:158-266 | The result in memory, its data area moved up likewise, is the layout of a well-formed store whose map is the first overridden by the second |
| `HstoreOps.Contains` | postgresql-8.2.4/contrib/hstore/hstore_op.c:503-539 | Every key of the template is present, with the same value unless the template's value is null |
| `HstoreText.Cpw` | postgresql-8.2.4/contrib/hstore/hstore_io.c:404-415 | Appends the escaped bytes |
| `HstoreText.EscapeOnly` | postgresql-8.2.4/contrib/hstore/hstore_io.c:404-415 | Only quotes and backslashes are escaped: the text grows by one byte for each, and is unchanged exactly when there is none |
| `HstoreText.Out` | postgresql-8.2.4/contrib/hstore/hstore_io.c:420-473 | The text of the items in their order |
| `HstoreText.GvEscaped` | postgresql-8.2.4/contrib/hstore/hstore_io.c:106-145 | Inside quotes every escaped word is read back as it was |
| `HstoreText.ReadValue` | postgresql-8.2.4/contrib/hstore/hstore_io.c:220-237 | A printed value is read back; an unquoted NULL as null, a quoted one never |
| `HstoreText.ParsePrint` | postgresql-8.2.4/contrib/hstore/hstore_io.c:162-258 | Parsing the text of any list of storable items gives these items in their order |
| `HstoreGrammar.GvLexeme` | postgresql-8.2.4/contrib/hstore/hstore_io.c:38-152 | A word of the grammar, quoted or not, with any characters behind backslashes, is read as its letters, up to where it ends |
| `HstoreGrammar.LexemeRead` | postgresql-8.2.4/contrib/hstore/hstore_io.c:38-152 | and whatever is read as a word is one: an unquoted key ends at = or a blank, an unquoted value at a comma or a blank, and so on |
| `HstoreGrammar.AcceptedExactly` | postgresql-8.2.4/contrib/hstore/hstore_io.c:162-258 | A text is accepted if and only if the grammar of pairs derives it: words, quoted or not, blanks around => and commas, a last comma allowed |
| `HstoreGrammar.ParsedIsStood` | postgresql-8.2.4/contrib/hstore/hstore_io.c:162-258 | and then it gives the pairs that any derivation stands for, in order, a value null exactly when it is the unquoted word null in any letter case |
| `HstoreGrammar.PlainRead` | postgresql-8.2.4/contrib/hstore/hstore_io.c:162-258 | Every list of pairs of plain words, written k=>v,k=>v, is read as these pairs in order |
| `HstoreIn.HSParser.GetVal` | postgresql-8.2.4/contrib/hstore/hstore_io.c:38-152 | The state machine for one word, quoted or not, every branch and error; which words it reads is `HstoreGrammar.LexemeRead` and `HstoreGrammar.GvLexeme` |
| `HstoreIn.HSParser.ParseHstore` | postgresql-8.2.4/contrib/hstore/hstore_io.c:162-258 | The state machine for pairs, every branch and error, lengths cut to 16 bits |
| `HstoreIn.ParsedStorable` | postgresql-8.2.4/contrib/hstore/hstore_io.c:162-258 | Whatever the text, parsed keys and values hold no NUL byte and fit their length fields |
| `HstoreIn.UniqDeduplicates` | postgresql-8.2.4/contrib/hstore/hstore_io.c:286-324 | On a sorted list exactly the duplicates are dropped |
| `HstoreIn.UniquePairs` | postgresql-8.2.4/contrib/hstore/hstore_io.c:286-324 | One pair for every key, each one of the input pairs, in strict key order, whatever order qsort gives equal keys; buflen is the data size |
| `HstoreIn.DedupStrict` | postgresql-8.2.4/contrib/hstore/hstore_io.c:286-324 | Pairs already in strict order come through unchanged |
| `HstoreIn.In` | postgresql-8.2.4/contrib/hstore/hstore_io.c:347-401 | A well-formed store with one entry per parsed key, or the parser's error; a store exactly for the derivable texts, with the keys and values a derivation stands for |
| `HstoreIn.RoundTrip` | postgresql-8.2.4/contrib/hstore/hstore_io.c:347-473 | hstore_in undoes hstore_out: the same entries in the same order for every well-formed store |
| `IntSets.Isort` | postgresql-8.2.4/contrib/intarray/_int_tool.c:191-219 | Bubble sort: ends, sorts, keeps the elements, and reports duplicates exactly when there are any |
| `IntSets.Unique` | postgresql-8.2.4/contrib/intarray/_int_tool.c:280-299 | Moves the distinct elements to the front |
| `IntSets.DistinctStrict` | postgresql-8.2.4/contrib/intarray/_int_tool.c:280-299 | On a sorted array that gives a strictly ascending array of the same set |
| `IntSets.Prepare` | postgresql-8.2.4/contrib/intarray/_int.h:50-55 | The strictly ascending array of the same set |
| `IntSets.Contains` | postgresql-8.2.4/contrib/intarray/_int_tool.c:5-40 | True exactly for two non-empty sets with the second inside the first |
| `IntSets.Overlap` | postgresql-8.2.4/contrib/intarray/_int_tool.c:43-73 | True exactly when there is a common element |
| `IntSets.Union` | postgresql-8.2.4/contrib/intarray/_int_tool.c:76-130 | The strictly ascending array of the union |
| `IntInter.InnerInter` | postgresql-8.2.4/contrib/intarray/_int_tool.c:133-178 | The strictly ascending array of the common elements, except that a 1 is missing when it is the least of them and one of the arrays has a lesser element |
| `IntInter.Inter` | postgresql-8.2.4/contrib/intarray/_int_op.c:165-186 | The operator on arrays: the intersection if and only if no 1 is lost that way |
| `IntInter.LostExample` | postgresql-8.2.4/contrib/intarray/_int_tool.c:157-169 | The intersection of {0,1} and {1} comes out empty |
| `IntRanges.SomeSmallGap` | postgresql-8.2.4/contrib/intarray/_int_gist.c:195-201 | Among more than a hundred ranges of 32-bit numbers some difference is below the start value, so a gap is always chosen |
| `IntRanges.CloseSmallest` | postgresql-8.2.4/contrib/intarray/_int_gist.c:193-204 | One turn closes a gap with the smallest 32-bit difference and keeps the ranges a cutting of the key |
| `IntRanges.CompressRanges` | postgresql-8.2.4/contrib/intarray/_int_gist.c:180-210 | Exactly 100 ranges cut from the key; no closed gap is larger than a kept one if and only if no two neighbours are 2^31 or more apart |
| `IntRanges.HugeGapExample` | postgresql-8.2.4/contrib/intarray/_int_gist.c:195-201 | A key with one gap of 2^31 and unit gaps elsewhere: however ties are resolved, the largest gap is closed while smaller ones are kept |
| `IntRanges.CutCovers` | postgresql-8.2.4/contrib/intarray/_int_gist.c:180-210 | Every element of the key lies in one of the ranges |
| `IntRanges.CutIsRangeList` | postgresql-8.2.4/contrib/intarray/_int_gist.c:180-210 | The ranges are disjoint and ascending |
| `IntRanges.Compress` | postgresql-8.2.4/contrib/intarray/_int_gist.c:166-215 | A short key unchanged, a longer one as 100 disjoint ascending ranges that cover it |
| `IntRanges.InternalSize` | postgresql-8.2.4/contrib/intarray/_int_tool.c:266-276 | The number of integers in the ranges cut to 32 bits, so the true one if and only if that is below 2^31 |
| `IntRanges.ExpandStrict` | postgresql-8.2.4/contrib/intarray/_int_gist.c:258-261 | Decompression is strictly ascending |
| `IntRanges.ExpandHas` | postgresql-8.2.4/contrib/intarray/_int_gist.c:258-261 | and holds exactly the integers in the ranges |
| `IntRanges.Decompress` | postgresql-8.2.4/contrib/intarray/_int_gist.c:218-270 | On every key that ends below 2^31 - 1 the integers of the ranges, with the size of the result right if and only if they are fewer than 2^31 |
| `IntRanges.EndsExactly` | postgresql-8.2.4/contrib/intarray/_int_gist.c:256-261 | The loops over the ranges, a state machine with a 32-bit counter, end if and only if the last range ends below 2^31 - 1 |
| `IntRanges.EndsWithExpansion` | postgresql-8.2.4/contrib/intarray/_int_gist.c:256-261 | When they end they have written exactly the integers of the ranges |
| `IntRanges.EndlessKey` | postgresql-8.2.4/contrib/intarray/_int_gist.c:166-261 | A key for which nothing that compression may store can be decompressed |
| `IntRanges.StoredDecompressible` | postgresql-8.2.4/contrib/intarray/_int_gist.c:137-270 | What is stored for a long key can be decompressed if and only if the key ends below 2^31 - 1 and its ranges hold fewer than 2^31 integers, so whenever the key spans less than 2^31 - 1 |
| `IntRanges.ShownCovers` | postgresql-8.2.4/contrib/intarray/_int_gist.c:137-270 | A compressed and decompressed key shows every element of the original |
| `IntOptimal.GreedySavesMost` | postgresql-8.2.4/contrib/intarray/_int_gist.c:193-204 | Keeping the largest gaps leaves out at least as many integers as any other choice of as many gaps |
| `IntOptimal.CoverIsCutting` | postgresql-8.2.4/contrib/intarray/_int_gist.c:193-204 | Any cover by ranges is no smaller than some cutting of the key into as many pieces |
| `IntOptimal.GreedyIsOptimal` | postgresql-8.2.4/contrib/intarray/_int_gist.c:193-204 | No cover of the key by as many ranges holds fewer integers than the compressed key |
| `IntIndex.GIntConsistent` | postgresql-8.2.4/contrib/intarray/_int_gist.c:31-95 | The test on a key for every strategy, leaf or inner, and false for an empty query |
| `IntIndex.ConsistentIsSound` | postgresql-8.2.4/contrib/intarray/_int_gist.c:58-92 | On a leaf the test is the operator, both ways; an inner key that holds the elements of a matching array is never rejected |
| `IntIndex.InnerExactly` | postgresql-8.2.4/contrib/intarray/_int_gist.c:58-92 | An inner key passes exactly when some array of its elements would be accepted, so every no is right and every yes possible |
| `IntIndex.GIntUnion` | postgresql-8.2.4/contrib/intarray/_int_gist.c:97-132 | The strictly ascending array of all elements of all entries |
| `IntIndex.KeyCovers` | postgresql-8.2.4/contrib/intarray/_int_gist.c:31-270 | In every tree of unions whose stored keys can be decompressed, a key shows all elements of all arrays below it |
| `IntIndex.SearchIsFilter` | postgresql-8.2.4/contrib/intarray/_int_gist.c:31-95 | A search whose test decides at leaves and never rejects an ancestor of a match returns exactly the matches |
| `IntIndex.SearchFindsAll` | postgresql-8.2.4/contrib/intarray/_int_gist.c:31-270 | In such a tree index search returns exactly the arrays on whose sets of elements the operator holds, for every non-empty query |
| `IntIndex.IntSame` | postgresql-8.2.4/contrib/intarray/_int_op.c:67-113 | Sorting both arrays and comparing them decides whether they have the same elements equally often |
| `IntIndex.OperatorIsSets` | postgresql-8.2.4/contrib/intarray/_int_op.c:23-113 | What an operator accepts holds of the sets of elements; the converse too, for equality when neither array has duplicates |
| `IntIndex.RecheckedIsExact` | postgresql-8.2.4/contrib/intarray/_int_gist.c:31-95 | Rechecked, the search returns exactly the arrays the operator accepts; without a recheck too, for every operator but equality, and for equality when no array has duplicates |
| `IntIndex.LongLeafElements` | postgresql-8.2.4/contrib/intarray/_int_gist.c:137-270 | Such a key shows all its elements, and no others if and only if its pairs are neighbours |
| `IntIndex.LongLeafExactly` | postgresql-8.2.4/contrib/intarray/_int_gist.c:137-270 | For every single strategy the test on a leaf key of 200 or more elements agrees with the operator on all queries if and only if the key is made of pairs of neighbours; otherwise overlap and containment lose nothing and return too much, being contained returns nothing wrong and loses some, equality does both |
| `IntIndex.BoolSearchFindsAll` | postgresql-8.2.4/contrib/intarray/_int_gist.c:39-47 | In such a tree boolean index search, by what execconsistent answers on the decompressed keys, returns exactly the arrays on which the query is true |
| `IntIndex.BoolopExactly` | postgresql-8.2.4/contrib/intarray/_int_bool.c:371-400 | The test on a leaf answers as boolop does if and only if the array is not empty or the query is false on no elements |
| `IntSplit.WasteIs` | postgresql-8.2.4/contrib/intarray/_int_gist.c:398-407 | The waste of two entries is the number of elements only one of them has, and one more if the intersection loses a 1 |
| `IntSplit.PickSeeds` | postgresql-8.2.4/contrib/intarray/_int_gist.c:378-436 | The seeds are the first of the pairs before the last entry that waste most, so no such pair wastes more |
| `IntSplit.Costs` | postgresql-8.2.4/contrib/intarray/_int_gist.c:450-461 | The cost of an entry is the difference between the numbers of its elements that the two seeds lack |
| `IntSplit.WishIs` | postgresql-8.2.4/contrib/intarray/_int.h:57-58 | The bonus is a hundredth of the third power of the difference of the sizes, positive exactly for the smaller side on the left |
| `IntSplit.Place` | postgresql-8.2.4/contrib/intarray/_int_gist.c:480-530 | A seed goes to its side; any other entry goes left exactly when the left side lacks fewer of its elements than the right, the bonus added |
| `IntSplit.PickSplit` | postgresql-8.2.4/contrib/intarray/_int_gist.c:351-539 | The entries are dealt in the order of their costs, each by that rule from the sides as they then are; every entry goes to exactly one side, no side is empty, each side's key is the union of its entries |
| `IntSplit.InnerKey` | postgresql-8.2.4/contrib/intarray/_int_gist.c:97-270 | Decompressing, uniting and compressing the keys of the children stores the strictly ascending list of exactly the elements these keys show; the result can be decompressed in turn if and only if the union is short or ends below 2^31 - 1 with ranges of fewer than 2^31 integers |
| `BoolQuery.FindOprnd` | postgresql-8.2.4/contrib/intarray/_int_bool.c:403-431 | Every item of the query ending at pos gets the distance to its left operand, cut to 16 bits, and nothing else changes |
| `BoolQuery.StoredExactly` | postgresql-8.2.4/contrib/intarray/_int_bool.c:403-431 | The stored links are the true ones if and only if no right operand is longer than 32767 items |
| `BoolQuery.UnlinkableExample` | postgresql-8.2.4/contrib/intarray/_int_bool.c:403-431 | A conjunction of 16386 values whose stored links are wrong |
| `BoolExec.ExecuteIsEval` | postgresql-8.2.4/contrib/intarray/_int_bool.c:265-292 | Following the links gives the truth value of the tree, or with calcnot false its value with negations taken as true |
| `BoolQuery.LooseIsSound` | postgresql-8.2.4/contrib/intarray/_int_bool.c:265-292 | What is true exactly is true with negations taken as true on every superset |
| `BoolExec.CheckArr` | postgresql-8.2.4/contrib/intarray/_int_bool.c:234-254 | Binary search finds exactly the elements of the array |
| `BoolExec.KeyNotRejected` | postgresql-8.2.4/contrib/intarray/_int_bool.c:307-320 | A query true on an array is not rejected on any key that holds its elements |
| `BoolExec.QueryExtract` | postgresql-8.2.4/contrib/intarray/_int_gin.c:29-40 | The values of the query in postfix order |
| `BoolExec.GinConsistent` | postgresql-8.2.4/contrib/intarray/_int_bool.c:336-358 | From one answer per extracted entry, the exact value of the query |
| `IntSignature.MakeSign` | postgresql-8.2.4/contrib/intarray/_intbig_gist.c:139-171 | A bit is set exactly when some element hashes to it |
| `IntSignature.HashIs` | postgresql-8.2.4/contrib/intarray/_int.h:80-81 | The hash of a 32-bit value is what is left of it, taken as unsigned, after whole signatures |
| `IntSignature.CompressKey` | postgresql-8.2.4/contrib/intarray/_intbig_gist.c:182-204 | The all-true mark exactly for a full signature, every bit kept |
| `IntSignature.UnionKey` | postgresql-8.2.4/contrib/intarray/_intbig_gist.c:258-270 | The bitwise or, and 1 for the all-true mark |
| `IntSignature.UnionKeys` | postgresql-8.2.4/contrib/intarray/_intbig_gist.c:272-301 | A bit is set exactly when some entry sets it |
| `IntSignature.BigConsistent` | postgresql-8.2.4/contrib/intarray/_intbig_gist.c:496-608 | The answer for every strategy, leaf or inner, as `BigTestExactly` characterizes it; true for a full signature, false for an empty query |
| `IntSignature.BigTestIsSound` | postgresql-8.2.4/contrib/intarray/_intbig_gist.c:496-608 | That test is true for every array the key can stand for that the operator accepts |
| `IntSignature.BigTestExactly` | postgresql-8.2.4/contrib/intarray/_intbig_gist.c:496-608 | A signature passes if and only if it can stand for an array, or for arrays below it, that the operator accepts; the one exception is being contained on a leaf without any bit |
| `IntSignature.SignNotRejected` | postgresql-8.2.4/contrib/intarray/_intbig_gist.c:507-514 | A query true on an array is not rejected by any signature that covers it |
| `IntSignature.SignBoolExactly` | postgresql-8.2.4/contrib/intarray/_intbig_gist.c:507-514 | A query without negations passes a signature if and only if it is true on some set of elements whose bits are set |
| `IntSignature.SignedCovers` | postgresql-8.2.4/contrib/intarray/_intbig_gist.c:139-301 | In a tree of signatures every key covers every array below it |
| `IntSignature.SignedArraySearch` | postgresql-8.2.4/contrib/intarray/_intbig_gist.c:496-608 | Search through signatures finds every array the operator accepts, for every strategy |
| `IntSignature.SignedBoolSearch` | postgresql-8.2.4/contrib/intarray/_intbig_gist.c:496-608 | Boolean search through signatures finds every array on which the query is true |
| `BoolText.InfixOut` | postgresql-8.2.4/contrib/intarray/_int_bool.c:518-589 | Prints the query that ends at an item and steps over it |
| `BoolText.DecimalBack` | postgresql-8.2.4/contrib/intarray/_int_bool.c:521-527 | atoi of a printed number is the number |
| `BoolText.InfixTen` | postgresql-8.2.4/contrib/intarray/_int_bool.c:518-589 | A printed query of 32-bit values has at most ten digits in a row, so its numbers fit that buffer |
| `BoolIn.WorkState.NextToken` | postgresql-8.2.4/contrib/intarray/_int_bool.c:55-133 | gettoken, every state and branch, with its buffer of 16 bytes; which texts it lets through is `BoolGrammar.AcceptedExactly` |
| `BoolIn.WorkState.MakePol` | postgresql-8.2.4/contrib/intarray/_int_bool.c:155-223 | makepol, with its operator stack, its recursion and its errors |
| `BoolGrammar.AcceptedExactly` | postgresql-8.2.4/contrib/intarray/_int_bool.c:55-223 | A text is accepted if and only if the grammar of numbers, negation, parentheses, conjunction and disjunction derives it, when the stack can hold an operator for every character; with any stack, what is accepted is derivable and what is a syntax error is not |
| `BoolGrammar.AcceptedBalanced` | postgresql-8.2.4/contrib/intarray/_int_bool.c:83-119 | The parentheses of an accepted text are balanced, and none is closed before it was opened |
| `BoolTokens.OutputIsWritten` | postgresql-8.2.4/contrib/intarray/_int_bool.c:155-223 | For an accepted text makepol puts out exactly the numbers and operators of any derivation, each once, the numbers in their order |
| `BoolPostfix.PostfixExactly` | postgresql-8.2.4/contrib/intarray/_int_bool.c:403-431 | A list of items is the postfix form of a query if and only if counting operands and operators leaves one operand |
| `BoolPostfix.Counting` | postgresql-8.2.4/contrib/intarray/_int_bool.c:155-223 | At every point of the parse the output holds one operand more than there are pending binary operators behind an operand, and as many before one, unless a bar was put out too early |
| `BoolPostfix.WellFormedExactly` | postgresql-8.2.4/contrib/intarray/_int_bool.c:177-179 | An accepted text gives the postfix form of some query if and only if no level reads a bar with a non-empty stack while no binary operator is pending there or in an enclosing level |
| `BoolPostfix.NoBangParenIsWellFormed` | postgresql-8.2.4/contrib/intarray/_int_bool.c:155-223 | Every accepted text in which no ! stands before ( meets that condition |
| `BoolPostfix.BangParenExample` | postgresql-8.2.4/contrib/intarray/_int_bool.c:189-198 | A text with !( whose output is not a postfix form |
| `BoolIn.BqarrIn` | postgresql-8.2.4/contrib/intarray/_int_bool.c:437-497 | The linked postfix form of what makepol read, or its error, for every text without such a bar whose numbers fit the buffer; what it parses is derivable, what it refuses as a syntax error is not |
| `BoolRead.Process` | postgresql-8.2.4/contrib/intarray/_int_bool.c:163-215 | Behind the text of any operand the parser stands with the output and stack the pending operands tell |
| `BoolRead.PrintedIsRead` | postgresql-8.2.4/contrib/intarray/_int_bool.c:155-223 | What every printed query is read back as, stack limit permitting; the same meaning when no disjunction has a conjunction pending on its left |
| `BoolText.ReadMeans` | postgresql-8.2.4/contrib/intarray/_int_bool.c:155-223 | The query read back from a clean query evaluates the same on every array |
| `BoolDistinct.CleanExactly` | postgresql-8.2.4/contrib/intarray/_int_bool.c:155-223 | For a query whose values are all different, reading back keeps the meaning if and only if the query is clean |
| `BoolDistinct.Differs` | postgresql-8.2.4/contrib/intarray/_int_bool.c:155-223 | On a query that is not clean the two meanings differ on an array that can be given |
| `BoolText.UncleanExample` | postgresql-8.2.4/contrib/intarray/_int_bool.c:177-198 | A query read back with another meaning, and an array that tells them apart |
| `BoolRead.ValuesRoundTrip` | postgresql-8.2.4/contrib/intarray/_int_bool.c:155-223 | Every query whose negations stand on values is read back with the same meaning and never stacks more than three operators |
| `BoolIn.ReadLinkable` | postgresql-8.2.4/contrib/intarray/_int_bool.c:403-431 | When only values are negated, reading a query back makes no right operand longer than links can reach |
| `BoolIn.RoundTrip` | postgresql-8.2.4/contrib/intarray/_int_bool.c:437-611 | Printing and reading gives the items of the query as read; their links are the true ones if and only if no right operand is too long, which follows for stored queries with negations on values only; then a clean query executes alike on every array |

## Left out

- Karatsuba.KMul: `dc` must have room for the 4 * ((max + 1) / 2) digits the last addition runs over, and so must scratch numbers; the C code allocates the size of the product. That the digits above the product end unchanged is proved, so they need not be cleared. With a threshold of 1 to 3 the recursion does not end.
- Squaring.KSqr: the same for squares.
- Multiply.Mul: asks that its room be all that Karatsuba touches; `Multiply.RoomExactly` says when, and on other sizes `s_kmul` reads and rewrites digits behind the buffer.
- Shifts.QSub: the digits up to p2 / 32 are there and zero above the length, as `s_qmod` leaves them in `s_reduce`; the source pads first, but what padding adds is not cleared.
- Barrett.Reduce: the scratch numbers hold what Karatsuba touches; `ModExp.ScratchExactly` says when those of `s_embar` do.
- ModExp.ExptMod: asks that the division of B^2k by the modulus not tie, since `s_reduce` relies on its quotient and nothing is claimed of other moduli; that the digits of a mod m fit; that the temporaries hold what the products touch; and that the modulus be not negative, which the source neither refuses nor treats. Error returns for failed allocation are not modelled, nor is `mp_int_exptmod_known`, which takes the constant as an argument.
- Division.Div: asks that the digits of the long division fit their buffer, the exact condition under which the loop stays inside it; likewise `UDiv` and `Mod`.
- ExtendedGcd.Egcd: with one operand zero both coefficients must be asked for, as `mp_int_zero` refuses NULL.
- ExtendedGcd.InvMod: operands of less than 2^27 digits, that is 512 MB; below that the coefficient is small enough for its reduction (`EgcdRows.CoefficientBound`).
- BinaryForm.ToBinary: the limit is at least 1; with 0 the source reads the byte before the buffer.
- BinaryForm.ToBin: the same.
- Levenshtein.Levenshtein: strings are sequences of characters compared one by one; the conversion from text values is not modelled.
- BfCiphers.BfCipher.Encrypt: the key schedule is not modelled; subkeys and S-boxes are arbitrary. The source steps over an empty input; so does the model.
- HstoreData.KeyOrder: keys hold no NUL byte, as text values never do; strncmp stops at one.
- HstoreOps.Delete: an entry is written as one of eight cells instead of eight bytes; the bit layout of HEntry is not modelled.
- HstoreIn.UniquePairs: qsort is some sort of the same pairs; only what holds for every such sort is claimed. Blanks are those of the C locale.
- IntSets.Prepare: stands for `isort` and for qsort followed by `_int_unique`.
- IntRanges.Decompress: asks that the ranges end below 2^31 - 1, which is exactly when the loops end; a negative or wrapped size, with which the source would allocate, is returned as it is.
- IntIndex.SearchFindsAll: the stored keys of the tree can be decompressed, and long leaf keys are made of pairs of neighbours, without which the search is not exact. Empty queries are not searched for.
- IntSplit.PickSplit: sizes and costs are real numbers instead of floats, exact as long as arrays are shorter than 2^24; the order of entries of equal cost, which qsort leaves open, is a result.
- IntInter.InnerInter: the array header is the word that is read, its lower bound; the alignment of the data leaves none between them.
- IntSignature.BigConsistent: signatures are bit sequences instead of byte arrays; page splitting by Hamming distance is not modelled.
- BoolIn.BqarrIn: asks that no bar be put out too early, the exact condition for a postfix form; on other texts `findoprnd` runs off the array. Numbers have at most 15 characters, the buffer of gettoken.
- BoolText.DecimalBack: numbers are unbounded; the overflow of atoi is not modelled.
- SquareRoot.Sqrt: asks that the divisions of the iteration give their quotients (the condition of `Division.Div`), which `TwoDigitsDivide` shows below (2^31 - 1)^2; squares get the room `s_ksqr` touches.
- `shorterquery`, which drops negations before index extraction: its link fix-up for double negation moves a link that should stay.
- BoolGrammar.AcceptedExactly: texts hold no NUL character; which derivable texts are too complex for the 16 operators of the stack is not described beyond printed queries.
- HstoreGrammar.AcceptedExactly: texts hold no NUL byte; the position an error names is that of `HSParser.ParseHstore`, not described by the grammar.
- Conversion of numbers to and from text, penalty functions, and everything that allocates, detoasts or wraps arguments.
- The other contrib modules: DES, bcrypt, md5-crypt, Fortuna, metaphone and soundex, btree_gist, cube, ltree, dblink and the tools.
