# A verified model of the thimble fuzzy-vault core

thimble is a C++ library that protects fingerprint templates with the
*fuzzy vault* scheme. A secret polynomial of degree below k is chosen at
random over a small binary field GF(2^d). The enrolled features (quantised
minutiae) are its genuine abscissas and random points off the polynomial
serve as chaff. The vault keeps only the polynomial that vanishes on the
vault's abscissas, the vault polynomial V, plus a SHA-1 hash of the
secret. A query unlocks the vault when k of its features lie on the
secret polynomial: the unlocking set is interpolated and accepted only on
a hash match. The vault polynomial's coefficients are packed into 16-byte
blocks and may be encrypted under AES-128 in CBC mode; a slow-down factor
multiplies the cost of each opening attempt.

This project models, in Dafny:

- the three vault containers, `FuzzyVault` (module `FuzzyVaults`),
  `ProtectedMinutiaeTemplate` (`Templates`) and `ProtectedMinutiaeRecord`
  (`ProtectedRecords`), as classes with their state flags, parameter
  setters, grid and field updates, encryption, opening and big-endian
  record serialisation. The records are modelled as byte sequences with
  parsers (`Records`, and `Templates`/`FuzzyVaults` for their own
  formats), and `fromBytes` parses into a temporary and then swaps it in;
- the shared vault machinery: packing and unpacking of the vault
  polynomial into bit vectors (`BitPacking`, `Vaults`), feature sets,
  permutations and the recovery of features from the vault polynomial's
  roots (`Features`), and feature quantisation with de-duplication
  (`Vaults`, `ProtectedMinutiae`);
- the decoder tools (`FuzzyVaultTools`): random index selection, random
  instances, brute-force and list decoding against a SHA-1 hash;
- the arithmetic underneath: GF(2)[X] polynomials packed in words
  (`BinaryPolynomials`), polynomials over an abstract binary field
  (`SmallBinaryFieldPolynomials`), multi-word signed integers
  (`BigIntegerLimbs`, `BigIntegerBits`, `BigIntegerBytes`, `BigIntegers`),
  binary vectors and matrices (`BinaryVectors`, `BinaryMatrices`), bit
  tools (`MathTools`), connected-component labelling (`Labelers`) and
  AES-128 of FIPS 197 with CBC chaining and a zero initialisation vector
  (`Aes`).

SHA-1, the key derivation, the random generator and the field's
multiplication table are parameters of the operations that use them.
Every loop of the source that changes state is a method with loop
invariants, proved against a specification function; the properties the
source documents are lemmas about those functions.

The same bit-packing code appears in `src/FuzzyVault.cpp:1674-1758`,
`src/ProtectedMinutiaeTemplate.cpp:3947-4066` and
`src/ProtectedMinutiaeRecord.cpp:3478-3586`; `BitPacking` models it once.
`ProtectedMinutiaeTemplate::overlap` and `FuzzyVault::numOverlap` are the
same loop and are modelled once by `Features.NumOverlap`.
`src/Permutation.cpp` is modelled through the permutation operations the
vaults use (`Features.Identity`, `Features.Exchanged`, `Features.Invert`,
`Features.Shuffle`).

## Model

| member | source | states |
|---|---|---|
| MathTools.NumBits | src/MathTools.cpp:108-118 | the loop returns the number of binary digits of a 64-bit n: the least b with n < 2^b, at most 64 |
| MathTools.DigitsIsLeastPower | src/MathTools.cpp:108-118 | the digit count is the least power bound: n < 2^b and 2^(b-1) <= n for nonzero n |
| MathTools.HammingWeight | src/MathTools.cpp:142-155 | Kernighan's loop returns the number of set bits of a 64-bit word, at most 64 |
| MathTools.ClearLowestBit | src/MathTools.cpp:142-155 | `n & (n - 1)` clears exactly one set bit of a nonzero n and is smaller than n |
| MathTools.WeightBound | src/MathTools.cpp:142-155 | a number below 2^k has at most k set bits |
| MathTools.Clmul | src/MathTools.cpp:162-198 | the carry-less product of two 32-bit words, in either operand order |
| MathTools.ClProductComm | src/MathTools.cpp:162-198 | the carry-less product is symmetric, which justifies letting the smaller operand drive the loop |
| MathTools.ClProductXor | src/MathTools.cpp:162-198 | the carry-less product distributes over exclusive or |
| MathTools.Mxor32 | src/MathTools.cpp:731-739 | the first n words of the output are the word-wise xor of the inputs' old words (the output may alias an input); the rest is unchanged |
| MathTools.ZeroTest32 | src/MathTools.cpp:872-886 | true exactly when the first n words are all zero |
| MathTools.Hd32 | src/MathTools.cpp:575-585 | the number of bit positions in which the first n words of the two arrays differ |
| MathTools.DistanceSymmetric | src/MathTools.cpp:575-585 | the Hamming distance does not depend on the order of its arguments |
| MathTools.DistanceSelf | src/MathTools.cpp:575-585 | a word sequence is at distance 0 from itself |
| MathTools.XorZeroIff | src/MathTools.cpp:575-585 | two words are equal exactly when their xor is zero |
| BinaryVectors.BinaryVector.constructor | src/BinaryVector.cpp:63-70 | a new vector of length n has all entries zero |
| BinaryVectors.BinaryVector.SetLength | src/BinaryVector.cpp:233-264 | entries below the new length keep their value, newly exposed entries read zero |
| BinaryVectors.BinaryVector.SetAt | src/BinaryVector.cpp:318-331 | entry j becomes one, nothing else changes |
| BinaryVectors.BinaryVector.ClearAt | src/BinaryVector.cpp:408-421 | entry j becomes zero, nothing else changes |
| BinaryVectors.BinaryVector.SetAtTo | src/BinaryVector.cpp:443-450 | entry j becomes c, nothing else changes |
| BinaryVectors.BinaryVector.IsZero | src/BinaryVector.cpp:343-346 | true exactly when no entry is set |
| BinaryVectors.BinaryVector.SetZero | src/BinaryVector.cpp:352-355 | every entry becomes zero, the length is kept |
| BinaryVectors.BinaryVector.Exchange | src/BinaryVector.cpp:375-391 | entries j0 and j1 trade places and every other entry is kept |
| BinaryVectors.BinaryVector.HammingWeight | src/BinaryVector.cpp:572-588 | the number of set entries, at most the length |
| BinaryVectors.BinaryVector.Binit | src/BinaryVector.cpp:617-631 | the first combination of weight k: exactly entries 0..k-1 are set |
| BinaryVectors.BinaryVector.Bnext | src/BinaryVector.cpp:664-695 | steps to the next combination of the same weight; reports false exactly when the set entries already form one block at the top |
| BinaryVectors.BinaryVector.Next | src/BinaryVector.cpp:720-735 | the next combination of the same weight, or after the last one the first combination of weight + 1; false once the all-ones vector is passed |
| BinaryVectors.BinaryVector.Equals | src/BinaryVector.cpp:147-165 | true exactly for vectors of the same length and entries |
| BinaryVectors.BinaryVector.Swap | src/BinaryVector.cpp:748-764 | the two vectors exchange their contents |
| BinaryVectors.BinaryVector.Add | src/BinaryVector.cpp:791-806 | c is the entrywise sum over GF(2) of the old a and b, also when c is one of them |
| BinaryVectors.BinaryVector.HammingDistance | src/BinaryVector.cpp:829-839 | the number of differing entries, zero exactly for equal vectors |
| BinaryVectors.MovesIffNotAtTop | src/BinaryVector.cpp:664-695 | a successor exists exactly when the set entries are not all at the top |
| BinaryVectors.NextCombinationCount | src/BinaryVector.cpp:664-695 | stepping to the next combination keeps the weight |
| BinaryVectors.XorBitsInvolution | src/BinaryVector.cpp:791-806 | adding the same vector twice gives back the original |
| BinaryVectors.DistanceZeroIffEqual | src/BinaryVector.cpp:829-839 | the distance is zero exactly for equal vectors and does not depend on argument order |
| BinaryVectors.CountZeroIffNoneSet | src/BinaryVector.cpp:343-346 | the weight is zero exactly when no entry is set |
| BinaryVectors.CountBound | src/BinaryVector.cpp:572-588 | the weight never exceeds the length |
| BinaryMatrices.BinaryMatrix.constructor | src/BinaryMatrix.cpp:74-96 | an m x n matrix with every entry zero |
| BinaryMatrices.BinaryMatrix.SetAt | src/BinaryMatrix.cpp:346-392 | entry (i, j) becomes c (setAt / clearAt) and nothing else changes |
| BinaryMatrices.BinaryMatrix.SetIdentity | src/BinaryMatrix.cpp:427-439 | a square matrix becomes the identity |
| BinaryMatrices.BinaryMatrix.ExchangeRows | src/BinaryMatrix.cpp:460-499 | rows i0 and i1 trade places, every other row is kept |
| BinaryMatrices.BinaryMatrix.ExchangeCols | src/BinaryMatrix.cpp:520-542 | columns j0 and j1 trade places in every row, every other entry is kept |
| BinaryMatrices.BinaryMatrix.AddRow | src/BinaryMatrix.cpp:571-587 | row i0 is added to row i1 from the word holding column j on; earlier columns and other rows are kept |
| BinaryMatrices.BinaryMatrix.FindPivot | src/BinaryMatrix.cpp:597-647 | the pivot search: a set entry in rows and columns k.., or the report that that block is zero |
| BinaryMatrices.BinaryMatrix.Gauss | src/BinaryMatrix.cpp:597-647 | the new matrix is the old one after a logged sequence of row exchanges, column exchanges and row additions, and is in row echelon form of the returned rank |
| BinaryMatrices.BinaryMatrix.Rank | src/BinaryMatrix.cpp:661-666 | the matrix is unchanged; the result is at most min(m, n) and is the rank of an echelon form reached from the matrix by elementary operations |
| BinaryMatrices.BinaryMatrix.Add | src/BinaryMatrix.cpp:763-775 | c is the entrywise GF(2) sum of the old a and b, also when c aliases one of them |
| BinaryMatrices.BinaryMatrix.Transpose | src/BinaryMatrix.cpp:793-815 | b becomes the transpose of the old a with swapped dimensions, also when b is a |
| BinaryMatrices.BinaryMatrix.Submatrix | src/BinaryMatrix.cpp:1001-1025 | a0 is the m0 x n0 block of a at (i0, j0) |
| BinaryMatrices.TransposeTwice | src/BinaryMatrix.cpp:793-815 | transposing twice gives back the matrix |
| BinaryMatrices.SumTwice | src/BinaryMatrix.cpp:763-775 | adding the same matrix twice gives back the first summand |
| BinaryMatrices.PerformTwice | src/BinaryMatrix.cpp:460-587 | every elementary operation gauss uses undoes itself |
| BinaryMatrices.ApplyUndone | src/BinaryMatrix.cpp:597-647 | the operations gauss logs, undone in reverse order, give the matrix back: the elimination loses no information |
| BinaryMatrices.AddRowWhole | src/BinaryMatrix.cpp:571-587 | when row k is zero before column k, adding it from the word of column k on is the whole-row addition |
| BinaryPolynomials.BinaryPolynomial.constructor | src/BinaryPolynomial.cpp:68-84 | the zero polynomial, degree -1, with whole words for the coefficients up to d |
| BinaryPolynomials.BinaryPolynomial.Copy | src/BinaryPolynomial.cpp:99-114 | the same polynomial and degree, in exactly the words that hold its coefficients |
| BinaryPolynomials.BinaryPolynomial.SetZero | src/BinaryPolynomial.cpp:199-209 | the zero polynomial with degree -1; the storage keeps its size |
| BinaryPolynomials.BinaryPolynomial.EnsureDegree | src/BinaryPolynomial.cpp:367-391 | the storage grows with cleared words; value and degree are kept |
| BinaryPolynomials.BinaryPolynomial.Assign | src/BinaryPolynomial.cpp:141-165 | the polynomial takes the value and degree of f |
| BinaryPolynomials.BinaryPolynomial.GetCoeff | src/BinaryPolynomial.cpp:236-256 | the coefficient of X^i, false above the degree; a negative i is an error |
| BinaryPolynomials.BinaryPolynomial.SetCoeff | src/BinaryPolynomial.cpp:285-302 | X^i is added to the value and the degree becomes max(degree, i) |
| BinaryPolynomials.BinaryPolynomial.ClearCoeff | src/BinaryPolynomial.cpp:326-349 | X^i is removed from the value and the degree is recomputed when the leading term goes |
| BinaryPolynomials.BinaryPolynomial.SetCoeffTo | src/BinaryPolynomial.cpp:285-349 | sets or clears the coefficient of X^i and nothing else |
| BinaryPolynomials.BinaryPolynomial.DegreeCouldBeSmaller | src/BinaryPolynomial.cpp:2281-2294 | the bits are kept and the degree becomes the highest set bit in the words up to the old degree, or -1 |
| BinaryPolynomials.ScanCanonical | src/BinaryPolynomial.cpp:2281-2294 | scanning all allocated words recovers the degree the representation invariant demands |
| BinaryPolynomials.BinaryPolynomial.LeftShift | src/BinaryPolynomial.cpp:573-624 | the value is multiplied by X^e and the degree grows by e; a negative e is an error |
| BinaryPolynomials.BinaryPolynomial.RightShift | src/BinaryPolynomial.cpp:650-703 | the value is divided by X^e, dropping terms below X^e, and the degree drops by e (or to -1); corrected form of the source |
| BinaryPolynomials.UnshiftShift | src/BinaryPolynomial.cpp:573-703 | shifting right by e undoes shifting left by e |
| BinaryPolynomials.BinaryPolynomial.Reverse | src/BinaryPolynomial.cpp:761-785 | coefficient j moves to d - j, for d at least the degree |
| BinaryPolynomials.ReverseTwice | src/BinaryPolynomial.cpp:761-785 | reversing twice for the same d gives back the polynomial |
| BinaryPolynomials.Add | src/BinaryPolynomial.cpp:1044-1064 | f becomes the coefficient-wise sum of the old g and h in canonical form, so add(f, g, g) is zero; corrected form of the source |
| BinaryPolynomials.PlusAssocComm | src/BinaryPolynomial.cpp:1044-1064 | the sum is associative and commutative |
| BinaryPolynomials.Mul | src/BinaryPolynomial.cpp:1170-1201 | f becomes the product of the old g and h; nonzero factors give degree deg g + deg h, a zero factor gives -1 |
| BinaryPolynomials.PlainMul | src/BinaryPolynomial.cpp:1170-1201 | the schoolbook product of the stored bits equals the product of the two values |
| BinaryPolynomials.TimesDegree | src/BinaryPolynomial.cpp:1170-1201 | over GF(2) the degree of a product of nonzero factors is the sum of the degrees |
| BinaryPolynomials.SubtractShifted | src/BinaryPolynomial.cpp:1244-1291 | one division step keeps a = q * b + r and lowers the degree of r below deg b + j |
| BinaryPolynomials.DivRem | src/BinaryPolynomial.cpp:1244-1291 | a = q * b + r with deg r < deg b, also when a or b is q or r |
| BinaryPolynomials.AddAsWrittenKeepsStaleWord | src/BinaryPolynomial.cpp:1044-1064 | add as written keeps a stale word of f: X^32 := X^31 + 1 still has the coefficient of X^32 |
| BinaryPolynomials.RightShiftAsWrittenKeepsDegree | src/BinaryPolynomial.cpp:650-703 | rightShift as written leaves X >> 1 with degree 1 and a zero leading coefficient |
| BinaryPolynomials.RightShiftAsWrittenKeepsStaleWord | src/BinaryPolynomial.cpp:650-703 | rightShift as written leaves a stale word: (X^64 + X^32) >> 64 keeps the coefficient of X^32 |
| SmallBinaryFieldPolynomials.SmallBinaryFieldPolynomial.constructor | include/thimble/math/numbertheory/SmallBinaryFieldPolynomial.h:315-320 | the zero polynomial without storage |
| SmallBinaryFieldPolynomials.SmallBinaryFieldPolynomial.Normalize | src/SmallBinaryFieldPolynomial.cpp:58-66 | the stored entries are kept and the degree drops past zero leading coefficients, to -1 for zero |
| SmallBinaryFieldPolynomials.TrimCoeff | src/SmallBinaryFieldPolynomial.cpp:58-66 | normalizing changes no coefficient |
| SmallBinaryFieldPolynomials.NormalizedUnique | src/SmallBinaryFieldPolynomial.cpp:58-66 | a normalized coefficient list is determined by its coefficients |
| SmallBinaryFieldPolynomials.SmallBinaryFieldPolynomial.Assign | src/SmallBinaryFieldPolynomial.cpp:75-99 | the polynomial takes the value of f |
| SmallBinaryFieldPolynomials.SmallBinaryFieldPolynomial.EnsureCapacity | src/SmallBinaryFieldPolynomial.cpp:110-148 | the storage grows to n entries, old entries and the value are kept |
| SmallBinaryFieldPolynomials.SmallBinaryFieldPolynomial.GetCoeff | include/thimble/math/numbertheory/SmallBinaryFieldPolynomial.h:586-593 | the coefficient of X^i, zero outside 0..degree |
| SmallBinaryFieldPolynomials.SmallBinaryFieldPolynomial.SetCoeff | src/SmallBinaryFieldPolynomial.cpp:198-234 | only the coefficient of X^i changes, to c, and the result is normalized; a negative i is an error |
| SmallBinaryFieldPolynomials.SmallBinaryFieldPolynomial.Eval | src/SmallBinaryFieldPolynomial.cpp:361-382 | the value at x by Horner's rule, zero for the zero polynomial |
| SmallBinaryFieldPolynomials.HornerIsPowerSum | src/SmallBinaryFieldPolynomial.cpp:361-382 | Horner's rule computes the sum of c[i] x^i, the polynomial's value by definition |
| SmallBinaryFieldPolynomials.SmallBinaryFieldPolynomial.Swap | include/thimble/math/numbertheory/SmallBinaryFieldPolynomial.h:426-446 | the two polynomials exchange contents |
| SmallBinaryFieldPolynomials.SmallBinaryFieldPolynomial.BuildFromRoots | src/SmallBinaryFieldPolynomial.cpp:280-297 | the polynomial becomes the product of X - a[i] for i < n |
| SmallBinaryFieldPolynomials.FromRootsMonic | src/SmallBinaryFieldPolynomial.cpp:280-297 | over a field that product is monic of degree n |
| SmallBinaryFieldPolynomials.HornerFromRoots | src/SmallBinaryFieldPolynomial.cpp:280-297 | the product of the linear factors evaluates to the product of x - a[i] |
| SmallBinaryFieldPolynomials.SmallBinaryFieldPolynomial.Interpolate | src/SmallBinaryFieldPolynomial.cpp:393-459 | for distinct locators, the result has degree below n and takes the value b[i] at a[i] for every i < n |
| SmallBinaryFieldPolynomials.FactorTheorem | src/SmallBinaryFieldPolynomial.cpp:393-459 | p(x) = (x + c) q(x) + p(c) for the cofactor q of dividing p by X + c |
| SmallBinaryFieldPolynomials.VanishingIsZero | src/SmallBinaryFieldPolynomial.cpp:393-459 | a normalized polynomial with fewer coefficients than distinct roots is the zero polynomial |
| SmallBinaryFieldPolynomials.InterpolationUnique | src/SmallBinaryFieldPolynomial.cpp:393-459 | two polynomials of degree below n agreeing at n distinct locators are equal, so the interpolant is the only candidate |
| SmallBinaryFieldPolynomials.AddLagrangeTerm | src/SmallBinaryFieldPolynomial.cpp:417-458 | one pass of the loop adds the i-th Lagrange term: the value at a[i] gains b[i], the values at the other locators are kept |
| SmallBinaryFieldPolynomials.LagrangeDenominator | src/SmallBinaryFieldPolynomial.cpp:425-437 | the product of a[i] - a[j] over the other locators j < n |
| SmallBinaryFieldPolynomials.LocatorProductZero | src/SmallBinaryFieldPolynomial.cpp:393-459 | that denominator is zero exactly when a locator repeats a[i], the case interpolate rejects |
| SmallBinaryFieldPolynomials.LagrangeTermValues | src/SmallBinaryFieldPolynomial.cpp:393-459 | the i-th Lagrange term is b[i] at a[i] and zero at every other locator |
| SmallBinaryFieldPolynomials.Add | src/SmallBinaryFieldPolynomial.cpp:663-716 | every coefficient of h is the xor of those of the old f and g, and h is normalized |
| SmallBinaryFieldPolynomials.HornerXor | src/SmallBinaryFieldPolynomial.cpp:663-716 | the value of a sum is the sum of the values |
| SmallBinaryFieldPolynomials.LeftShift | src/SmallBinaryFieldPolynomial.cpp:492-523 | f becomes g * X^n; a negative n divides by X^-n |
| SmallBinaryFieldPolynomials.RightShift | src/SmallBinaryFieldPolynomial.cpp:534-555 | f becomes the quotient of g by X^n, and a negative n multiplies by X^-n as documented; corrected form of the source |
| SmallBinaryFieldPolynomials.ShiftDown | src/SmallBinaryFieldPolynomial.cpp:534-555 | the loop of rightShift moves coefficient i + n to i |
| SmallBinaryFieldPolynomials.ShiftRoundTrip | src/SmallBinaryFieldPolynomial.cpp:492-555 | rightShift(n) after leftShift(n) gives back the polynomial |
| SmallBinaryFieldPolynomials.MulXPowerCoeff | src/SmallBinaryFieldPolynomial.cpp:492-555 | coefficient k of g * X^n is coefficient k - n of g, and the result stays normalized |
| SmallBinaryFieldPolynomials.RightShiftNegativeAsWritten | src/SmallBinaryFieldPolynomial.cpp:534-555 | rightShift as written with n = -1 turns the polynomial 1 into zero, where X is documented |
| SmallBinaryFieldPolynomials.TradMul | src/SmallBinaryFieldPolynomial.cpp:801-829 | the schoolbook product: coefficient i + j accumulates a[i] * b[j] |
| SmallBinaryFieldPolynomials.MulUncheck | src/SmallBinaryFieldPolynomial.cpp:801-829 | h becomes the normalized product of two nonzero factors |
| SmallBinaryFieldPolynomials.Mul | src/SmallBinaryFieldPolynomial.cpp:838-868 | h becomes the product of the old f and g, also when h is one of them; a zero factor gives zero |
| SmallBinaryFieldPolynomials.ProductDegree | src/SmallBinaryFieldPolynomial.cpp:801-868 | over a field nonzero factors of degrees m and n give degree m + n with the product of the leading coefficients on top |
| SmallBinaryFieldPolynomials.MulScalar | src/SmallBinaryFieldPolynomial.cpp:920-930 | h becomes f times the scalar s, normalized, so s = 0 gives zero; corrected form of the source |
| SmallBinaryFieldPolynomials.ScaledNormalized | src/SmallBinaryFieldPolynomial.cpp:920-930 | scaling by a nonzero element keeps the degree |
| SmallBinaryFieldPolynomials.HornerTimesScalar | src/SmallBinaryFieldPolynomial.cpp:920-930 | scaling the coefficients scales the value |
| SmallBinaryFieldPolynomials.MulScalarAsWrittenByZero | src/SmallBinaryFieldPolynomial.cpp:920-930 | the scalar product as written leaves 1 * 0 with degree 0 and a zero leading coefficient |
| SmallBinaryFieldPolynomials.ReduceStep | src/SmallBinaryFieldPolynomial.cpp:1001-1013 | one division step fixes quotient coefficient i, cancels the remainder's leading coefficient and keeps a = q * b + r |
| SmallBinaryFieldPolynomials.DivRemCoeffs | src/SmallBinaryFieldPolynomial.cpp:940-1018 | a = q * b + r coefficient by coefficient, deg r < deg b, and q has deg a - deg b + 1 entries |
| SmallBinaryFieldPolynomials.DivRem | src/SmallBinaryFieldPolynomial.cpp:940-1018 | q and r become quotient and remainder of a by nonzero b, also when a or b is q or r |
| SmallBinaryFieldPolynomials.DivideByRoot | src/SmallBinaryFieldPolynomial.cpp:940-1018 | dividing a multiple of X + c by X + c gives the exact cofactor, as interpolate relies on |
| SmallBinaryFieldPolynomials.SmallBinaryFieldPolynomial.SetZero | include/thimble/math/numbertheory/SmallBinaryFieldPolynomial.h:661-665 | the zero polynomial |
| SmallBinaryFieldPolynomials.SmallBinaryFieldPolynomial.SetOne | include/thimble/math/numbertheory/SmallBinaryFieldPolynomial.h:678-682 | the constant polynomial 1 |
| SmallBinaryFieldPolynomials.SmallBinaryFieldPolynomial.SetX | include/thimble/math/numbertheory/SmallBinaryFieldPolynomial.h:694-699 | the monomial X |
| SmallBinaryFieldPolynomials.SmallBinaryFieldPolynomial.MulByRoot | src/SmallBinaryFieldPolynomial.cpp:292-296 | one pass of buildFromRoots multiplies the product built so far by X - r |
| SmallBinaryFieldPolynomials.LagrangeScale | src/SmallBinaryFieldPolynomial.cpp:425-441 | the prefactor of the i-th Lagrange term is b[i] divided by its denominator |
| SmallBinaryFieldPolynomials.LagrangeBasis | src/SmallBinaryFieldPolynomial.cpp:450-452 | l divided by X - a[i] is exactly the product of the other linear factors, of degree n - 1 |
| BigIntegerLimbs.LimbCompare | src/BigInteger.cpp:92-146 | the word-array comparison returns the sign of Mag(a) - Mag(b) |
| BigIntegerLimbs.NormalBounds | src/BigInteger.cpp:768-787 | a normalized array of n words needs all n words: it is at least W^(n-1) and zero only as the single word 0 |
| BigIntegerLimbs.NormalLengthOrder | src/BigInteger.cpp:1311-1330 | of two normalized arrays the larger value has at least as many words, which lets absCompare decide on word counts first |
| BigIntegerLimbs.LimbAdd | src/BigInteger.cpp:215-254 | the max(m, n) words of the sum and a carry of 0 or 1 with Mag(c) + carry * W^l = Mag(a) + Mag(b) |
| BigIntegerLimbs.AddWordStep | src/BigInteger.cpp:229-236 | one column of the addition keeps the sum of the prefixes |
| BigIntegerLimbs.PropagateCarry | src/BigInteger.cpp:238-253 | the carry loops add the remaining words of the longer operand to the carry |
| BigIntegerLimbs.LimbSub | src/BigInteger.cpp:326-372 | the m low words of Mag(a) - Mag(b), wrapping by W^m exactly when the subtrahend is larger |
| BigIntegerLimbs.PropagateBorrow | src/BigInteger.cpp:356-371 | the borrow loop subtracts the borrow from the remaining words |
| BigIntegerLimbs.LimbMulWord | src/BigInteger.cpp:425-443 | the n low words of Mag(a) * w and the carry word |
| BigIntegerLimbs.MulWordStep | src/BigInteger.cpp:435-442 | one column of the word product keeps the product of the prefix |
| BigIntegerLimbs.LimbMul | src/BigInteger.cpp:515-545 | the m + n + 1 words of Mag(a) * Mag(b); corrected form of the source, rows from the lowest word up |
| BigIntegerLimbs.AddRow | src/BigInteger.cpp:538-544 | one row accumulated at word i adds W^i times the row |
| BigIntegerLimbs.MulAsWrittenLosesCarry | src/BigInteger.cpp:515-545 | the rows as written, from the top word down, lose a carry: [W - 1] times [2, 1, 1] gives W - 2 in place of W^3 + W - 2 |
| BigIntegerLimbs.LongDivide | src/BigInteger.cpp:660-757 | div returns the normalizing factor d = 2^32 / (b[n-1] + 1), the m + 1 quotient words are Mag(a) / Mag(b), b is left holding d * Mag(b) and a is left holding d * (Mag(a) % Mag(b)) |
| BigIntegerLimbs.Normalize | src/BigInteger.cpp:684-687 | D1: multiplying a and b by d loses no carry, makes the top word of b at least W / 2 and leaves the top n words of a below b |
| BigIntegerLimbs.NormalizingFactor | src/BigInteger.cpp:685 | d = 2^32 / (v + 1) is between 1 and W / 2 and lifts v to d v >= W / 2 without d (v + 1) exceeding W |
| BigIntegerLimbs.ScaledDivision | src/BigInteger.cpp:684-687 | scaling both operands by d keeps the quotient and scales the remainder by d |
| BigIntegerLimbs.DigitStep | src/BigInteger.cpp:689-755 | one step of the division: the digit at p keeps a + W^p * q * b and leaves the part of a from p on below b |
| BigIntegerLimbs.EstimateDigit | src/BigInteger.cpp:697-743 | D3: the refined estimate from the top three words of the window and the top two of b is below W and is the true digit or one more |
| BigIntegerLimbs.RefineDigit | src/BigInteger.cpp:706-743 | the loop lowers the estimate at most twice, only when the two-word test shows it too large, and stops once that test passes |
| BigIntegerLimbs.TrialNotBelow | src/BigInteger.cpp:697-701 | the first estimate (0xFFFFFFFF when the top words agree, else the two-word quotient) is never below the true digit |
| BigIntegerLimbs.TrialAtMostTwoAbove | src/BigInteger.cpp:697-701 | with a normalized divisor the first estimate is at most two above the true digit |
| BigIntegerLimbs.TopTooLarge | src/BigInteger.cpp:720-731 | a digit failing the two-word test times b exceeds the window, so lowering it is right |
| BigIntegerLimbs.TopFits | src/BigInteger.cpp:720-731 | a digit below W passing the two-word test is at most one above the true digit |
| BigIntegerLimbs.SubtractDigit | src/BigInteger.cpp:745-752 | D4: after the single correction the digit is exactly the window quotient, below W, and the window is left holding the window remainder |
| BigIntegerLimbs.DivModUnique | src/BigInteger.cpp:660-757 | x = q * y + r with 0 <= r < y determines q and r |
| BigIntegerBits.ShiftWordsLeft | src/BigInteger.cpp:1382-1437 | the word loop of leftShift gives b times 2^m times W^k |
| BigIntegerBits.LeftShiftWord | src/BigInteger.cpp:1382-1437 | one turn of that loop places b[i] * 2^m across words k + i and k + i + 1 |
| BigIntegerBits.ShiftWordsRight | src/BigInteger.cpp:1447-1499 | the word loop of rightShift gives the words of b without the low k words, shifted right by m bits; the words above are kept |
| BigIntegerBits.ShiftedWord | src/BigInteger.cpp:1447-1499 | word i - k of the result is b[i] >> m with the low m bits of b[i + 1] on top |
| BigIntegerBits.MagRightWords | src/BigInteger.cpp:1447-1499 | the words shifted right by m bits have the value Mag(b) / 2^m |
| BigIntegerBits.MagShiftRight | src/BigInteger.cpp:1447-1499 | the value of rightShift's words is Mag(b) / 2^(32k + m) |
| BigIntegerBits.MagShiftLeft | src/BigInteger.cpp:1382-1437 | the value of leftShift's words is Mag(b) * 2^(32k + m) |
| BigIntegerBytes.ByteCount | src/BigInteger.cpp:1096-1100 | the number of bytes holding nb + 1 bits: the fewest bytes with room for the magnitude and the sign bit |
| BigIntegerBytes.MagGroup | src/BigInteger.cpp:1199-1236 | grouping the bytes four at a time gives words with the value of the bytes |
| BigIntegerBytes.GroupAt | src/BigInteger.cpp:1199-1236 | word i of the grouping holds bytes 4i to 4i + 3 |
| BigIntegerBytes.SignedBytes | src/BigInteger.cpp:1134-1154 | the bytes of a magnitude with a free top bit, that bit set for a negative integer, decode to the integer |
| BigIntegerBytes.DecodeNegative | src/BigInteger.cpp:1199-1236 | setting the top bit of the last byte negates the decoded value |
| BigIntegerBytes.MaskedSet | src/BigInteger.cpp:1199-1236 | clearing the sign bit undoes setting it |
| BigIntegerBytes.TopByteBound | src/BigInteger.cpp:1134-1154 | the top byte of a value below 2^(8s - 1) leaves the sign bit free |
| BigIntegers.BigInteger.Sign | include/thimble/math/numbertheory/BigInteger.h:397-399 | -1, 0 or 1, the sign of the value |
| BigIntegers.BigInteger.IsZero | include/thimble/math/numbertheory/BigInteger.h:453-455 | true exactly for the value 0 |
| BigIntegers.BigInteger.constructor | src/BigInteger.cpp:797-823 | a one-word integer with value v; a magnitude above 2^32 - 1 is an error |
| BigIntegers.BigInteger.Clear | include/thimble/math/numbertheory/BigInteger.h:488-491 | the value 0 in one word |
| BigIntegers.BigInteger.EnsureCapacity | src/BigInteger.cpp:919-946 | at least k words allocated, the relevant words kept and the words above them zero |
| BigIntegers.BigInteger.Normalize | src/BigInteger.cpp:768-787 | the magnitude and the sign of size are kept, zero top words are dropped, and the result is valid |
| BigIntegers.BigInteger.Assign | src/BigInteger.cpp:956-975 | a copy of the relevant words and size of z |
| BigIntegers.BigInteger.Swap | src/BigInteger.cpp:985-1001 | the two integers exchange words, sizes and values |
| BigIntegers.BigInteger.Negate | include/thimble/math/numbertheory/BigInteger.h:664-670 | a becomes -b, zero stays zero |
| BigIntegers.BigInteger.AbsCompare | src/BigInteger.cpp:1311-1330 | the sign of \|a\| - \|b\| |
| BigIntegers.BigInteger.Compare | src/BigInteger.cpp:1339-1372 | the sign of a - b |
| BigIntegers.BigInteger.Add | src/BigInteger.cpp:1508-1619 | c = a + b, also for opposite integers; corrected form of the source |
| BigIntegers.BigInteger.Sub | src/BigInteger.cpp:1628-1730 | c = a - b |
| BigIntegers.BigInteger.Mul | src/BigInteger.cpp:1739-1776 | c = a * b |
| BigIntegers.BigInteger.LeftShift | src/BigInteger.cpp:1382-1437 | a = b * 2^n for n >= 0; a negative n shifts right by -n |
| BigIntegers.BigInteger.RightShift | src/BigInteger.cpp:1447-1499 | a = b / 2^n rounded toward zero for n >= 0, also when every word is shifted out; a negative n shifts left; corrected form of the source |
| BigIntegers.BigInteger.Div | src/BigInteger.cpp:1785-1868 | c = floor(a / b) for nonzero b, also when a has fewer words than b; corrected form of the source |
| BigIntegers.BigInteger.DivCore | src/BigInteger.cpp:1803-1868 | the long division of the magnitudes, moved one down for a negative quotient with a remainder, is floor(a / b) |
| BigIntegers.DivideWords | src/BigInteger.cpp:1814-1853 | the word quotient is Mag(a) / Mag(b), and the zero test over the words left as d times the remainder is true exactly when the division is exact |
| BigIntegers.BigInteger.DivRem | src/BigInteger.cpp:1877-1912 | q = floor(a / b) and r = a - q b, with r between 0 and b, also when a or b is q or r |
| BigIntegers.FloorDivRemainder | src/BigInteger.cpp:1877-1912 | the remainder a - floor(a / b) b lies between 0 and b, on the side of b |
| BigIntegers.FloorDivSigned | src/BigInteger.cpp:1785-1868 | floor(a / b) from the magnitudes: their quotient, negated and moved one down when the signs differ and a remainder is left |
| BigIntegers.BigInteger.NumBits | src/BigInteger.cpp:873-887 | the number of binary digits of the absolute value: the least l with \|x\| < 2^l |
| BigIntegers.NumBitsBound | src/BigInteger.cpp:873-887 | 32 bits per word below the top one plus the digits of the top word are the digits of the magnitude |
| BigIntegers.BigInteger.GetSizeInBytes | src/BigInteger.cpp:1096-1100 | the bytes that hold the absolute value and one more bit for the sign |
| BigIntegers.BigInteger.ToBytes | src/BigInteger.cpp:1134-1154 | the first getSizeInBytes bytes decode to the integer and the rest of the buffer is kept |
| BigIntegers.WriteMagnitude | src/BigInteger.cpp:1134-1154 | the loops of toBytes write the magnitude least significant byte first into the first bytes and keep the rest |
| BigIntegers.BigInteger.FromBytes | src/BigInteger.cpp:1199-1236 | the value of the first n bytes, least significant first, negative when the top bit of the last byte is set; no bytes give zero |
| BigIntegers.GroupWords | src/BigInteger.cpp:1199-1236 | the loop of fromBytes stores the grouped words of the masked bytes |
| BigIntegers.BigInteger.BytesRoundTrip | src/BigInteger.cpp:1096-1236 | fromBytes(toBytes(x), getSizeInBytes()) has the value of x |
| BigIntegers.DivAsWrittenLosesQuotient | src/BigInteger.cpp:1785-1868 | div as written leaves 0 / 1 without quotient words, and 0 / 2^64 exits, where both quotients are 0 |
| BigIntegers.RightShiftAsWrittenLosesWords | src/BigInteger.cpp:1447-1499 | rightShift as written leaves a one-word integer shifted by 32 without words, and shifted by 64 it exits |
| BigIntegers.AddAsWrittenKeepsOutput | src/BigInteger.cpp:1508-1619 | add as written leaves c = 7 after add(c, 5, -5), where 0 is documented |
| BigIntegers.BigInteger.ShiftedUp | src/BigInteger.cpp:1795-1801 | the integer shifted up by 32 bits, as div does for a one-word divisor, is a times W |
| BigIntegers.FloorDivScale | src/BigInteger.cpp:1795-1801 | scaling both operands by the same positive factor keeps floor(a / b), so the shift by 32 bits does not change the quotient |
| Labelers.Labeler.constructor | src/Labeler.cpp:55-63 | an empty labelling with the given connectivity |
| Labelers.Labeler.Label | src/Labeler.cpp:124-198 | background pixels get -1; foreground labels run from 0 to labelCount - 1 and each is used; two foreground pixels share a label exactly when a path of foreground neighbours joins them; label sizes do not increase with the label; corrected label count |
| Labelers.Labeler.Settle | src/Labeler.cpp:153-156 | the forward and backward passes repeat until no label changes; afterwards neighbouring foreground pixels share their label, labels only went down and stay within components |
| Labelers.Labeler.CompactLabels | src/Labeler.cpp:166-192 | the labels in use are renamed 0, 1, 2, ... in increasing order, keeping which pixels share a label; the result is how many there are |
| Labelers.Labeler.FirstPass | src/Labeler.cpp:365-404 | every foreground pixel gets the smallest label of its already labelled foreground neighbours or a fresh one; background pixels get -1; the result says whether there is a foreground pixel |
| Labelers.Labeler.FirstPassRow | src/Labeler.cpp:365-404 | the inner loop of firstPass over one row keeps the labelling invariant |
| Labelers.Labeler.PassForward | src/Labeler.cpp:423-444 | labels only go down, the result says whether one changed, and without a change no foreground pixel has a neighbour with a smaller label |
| Labelers.Labeler.ForwardRow | src/Labeler.cpp:423-444 | the inner loop of passForward over one row |
| Labelers.Labeler.PassBackward | src/Labeler.cpp:463-484 | the same guarantees as passForward, in reverse row-major order |
| Labelers.Labeler.BackwardRow | src/Labeler.cpp:463-484 | the inner loop of passBackward over one row |
| Labelers.Labeler.NewLabel | src/Labeler.cpp:515-635 | the pixel gets the smallest label of its labelled foreground neighbours and count is returned, or it gets count and count + 1 is returned |
| Labelers.NeighbourMinimum | src/Labeler.cpp:515-635 | the neighbour scan of newLabel: the smallest neighbouring label below count, witnessed by a neighbour, or count |
| Labelers.Labeler.Relabel | src/Labeler.cpp:662-784 | the label of (i, j) only goes down, to the smallest label of a foreground neighbour; the result is true exactly when it changed; nothing else changes |
| Labelers.LabelledMinimum | src/Labeler.cpp:662-784 | the neighbour scan of relabel: the smallest neighbouring label when below the pixel's own, witnessed by a neighbour |
| Labelers.Labeler.NextLabel | src/Labeler.cpp:816-842 | the smallest label above l, or INT_MAX when none lies below INT_MAX |
| Labelers.Labeler.Get | src/Labeler.cpp:282-289 | marks exactly the pixels labelled labelIndex |
| Labelers.Labeler.LabelSize | src/Labeler.cpp:311-331 | the number of pixels labelled labelIndex |
| Labelers.Labeler.Replace | src/Labeler.cpp:180-186 | every label from becomes to, nothing else changes |
| Labelers.Labeler.SortLabels | src/Labeler.cpp:903-944 | the labels are renamed by a bijection so that pixel counts do not increase with the label; pixels share a label afterwards exactly when they did before |
| Labelers.Labeler.Renumber | src/Labeler.cpp:903-944 | label order[t].0 becomes t for the labels sorted by descending size |
| Labelers.Labeler.RenameInOrder | src/Labeler.cpp:903-944 | the renaming loop moves label order[l].0 to l + labelCount |
| Labelers.Labeler.Unshift | src/Labeler.cpp:903-944 | every label of at least amount is lowered by amount |
| Labelers.Labeler.ComponentSizes | src/Labeler.cpp:903-944 | the pairs sortLabels sorts: labelCount pairs (0, 0), then (k, pixel count of k) for every label k |
| Labelers.SortBySize | src/Labeler.cpp:903-944 | the sort of the (label, size) pairs is a permutation with decreasing sizes |
| Labelers.SortedSizes | src/Labeler.cpp:903-944 | the first labelCount sorted pairs are exactly the real labels with their sizes |
| Labelers.SortedRenaming | src/Labeler.cpp:903-944 | after the renaming and the shift back, labels are 0 .. labelCount - 1, all used, with non-increasing sizes |
| Labelers.LabelsAreComponents | src/Labeler.cpp:124-198 | in a stable labelling whose labels stay within components, two foreground pixels share a label exactly when a path joins them |
| Labelers.AssignConnected | src/Labeler.cpp:515-784 | giving a pixel a fresh label or a labelled neighbour's keeps every label within one component |
| Labelers.SettledStable | src/Labeler.cpp:153-156 | without a smaller neighbouring label anywhere, neighbours share labels |
| Labelers.AdjacentSymmetric | src/Labeler.cpp:515-784 | the neighbour relation is symmetric and irreflexive |
| Labelers.LabelCountAsWrittenHasEmptyLabel | src/Labeler.cpp:192 | the label count as written is one more than the labels in use, so its last label has no pixel |
| Aes.ToWordAdds | src/AES.cpp:162-172 | toWord's shift-and-add of four bytes equals the big-endian word of those bytes |
| Aes.BytesOfWord | src/AES.cpp:162-189 | toBytes splits the word built by toWord back into the same four bytes |
| Aes.WordOfBytes | src/AES.cpp:162-189 | toWord rebuilds every word from the four bytes toBytes gives it |
| Aes.SubByteInverse | src/AES.cpp:202-227 | InvSubByte undoes SubByte on every byte |
| Aes.InvSubByteInverse | src/AES.cpp:202-227 | SubByte undoes InvSubByte on every byte: the two tables are inverse permutations |
| Aes.SubWordBytes | src/AES.cpp:242-254 | SubWord substitutes each of the four bytes of the word through the S-box |
| Aes.RotWordBytes | src/AES.cpp:269-276 | RotWord rotates the word's bytes one place towards the most significant end |
| Aes.SubstitutedInverse | src/AES.cpp:814-820 | invSubBytes undoes subBytes on every state |
| Aes.RowsShiftedInverse | src/AES.cpp:836-858 | invShiftRows undoes shiftRows on every state |
| Aes.KeyAddedTwice | src/AES.cpp:782-798 | addRoundKey with the same round key twice leaves the state unchanged |
| Aes.ColumnsMixedInverse | src/AES.cpp:874-900 | invMixColumns undoes mixColumns whenever the column transforms are inverse in the field used |
| Aes.InvRoundUndoes | src/AES.cpp:693-710 | each inverse round of invCipher takes the state of the matching round of cipher back one round |
| Aes.CipherInverse | src/AES.cpp:650-710 | invCipher undoes cipher for every key schedule and every block |
| Aes.ExpansionIsKeySchedule | src/AES.cpp:741-766 | the expansion starts with the key's four words and follows the key-schedule recurrence of FIPS 197 |
| Aes.KeyScheduleUnique | src/AES.cpp:741-766 | a key has exactly one schedule satisfying the recurrence |
| Aes.KeyScheduleInjective | src/AES.cpp:741-766 | different keys have different schedules: the key is read back from the first four words |
| Aes.AssignAsWrittenBreaksSchedule | src/AES.cpp:373-377 | copying only 11 of the 44 words of a different key's schedule leaves words that are no key's schedule |
| Aes.XorCancel | src/AES.cpp:399-413 | mxor8 with the same block twice gives the block back |
| Aes.CbcRoundTrip | src/AES.cpp:451-592 | decrypt undoes encrypt in CBC mode for every key schedule and every whole-block message |
| Aes.Aes128.constructor | src/AES.cpp:287-293 | the object holds the 44-word expansion of the key and a zero state |
| Aes.Aes128.FromDigest | src/AES.cpp:311-331 | the key is the first 16 bytes of the password digest, expanded; the state is zero |
| Aes.Aes128.Copy | src/AES.cpp:343-346 | the copy holds the same 44 words and state in fresh arrays |
| Aes.Aes128.AssignAsWritten | src/AES.cpp:373-377 | operator= as written copies only the first 11 words of the schedule and keeps the rest |
| Aes.Aes128.Assign | src/AES.cpp:373-377 | the corrected operator= copies all 44 words and the state |
| Aes.Aes128.WipeAsWritten | src/AES.cpp:352-357 | the destructor as written clears only the first 11 words of the schedule |
| Aes.Aes128.Wipe | src/AES.cpp:352-357 | the corrected destructor clears every word of the schedule and the state |
| Aes.Aes128.KeyExpansion | src/AES.cpp:741-766 | w becomes the key's expansion, which satisfies the key-schedule recurrence |
| Aes.Aes128.AddRoundKey | src/AES.cpp:782-798 | the state is xored column by column with words 4r .. 4r+3 of the schedule; the schedule is unchanged |
| Aes.Aes128.SubBytes | src/AES.cpp:814-820 | every byte of the state goes through the S-box |
| Aes.Aes128.InvSubBytes | src/AES.cpp:916-922 | every byte of the state goes through the inverse S-box |
| Aes.Aes128.ShiftRows | src/AES.cpp:836-858 | row r of the state is rotated left by r places |
| Aes.Aes128.InvShiftRows | src/AES.cpp:938-959 | row r of the state is rotated right by r places |
| Aes.Aes128.MixColumns | src/AES.cpp:874-900 | every column of the state is replaced by its mixed column |
| Aes.Aes128.InvMixColumns | src/AES.cpp:975-1005 | every column of the state is replaced by its unmixed column |
| Aes.Aes128.Cipher | src/AES.cpp:650-667 | the state becomes the enciphered block under the object's schedule |
| Aes.Aes128.InvCipher | src/AES.cpp:693-710 | the state becomes the deciphered block under the object's schedule |
| Aes.Aes128.Encrypt | src/AES.cpp:451-495 | fails exactly when n is not a multiple of 16; otherwise out's first n bytes are the CBC encryption of inp's first n bytes with a zero IV, the rest of out unchanged |
| Aes.Aes128.Decrypt | src/AES.cpp:536-592 | fails exactly when n is not a multiple of 16; otherwise out's first n bytes are the CBC decryption of inp's first n bytes, the rest of out unchanged |
| Aes.Aes128.XorIntoState | src/AES.cpp:399-413 | the state becomes its bytewise exclusive or with block i of src |
| BitPacking.NumVecBits | src/FuzzyVault.cpp:1689-1707 | reading back the d bits written for a value below 2^d gives the value |
| BitPacking.VecBitsNum | src/FuzzyVault.cpp:1739-1754 | the d bits of the value read from a d-bit string are that string |
| BitPacking.BitsOfOctets | src/FuzzyVault.cpp:1689-1707 | the bytes built from a whole-byte bit string give that bit string back, most significant bit first |
| BitPacking.UnpackedStream | src/FuzzyVault.cpp:1674-1758 | vectors of at most d bits are read back from their concatenated bits, whatever bits follow |
| BitPacking.VaultDataSizeFits | src/ProtectedMinutiaeTemplate.cpp:3848-3865 | vaultDataSize is the least multiple of 16 bytes that holds the t * d bits |
| BitPacking.PushVectors | src/FuzzyVault.cpp:1677-1707 | the zeroed bytes come to hold the concatenated d-bit vectors, and the active byte index is the bit count / 8 |
| BitPacking.PadByte | src/FuzzyVault.cpp:1709-1715 | the active byte is completed with the low bits of the random draws |
| BitPacking.FillRandom | src/FuzzyVault.cpp:1717-1721 | the bytes from the start index on become the random draws in order |
| BitPacking.ConcatBitVectorsAsWritten | src/FuzzyVault.cpp:1674-1722 | as written: the stream, its pad bits, one byte left zero when t * d is a multiple of 8, then random bytes |
| BitPacking.ConcatBitVectors | src/FuzzyVault.cpp:1674-1722 | corrected: the padded stream's bytes followed directly by random bytes, as the header documents |
| BitPacking.PackedAsWrittenLeavesZero | src/FuzzyVault.cpp:1717-1721 | for two 8-bit vectors in 16 bytes, byte 2 is always 0 as written but the first random draw in the corrected packing |
| BitPacking.SplitIntoBitVectors | src/FuzzyVault.cpp:1727-1758 | vector i is the number read from bits i*d .. i*d + d - 1 of the bytes, most significant first |
| BitPacking.ReadVector | src/FuzzyVault.cpp:1739-1754 | the d bits from the active bit on, shifted into a 32-bit word, give their value; the active position advances by d |
| BitPacking.SplitPacked | src/ProtectedMinutiaeTemplate.cpp:3947-4066 | splitting the packed bytes returns the vectors, whatever the random supplement |
| BitPacking.SplitPackedAsWritten | src/FuzzyVault.cpp:1674-1758 | the round trip holds also for the bytes as written, the zero byte included |
| Features.InsertSorted | src/FuzzyVault.cpp:681 | inserting into an ascending sequence keeps it ascending |
| Features.SortedCopy | src/FuzzyVault.cpp:681 | the result is ascending and a permutation of its input |
| Features.SortPrefix | src/FuzzyVault.cpp:681 | the first len entries become their ascending permutation and the rest are kept |
| Features.Identity | src/Permutation.cpp:204-218 | setDimension(n) gives a permutation of 0 .. n-1 |
| Features.Exchanged | src/Permutation.cpp:276-287 | exchange swaps the images of x0 and x1 and keeps every other image |
| Features.ExchangedPermutation | src/Permutation.cpp:276-287 | an exchange keeps a permutation a permutation and undoes itself |
| Features.Shuffle | src/FuzzyVault.cpp:1528-1539 | updatePermutation's exchanges with the generator's outputs modulo n give a permutation of 0 .. n-1 |
| Features.Invert | src/Permutation.cpp:439-459 | inv gives the inverse: q[p[x]] == x for every x, and every image is below n |
| Features.DistinctFromLater | src/FuzzyVault.cpp:1619-1646 | true exactly when features[i] differs from every later feature |
| Features.CheckFeatureSet | src/FuzzyVault.cpp:1619-1646 | true exactly when the size is non-negative and the features are distinct and below n; false where the source exits |
| Features.NumOverlap | src/FuzzyVault.cpp:1453-1471 | the number of equal pairs of the two arrays, a negative size counting as empty |
| Features.OverlapCommon | src/ProtectedMinutiaeTemplate.cpp:3409-3430 | for feature sets without repetition numOverlap is the number of common elements |
| Features.RecoveredBelow | src/FuzzyVault.cpp:651-679 | through the inverse of a permutation every recovered feature is below n |
| Features.RemoveWithin | src/FuzzyVault.cpp:670-675 | entry i leaves the first len entries and the others move down one place |
| Features.CompactRoots | src/FuzzyVault.cpp:658-679 | roots below n are mapped through the inverse permutation, the others are dropped, in order |
| Features.RecoverFeatures | src/FuzzyVault.cpp:651-685 | the kept features are the sorted recovered features, at most tmax of them |
| Features.RecoveredFeatures | src/FuzzyVault.cpp:651-685 | the recovered feature set is sorted, below n, and distinct when the roots are |
| Features.RecoveredUnique | src/FuzzyVault.cpp:651-679 | through the inverse of a permutation distinct roots give distinct features, each from a root below n |
| FuzzyVaultTools.RemoveAt | src/FuzzyVaultTools.cpp:186-188 | entry j leaves the pool, the later entries move down one place and the last entry stays |
| FuzzyVaultTools.Withdraw | src/FuzzyVaultTools.cpp:182-189 | taking an entry of the increasing pool keeps the pool increasing, the chosen values distinct and the two apart |
| FuzzyVaultTools.Iota | src/FuzzyVaultTools.cpp:178-180 | the pool 0 .. size-1 is increasing and below size |
| FuzzyVaultTools.ChooseAtRandom | src/FuzzyVaultTools.cpp:100-193 | the k chosen values are pairwise distinct and below size, whatever the random draws |
| FuzzyVaultTools.TakeFromPool | src/FuzzyVaultTools.cpp:182-189 | one round keeps the chosen values distinct, apart from the pool, and the pool increasing |
| FuzzyVaultTools.AlreadyChosen | src/FuzzyVaultTools.cpp:240-249 | true exactly when index is among the first i chosen indices |
| FuzzyVaultTools.DrawFresh | src/FuzzyVaultTools.cpp:238-250 | the do-while ends on a draw modulo n that is not among the chosen indices, or reports that the draws ran out |
| FuzzyVaultTools.FastChooseIndicesAtRandom | src/FuzzyVaultTools.cpp:228-255 | when it completes, the k indices are pairwise distinct and below n |
| FuzzyVaultTools.InstanceAsWrittenAdmitsTooManyGenuine | src/FuzzyVaultTools.cpp:269-275 | as written, n = 2, t = 3 passes the check and the third draw reduces modulo 0; the documented checks refuse it and admit only t <= n |
| FuzzyVaultTools.ChaffOrdinates | src/FuzzyVaultTools.cpp:293-301 | every ordinate is a field element that differs from f at its abscissa |
| FuzzyVaultTools.GenuineOrdinates | src/FuzzyVaultTools.cpp:307-315 | a point lies on f exactly when its index is genuine; the other ordinates are kept |
| FuzzyVaultTools.CreateRandomInstance | src/FuzzyVaultTools.cpp:265-322 | rejects exactly the documented bad parameters; otherwise distinct field abscissas, f of degree below k, and points on f exactly at t distinct genuine indices |
| FuzzyVaultTools.CreateRandomVaultPolynomial | src/FuzzyVaultTools.cpp:370-411 | fails exactly on k < 0, t < 0, k >= t or t above the cardinality; otherwise V = product of (X - x_j) over t distinct field elements plus f of degree below k |
| FuzzyVaultTools.SelectedDistinct | src/FuzzyVaultTools.cpp:583-588 | distinct indices of distinct abscissas give distinct interpolation locators |
| FuzzyVaultTools.Select | src/FuzzyVaultTools.cpp:583-588 | a[i] and b[i] are the abscissa and ordinate of point idx[i] |
| FuzzyVaultTools.TryCandidate | src/FuzzyVaultTools.cpp:592-599 | the candidate interpolates the selected points with degree below k, and the hit is exactly a hash match |
| FuzzyVaultTools.BfAttack | src/FuzzyVaultTools.cpp:522-615 | exits exactly on n > RAND_MAX, n <= 0, k <= 0 or k > n; at most maxIts rounds; on success f hashes to the given hash, otherwise f is unchanged |
| FuzzyVaultTools.CandidateUnique | src/FuzzyVaultTools.cpp:672-677 | for distinct abscissas, at most one polynomial of degree below k passes through k selected vault points |
| FuzzyVaultTools.TrySubsets | src/FuzzyVaultTools.cpp:667-695 | stops at the first subset whose interpolant hashes to the given hash and assigns f; otherwise f is unchanged, every subset was tried and no polynomial of degree below k through any of them hashes to the given hash |
| FuzzyVaultTools.BfDecode | src/FuzzyVaultTools.cpp:626-705 | exits exactly on negative n or k; false for k > n; on true f hashes to the given hash; on false with 0 < k <= n no polynomial of degree below k through any k of the n points hashes to the given hash, and f is unchanged |
| FuzzyVaults.CMod | src/FuzzyVault.cpp:1605-1607 | C's remainder: the sign of the dividend, below the divisor in absolute value, Dafny's remainder for non-negative operands |
| FuzzyVaults.DataSizeAgrees | src/FuzzyVault.cpp:1599-1614 | vaultDataSize as the source computes it is the least multiple of 16 bytes holding t * d bits |
| FuzzyVaults.Parse | src/FuzzyVault.cpp:971-1120 | a record fromBytes accepts names an accepted field whose size is at least 2n, a vault of vaultDataSize bytes and a 20-byte hash; with the constructor's check its parameters are valid |
| FuzzyVaults.RecordLayout | src/FuzzyVault.cpp:880-969 | toBytes' layout: "FVR", the size, the flag, n, tmax, k, the field, the slow-down factor's size and bytes, the vault data and the hash at their offsets |
| FuzzyVaults.RecordRoundTrip | src/FuzzyVault.cpp:880-1120 | fromBytes reads back every field toBytes wrote, for every valid vault |
| FuzzyVaults.NegativeTmaxAccepted | src/FuzzyVault.cpp:1018-1031 | as written, fromBytes accepts a record with tmax = -1 < k, which the constructor refuses |
| FuzzyVaults.NegativeTmaxRejected | src/FuzzyVault.cpp:68-80 | with the constructor's parameter check after k is read, that record is refused |
| FuzzyVaults.CopyRoots | src/FuzzyVault.cpp:658 | the roots found are written in front of the feature array, the rest kept |
| FuzzyVaults.NoneBelow | src/FuzzyVault.cpp:621-644 | the failure of every slow-down value up to w follows from that of those below w and of w |
| FuzzyVaults.UnlockingX | src/FuzzyVault.cpp:630-635 | the unlocking abscissas are the query features through the permutation, one per feature |
| FuzzyVaults.UnlockingY | src/FuzzyVault.cpp:630-635 | one ordinate per abscissa: the vault polynomial evaluated there |
| FuzzyVaults.FuzzyVault.Empty | src/FuzzyVault.cpp:61-63 | the default vault: not initialized, not enrolled, no field, slow-down factor 1 |
| FuzzyVaults.FuzzyVault.constructor | src/FuzzyVault.cpp:68-80 | the vault holds n, tmax and k, a field of degree one more than the bits of n, slow-down factor 1; initialized, not enrolled |
| FuzzyVaults.FuzzyVault.UpdateField | src/FuzzyVault.cpp:1490-1523 | the field becomes the one of degree one more than the bits of n, kept when it already has that degree; nothing else changes |
| FuzzyVaults.FuzzyVault.SetVaultSize | src/FuzzyVault.cpp:256-273 | n becomes size and the field follows it; the other parameters are kept |
| FuzzyVaults.FuzzyVault.SetMaxGenuineFeatures | src/FuzzyVault.cpp:278-293 | tmax becomes t; the other parameters are kept |
| FuzzyVaults.FuzzyVault.SetSecretSize | src/FuzzyVault.cpp:298-313 | k becomes size; the other parameters are kept |
| FuzzyVaults.FuzzyVault.SetSlowDownFactor | src/FuzzyVault.cpp:318-333 | the slow-down factor takes the given positive value |
| FuzzyVaults.FuzzyVault.Clear | src/FuzzyVault.cpp:554-559 | the vault data is dropped so the vault is no longer enrolled; the parameters are kept |
| FuzzyVaults.FuzzyVault.Swap | src/FuzzyVault.cpp:211-251 | every field of the two vaults, the slow-down factor included, trades places |
| FuzzyVaults.FuzzyVault.Encrypt | src/FuzzyVault.cpp:451-477 | the encrypted data is the CBC encryption of the plain data under the key; the plain data is dropped |
| FuzzyVaults.FuzzyVault.Decrypt | src/FuzzyVault.cpp:482-509 | the plain data is the CBC decryption of the encrypted data under the key |
| FuzzyVaults.FuzzyVault.EncryptThenDecrypt | src/FuzzyVault.cpp:451-509 | decrypting with the same key restores the plain vault data |
| FuzzyVaults.FuzzyVault.Reorder | src/FuzzyVault.cpp:749-768 | a feature's image under the permutation, below n and the image of no other feature |
| FuzzyVaults.FuzzyVault.UpdatePermutation | src/FuzzyVault.cpp:1528-1539 | the permutation is the shuffle of 0 .. n-1 by the generator seeded with the hash; nothing else changes |
| FuzzyVaults.FuzzyVault.Enroll | src/FuzzyVault.cpp:369-426 | succeeds exactly when t >= k; then the vault locks the features (hash of the secret, permutation, roots, sealed data); otherwise nothing changes |
| FuzzyVaults.FuzzyVault.Lock | src/FuzzyVault.cpp:386-424 | the vault is enrolled and decrypted and locks the first t features as enroll describes |
| FuzzyVaults.FuzzyVault.Commit | src/FuzzyVault.cpp:394-398 | the secret has degree below k and field coefficients, the hash is its SHA-1 hash and the permutation is seeded with that hash |
| FuzzyVaults.VaultRoots | src/FuzzyVault.cpp:403-415 | tmax roots: the reordered features, then chaff elements from n to the cardinality |
| FuzzyVaults.HideSecret | src/FuzzyVault.cpp:414-418 | V is the product of (X - a) over the roots plus the secret |
| FuzzyVaults.FuzzyVault.SealVault | src/FuzzyVault.cpp:414-420 | the plain data is V packed and encrypted under the key of some slow-down value below the factor |
| FuzzyVaults.FuzzyVault.PackVaultPolynomial | src/FuzzyVault.cpp:1544-1587 | the coefficients below tmax, packed to vaultDataSize bytes and encrypted under the key of a slow-down value below the factor |
| FuzzyVaults.FuzzyVault.PackUnder | src/FuzzyVault.cpp:1550-1586 | the packing and encryption under the key derived from the digest |
| FuzzyVaults.FuzzyVault.UnpackVaultPolynomial | src/FuzzyVault.cpp:697-744 | the data decrypted under the key of v and unpacked: a monic vault polynomial of degree tmax |
| FuzzyVaults.FuzzyVault.UnpackUnder | src/FuzzyVault.cpp:714-742 | the decryption and unpacking under the key derived from the digest |
| FuzzyVaults.FuzzyVault.TryValue | src/FuzzyVault.cpp:627-638 | the vault polynomial of slow-down value v; success exactly when the unlocking set decodes, and then f hashes to the vault's hash |
| FuzzyVaults.FuzzyVault.Search | src/FuzzyVault.cpp:621-644 | success gives a slow-down value whose attempt opens the vault; failure means no slow-down value opens it and f is unchanged |
| FuzzyVaults.FuzzyVault.RecoverFeaturesOf | src/FuzzyVault.cpp:651-685 | the roots of V - f below n mapped through the inverse permutation, sorted, at most tmax of them |
| FuzzyVaults.FuzzyVault.RootsOfSum | src/FuzzyVault.cpp:658 | the roots reported for V - f |
| FuzzyVaults.FuzzyVault.Open | src/FuzzyVault.cpp:585-692 | fewer than k query features fail; success means f hashes to the vault's hash and some slow-down value opens; failure means none does; on success the recovered features are sorted and below n |
| FuzzyVaults.FuzzyVault.GetSizeInBytes | src/FuzzyVault.cpp:844-875 | 29 header bytes, the slow-down factor, the stored vault data and the 20-byte hash |
| FuzzyVaults.FuzzyVault.ToBytes | src/FuzzyVault.cpp:880-969 | the array starts with the record of the vault's fields, the slow-down factor decoding to its value, and the rest is untouched |
| FuzzyVaults.FuzzyVault.FromBytes | src/FuzzyVault.cpp:971-1120 | true exactly when the record parses; then the vault holds the parsed fields, otherwise it is unchanged |
| FuzzyVaults.FuzzyVault.Read | src/FuzzyVault.cpp:1080-1117 | the vault built from parsed fields holds them and is enrolled |
| FuzzyVaults.FactorBytes | src/FuzzyVault.cpp:939-949 | the slow-down factor's bytes, as many as getSizeInBytes gives, decode to its value |
| FuzzyVaults.FactorOf | src/FuzzyVault.cpp:1070-1072 | the slow-down factor read from its bytes has the value they encode |
| FuzzyVaults.WriteRecord | src/FuzzyVault.cpp:880-969 | the array starts with the record of the given fields, and the rest is untouched |
| FuzzyVaults.WriteWithFactor | src/FuzzyVault.cpp:880-969 | the same, the factor's bytes written by BigInteger::toBytes decoding to its value |
| Vaults.BigEndianRoundTrip | src/FuzzyVault.cpp:880-1031 | reading back the w big-endian bytes toBytes writes gives the value modulo 256^w |
| Vaults.Int32RoundTrip | src/FuzzyVault.cpp:880-1031 | an int written as its four uint32 bytes and read back as an int is unchanged |
| Vaults.ReadBackWithin | src/FuzzyVault.cpp:880-1031 | a value below 256^w survives the byte round trip |
| Vaults.Uint32 | src/FuzzyVault.cpp:1056 | the cast to uint32_t is two's complement: below 2^32 and congruent to the int |
| Vaults.BytesOctets | src/FuzzyVault.cpp:451-509 | bytes converted to uint8_t and back are unchanged |
| Vaults.OctetsBytes | src/FuzzyVault.cpp:451-509 | uint8_t values converted to bytes and back are unchanged |
| Vaults.BytesRoundTrip | src/FuzzyVault.cpp:451-509 | decrypting the encrypted vault data under the same key gives the data back |
| Vaults.SealCopy | src/FuzzyVault.cpp:451-477 | the data encrypted in CBC mode under the key's schedule; the key is left as it is |
| Vaults.UnsealCopy | src/FuzzyVault.cpp:482-509 | the data decrypted in CBC mode under the key's schedule; the key is left as it is |
| Vaults.Seal | src/FuzzyVault.cpp:1585-1586 | the n bytes encrypted in place in CBC mode under the derived key |
| Vaults.Unseal | src/FuzzyVault.cpp:729 | the n bytes decrypted in CBC mode under the derived key |
| Vaults.MinimalDegree | src/FuzzyVault.cpp:1490-1523 | updateField's degree is one more than the binary digits of n: the field holds n features and as many blending elements, and no smaller degree does |
| Vaults.DefiningPolynomialExists | src/FuzzyVault.cpp:1516 | the field of each chosen degree is defined by a binary polynomial of that degree |
| Vaults.KeptGrows | src/ProtectedMinutiaeTemplate.cpp:1339-1363 | quantize only appends and never keeps more than tmax |
| Vaults.KeptDistinct | src/ProtectedMinutiaeTemplate.cpp:1339-1363 | the kept quantisations are pairwise distinct and each is one of the view's |
| Vaults.KeptComplete | src/ProtectedMinutiaeTemplate.cpp:1339-1363 | when fewer than tmax are kept, every quantisation of the view was kept |
| Vaults.Contained | src/ProtectedMinutiaeTemplate.cpp:1349-1356 | true exactly when q is among the entries kept so far |
| Vaults.QuantizeDistinct | src/ProtectedMinutiaeTemplate.cpp:1317-1368 | the result is the number of distinct quantisations kept in quality order, at most tmax, written from start on; the rest of the array is kept |
| Vaults.LowCoefficients | src/FuzzyVault.cpp:1570-1572 | the t coefficients of X^0 .. X^(t-1) of the vault polynomial |
| Vaults.SealedVault | src/FuzzyVault.cpp:1544-1587 | the sealed data has exactly vaultDataSize bytes |
| Vaults.OpenedVault | src/FuzzyVault.cpp:697-744 | the unpacked vault polynomial is monic of degree t |
| Vaults.VaultRoundTrip | src/FuzzyVault.cpp:697-744 | unpacking returns every packed monic vault polynomial of degree t with d-bit coefficients, whatever the random supplement |
| Vaults.CollectCoefficients | src/FuzzyVault.cpp:1570-1572 | coeffs[j] is the coefficient of X^j of V, for j < t |
| Vaults.PackVault | src/FuzzyVault.cpp:1570-1586 | the t low coefficients packed as d-bit vectors into vaultDataSize bytes as concat_bit_vectors writes them (zero byte included), then encrypted |
| Vaults.SetLowCoefficients | src/FuzzyVault.cpp:733-738 | V becomes the unpacked coefficients followed by the leading 1 |
| Vaults.UnpackVault | src/FuzzyVault.cpp:729-738 | the data decrypted, split into t d-bit coefficients, with leading coefficient 1 at X^t |
| Vaults.UnlockingSet | src/FuzzyVault.cpp:630-635 | x[j] is query feature j through the permutation and y[j] the vault polynomial at x[j] |
| Vaults.AbscissasDistinct | src/FuzzyVault.cpp:630-635 | distinct query features give distinct abscissas through a permutation |
| Vaults.AssignCandidate | src/FuzzyVault.cpp:822-826 | f becomes the candidate's normalized coefficients |
| Vaults.SearchList | src/FuzzyVault.cpp:820-829 | success assigns a list candidate that hashes to the vault's hash; failure means no candidate does, f unchanged |
| Vaults.ListDecode | src/FuzzyVault.cpp:789-839 | false when k > u; otherwise success exactly when the Reed-Solomon candidate or a list candidate for multiplicity 1 .. m hashes to the vault's hash, f assigned only then |
| Records.Quantization | src/ProtectedMinutiaeRecord.cpp:1076-1078 | the feature (L - 1) + 10 * (i + j * gridSize) is computed in uint32_t, so it is below 2^32 |
| Records.QuantizationInVault | src/ProtectedMinutiaeRecord.cpp:1006-1079 | for a known finger and a cell and angle within the grid no wrap-around occurs: the feature lies below 10 * gridSize * s and its last decimal digit is L - 1 |
| Records.QuantizationInjective | src/ProtectedMinutiaeRecord.cpp:1006-1079 | different fingers, cells or angle quanta within the vault give different features |
| Records.CellIndexInjective | src/ProtectedMinutiaeRecord.cpp:1076 | the cell index i + j * gridSize determines the grid point and the angle quantum |
| Records.ViewFeatures | src/ProtectedMinutiaeRecord.cpp:1132-1169 | every quantisation of a view within the vault is a feature of its finger |
| Records.RecordFeatures | src/ProtectedMinutiaeRecord.cpp:1237-1267 | views of distinct known fingers give pairwise distinct features below the vault size, each of one of the views' fingers |
| Records.RecordQuantizationsBound | src/ProtectedMinutiaeRecord.cpp:1144-1168 | each view contributes at most tmax features |
| Records.RecordQuantizationsStep | src/ProtectedMinutiaeRecord.cpp:1262-1264 | the features of i + 1 views are those of i views followed by the kept ones of view i |
| Records.RecordQuery | src/ProtectedMinutiaeRecord.cpp:799-858 | the buffer of 10 * tmax entries open allocates holds the query, whose features are distinct and below the vault size |
| Records.Decode | src/ProtectedMinutiaeRecord.cpp:933-973 | false when k > t; otherwise success exactly when the Reed-Solomon or a Guruswami-Sudan candidate for multiplicity 1 .. m hashes to the record's hash, f assigned only then |
| Records.ReadRecordParameters | src/ProtectedMinutiaeRecord.cpp:2448-2494 | the two-byte fields are below 65536, the one-byte fields below 256 and m a signed 32-bit int |
| Records.ParseRecord | src/ProtectedMinutiaeRecord.cpp:2419-2596 | a record fromBytes accepts has the accepted header and parameters and sound fields within its size; with the corrected check its vault fits its field |
| Records.RecordFrontLayout | src/ProtectedMinutiaeRecord.cpp:2277-2385 | toBytes' layout of the header, width, height, dpi, grid distance, s, k, tmax, m and the slow-down factor's size |
| Records.RecordFrontRead | src/ProtectedMinutiaeRecord.cpp:2419-2502 | fromBytes reads back the header, the parameters and the slow-down factor's size toBytes wrote |
| Records.ProtectedRecordLayout | src/ProtectedMinutiaeRecord.cpp:2277-2385 | toBytes' layout after the front: slow-down factor, defining polynomial, t, flag byte, vault data and hash |
| Records.RecordTailRead | src/ProtectedMinutiaeRecord.cpp:2516-2592 | fromBytes reads back the defining polynomial, t, the flag, the vault data and the hash |
| Records.RecordRoundTrip | src/ProtectedMinutiaeRecord.cpp:2277-2596 | fromBytes reads back every field toBytes wrote, for every sound record whose vault fits its field |
| Records.WideProtectedRecordAccepted | src/ProtectedMinutiaeRecord.cpp:2539-2541 | as written, the cardinality check uses the receiver's s, so a record with 40 features in a field of 16 elements is accepted |
| Records.WideProtectedRecordRejected | src/ProtectedMinutiaeRecord.cpp:2539-2541 | checked against the record's own s, the same record is refused |
| Records.AsWrittenCheckPassed | src/ProtectedMinutiaeRecord.cpp:2539-2541 | a sound record passing the check as written is parsed whether its vault fits or not |
| Records.CorrectedCheckFailed | src/ProtectedMinutiaeRecord.cpp:2539-2541 | with the corrected check a sound record whose vault does not fit its field is refused |
| Records.WriteRecord | src/ProtectedMinutiaeRecord.cpp:2277-2385 | the array starts with the record of the fields and the rest is untouched; the result is its size |
| ProtectedMinutiae.ReadShort | src/ProtectedMinutiaeRecord.cpp:2450-2464 | a two-byte field read back is below 65536 |
| ProtectedMinutiae.ShortBack | src/ProtectedMinutiaeRecord.cpp:2277-2464 | a value below 65536 written as two bytes and read back is unchanged |
| ProtectedMinutiae.OctetBackWithin | src/ProtectedMinutiaeRecord.cpp:2277-2488 | a value below 256 written as one byte is unchanged |
| ProtectedMinutiae.SignedCardinalityBound | src/ProtectedMinutiaeRecord.cpp:2539-2541 | a field whose cardinality read as int reaches a non-negative bound has at least that many elements |
| ProtectedMinutiae.DefaultGridDist | src/ProtectedMinutiaeRecord.cpp:306 | the default grid distance is positive from 10 dpi on |
| ProtectedMinutiae.DefaultGridDistNearest | src/ProtectedMinutiaeRecord.cpp:306 | the default grid distance is 29/569 of the dpi rounded to the nearest integer, between 15 and 51 for 300 .. 1000 dpi |
| ProtectedMinutiae.QuantizeView | src/ProtectedMinutiaeRecord.cpp:1132-1169 | at most tmax pairwise distinct quantisations of the view, all of them when fewer than tmax are kept; the rest of the array is kept |
| ProtectedRecords.ProtectedMinutiaeRecord.SlowDown | src/ProtectedMinutiaeRecord.cpp:1730-1733 | the slow-down factor's value |
| ProtectedRecords.ProtectedMinutiaeRecord.constructor | src/ProtectedMinutiaeRecord.cpp:3075-3094 | first_init's defaults: no geometry, s = 6, k = 25, tmax = 44, m = 3, slow-down factor 1, no field, t = -1, a zero hash; not initialized or enrolled |
| ProtectedRecords.ProtectedMinutiaeRecord.InitializeAsWritten | src/ProtectedMinutiaeRecord.cpp:290-311 | as written the argument check tests width twice, so a non-positive height passes and leaves a record that is not initialized |
| ProtectedRecords.ProtectedMinutiaeRecord.Initialize | src/ProtectedMinutiaeRecord.cpp:290-311 | corrected: positive width, height and dpi; unchanged geometry returns at once; otherwise the default grid distance when none is set, the grid and the field of degree one more than the bits of the vault size |
| ProtectedRecords.ProtectedMinutiaeRecord.Reinitialize | src/ProtectedMinutiaeRecord.cpp:298-310 | a changed geometry: the new dimensions, the grid distance, the grid and the field follow |
| ProtectedRecords.ProtectedMinutiaeRecord.SetGeometry | src/ProtectedMinutiaeRecord.cpp:298-307 | the dimensions and the grid distance take the given values |
| ProtectedRecords.ProtectedMinutiaeRecord.UpdateGrid | src/ProtectedMinutiaeRecord.cpp:3110-3133 | gridSize becomes the number of grid points of the dimensions and the grid distance |
| ProtectedRecords.ProtectedMinutiaeRecord.UpdateField | src/ProtectedMinutiaeRecord.cpp:3152-3185 | the field has degree one more than the bits of the vault size, so it holds twice the vault size; kept when it already has that degree |
| ProtectedRecords.ProtectedMinutiaeRecord.SetGridDist | src/ProtectedMinutiaeRecord.cpp:1363-1378 | the grid distance takes the given positive value |
| ProtectedRecords.ProtectedMinutiaeRecord.SetNumAngleQuanta | src/ProtectedMinutiaeRecord.cpp:1411-1430 | s takes the given value and an initialized record's field follows the new vault size |
| ProtectedRecords.ProtectedMinutiaeRecord.SetSecretSize | src/ProtectedMinutiaeRecord.cpp:1454-1469 | k takes the given positive value |
| ProtectedRecords.ProtectedMinutiaeRecord.SetMaxGenuineFeaturesPerFinger | src/ProtectedMinutiaeRecord.cpp:1495-1510 | tmax takes the given positive value |
| ProtectedRecords.ProtectedMinutiaeRecord.SetMultiplicity | src/ProtectedMinutiaeRecord.cpp:1535-1544 | m takes the given positive value |
| ProtectedRecords.ProtectedMinutiaeRecord.Clear | src/ProtectedMinutiaeRecord.cpp:2197-2210 | the vault data, t and the hash are reset, so the record is no longer enrolled |
| ProtectedRecords.ProtectedMinutiaeRecord.Swap | src/ProtectedMinutiaeRecord.cpp:3000-3063 | every field of the two records, the slow-down factor included, trades places |
| ProtectedRecords.ProtectedMinutiaeRecord.SwapParameters | src/ProtectedMinutiaeRecord.cpp:3000-3063 | the parameters of the two records trade places |
| ProtectedRecords.ProtectedMinutiaeRecord.SwapState | src/ProtectedMinutiaeRecord.cpp:3000-3063 | the grid size, field, t, vault data, hash and permutation trade places |
| ProtectedRecords.ProtectedMinutiaeRecord.Encrypt | src/ProtectedMinutiaeRecord.cpp:553-579 | the encrypted data is the CBC encryption of the plain data under the key; the plain data is dropped |
| ProtectedRecords.ProtectedMinutiaeRecord.Decrypt | src/ProtectedMinutiaeRecord.cpp:623-650 | the plain data is the CBC decryption of the encrypted data, which is kept |
| ProtectedRecords.ProtectedMinutiaeRecord.EncryptThenDecrypt | src/ProtectedMinutiaeRecord.cpp:553-650 | decrypting with the same key restores the plain vault data |
| ProtectedRecords.ProtectedMinutiaeRecord.GetVaultDataSize | src/ProtectedMinutiaeRecord.cpp:1797-1804 | zero when not enrolled; otherwise the least multiple of 16 bytes holding t * d bits |
| ProtectedRecords.ProtectedMinutiaeRecord.Reorder | src/ProtectedMinutiaeRecord.cpp:1320-1331 | a feature's image under the permutation, below the vault size and the image of no other feature |
| ProtectedRecords.ProtectedMinutiaeRecord.UpdatePermutation | src/ProtectedMinutiaeRecord.cpp:3211-3222 | the permutation is the shuffle of the vault's features by the generator seeded with the hash |
| ProtectedRecords.ProtectedMinutiaeRecord.QuantizeView | src/ProtectedMinutiaeRecord.cpp:1132-1169 | at most tmax pairwise distinct quantisations of the view, all of them when fewer than tmax are kept |
| ProtectedRecords.ProtectedMinutiaeRecord.QuantizeRecord | src/ProtectedMinutiaeRecord.cpp:1237-1267 | the features of the views one after the other, at most tmax per view; the rest of the array is kept |
| ProtectedRecords.ProtectedMinutiaeRecord.UnpackVaultPolynomial | src/ProtectedMinutiaeRecord.cpp:1938-1986 | the data decrypted under the key of v and unpacked: a monic vault polynomial of degree t |
| ProtectedRecords.ProtectedMinutiaeRecord.TryValue | src/ProtectedMinutiaeRecord.cpp:835-847 | fewer query features than k fail; success assigns f a polynomial with the record's hash, otherwise f is unchanged |
| ProtectedRecords.ProtectedMinutiaeRecord.Open | src/ProtectedMinutiaeRecord.cpp:799-858 | fewer than k features fail; success gives a slow-down value below the factor and f with the record's hash; otherwise f is unchanged |
| ProtectedRecords.ProtectedMinutiaeRecord.OpenRecord | src/ProtectedMinutiaeRecord.cpp:719-739 | the query is the record's quantised features, pairwise distinct; success assigns f a polynomial with the record's hash |
| ProtectedRecords.ProtectedMinutiaeRecord.GetSizeInBytes | src/ProtectedMinutiaeRecord.cpp:2226-2253 | 55 bytes plus the slow-down factor and the vault data: the size of the record toBytes writes |
| ProtectedRecords.ProtectedMinutiaeRecord.ToBytes | src/ProtectedMinutiaeRecord.cpp:2277-2385 | the array starts with the record of the fields, the slow-down factor decoding to its value; the result is its size and the rest is untouched |
| ProtectedRecords.ProtectedMinutiaeRecord.FromBytes | src/ProtectedMinutiaeRecord.cpp:2419-2596 | -1 exactly when the record does not parse; otherwise the number of bytes read, and the record holds the parsed fields |
| ProtectedRecords.ProtectedMinutiaeRecord.Read | src/ProtectedMinutiaeRecord.cpp:2419-2596 | the record built from sound fields that fit holds them and is enrolled |
| Templates.Front | src/ProtectedMinutiaeTemplate.cpp:2450-2518 | the template record opens with 25 bytes: the ten-byte magic, then width, height, finger, resolution, grid distance, s, k, tmax and D |
| Templates.Middle | src/ProtectedMinutiaeTemplate.cpp:2520-2544 | the nine bytes after the header: the field's defining polynomial, the vault size t and the size of the slow-down factor |
| Templates.TemplateRecord | src/ProtectedMinutiaeTemplate.cpp:2450-2576 | a record is 35 bytes plus the slow-down factor, the packed vault and the hash |
| Templates.ReadParameters | src/ProtectedMinutiaeTemplate.cpp:2610-2745 | header parsing yields widths, heights and resolutions below 65536, one-byte parameters below 256, and D as a signed 32-bit value |
| Templates.ParseTemplate | src/ProtectedMinutiaeTemplate.cpp:2610-2868 | a parsed record is sound and no longer than the input; in the corrected reading its field has room for s times the grid; anything not rejected carried the magic and accepted parameters |
| Templates.ParseVault | src/ProtectedMinutiaeTemplate.cpp:2743-2868 | parsing after the header keeps the parameters, yields sound fields and checks the field size against the grid unless read as written |
| Templates.ParseData | src/ProtectedMinutiaeTemplate.cpp:2797-2868 | parsing the slow-down factor, the vault bytes and the hash keeps the parameters and field and stays within the given size |
| Templates.FrontLayout | src/ProtectedMinutiaeTemplate.cpp:2450-2518 | each header field sits at its own offset in the first 25 bytes |
| Templates.MagicAccepted | src/ProtectedMinutiaeTemplate.cpp:2615-2634 | a record that starts with the magic passes the header check |
| Templates.FrontRead | src/ProtectedMinutiaeTemplate.cpp:2610-2745 | reading the header back returns the parameters that were written |
| Templates.PrefixRead | src/ProtectedMinutiaeTemplate.cpp:2610-2745 | header parsing depends only on the first 25 bytes |
| Templates.FrontBack | src/ProtectedMinutiaeTemplate.cpp:2610-2745 | a record whose first 25 bytes are a written header is read back as those parameters, which are accepted |
| Templates.RecordLayout | src/ProtectedMinutiaeTemplate.cpp:2450-2576 | the defining polynomial, t, the slow-down size, the slow-down bytes, the encryption flag, the vault and the hash each sit at their own offset |
| Templates.RecordTail | src/ProtectedMinutiaeTemplate.cpp:2743-2868 | reading the tail of a written record returns its field, t, slow-down factor, flag, vault and hash |
| Templates.ParseDataAt | src/ProtectedMinutiaeTemplate.cpp:2797-2868 | parsing the data part of a written record returns exactly its fields |
| Templates.ParseTemplateAt | src/ProtectedMinutiaeTemplate.cpp:2610-2790 | parsing a written record reaches the vault part with the written parameters and field |
| Templates.TemplateRoundTrip | src/ProtectedMinutiaeTemplate.cpp:2450-2868 | fromBytes(toBytes(template)) returns the same fields for every sound template whose field fits its grid |
| Templates.WideFieldsSound | src/ProtectedMinutiaeTemplate.cpp:2786-2793 | the example template used for the cardinality check is sound and has a two-element field |
| Templates.WideRecordAccepted | src/ProtectedMinutiaeTemplate.cpp:2786-2793 | with the check as written (receiver's s), a record whose own s times grid exceeds its field is accepted |
| Templates.WideRecordRejected | src/ProtectedMinutiaeTemplate.cpp:2786-2793 | with the check against the record's own s, that record is rejected |
| Templates.WriteTemplate | src/ProtectedMinutiaeTemplate.cpp:2450-2576 | toBytes writes exactly the record's bytes and leaves the rest of the buffer untouched |
| Templates.Iterations | src/ProtectedMinutiaeTemplate.cpp:1167-1184 | D is converted to an unsigned 64-bit iteration count: unchanged when non-negative, wrapped modulo 2^64 when negative |
| Templates.Decode | src/ProtectedMinutiaeTemplate.cpp:1167-1184 | decoding fails when fewer than k points are given; on success the polynomial has at most k coefficients and hashes to the stored hash; on failure it is unchanged |
| Templates.ProtectedMinutiaeTemplate.SlowDown | src/ProtectedMinutiaeTemplate.cpp:1929-1933 | the slow-down factor's value |
| Templates.ProtectedMinutiaeTemplate.Empty | src/ProtectedMinutiaeTemplate.cpp:76-130 | the default template is uninitialised and not enrolled, with parameters -1, an empty grid, no field, a zero hash and slow-down factor 0 |
| Templates.ProtectedMinutiaeTemplate.constructor | src/ProtectedMinutiaeTemplate.cpp:132-149 | a template built for a width, height and resolution uses s = 6, k = 10, tmax = 44, D = 65536, the resolution's default grid distance and a field large enough for twice the vault size |
| Templates.ProtectedMinutiaeTemplate.UpdateGrid | src/ProtectedMinutiaeTemplate.cpp:3564-3588 | the grid size is recomputed from width, height and grid distance; nothing else changes |
| Templates.ProtectedMinutiaeTemplate.UpdateField | src/ProtectedMinutiaeTemplate.cpp:3607-3646 | the field's degree becomes one more than the number of binary digits of the vault size, so twice the vault size fits; an existing field of that degree is kept |
| Templates.ProtectedMinutiaeTemplate.SetDimensionAsWritten | src/ProtectedMinutiaeTemplate.cpp:1993-2008 | as written, setDimension never stores the new width and height: they and the grid keep their old values |
| Templates.ProtectedMinutiaeTemplate.SetDimension | src/ProtectedMinutiaeTemplate.cpp:1993-2008 | the corrected setDimension stores width and height and recomputes the grid and the field |
| Templates.ProtectedMinutiaeTemplate.SetResolution | src/ProtectedMinutiaeTemplate.cpp:2043-2053 | the resolution is stored and nothing else changes |
| Templates.ProtectedMinutiaeTemplate.SetGridDist | src/ProtectedMinutiaeTemplate.cpp:2085-2110 | a positive grid distance is stored, the grid and field recomputed |
| Templates.ProtectedMinutiaeTemplate.SetNumAngleQuanta | src/ProtectedMinutiaeTemplate.cpp:2143-2166 | a positive s is stored, the field recomputed for the new vault size, the grid unchanged |
| Templates.ProtectedMinutiaeTemplate.SetSecretSize | src/ProtectedMinutiaeTemplate.cpp:2190-2210 | a positive k is stored, nothing else changes |
| Templates.ProtectedMinutiaeTemplate.SetMaxGenuineFeatures | src/ProtectedMinutiaeTemplate.cpp:2235-2255 | a positive tmax is stored, nothing else changes |
| Templates.ProtectedMinutiaeTemplate.SetNumberOfDecodingIterations | src/ProtectedMinutiaeTemplate.cpp:2275-2287 | a positive D is stored, nothing else changes |
| Templates.ProtectedMinutiaeTemplate.Clear | src/ProtectedMinutiaeTemplate.cpp:2363-2380 | vault data and hash are erased and the template is no longer enrolled; its parameters stay |
| Templates.ProtectedMinutiaeTemplate.Swap | src/ProtectedMinutiaeTemplate.cpp:404-474 | every field, including the slow-down factor, is exchanged between the two templates |
| Templates.ProtectedMinutiaeTemplate.SwapParameters | src/ProtectedMinutiaeTemplate.cpp:404-474 | the nine parameters are exchanged |
| Templates.ProtectedMinutiaeTemplate.SwapState | src/ProtectedMinutiaeTemplate.cpp:404-474 | grid, field, vault data, hash and permutation are exchanged |
| Templates.ProtectedMinutiaeTemplate.Encrypt | src/ProtectedMinutiaeTemplate.cpp:829-857 | the stored vault becomes the AES-CBC encryption of the plain vault; the template is now encrypted |
| Templates.ProtectedMinutiaeTemplate.Decrypt | src/ProtectedMinutiaeTemplate.cpp:903-933 | the plain vault becomes the AES-CBC decryption of the encrypted data, which is kept |
| Templates.ProtectedMinutiaeTemplate.EncryptThenDecrypt | src/ProtectedMinutiaeTemplate.cpp:829-933 | encrypting and then decrypting with the same key gives back the plain vault |
| Templates.ProtectedMinutiaeTemplate.GetVaultDataSize | src/ProtectedMinutiaeTemplate.cpp:1704-1713 | the size is a multiple of 16 and is the smallest one holding t field elements; 0 when not enrolled |
| Templates.ProtectedMinutiaeTemplate.Reorder | src/ProtectedMinutiaeTemplate.cpp:1464-1477 | a vault index is mapped by the permutation to one no other index maps to |
| Templates.ProtectedMinutiaeTemplate.UpdatePermutation | src/ProtectedMinutiaeTemplate.cpp:3672-3685 | the permutation becomes the hash-seeded shuffle of the vault indices and is a permutation; nothing else changes |
| Templates.ProtectedMinutiaeTemplate.UnpackVaultPolynomial | src/ProtectedMinutiaeTemplate.cpp:1851-1902 | the vault polynomial is the opened vault for the key derived from the slow-down value; it is monic of degree t |
| Templates.ProtectedMinutiaeTemplate.TryValue | src/ProtectedMinutiaeTemplate.cpp:1052-1117 | one slow-down value is tried: fewer than k query points fail; success means the polynomial hashes to the stored hash; failure leaves it unchanged |
| Templates.ProtectedMinutiaeTemplate.Open | src/ProtectedMinutiaeTemplate.cpp:1052-1117 | open fails below k query points; success yields a polynomial of at most k coefficients hashing to the stored hash for some slow-down value; failure leaves it unchanged |
| Templates.ProtectedMinutiaeTemplate.GetSizeInBytes | src/ProtectedMinutiaeTemplate.cpp:2396-2426 | the size is 55 plus the slow-down factor's bytes plus the stored vault, the length of the record toBytes writes |
| Templates.ProtectedMinutiaeTemplate.ToBytes | src/ProtectedMinutiaeTemplate.cpp:2450-2576 | the buffer starts with the record of this template and its slow-down bytes encode the factor; the rest is untouched |
| Templates.ProtectedMinutiaeTemplate.FromBytes | src/ProtectedMinutiaeTemplate.cpp:2610-2868 | -1 exactly when the record does not parse, leaving the template unchanged; otherwise the template holds the parsed fields and the parsed size is returned |
| Templates.ProtectedMinutiaeTemplate.Adopt | src/ProtectedMinutiaeTemplate.cpp:2860-2868 | the parsed temporary template is swapped into this one |
| Templates.ProtectedMinutiaeTemplate.Read | src/ProtectedMinutiaeTemplate.cpp:2610-2868 | a template built from sound fields that fit their grid is enrolled and holds those fields |

## Left out

Stated as hypotheses or weaker than the source:

- Aes.ColumnsMixedInverse: takes as a hypothesis (`MixColumnInvertible`) that the column transform of section 5.3.3 of FIPS 197 inverts that of section 5.1.3. A proof over all 2^32 columns needs bit-level reasoning about the field multiplication that is beyond the solver's budget here.
- Aes.InvRoundUndoes: rests on the same `MixColumnInvertible` hypothesis.
- Aes.CipherInverse: rests on the same `MixColumnInvertible` hypothesis.
- Aes.CbcRoundTrip: decryption undoes encryption under CBC only given the `MixColumnInvertible` hypothesis.
- Vaults.BytesRoundTrip: inherits the `MixColumnInvertible` hypothesis from `Aes.CbcRoundTrip`.
- Vaults.VaultRoundTrip: unpacking a sealed vault returns its polynomial only under the `MixColumnInvertible` hypothesis.
- FuzzyVaults.FuzzyVault.EncryptThenDecrypt: restores the plain vault only under the `MixColumnInvertible` hypothesis.
- ProtectedRecords.ProtectedMinutiaeRecord.EncryptThenDecrypt: restores the plain vault only under the `MixColumnInvertible` hypothesis.
- Templates.ProtectedMinutiaeTemplate.EncryptThenDecrypt: restores the plain vault only under the `MixColumnInvertible` hypothesis.
- BigIntegers.BigInteger.FromBytes: the shift `<<= 8` of a 32-bit word is written as a multiplication by 256. The model proves the word is below 2^24 before each shift, so no bits are lost, but it does not model the truncation itself.
- FuzzyVaultTools.BfAttack: the random draws are a finite stream. Running out of it ends the attack with `OutOfDraws`, a case the source does not have.
- FuzzyVaultTools.FastChooseIndicesAtRandom: running out of draws is the same artefact.

Preconditions where the source calls `exit(EXIT_FAILURE)`. The model requires what the source checks before exiting, because an exit ends the program:

- BinaryVectors.BinaryVector.SetLength: a negative length exits.
- BinaryVectors.BinaryVector.GetAt: an index outside [0, length) exits (src/BinaryVector.cpp:287-291).
- BinaryVectors.BinaryVector.SetAt: an index outside [0, length) exits; so do ClearAt, SetAtTo and Exchange.
- BinaryVectors.BinaryVector.Add: a length mismatch exits; so does HammingDistance.
- BinaryMatrices.BinaryMatrix.SetAt: an index outside the m by n range exits; so do ExchangeRows, ExchangeCols and AddRow.
- BinaryMatrices.BinaryMatrix.SetIdentity: a non-square matrix exits.
- BinaryMatrices.BinaryMatrix.Add: mismatched dimensions exit.
- BinaryMatrices.BinaryMatrix.Submatrix: an out-of-range block exits.
- BinaryMatrices.BinaryMatrix.constructor: a negative number of rows or columns exits (src/BinaryMatrix.cpp:74-79).
- BinaryMatrices.BinaryMatrix.GetAt: a position outside the m by n range exits (src/BinaryMatrix.cpp:312-316).
- BinaryPolynomials.BinaryPolynomial.SetCoeff: a negative index exits; so do ClearCoeff and SetCoeffTo.
- BinaryPolynomials.BinaryPolynomial.GetCoeff: a negative index exits (src/BinaryPolynomial.cpp:236-242).
- BinaryPolynomials.BinaryPolynomial.LeftShift: a negative shift exits; so does RightShift.
- BinaryPolynomials.BinaryPolynomial.Reverse: d below the degree exits.
- BinaryPolynomials.DivRem: a zero divisor or q aliasing r exits.
- SmallBinaryFieldPolynomials.SmallBinaryFieldPolynomial.SetCoeff: a negative index exits.
- SmallBinaryFieldPolynomials.SmallBinaryFieldPolynomial.Interpolate: repeated locators exit.
- SmallBinaryFieldPolynomials.DivRem: a zero divisor or q aliasing r exits.
- BigIntegers.BigInteger.constructor: a magnitude above 0xFFFFFFFF exits.
- BigIntegers.BigInteger.Div: a zero divisor exits.
- BigIntegers.BigInteger.DivRem: a zero divisor or q aliasing r exits.
- BigIntegers.BigInteger.EnsureCapacity: a negative capacity exits (src/BigInteger.cpp:921-925).
- BigIntegers.BigInteger.FromBytes: a negative byte count exits (src/BigInteger.cpp:1201-1205). The model also requires n not to exceed the bytes given, which the source's pointer argument leaves to its caller.
- Features.CheckFeatureSet: the model returns the verdict that decides the exit.
- FuzzyVaultTools.BfAttack: the model requires the first n abscissas to be distinct. This is stronger than the source. The source exits only when interpolate meets a repeated locator among the k points it draws (src/FuzzyVaultTools.cpp:592). Every caller passes the abscissas of a vault, which are distinct.
- FuzzyVaultTools.BfDecode: the same distinctness of the first n abscissas, for the same reason. The source's interpolation of each k-subset exits on a repeated locator (src/FuzzyVaultTools.cpp:680).
- FuzzyVaults.FuzzyVault.constructor: parameters other than 0 < k <= tmax <= n exit.
- FuzzyVaults.FuzzyVault.Enroll: an uninitialised vault, inconsistent parameters or an invalid feature set exit.
- FuzzyVaults.FuzzyVault.Reorder: an index outside [0, n) exits.
- FuzzyVaults.FuzzyVault.SetVaultSize: an enrolled vault or a non-positive size exits (src/FuzzyVault.cpp:256-273). SetMaxGenuineFeatures (278-293), SetSecretSize (298-313) and SetSlowDownFactor (318-333) have the same two exits.
- FuzzyVaults.FuzzyVault.UnpackVaultPolynomial: a slow-down value outside [0, slowDownFactor) exits.
- FuzzyVaults.FuzzyVault.Open: a vault that is not enrolled or not decrypted exits. The model also requires the query to pass `FeatureSet(query[..s], n)`. It stands for the exits of checkFeatureSet (src/FuzzyVault.cpp:1619-1646): a negative size, a feature not below n, or a repeated feature.
- FuzzyVaults.FuzzyVault.FromBytes: the model excludes the records on which parsing reaches an exit (`Parse(..).Halts?`). These are a defining polynomial of degree below 1 (the field constructor exits), a negative slow-down factor size, a negative vault data size and a negative n.
- ProtectedRecords.ProtectedMinutiaeRecord.Initialize: non-positive dimensions or resolution exit.
- ProtectedRecords.ProtectedMinutiaeRecord.UpdateGrid: called only on a valid, unenrolled record, which is how the source's setters call it. The same holds for UpdateField.
- ProtectedRecords.ProtectedMinutiaeRecord.Reorder: an index outside the vault exits.
- ProtectedRecords.ProtectedMinutiaeRecord.SetGridDist: a non-positive value or an enrolled record exits (src/ProtectedMinutiaeRecord.cpp:1363-1378). SetNumAngleQuanta (1411-1430), SetSecretSize (1454-1469) and SetMaxGenuineFeaturesPerFinger (1495-1510) have the same two exits.
- ProtectedRecords.ProtectedMinutiaeRecord.SetMultiplicity: a non-positive multiplicity exits (src/ProtectedMinutiaeRecord.cpp:1535-1544).
- ProtectedRecords.ProtectedMinutiaeRecord.SetGeometry: it is the part of `initialize` that stores the geometry (src/ProtectedMinutiaeRecord.cpp:298-307). It is called only from Initialize and Reinitialize, on an unenrolled record.
- ProtectedRecords.ProtectedMinutiaeRecord.QuantizeView: quantizing the minutiae of a record that is not initialized, or of a view with an unknown finger position, exits (src/ProtectedMinutiaeRecord.cpp:1009-1019).
- ProtectedRecords.ProtectedMinutiaeRecord.QuantizeRecord: unequal horizontal and vertical resolutions, or two views with the same finger position, exit (src/ProtectedMinutiaeRecord.cpp:1240-1258). The per-view requires are those of QuantizeView.
- ProtectedRecords.ProtectedMinutiaeRecord.OpenRecord: the same exits, since it quantizes the record first (src/ProtectedMinutiaeRecord.cpp:729). Its bound of 10 views follows from distinct known finger positions, of which there are 10. Its requirement that every quantised view lies within the vault stands for the floating-point quantisation, which is not modelled and produces only such cells.
- ProtectedRecords.ProtectedMinutiaeRecord.UnpackVaultPolynomial: a slow-down value out of range exits.
- ProtectedRecords.ProtectedMinutiaeRecord.Open: a record that is not enrolled, or is encrypted, exits. The model also requires every feature to be below the vault size, `Below(B[..tq], |permutation|)`. It stands for the exception that Permutation::eval throws on an argument outside [0, n) (src/Permutation.cpp:241-249).
- ProtectedRecords.ProtectedMinutiaeRecord.FromBytes: records on which parsing reaches an exit are excluded.
- Templates.ProtectedMinutiaeTemplate.constructor: non-positive dimensions or a resolution outside 300..1000 exit.
- Templates.ProtectedMinutiaeTemplate.SetResolution: a resolution outside 300..1000 exits.
- Templates.ProtectedMinutiaeTemplate.SetDimension: an enrolled template exits (src/ProtectedMinutiaeTemplate.cpp:1993-2008). SetDimensionAsWritten has the same exit.
- Templates.ProtectedMinutiaeTemplate.SetGridDist: an enrolled template or a non-positive value exits (src/ProtectedMinutiaeTemplate.cpp:2085-2110). SetNumAngleQuanta (2143-2166), SetSecretSize (2190-2210) and SetMaxGenuineFeatures (2235-2255) have the same two exits.
- Templates.ProtectedMinutiaeTemplate.SetNumberOfDecodingIterations: a non-positive number of iterations exits (src/ProtectedMinutiaeTemplate.cpp:2275-2287).
- Templates.ProtectedMinutiaeTemplate.Reorder: an index outside the vault exits.
- Templates.ProtectedMinutiaeTemplate.UnpackVaultPolynomial: a slow-down value out of range exits.
- Templates.ProtectedMinutiaeTemplate.Open: a template that is not enrolled, or is encrypted, exits. The model also requires `FeatureSet(B[..tq], |permutation|)`. Its bound on the features stands for the exception that Permutation::eval throws outside [0, n) (src/Permutation.cpp:241-249). Its distinctness stands for the exit of interpolation on a repeated locator during decoding. The model further requires at most RAND_MAX features once there are k, which stands for the exit of the brute-force attack.
- Templates.ProtectedMinutiaeTemplate.FromBytes: records on which parsing reaches an exit are excluded.
- Templates.Decode: more than RAND_MAX points makes the brute-force attack exit.

Integer widths:

- Templates.ProtectedMinutiaeTemplate.SetGridDist: the products such as s times the grid size are required to stay below 2^30, where the source's `int` arithmetic would overflow. The same holds for the other setters and constructors that recompute the field (SetDimension, SetNumAngleQuanta, UpdateField, and their counterparts in `ProtectedRecords` and `FuzzyVaults`).

Not modelled:

- Floating-point geometry: `quantize(const Minutia&)`, the grid built by `updateGrid`, `THIMBLE_ROUND` and the quality sort of minutiae. The number of grid points is a parameter `GridCount`, and a quantised view is given as grid cells and angle quanta.
- The finite-field tables of `SmallBinaryField`: the field is abstract, a multiplication and an inverse with the field laws as hypotheses (`IsField`). Those laws are stated over all naturals, with addition as exclusive or, so the model takes the field to be a characteristic-2 field on every natural number. No law bounds its operands. The model therefore does not capture that the source's tables are defined only on elements below the field size.
- `ProtectedMinutiaeTemplate::setFingerPosition` and `setSlowDownFactor`: the template's finger position is kept only in its serialised parameters, and its slow-down factor is fixed when it is built. The same setter with the same exits is modelled for `FuzzyVault` (`FuzzyVaults.FuzzyVault.SetSlowDownFactor`).
- SHA-1, `deriveKey`, `MathTools::rand8` and the `RandomGenerator`: these are parameters of the operations that use them, or finite streams of draws.
- `read`/`write` on `FILE*` and on paths, and the getters that return a field.
- `ProtectedMinutiaeTemplate::enroll(view)`, `verify(view)` and `open(f, view)`: they wrap quantisation of a minutiae view (floating point) around the modelled `Open`. The same holds for `ProtectedMinutiaeRecord::enroll(record)` and `verify(record)`.
- `CTools::sort`: it is not part of this model. The recovered features are sorted by an insertion sort with the same postcondition (`Features.SortPrefix`).
- `BinaryPolynomial::add`: for summands of different word lengths the source reads words past the shorter one's allocation. The model states the sum of the two values and does not model that read.
- `FuzzyVault` decoding: it is configured to use neither the randomised decoder (zero decoding iterations) nor Guruswami-Sudan multiplicities above one. The Reed-Solomon and list decoders (`GuruswamiSudanDecoder`, `SmallBinaryFieldBivariatePolynomial`) are a parameter, `Vaults.Decoders`.
- `BCHCodeBase.cpp` and the bivariate polynomials are not part of this model.

## Findings

| source | as written | input that shows it | evidently intended | confidence | as-written member | corrected member |
|---|---|---|---|---|---|---|
| src/BinaryPolynomial.cpp:650-703 | `rightShift(e)` lowers the degree field by 32 * (e / 32) only | X shifted right by 1 keeps degree 1 with a zero coefficient of X | the degree drops by e, or to -1 | not executed | BinaryPolynomials.RightShiftAsWrittenKeepsDegree | BinaryPolynomials.BinaryPolynomial.RightShift |
| src/BinaryPolynomial.cpp:650-703 | the word move of `rightShift(e)` leaves the words between size - e/32 and e/32 in place | X^64 + X^32 shifted right by 64 keeps the coefficient of X^32 above the new degree 0 | the result is 1 | not executed | BinaryPolynomials.RightShiftAsWrittenKeepsStaleWord | BinaryPolynomials.BinaryPolynomial.RightShift |
| src/BinaryPolynomial.cpp:1044-1064 | `add(f, g, h)` overwrites only the words of f up to the larger degree of g and h | f = X^32, g = X^31, h = 1 leaves the coefficient of X^32 in f | f = X^31 + 1 | not executed | BinaryPolynomials.AddAsWrittenKeepsStaleWord | BinaryPolynomials.Add |
| src/BigInteger.cpp:1447-1499 | `rightShift` by at least the number of bits in use gives an integer without words, or exits | a one-word integer shifted by 32 has no words; shifted by 64 the call exits | the floor of b / 2^n | not executed | BigIntegers.RightShiftAsWrittenLosesWords | BigIntegers.BigInteger.RightShift |
| src/BigInteger.cpp:1785-1868 | `div` with fewer words in a than in b gives a quotient without words, or exits | 0 / 1 has no quotient words; 0 / 2^64 exits | the quotient 0 | not executed | BigIntegers.DivAsWrittenLosesQuotient | BigIntegers.BigInteger.Div |
| src/BigInteger.cpp:1508-1619 | `add(c, a, b)` does nothing when a = -b and a is not zero | c = 7, a = 5, b = -5 leaves c = 7 | c = 0 | not executed | BigIntegers.AddAsWrittenKeepsOutput | BigIntegers.BigInteger.Add |
| src/BigInteger.cpp:515-545 | the rows of the schoolbook product run from the top word down, and a row's carry goes into one word only | [2^32 - 1] times [2, 1, 1] gives 2^32 - 2 | the product 2^96 + 2^32 - 2 | not executed | BigIntegerLimbs.MulAsWrittenLosesCarry | BigIntegerLimbs.LimbMul |
| src/Labeler.cpp:192 | `labelCount = k + 1` after renumbering, when every label in use is below k | an image with one foreground pixel gets a label count of 2 | labelCount = k, so that every label occurs | not executed | Labelers.LabelCountAsWrittenHasEmptyLabel | Labelers.Labeler.Label |
| src/SmallBinaryFieldPolynomial.cpp:534-555 | `rightShift` with a negative n calls `leftShift` with n, which calls `rightShift` with -n | 1 shifted right by -1 gives 0 | a right shift by -n is a left shift by n, giving X | not executed | SmallBinaryFieldPolynomials.RightShiftNegativeAsWritten | SmallBinaryFieldPolynomials.RightShift |
| src/SmallBinaryFieldPolynomial.cpp:920-930 | the scalar product keeps the degree of f, whatever the scalar | 1 times 0 keeps degree 0 with a zero leading coefficient | the zero polynomial, of degree -1 | not executed | SmallBinaryFieldPolynomials.MulScalarAsWrittenByZero | SmallBinaryFieldPolynomials.MulScalar |
| src/AES.cpp:373-377 | `operator=` copies 44 bytes of a schedule of 44 words | two different keys: the copy is the first 11 words of one schedule and the last 33 of the other, the schedule of no key | all 44 words are copied | not executed | Aes.AssignAsWrittenBreaksSchedule | Aes.Aes128.Assign |
| src/AES.cpp:352-357 | the destructor clears 44 bytes of the 44-word schedule | any key: words 11 to 43 of its schedule survive | all 44 words are cleared | not executed | Aes.Aes128.WipeAsWritten | Aes.Aes128.Wipe |
| src/FuzzyVaultTools.cpp:269-275 | `createRandomInstance` checks only that n is within the field | n = 2, t = 3: the third index draw reduces modulo n - 2 = 0 | n, t and k positive with k <= t <= n, as documented | not executed | FuzzyVaultTools.InstanceAsWrittenAdmitsTooManyGenuine | FuzzyVaultTools.CreateRandomInstance |
| src/FuzzyVault.cpp:1018-1031 | `fromBytes` never checks n, tmax and k | a record with tmax = -1 is accepted with tmax < k | the constructor's check 0 < k <= tmax <= n | not executed | FuzzyVaults.NegativeTmaxAccepted | FuzzyVaults.NegativeTmaxRejected |
| src/FuzzyVault.cpp:1717-1721 | `concat_bit_vectors` moves to the next byte once more after the stream | two 8-bit vectors in 16 bytes: byte 2 is always 0 | byte 2 is the first random byte, as the header documents | not executed | BitPacking.PackedAsWrittenLeavesZero | BitPacking.ConcatBitVectors |
| src/ProtectedMinutiaeRecord.cpp:2539-2541 | `fromBytes` checks the field against the receiving record's s, not the parsed one | a record with s = 4 read into a record with s = 1: 40 features in a field of 16 elements | the parsed s is used | not executed | Records.WideProtectedRecordAccepted | Records.WideProtectedRecordRejected |
| src/ProtectedMinutiaeTemplate.cpp:2790-2793 | `fromBytes` checks the field against the receiving template's s, not the parsed one | a template with s = 4 read into one with s = 1: 4 features in a field of 2 elements | the parsed s is used | not executed | Templates.WideRecordAccepted | Templates.WideRecordRejected |
| src/ProtectedMinutiaeTemplate.cpp:1993-2008 | `setDimension` never stores the new width and height | any new dimension leaves width, height and grid unchanged | width and height are stored, then the grid and field are updated | not executed | Templates.ProtectedMinutiaeTemplate.SetDimensionAsWritten | Templates.ProtectedMinutiaeTemplate.SetDimension |
| src/ProtectedMinutiaeRecord.cpp:290-311 | `initialize` tests `width <= 0` twice and never the height | height 0 is taken and leaves the record uninitialized | `width <= 0 \|\| height <= 0 \|\| dpi <= 0` | not executed | ProtectedRecords.ProtectedMinutiaeRecord.InitializeAsWritten | ProtectedRecords.ProtectedMinutiaeRecord.Initialize |

The vault containers store the packing as written (`BitPacking.ConcatBitVectorsAsWritten`), since those are the bytes the program writes. The zero byte does not affect reading: `BitPacking.SplitPackedAsWritten` proves the round trip for that packing, as `BitPacking.SplitPacked` does for the corrected one.
