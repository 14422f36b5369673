# A verified model of libe4's cryptography and its symmetric client

libe4 encrypts MQTT messages end to end. It carries its own Ed25519, X25519, AES-SIV, SHA-512 and
SHA-3, and a symmetric client whose control commands drive a persistent table of topic keys. This
project models that code in Dafny and proves what the arithmetic and the state machines are for.
`dafny verify dfyconfig.toml` checks everything.

## How it is organised

| modules | what they hold |
|---|---|
| `Words`, `Modular`, `Bytes`, `Bits` | signed words, congruence modulo p, powers, byte strings as numbers, bit operations |
| `Radix`, `Field`, `FieldBytes`, `FieldPowers` | `fe.c`: ten signed limbs in radix 2^25.5 |
| `Edwards`, `ScalarMultiples` | the affine twisted Edwards law and integer multiples of a point |
| `Points`, `PointBytes`, `Recode`, `ScalarMult` | `ge.c`: formulas, encoding and decoding, recodings, the two scalar multiplications |
| `Sc`, `ScBytes` | `sc.c`: arithmetic modulo the group order l on 21-bit limbs |
| `Sha512`, `Ed25519` | `sha512.c`, `sign.c`, `verify.c`, `add_scalar.c` |
| `Limbs25`, `DonnaField`, `DonnaPowers`, `DonnaBytes`, `DonnaContract`, `X25519` | `curve25519-donna.c` |
| `Rfc7748` | the ladder of section 5 of RFC 7748, for comparison |
| `Montgomery` | the ladder as a multiple of a point, and key agreement |
| `AesSiv`, `Sha3` | `aes_siv.c`, `sha3.c` |
| `Primes`, `Fips180`, `Fips202`, `Rfc5297`, `Rfc8032` | the same functions as their standards define them |
| `SymStore`, `SymClient` | `e4c_store_file.c`, `e4symclient.c` |
| `Messages` | messages and commands from one store to another |

Integers are unbounded in Dafny, so the 32- and 64-bit ranges that the products, column sums and
carry chains of the C code rely on are explicit predicates (`I32`, `I64`, `Within`), and wrap-around
is written out (`% TWO64`, bytes `% 0x100`, casts by `S32`). A right shift of a signed number is
floor division, and C integer division truncates.

Congruence modulo p, the curve equation, the group operation and the coordinates of a point are
defined behind quantifiers whose triggers name the arguments (`Opened`, `Witnessed`, `Added`,
`LawOf`, `Looked`, `Seen`, `Judged`, `Decided`). They mean what they would mean without; the solver
looks into them only where a proof asks for it, by lemmas such as `CongMeans`, `EquationMeans` and `AddMeans`.

The point methods carry, as ghost arguments, the affine points that their limbs stand for. Their
preconditions and postconditions (`IsP2`, `IsP3`, `IsP1P1`, `IsCached`, `IsPrecomp`) hold both the
coordinates modulo p and the limb bounds, so the bounds chain through every call of a field
operation. The contexts of the hash functions carry the message absorbed so far; their `Valid()`
ties it to the buffers, which gives the results for any split of the input.

The methods are proved equal to functions that are written as the code computes. What these functions
have to be is stated beside them in other terms: tables by the primes they come from, logical functions
bit by bit, paddings as strings of bits, iterated constructions from the first block on, byte layouts
by the slices of the result, commands by what the receiver answers afterwards.

## Hypotheses

Facts of number theory and constant tables are explicit `requires` of the members that need them:

- `Fermat()`: z^(p-1) = 1 mod p for z nonzero mod p, that is, what is used of the primality of
  p = 2^255 - 19. The whole of X25519 as a refinement of the ladder needs no hypothesis; `Fermat()`
  enters in the comparison with RFC 7748.
- `NonSquare()`: d is not a square mod p. With `Fermat()` this is `PrimeField()`; completeness and
  closure of the curve law are proved from it.
- `Associative()`: the affine law is associative on the curve. With `PrimeField()` this is
  `Curve()`. The laws of integer multiples, the window tables, both scalar multiplications, and the
  ladder as a multiple of a point are proved from it.
- `BaseOrder()`: l B is the neutral element.
- `IsBi`, `IsBase`: what the entries of the two precomputed tables stand for.
- AES-256 under a key, Keccak-f[1600] and the derivation of a control-topic hash from an identity
  are function arguments; the theorems hold for every such function.

## Where code and documentation differ

The model follows the code.

- `ge_add` feeds `fe_add` arguments beyond the 1.1*2^25 of its comment
  (`src/crypto/ed25519/fe.c:76-78`). `FeAdd` and `FeSub` are therefore stated by sums of bounds.
- Decoding accepts a y of p or more and a set sign bit with x = 0, which section 5.1.3 of RFC 8032
  rejects. `CanonicalString` is the test on the 32 bytes that the standard adds: y is below p, and the
  sign bit is clear when y is 1 or p - 1. `DecodesEncoding` proves that it decides whether a decoded
  string is the encoding of its point, and `NonCanonicalIdentity` has two strings that fail it.
- Verification bounds S by 2^253 and not by l (`src/crypto/ed25519/verify.c:54-56`) and takes keys
  that are not canonical. `AcceptsIsStandard` proves that these two are all that separates it from
  section 5.1.7 of RFC 8032, for signed data below 2^64 bits. `OrderIsAccepted` and
  `OtherKeyIsAccepted` have, for every message, a signature with S = l and one under the key p + 1
  that only the code accepts; `LargeSIsAccepted` has S + l for every honest S that leaves room.
- The comment in `fcontract` (`src/crypto/curve25519/curve25519-donna.c:512-520`) says that the
  carry out of limb 9 is at most one. The shift rounds down: `BorrowAtMostOne` proves that the
  comment holds exactly for limbs from -2^25 up, and that the carry is two just below. The result
  is right all the same.
- `input[4] <<= 6` and `input[9] <<= 6` (`src/crypto/curve25519/curve25519-donna.c:581-589`) can reach
  the sign bit of an `s32`. The model casts the product to 32 bits; `S32Bytes` proves that the four
  bytes taken from it are those of the unsigned word.
- The ladder runs through bit 255, which is always clear. `LadderIsX25519` proves that the extra
  step does not change the result, for every u.
- `slide` is meant for scalars of 253 bits. It recodes a exactly when a has a recoding of 256 digits
  at all, so for every a up to 2^255 and some beyond; otherwise a carry runs off the end and the
  digits weigh 2^256 too little. `LosesItsCarry` gives such an a.
- SHA-512 keeps 64 bits of the message length; `PaddingIsStandard` states exactly when that is
  the padding of FIPS 180-4.
- A control command that reports success is not always on file: `e4c_symkey_reset_topics` ignores its
  sync, and `e4c_symkey_set_idkey` does not sync. `ExecuteSaving` proves that a command which reports
  success on a store in step with its file leaves it in step if and only if `StaysInStep` holds: for a
  reset, the table was empty or the system takes 53 bytes at a path that is still there; for
  SetIdKey, the key is the one it replaces. `RestartAfterReset` has the failing side for every store:
  otherwise a restart brings all topics back. `UnsavedIsLost` and `RestartAfterRun` follow whole runs.
- Removing a topic from a full table zeroes the entry one past the array
  (`src/e4c_store_file.c:354`), where the structure holds the path of the file
  (`include/e4/internal/e4c_sym_store_file.h:37-48`). The model follows that layout: the topic is
  removed, the path is lost, and no later sync can succeed. `RemoveTopic`, `PathKept` and
  `FullTableLosesPath` state when this happens.
- A RemoveTopic command is the one command whose length is not checked
  (`src/e4symclient.c:220-222`); a short one takes its topic from whatever follows it in the message
  buffer, which is the argument `beyond`. `ParseIsLocal` proves that what a message does depends on
  the message alone if and only if it is not such a short RemoveTopic, and `ShortRemove` that the
  message of one zero byte can remove any topic.

## Model

| member | source | states |
|---|---|---|
| Radix.ProductValue | src/crypto/ed25519/fe.c:579-700 | the nineteen columns of the schoolbook product, with the factor 2 on every odd-odd pair, weigh up to the product of the two values |
| Radix.FoldedProduct | src/crypto/ed25519/fe.c:579-700 | folding columns 10 to 18 back with the factor 19 keeps the product modulo p |
| Field.Mac | src/crypto/ed25519/fe.c:579-700 | each step of a column is a product and a sum inside int64, and the bound grows by one term of 38 (1.65 * 2^26)^2 |
| Field.CarryChain | src/crypto/ed25519/fe.c:703-754 | the twelve rounding carries keep the value modulo p and bring any ten 64-bit columns below 6 * 10^18 within 1.01*2^25 and 1.01*2^24; every intermediate fits in int64 |
| Field.FeMul | src/crypto/ed25519/fe.c:526-767 | for limbs within 1.65*2^26 and 1.65*2^25: h = f g mod p, within 1.01*2^25 and 1.01*2^24, no 32- or 64-bit overflow |
| Field.FeSq | src/crypto/ed25519/fe.c:969-1129 | the same for f^2, although the columns of the square are summed from other products |
| Field.FeSq2 | src/crypto/ed25519/fe.c:1132-1302 | 2 f^2 mod p within the same bounds; the doubled columns still fit in int64 |
| Field.FeAdd | src/crypto/ed25519/fe.c:72-125 | exact sum of the values, and the bounds of the result are the sums of the bounds of the arguments (ge_add needs more than the comment on fe_add allows) |
| Field.FeSub | src/crypto/ed25519/fe.c:1305-1359 | exact difference, with the sums of the bounds |
| Field.FeNeg | src/crypto/ed25519/fe.c:838-880 | exact negation within the same bounds |
| Field.FeCmov | src/crypto/ed25519/fe.c:129-190 | the branch-free masked copy selects g when b = 1 and f when b = 0 |
| FieldBytes.FeFromBytes | src/crypto/ed25519/fe.c:295-362 | the limbs are tight and stand for the low 255 bits of the string, modulo p |
| FieldBytes.QuotientEstimate | src/crypto/ed25519/fe.c:1369-1386 | the q computed from h9 and the carry chain is exactly floor(h / p) for every h within 1.1*2^26 and 1.1*2^25 |
| FieldBytes.Quotient | src/crypto/ed25519/fe.c:1410-1420 | the first chain computes floor(h / p), every sum within int32 |
| FieldBytes.Subtract | src/crypto/ed25519/fe.c:1421-1460 | the second chain leaves limbs of 26 and 25 bits with the value h mod p, every sum within int32 |
| FieldBytes.FeToBytes | src/crypto/ed25519/fe.c:1363-1493 | writes the 32 little-endian bytes of h mod p, the canonical representative |
| FieldBytes.ReadThenWrite | src/crypto/ed25519/fe.c:295-362 | fe_tobytes after fe_frombytes is reduction of the low 255 bits mod p; exactly the strings below p come back unchanged |
| FieldBytes.FeIsNegative | src/crypto/ed25519/fe.c:453-468 | the low bit of the canonical representative |
| FieldBytes.FeIsNonzero | src/crypto/ed25519/fe.c:471-522 | true exactly when the element is not zero mod p |
| FieldPowers.Squarings | src/crypto/ed25519/fe.c:396-398 | n squarings in a row raise to the power 2^n |
| FieldPowers.FeInvert | src/crypto/ed25519/fe.c:366-450 | the addition chain computes z^(p-2) mod p |
| FieldPowers.FePow22523 | src/crypto/ed25519/fe.c:883-966 | the addition chain computes z^(2^252-3) mod p |
| Edwards.InverseLaw | src/crypto/ed25519/fe.c:366-450 | z^(p-2) is the inverse of every z that is not zero mod p |
| Edwards.Complete | src/crypto/ed25519/ge.c:11-24 | on the curve the denominators 1 + d x1 x2 y1 y2 and 1 - d x1 x2 y1 y2 never vanish |
| Edwards.AddLaw | src/crypto/ed25519/ge.c:11-24 | the affine sum satisfies both cross-multiplied equations of section 5.1.4 of RFC 8032 |
| Edwards.Closed | src/crypto/ed25519/ge.c:11-24 | the sum of two points of the curve is on the curve |
| Edwards.SqrtMinusOne | src/crypto/ed25519/ge.c:139-141 | the constant is a square root of -1 mod p |
| ScalarMultiples.SumUnique | src/crypto/ed25519/ge.c:11-24 | the cross-multiplied equations have one solution with reduced coordinates, the affine sum |
| ScalarMultiples.AddNeg | src/crypto/ed25519/ge.c:443-457 | adding the negated point gives the neutral element |
| ScalarMultiples.MulAdd | src/crypto/ed25519/ge.c:62-132 | (m + n) P = m P + n P for all integers m, n |
| ScalarMultiples.MulMul | src/crypto/ed25519/ge.c:62-132 | m (n P) = (m n) P for all integers m, n |
| Points.GeAdd | src/crypto/ed25519/ge.c:11-24 | from limbs standing for P and Q, limbs standing for P + Q, with the bounds that every later fe_mul needs |
| Points.GeSub | src/crypto/ed25519/ge.c:443-457 | the same for P - Q |
| Points.GeMadd | src/crypto/ed25519/ge.c:190-202 | the same for P + Q with Q from the precomputed table |
| Points.GeMsub | src/crypto/ed25519/ge.c:209-222 | the same for P - Q with Q from the precomputed table |
| Points.GeP2Dbl | src/crypto/ed25519/ge.c:261-273 | limbs standing for P + P from projective coordinates; the doubling formula needs the curve equation |
| Points.GeP3Dbl | src/crypto/ed25519/ge.c:288-292 | the same from extended coordinates |
| Points.GeP1P1ToP2 | src/crypto/ed25519/ge.c:229-233 | the completed coordinates of P become projective coordinates of P |
| Points.GeP1P1ToP3 | src/crypto/ed25519/ge.c:241-246 | and extended coordinates of P, including T Z = X Y |
| Points.GeP3ToCached | src/crypto/ed25519/ge.c:304-309 | Y + X, Y - X, Z and 2 d T of the same point |
| Points.GeP3ToP2 | src/crypto/ed25519/ge.c:316-320 | the projective coordinates stand for the same point |
| PointBytes.GeP3ToBytes | src/crypto/ed25519/ge.c:323-332 | the encoding of section 5.1.2 of RFC 8032: 255 bits of y and the low bit of x |
| PointBytes.GeToBytes | src/crypto/ed25519/ge.c:460-469 | the same encoding from projective coordinates |
| PointBytes.RootLaw | src/crypto/ed25519/ge.c:143-170 | whenever v x^2 = u has a solution at all, the candidate u v^3 (u v^7)^((p-5)/8) solves it for u or for -u |
| PointBytes.GeFromBytesNegateVartime | src/crypto/ed25519/ge.c:135-183 | 0 together with limbs for -A when the string decodes to A, a point on the curve with that y and that low bit of x; -1 exactly when it decodes to no point |
| PointBytes.EncodeDecodes | src/crypto/ed25519/ge.c:143-183 | the encoding of every point on the curve decodes to that point |
| PointBytes.DecodeUnique | src/crypto/ed25519/ge.c:143-183 | a string decodes to at most one point |
| PointBytes.ZeroX | src/crypto/ed25519/ge.c:143-183 | the points of the curve with x = 0 are those with y = 1 and y = p - 1 |
| PointBytes.DecodesEncoding | src/crypto/ed25519/ge.c:143-183 | a string that decodes to P is the encoding of P if and only if its y is below p and its sign bit is clear or y is neither 1 nor p - 1: a test on the bytes, which section 5.1.3 of RFC 8032 makes and the code does not |
| PointBytes.NonCanonicalIdentity | src/crypto/ed25519/ge.c:143-183 | p + 1, and 1 with the sign bit set, decode to the neutral element and are not its encoding |
| Recode.TailOfBits | src/crypto/ed25519/ge.c:32-34 | 256 digits that are the bits of a weigh up to a |
| Recode.Carry | src/crypto/ed25519/ge.c:46-53 | the carry loop adds one at its start digit, or every digit from there up was 1 and all are now 0 |
| Recode.Absorb | src/crypto/ed25519/ge.c:37-58 | one window: the digit becomes odd within [-15, 15], the next four digits become 0, and the weight of the digits from here up is kept unless the carry ran off the end, which leaves only zeros above |
| Recode.Slide | src/crypto/ed25519/ge.c:27-60 | for every 32-byte a: digits 0 or odd within [-15, 15], any two nonzero digits at least five apart, weight a exactly when 256 such digits can weigh a at all, and a - 2^256 otherwise; a for every a <= 2^255 |
| Recode.SparseUnique | src/crypto/ed25519/ge.c:27-60 | digits of this kind are determined by their weight |
| Recode.SparseBound | src/crypto/ed25519/ge.c:27-60 | digits up to place n - 1 weigh less than 15.5 * 2^(n-1), so a lost carry means a > 2^255 |
| Recode.LostIsNotRecodable | src/crypto/ed25519/ge.c:46-53 | when the carry runs off the end, no 256 digits of this kind weigh a |
| Recode.LosesItsCarry | src/crypto/ed25519/ge.c:46-53 | 2^255 + 2^251 comes out as -15 at place 251, that is, 2^256 too little |
| Recode.CarryDigit | src/crypto/ed25519/ge.c:405-410 | one step of the carry pass leaves a digit in [-8, 8) and keeps the weight together with the carry |
| Recode.Radix16 | src/crypto/ed25519/ge.c:388-413 | for every a with a[31] <= 127: 64 digits within [-8, 8] whose weight in base 16 is a |
| Recode.HalvesJoin | src/crypto/ed25519/ge.c:416-435 | sixteen times the odd-digit sum plus the even-digit sum is the weight of all digits |
| ScalarMult.OddTable | src/crypto/ed25519/ge.c:79-102 | the eight entries stand for A, 3A, ..., 15A |
| ScalarMult.DigitIndex | src/crypto/ed25519/ge.c:114-128 | a nonzero window digit d indexes with d / 2 or -d / 2 (truncating) the entry for \|d\|, inside the table |
| ScalarMult.GeDoubleScalarmultVartime | src/crypto/ed25519/ge.c:62-132 | for all 32-byte a, b: a A + b B with each scalar as slide recodes it, so exactly a A + b B for a, b <= 2^255; by the two recodings, the skipped leading zeros and the Horner loop |
| ScalarMult.Equal | src/crypto/ed25519/ge.c:335-343 | branch-free equality of two bytes |
| ScalarMult.Negative | src/crypto/ed25519/ge.c:345-349 | branch-free sign of a signed byte |
| ScalarMult.Magnitude | src/crypto/ed25519/ge.c:361 | b - (((-(b < 0)) & b) << 1) is the absolute value of b |
| ScalarMult.Select | src/crypto/ed25519/ge.c:358-377 | for \|b\| <= 8 the row of 256^pos B gives b 256^pos B, also for b = 0 and b < 0 |
| ScalarMult.GeScalarmultBase | src/crypto/ed25519/ge.c:380-436 | a B for every a with a[31] <= 127 |
| ScalarMult.BaseOnCurve | src/crypto/ed25519/ge.c:380-386 | the base point, with y = 4/5 and x even, satisfies the curve equation |
| Sc.Fold | src/crypto/ed25519/sc.c:78-84 | folding limb k away with the six coefficients of l keeps the value modulo l and fits in int64 |
| Sc.RoundCarry | src/crypto/ed25519/sc.c:120-122 | a rounding carry keeps the value and leaves a limb within [-2^20, 2^20) |
| Sc.FloorCarry | src/crypto/ed25519/sc.c:238-240 | a flooring carry keeps the value and leaves a limb within [0, 2^21) |
| Sc.TopBalanced | src/crypto/ed25519/sc.c:195-237 | balanced limbs, with s11 in [-2^20, 2^20), put the value strictly between -2^252 and 2^252 after the fold of s12 |
| Sc.LastQuotient | src/crypto/ed25519/sc.c:238-280 | so the next s12 is -1 or 0, and folding it gives the canonical residue in [0, l) |
| Sc.ReduceLimbs | src/crypto/ed25519/sc.c:78-313 | 24 limbs to 12: digits in [0, 2^21) with the value of the input mod l, in [0, l); every step fits in int64 |
| ScBytes.Unpack24 | src/crypto/ed25519/sc.c:36-59 | the shifts and masks read the 21-bit digits of the 64 bytes |
| ScBytes.Unpack12 | src/crypto/ed25519/sc.c:363-398 | the same for 32 bytes |
| ScBytes.PackValue | src/crypto/ed25519/sc.c:315-346 | the 32 bytes written from the limbs have their value, for limbs below 2^21 and a top limb up to 2^21 |
| ScBytes.ColumnsValue | src/crypto/ed25519/sc.c:447-470 | the column sums of two limb vectors weigh up to the product of their values |
| ScBytes.ScReduce | src/crypto/ed25519/sc.c:25-347 | overwrites the first half of the 64 bytes with their value mod l, canonical, and leaves the second half |
| ScBytes.ScMuladd | src/crypto/ed25519/sc.c:351-809 | (a b + c) mod l, canonical, for any 32-byte a, b and c |
| Sha512.CodeCh | src/crypto/sha512.c:78 | z ^ (x & (y ^ z)) is the Ch of FIPS 180-4 |
| Sha512.CodeMaj | src/crypto/sha512.c:79 | ((x \| y) & z) \| (x & y) is the Maj of FIPS 180-4 |
| Sha512.Ror64c | src/crypto/sha512.c:61-63 | the shifts and the mask are a rotation of 64 bits |
| Sha512.CodeBigSigma0 | src/crypto/sha512.c:82 | the macro on rotations by shifts is the first upper-case sigma of FIPS 180-4 |
| Sha512.CodeBigSigma1 | src/crypto/sha512.c:83 | the second upper-case sigma |
| Sha512.CodeSmallSigma0 | src/crypto/sha512.c:84 | the first lower-case sigma |
| Sha512.CodeSmallSigma1 | src/crypto/sha512.c:85 | the second lower-case sigma |
| Sha512.Load64H | src/crypto/sha512.c:71-75 | eight bytes read big-endian |
| Sha512.Store64H | src/crypto/sha512.c:65-69 | eight bytes written big-endian |
| Sha512.EightRounds | src/crypto/sha512.c:117-126 | eight rounds with rotating roles, no variable ever moved, are eight standard rounds |
| Sha512.Sha512Compress | src/crypto/sha512.c:91-139 | the state becomes the compression of section 6.4.2 of FIPS 180-4 |
| Sha512.Sha512Context.constructor | src/crypto/sha512.c:147-162 | a fresh context stands for the empty message |
| Sha512.Sha512Context.Update | src/crypto/sha512.c:171-210 | for any split into calls: state, buffer, curlen and length stand for exactly the concatenated input |
| Sha512.FinalBlocks | src/crypto/sha512.c:229-257 | the one or two last blocks that final builds complete the padded message of section 5.1.2 |
| Sha512.Sha512Context.Final | src/crypto/sha512.c:212-265 | the digest of everything hashed; the standard digest for inputs below 2^64 bits |
| Sha512.CodeIsDigest | src/crypto/sha512.c:240-252 | the code, whose length field keeps only 64 bits, agrees with FIPS 180-4 below 2^64 bits |
| Sha512.PaddingIsStandard | src/crypto/sha512.c:240-252 | the padding of the code is that of the standard if and only if the message is shorter than 2^64 bits |
| Primes.PrimesListed | src/crypto/sha512.c:16-57 | the table of primes has all primes below 410, so entry t is the prime with t primes below it |
| Primes.PrimesAscend | src/crypto/sha512.c:16-57 | and has them in ascending order |
| Fips180.RoundConstants | src/crypto/sha512.c:16-57 | each of the eighty constants is the first 64 bits of the fractional part of the cube root of its prime (section 4.2.3 of FIPS 180-4) |
| Fips180.OneCubeRoot | src/crypto/sha512.c:16-57 | a number has one integer cube root, so this determines the constants |
| Fips180.InitialValue | src/crypto/sha512.c:147-162 | each of the eight initial words is the first 64 bits of the fractional part of the square root of its prime (section 5.3.5) |
| Fips180.BigSigmaBits | src/crypto/sha512.c:82-83 | each bit of the first two sigmas is the sum modulo 2 of the three bits 28, 34, 39 and 14, 18, 41 places up, around the word |
| Fips180.SmallSigmaBits | src/crypto/sha512.c:84-85 | the same for 1, 8, 7 and 19, 61, 6, the last of which is a shift: bits beyond the word are 0 |
| Fips180.ChoiceBits | src/crypto/sha512.c:78-79 | each bit of Ch is chosen by the bit of x, and each bit of Maj is what two of three have |
| Fips180.ScheduleIsStandard | src/crypto/sha512.c:101-108 | the message schedule, each word one sum modulo 2^64 |
| Fips180.RoundsAreStandard | src/crypto/sha512.c:110-134 | after t rounds the eight variables are the last four values of the two sequences A and E, each defined by one recurrence modulo 2^64 |
| Fips180.CompressIsStandard | src/crypto/sha512.c:91-139 | so the new hash value is the old one plus A and E at 77 to 80 |
| Fips180.PaddedBits | src/crypto/sha512.c:229-257 | as bits: the message, a 1, the least number of zeros that brings it to 896 modulo 1024, and the length in 128 bits (section 5.1.2) |
| Fips180.DigestIsStandard | src/crypto/sha512.c:212-265 | below 2^64 bits, word i of the digest is word i of the hash value after all blocks, taken from the first one on |
| Ed25519.Ed25519Sign | src/crypto/ed25519/sign.c:8-32 | the 64 bytes are R and (h a + r) mod l of section 5.1.6 of RFC 8032 |
| Rfc8032.EncodedValue | src/crypto/ed25519/ge.c:323-332 | the encoding of a point is y plus 2^255 times the low bit of x |
| Rfc8032.NonceIsStandard | src/crypto/ed25519/sign.c:15-23 | R is the encoding of r B for r the SHA-512 of the private prefix and the message, modulo l, below 2^64 bits |
| Rfc8032.SignatureIsStandard | src/crypto/ed25519/sign.c:8-32 | and S is r + k a modulo l, for k the SHA-512 of R, public key and message: the whole of section 5.1.6 of RFC 8032 over the SHA-512 of the standard |
| Rfc8032.BaseIsStandard | src/crypto/ed25519/ge.c:380-386 | the base point of section 5.1: on the curve, y = 4/5, x even |
| Ed25519.ConsttimeEqual | src/crypto/ed25519/verify.c:7-46 | the accumulated xor is zero exactly when the 32 bytes are equal |
| Ed25519.Ed25519Verify | src/crypto/ed25519/verify.c:48-78 | 1 exactly when the top three bits of S are clear, the key decodes to some A, and S B - h A encodes to the first 32 bytes; else 0 |
| Ed25519.SignedIsAccepted | src/crypto/ed25519/verify.c:48-78 | every signature made for any message and any private key with public key enc(a B) is accepted |
| Ed25519.AcceptsModOrder | src/crypto/ed25519/verify.c:54-56 | for every public key, two signatures with the same R and S equal mod l are accepted alike: the gate bounds S by 2^253 only |
| Ed25519.CheckerCancels | src/crypto/ed25519/verify.c:70-71 | the recomputed point S B - h A is R if and only if S B = R + h A |
| Ed25519.SameChallenge | src/crypto/ed25519/verify.c:63-69 | the challenge of the code is that of RFC 8032 when R, key and message are below 2^64 bits together |
| Ed25519.AcceptsIsStandard | src/crypto/ed25519/verify.c:48-78 | below 2^64 bits, section 5.1.7 of RFC 8032 (with the equation that is not multiplied by 8) accepts if and only if the code accepts, S < l and the public key is a canonical string |
| Ed25519.OrderIsAccepted | src/crypto/ed25519/verify.c:54-56 | under the key of the neutral element, R neutral and S = l is accepted for every message, and not by the standard |
| Ed25519.OtherKeyIsAccepted | src/crypto/ed25519/verify.c:59-61 | under the key p + 1, which decodes to the neutral element, R neutral and S = 0 is accepted for every message, and not by the standard |
| Ed25519.LargeSIsAccepted | src/crypto/ed25519/verify.c:54-56 | an honest signature with S + l in place of S is accepted by the code and not by the standard, whenever S + l < 2^253 |
| Rfc8032.AcceptedBound | src/crypto/ed25519/verify.c:54-56 | no S of 2^253 or more is accepted |
| Ed25519.Ed25519AddScalar | src/crypto/ed25519/add_scalar.c:8-69 | the whole new private key and the new public key, in each of the combinations of null arguments |
| Ed25519.RoutesAgree | src/crypto/ed25519/add_scalar.c:43-68 | the public key computed from the new private key is the one computed by adding n B to the old public key |
| Rfc8032.AddedKeyIsSum | src/crypto/ed25519/add_scalar.c:20-40 | the new private scalar is the sum modulo l with the scalar of 255 bits, and the new prefix is half the SHA-512 of the old prefix and the scalar |
| Rfc8032.AddedPointIsSum | src/crypto/ed25519/add_scalar.c:43-68 | the new public key decodes to the old point plus that multiple of B |
| DonnaField.FProduct | src/crypto/curve25519/curve25519-donna.c:90-197 | the nineteen columns are those of the product, each within 14*2^54 |
| DonnaField.FSquareInner | src/crypto/curve25519/curve25519-donna.c:334-396 | the nineteen columns of fproduct(x, x), each within 14*2^54 |
| DonnaField.FReduceDegree | src/crypto/curve25519/curve25519-donna.c:199-235 | the value mod p is kept and every limb stays within 280*2^54 |
| DonnaField.DivBy226 | src/crypto/curve25519/curve25519-donna.c:241-254 | division by 2^26 truncating toward zero, for every 64-bit v |
| DonnaField.DivBy225 | src/crypto/curve25519/curve25519-donna.c:256-269 | division by 2^25 truncating toward zero, for every 64-bit v |
| DonnaField.FReduceCoefficients | src/crypto/curve25519/curve25519-donna.c:271-315 | from limbs within 280*2^54 to limbs below 2^26 in magnitude with the same value mod p |
| DonnaField.FMul | src/crypto/curve25519/curve25519-donna.c:317-332 | product mod p, limbs below 2^26 in magnitude, for limbs below 2^27 |
| DonnaField.FSquare | src/crypto/curve25519/curve25519-donna.c:398-416 | square mod p with the same bounds |
| DonnaPowers.CRecip | src/crypto/curve25519/curve25519-donna.c:769-836 | the second inversion chain computes z^(p-2) mod p |
| DonnaBytes.FExpand | src/crypto/curve25519/curve25519-donna.c:418-437 | limbs of exactly the low 255 bits |
| DonnaBytes.Folds | src/crypto/curve25519/curve25519-donna.c:446-450 | each shift-and-and step halves the run of ones that must be checked |
| DonnaBytes.S32Eq | src/crypto/curve25519/curve25519-donna.c:443-452 | all ones if a = b and zero otherwise, for non-negative a and b |
| DonnaBytes.S32Gte | src/crypto/curve25519/curve25519-donna.c:454-460 | all ones if a >= b and zero otherwise, for non-negative a and b |
| DonnaContract.BorrowPass | src/crypto/curve25519/curve25519-donna.c:478-507 | a first pass leaves only limb 0 possibly negative, a second one leaves at most a small borrow there; the value mod p is kept |
| DonnaContract.BorrowAtMostOne | src/crypto/curve25519/curve25519-donna.c:512-520 | the carry out of limb 9 is at most one if and only if the limb is at least -2^25; just below it is two |
| DonnaContract.CarryPass | src/crypto/curve25519/curve25519-donna.c:530-548 | one pass leaves every limb in range but limb 0, a second one all of them; the value mod p is kept |
| DonnaContract.FinalMask | src/crypto/curve25519/curve25519-donna.c:557-567 | the mask is all ones exactly when the limbs say that the value is at least p |
| DonnaContract.SubtractP | src/crypto/curve25519/curve25519-donna.c:569-579 | the masked subtraction leaves the value mod p |
| DonnaContract.WriteLimbs | src/crypto/curve25519/curve25519-donna.c:581-606 | the overlapping or-ed four-byte writes spell the value of the limbs |
| Words.S32Bytes | src/crypto/curve25519/curve25519-donna.c:581-606 | the four bytes of a limb shifted into the sign bit are those of the unsigned word |
| DonnaContract.FContract | src/crypto/curve25519/curve25519-donna.c:462-607 | writes the unique representative in [0, p) of every limb vector below 2^26 in magnitude |
| DonnaContract.ExpandThenContract | src/crypto/curve25519/curve25519-donna.c:418-607 | fcontract after fexpand is reduction of the low 255 bits mod p; exactly the strings below p come back unchanged |
| X25519.FMonty | src/crypto/curve25519/curve25519-donna.c:609-693 | one step of the Montgomery ladder mod p, with limbs below 2^26 going in and out |
| X25519.SwapConditional | src/crypto/curve25519/curve25519-donna.c:695-714 | for limbs below INT32_MAX the xor swap, with its casts to 32 bits, exchanges the ten limbs exactly when iswap is 1 |
| X25519.LadderStep | src/crypto/curve25519/curve25519-donna.c:737-745 | swap, step, swap back |
| X25519.LadderByte | src/crypto/curve25519/curve25519-donna.c:732-762 | eight bits of a byte, with the buffers exchanging roles after each, continue the reference ladder |
| X25519.CMult | src/crypto/curve25519/curve25519-donna.c:716-766 | x and z of the reference ladder over all 256 bits |
| X25519.ClampedValue | src/crypto/curve25519/curve25519-donna.c:843-846 | the clamped scalar is 2^254 + (s mod 2^254 - s mod 8) |
| X25519.Curve25519 | src/crypto/curve25519/curve25519-donna.c:838-855 | the output is the canonical little-endian x * z^(2^255-21) of the ladder on the clamped scalar and the low 255 bits of the base point |
| Rfc7748.DeferredIsEager | src/crypto/curve25519/curve25519-donna.c:737-745 | the delayed swaps of section 5 of RFC 7748 reach the same points as swapping and swapping back at each bit |
| Rfc7748.LadderIsX25519 | src/crypto/curve25519/curve25519-donna.c:716-855 | the ladder from bit 255 gives the output of the 255-bit ladder of RFC 7748, for every u including 0 mod p |
| Rfc7748.Curve25519IsX25519 | src/crypto/curve25519/curve25519-donna.c:838-855 | so the function computes X25519 for every secret and every u |
| Montgomery.DoubleU | src/crypto/curve25519/curve25519-donna.c:668-692 | the doubling half of a step takes (X : Z) of the u-coordinate of P to that of P + P, for every P of the curve, the neutral element included |
| Montgomery.Harmonic | src/crypto/curve25519/curve25519-donna.c:628-666 | for the y-coordinates a, b of the sum and the difference of two points: (1 + a)(1 + b) to (1 - a)(1 - b) is as the square of the sum of the two y to that of their difference |
| Montgomery.AddU | src/crypto/curve25519/curve25519-donna.c:628-666 | the other half takes the u-coordinates of P, Q and Q - P to that of P + Q |
| Montgomery.StepAt | src/crypto/curve25519/curve25519-donna.c:737-745 | with the swaps, a step takes m P and (m + 1) P to the next pair by the bit, 2m or 2m + 1 |
| Montgomery.RunAt | src/crypto/curve25519/curve25519-donna.c:716-766 | after n bits the state stands for the multiples of P by the top n bits of the scalar and by one more |
| Montgomery.LadderIsMultiple | src/crypto/curve25519/curve25519-donna.c:716-766 | the ladder gives the u-coordinate of k P, for every k below 2^256 and every P with x not 0 |
| Montgomery.ResultIsMultiple | src/crypto/curve25519/curve25519-donna.c:838-855 | so the function takes the u-coordinate of every point of the curve to that of its multiple by the clamped scalar |
| Montgomery.KeyAgreement | src/crypto/curve25519/curve25519-donna.c:838-855 | two sides that send each other their multiples of a point get the same secret |
| Montgomery.BaseU | src/crypto/curve25519/curve25519-donna.c:838-855 | the base point of Ed25519 has the u-coordinate 9 |
| Montgomery.Exchange | src/crypto/curve25519/curve25519-donna.c:838-855 | a key exchange from the base point 9, four calls: both sides have the same 32 bytes, the u-coordinate of the multiple of B by the product of the clamped scalars |
| AesSiv.CmacDbl | src/crypto/aes_siv.c:24-37 | multiplication by x in GF(2^128), on the block read big-endian |
| AesSiv.SivCmac | src/crypto/aes_siv.c:39-85 | byte-streamed CMAC equals block CMAC of the message with xorend xored into its last 16 bytes, for every length |
| AesSiv.Increment | src/crypto/aes_siv.c:107-111 | the early-terminating byte loop is addition of one modulo 2^128 |
| AesSiv.SivCtr | src/crypto/aes_siv.c:89-117 | byte i is xored with byte i mod 16 of E(Q + i / 16 mod 2^128) |
| AesSiv.NoCarryOut | src/crypto/aes_siv.c:97-99 | with the two bits cleared, no carry leaves the low 32 bits for 2^31 blocks |
| AesSiv.SyntheticIV | src/crypto/aes_siv.c:138-158 | the tag is S2V of section 2.4 of RFC 5297 on one string of associated data, for plaintexts shorter and longer than a block |
| AesSiv.Aes256EncryptSiv | src/crypto/aes_siv.c:121-166 | the tag and the counter-mode ciphertext, for every plaintext length including 0 |
| AesSiv.Aes256DecryptSiv | src/crypto/aes_siv.c:171-213 | the counter-mode plaintext, and 0 if and only if the input is the encryption of that plaintext |
| AesSiv.DecryptsEncryption | src/crypto/aes_siv.c:171-213 | decryption undoes encryption and reports success |
| AesSiv.OnlyEncryption | src/crypto/aes_siv.c:196-213 | the tag matches if and only if the whole ciphertext is the encryption of the recovered plaintext |
| AesSiv.EncryptInjective | src/crypto/aes_siv.c:121-166 | different plaintexts have different ciphertexts |
| Rfc5297.DblIsStandard | src/crypto/aes_siv.c:24-37 | doubling is multiplication by x modulo x^128 + x^7 + x^2 + x + 1, of which the xor is stated on numbers |
| Rfc5297.PadValue | src/crypto/aes_siv.c:74-78 | the padded block has the bits of the string, a 1 and zeros |
| Rfc5297.CmacIsStandard | src/crypto/aes_siv.c:39-85 | CMAC of section 2.4 of RFC 4493 from the first block on: the last block xor-ed with the first subkey when it is whole, and padded and xor-ed with the second one otherwise |
| Rfc5297.S2VIsStandard | src/crypto/aes_siv.c:138-158 | the tag is S2V of section 2.4 of RFC 5297, defined for every vector of strings, on the vector of associated string and plaintext, short plaintexts included |
| Rfc5297.CounterIsStandard | src/crypto/aes_siv.c:97-99 | the counter starts at the tag and-ed with 1^64 0 1^31 0 1^31 (section 2.5) |
| Rfc5297.EncryptIsStandard | src/crypto/aes_siv.c:121-166 | section 2.6: the tag, then the plaintext xor-ed with the concatenation of E(Q), E(Q + 1), ... |
| Sha3.Sha3Context.constructor | src/crypto/sha3.c:29-37 | a fresh context has absorbed nothing |
| Sha3.Sha3Context.Update | src/crypto/sha3.c:41-59 | for any split into calls: the state is that of the sponge after exactly the concatenated input |
| Sha3.PaddedBlock | src/crypto/sha3.c:67-69 | the two xors realise the suffix and pad10*1, also when both hit the same byte |
| Sha3.Sha3Context.Final | src/crypto/sha3.c:63-77 | the first bytes of the state after the last block; the digest of sections 4 to 6 of FIPS 202 when it fits in one block |
| Sha3.Sha3Context.Xof | src/crypto/sha3.c:99-105 | switches to squeezing the sponge with the SHAKE suffix |
| Sha3.Sha3Context.Out | src/crypto/sha3.c:107-123 | for any split into calls: the next bytes of the output stream |
| Sha3.SqueezeJoins | src/crypto/sha3.c:107-123 | n bytes followed by m bytes are the n + m bytes of one call |
| Fips202.PaddedBits | src/crypto/sha3.c:63-105 | as bits, the lowest of each byte first: for SHA-3 the message, 0 1, and pad10*1 to a multiple of the rate with the least number of zeros; for SHAKE the message, 1 1 1 1 and pad10*1; for every message and rate |
| Fips202.SpongeIsStandard | src/crypto/sha3.c:41-123 | the sponge of section 4 of FIPS 202: each block with zeros up to the width xor-ed in, from the first one on, and r bytes of each state with a permutation in between |
| Sha3.Digest | src/crypto/sha3.c:82-89 | the same for one input in one call, for every mdlen below 100; the sponge up to 66 |
| SymStore.TableLookup | src/e4c_store_file.c:266-287 | in an array of distinct hashes each entry is what the map holds for its hash |
| SymStore.TableUpdate | src/e4c_store_file.c:328-333 | overwriting an entry in place updates the map |
| SymStore.TableRemove | src/e4c_store_file.c:349-355 | closing the gap of an entry removes its hash from the map |
| SymStore.TableSize | src/e4c_store_file.c:266-287 | the map has as many hashes as the array has live entries |
| SymStore.Store.ZeroEntry | src/e4c_store_file.c:354 | an entry of the array, or, one past it, the start of the path field behind the array |
| SymStore.Store.MoveUp | src/e4c_store_file.c:350-353 | the shift loop closes the gap of one entry |
| SymStore.Store.constructor | src/e4c_store_file.c:38-48 | the empty table |
| SymStore.Store.SetId | src/e4c_store_file.c:213-233 | the identity and the control topic derived from it; the table stays |
| SymStore.Store.GetTopicIndex | src/e4c_store_file.c:266-287 | the index of the entry that the map holds, or the error when it holds none |
| SymStore.Store.SetTopicKey | src/e4c_store_file.c:313-336 | map update while the hash is present or there is room, then a sync; else the error and nothing changes |
| SymStore.Store.RemoveTopic | src/e4c_store_file.c:338-362 | map removal and a sync, or the error and nothing changes; the entry set to zero is the one at the old count, which lies in the array if and only if the topic is absent or the table was not full; else the path of the file is cleared and the sync fails |
| SymStore.Store.ResetTopics | src/e4c_store_file.c:364-375 | the empty map, and success whatever the sync did |
| SymStore.Store.Sync | src/e4c_store_file.c:158-211 | the serialised state goes over the start of the file, as far as the system takes it; success exactly when it took all |
| SymStore.Store.Load | src/e4c_store_file.c:63-156 | success exactly on well-formed files, and then identity, key, control topic, count and entries are those in the file and the store is valid if and only if the hashes in it are distinct; on any other content every field and entry as far as the reads got, the last one in part |
| SymStore.SyncLoadRoundTrip | src/e4c_store_file.c:63-211 | loading what was synced gives back identity, key and table over any earlier file, however long |
| SymStore.SyncSaves | src/e4c_store_file.c:158-211 | a sync that the system takes whole saves everything |
| SymStore.FileLayout | src/e4c_store_file.c:158-211 | the bytes of the file: E41P, identity, key, count, and for each entry the topic hash before the key |
| SymStore.EntriesLayout | src/e4c_store_file.c:131-144 | load takes the entries from the same places |
| SymStore.ResetOnFile | src/e4c_store_file.c:364-375 | over a file in step, a reset clears the table on file if and only if the table was empty or the system takes 53 bytes; with fewer the file stays as it was |
| SymStore.SyncThenLoad | src/e4c_store_file.c:63-211 | another store that loads the synced file ends with the same identity, key and map, and the control topic of that identity |
| SymClient.GetKey | src/e4symclient.c:150-163 | the topic key from the map, the device key on the control topic, or none |
| SymClient.ProtectMessage | src/e4symclient.c:40-109 | the two errors, or the time stamp followed by the AES-SIV encryption with the time stamp as associated data |
| SymClient.DecryptMessage | src/e4symclient.c:166-211 | the plaintext and the verdict on tag and time |
| SymClient.TimeSides | src/e4symclient.c:185-209 | -102 exactly for a stamp more than 600 s ahead, -103 exactly for one more than 600 s behind, when the clock is set and stamps are not ignored |
| SymClient.VerdictCases | src/e4symclient.c:166-209 | -101 exactly for messages that are not authentic; the time is checked after the tag |
| SymClient.ResultCodes | include/e4/error.h:7-27 | the numbers that callers see |
| SymClient.UnprotectProtected | src/e4symclient.c:166-211 | what was protected comes back, and is accepted if and only if the clock is unset, stamps are ignored, or the times are at most 600 s apart |
| SymClient.ParseIsLocal | src/e4symclient.c:214-241 | what a control message does depends on the message alone, whatever follows it in memory, if and only if it is empty, no RemoveTopic, or 17 bytes or longer |
| SymClient.ShortRemove | src/e4symclient.c:220-222 | the message of one zero byte removes whichever topic follows it in memory |
| SymClient.ParseLayout | src/e4symclient.c:218-238 | the bytes of the four commands: 0 and topic, 1, 2 and key, 3 and key and topic |
| SymClient.ParseInvalid | src/e4symclient.c:216-241 | what is no command: nothing, a first byte above 3, a wrong length after 1, 2 or 3 |
| SymClient.InvalidIsRefused | src/e4symclient.c:216-241 | it changes nothing and is answered with -107 |
| SymClient.Execute | src/e4symclient.c:214-241 | each control command acts on the model as a map operation, with its return code, and syncs the file or leaves it, for every message and every store |
| SymClient.UnprotectMessage | src/e4symclient.c:114-242 | result, new store and file for every input and every store: commands run only from authentic, timely messages on the control topic, and the file changes only by the sync of such a command |
| SymClient.OnlyAuthentic | src/e4symclient.c:114-242 | nothing but an authentic and timely message under the device key changes the store, and the first reason against a message is the one reported |
| Messages.MessageLayout | src/e4symclient.c:92-101 | a protected message is the time in eight bytes, the lowest first, and the encryption of RFC 5297 with these as associated string |
| Messages.Deliver | src/e4symclient.c:40-242 | from one store to another with the same topic key: the message arrives as it was sent, with 0, -102 or -103 by the two times, and the receiver and its file stay as they were |
| Messages.Command | src/e4symclient.c:40-242 | from one store to another on the control topic: the receiver carries out the command and reports its outcome |
| Messages.SendSetTopicKey | src/e4symclient.c:234-238 | 3, key and topic under the device key: the receiver then uses that key for that topic while it is present or there is room, and every other topic as before; else -105 |
| Messages.SendRemoveTopic | src/e4symclient.c:220-222 | 0 and topic: the receiver then has no key for it, and every other topic as before; the result for every table, path and answer of the system |
| Messages.SendResetTopics | src/e4symclient.c:224-227 | 1: the receiver then has no key but the device key, and reports success |
| Messages.SendSetIdKey | src/e4symclient.c:229-232 | 2 and key: the receiver then uses that key on the control topic, and every other topic as before |
| SymClient.RunBounded | src/e4symclient.c:214-241 | the table holds at most 100 topics after any run of commands |
| SymClient.StepCases | src/e4symclient.c:214-241 | when a command reports success and the file was in step, it is in step afterwards if and only if the command is no SetIdKey of another key and no reset of a table with topics of which the system does not take 53 bytes |
| SymClient.ExecuteSaving | src/e4symclient.c:214-241 | the same of the method that runs a command; and what the file holds after it, when the system takes its write whole or not at all |
| SymClient.SnapshotCases | src/e4c_store_file.c:158-211 | after a write that is taken whole the file holds the new key and table, and after one that is refused what it held |
| SymClient.ExecuteAll | src/e4symclient.c:214-241 | after any run of commands the array refines the map; and the file holds the key and the table of the last command that was saved, whichever writes are refused |
| SymClient.PathKept | src/e4c_store_file.c:346-355 | a run loses the path of the file if and only if some command of it removes a topic from a full table |
| SymClient.FullTableLosesPath | src/e4c_store_file.c:346-355 | 100 commands that fill the table, after which removing any of its topics loses the path |
| SymClient.NothingSaved | src/e4c_store_file.c:158-166 | without the path every command that ends in a sync reports the persistence error, but for a reset |
| SymClient.KeyInMemory | src/e4symclient.c:229-232 | after any run the key in memory is the one of the last SetIdKey: no other command changes it |
| SymClient.UnsavedIsLost | src/e4symclient.c:214-241 | memory after any run is what the file holds with the unsaved commands on top, so exactly their effect is lost in a restart |
| SymClient.LoadSnapshot | src/e4c_store_file.c:63-156 | loading a file that holds a snapshot gives a valid store with its identity, key and table |
| SymClient.RestartAfterRun | src/e4c_store_file.c:63-211 | after any run from a store in step, whichever writes are refused, a store that loads the file has the key and the table of the last command saved; that is the key in memory exactly when the unsaved commands set no other |
| SymClient.RestartAfterReset | src/e4c_store_file.c:364-375 | a reset reports success on every store; after a restart the table is empty if the system took 53 bytes at a path that is still there, and as it was otherwise |

## Left out

- Update in place of field elements and points: `fe` and `ge_*` values are datatypes, and the C out-parameters are results. Aliasing of outputs with inputs and the order of the writes are not captured; the digit arrays of `slide` and of the radix-16 recoder, the buffers of `sc_reduce`, signing, key update, the donna buffers, the block buffers of AES-SIV, both hash contexts and the topic table are arrays updated in place.
- Long straight-line runs (columns of products, folds, carries) are grouped into helper functions and methods in the order of the source; the 24 limb variables of `sc.c` are one sequence.
- The inputs that `fmonty` destroys and the limbs 10 to 18 of its results are not described after the call; the `memset` of unused limbs is left out.
- Null pointer checks, and the length overflow and internal errors of the client; sizes are unbounded naturals.
- Ed25519.Ed25519AddScalar: the source ignores a decoding error of the public key, and what it then writes is not modelled; decodability is required when only the public key is given.
- ScalarMult.GeScalarmultBase: requires a[31] <= 127 as the comment at its head does.
- SymClient.ProtectMessage: null pointers, the wrap-around of the length and the internal error are not modelled.
- Sha3.Sha3Context.constructor: requires mdlen below 100, without which there is no rate.
- By the rules of C a write past an array is undefined; the effect on the path field is that of the declared layout.
- The file after a write that is cut in the middle is exact for one command (`Store.Sync`, `ResetOnFile`); `ExecuteAll` and `RestartAfterRun` follow runs in which each write is taken whole or not at all.
- The error returns of the topic derivations cannot occur with the lengths that the store passes (`src/e4util.c:56-58`, `src/e4util.c:88-90`).
- SymClient.UnprotectMessage: the plaintext buffer is described only when a key was found.
- AesSiv.Aes256DecryptSiv: requires 16 bytes of ciphertext, which the source subtracts without looking; its caller checks.
- AES-256 (tables, key expansion) and Keccak-f[1600]: fixed straight-line code, taken as functions.
- The contents of `precomp_data.h`: about 1,400 lines of constants, described by `IsBi` and `IsBase`.
- Primality of p, associativity of the Edwards law and the order of B: hypotheses.
- `fe_cswap` and `fe_mul121666`, which nothing here calls.
- The public-key client and its stores (`src/e4pkcclient.c`, `src/e4c_pk_store_file.c`, `src/e4c_pk_store_mem.c`), Ed25519 key conversion, key pair generation, password derivation and topic-name hashing.
- File descriptors, path handling, the clock, randomness, debug printing, the AVR branches and the OpenSSL wrapper: the file is a byte sequence that takes a number of bytes before it fails, and the time is an argument.
- Constant-time behaviour, secrecy, unforgeability and memory layout.
