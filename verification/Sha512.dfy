/** SHA-512 (sha512.c) against the block-level definition of FIPS 180-4. */
module Sha512 {
  import opened Bytes
  import opened Bits

  const TWO64 := 0x1_0000_0000_0000_0000

  type word = x: int | 0 <= x < 0x1_0000_0000_0000_0000

  /** The round constants, ten to a group. */
  const K0: seq<word> := [
    0x428a2f98d728ae22, 0x7137449123ef65cd, 0xb5c0fbcfec4d3b2f, 0xe9b5dba58189dbbc, 0x3956c25bf348b538,
    0x59f111f1b605d019, 0x923f82a4af194f9b, 0xab1c5ed5da6d8118, 0xd807aa98a3030242, 0x12835b0145706fbe
  ]

  const K1: seq<word> := [
    0x243185be4ee4b28c, 0x550c7dc3d5ffb4e2, 0x72be5d74f27b896f, 0x80deb1fe3b1696b1, 0x9bdc06a725c71235,
    0xc19bf174cf692694, 0xe49b69c19ef14ad2, 0xefbe4786384f25e3, 0x0fc19dc68b8cd5b5, 0x240ca1cc77ac9c65
  ]

  const K2: seq<word> := [
    0x2de92c6f592b0275, 0x4a7484aa6ea6e483, 0x5cb0a9dcbd41fbd4, 0x76f988da831153b5, 0x983e5152ee66dfab,
    0xa831c66d2db43210, 0xb00327c898fb213f, 0xbf597fc7beef0ee4, 0xc6e00bf33da88fc2, 0xd5a79147930aa725
  ]

  const K3: seq<word> := [
    0x06ca6351e003826f, 0x142929670a0e6e70, 0x27b70a8546d22ffc, 0x2e1b21385c26c926, 0x4d2c6dfc5ac42aed,
    0x53380d139d95b3df, 0x650a73548baf63de, 0x766a0abb3c77b2a8, 0x81c2c92e47edaee6, 0x92722c851482353b
  ]

  const K4: seq<word> := [
    0xa2bfe8a14cf10364, 0xa81a664bbc423001, 0xc24b8b70d0f89791, 0xc76c51a30654be30, 0xd192e819d6ef5218,
    0xd69906245565a910, 0xf40e35855771202a, 0x106aa07032bbd1b8, 0x19a4c116b8d2d0c8, 0x1e376c085141ab53
  ]

  const K5: seq<word> := [
    0x2748774cdf8eeb99, 0x34b0bcb5e19b48a8, 0x391c0cb3c5c95a63, 0x4ed8aa4ae3418acb, 0x5b9cca4f7763e373,
    0x682e6ff3d6b2b8a3, 0x748f82ee5defb2fc, 0x78a5636f43172f60, 0x84c87814a1f0ab72, 0x8cc702081a6439ec
  ]

  const K6: seq<word> := [
    0x90befffa23631e28, 0xa4506cebde82bde9, 0xbef9a3f7b2c67915, 0xc67178f2e372532b, 0xca273eceea26619c,
    0xd186b8c721c0c207, 0xeada7dd6cde0eb1e, 0xf57d4f7fee6ed178, 0x06f067aa72176fba, 0x0a637dc5a2c898a6
  ]

  const K7: seq<word> := [
    0x113f9804bef90dae, 0x1b710b35131c471b, 0x28db77f523047d84, 0x32caab7b40c72493, 0x3c9ebe0a15c9bebc,
    0x431d67c49c100d4c, 0x4cc5d4becb3e42b6, 0x597f299cfc657e2a, 0x5fcb6fab3ad6faec, 0x6c44198c4a475817
  ]

  const K: seq<word> := K0 + K1 + K2 + K3 + K4 + K5 + K6 + K7

  function RoundConstant(t: nat): word
    requires t < 80
  {
    K[t]
  }

  const IV: seq<word> := [
    0x6a09e667f3bcc908, 0xbb67ae8584caa73b, 0x3c6ef372fe94f82b, 0xa54ff53a5f1d36f1,
    0x510e527fade682d1, 0x9b05688c2b3e6c1f, 0x1f83d9abfb41bd6b, 0x5be0cd19137e2179
  ]

  // ---- words ---------------------------------------------------------------------------

  /** Addition of uint64_t values. */
  function Plus(x: word, y: word): word { (x + y) % TWO64 }

  function Xor64(x: word, y: word): (r: word)
    ensures r == Xor(x, y)
  {
    hide Xor, Pow2;
    Pow2Literals();
    XorBound(x, y, 64);
    Xor(x, y)
  }

  function And64(x: word, y: word): (r: word)
    ensures r == And(x, y)
  {
    hide And;
    AndBound(x, y);
    And(x, y)
  }

  function Or64(x: word, y: word): (r: word)
    ensures r == Or(x, y)
  {
    hide Or, Pow2;
    Pow2Literals();
    OrBound(x, y, 64);
    Or(x, y)
  }

  /** SHR^n, section 3.2 of FIPS 180-4. */
  function Shr64(x: word, n: nat): (r: word)
    requires n < 64
  {
    hide Pow2;
    QuotientRange(x, Pow2(n));
    x / Pow2(n)
  }

  lemma QuotientRange(x: nat, m: nat)
    requires m > 0
    ensures 0 <= x / m <= x
  {
    NonNegativeQuotient(x, m);
    QuotientAtMost(x, m, x / m, x % m);
  }

  lemma QuotientAtMost(x: nat, m: nat, q: nat, r: nat)
    requires m > 0 && x == m * q + r
    ensures q <= x
  {
    assert (m - 1) * q >= 0;
  }

  /** ROTR^n, section 3.2 of FIPS 180-4: the low n bits move to the top. */
  function Rotr(x: word, n: nat): (r: word)
    requires 0 < n < 64
  {
    hide Pow2;
    RotatedRange(x, n);
    x / Pow2(n) + x % Pow2(n) * Pow2(64 - n)
  }

  lemma RotatedRange(x: word, n: nat)
    requires 0 < n < 64
    ensures Pow2(n) * Pow2(64 - n) == TWO64
    ensures 0 <= x / Pow2(n) < Pow2(64 - n) && 0 <= x % Pow2(n) < Pow2(n)
    ensures 0 <= x / Pow2(n) + x % Pow2(n) * Pow2(64 - n) < TWO64
  {
    hide Pow2;
    Pow2Literals();
    Pow2Add(n, 64 - n);
    QuotientBelow(x, Pow2(n), Pow2(64 - n));
    NonNegativeQuotient(x, Pow2(n));
    RotatedSum(x / Pow2(n), x % Pow2(n), Pow2(n), Pow2(64 - n));
  }

  lemma RotatedSum(q: nat, r: nat, m: nat, k: nat)
    requires q < k && r < m
    ensures 0 <= q + r * k < m * k
  {
    assert r * k <= (m - 1) * k;
  }

  // ---- section 4.1.3 of FIPS 180-4 -----------------------------------------------------

  function Ch(x: word, y: word, z: word): word { Xor64(And64(x, y), And64(TWO64 - 1 - x, z)) }

  function Maj(x: word, y: word, z: word): word { Xor64(Xor64(And64(x, y), And64(x, z)), And64(y, z)) }

  function BigSigma0(x: word): word { Xor64(Xor64(Rotr(x, 28), Rotr(x, 34)), Rotr(x, 39)) }

  function BigSigma1(x: word): word { Xor64(Xor64(Rotr(x, 14), Rotr(x, 18)), Rotr(x, 41)) }

  function SmallSigma0(x: word): word { Xor64(Xor64(Rotr(x, 1), Rotr(x, 8)), Shr64(x, 7)) }

  function SmallSigma1(x: word): word { Xor64(Xor64(Rotr(x, 19), Rotr(x, 61)), Shr64(x, 6)) }

  // ---- section 6.4.2 of FIPS 180-4 -----------------------------------------------------

  function Word(s: seq<byte>): word
    requires |s| == 8
  {
    hide Pow2;
    BEBound(s);
    Pow2Literals();
    BE(s)
  }

  /** The message schedule. */
  function Schedule(block: seq<byte>, t: nat): word
    requires |block| == 128
  {
    if t < 16 then Word(block[8 * t..8 * t + 8])
    else Plus(Plus(Plus(SmallSigma1(Schedule(block, t - 2)), Schedule(block, t - 7)),
      SmallSigma0(Schedule(block, t - 15))),
              Schedule(block, t - 16))
  }

  /** The eight working variables. */
  datatype Vars = Vars(a: word, b: word, c: word, d: word, e: word, f: word, g: word, h: word)

  function Round(v: Vars, k: word, w: word): Vars {
    var t1 := Plus(Plus(Plus(Plus(v.h, BigSigma1(v.e)), Ch(v.e, v.f, v.g)), k), w);
    var t2 := Plus(BigSigma0(v.a), Maj(v.a, v.b, v.c));
    Vars(Plus(t1, t2), v.a, v.b, v.c, Plus(v.d, t1), v.e, v.f, v.g)
  }

  function Rounds(v: Vars, block: seq<byte>, t: nat): Vars
    requires |block| == 128 && t <= 80
  {
    if t == 0 then v else Round(Rounds(v, block, t - 1), RoundConstant(t - 1), Schedule(block, t - 1))
  }

  function Load(h: seq<word>): Vars
    requires |h| == 8
  {
    Vars(h[0], h[1], h[2], h[3], h[4], h[5], h[6], h[7])
  }

  /** One block: eighty rounds, then the feedback. */
  function Compress(h: seq<word>, block: seq<byte>): (r: seq<word>)
    requires |h| == 8 && |block| == 128
    ensures |r| == 8
  {
    var v := Rounds(Load(h), block, 80);
    [Plus(h[0], v.a), Plus(h[1], v.b), Plus(h[2], v.c), Plus(h[3], v.d),
     Plus(h[4], v.e), Plus(h[5], v.f), Plus(h[6], v.g), Plus(h[7], v.h)]
  }

  /** The chaining value after all blocks of a message of whole blocks. */
  function Absorb(m: seq<byte>): (h: seq<word>)
    requires |m| % 128 == 0
    ensures |h| == 8
  {
    if m == [] then IV else Compress(Absorb(m[..|m| - 128]), m[|m| - 128..])
  }

  /** How many zero bytes separate the 1 bit from the length field. */
  function PadZeros(len: nat): (n: nat)
    ensures n < 128 && (len + 1 + n + 16) % 128 == 0
  {
    (111 - len) % 128
  }

  /** A 1 bit, zeros and the length field. */
  function Padded(m: seq<byte>, bits: nat): (p: seq<byte>)
    ensures |p| % 128 == 0
  {
    m + [0x80] + Zeros(PadZeros(|m|)) + ToBE(bits, 16)
  }

  function StoreAll(h: seq<word>): (s: seq<byte>)
    ensures |s| == 8 * |h|
  {
    if h == [] then [] else StoreAll(h[..|h| - 1]) + ToBE(h[|h| - 1], 8)
  }

  /** The hash function, with the padding of section 5.1.2 of FIPS 180-4. */
  function Digest(m: seq<byte>): (s: seq<byte>)
    ensures |s| == 64
  {
    StoreAll(Absorb(Padded(m, 8 * |m|)))
  }

  /** What the code computes: it counts the message bits modulo 2^64. */
  function CodeDigest(m: seq<byte>): (s: seq<byte>)
    ensures |s| == 64
  {
    StoreAll(Absorb(Padded(m, 8 * |m| % TWO64)))
  }

  // ---- the macros of sha512.c ----------------------------------------------------------

  /** ROR64c: a right shift or-ed with a left shift. */
  function Ror64c(x: word, n: nat): (r: word)
    requires 0 < n < 64
    ensures r == Rotr(x, n)
  {
    hide Pow2, Or;
    RotatedRange(x, n);
    LeftShift(x, n);
    OrDisjoint(x / Pow2(n), x % Pow2(n), 64 - n);
    Or(x / Pow2(n), x * Pow2(64 - n) % TWO64)
  }

  lemma LeftShift(x: word, n: nat)
    requires 0 < n < 64
    ensures x * Pow2(64 - n) % TWO64 == x % Pow2(n) * Pow2(64 - n)
  {
    hide Pow2;
    RotatedRange(x, n);
    ModScale(0, x, Pow2(64 - n), Pow2(n), TWO64);
    assert Pow2(64 - n) * Pow2(n) == Pow2(n) * Pow2(64 - n);
    assert 0 + Pow2(64 - n) * x == x * Pow2(64 - n);
  }

  /** The macros Sigma0, Sigma1, Gamma0 and Gamma1, on the rotation macro. */
  function CodeBigSigma0(x: word): (r: word)
    ensures r == BigSigma0(x)
  {
    Xor64(Xor64(Ror64c(x, 28), Ror64c(x, 34)), Ror64c(x, 39))
  }

  function CodeBigSigma1(x: word): (r: word)
    ensures r == BigSigma1(x)
  {
    Xor64(Xor64(Ror64c(x, 14), Ror64c(x, 18)), Ror64c(x, 41))
  }

  function CodeSmallSigma0(x: word): (r: word)
    ensures r == SmallSigma0(x)
  {
    Xor64(Xor64(Ror64c(x, 1), Ror64c(x, 8)), Shr64(x, 7))
  }

  function CodeSmallSigma1(x: word): (r: word)
    ensures r == SmallSigma1(x)
  {
    Xor64(Xor64(Ror64c(x, 19), Ror64c(x, 61)), Shr64(x, 6))
  }

  /** m is 2^k - 1 for some k. */
  ghost predicate AllOnes(m: nat) { m == 0 || (m % 2 == 1 && AllOnes(m / 2)) }

  lemma {:induction false} OnesBelow(k: nat)
    ensures AllOnes(Pow2(k) - 1)
  {
    if k == 0 {
    } else {
      OnesBelow(k - 1);
      assert (Pow2(k) - 1) / 2 == Pow2(k - 1) - 1;
    }
  }

  /** z ^ (x & (y ^ z)) chooses between y and z as the standard's formula does. */
  lemma {:induction false} ChBits(x: nat, y: nat, z: nat, m: nat)
    requires AllOnes(m) && x <= m && y <= m && z <= m
    ensures Xor(y, z) >= 0
    ensures Xor(z, And(x, Xor(y, z))) == Xor(And(x, y), And(m - x, z))
    decreases m
  {
    XorNonNegative(y, z);
    if m == 0 {
      ChZero(x, y, z);
    } else {
      hide Xor, And;
      ChBits(x / 2, y / 2, z / 2, m / 2);
      ChStep(x, y, z, x / 2, y / 2, z / 2, x % 2, y % 2, z % 2, m, m / 2);
    }
  }

  lemma ChZero(x: nat, y: nat, z: nat)
    requires x == 0 && y == 0 && z == 0
    ensures Xor(y, z) == 0 && Xor(z, And(x, Xor(y, z))) == Xor(And(x, y), And(0, z))
  {
  }

  lemma ChStep(x: nat, y: nat, z: nat, x': nat, y': nat, z': nat, a: bit, b: bit, c: bit, m: nat, n: nat)
    requires x == 2 * x' + a && y == 2 * y' + b && z == 2 * z' + c && m == 2 * n + 1 && x <= m && x' <= n
    requires Xor(y', z') >= 0 && Xor(y, z) >= 0
    requires Xor(z', And(x', Xor(y', z'))) == Xor(And(x', y'), And(n - x', z'))
    ensures Xor(z, And(x, Xor(y, z))) == Xor(And(x, y), And(m - x, z))
  {
    ChBit(a, b, c);
    hide Xor, And, BitXor, BitAnd;
    XorBits(y, y', b, z, z', c);
    AndBits(x, x', a, Xor(y, z), Xor(y', z'), BitXor(b, c));
    XorBits(z, z', c, And(x, Xor(y, z)), And(x', Xor(y', z')), BitAnd(a, BitXor(b, c)));
    AndBits(x, x', a, y, y', b);
    AndBits(m - x, n - x', 1 - a, z, z', c);
    XorBits(And(x, y), And(x', y'), BitAnd(a, b), And(m - x, z), And(n - x', z'), BitAnd(1 - a, c));
  }

  lemma ChBit(a: bit, b: bit, c: bit)
    ensures BitXor(c, BitAnd(a, BitXor(b, c))) == BitXor(BitAnd(a, b), BitAnd(1 - a, c))
  {
  }

  /** ((x | y) & z) | (x & y) is the majority of three bits. */
  lemma {:induction false} MajBits(x: nat, y: nat, z: nat)
    ensures Xor(And(x, y), And(x, z)) >= 0
    ensures Or(And(Or(x, y), z), And(x, y)) == Xor(Xor(And(x, y), And(x, z)), And(y, z))
    decreases x + y + z
  {
    XorNonNegative(And(x, y), And(x, z));
    if x + y + z == 0 {
    } else {
      MajBits(x / 2, y / 2, z / 2);
      MajStep(x, y, z, x / 2, y / 2, z / 2, x % 2, y % 2, z % 2);
    }
  }

  lemma MajStep(x: nat, y: nat, z: nat, x': nat, y': nat, z': nat, a: bit, b: bit, c: bit)
    requires x == 2 * x' + a && y == 2 * y' + b && z == 2 * z' + c
    requires Xor(And(x', y'), And(x', z')) >= 0 && Xor(And(x, y), And(x, z)) >= 0
    requires Or(And(Or(x', y'), z'), And(x', y')) == Xor(Xor(And(x', y'), And(x', z')), And(y', z'))
    ensures Or(And(Or(x, y), z), And(x, y)) == Xor(Xor(And(x, y), And(x, z)), And(y, z))
  {
    MajBit(a, b, c);
    hide Xor, And, Or, BitXor, BitAnd, BitOr;
    OrBits(x, x', a, y, y', b);
    AndBits(Or(x, y), Or(x', y'), BitOr(a, b), z, z', c);
    AndBits(x, x', a, y, y', b);
    AndBits(x, x', a, z, z', c);
    AndBits(y, y', b, z, z', c);
    OrBits(And(Or(x, y), z), And(Or(x', y'), z'), BitAnd(BitOr(a, b), c), And(x, y), And(x', y'), BitAnd(a, b));
    XorBits(And(x, y), And(x', y'), BitAnd(a, b), And(x, z), And(x', z'), BitAnd(a, c));
    XorBits(Xor(And(x, y), And(x, z)), Xor(And(x', y'), And(x', z')), BitXor(BitAnd(a, b), BitAnd(a, c)),
      And(y, z), And(y', z'), BitAnd(b, c));
  }

  lemma MajBit(a: bit, b: bit, c: bit)
    ensures BitOr(BitAnd(BitOr(a, b), c), BitAnd(a, b)) == BitXor(BitXor(BitAnd(a, b), BitAnd(a, c)), BitAnd(b, c))
  {
  }

  function CodeCh(x: word, y: word, z: word): (r: word)
    ensures r == Ch(x, y, z)
  {
    hide Xor, And, Pow2, AllOnes;
    Pow2Literals();
    OnesBelow(64);
    ChBits(x, y, z, TWO64 - 1);
    Xor64(z, And64(x, Xor64(y, z)))
  }

  function CodeMaj(x: word, y: word, z: word): (r: word)
    ensures r == Maj(x, y, z)
  {
    hide Xor, And, Or;
    MajBits(x, y, z);
    Or64(And64(Or64(x, y), z), And64(x, y))
  }

  lemma {:induction false} OrCommutes(x: nat, y: nat)
    ensures Or(x, y) == Or(y, x)
  {
    if x == 0 || y == 0 {
    } else {
      OrCommutes(x / 2, y / 2);
    }
  }

  /** x << n. */
  function Shl(x: nat, n: nat): (r: nat)
  {
    NonNegativeProduct(x, Pow2(n));
    x * Pow2(n)
  }

  /** The next byte of a big-endian load. */
  lemma LoadStep(v: nat, b: byte, n: nat)
    ensures Or(Shl(v, n + 8), Shl(b, n)) == Shl(256 * v + b, n)
  {
    hide Or, Pow2;
    Pow2Add(8, n);
    Pow2Small();
    OrCommutes(Shl(v, n + 8), Shl(b, n));
    ByteBelow(b, Pow2(n));
    OrDisjoint(Shl(b, n), v, n + 8);
    LoadSum(v, b, Pow2(n));
  }

  lemma ByteBelow(b: nat, n: nat)
    requires b < 256 && n > 0
    ensures 0 <= b * n < 256 * n
  {
  }

  lemma LoadSum(v: int, b: int, n: int)
    ensures b * n + v * (256 * n) == (256 * v + b) * n
  {
  }

  /** The first j terms of the disjunction in LOAD64H. */
  function LoadBytes(s: seq<byte>, j: nat): nat
    requires |s| == 8 && 1 <= j <= 8
  {
    if j == 1 then Shl(s[0], 56) else Or(LoadBytes(s, j - 1), Shl(s[j - 1], 64 - 8 * j))
  }

  lemma {:induction false} LoadValue(s: seq<byte>, j: nat)
    requires |s| == 8 && 1 <= j <= 8
    ensures LoadBytes(s, j) == Shl(BE(s[..j]), 64 - 8 * j)
  {
    BELast(s, j - 1);
    hide Or, Shl, BE;
    if j == 1 {
      assert BE(s[..0]) == 0 by { NoBytes(); }
    } else {
      LoadValue(s, j - 1);
      LoadStep(BE(s[..j - 1]), s[j - 1], 64 - 8 * j);
    }
  }

  lemma NoBytes()
    ensures BE([]) == 0
  {
  }

  /** LOAD64H */
  function Load64H(s: seq<byte>): (r: word)
    requires |s| == 8
    ensures r == Word(s)
  {
    hide LoadBytes, BE, Shl;
    LoadValue(s, 8);
    assert s[..8] == s;
    ShiftedByZero(BE(s));
    assert Word(s) == BE(s);
    LoadBytes(s, 8)
  }

  lemma ShiftedByZero(x: nat)
    ensures Shl(x, 0) == x
  {
  }

  /** (x >> n) & 255 */
  function StoreByte(x: word, n: nat): (b: byte)
    ensures b == Shr(x, n) % 256
  {
    hide And, Pow2, Shr;
    AndMask(Shr(x, n), 8);
    assert Pow2(8) == 256 by { Pow2Small(); }
    And(Shr(x, n), 255)
  }

  /** STORE64H */
  function Store64H(x: word): (s: seq<byte>)
    ensures s == ToBE(x, 8)
  {
    hide StoreByte, Shr, ToBE;
    var s := seq(8, i requires 0 <= i < 8 => StoreByte(x, 56 - 8 * i));
    assert forall i :: 0 <= i < 8 ==> s[i] == ToBE(x, 8)[i] by {
      forall i | 0 <= i < 8 ensures s[i] == ToBE(x, 8)[i] {
        ToBEIndex(x, 8, i);
      }
    }
    s
  }

  // ---- sha512_compress -----------------------------------------------------------------

  /** A round shifts six of the working variables down by one role. */
  lemma RoundShifts(v: Vars, k: word, w: word)
    ensures var r := Round(v, k, w); r == Vars(r.a, v.a, v.b, v.c, r.e, v.e, v.f, v.g)
  {
  }

  lemma RoundsNext(v: Vars, block: seq<byte>, t: nat)
    requires |block| == 128 && t < 80
    ensures var u := Rounds(v, block, t); var r := Rounds(v, block, t + 1);
      && r == Round(u, RoundConstant(t), Schedule(block, t))
      && r == Vars(r.a, u.a, u.b, u.c, r.e, u.e, u.f, u.g)
  {
    hide RoundConstant;
    RoundShifts(Rounds(v, block, t), RoundConstant(t), Schedule(block, t));
  }

  /** The macro RND: only d and h change. */
  method Rnd(S: array<word>, a: nat, b: nat, c: nat, d: nat, e: nat, f: nat, g: nat, h: nat, k: word, w: word)
    requires S.Length == 8 && a < 8 && b < 8 && c < 8 && d < 8 && e < 8 && f < 8 && g < 8 && h < 8 && d != h
    modifies S
    ensures var v := Round(Vars(old(S[a]), old(S[b]), old(S[c]), old(S[d]), old(S[e]), old(S[f]), old(S[g]), old(S[h])),
      k, w);
      S[..] == old(S[..])[d := v.e][h := v.a]
  {
    hide Plus, BigSigma0, BigSigma1, CodeBigSigma0, CodeBigSigma1, Ch, Maj, CodeCh, CodeMaj;
    var t0 := Plus(Plus(Plus(Plus(S[h], CodeBigSigma1(S[e])), CodeCh(S[e], S[f], S[g])), k), w);
    var t1 := Plus(CodeBigSigma0(S[a]), CodeMaj(S[a], S[b], S[c]));
    S[d] := Plus(S[d], t0);
    S[h] := Plus(t0, t1);
  }

  /** The message schedule in an array. */
  method Expand(block: seq<byte>) returns (W: array<word>)
    requires |block| == 128
    ensures fresh(W) && W.Length == 80 && forall t :: 0 <= t < 80 ==> W[t] == Schedule(block, t)
  {
    hide SmallSigma0, SmallSigma1, CodeSmallSigma0, CodeSmallSigma1, Plus, Word, Load64H;
    W := new word[80];
    for i := 0 to 16
      invariant forall t :: 0 <= t < i ==> W[t] == Schedule(block, t)
    {
      W[i] := Load64H(block[8 * i..8 * i + 8]);
    }
    for i := 16 to 80
      invariant forall t :: 0 <= t < i ==> W[t] == Schedule(block, t)
    {
      W[i] := Plus(Plus(Plus(CodeSmallSigma1(W[i - 2]), W[i - 7]), CodeSmallSigma0(W[i - 15])), W[i - 16]);
    }
  }

  /** Eight rounds, after which the roles are back in place. */
  method EightRounds(S: array<word>, W: seq<word>, i: nat, ghost v: Vars, ghost block: seq<byte>)
    requires S.Length == 8 && |W| == 80 && i % 8 == 0 && i + 8 <= 80 && |block| == 128
    requires forall t :: 0 <= t < 80 ==> W[t] == Schedule(block, t)
    requires Load(S[..]) == Rounds(v, block, i)
    modifies S
    ensures Load(S[..]) == Rounds(v, block, i + 8)
  {
    hide Round, Rounds, Schedule, RoundConstant;
    RoundsNext(v, block, i);
    Rnd(S, 0, 1, 2, 3, 4, 5, 6, 7, RoundConstant(i), W[i]);
    assert Vars(S[7], S[0], S[1], S[2], S[3], S[4], S[5], S[6]) == Rounds(v, block, i + 1);
    RoundsNext(v, block, i + 1);
    Rnd(S, 7, 0, 1, 2, 3, 4, 5, 6, RoundConstant(i + 1), W[i + 1]);
    assert Vars(S[6], S[7], S[0], S[1], S[2], S[3], S[4], S[5]) == Rounds(v, block, i + 2);
    RoundsNext(v, block, i + 2);
    Rnd(S, 6, 7, 0, 1, 2, 3, 4, 5, RoundConstant(i + 2), W[i + 2]);
    assert Vars(S[5], S[6], S[7], S[0], S[1], S[2], S[3], S[4]) == Rounds(v, block, i + 3);
    RoundsNext(v, block, i + 3);
    Rnd(S, 5, 6, 7, 0, 1, 2, 3, 4, RoundConstant(i + 3), W[i + 3]);
    assert Vars(S[4], S[5], S[6], S[7], S[0], S[1], S[2], S[3]) == Rounds(v, block, i + 4);
    RoundsNext(v, block, i + 4);
    Rnd(S, 4, 5, 6, 7, 0, 1, 2, 3, RoundConstant(i + 4), W[i + 4]);
    assert Vars(S[3], S[4], S[5], S[6], S[7], S[0], S[1], S[2]) == Rounds(v, block, i + 5);
    RoundsNext(v, block, i + 5);
    Rnd(S, 3, 4, 5, 6, 7, 0, 1, 2, RoundConstant(i + 5), W[i + 5]);
    assert Vars(S[2], S[3], S[4], S[5], S[6], S[7], S[0], S[1]) == Rounds(v, block, i + 6);
    RoundsNext(v, block, i + 6);
    Rnd(S, 2, 3, 4, 5, 6, 7, 0, 1, RoundConstant(i + 6), W[i + 6]);
    assert Vars(S[1], S[2], S[3], S[4], S[5], S[6], S[7], S[0]) == Rounds(v, block, i + 7);
    RoundsNext(v, block, i + 7);
    Rnd(S, 1, 2, 3, 4, 5, 6, 7, 0, RoundConstant(i + 7), W[i + 7]);
    assert Vars(S[0], S[1], S[2], S[3], S[4], S[5], S[6], S[7]) == Rounds(v, block, i + 8);
  }

  /** sha512_compress: mixes one block into the state. */
  method Sha512Compress(state: array<word>, block: seq<byte>)
    requires state.Length == 8 && |block| == 128
    modifies state
    ensures state[..] == Compress(old(state[..]), block)
  {
    hide Rounds, Schedule, Plus;
    var S := new word[8];
    for i := 0 to 8
      invariant S[..i] == state[..i] && state[..] == old(state[..])
    {
      S[i] := state[i];
    }
    assert S[..] == state[..];
    var W := Expand(block);
    ghost var v := Load(S[..]);
    assert v == Rounds(v, block, 0) by { NoRounds(v, block); }
    var i := 0;
    while i < 80
      invariant 0 <= i <= 80 && i % 8 == 0 && state[..] == old(state[..])
      invariant forall t :: 0 <= t < 80 ==> W[t] == Schedule(block, t)
      invariant Load(S[..]) == Rounds(v, block, i)
    {
      EightRounds(S, W[..], i, v, block);
      i := i + 8;
    }
    ghost var was, r := state[..], S[..];
    for i := 0 to 8
      invariant S[..] == r
      invariant forall j :: 0 <= j < 8 ==> state[j] == if j < i then Plus(was[j], r[j]) else was[j]
    {
      state[i] := Plus(state[i], S[i]);
    }
    assert state[..] == Compress(was, block);
  }

  lemma NoRounds(v: Vars, block: seq<byte>)
    requires |block| == 128
    ensures v == Rounds(v, block, 0)
  {
  }

  // ---- messages in any split -----------------------------------------------------------

  lemma AbsorbNext(m: seq<byte>, block: seq<byte>)
    requires |m| % 128 == 0 && |block| == 128
    ensures Absorb(m + block) == Compress(Absorb(m), block)
  {
    hide Compress;
    var n := m + block;
    assert n[..|n| - 128] == m && n[|n| - 128..] == block;
  }

  /** A context with chaining value h, buffered bytes tail and bit count length has hashed m. */
  ghost predicate Represents(h: seq<word>, tail: seq<byte>, length: nat, m: seq<byte>) {
    && |h| == 8 && |tail| == |m| % 128
    && h == Absorb(m[..|m| - |tail|]) && tail == m[|m| - |tail|..]
    && length == BitCount(|m| - |tail|)
  }

  function BitCount(n: nat): nat { 8 * n % TWO64 }

  lemma NothingHashed()
    ensures Represents(IV, [], 0, [])
  {
  }

  lemma Extends(h: seq<word>, tail: seq<byte>, length: nat, m: seq<byte>, chunk: seq<byte>)
    requires Represents(h, tail, length, m) && |tail| + |chunk| < 128
    ensures Represents(h, tail + chunk, length, m + chunk)
  {
    hide Absorb, BitCount;
    var n := m + chunk;
    SameBlock(|m|, |tail|, |chunk|);
    assert |n| - |tail + chunk| == |m| - |tail|;
    assert n[..|n| - |tail + chunk|] == m[..|m| - |tail|];
    assert n[|n| - |tail + chunk|..] == tail + chunk;
  }

  lemma SameBlock(n: nat, c: nat, k: nat)
    requires c == n % 128 && c + k < 128
    ensures (n + k) % 128 == c + k
  {
  }

  lemma Completes(h: seq<word>, tail: seq<byte>, length: nat, m: seq<byte>, chunk: seq<byte>)
    requires Represents(h, tail, length, m) && |tail| + |chunk| == 128
    ensures Represents(Compress(h, tail + chunk), [], (length + 8 * 128) % TWO64, m + chunk)
  {
    hide Absorb, Compress, BitCount;
    var whole, n := m[..|m| - |tail|], m + chunk;
    WholeBlocks(|m|, |tail|);
    AbsorbNext(whole, tail + chunk);
    assert n == whole + (tail + chunk) && n[..|n|] == n;
    CountBlock(|whole|);
  }

  lemma WholeBlocks(n: nat, c: nat)
    requires c == n % 128
    ensures (n - c) % 128 == 0 && (n - c + 128) % 128 == 0
  {
  }

  lemma CountBlock(n: nat)
    ensures (BitCount(n) + 8 * 128) % TWO64 == BitCount(n + 128)
  {
  }

  lemma FinalCount(h: seq<word>, tail: seq<byte>, length: nat, m: seq<byte>)
    requires Represents(h, tail, length, m)
    ensures |tail| < 128 && (length + |tail| * 8) % TWO64 == 8 * |m| % TWO64
  {
    hide Absorb;
    CountBytes(|m|, |tail|);
  }

  lemma CountBytes(n: nat, c: nat)
    requires c <= n
    ensures (8 * (n - c) % TWO64 + c * 8) % TWO64 == 8 * n % TWO64
  {
  }

  /** The padded message ends in one block or in two, as the buffer has room for the length. */
  lemma FinalBlocks(h: seq<word>, tail: seq<byte>, length: nat, m: seq<byte>, bits: nat)
    requires Represents(h, tail, length, m) && bits < TWO64
    ensures var last := tail + [0x80];
      && |last| <= 128
      && (|last| <= 112 ==> Absorb(Padded(m, bits)) == Compress(h, last + Zeros(120 - |last|) + ToBE(bits, 8)))
      && (|last| > 112 ==> Absorb(Padded(m, bits)) == Compress(Compress(h, last + Zeros(128 - |last|)), Zeros(120)
        + ToBE(bits, 8)))
  {
    hide Absorb, Compress, ToBE, Padded;
    var whole, last := m[..|m| - |tail|], tail + [0x80];
    if |last| <= 112 {
      OneBlockLeft(whole, tail, m, bits);
      AbsorbNext(whole, last + Zeros(120 - |last|) + ToBE(bits, 8));
    } else {
      TwoBlocksLeft(whole, tail, m, bits);
      AbsorbNext(whole, last + Zeros(128 - |last|));
      AbsorbNext(whole + (last + Zeros(128 - |last|)), Zeros(120) + ToBE(bits, 8));
    }
  }

  lemma LengthField(bits: nat)
    requires bits < TWO64
    ensures ToBE(bits, 16) == Zeros(8) + ToBE(bits, 8)
  {
    hide ToBE, Pow2;
    Pow2Literals();
    WideBE(bits, 8, 8);
  }

  lemma OneBlockLeft(whole: seq<byte>, tail: seq<byte>, m: seq<byte>, bits: nat)
    requires m == whole + tail && |tail| == |m| % 128 < 112 && bits < TWO64
    ensures var last := tail + [0x80]; Padded(m, bits) == whole + (last + Zeros(120 - |last|) + ToBE(bits, 8))
  {
    hide ToBE, PadZeros;
    LengthField(bits);
    PadCount(|m|, |tail|);
    assert Zeros(120 - (|tail| + 1)) == Zeros(111 - |tail|) + Zeros(8);
  }

  lemma TwoBlocksLeft(whole: seq<byte>, tail: seq<byte>, m: seq<byte>, bits: nat)
    requires m == whole + tail && 112 <= |tail| == |m| % 128 && bits < TWO64
    ensures var last := tail + [0x80];
      Padded(m, bits) == (whole + (last + Zeros(128 - |last|))) + (Zeros(120) + ToBE(bits, 8))
  {
    hide ToBE, PadZeros;
    LengthField(bits);
    PadCount(|m|, |tail|);
    assert Zeros(239 - |tail|) + Zeros(8) == Zeros(128 - (|tail| + 1)) + Zeros(120);
  }

  lemma PadCount(n: nat, c: nat)
    requires c == n % 128
    ensures PadZeros(n) == if c < 112 then 111 - c else 239 - c
  {
  }

  lemma CodeIsDigest(m: seq<byte>)
    ensures 8 * |m| < TWO64 ==> CodeDigest(m) == Digest(m)
  {
    hide Absorb, Padded, StoreAll;
    ModSmall(8 * |m|);
  }

  /** The padding keeps 64 bits of the length, which is the standard's padding exactly below 2^64 bits. */
  lemma PaddingIsStandard(m: seq<byte>)
    requires 8 * |m| < Pow2(128)
    ensures Padded(m, BitCount(|m|)) == Padded(m, 8 * |m|) <==> 8 * |m| < TWO64
  {
    hide Pow2, ToBE, BE;
    var n, x, y := |m|, BitCount(|m|), 8 * |m|;
    ModSmall(y);
    var head := m + [0x80] + Zeros(PadZeros(n));
    assert Padded(m, x) == head + ToBE(x, 16) && Padded(m, y) == head + ToBE(y, 16);
    if Padded(m, x) == Padded(m, y) {
      assert ToBE(x, 16) == Padded(m, x)[|head|..] == Padded(m, y)[|head|..] == ToBE(y, 16);
      BEOfToBE(x, 16);
      BEOfToBE(y, 16);
    }
  }

  lemma ModSmall(n: nat)
    ensures n % TWO64 <= n
    ensures n < TWO64 <==> n % TWO64 == n
  {
  }

  class Sha512Context {
    var length: nat
    var curlen: nat
    const state: array<word>
    const buf: array<byte>
    /** Everything hashed so far. */
    ghost var message: seq<byte>

    ghost predicate Valid()
      reads this, state, buf
    {
      && state.Length == 8 && buf.Length == 128 && curlen < 128
      && Represents(state[..], buf[..curlen], length, message)
    }

    /** sha512_init */
    constructor ()
      ensures Valid() && message == [] && fresh(state) && fresh(buf)
    {
      length, curlen, message := 0, 0, [];
      state := new word[8](i requires 0 <= i < 8 => IV[i]);
      buf := new byte[128](_ => 0);
      new;
      assert state[..] == IV;
      NothingHashed();
    }

    /** sha512_update */
    method Update(input: seq<byte>)
      requires Valid()
      modifies this, state, buf
      ensures Valid() && message == old(message) + input
    {
      hide Represents;
      var pos := 0;
      while pos < |input|
        invariant 0 <= pos <= |input|
        invariant Valid() && message == old(message) + input[..pos]
      {
        if curlen == 0 && |input| - pos >= 128 {
          WholeBlock(input[pos..pos + 128]);
          assert input[..pos] + input[pos..pos + 128] == input[..pos + 128];
          pos := pos + 128;
        } else {
          var n := if |input| - pos < 128 - curlen then |input| - pos else 128 - curlen;
          Buffer(input[pos..pos + n]);
          assert input[..pos] + input[pos..pos + n] == input[..pos + n];
          pos := pos + n;
        }
      }
      assert input[..pos] == input;
    }

    /** The first branch of the loop: a block straight from the input. */
    method WholeBlock(block: seq<byte>)
      requires Valid() && curlen == 0 && |block| == 128
      modifies this, state
      ensures Valid() && message == old(message) + block
    {
      hide Represents, Compress;
      assert buf[..curlen] == [] && [] + block == block;
      Completes(state[..], [], length, message, block);
      Sha512Compress(state, block);
      length := (length + 128 * 8) % TWO64;
      message := message + block;
    }

    /** The second branch: fill the buffer, and compress it when it is full. */
    method Buffer(chunk: seq<byte>)
      requires Valid() && |chunk| > 0 && |chunk| + curlen <= 128
      modifies this, state, buf
      ensures Valid() && message == old(message) + chunk
    {
      hide Represents, Compress;
      ghost var tail := buf[..curlen];
      Fill(chunk);
      message := message + chunk;
      if curlen == 128 {
        Completes(state[..], tail, length, old(message), chunk);
        assert buf[..curlen] == buf[..];
        Sha512Compress(state, buf[..]);
        length := (length + 8 * 128) % TWO64;
        curlen := 0;
        assert buf[..curlen] == [];
      } else {
        Extends(state[..], tail, length, old(message), chunk);
      }
    }

    /** The inner loop of the second branch. */
    method Fill(chunk: seq<byte>)
      requires buf.Length == 128 && |chunk| + curlen <= 128
      modifies this`curlen, buf
      ensures curlen == old(curlen) + |chunk|
      ensures buf[..curlen] == old(buf[..curlen]) + chunk
    {
      for i := 0 to |chunk|
        invariant curlen == old(curlen)
        invariant buf[..curlen] == old(buf[..curlen]) && buf[curlen..curlen + i] == chunk[..i]
      {
        buf[i + curlen] := chunk[i];
      }
      assert buf[..curlen + |chunk|] == buf[..curlen] + buf[curlen..curlen + |chunk|];
      curlen := curlen + |chunk|;
    }

    /** The padding loops of sha512_final: zeros up to position end. */
    method ZeroFill(end: nat)
      requires buf.Length == 128 && curlen <= end <= 128
      modifies this`curlen, buf
      ensures curlen == end && buf[..end] == old(buf[..curlen]) + Zeros(end - old(curlen))
    {
      ghost var start := curlen;
      while curlen < end
        invariant start <= curlen <= end
        invariant buf[..start] == old(buf[..curlen]) && forall i :: start <= i < curlen ==> buf[i] == 0
      {
        buf[curlen] := 0;
        curlen := curlen + 1;
      }
      assert buf[..end] == buf[..start] + buf[start..end];
      assert buf[start..end] == Zeros(end - start);
    }

    /** sha512_final */
    method Final() returns (out: seq<byte>)
      requires Valid()
      modifies this, state, buf
      ensures out == CodeDigest(message) && message == old(message)
      ensures 8 * |message| < TWO64 ==> out == Digest(message)
    {
      hide Represents, Absorb;
      Pad();
      out := Output();
      CodeIsDigest(message);
    }

    /** The last blocks. */
    method Pad()
      requires Valid()
      modifies this, state, buf
      ensures message == old(message) && state.Length == 8 && state[..] == Absorb(Padded(message,
        8 * |message| % TWO64))
    {
      hide Represents, Compress, Absorb, Padded, ToBE;
      ghost var h, tail := state[..], buf[..curlen];
      FinalCount(h, tail, length, message);
      length := (length + curlen * 8) % TWO64;
      FinalBlocks(h, tail, old(length), message, length);
      ghost var last := tail + [0x80];
      buf[curlen] := 0x80;
      curlen := curlen + 1;
      assert buf[..curlen] == last;
      if curlen > 112 {
        ZeroFill(128);
        assert buf[..128] == buf[..];
        Sha512Compress(state, buf[..]);
        curlen := 0;
        assert buf[..curlen] + Zeros(120) == Zeros(120);
      }
      LengthBlock();
    }

    /** Zeros up to the length field, then the length. */
    method LengthBlock()
      requires state.Length == 8 && buf.Length == 128 && curlen <= 120 && length < TWO64
      modifies this`curlen, buf, state
      ensures state[..] == Compress(old(state[..]), old(buf[..curlen]) + Zeros(120 - old(curlen)) + ToBE(length, 8))
    {
      hide Compress;
      ghost var rest := buf[..curlen];
      ZeroFill(120);
      var len := Store64H(length);
      for i := 0 to 8
        invariant state[..] == old(state[..])
        invariant buf[..120] == rest + Zeros(120 - |rest|) && buf[120..120 + i] == len[..i]
      {
        buf[120 + i] := len[i];
      }
      assert len[..8] == len && buf[120..120 + 8] == buf[120..];
      assert buf[..] == buf[..120] + buf[120..];
      Sha512Compress(state, buf[..]);
    }

    /** The chaining value, big-endian. */
    method Output() returns (out: seq<byte>)
      requires state.Length == 8
      ensures out == StoreAll(state[..])
    {
      out := [];
      for i := 0 to 8
        invariant out == StoreAll(state[..i])
      {
        var bytes := Store64H(state[i]);
        assert state[..i + 1][..i] == state[..i];
        out := out + bytes;
      }
      assert state[..8] == state[..];
    }
  }
}
