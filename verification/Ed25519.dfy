/** Signing, verification and key blinding (sign.c, verify.c, add_scalar.c), sections 5.1.6 and
  * 5.1.7 of RFC 8032. The tables of precomp_data.h are arguments. */
module Ed25519 {
  import opened Bytes
  import opened Bits
  import opened Modular
  import opened Radix
  import opened Field
  import opened FieldBytes
  import opened Edwards
  import opened ScalarMultiples
  import opened Points
  import opened PointBytes
  import opened Recode
  import opened ScalarMult
  import Sc
  import opened ScBytes
  import opened Sha512

  /** The base point has order l, up to divisors. */
  ghost predicate BaseOrder() { Mul(Sc.L, BASE) == IDENTITY }

  lemma OrderBound()
    ensures Sc.L < Pow2(253)
  {
    hide Pow2;
    Pow2Literals();
    Pow2Add(253, 2);
    Pow2Small();
  }

  // ---- signatures ----------------------------------------------------------------------

  /** A hash, as a scalar. */
  function HashScalar(m: seq<byte>): (r: nat)
    ensures r < Sc.L
  {
    LE(CodeDigest(m)) % Sc.L
  }

  /** The signature of section 5.1.6 of RFC 8032, from an expanded private key. */
  ghost function Signature(message: seq<byte>, publicKey: seq<byte>, privateKey: seq<byte>): seq<byte>
    requires |privateKey| == 64 && PrimeField()
  {
    var r := HashScalar(privateKey[32..] + message);
    BaseMultipleOnCurve(r);
    var R := Encode(Mul(r, BASE));
    var h := HashScalar(R + publicKey + message);
    R + ToLE((h * LE(privateKey[..32]) + r) % Sc.L, 32)
  }

  lemma BaseMultipleOnCurve(n: int)
    requires PrimeField()
    ensures OnCurve(Mul(n, BASE)) && 0 <= Mul(n, BASE).y < P
  {
    hide OnCurve, Mul;
    BaseOnCurve();
    MulOnCurve(n, BASE);
    CurveRange(Mul(n, BASE));
  }

  /** The low half of a reduced hash: a scalar below l, whose last byte is small. */
  lemma ReducedBytes(s: seq<byte>)
    requires |s| == 32 && LE(s) < Sc.L
    ensures s[31] < 32 && s == ToLE(LE(s), 32) && LE(s) <= Pow2(253)
  {
    hide LE, ToLE, Pow2;
    OrderBound();
    Pow2Literals();
    LastByte(s);
    ToLEValue(LE(s), 32);
    LEInjective(s, ToLE(LE(s), 32));
  }

  method Ed25519Sign(signature: array<byte>, message: seq<byte>, publicKey: seq<byte>, privateKey: seq<byte>,
    base: seq<seq<GePrecomp>>)
    requires Curve() && IsBase(base)
    requires signature.Length == 64 && |publicKey| == 32 && |privateKey| == 64
    modifies signature
    ensures signature[..] == Signature(message, publicKey, privateKey)
  {
    hide LE, ToLE, Pow2, Mul, Add, OnCurve, IsP3, IsBase, Fermat, NonSquare, Associative, CodeDigest;
    var r := HashTwo(privateKey[32..], message);
    ghost var nonce := LE(r[..]) % Sc.L;
    ScReduce(r);
    ReducedBytes(r[..32]);
    BaseMultipleOnCurve(nonce);
    var R := GeScalarmultBase(r[..32], base);
    var encoded := GeP3ToBytes(R, Mul(nonce, BASE));
    Write(signature, 0, encoded);
    assert signature[..32] == encoded;
    var hram := HashThree(signature[..32], publicKey, message);
    ghost var h := LE(hram[..]) % Sc.L;
    ScReduce(hram);
    var s := ScMuladd(hram[..32], privateKey[..32], r[..32]);
    ReducedBytes(s);
    Write(signature, 32, s);
    assert signature[..32] == encoded && signature[32..64] == s;
    assert signature[..] == signature[..32] + signature[32..64];
  }

  /** Copies a buffer into place. */
  method Write(a: array<byte>, at: nat, s: seq<byte>)
    requires at + |s| <= a.Length
    modifies a
    ensures a[..at] == old(a[..at]) && a[at..at + |s|] == s && a[at + |s|..] == old(a[at + |s|..])
  {
    for i := 0 to |s|
      invariant a[..at] == old(a[..at]) && a[at..at + i] == s[..i] && a[at + |s|..] == old(a[at + |s|..])
    {
      a[at + i] := s[i];
    }
  }

  /** sha512_init, two updates, sha512_final. */
  method HashTwo(x: seq<byte>, y: seq<byte>) returns (out: array<byte>)
    ensures fresh(out) && out.Length == 64 && out[..] == CodeDigest(x + y)
  {
    hide *;
    var hash := new Sha512Context();
    hash.Update(x);
    hash.Update(y);
    assert hash.message == x + y;
    var digest := hash.Final();
    out := new byte[64](_ => 0);
    Write(out, 0, digest);
    assert out[..] == digest;
  }

  /** sha512_init, three updates, sha512_final. */
  method HashThree(x: seq<byte>, y: seq<byte>, z: seq<byte>) returns (out: array<byte>)
    ensures fresh(out) && out.Length == 64 && out[..] == CodeDigest(x + y + z)
  {
    hide *;
    var hash := new Sha512Context();
    hash.Update(x);
    hash.Update(y);
    hash.Update(z);
    assert hash.message == x + y + z;
    var digest := hash.Final();
    out := new byte[64](_ => 0);
    Write(out, 0, digest);
    assert out[..] == digest;
  }

  // ---- verification --------------------------------------------------------------------

  /** The hash h of R, the public key and the message, which section 5.1.7 of RFC 8032 calls k. */
  function Challenge(signature: seq<byte>, message: seq<byte>, publicKey: seq<byte>): nat
    requires |signature| == 64
  {
    HashScalar(signature[..32] + publicKey + message)
  }

  /** The point that verification compares with R: S B - h A. */
  ghost function Checker(signature: seq<byte>, message: seq<byte>, publicKey: seq<byte>, A: Point): Point
    requires |signature| == 64
  {
    Combine(Challenge(signature, message, publicKey), Neg(A), LE(signature[32..]), BASE)
  }

  ghost predicate AcceptsWith(signature: seq<byte>, message: seq<byte>, publicKey: seq<byte>, A: Point)
    requires |signature| == 64 && |publicKey| == 32 && PrimeField()
  {
    && Decodes(publicKey, A)
    && OnCurve(Checker(signature, message, publicKey, A))
    && Encode(Checker(signature, message, publicKey, A)) == signature[..32]
  }

  /** The check that the code makes: the top three bits of S are clear, the public key decodes to
    * some A, and S B - h A encodes to the first half of the signature. */
  ghost predicate Accepts(signature: seq<byte>, message: seq<byte>, publicKey: seq<byte>)
    requires |signature| == 64 && |publicKey| == 32 && PrimeField()
  {
    signature[63] < 32 && exists A :: AcceptsWith(signature, message, publicKey, A)
  }

  /** signature[63] & 224 */
  lemma TopThreeBits(x: byte)
    ensures And(x, 224) == 0 <==> x < 32
  {
    HighBits(x);
    assert Pow2(3) == 8;
    AndMask(x / 32, 3);
    hide And, Pow2;
    ThreeBits(x, And(x, 224));
  }

  lemma HighBits(x: nat)
    ensures And(x, 224) == 32 * And(x / 32, 7)
  {
    var x1, x2, x3, x4 := x / 2, x / 4, x / 8, x / 16;
    hide And;
    AndEven(x, 112);
    AndEven(x1, 56);
    AndEven(x2, 28);
    AndEven(x3, 14);
    AndEven(x4, 7);
    assert x1 / 2 == x2 && x2 / 2 == x3 && x3 / 2 == x4 && x4 / 2 == x / 32;
  }

  lemma ThreeBits(x: nat, v: nat)
    requires x < 256 && v == 32 * (x / 32 % 8)
    ensures v == 0 <==> x < 32
  {
  }

  lemma AndEven(x: nat, m: nat)
    ensures And(x, 2 * m) == 2 * And(x / 2, m)
  {
  }

  lemma SmallScalar(s: seq<byte>)
    requires |s| == 32 && s[31] < 32
    ensures LE(s) <= Pow2(253)
  {
    hide LE, Pow2;
    LastByte(s);
    Pow2Literals();
    Pow2Add(253, 2);
    Pow2Small();
  }

  /** consttime_equal: an or over the xors of all bytes. */
  method ConsttimeEqual(x: seq<byte>, y: seq<byte>) returns (equal: bool)
    requires |x| == |y| == 32
    ensures equal == (x == y)
  {
    hide Or, Xor;
    var r: nat := XorByte(x[0], y[0]);
    for i := 1 to 32
      invariant r == 0 <==> x[..i] == y[..i]
    {
      OrZero(r, XorByte(x[i], y[i]));
      r := Or(r, XorByte(x[i], y[i]));
      assert x[..i + 1] == x[..i] + [x[i]] && y[..i + 1] == y[..i] + [y[i]];
    }
    assert x[..32] == x && y[..32] == y;
    equal := r == 0;
  }

  function XorByte(x: byte, y: byte): (r: nat)
    ensures r == 0 <==> x == y
  {
    XorNonNegative(x, y);
    XorIsZero(x, y);
    Xor(x, y)
  }

  method Ed25519Verify(signature: seq<byte>, message: seq<byte>, publicKey: seq<byte>,
    Bi: seq<GePrecomp>) returns (ret: int)
    requires Curve() && IsBi(Bi)
    requires |signature| == 64 && |publicKey| == 32
    ensures ret == if Accepts(signature, message, publicKey) then 1 else 0
  {
    hide LE, ToLE, Pow2, Mul, Add, OnCurve, IsP3, IsP2, IsBi, Fermat, NonSquare, Associative, CodeDigest, Decodes, Neg,
      And, Combine, Recoded;
    TopThreeBits(signature[63]);
    if And(signature[63], 224) != 0 {
      return 0;
    }
    var code, A, p := GeFromBytesNegateVartime(publicKey);
    if code != 0 {
      return 0;
    }
    var h := HashThree(signature[..32], publicKey, message);
    ScReduce(h);
    ReducedBytes(h[..32]);
    SmallScalar(signature[32..]);
    Pow2Monotone(253, 255);
    DecodedOnCurve(publicKey, p);
    var R := GeDoubleScalarmultVartime(h[..32], A, signature[32..], Bi, Neg(p));
    ghost var q := Checker(signature, message, publicKey, p);
    BaseOnCurve();
    CombineOnCurve(LE(h[..32]), Neg(p), LE(signature[32..]), BASE);
    var checker := GeToBytes(R, q);
    var same := ConsttimeEqual(checker, signature[..32]);
    OnlyDecoding(signature, message, publicKey, p);
    if !same {
      return 0;
    }
    return 1;
  }

  lemma DecodedOnCurve(s: seq<byte>, p: Point)
    requires |s| == 32 && Decodes(s, p)
    ensures OnCurve(p) && OnCurve(Neg(p))
  {
    NegOnCurve(p);
  }

  /** Acceptance can be decided with any point that the key decodes to. */
  lemma OnlyDecoding(signature: seq<byte>, message: seq<byte>, publicKey: seq<byte>, p: Point)
    requires PrimeField() && |signature| == 64 && |publicKey| == 32 && signature[63] < 32 && Decodes(publicKey, p)
    ensures Accepts(signature, message, publicKey) <==> AcceptsWith(signature, message, publicKey, p)
  {
    hide LE, Fermat, NonSquare, OnCurve, Decodes, Checker;
    if Accepts(signature, message, publicKey) {
      var A :| AcceptsWith(signature, message, publicKey, A);
      DecodeUnique(publicKey, p, A);
    }
  }

  // ---- an honest signature verifies ----------------------------------------------------

  lemma ModOrder(n: int, k: int)
    requires Curve() && BaseOrder()
    ensures Mul(n + k * Sc.L, BASE) == Mul(n, BASE)
  {
    hide Add, OnCurve, Mul, Fermat, NonSquare, Associative;
    BaseOnCurve();
    MulAdd(n, k * Sc.L, BASE);
    MulMul(k, Sc.L, BASE);
    MulMul(k, 0, BASE);
    MulZero(BASE);
    assert k * 0 == 0;
    MulOnCurve(n, BASE);
    AddIdentity(Mul(n, BASE));
  }

  /** Scalars that are congruent modulo l give the same multiple of the base point. */
  lemma SameMultiple(m: int, n: int)
    requires Curve() && BaseOrder() && (m - n) % Sc.L == 0
    ensures Mul(m, BASE) == Mul(n, BASE)
  {
    var k := (m - n) / Sc.L;
    assert m == n + k * Sc.L;
    ModOrder(n, k);
  }

  /** S B - h A with A = a B is a single multiple of the base point. */
  lemma CheckerMultiple(h: int, a: int, s: int)
    requires Curve()
    ensures Combine(h, Neg(Mul(a, BASE)), s, BASE) == Mul(s - h * a, BASE)
  {
    hide Add, OnCurve, Mul, Neg, Fermat, NonSquare, Associative;
    BaseOnCurve();
    MulNeg(a, BASE);
    MulMul(h, -a, BASE);
    MulAdd(h * -a, s, BASE);
    assert h * -a + s == s - h * a;
  }

  /** S = h a + r modulo l cancels against h A. */
  lemma SigningEquation(h: int, a: int, r: int)
    requires Curve() && BaseOrder()
    ensures Combine(h, Neg(Mul(a, BASE)), (h * a + r) % Sc.L, BASE) == Mul(r, BASE)
  {
    hide Combine, Mul, Neg, Fermat, NonSquare, Associative;
    var s := (h * a + r) % Sc.L;
    CheckerMultiple(h, a, s);
    Residue(h * a + r, h * a, r, s);
    SameMultiple(s - h * a, r);
  }

  lemma Residue(n: int, t: int, r: int, s: int)
    requires n == t + r && s == n % Sc.L
    ensures (s - t - r) % Sc.L == 0
  {
  }

  /** Verification accepts every signature that signing makes, for every message and every private
    * key whose public key is the encoding of a B. */
  lemma SignedIsAccepted(message: seq<byte>, publicKey: seq<byte>, privateKey: seq<byte>)
    requires Curve() && BaseOrder() && |privateKey| == 64
    requires publicKey == KeyBytes(LE(privateKey[..32]))
    ensures var signature := Signature(message, publicKey, privateKey);
      |signature| == 64 && Accepts(signature, message, publicKey)
  {
    hide LE, ToLE, Pow2, Mul, Add, OnCurve, Fermat, NonSquare, Associative, CodeDigest, Decodes, Neg, Combine,
      HashScalar;
    var a := LE(privateKey[..32]);
    var A := Mul(a, BASE);
    var signature := Signature(message, publicKey, privateKey);
    var r := HashScalar(privateKey[32..] + message);
    BaseMultipleOnCurve(r);
    BaseMultipleOnCurve(a);
    var R := Encode(Mul(r, BASE));
    var h := HashScalar(R + publicKey + message);
    var s := (h * a + r) % Sc.L;
    OrderBound();
    Pow2Literals();
    ToLEValue(s, 32);
    assert signature == R + ToLE(s, 32);
    assert signature[..32] == R && signature[32..] == ToLE(s, 32);
    ReducedBytes(signature[32..]);
    EncodeDecodes(A);
    SigningEquation(h, a, r);
    assert AcceptsWith(signature, message, publicKey, A);
  }

  /** The encoding of a B. */
  ghost function KeyBytes(a: int): (s: seq<byte>)
    requires PrimeField()
    ensures |s| == 32
  {
    BaseMultipleOnCurve(a);
    Encode(Mul(a, BASE))
  }

  /** The code bounds S by 2^253 and not by l: values of S that are congruent modulo l are accepted
    * alike. */
  lemma AcceptsModOrder(signature: seq<byte>, other: seq<byte>, message: seq<byte>, publicKey: seq<byte>)
    requires Curve() && BaseOrder() && |signature| == |other| == 64 && |publicKey| == 32
    requires signature[..32] == other[..32] && other[63] < 32 && signature[63] < 32
    requires (LE(signature[32..]) - LE(other[32..])) % Sc.L == 0
    ensures Accepts(signature, message, publicKey) <==> Accepts(other, message, publicKey)
  {
    hide LE, Mul, Add, OnCurve, Fermat, NonSquare, Associative, Decodes, Neg, HashScalar, Encode;
    SameMultiple(LE(signature[32..]), LE(other[32..]));
    forall A
      ensures AcceptsWith(signature, message, publicKey, A) <==> AcceptsWith(other, message, publicKey, A)
    {
      assert Checker(signature, message, publicKey, A) == Checker(other, message, publicKey, A);
    }
  }

  /** The challenge as section 5.1.7 defines it, with the SHA-512 of the standard. */
  function StandardChallenge(signature: seq<byte>, message: seq<byte>, publicKey: seq<byte>): nat
    requires |signature| == 64
  {
    LE(Digest(signature[..32] + publicKey + message)) % Sc.L
  }

  /** The code hashes as the standard does below 2^64 bits. */
  lemma SameChallenge(signature: seq<byte>, message: seq<byte>, publicKey: seq<byte>)
    requires |signature| == 64 && |publicKey| == 32 && 8 * (64 + |message|) < TWO64
    ensures Challenge(signature, message, publicKey) == StandardChallenge(signature, message, publicKey)
  {
    hide Digest, CodeDigest, LE;
    CodeIsDigest(signature[..32] + publicKey + message);
  }

  /** The equation of section 5.1.7 for canonically encoded points: S B = R + h A with S < l. */
  ghost predicate StandardWith(signature: seq<byte>, message: seq<byte>, publicKey: seq<byte>, A: Point, R: Point)
    requires |signature| == 64
  {
    && OnCurve(A) && OnCurve(R) && LE(signature[32..]) < Sc.L
    && publicKey == Encode(A) && signature[..32] == Encode(R)
    && Mul(LE(signature[32..]), BASE) == Add(R, Mul(StandardChallenge(signature, message, publicKey), A))
  }

  ghost predicate StandardAccepts(signature: seq<byte>, message: seq<byte>, publicKey: seq<byte>)
    requires |signature| == 64
  {
    exists A, R :: StandardWith(signature, message, publicKey, A, R)
  }

  /** The code accepts what the standard accepts, and beyond that only an S of l or more, or a public
    * key that is not a canonical string. */
  lemma AcceptsIsStandard(signature: seq<byte>, message: seq<byte>, publicKey: seq<byte>)
    requires Curve() && |signature| == 64 && |publicKey| == 32 && 8 * (64 + |message|) < TWO64
    ensures StandardAccepts(signature, message, publicKey) <==>
      Accepts(signature, message, publicKey) && LE(signature[32..]) < Sc.L && CanonicalString(publicKey)
  {
    hide LE, Mul, Add, OnCurve, Fermat, NonSquare, Associative, Decodes, Neg, HashScalar, StandardChallenge, Encode,
      Combine, CanonicalString;
    var s, h := LE(signature[32..]), Challenge(signature, message, publicKey);
    SameChallenge(signature, message, publicKey);
    if A, R :| StandardWith(signature, message, publicKey, A, R) {
      EncodeDecodes(A);
      DecodesEncoding(publicKey, A);
      ReducedBytes(signature[32..]);
      CheckerCancels(h, s, A, R);
      assert AcceptsWith(signature, message, publicKey, A);
    }
    if Accepts(signature, message, publicKey) && s < Sc.L && CanonicalString(publicKey) {
      var A :| AcceptsWith(signature, message, publicKey, A);
      DecodedOnCurve(publicKey, A);
      DecodesEncoding(publicKey, A);
      var R := Checker(signature, message, publicKey, A);
      CheckerCancels(h, s, A, R);
      assert StandardWith(signature, message, publicKey, A, R);
    }
  }

  /** S B - h A = R exactly when S B = R + h A. */
  lemma CheckerCancels(h: int, s: int, A: Point, R: Point)
    requires Curve() && OnCurve(A) && OnCurve(R)
    ensures Combine(h, Neg(A), s, BASE) == R <==> Mul(s, BASE) == Add(R, Mul(h, A))
  {
    hide Mul, Add, OnCurve, Fermat, NonSquare, Associative, Neg;
    var p, q := Mul(s, BASE), Mul(h, A);
    BaseOnCurve();
    MulOnCurve(s, BASE);
    MulOnCurve(h, A);
    MulOfNeg(h, A);
    NegOnCurve(q);
    Commute(Neg(q), p);
    AddNeg(q);
    Commute(q, Neg(q));
    if Add(Neg(q), p) == R {
      Assoc(p, Neg(q), q);
      AddIdentity(p);
    }
    if p == Add(R, q) {
      Assoc(R, q, Neg(q));
      AddIdentity(R);
    }
  }

  lemma MulOfNeg(h: int, A: Point)
    requires Curve() && OnCurve(A)
    ensures Mul(h, Neg(A)) == Neg(Mul(h, A))
  {
    hide Mul, Add, OnCurve, Fermat, NonSquare, Associative, Neg;
    MulOne(A);
    MulNeg(1, A);
    MulMul(h, -1, A);
    MulNeg(h, A);
    assert h * -1 == -h;
  }

  /** An honest signature with l added to S, which the standard rejects and the code accepts. */
  lemma LargeSIsAccepted(message: seq<byte>, publicKey: seq<byte>, privateKey: seq<byte>)
    requires Curve() && BaseOrder() && |privateKey| == 64
    requires publicKey == KeyBytes(LE(privateKey[..32]))
    requires LE(Signature(message, publicKey, privateKey)[32..]) + Sc.L < Pow2(253)
    ensures var honest := Signature(message, publicKey, privateKey);
      var other := honest[..32] + ToLE(LE(honest[32..]) + Sc.L, 32);
      |other| == 64 && Accepts(other, message, publicKey) && !StandardAccepts(other, message, publicKey)
  {
    hide LE, ToLE, Pow2, Mul, Add, OnCurve, Fermat, NonSquare, Associative, CodeDigest, Decodes, Neg, Combine,
      HashScalar, Signature;
    SignedIsAccepted(message, publicKey, privateKey);
    var honest := Signature(message, publicKey, privateKey);
    var n := LE(honest[32..]) + Sc.L;
    Pow2Monotone(253, 256);
    ToLEValue(n, 32);
    var other := honest[..32] + ToLE(n, 32);
    assert other[..32] == honest[..32] && other[32..] == ToLE(n, 32);
    TopByteSmall(other[32..]);
    AcceptsModOrder(honest, other, message, publicKey);
  }

  /** Under the key of the neutral element, R = 0 and S = l: accepted for every message, and not by the
    * standard. */
  lemma OrderIsAccepted(message: seq<byte>)
    requires Curve() && BaseOrder()
    ensures var key := Encode(IDENTITY); var signature := Encode(IDENTITY) + ToLE(Sc.L, 32);
      && |signature| == 64 && |key| == 32
      && Accepts(signature, message, key) && !StandardAccepts(signature, message, key)
  {
    hide LE, ToLE, Pow2, Mul, Add, OnCurve, Fermat, NonSquare, Associative, CodeDigest, Decodes, Neg, Combine,
      HashScalar, Encode;
    var key, signature := Encode(IDENTITY), Encode(IDENTITY) + ToLE(Sc.L, 32);
    OrderBound();
    Half(signature, Encode(IDENTITY), Sc.L);
    IdentityOnCurve();
    EncodeDecodes(IDENTITY);
    NeutralChecker(Challenge(signature, message, key), Sc.L);
    assert AcceptsWith(signature, message, key, IDENTITY);
  }

  /** Under the other string for that key, p + 1, with R = 0 and S = 0 likewise. */
  lemma OtherKeyIsAccepted(message: seq<byte>)
    requires Curve()
    ensures var key := ToLE(P + 1, 32); var signature := Encode(IDENTITY) + ToLE(0, 32);
      && |signature| == 64 && |key| == 32
      && Accepts(signature, message, key) && !StandardAccepts(signature, message, key)
  {
    hide LE, ToLE, Pow2, Mul, Add, OnCurve, Fermat, NonSquare, Associative, CodeDigest, Decodes, Neg, Combine,
      HashScalar, Encode;
    var key, signature := ToLE(P + 1, 32), Encode(IDENTITY) + ToLE(0, 32);
    Half(signature, Encode(IDENTITY), 0);
    IdentityOnCurve();
    NonCanonicalIdentity();
    MulZero(BASE);
    NeutralChecker(Challenge(signature, message, key), 0);
    assert AcceptsWith(signature, message, key, IDENTITY);
    if A, R :| StandardWith(signature, message, key, A, R) {
      EncodeDecodes(A);
      DecodeUnique(key, A, IDENTITY);
    }
  }

  /** The two halves of R and S. */
  lemma Half(signature: seq<byte>, R: seq<byte>, n: nat)
    requires |R| == 32 && n < Pow2(253) && signature == R + ToLE(n, 32)
    ensures |signature| == 64 && signature[..32] == R && LE(signature[32..]) == n && signature[63] < 32
  {
    hide LE, ToLE, Pow2;
    Pow2Monotone(253, 256);
    ToLEValue(n, 32);
    assert signature[32..] == ToLE(n, 32);
    TopByteSmall(signature[32..]);
  }

  /** S B - h A is neutral when A and S B are. */
  lemma NeutralChecker(h: int, s: int)
    requires Curve() && Mul(s, BASE) == IDENTITY
    ensures Combine(h, Neg(IDENTITY), s, BASE) == IDENTITY
  {
    hide Mul, Add, OnCurve, Fermat, NonSquare, Associative, Neg;
    IdentityOnCurve();
    MulOfNeg(h, IDENTITY);
    MulZero(BASE);
    BaseOnCurve();
    MulMul(h, 0, BASE);
    assert h * 0 == 0;
    AddNeg(IDENTITY);
    NegOnCurve(IDENTITY);
    AddIdentity(Neg(IDENTITY));
    AddIdentity(IDENTITY);
    Commute(IDENTITY, Neg(IDENTITY));
  }

  lemma TopByteSmall(s: seq<byte>)
    requires |s| == 32 && LE(s) < Pow2(253)
    ensures s[31] < 32
  {
    hide LE, Pow2;
    LastByte(s);
    Pow2Literals();
    Pow2Add(253, 2);
    Pow2Small();
  }

  // ---- ed25519_add_scalar --------------------------------------------------------------

  /** The scalar with its highest bit cleared. */
  function Tweak(scalar: seq<byte>): nat
    requires |scalar| == 32
  {
    LE(scalar) % TWO255
  }

  lemma TweakBytes(scalar: seq<byte>)
    requires |scalar| == 32
    ensures LE(scalar[31 := scalar[31] % 128]) == Tweak(scalar)
  {
    hide LE;
    var n := scalar[31 := scalar[31] % 128];
    TopBit(scalar);
    TopBit(n);
    LastByte(scalar);
    LastByte(n);
    assert n[..31] == scalar[..31];
    ClearTop(LE(scalar[..31]), scalar[31]);
  }

  lemma ClearTop(low: nat, top: nat)
    requires low < 0x1_0000_0000_0000_0000_0000_0000_0000_0000_0000_0000_0000_0000_0000_0000_0000_00 && top < 0x100
    ensures (low + 0x1_0000_0000_0000_0000_0000_0000_0000_0000_0000_0000_0000_0000_0000_0000_0000_00 * top) % TWO255
      == low + 0x1_0000_0000_0000_0000_0000_0000_0000_0000_0000_0000_0000_0000_0000_0000_0000_00 * (top % 128)
  {
    SplitTop(low, top);
  }

  /** a' = n + a modulo l, the first half of the new private key. */
  function AddedKey(privateKey: seq<byte>, scalar: seq<byte>): nat
    requires |privateKey| == 64 && |scalar| == 32
  {
    (Tweak(scalar) + LE(privateKey[..32])) % Sc.L
  }

  /** The new private key: a', then half a hash of the old second half and the scalar. */
  function AddedPrivate(privateKey: seq<byte>, scalar: seq<byte>): (s: seq<byte>)
    requires |privateKey| == 64 && |scalar| == 32
    ensures |s| == 64
  {
    ToLE(AddedKey(privateKey, scalar), 32) + CodeDigest(privateKey[32..] + scalar)[..32]
  }

  /** The new public key from the old one: A + n B. */
  ghost function AddedPublic(A: Point, scalar: seq<byte>): (s: seq<byte>)
    requires PrimeField() && OnCurve(A) && |scalar| == 32
    ensures |s| == 32
  {
    hide LE;
    BaseMultipleOnCurve(Tweak(scalar));
    Closed(Mul(Tweak(scalar), BASE), A);
    CurveRange(Add(Mul(Tweak(scalar), BASE), A));
    Encode(Add(Mul(Tweak(scalar), BASE), A))
  }

  /** The route through the private key and the route through the public key agree. */
  lemma RoutesAgree(privateKey: seq<byte>, scalar: seq<byte>)
    requires Curve() && BaseOrder() && |privateKey| == 64 && |scalar| == 32
    ensures var a := LE(privateKey[..32]);
      OnCurve(Mul(a, BASE)) && AddedPublic(Mul(a, BASE), scalar) == KeyBytes(AddedKey(privateKey, scalar))
  {
    hide LE, Mul, Add, OnCurve, Fermat, NonSquare, Associative;
    var a, n := LE(privateKey[..32]), Tweak(scalar);
    BaseMultipleOnCurve(a);
    BaseOnCurve();
    MulAdd(n, a, BASE);
    Residue(n + a, n, a, (n + a) % Sc.L);
    SameMultiple((n + a) % Sc.L, n + a);
  }

  /** Negating X and T negates the point. */
  lemma NegatedPoint(h: GeP3, q: Point, X: Fe, T: Fe)
    requires IsP3(h, q) && Val(X) == -Val(h.X) && Val(T) == -Val(h.T) && Tight(X) && Tight(T)
    ensures IsP3(GeP3(X, h.Y, h.Z, T), Neg(q))
  {
    hide Cong, Val, Tight, Neg;
    P3Means(h, q);
    P3Means(GeP3(X, h.Y, h.Z, T), Neg(q));
    NegReduced(q);
    var n, z := Neg(q).x, Val(h.Z);
    NegTimes2(Val(h.X), q.x, z);
    NegTimes2(Val(h.T), q.x * q.y, z);
    NegTimes(n, q.x, q.y);
    CongSym(n, -q.x);
    Rescale2(Val(X), -q.x, n, z);
    Rescale2(Val(T), -(q.x * q.y), n * q.y, z);
  }

  /** The scalar 1. */
  const SC_1: seq<byte> := [1] + Zeros(31)

  lemma ScalarOne()
    ensures |SC_1| == 32 && LE(SC_1) == 1
  {
    assert SC_1[1..] == Zeros(31);
    ZeroBytes(Zeros(31));
  }

  lemma AddedBytes(privateKey: seq<byte>, scalar: seq<byte>)
    requires |privateKey| == 64 && |scalar| == 32
    ensures LE(AddedPrivate(privateKey, scalar)[..32]) == AddedKey(privateKey, scalar) < Sc.L
  {
    hide LE, ToLE, Pow2, CodeDigest, Tweak;
    OrderBound();
    Pow2Add(253, 3);
    ToLEValue(AddedKey(privateKey, scalar), 32);
  }

  /** The private half of ed25519_add_scalar. */
  method AddToPrivate(privateKey: array<byte>, n: seq<byte>, scalar: seq<byte>)
    requires privateKey.Length == 64 && |n| == |scalar| == 32 && LE(n) == Tweak(scalar)
    modifies privateKey
    ensures privateKey[..] == AddedPrivate(old(privateKey[..]), scalar)
  {
    hide LE, ToLE, Pow2, CodeDigest, Tweak;
    ScalarOne();
    var s := ScMuladd(SC_1, n, privateKey[..32]);
    ghost var was := privateKey[..];
    assert was[..32] == privateKey[..32] && was[32..] == privateKey[32..];
    AddedOnce(LE(n), LE(was[..32]));
    ReducedBytes(s);
    Write(privateKey, 0, s);
    assert privateKey[32..] == was[32..];
    var hashbuf := HashTwo(privateKey[32..], scalar);
    Write(privateKey, 32, hashbuf[..32]);
    assert privateKey[..] == s + hashbuf[..32];
  }

  lemma AddedOnce(n: int, a: int)
    ensures 1 * n + a == n + a
  {
  }

  /** ge_scalarmult_base and ge_p3_tobytes. */
  method PublicOf(a: seq<byte>, base: seq<seq<GePrecomp>>) returns (s: seq<byte>)
    requires Curve() && IsBase(base) && |a| == 32 && LE(a) < Sc.L
    ensures s == KeyBytes(LE(a))
  {
    hide LE, Mul, OnCurve, IsP3, IsBase, Fermat, NonSquare, Associative;
    ReducedBytes(a);
    BaseMultipleOnCurve(LE(a));
    var A := GeScalarmultBase(a, base);
    s := GeP3ToBytes(A, Mul(LE(a), BASE));
  }

  /** The public half of ed25519_add_scalar without the private key. */
  method AddToPublic(publicKey: seq<byte>, n: seq<byte>, scalar: seq<byte>, base: seq<seq<GePrecomp>>,
    ghost A: Point) returns (s: seq<byte>)
    requires Curve() && IsBase(base) && |publicKey| == |n| == |scalar| == 32 && n[31] <= 127 && LE(n) == Tweak(scalar)
    requires Decodes(publicKey, A)
    ensures OnCurve(A) && s == AddedPublic(A, scalar)
  {
    hide LE, Mul, Add, OnCurve, Neg, IsP3, IsP1P1, IsCached, IsBase, Fermat, NonSquare, Associative, Decodes, Tweak,
      Addable, Val, Within, Tight;
    var code, unpacked, p := GeFromBytesNegateVartime(publicKey);
    DecodeUnique(publicKey, p, A);
    DecodedOnCurve(publicKey, A);
    NegOnCurve(A);
    P3Bounds(unpacked, Neg(A));
    var X := FeNeg(unpacked.X);
    var T := FeNeg(unpacked.T);
    StillTight(X);
    StillTight(T);
    NegatedPoint(unpacked, Neg(A), X, T);
    ghost var m := Tweak(scalar);
    BaseMultipleOnCurve(m);
    var t := GeP3ToCached(GeP3(X, unpacked.Y, unpacked.Z, T), A);
    var nB := GeScalarmultBase(n, base);
    var sum := GeAdd(nB, t, Mul(m, BASE), A);
    var r := GeP1P1ToP3(sum, Add(Mul(m, BASE), A));
    Closed(Mul(m, BASE), A);
    s := GeP3ToBytes(r, Add(Mul(m, BASE), A));
  }

  /** The public key of a known private key, or the old public key plus n B. The code ignores a
    * decoding error, so a public key without a private key has to decode to a point. */
  method Ed25519AddScalar(publicKey: array?<byte>, privateKey: array?<byte>, scalar: seq<byte>,
    base: seq<seq<GePrecomp>>, ghost A: Point)
    requires Curve() && IsBase(base) && |scalar| == 32
    requires publicKey != null ==> publicKey.Length == 32
    requires privateKey != null ==> privateKey.Length == 64
    requires publicKey != null && privateKey != null ==> publicKey != privateKey
    requires publicKey != null && privateKey == null ==> Decodes(publicKey[..], A)
    modifies publicKey, privateKey
    ensures privateKey != null ==> privateKey[..] == AddedPrivate(old(privateKey[..]), scalar)
    ensures publicKey != null && privateKey != null ==> publicKey[..] == KeyBytes(AddedKey(old(privateKey[..]), scalar))
    ensures publicKey != null && privateKey == null ==> OnCurve(A) && publicKey[..] == AddedPublic(A, scalar)
  {
    hide *;
    var n := scalar[31 := scalar[31] % 128];
    TweakBytes(scalar);
    if privateKey != null {
      AddToPrivate(privateKey, n, scalar);
    }
    if publicKey != null {
      if privateKey != null {
        AddedBytes(old(privateKey[..]), scalar);
        assert privateKey[..][..32] == privateKey[..32];
        var encoded := PublicOf(privateKey[..32], base);
        Write(publicKey, 0, encoded);
        assert publicKey[..] == encoded;
      } else {
        var encoded := AddToPublic(publicKey[..], n, scalar, base, A);
        Write(publicKey, 0, encoded);
        assert publicKey[..] == encoded;
      }
    }
  }
}
