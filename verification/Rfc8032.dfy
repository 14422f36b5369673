/** Signatures and keys of Ed25519 in the words of RFC 8032, with the SHA-512 of the standard. */
module Rfc8032 {
  import opened Bytes
  import opened Modular
  import opened Edwards
  import opened ScalarMultiples
  import opened ScalarMult
  import opened PointBytes
  import opened Sha512
  import opened Ed25519
  import Sc

  /** Section 5.1.2: y in 255 bits, and the low bit of x above it. */
  lemma EncodedValue(p: Point)
    requires 0 <= p.y < P
    ensures LE(Encode(p)) == p.y + TWO255 * (p.x % 2)
  {
    hide LE, ToLE, Pow2;
    Pow2Literals();
    ToLEValue(p.y + TWO255 * (p.x % 2), 32);
  }

  /** Section 5.1.6: the nonce is the hash of the private prefix and the message. */
  lemma NonceIsStandard(message: seq<byte>, publicKey: seq<byte>, privateKey: seq<byte>)
    requires PrimeField() && |privateKey| == 64 && 8 * (32 + |message|) < TWO64
    ensures var r := LE(Digest(privateKey[32..] + message)) % Sc.L;
      0 <= Mul(r, BASE).y < P && Signature(message, publicKey, privateKey)[..32] == Encode(Mul(r, BASE))
  {
    hide LE, ToLE, Mul, Fermat, NonSquare, Digest, CodeDigest, Encode;
    var r := LE(Digest(privateKey[32..] + message)) % Sc.L;
    CodeIsDigest(privateKey[32..] + message);
    BaseMultipleOnCurve(r);
  }

  /** And S is the nonce and the challenge times the private scalar, modulo l. */
  lemma SignatureIsStandard(message: seq<byte>, publicKey: seq<byte>, privateKey: seq<byte>)
    requires PrimeField() && |privateKey| == 64 && |publicKey| == 32 && 8 * (64 + |message|) < TWO64
    ensures var signature := Signature(message, publicKey, privateKey); |signature| == 64
    ensures var signature := Signature(message, publicKey, privateKey);
      var r := LE(Digest(privateKey[32..] + message)) % Sc.L;
      var k := LE(Digest(signature[..32] + publicKey + message)) % Sc.L;
      LE(signature[32..]) == (r + k * LE(privateKey[..32])) % Sc.L
  {
    hide LE, ToLE, Pow2, Mul, Fermat, NonSquare, Digest, CodeDigest, Encode;
    var signature := Signature(message, publicKey, privateKey);
    var r, a := HashScalar(privateKey[32..] + message), LE(privateKey[..32]);
    CodeIsDigest(privateKey[32..] + message);
    BaseMultipleOnCurve(r);
    var R := Encode(Mul(r, BASE));
    CodeIsDigest(R + publicKey + message);
    var s := (HashScalar(R + publicKey + message) * a + r) % Sc.L;
    assert signature == R + ToLE(s, 32);
    assert signature[..32] == R && signature[32..] == ToLE(s, 32);
    OrderBound();
    Pow2Monotone(253, 256);
    ToLEValue(s, 32);
  }

  /** The new private key of ed25519_add_scalar: the scalar of 255 bits is added modulo l, and the new prefix
    * is half a hash of the old one and the scalar. */
  lemma AddedKeyIsSum(privateKey: seq<byte>, scalar: seq<byte>)
    requires |privateKey| == 64 && |scalar| == 32
    ensures LE(AddedPrivate(privateKey, scalar)[..32]) == (LE(scalar) % TWO255 + LE(privateKey[..32])) % Sc.L
    ensures AddedPrivate(privateKey, scalar)[32..] == Digest(privateKey[32..] + scalar)[..32]
  {
    hide LE, ToLE, Digest, CodeDigest;
    AddedBytes(privateKey, scalar);
    CodeIsDigest(privateKey[32..] + scalar);
  }

  /** And the new public key decodes to the old point and that multiple of the base point. */
  lemma AddedPointIsSum(A: Point, scalar: seq<byte>)
    requires PrimeField() && OnCurve(A) && |scalar| == 32
    ensures Decodes(AddedPublic(A, scalar), Add(A, Mul(LE(scalar) % TWO255, BASE)))
  {
    hide LE, Mul, Add, OnCurve, Fermat, NonSquare, Encode, Decodes;
    var n := LE(scalar) % TWO255;
    BaseMultipleOnCurve(n);
    Closed(Mul(n, BASE), A);
    Commute(Mul(n, BASE), A);
    CurveRange(Add(Mul(n, BASE), A));
    EncodeDecodes(Add(Mul(n, BASE), A));
  }

  /** Section 5.1: the base point has y = 4/5 and the even one of the two x. */
  lemma BaseIsStandard()
    ensures OnCurve(BASE) && Cong(5 * BASE.y, 4) && BASE.x % 2 == 0
    ensures LE(Encode(BASE)) == 0x6666666666666666666666666666666666666666666666666666666666666658
  {
    hide LE, Encode, OnCurve;
    BaseOnCurve();
    CongMeans(5 * BASE.y, 4);
    EncodedValue(BASE);
  }

  /** The gate lets no S of 2^253 or more pass. */
  lemma AcceptedBound(signature: seq<byte>, message: seq<byte>, publicKey: seq<byte>)
    requires PrimeField() && |signature| == 64 && |publicKey| == 32
    requires Accepts(signature, message, publicKey)
    ensures LE(signature[32..]) < Pow2(253)
  {
    hide LE, Pow2, Mul, Fermat, NonSquare, Decodes, Encode, Combine, Challenge;
    var s := signature[32..];
    LastByte(s);
    Pow2Literals();
    Pow2Add(253, 2);
    Pow2Small();
  }
}
