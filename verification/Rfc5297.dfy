/** What AesSiv computes, in the words of RFC 5297 and RFC 4493: CMAC from the first block on, S2V of a
  * vector of strings, the key stream of counter mode. */
module Rfc5297 {
  import opened Bytes
  import opened Bits
  import opened AesSiv

  // ---- blocks as numbers ---------------------------------------------------------------

  lemma {:induction false} XorOfJoin(a: nat, b: nat, c: nat, d: nat, k: nat)
    requires a < Pow2(k) && c < Pow2(k)
    ensures a + b * Pow2(k) >= 0 && c + d * Pow2(k) >= 0 && Xor(a, c) >= 0 && Xor(b, d) >= 0
    ensures Xor(a + b * Pow2(k), c + d * Pow2(k)) == Xor(a, c) + Xor(b, d) * Pow2(k)
  {
    hide Xor, Pow2;
    XorNonNegative(a, c);
    XorNonNegative(b, d);
    if k == 0 {
      NoWeight(a, b);
      NoWeight(c, d);
      NoWeight(0, Xor(b, d));
      XorSelf(0);
    } else {
      var w := Pow2(k - 1);
      HalfWeight(a, b, k);
      HalfWeight(c, d, k);
      HalfWeight(0, Xor(b, d), k);
      XorOfJoin(a / 2, b, c / 2, d, k - 1);
      XorBits(a, a / 2, a % 2, c, c / 2, c % 2);
      XorBits(a + b * Pow2(k), a / 2 + b * w, a % 2, c + d * Pow2(k), c / 2 + d * w, c % 2);
    }
  }

  /** Xor-ing bytes is xor-ing numbers. */
  lemma {:induction false} XorOfBytes(x: seq<byte>, y: seq<byte>, z: seq<byte>)
    requires |x| == |y| == |z| && forall i :: 0 <= i < |x| ==> z[i] == XorB(x[i], y[i])
    ensures BE(z) == Xor(BE(x), BE(y))
  {
    hide Xor;
    if x == [] {
      XorSelf(0);
    } else {
      var n := |x| - 1;
      XorOfBytes(x[..n], y[..n], z[..n]);
      assert Pow2(8) == 256 by { Pow2Small(); }
      XorOfJoin(x[n], BE(x[..n]), y[n], BE(y[..n]), 8);
    }
  }

  lemma XorBlockValue(x: Block, y: Block)
    ensures BE(XorBlock(x, y)) == Xor(BE(x), BE(y))
  {
    hide BE, Xor, XorB;
    XorOfBytes(x, y, XorBlock(x, y));
  }

  /** Section 2.3 of RFC 5297: multiplication by x modulo the polynomial x^128 + x^7 + x^2 + x + 1. */
  lemma DblIsStandard(s: Block)
    ensures BE(Dbl(s)) == if BE(s) < Pow2(127) then 2 * BE(s)
                          else Xor(2 * BE(s), Pow2(128) + Pow2(7) + Pow2(2) + Pow2(1) + Pow2(0))
  {
    hide BE, ToBE, Xor, Pow2, XorB;
    Pow2Small();
    Pow2Literals();
    Pow2Add(1, 127);
    BEBound(s);
    var n := 2 * BE(s) % TWO128;
    var t := ToBE(n, 16);
    BEOfToBE(n, 16);
    if BE(s) >= Pow2(127) {
      var z := t[15 := XorB(t[15], 0x87)];
      var y := Zeros(15) + [0x87];
      forall i | 0 <= i < 16 ensures z[i] == XorB(t[i], y[i]) {
        XorBLaws(t[i], 0, 0);
      }
      XorOfBytes(t, y, z);
      LastByteValue();
      XorOfJoin(n, 1, 0x87, 1, 128);
      XorSelf(1);
    }
  }

  lemma LastByteValue()
    ensures BE(Zeros(15) + [0x87]) == 0x87
  {
    hide BE;
    BEJoin(Zeros(15), [0x87]);
    BEOfZeros(15);
    OneBE(0x87);
  }

  /** The bytes of m, a 1 bit, zeros. */
  lemma PadValue(m: seq<byte>) returns (w: nat)
    requires |m| < 16
    ensures w == Pow2(127 - 8 * |m|) && BE(Pad(m)) == (2 * BE(m) + 1) * w
  {
    hide BE, Pow2;
    var k, n := 15 - |m|, 127 - 8 * |m|;
    MarkedValue(m);
    ShiftedValue(m + [0x80], k);
    SevenMore(8 * k, n);
    w := Pow2(n);
    PadTotal(BE(Pad(m)), BE(m + [0x80]), BE(m), Pow2(8 * k), w);
  }

  lemma MarkedValue(m: seq<byte>)
    ensures BE(m + [0x80]) == 256 * BE(m) + 0x80
  {
    BELast(m + [0x80], |m|);
    assert (m + [0x80])[..|m|] == m && (m + [0x80])[..|m| + 1] == m + [0x80];
  }

  lemma ShiftedValue(s: seq<byte>, k: nat)
    ensures BE(s + Zeros(k)) == BE(s) * Pow2(8 * k)
  {
    hide BE, Pow2;
    BEJoin(s, Zeros(k));
    BEOfZeros(k);
  }

  lemma SevenMore(k: nat, n: nat)
    requires n == 7 + k
    ensures Pow2(n) == 128 * Pow2(k)
  {
    Pow2Add(7, k);
    Pow2Small();
  }

  lemma BEOfZeros(k: nat)
    ensures BE(Zeros(k)) == 0
  {
    hide BE;
    ZeroBE(k);
    BEOfToBE(0, k);
  }

  lemma PadTotal(b: int, c: int, n: int, w: int, p: int)
    requires b == c * w && c == 256 * n + 0x80 && p == 128 * w
    ensures b == (2 * n + 1) * p
  {
    assert c == (2 * n + 1) * 128;
    assert (2 * n + 1) * 128 * w == (2 * n + 1) * (128 * w);
  }

  // ---- section 2.4 of RFC 4493 ----------------------------------------------------------

  /** The blocks of m one after the other, from the chaining value x. */
  function Chain(e: Cipher, x: Block, m: seq<byte>): Block
    requires |m| % 16 == 0
    decreases |m|
  {
    if |m| < 16 then x else Chain(e, e(XorBlock(x, m[..16])), m[16..])
  }

  lemma {:induction false} ChainAppends(e: Cipher, x: Block, m: seq<byte>, block: Block)
    requires |m| % 16 == 0
    ensures |m + block| % 16 == 0 && Chain(e, x, m + block) == e(XorBlock(Chain(e, x, m), block))
    decreases |m|
  {
    hide XorBlock;
    var n := m + block;
    if m == [] {
      assert n[..16] == block && n[16..] == [];
    } else {
      assert n[..16] == m[..16] && n[16..] == m[16..] + block;
      ChainAppends(e, e(XorBlock(x, m[..16])), m[16..], block);
    }
  }

  lemma {:induction false} CbcMacIsChain(e: Cipher, m: seq<byte>)
    requires |m| % 16 == 0
    ensures CbcMac(e, m) == Chain(e, Zeros(16), m)
    decreases |m|
  {
    hide XorBlock, Chain;
    if m == [] {
      assert Chain(e, Zeros(16), []) == Zeros(16) by { NoChain(e, Zeros(16)); }
    } else {
      var front, last := m[..|m| - 16], m[|m| - 16..];
      CbcMacIsChain(e, front);
      ChainAppends(e, Zeros(16), front, last);
      assert m == front + last;
    }
  }

  lemma NoChain(e: Cipher, x: Block)
    ensures Chain(e, x, []) == x
  {
  }

  /** The number of blocks; a message without bytes has one, which is padded. */
  function Blocks(n: nat): nat { if n == 0 then 1 else (n + 15) / 16 }

  /** The last block with its subkey. */
  function Marked(e: Cipher, last: seq<byte>): Block
    requires |last| <= 16
  {
    hide Dbl;
    var k1 := Dbl(e(Zeros(16)));
    var k2 := Dbl(k1);
    if |last| == 16 then XorBlock(last, k1) else XorBlock(Pad(last), k2)
  }

  lemma CmacIsStandard(e: Cipher, m: seq<byte>)
    ensures var k := 16 * (Blocks(|m|) - 1);
      && 0 <= k <= |m| <= k + 16
      && Cmac(e, m) == Chain(e, Zeros(16), m[..k] + Marked(e, m[k..]))
  {
    hide Dbl, Chain, CbcMac, XorB, Pad;
    var k := 16 * (Blocks(|m|) - 1);
    assert k == LastStart(|m|);
    var c, last := CbcMac(e, m[..k]), m[k..];
    CbcMacIsChain(e, m[..k]);
    ChainAppends(e, Zeros(16), m[..k], Marked(e, last));
    var k1 := Dbl(e(Zeros(16)));
    if |last| == 16 {
      XorBlockAssociates(c, last, k1);
    } else {
      XorBlockAssociates(c, Pad(last), Dbl(k1));
    }
  }

  lemma XorBlockAssociates(x: Block, y: Block, z: Block)
    ensures XorBlock(XorBlock(x, y), z) == XorBlock(x, XorBlock(y, z))
  {
    hide XorB;
    forall i | 0 <= i < 16 ensures XorB(XorB(x[i], y[i]), z[i]) == XorB(x[i], XorB(y[i], z[i])) {
      XorBLaws(x[i], y[i], z[i]);
    }
  }

  // ---- sections 2.4 to 2.6 of RFC 5297 --------------------------------------------------

  /** D after the strings before the last one. */
  function Doubled(e: Cipher, strings: seq<seq<byte>>): Block {
    var n := |strings| - 1;
    if strings == [] then Cmac(e, Zeros(16))
    else XorBlock(Dbl(Doubled(e, strings[..n])), Cmac(e, strings[n]))
  }

  /** S2V of a vector of strings. */
  function Vector(e: Cipher, strings: seq<seq<byte>>): Block {
    var n := |strings| - 1;
    if strings == [] then Cmac(e, Zeros(15) + [1])
    else
      var d, last := Doubled(e, strings[..n]), strings[n];
      var k := |last| - 16;
      Cmac(e, if k >= 0 then last[..k] + XorBlock(last[k..], d) else XorBlock(Dbl(d), Pad(last)))
  }

  lemma S2VIsStandard(e: Cipher, ad: seq<byte>, pt: seq<byte>)
    ensures S2V(e, ad, pt) == Vector(e, [ad, pt])
  {
    hide Cmac, Dbl, XorBlock;
    assert [ad, pt][..1] == [ad] && [ad][..0] == [];
    assert Doubled(e, [ad]) == XorBlock(Dbl(Cmac(e, Zeros(16))), Cmac(e, ad));
  }

  lemma {:induction false} AndOfJoin(a: nat, b: nat, c: nat, d: nat, k: nat)
    requires a < Pow2(k) && c < Pow2(k)
    ensures a + b * Pow2(k) >= 0 && c + d * Pow2(k) >= 0
    ensures And(a + b * Pow2(k), c + d * Pow2(k)) == And(a, c) + And(b, d) * Pow2(k)
  {
    hide And, Pow2;
    if k == 0 {
      NoWeight(a, b);
      NoWeight(c, d);
      NoWeight(0, And(b, d));
      AndBound(0, 0);
    } else {
      var w := Pow2(k - 1);
      HalfWeight(a, b, k);
      HalfWeight(c, d, k);
      HalfWeight(0, And(b, d), k);
      AndOfJoin(a / 2, b, c / 2, d, k - 1);
      AndBits(a, a / 2, a % 2, c, c / 2, c % 2);
      AndBits(a + b * Pow2(k), a / 2 + b * w, a % 2, c + d * Pow2(k), c / 2 + d * w, c % 2);
    }
  }

  lemma {:induction false} AndOfBytes(x: seq<byte>, y: seq<byte>, z: seq<byte>)
    requires |x| == |y| == |z| && forall i :: 0 <= i < |x| ==> z[i] == And(x[i], y[i])
    ensures BE(z) == And(BE(x), BE(y))
  {
    hide And;
    if x == [] {
      AndBound(0, 0);
    } else {
      var n := |x| - 1;
      AndOfBytes(x[..n], y[..n], z[..n]);
      assert Pow2(8) == 256 by { Pow2Small(); }
      AndOfJoin(x[n], BE(x[..n]), y[n], BE(y[..n]), 8);
    }
  }

  const MASK: Block := [0xff, 0xff, 0xff, 0xff] + [0xff, 0xff, 0xff, 0xff] + [0x7f, 0xff, 0xff, 0xff]
    + [0x7f, 0xff, 0xff, 0xff]

  lemma MaskValue()
    ensures BE(MASK) == 0xffff_ffff_ffff_ffff_7fff_ffff_7fff_ffff
  {
    hide BE, Pow2;
    var u, v: seq<byte> := [0xff, 0xff, 0xff, 0xff], [0x7f, 0xff, 0xff, 0xff];
    FourBytes(u);
    FourBytes(v);
    Pow2Literals();
    BEJoin(u, u);
    BEJoin(u + u, v);
    BEJoin(u + u + v, v);
  }

  lemma FourBytes(s: seq<byte>)
    requires |s| == 4
    ensures BE(s) == 0x100_0000 * s[0] as int + 0x1_0000 * s[1] as int + 0x100 * s[2] as int + s[3] as int
  {
    hide BE;
    BELast(s, 3);
    BELast(s, 2);
    BELast(s, 1);
    BELast(s, 0);
    assert s[..4] == s && BE(s[..0]) == 0 by { BEOfZeros(0); }
  }

  /** Section 2.5: the counter starts at the synthetic IV without bits 31 and 63. */
  lemma CounterIsStandard(v: Block)
    ensures BE(Counter(v)) == And(BE(v), 0xffff_ffff_ffff_ffff_7fff_ffff_7fff_ffff)
  {
    hide BE, And;
    MaskValue();
    forall i | 0 <= i < 16 ensures Counter(v)[i] == And(v[i], MASK[i]) {
      SevenBits(v[i]);
      EightBits(v[i]);
    }
    AndOfBytes(v, MASK, Counter(v));
  }

  lemma EightBits(x: byte)
    ensures And(x, 0xff) == x
  {
    hide And;
    assert Pow2(8) == 256 by { Pow2Small(); }
    AndMask(x, 8);
  }

  /** The key stream of n blocks from the counter q on. */
  function KeyStream(e: Cipher, q: nat, n: nat): (s: seq<byte>)
    ensures |s| == 16 * n
  {
    if n == 0 then [] else KeyStream(e, q, n - 1) + e(ToBE((q + n - 1) % TWO128, 16))
  }

  lemma {:induction false} StreamAt(e: Cipher, v: Block, n: nat, i: nat)
    requires i < 16 * n
    ensures KeyStream(e, BE(Counter(v)), n)[i] == KeyBlock(e, v, i / 16)[i % 16]
  {
    hide BE, ToBE, Counter;
    if i < 16 * (n - 1) {
      StreamAt(e, v, n - 1, i);
    } else {
      assert i / 16 == n - 1 && i % 16 == i - 16 * (n - 1);
    }
  }

  /** m under the first bytes of a key stream. */
  function Masked(m: seq<byte>, stream: seq<byte>): (c: seq<byte>)
    requires |m| <= |stream|
  {
    seq(|m|, i requires 0 <= i < |m| => XorB(m[i], stream[i]))
  }

  lemma CtrIsStandard(e: Cipher, v: Block, m: seq<byte>, n: nat)
    requires |m| <= 16 * n
    ensures Ctr(e, v, m) == Masked(m, KeyStream(e, BE(Counter(v)), n))
  {
    hide KeyBlock, KeyStream, XorB, BE, Counter;
    forall i | 0 <= i < |m|
      ensures Ctr(e, v, m)[i] == Masked(m, KeyStream(e, BE(Counter(v)), n))[i]
    {
      StreamAt(e, v, n, i);
    }
  }

  /** Section 2.6: the synthetic IV, then the plaintext under the key stream from the masked IV on. */
  function SivEncrypt(e: Cipher, ad: seq<byte>, pt: seq<byte>): seq<byte> {
    var v := Vector(e, [ad, pt]);
    var q := And(BE(v), 0xffff_ffff_ffff_ffff_7fff_ffff_7fff_ffff);
    v + Masked(pt, KeyStream(e, q, (|pt| + 15) / 16))
  }

  lemma EncryptIsStandard(e: Cipher, ad: seq<byte>, pt: seq<byte>)
    ensures Encrypt(e, ad, pt) == SivEncrypt(e, ad, pt)
  {
    hide S2V, Vector, Ctr, And, BE, Counter, KeyStream, Masked;
    var v := S2V(e, ad, pt);
    S2VIsStandard(e, ad, pt);
    CounterIsStandard(v);
    CtrIsStandard(e, v, pt, (|pt| + 15) / 16);
  }
}
