/** AES-SIV (aes_siv.c) against CMAC (section 2.4 of RFC 4493) and S2V (section 2.4 of RFC 5297).
  * The block cipher under the expanded key is a function argument; one key serves both halves. */
module AesSiv {
  import opened Bytes
  import opened Bits

  type Block = s: seq<byte> | |s| == 16 witness Zeros(16)

  type Cipher = Block -> Block

  const TWO128 := 0x1_0000_0000_0000_0000_0000_0000_0000_0000

  // ---- definitions ---------------------------------------------------------------------

  function XorBlock(x: Block, y: Block): Block {
    seq(16, i requires 0 <= i < 16 => XorB(x[i], y[i]))
  }

  /** Doubling in GF(2^128), section 2.3 of RFC 5297: a left shift, and 0x87 for a lost bit. */
  function Dbl(s: Block): Block {
    var t := ToBE(2 * BE(s) % TWO128, 16);
    if 2 * BE(s) < TWO128 then t else t[15 := XorB(t[15], 0x87)]
  }

  /** The first bytes of m, a 1 bit, zeros. */
  function Pad(m: seq<byte>): Block
    requires |m| < 16
  {
    m + [0x80] + Zeros(15 - |m|)
  }

  /** CBC-MAC without a last step, over whole blocks. */
  function CbcMac(e: Cipher, m: seq<byte>): Block
    requires |m| % 16 == 0
  {
    if m == [] then Zeros(16) else e(XorBlock(CbcMac(e, m[..|m| - 16]), m[|m| - 16..]))
  }

  /** Where the last block starts; a message of whole blocks ends with a whole one. */
  function LastStart(n: nat): (k: nat)
    ensures k % 16 == 0 && k <= n <= k + 16 && (n > 0 ==> k < n)
  {
    if n == 0 then 0 else (n - 1) / 16 * 16
  }

  /** Section 2.4 of RFC 4493. */
  function Cmac(e: Cipher, m: seq<byte>): Block {
    var k1 := Dbl(e(Zeros(16)));
    var c, last := CbcMac(e, m[..LastStart(|m|)]), m[LastStart(|m|)..];
    if |last| == 16 then e(XorBlock(XorBlock(c, last), k1))
    else e(XorBlock(XorBlock(c, Pad(last)), Dbl(k1)))
  }

  /** m with its last sixteen bytes xor-ed with d. */
  function XorEnd(m: seq<byte>, d: Block): (r: seq<byte>)
    requires |m| >= 16
    ensures |r| == |m|
  {
    m[..|m| - 16] + XorBlock(m[|m| - 16..], d)
  }

  /** S2V of an associated string and a plaintext. */
  function S2V(e: Cipher, ad: seq<byte>, pt: seq<byte>): Block {
    var d := XorBlock(Dbl(Cmac(e, Zeros(16))), Cmac(e, ad));
    Cmac(e, if |pt| >= 16 then XorEnd(pt, d) else XorBlock(Dbl(d), Pad(pt)))
  }

  /** The initial counter: the synthetic IV with two bits cleared. */
  function Counter(v: Block): Block {
    v[8 := v[8] % 128][12 := v[12] % 128]
  }

  /** Keystream block k. */
  function KeyBlock(e: Cipher, v: Block, k: nat): Block {
    e(ToBE((BE(Counter(v)) + k) % TWO128, 16))
  }

  /** Counter mode. */
  function Ctr(e: Cipher, v: Block, m: seq<byte>): (r: seq<byte>)
    ensures |r| == |m|
  {
    seq(|m|, i requires 0 <= i < |m| => XorB(m[i], KeyBlock(e, v, i / 16)[i % 16]))
  }

  /** Section 2.6 of RFC 5297. */
  function Encrypt(e: Cipher, ad: seq<byte>, pt: seq<byte>): (ct: seq<byte>)
    ensures |ct| == |pt| + 16
  {
    var v := S2V(e, ad, pt);
    v + Ctr(e, v, pt)
  }

  // ---- cmac_dbl ------------------------------------------------------------------------

  /** now is was shifted left by one bit, with x carried out. */
  ghost predicate ShiftedLeft(was: seq<byte>, now: seq<byte>, x: int) {
    |was| == |now| && BE(now) + x * Pow2(8 * |was|) == 2 * BE(was)
  }

  /** Shifts left by one bit, from the last byte up. */
  method CmacDbl(v: array<byte>)
    requires v.Length == 16
    modifies v
    ensures v[..] == Dbl(old(v[..]))
  {
    hide ShiftedLeft, Dbl, XorB, SAnd;
    ghost var was := v[..];
    var x := 0;
    var i := 15;
    NothingShifted(was[16..], v[16..]);
    while i >= 0
      invariant -1 <= i <= 15 && (x == 0 || x == 1)
      invariant v[..i + 1] == was[..i + 1] && ShiftedLeft(was[i + 1..], v[i + 1..], x)
    {
      x := ShiftByte(v, i, x, was);
      i := i - 1;
    }
    assert v[0..] == v[..] && was[0..] == was;
    Feedback(v, x, was);
  }

  /** One byte of the loop. */
  method ShiftByte(v: array<byte>, i: nat, x: int, ghost was: seq<byte>) returns (carry: int)
    requires v.Length == |was| == 16 && i < 16 && (x == 0 || x == 1)
    requires v[..i + 1] == was[..i + 1] && ShiftedLeft(was[i + 1..], v[i + 1..], x)
    modifies v
    ensures (carry == 0 || carry == 1) && v[..i] == was[..i] && ShiftedLeft(was[i..], v[i..], carry)
  {
    hide ShiftedLeft;
    ghost var above := v[i + 1..];
    assert v[i] == v[..i + 1][i] == was[..i + 1][i] == was[i];
    assert v[..i] == v[..i + 1][..i] == was[..i + 1][..i] == was[..i];
    var y := x + v[i] as int * 2;
    ShiftStep(was[i], was[i + 1..], above, x, y);
    v[i] := y % 0x100;
    carry := y / 0x100;
    assert v[i..] == [v[i]] + above && was[i..] == [was[i]] + was[i + 1..];
  }

  /** v[15] ^= (-x) & 0x87 */
  method Feedback(v: array<byte>, x: int, ghost was: seq<byte>)
    requires v.Length == |was| == 16 && (x == 0 || x == 1) && ShiftedLeft(was, v[..], x)
    modifies v
    ensures v[..] == Dbl(was)
  {
    hide ShiftedLeft, Dbl, XorB, SAnd;
    ghost var t := v[..];
    TopXor(v[15], x);
    v[15] := XorB(v[15], SAnd(-x, 0x87));
    DblValue(was, t, x);
    assert v[..] == t[15 := XorB(t[15], SAnd(-x, 0x87))];
  }

  lemma NothingShifted(was: seq<byte>, now: seq<byte>)
    requires was == [] && now == []
    ensures ShiftedLeft(was, now, 0)
  {
  }

  lemma TopXor(b: byte, x: int)
    requires x == 0 || x == 1
    ensures SAnd(-x, 0x87) == if x == 1 then 0x87 else 0
    ensures XorB(b, 0) == b
  {
    hide SAnd, XorB;
    AndAllOnes(0x87);
    AndZero(0x87);
    XorBLaws(b, 0, 0);
  }

  lemma ShiftStep(b: byte, was: seq<byte>, now: seq<byte>, x: int, y: int)
    requires ShiftedLeft(was, now, x) && (x == 0 || x == 1) && y == x + b as int * 2
    ensures 0 <= y % 0x100 < 0x100 && (y / 0x100 == 0 || y / 0x100 == 1)
    ensures ShiftedLeft([b] + was, [y % 0x100] + now, y / 0x100)
  {
    hide BE, Pow2;
    var c: byte := y % 0x100;
    BEJoin([c], now);
    BEJoin([b], was);
    OneBE(b);
    OneBE(c);
    Pow2Add(8, 8 * |was|);
    assert Pow2(8) == 0x100 by { Pow2Small(); }
    ShiftTotal(c, b, x, y / 0x100, Pow2(8 * |was|));
  }

  lemma OneBE(b: byte)
    ensures BE([b]) == b
  {
    assert BE([b]) == 256 * BE([]) + b;
  }

  lemma ShiftTotal(b: int, y: int, x: int, x': int, w: int)
    requires b + 0x100 * x' == x + y * 2
    ensures b * w + x' * (0x100 * w) == x * w + 2 * (y * w)
  {
    assert (b + 0x100 * x') * w == (x + y * 2) * w;
  }

  lemma DblValue(s: Block, t: Block, x: int)
    requires (x == 0 || x == 1) && ShiftedLeft(s, t, x)
    ensures Dbl(s) == if x == 0 then t else t[15 := XorB(t[15], 0x87)]
  {
    hide BE, ToBE, Pow2;
    Pow2Literals();
    BEBound(t);
    BEBound(s);
    BEOfToBE(2 * BE(s) % TWO128, 16);
    BEInjective(t, ToBE(2 * BE(s) % TWO128, 16));
  }

  // ---- siv_cmac ------------------------------------------------------------------------

  datatype MaybeBlock = NoBlock | SomeBlock(block: Block)

  /** The message that siv_cmac authenticates. */
  function Message(data: seq<byte>, xorend: MaybeBlock): (m: seq<byte>)
    requires xorend.SomeBlock? ==> |data| >= 16
    ensures |m| == |data|
  {
    if xorend.SomeBlock? then XorEnd(data, xorend.block) else data
  }

  /** blk has taken in i bytes of m, the last j of them since the last encryption. */
  ghost predicate Chained(e: Cipher, m: seq<byte>, i: nat, j: nat, blk: seq<byte>) {
    && |blk| == 16 && j <= 16 && j <= i <= |m| && (i - j) % 16 == 0
    && (forall k :: 0 <= k < j ==> blk[k] == XorB(CbcMac(e, m[..i - j])[k], m[i - j + k]))
    && (forall k :: j <= k < 16 ==> blk[k] == CbcMac(e, m[..i - j])[k])
  }

  lemma FullBlock(e: Cipher, m: seq<byte>, i: nat, blk: seq<byte>)
    requires Chained(e, m, i, 16, blk)
    ensures Chained(e, m, i, 0, e(blk))
  {
    hide XorB;
    var c := CbcMac(e, m[..i - 16]);
    assert m[..i][..i - 16] == m[..i - 16];
    assert blk == XorBlock(c, m[..i][i - 16..]);
  }

  lemma NextByte(e: Cipher, m: seq<byte>, i: nat, j: nat, blk: seq<byte>)
    requires j < 16 && i < |m| && Chained(e, m, i, j, blk)
    ensures Chained(e, m, i + 1, j + 1, blk[j := XorB(blk[j], m[i])])
  {
    hide XorB, CbcMac;
  }

  /** The lines that encrypt a full block before the next byte. */
  method MakeRoom(blk: array<byte>, j: nat, e: Cipher, ghost m: seq<byte>, ghost i: nat) returns (k: nat)
    requires blk.Length == 16 && Chained(e, m, i, j, blk[..])
    modifies blk
    ensures k < 16 && (k == 0 ==> i % 16 == 0) && Chained(e, m, i, k, blk[..])
  {
    hide XorB, CbcMac;
    k := j;
    if j >= 16 {
      FullBlock(e, m, i, blk[..]);
      Store(blk, e(blk[..]));
      k := 0;
    }
  }

  /** aes256_encrypt_ecb in place. */
  method Store(blk: array<byte>, s: Block)
    requires blk.Length == 16
    modifies blk
    ensures blk[..] == s
  {
    for i := 0 to 16
      invariant blk[..i] == s[..i]
    {
      blk[i] := s[i];
    }
    assert blk[..] == blk[..16] && s[..16] == s;
  }

  /** CMAC fed byte by byte; the second loop xors 16 bytes into the end of the message. */
  method SivCmac(data: seq<byte>, xorend: MaybeBlock, e: Cipher) returns (res: Block)
    requires xorend.SomeBlock? ==> |data| >= 16
    ensures res == Cmac(e, Message(data, xorend))
  {
    hide XorB, CbcMac, Chained, Dbl, Cmac, Message;
    ghost var m := Message(data, xorend);
    var blk := new byte[16](_ => 0);
    var k12 := new byte[16](_ => 0);
    ghost var zero := Zeros(16);
    assert k12[..] == zero;
    Store(k12, e(k12[..]));
    CmacDbl(k12);
    var i: nat, j: nat := 0, 0;
    Nothing(e, m, blk[..]);
    while i + 16 < |data|
      invariant 0 <= i <= |data| && j <= 16 && (i > 0 ==> j > 0) && (|data| >= 16 ==> i <= |data| - 16)
        && (|data| < 16 ==> i == 0)
      invariant k12[..] == Dbl(e(zero)) && Chained(e, m, i, j, blk[..])
    {
      j := MakeRoom(blk, j, e, m, i);
      NextByte(e, m, i, j, blk[..]);
      PlainStep(blk, j, data, xorend, i);
      j := j + 1;
      i := i + 1;
    }
    while i < |data|
      invariant 0 <= i <= |data| && j <= 16 && (i > 0 ==> j > 0) && (|data| >= 16 ==> i >= |data| - 16)
      invariant k12[..] == Dbl(e(zero)) && Chained(e, m, i, j, blk[..])
    {
      j := MakeRoom(blk, j, e, m, i);
      NextByte(e, m, i, j, blk[..]);
      EndStep(blk, j, data, xorend, i);
      j := j + 1;
      i := i + 1;
    }
    res := LastBlock(blk, k12, j, e, m);
  }

  /** One byte of the first loop. */
  method PlainStep(blk: array<byte>, j: nat, data: seq<byte>, xorend: MaybeBlock, i: nat)
    requires blk.Length == 16 && j < 16 && (xorend.SomeBlock? ==> |data| >= 16) && i + 16 < |data|
    modifies blk
    ensures blk[..] == old(blk[..])[j := XorB(old(blk[j]), Message(data, xorend)[i])]
  {
    hide XorB;
    blk[j] := XorB(blk[j], data[i]);
  }

  /** One byte of the second loop. */
  method EndStep(blk: array<byte>, j: nat, data: seq<byte>, xorend: MaybeBlock, i: nat)
    requires blk.Length == 16 && j < 16 && (xorend.SomeBlock? ==> |data| >= 16)
    requires i < |data| && (|data| >= 16 ==> i >= |data| - 16)
    modifies blk
    ensures blk[..] == old(blk[..])[j := XorB(old(blk[j]), Message(data, xorend)[i])]
  {
    hide XorB;
    if xorend.SomeBlock? {
      EndByte(data, xorend.block, i, blk[j]);
      blk[j] := XorB(blk[j], xorend.block[i + 16 - |data|]);
    }
    blk[j] := XorB(blk[j], data[i]);
  }

  lemma Nothing(e: Cipher, m: seq<byte>, blk: seq<byte>)
    requires |blk| == 16 && forall k :: 0 <= k < 16 ==> blk[k] == 0
    ensures Chained(e, m, 0, 0, blk)
  {
    assert m[..0] == [];
  }

  /** Xor-ing in the chaining byte and the data byte is xor-ing in the byte of the message. */
  lemma EndByte(data: seq<byte>, d: Block, i: nat, b: byte)
    requires |data| >= 16 && |data| - 16 <= i < |data|
    ensures XorB(XorB(b, d[i + 16 - |data|]), data[i]) == XorB(b, XorEnd(data, d)[i])
  {
    hide XorB;
    var k := i + 16 - |data|;
    XorBLaws(b, d[k], data[i]);
    XorBLaws(d[k], data[i], 0);
  }

  /** Padding, the subkey, the last encryption. */
  method LastBlock(blk: array<byte>, k12: array<byte>, j: nat, e: Cipher, ghost m: seq<byte>) returns (res: Block)
    requires blk.Length == 16 && k12.Length == 16 && blk != k12 && j <= 16 && (|m| > 0 ==> j > 0)
    requires k12[..] == Dbl(e(Zeros(16))) && Chained(e, m, |m|, j, blk[..])
    modifies blk, k12
    ensures res == Cmac(e, m)
  {
    hide XorB, CbcMac, Dbl, Chained;
    ghost var was := blk[..];
    if j < 16 {
      blk[j] := XorB(blk[j], 0x80);
      CmacDbl(k12);
      assert blk[..] == was[j := XorB(was[j], 0x80)];
    }
    LastTag(e, m, j, was, blk[..], k12[..]);
    XorInto(blk, k12);
    res := e(blk[..]);
  }

  /** The loop that xors the subkey into the block. */
  method XorInto(a: array<byte>, b: array<byte>)
    requires a.Length == 16 && b.Length == 16 && a != b
    modifies a
    ensures a[..] == XorBlock(old(a[..]), b[..])
  {
    hide XorB;
    ghost var t := a[..];
    for i := 0 to 16
      invariant forall l :: 0 <= l < 16 ==> a[l] == if l < i then XorB(t[l], b[l]) else t[l]
    {
      a[i] := XorB(a[i], b[i]);
    }
    assert a[..] == XorBlock(t, b[..]);
  }

  lemma LastTag(e: Cipher, m: seq<byte>, j: nat, was: seq<byte>, blk: seq<byte>, key: Block)
    requires j <= 16 && (|m| > 0 ==> j > 0) && Chained(e, m, |m|, j, was)
    requires blk == if j < 16 then was[j := XorB(was[j], 0x80)] else was
    requires key == if j < 16 then Dbl(Dbl(e(Zeros(16)))) else Dbl(e(Zeros(16)))
    ensures |blk| == 16 && e(XorBlock(blk, key)) == Cmac(e, m)
  {
    hide XorB, CbcMac, Dbl, LastStart;
    var c, last := CbcMac(e, m[..|m| - j]), m[|m| - j..];
    StartOfLast(|m|, j);
    if j < 16 {
      PadByte(c, last, j);
      assert blk == XorBlock(c, Pad(last));
    } else {
      assert blk == XorBlock(c, last);
    }
  }

  lemma StartOfLast(n: nat, j: nat)
    requires j <= 16 && j <= n && (n - j) % 16 == 0 && (n > 0 ==> j > 0)
    ensures LastStart(n) == n - j
  {
  }

  lemma PadByte(c: Block, last: seq<byte>, j: nat)
    requires |last| == j < 16
    ensures forall k :: 0 <= k < 16 ==> XorBlock(c, Pad(last))[k] == if k < j then XorB(c[k],
      last[k]) else if k == j then XorB(c[k], 0x80) else c[k]
  {
    hide XorB;
    forall k | 0 <= k < 16 ensures XorB(c[k], 0) == c[k] {
      XorBLaws(c[k], 0, 0);
    }
  }

  // ---- siv_ctr -------------------------------------------------------------------------

  /** All bytes of was are 255 and all bytes of now are 0, as numbers. */
  ghost predicate AllWrapped(was: seq<byte>, now: seq<byte>) {
    |was| == |now| && BE(was) + 1 == Pow2(8 * |was|) && BE(now) == 0
  }

  /** The counter loop: adds 1 from the last byte up until a byte does not wrap. */
  method Increment(cnt: array<byte>)
    requires cnt.Length == 16
    modifies cnt
    ensures cnt[..] == ToBE((old(BE(cnt[..])) + 1) % TWO128, 16)
  {
    hide BE, ToBE, Pow2, AllWrapped;
    ghost var was := cnt[..];
    var j := 15;
    NothingWrapped(was[16..], cnt[16..]);
    while j >= 0
      invariant -1 <= j <= 15
      invariant cnt[..j + 1] == was[..j + 1] && AllWrapped(was[j + 1..], cnt[j + 1..])
      decreases j
    {
      WrapByte(cnt, j, was);
      if cnt[j] != 0 {
        assert cnt[..] == cnt[..j] + cnt[j..];
        StopStep(was, j, cnt[j..]);
        return;
      }
      j := j - 1;
    }
    assert cnt[0..] == cnt[..] && was[0..] == was;
    Wrapped(was, cnt[..]);
  }

  /** cnt[j]++ */
  method WrapByte(cnt: array<byte>, j: nat, ghost was: seq<byte>)
    requires cnt.Length == |was| == 16 && j < 16
    requires cnt[..j + 1] == was[..j + 1] && AllWrapped(was[j + 1..], cnt[j + 1..])
    modifies cnt
    ensures cnt[..j] == was[..j]
    ensures if cnt[j] == 0 then AllWrapped(was[j..], cnt[j..]) else BE(cnt[j..]) == BE(was[j..]) + 1
  {
    hide BE, AllWrapped;
    ghost var above := cnt[j + 1..];
    assert cnt[j] == cnt[..j + 1][j] == was[..j + 1][j] == was[j];
    assert cnt[..j] == cnt[..j + 1][..j] == was[..j + 1][..j] == was[..j];
    cnt[j] := (cnt[j] as int + 1) % 0x100;
    assert cnt[j..] == [cnt[j]] + above && was[j..] == [was[j]] + was[j + 1..];
    WrapStep(was[j], was[j + 1..], above, cnt[j]);
  }

  lemma NothingWrapped(was: seq<byte>, now: seq<byte>)
    requires was == [] && now == []
    ensures AllWrapped(was, now)
  {
  }

  lemma WrapStep(a: byte, was: seq<byte>, now: seq<byte>, b: byte)
    requires AllWrapped(was, now) && b as int == (a as int + 1) % 0x100
    ensures b == 0 ==> AllWrapped([a] + was, [b] + now)
    ensures b != 0 ==> BE([b] + now) == BE([a] + was) + 1
  {
    hide BE, Pow2;
    BEJoin([b], now);
    BEJoin([a], was);
    OneBE(b);
    OneBE(a);
    Pow2Add(8, 8 * |was|);
    assert Pow2(8) == 0x100 by { Pow2Small(); }
    NextWeight(a, Pow2(8 * |was|));
    if b == 0 {
      assert a == 255;
    }
  }

  lemma NextWeight(y: int, w: int)
    ensures (y + 1) * w == y * w + w
  {
  }

  lemma StopStep(was: Block, j: nat, tail: seq<byte>)
    requires j <= 15 && |tail| == 16 - j && BE(tail) == BE(was[j..]) + 1
    ensures was[..j] + tail == ToBE((BE(was) + 1) % TWO128, 16)
  {
    hide BE, ToBE, Pow2;
    assert was == was[..j] + was[j..];
    BEJoin(was[..j], was[j..]);
    BEJoin(was[..j], tail);
    BEBound(was[..j] + tail);
    Pow2Literals();
    BEOfToBE(BE(was) + 1, 16);
    BEInjective(was[..j] + tail, ToBE(BE(was) + 1, 16));
  }

  lemma Wrapped(was: Block, cnt: Block)
    requires AllWrapped(was, cnt)
    ensures cnt == ToBE((BE(was) + 1) % TWO128, 16)
  {
    hide BE, ToBE, Pow2;
    Pow2Literals();
    BEOfToBE(0, 16);
    BEInjective(cnt, ToBE(0, 16));
  }

  /** Encryption and decryption in counter mode. */
  method SivCtr(src: seq<byte>, iv: Block, e: Cipher) returns (dst: seq<byte>)
    ensures dst == Ctr(e, iv, src)
  {
    hide XorB, BE, ToBE, Pow2, And, Ctr, KeyBlock;
    var cnt := new byte[16](i requires 0 <= i < 16 => iv[i]);
    assert cnt[..] == iv;
    ClearBits(cnt);
    ghost var c := BE(Counter(iv));
    CounterStart(iv);
    hide Counter;
    var blk: Block := Zeros(16);
    var j := 16;
    dst := [];
    ghost var n := 0;
    for i := 0 to |src|
      invariant cnt[..] == ToBE((c + n) % TWO128, 16)
      invariant j <= 16 && 16 * n == i + (16 - j) && (n > 0 ==> blk == KeyBlock(e, iv, n - 1)) && (n == 0 ==> i == 0)
      invariant dst == Ctr(e, iv, src)[..i]
    {
      if j >= 16 {
        blk := e(cnt[..]);
        NextCounter(c + n);
        NthBlock(e, iv, n);
        Increment(cnt);
        n := n + 1;
        j := 0;
      }
      CtrByte(e, iv, src, i, n - 1, j);
      dst := dst + [XorB(src[i], blk[j])];
      j := j + 1;
    }
  }

  method ClearBits(cnt: array<byte>)
    requires cnt.Length == 16
    modifies cnt
    ensures cnt[..] == Counter(old(cnt[..]))
  {
    hide And;
    SevenBits(cnt[8]);
    SevenBits(cnt[12]);
    cnt[8] := And(cnt[8], 0x7f);
    cnt[12] := And(cnt[12], 0x7f);
  }

  lemma NthBlock(e: Cipher, v: Block, n: nat)
    ensures KeyBlock(e, v, n) == e(ToBE((BE(Counter(v)) + n) % TWO128, 16))
  {
  }

  lemma CtrByte(e: Cipher, v: Block, m: seq<byte>, i: nat, k: nat, j: nat)
    requires i < |m| && i == 16 * k + j && j < 16
    ensures Ctr(e, v, m)[..i + 1] == Ctr(e, v, m)[..i] + [XorB(m[i], KeyBlock(e, v, k)[j])]
  {
    hide XorB, KeyBlock;
    assert i / 16 == k && i % 16 == j;
  }

  lemma SevenBits(x: nat)
    ensures And(x, 0x7f) == x % 128
  {
    hide And;
    assert Pow2(7) == 128 by { Pow2Small(); }
    AndMask(x, 7);
  }

  lemma CounterStart(iv: Block)
    ensures Counter(iv) == ToBE((BE(Counter(iv)) + 0) % TWO128, 16)
  {
    hide BE, ToBE, Pow2;
    Pow2Literals();
    BEBound(Counter(iv));
    BEOfToBE(BE(Counter(iv)), 16);
    BEInjective(Counter(iv), ToBE(BE(Counter(iv)), 16));
  }

  lemma NextCounter(x: nat)
    ensures BE(ToBE(x % TWO128, 16)) == x % TWO128 && (x % TWO128 + 1) % TWO128 == (x + 1) % TWO128
  {
    hide BE, ToBE, Pow2;
    Pow2Literals();
    BEOfToBE(x % TWO128, 16);
  }

  /** The cleared bit keeps the low 32 bits from overflowing, so that for up to 2^31 blocks a
    * 128-bit counter and a 32-bit one run alike. */
  lemma NoCarryOut(v: Block, k: nat)
    requires k < 0x8000_0000
    ensures BE(Counter(v)) % 0x1_0000_0000 + k < 0x1_0000_0000
    ensures (BE(Counter(v)) + k) % TWO128 / 0x1_0000_0000 == BE(Counter(v)) / 0x1_0000_0000
  {
    hide BE, Pow2;
    var c := Counter(v);
    assert c == c[..12] + c[12..] && c[12..] == [c[12]] + c[13..];
    BEJoin(c[..12], c[12..]);
    BEJoin([c[12]], c[13..]);
    OneBE(c[12]);
    BEBound(c[13..]);
    BEBound(c);
    Pow2Literals();
    Pow2Small();
    LowWord(BE(c[..12]), c[12], BE(c[13..]), k);
  }

  lemma LowWord(high: nat, b: nat, low: nat, k: nat)
    requires b < 128 && low < 0x100_0000 && k < 0x8000_0000
    requires high * 0x1_0000_0000 + (b * 0x100_0000 + low) < TWO128
    ensures var c := high * 0x1_0000_0000 + (b * 0x100_0000 + low);
      c % 0x1_0000_0000 + k < 0x1_0000_0000 && (c + k) % TWO128 / 0x1_0000_0000 == c / 0x1_0000_0000
  {
    var l := b * 0x100_0000 + low;
    DivModUnique(high * 0x1_0000_0000 + l, 0x1_0000_0000, high, l);
    DivModUnique(high * 0x1_0000_0000 + l + k, 0x1_0000_0000, high, l + k);
    BelowTop(high, l + k);
  }

  lemma BelowTop(high: nat, l: nat)
    requires high * 0x1_0000_0000 < TWO128 && l < 0x1_0000_0000
    ensures (high * 0x1_0000_0000 + l) % TWO128 == high * 0x1_0000_0000 + l
  {
    assert high < 0x1_0000_0000_0000_0000_0000_0000;
  }

  // ---- aes256_encrypt_siv and aes256_decrypt_siv ---------------------------------------

  /** The lines that both functions use to compute the synthetic IV. */
  method SyntheticIV(ad: seq<byte>, pt: seq<byte>, e: Cipher) returns (tag: Block)
    ensures tag == S2V(e, ad, pt)
  {
    hide XorB, Cmac, Dbl, XorEnd;
    var d := new byte[16](_ => 0);
    ghost var zero := Zeros(16);
    assert d[..] == zero;
    var c := SivCmac(d[..], NoBlock, e);
    Store(d, c);
    CmacDbl(d);
    c := SivCmac(ad, NoBlock, e);
    var x := new byte[16](i requires 0 <= i < 16 => c[i]);
    assert x[..] == c;
    XorInto(d, x);
    if |pt| >= 16 {
      tag := SivCmac(pt, SomeBlock(d[..]), e);
    } else {
      CmacDbl(d);
      XorPadded(d, pt);
      tag := SivCmac(d[..], NoBlock, e);
    }
  }

  /** Xors a short plaintext and the padding bit into d. */
  method XorPadded(d: array<byte>, pt: seq<byte>)
    requires d.Length == 16 && |pt| < 16
    modifies d
    ensures d[..] == XorBlock(old(d[..]), Pad(pt))
  {
    hide XorB;
    ghost var was := d[..];
    for i := 0 to |pt|
      invariant forall k :: 0 <= k < 16 ==> d[k] == if k < i then XorB(was[k], pt[k]) else was[k]
    {
      d[i] := XorB(d[i], pt[i]);
    }
    d[|pt|] := XorB(d[|pt|], 0x80);
    PadByte(was, pt, |pt|);
    assert d[..] == XorBlock(was, Pad(pt));
  }

  method Aes256EncryptSiv(ad: seq<byte>, pt: seq<byte>, e: Cipher) returns (ct: seq<byte>, ctlen: nat)
    ensures ct == Encrypt(e, ad, pt) && ctlen == |pt| + 16 == |ct|
  {
    hide S2V, Ctr;
    var tag := SyntheticIV(ad, pt, e);
    var body := SivCtr(pt, tag, e);
    ct := tag + body;
    ctlen := |pt| + 16;
  }

  /** A result of 0 says that the ciphertext is the encryption of the returned plaintext. */
  method Aes256DecryptSiv(ad: seq<byte>, ct: seq<byte>, e: Cipher) returns (ret: int, pt: seq<byte>, ptlen: nat)
    requires |ct| >= 16
    ensures ptlen == |ct| - 16 == |pt| && pt == Ctr(e, ct[..16], ct[16..])
    ensures ret == 0 <==> ct == Encrypt(e, ad, pt)
  {
    hide S2V, Ctr, Encrypt;
    ptlen := |ct| - 16;
    pt := SivCtr(ct[16..], ct[..16], e);
    var x := SyntheticIV(ad, pt, e);
    ret := if ct[..16] == x then 0 else 1;
    OnlyEncryption(e, ad, ct, pt);
  }

  /** Counter mode with the same counter undoes itself. */
  lemma CtrTwice(e: Cipher, v: Block, m: seq<byte>)
    ensures Ctr(e, v, Ctr(e, v, m)) == m
  {
    hide XorB, KeyBlock;
    forall i | 0 <= i < |m| ensures XorB(XorB(m[i], KeyBlock(e, v, i / 16)[i % 16]),
      KeyBlock(e, v, i / 16)[i % 16]) == m[i] {
      XorBLaws(m[i], KeyBlock(e, v, i / 16)[i % 16], 0);
    }
  }

  /** Accepting the tag and being an encryption of the recovered plaintext are the same. */
  lemma OnlyEncryption(e: Cipher, ad: seq<byte>, ct: seq<byte>, pt: seq<byte>)
    requires |ct| >= 16 && pt == Ctr(e, ct[..16], ct[16..])
    ensures ct[..16] == S2V(e, ad, pt) <==> ct == Encrypt(e, ad, pt)
  {
    hide S2V, Ctr;
    CtrTwice(e, ct[..16], ct[16..]);
    assert ct == ct[..16] + ct[16..];
  }

  /** Decryption recovers every plaintext and accepts its tag, for every key, associated string
    * and length. */
  lemma DecryptsEncryption(e: Cipher, ad: seq<byte>, pt: seq<byte>)
    ensures var ct := Encrypt(e, ad, pt);
      |ct| >= 16 && Ctr(e, ct[..16], ct[16..]) == pt
  {
    hide S2V, Ctr;
    var v := S2V(e, ad, pt);
    CtrTwice(e, v, pt);
    assert Encrypt(e, ad, pt)[..16] == v && Encrypt(e, ad, pt)[16..] == Ctr(e, v, pt);
  }

  /** Under one associated string, ciphertexts determine plaintexts and the other way round. */
  lemma EncryptInjective(e: Cipher, ad: seq<byte>, p: seq<byte>, q: seq<byte>)
    requires Encrypt(e, ad, p) == Encrypt(e, ad, q)
    ensures p == q
  {
    hide Encrypt, Ctr;
    DecryptsEncryption(e, ad, p);
    DecryptsEncryption(e, ad, q);
  }
}
