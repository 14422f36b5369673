/** Between byte strings and 21-bit limbs, and the two entry points of sc.c. */
module ScBytes {
  import opened Bytes
  import opened Sc

  // ---- unpacking -----------------------------------------------------------------------

  /** 2097151 & (load_3(s + off) >> sh) */
  function Limb3(s: seq<byte>, off: nat, sh: nat): (r: int)
    requires off + 3 <= |s| && sh <= 3
    ensures r == LE(s) / Pow2(8 * off + sh) % 0x20_0000
  {
    hide Pow2, LE, And, Shr;
    LE3(s[off..]);
    Pow2Small();
    LoadedBits(s[off..], Load3(s[off..]), 24, sh, 21, LE(s[off..][3..]));
    DropBits(s, off, sh);
    And(Shr(Load3(s[off..]), sh), 0x1f_ffff)
  }

  /** 2097151 & (load_4(s + off) >> sh) */
  function Limb4(s: seq<byte>, off: nat, sh: nat): (r: int)
    requires off + 4 <= |s| && sh <= 11
    ensures r == LE(s) / Pow2(8 * off + sh) % 0x20_0000
  {
    hide Pow2, LE, And, Shr;
    LE4(s[off..]);
    Pow2Small();
    Pow2Literals();
    LoadedBits(s[off..], Load4(s[off..]), 32, sh, 21, LE(s[off..][4..]));
    DropBits(s, off, sh);
    And(Shr(Load4(s[off..]), sh), 0x1f_ffff)
  }

  /** load_4(s + off) >> sh at the end of a string, without a mask. */
  function Limb4Top(s: seq<byte>, off: nat, sh: nat): (r: int)
    requires off + 4 == |s|
    ensures r == LE(s) / Pow2(8 * off + sh)
  {
    hide Pow2, LE;
    LE4(s[off..]);
    EmptyLE();
    DropBits(s, off, sh);
    Shr(Load4(s[off..]), sh)
  }

  /** s holds the base-2^21 digits of x, with all remaining bits in the last limb. */
  ghost predicate Spells(s: seq<int>, x: nat) {
    && |s| > 0 && s[|s| - 1] == x / Radix21(|s| - 1)
    && forall j :: 0 <= j < |s| - 1 ==> s[j] == x / Radix21(j) % 0x20_0000
  }

  lemma {:induction false} SpelledValue(s: seq<int>, x: nat, i: nat)
    requires i < |s| && Spells(s, x)
    ensures Limbs(s, i) == x / Radix21(i)
    decreases |s| - i
  {
    hide Radix21;
    if i == |s| - 1 {
      assert Limbs(s, i + 1) == 0;
    } else {
      SpelledValue(s, x, i + 1);
      RadixNext(i);
      DivDiv(x, Radix21(i), 0x20_0000);
    }
  }

  /** The 24 limbs that sc_reduce starts from. */
  function Unpack24(s: seq<byte>): (r: seq<int>)
    requires |s| == 64
    ensures |r| == 24 && Spells(r, LE(s))
  {
    hide Limb3, Limb4, Limb4Top, LE, Pow2;
    [
      Limb3(s, 0, 0), Limb4(s, 2, 5), Limb3(s, 5, 2), Limb4(s, 7, 7), Limb4(s, 10, 4), Limb3(s, 13, 1),
      Limb4(s, 15, 6), Limb3(s, 18, 3), Limb3(s, 21, 0), Limb4(s, 23, 5), Limb3(s, 26, 2), Limb4(s, 28, 7),
      Limb4(s, 31, 4), Limb3(s, 34, 1), Limb4(s, 36, 6), Limb3(s, 39, 3), Limb3(s, 42, 0), Limb4(s, 44, 5),
      Limb3(s, 47, 2), Limb4(s, 49, 7), Limb4(s, 52, 4), Limb3(s, 55, 1), Limb4(s, 57, 6), Limb4Top(s, 60, 3)
    ]
  }

  /** The 12 limbs of a 32-byte operand of sc_muladd. */
  function Unpack12(s: seq<byte>): (r: seq<int>)
    requires |s| == 32
    ensures |r| == 12 && Spells(r, LE(s))
  {
    hide Limb3, Limb4, Limb4Top, LE, Pow2;
    [
      Limb3(s, 0, 0), Limb4(s, 2, 5), Limb3(s, 5, 2), Limb4(s, 7, 7), Limb4(s, 10, 4), Limb3(s, 13, 1),
      Limb4(s, 15, 6), Limb3(s, 18, 3), Limb3(s, 21, 0), Limb4(s, 23, 5), Limb3(s, 26, 2), Limb4Top(s, 28, 7)
    ]
  }

  // ---- packing -------------------------------------------------------------------------

  ghost predicate Packable(s: seq<int>) {
    |s| == 12 && (forall j :: 0 <= j < 11 ==> Digit(s[j])) && 0 <= s[11] <= 0x20_0000
  }

  lemma BitsAbove(s: seq<int>, i: nat, a: nat)
    requires Packable(s) && i < 12 && a <= 21
    ensures 0 <= Limbs(s, 0) && Limbs(s, i + 1) >= 0
    ensures Shr(Limbs(s, 0), 21 * i + a) == Shr(s[i], a) + Pow2(21 - a) * Limbs(s, i + 1)
  {
    hide Pow2, Limbs;
    NonNegative(s, i + 1);
    NonNegative(s, i);
    LimbsSplit(s, i);
    LimbsDigits(s[..i], 0);
    NonNegative(s, 0);
    DivModUnique(Limbs(s, 0), Radix21(i), Limbs(s, i), Limbs(s[..i], 0));
    DivDiv(Limbs(s, 0), Pow2(21 * i), Pow2(a));
    Pow2Add(21 * i, a);
    Pow2Add(a, 21 - a);
    assert Pow2(21) == 0x20_0000 by { Pow2Small(); }
    HeadLimb(s, i);
    BitsOrder(Pow2(a), Pow2(21 - a), Limbs(s, i + 1));
    DivAdd(s[i], Pow2(a), Pow2(21 - a) * Limbs(s, i + 1));
  }

  lemma BitsOrder(m: int, k: int, t: int)
    requires m * k == 0x20_0000
    ensures m * (k * t) == 0x20_0000 * t
  {
    assert m * (k * t) == (m * k) * t;
  }

  lemma HeadLimb(s: seq<int>, i: nat)
    requires i < |s|
    ensures Limbs(s, i) == s[i] + 0x20_0000 * Limbs(s, i + 1)
  {
  }

  lemma {:induction false} NonNegative(s: seq<int>, i: nat)
    requires i <= |s| && forall j :: i <= j < |s| ==> s[j] >= 0
    ensures Limbs(s, i) >= 0
    decreases |s| - i
  {
    if i == |s| {
    } else {
      NonNegative(s, i + 1);
    }
  }

  /** (unsigned char) (s_i >> a) */
  function Byte1(s: seq<int>, i: nat, a: nat): (b: byte)
    requires Packable(s) && i < 11 && a <= 13
    ensures Limbs(s, 0) >= 0 && b == Shr(Limbs(s, 0), 21 * i + a) % 0x100
  {
    hide Pow2, Limbs, Shr;
    BitsAbove(s, i, a);
    LowByte(Shr(s[i], a), a, Limbs(s, i + 1));
    Shr(s[i], a) % 0x100
  }

  lemma LowByte(x: nat, a: nat, t: nat)
    requires a <= 13
    ensures (x + Pow2(21 - a) * t) % 0x100 == x % 0x100
  {
    hide Pow2;
    Pow2Add(8, 13 - a);
    assert Pow2(8) == 0x100 by { Pow2Small(); }
    LoadOrder1(Pow2(13 - a), t);
    DivAdd(x, 0x100, Pow2(13 - a) * t);
  }

  lemma LoadOrder1(k: int, t: int)
    ensures 0x100 * k * t == 0x100 * (k * t)
  {
  }

  /** The same for the last limb. */
  function Byte1Top(s: seq<int>, a: nat): (b: byte)
    requires Packable(s) && a <= 21
    ensures Limbs(s, 0) >= 0 && b == Shr(Limbs(s, 0), 231 + a) % 0x100
  {
    hide Pow2, Limbs, Shr;
    BitsAbove(s, 11, a);
    NoLimbs(s);
    assert Pow2(21 - a) * 0 == 0;
    Shr(s[11], a) % 0x100
  }

  lemma NoLimbs(s: seq<int>)
    ensures Limbs(s, |s|) == 0
  {
  }

  /** (unsigned char) ((s_i >> a) | (s_(i + 1) << (21 - a))), with p standing for 2^(21 - a) */
  function Byte2(s: seq<int>, i: nat, a: nat, p: nat): (b: byte)
    requires Packable(s) && i < 11 && 14 <= a < 21 && Shift(p) && p == Pow2(21 - a)
    ensures Limbs(s, 0) >= 0 && b == Shr(Limbs(s, 0), 21 * i + a) % 0x100
  {
    hide Pow2, Limbs, Shr, Or;
    ShiftedOut(s[i], a, p);
    Byte2Value(s, i, a, p);
    Or(Shr(s[i], a), s[i + 1] * p) % 0x100
  }

  lemma Byte2Value(s: seq<int>, i: nat, a: nat, p: nat)
    requires Packable(s) && i < 11 && 14 <= a < 21 && Shift(p) && p == Pow2(21 - a)
    ensures Limbs(s, 0) >= 0 && Or(Shr(s[i], a), s[i + 1] * p) % 0x100 == Shr(Limbs(s, 0), 21 * i + a) % 0x100
  {
    hide Pow2, Limbs, Shr, Or;
    BitsAbove(s, i, a);
    HeadLimb(s, i + 1);
    NonNegative(s, i + 2);
    ShiftedOut(s[i], a, p);
    OrShift(Shr(s[i], a), s[i + 1], p);
    ByteOver(Shr(s[i], a), s[i + 1], Limbs(s, i + 2), p);
  }

  lemma ShiftedOut(x: nat, a: nat, p: nat)
    requires a <= 21 && p == Pow2(21 - a) && x < 0x20_0000
    ensures Shr(x, a) < p
  {
    hide Pow2;
    Pow2Add(a, 21 - a);
    assert Pow2(21) == 0x20_0000 by { Pow2Small(); }
    QuotientBelow(x, Pow2(a), p);
  }

  /** Bits beyond the next limb do not reach the byte. */
  lemma ByteOver(x: nat, y: nat, t: nat, p: nat)
    requires Shift(p)
    ensures (x + p * (y + 0x20_0000 * t)) % 0x100 == (x + p * (y % (0x100 / p))) % 0x100
  {
    var q := 0x100 / p;
    assert p * q == 0x100 && y == q * (y / q) + y % q;
    ByteOverBy(x, y, t, p, q, y / q, y % q);
  }

  lemma ByteOverBy(x: int, y: int, t: int, p: int, q: int, d: int, r: int)
    requires p * q == 0x100 && y == q * d + r
    ensures (x + p * (y + 0x20_0000 * t)) % 0x100 == (x + p * r) % 0x100
  {
    OverOrder(p, q, d, r, t);
    DropBytes(x + p * r, d + 0x2000 * (p * t));
  }

  lemma DropBytes(x: int, z: int)
    ensures (x + 0x100 * z) % 0x100 == x % 0x100
  {
  }

  lemma OverOrder(p: int, q: int, d: int, r: int, t: int)
    requires p * q == 0x100
    ensures p * (q * d + r + 0x20_0000 * t) == p * r + 0x100 * (d + 0x2000 * (p * t))
  {
    assert p * (q * d) == (p * q) * d;
    assert p * (q * d + r + 0x20_0000 * t) == p * (q * d) + p * r + 0x20_0000 * (p * t);
  }

  /** The bytes of x. */
  ghost predicate BytesOf(b: seq<byte>, x: nat, from: nat) {
    forall j :: 0 <= j < |b| ==> b[j] == Shr(x, 8 * (from + j)) % 0x100
  }

  lemma BytesJoin(b: seq<byte>, c: seq<byte>, x: nat, from: nat)
    requires BytesOf(b, x, from) && BytesOf(c, x, from + |b|)
    ensures BytesOf(b + c, x, from)
  {
    hide Shr;
    forall j | 0 <= j < |b + c| ensures (b + c)[j] == Shr(x, 8 * (from + j)) % 0x100 {
      if j >= |b| {
        assert (b + c)[j] == c[j - |b|];
        assert from + |b| + (j - |b|) == from + j;
      }
    }
  }

  lemma {:induction false} BytesValue(b: seq<byte>, x: nat, i: nat)
    requires i <= |b| && BytesOf(b, x, 0) && x < Pow2(8 * |b|)
    ensures LE(b[i..]) == x / Pow2(8 * i)
    decreases |b| - i
  {
    hide Pow2;
    if i == |b| {
      DivModUnique(x, Pow2(8 * i), 0, x);
    } else {
      BytesValue(b, x, i + 1);
      Pow2Add(8 * i, 8);
      assert Pow2(8) == 0x100 by { Pow2Small(); }
      DivDiv(x, Pow2(8 * i), 0x100);
      assert b[i..][1..] == b[i + 1..];
    }
  }

  // The thirty-two output bytes, eight at a time.

  function Pack0(s: seq<int>): (b: seq<byte>)
    requires Packable(s)
    ensures |b| == 8 && Limbs(s, 0) >= 0 && BytesOf(b, Limbs(s, 0), 0)
  {
    hide Limbs, Pow2, Byte1, Byte1Top, Byte2, Shr;
    Pow2Small();
    BitsAbove(s, 0, 0);
    [
      Byte1(s, 0, 0), Byte1(s, 0, 8), Byte2(s, 0, 16, 32), Byte1(s, 1, 3),
      Byte1(s, 1, 11), Byte2(s, 1, 19, 4), Byte1(s, 2, 6), Byte2(s, 2, 14, 128)
    ]
  }

  function Pack1(s: seq<int>): (b: seq<byte>)
    requires Packable(s)
    ensures |b| == 8 && Limbs(s, 0) >= 0 && BytesOf(b, Limbs(s, 0), 8)
  {
    hide Limbs, Pow2, Byte1, Byte1Top, Byte2, Shr;
    Pow2Small();
    BitsAbove(s, 0, 0);
    [
      Byte1(s, 3, 1), Byte1(s, 3, 9), Byte2(s, 3, 17, 16), Byte1(s, 4, 4),
      Byte1(s, 4, 12), Byte2(s, 4, 20, 2), Byte1(s, 5, 7), Byte2(s, 5, 15, 64)
    ]
  }

  function Pack2(s: seq<int>): (b: seq<byte>)
    requires Packable(s)
    ensures |b| == 8 && Limbs(s, 0) >= 0 && BytesOf(b, Limbs(s, 0), 16)
  {
    hide Limbs, Pow2, Byte1, Byte1Top, Byte2, Shr;
    Pow2Small();
    BitsAbove(s, 0, 0);
    [
      Byte1(s, 6, 2), Byte1(s, 6, 10), Byte2(s, 6, 18, 8), Byte1(s, 7, 5),
      Byte1(s, 7, 13), Byte1(s, 8, 0), Byte1(s, 8, 8), Byte2(s, 8, 16, 32)
    ]
  }

  function Pack3(s: seq<int>): (b: seq<byte>)
    requires Packable(s)
    ensures |b| == 8 && Limbs(s, 0) >= 0 && BytesOf(b, Limbs(s, 0), 24)
  {
    hide Limbs, Pow2, Byte1, Byte1Top, Byte2, Shr;
    Pow2Small();
    BitsAbove(s, 0, 0);
    [
      Byte1(s, 9, 3), Byte1(s, 9, 11), Byte2(s, 9, 19, 4), Byte1(s, 10, 6),
      Byte2(s, 10, 14, 128), Byte1Top(s, 1), Byte1Top(s, 9), Byte1Top(s, 17)
    ]
  }

  function PackLow(s: seq<int>): (b: seq<byte>)
    requires Packable(s)
    ensures |b| == 16 && Limbs(s, 0) >= 0 && BytesOf(b, Limbs(s, 0), 0)
  {
    hide *;
    var low, high := Pack0(s), Pack1(s);
    BytesJoin(low, high, Limbs(s, 0), 0);
    low + high
  }

  function PackHigh(s: seq<int>): (b: seq<byte>)
    requires Packable(s)
    ensures |b| == 16 && Limbs(s, 0) >= 0 && BytesOf(b, Limbs(s, 0), 16)
  {
    hide *;
    var low, high := Pack2(s), Pack3(s);
    BytesJoin(low, high, Limbs(s, 0), 16);
    low + high
  }

  function Pack(s: seq<int>): seq<byte>
    requires Packable(s)
  {
    PackLow(s) + PackHigh(s)
  }

  lemma PackValue(s: seq<int>)
    requires Packable(s) && Limbs(s, 0) < Pow2(256)
    ensures |Pack(s)| == 32 && LE(Pack(s)) == Limbs(s, 0)
  {
    hide Limbs, Pow2, PackLow, PackHigh, LE, BytesOf;
    BytesJoin(PackLow(s), PackHigh(s), Limbs(s, 0), 0);
    PackedValue(Pack(s), Limbs(s, 0));
  }

  lemma PackedValue(b: seq<byte>, x: nat)
    requires |b| == 32 && BytesOf(b, x, 0) && x < Pow2(256)
    ensures LE(b) == x
  {
    hide Pow2;
    BytesValue(b, x, 0);
    assert b[0..] == b && Pow2(0) == 1 by { Pow2Small(); }
  }

  // ---- products ------------------------------------------------------------------------

  /** Column k of a schoolbook product over the first n limbs of a: the sum of a_i b_(k - i). */
  function Column(a: seq<int>, b: seq<int>, k: nat, n: nat): int
    requires n <= |a|
  {
    if n == 0 then 0
    else Column(a, b, k, n - 1) + if n - 1 <= k < n - 1 + |b| then a[n - 1] * b[k - (n - 1)] else 0
  }

  /** Twelve limbs of an operand: only the last one exceeds 21 bits. */
  ghost predicate Operand(a: seq<int>) {
    |a| == 12 && (forall j :: 0 <= j < 11 ==> Digit(a[j])) && 0 <= a[11] < 0x200_0000
  }

  /** Twelve products stay far inside 64 bits. */
  lemma {:induction false} ColumnBound(a: seq<int>, b: seq<int>, k: nat, n: nat)
    requires Operand(a) && Operand(b) && n <= 12 && k != 22
    ensures 0 <= Column(a, b, k, n) <= n * 0x4000_0000_0000
  {
    if n == 0 {
    } else {
      ColumnBound(a, b, k, n - 1);
      if n - 1 <= k < n - 1 + |b| {
        TermRange(a[n - 1], b[k - (n - 1)]);
      }
    }
  }

  lemma {:induction false} ColumnEmpty(a: seq<int>, b: seq<int>, k: nat, n: nat)
    requires n <= |a| && k >= n - 1 + |b|
    ensures Column(a, b, k, n) == 0
  {
    if n == 0 {
    } else {
      ColumnEmpty(a, b, k, n - 1);
    }
  }

  /** Every column fits, with room for a limb of the third operand. */
  lemma ColumnFits(a: seq<int>, b: seq<int>, k: nat)
    requires Operand(a) && Operand(b)
    ensures 0 <= Column(a, b, k, 12) <= 0x4_0000_0000_0000 - 0x200_0000
    ensures k == 23 ==> Column(a, b, k, 12) == 0
  {
    if k == 22 {
      ColumnEmpty(a, b, 22, 11);
      ProductRange(a[11], b[11], 0x1ff_ffff);
      assert Column(a, b, 22, 12) == a[11] * b[11];
    } else {
      ColumnBound(a, b, k, 12);
      if k == 23 {
        ColumnEmpty(a, b, 23, 12);
      }
    }
  }

  lemma TermRange(x: int, y: int)
    requires 0 <= x < 0x200_0000 && 0 <= y < 0x200_0000 && (x < 0x20_0000 || y < 0x20_0000)
    ensures 0 <= x * y <= 0x4000_0000_0000
  {
    if x < 0x20_0000 {
      RangeBy(x, 0x20_0000, y, 0x200_0000);
    } else {
      RangeBy(x, 0x200_0000, y, 0x20_0000);
    }
  }

  lemma RangeBy(x: nat, m: nat, y: nat, n: nat)
    requires x <= m && y <= n
    ensures 0 <= x * y <= m * n
  {
    assert x * y <= x * n && x * n <= m * n;
  }

  lemma ProductRange(x: nat, y: nat, m: nat)
    requires x <= m && y <= m
    ensures 0 <= x * y <= m * m
  {
    assert x * y <= x * m && x * m <= m * m;
  }

  /** The columns of a product with the first n limbs of a. */
  function Columns(a: seq<int>, b: seq<int>, n: nat): (r: seq<int>)
    requires |a| == 12 && n <= 12
    ensures |r| == 24 && forall k :: 0 <= k < 24 ==> r[k] == Column(a, b, k, n)
  {
    seq(24, k requires 0 <= k < 24 => Column(a, b, k, n))
  }

  /** y is x plus d times b, m places up. */
  ghost predicate PlusRow(x: seq<int>, y: seq<int>, b: seq<int>, d: int, m: nat) {
    && |x| == |y| && m + |b| <= |x|
    && forall k :: 0 <= k < |x| ==> y[k] == x[k] + if m <= k < m + |b| then d * b[k - m] else 0
  }

  lemma {:induction false} RowInside(x: seq<int>, y: seq<int>, b: seq<int>, d: int, m: nat, i: nat)
    requires PlusRow(x, y, b, d, m) && i <= |b|
    ensures Limbs(y, m + i) == Limbs(x, m + i) + d * Limbs(b, i)
    decreases |b| - i
  {
    if i == |b| {
      LimbsSame(x, y, m + i);
      NoLimbs(b);
      assert d * 0 == 0;
    } else {
      RowInside(x, y, b, d, m, i + 1);
      assert y[m + i] == x[m + i] + d * b[i];
      HeadLimb(x, m + i);
      HeadLimb(y, m + i);
      HeadLimb(b, i);
      RowStep(d, b[i], Limbs(b, i + 1));
    }
  }

  lemma RowStep(d: int, h: int, t: int)
    ensures d * (h + 0x20_0000 * t) == d * h + 0x20_0000 * (d * t)
  {
  }

  lemma {:induction false} RowBelow(x: seq<int>, y: seq<int>, b: seq<int>, d: int, m: nat, i: nat)
    requires PlusRow(x, y, b, d, m) && i <= m
    ensures Limbs(y, i) == Limbs(x, i) + Radix21(m - i) * (d * Limbs(b, 0))
    decreases m - i
  {
    hide Radix21;
    RadixNext(m - i);
    if i == m {
      RowInside(x, y, b, d, m, 0);
    } else {
      RowBelow(x, y, b, d, m, i + 1);
      RadixNext(m - i - 1);
      HeadLimb(x, i);
      HeadLimb(y, i);
      ScaleUp(d * Limbs(b, 0), Radix21(m - i - 1), Radix21(m - i));
    }
  }

  /** The columns hold the product of the values. */
  lemma {:induction false} ColumnsValue(a: seq<int>, b: seq<int>, n: nat)
    requires |a| == |b| == 12 && n <= 12
    ensures Limbs(Columns(a, b, n), 0) == Limbs(a[..n], 0) * Limbs(b, 0)
  {
    hide Limbs, Radix21;
    if n == 0 {
      LimbsZero(Columns(a, b, 0), 0);
      NoLimbs(a[..0]);
      assert 0 * Limbs(b, 0) == 0;
    } else {
      ColumnsValue(a, b, n - 1);
      RowBelow(Columns(a, b, n - 1), Columns(a, b, n), b, a[n - 1], n - 1, 0);
      PrefixValue(a, n);
      ProductStep(Limbs(a[..n - 1], 0), Radix21(n - 1), a[n - 1], Limbs(b, 0));
    }
  }

  lemma PrefixValue(a: seq<int>, n: nat)
    requires 0 < n <= |a|
    ensures Limbs(a[..n], 0) == Limbs(a[..n - 1], 0) + Radix21(n - 1) * a[n - 1]
  {
    hide Limbs, Radix21;
    LimbsSplit(a[..n], n - 1);
    assert a[..n][..n - 1] == a[..n - 1];
    LimbsTop(a, n);
  }

  lemma ProductStep(v: int, w: int, d: int, t: int)
    ensures v * t + w * (d * t) == (v + w * d) * t
  {
  }

  // ---- sc_reduce and sc_muladd ---------------------------------------------------------

  lemma Unpacked24(s: seq<int>, x: nat)
    requires |s| == 24 && Spells(s, x) && x < Pow2(512)
    ensures Limbs(s, 0) == x && Bounded(s, 0x8000_0000)
  {
    hide Radix21, Limbs, Pow2;
    RadixNext(0);
    SpelledValue(s, x, 0);
    assert Pow2(512) == Radix21(23) * 0x2000_0000 by { TopWeights(); }
    QuotientBelow(x, Radix21(23), 0x2000_0000);
    NonNegativeQuotient(x, Radix21(23));
  }

  lemma TopWeights()
    ensures Pow2(512) == Radix21(23) * 0x2000_0000 && Pow2(256) == Radix21(11) * 0x200_0000
  {
    hide Pow2;
    Pow2Add(483, 29);
    Pow2Add(231, 25);
    Pow2Add(21, 8);
    Pow2Add(21, 4);
    Pow2Small();
  }

  lemma Unpacked12(s: seq<int>, x: nat)
    requires |s| == 12 && Spells(s, x) && x < Pow2(256)
    ensures Limbs(s, 0) == x && Operand(s)
  {
    hide Radix21, Limbs, Pow2;
    RadixNext(0);
    SpelledValue(s, x, 0);
    TopWeights();
    QuotientBelow(x, Radix21(11), 0x200_0000);
    NonNegativeQuotient(x, Radix21(11));
  }

  /** A residue modulo l leaves at most 2^21 in the last limb. */
  lemma ReducedPacks(r: seq<int>)
    requires |r| == 12 && (forall j :: 0 <= j < 11 ==> Digit(r[j])) && 0 <= Limbs(r, 0) < L
    ensures Packable(r) && Limbs(r, 0) < Pow2(256)
  {
    hide Radix21, Limbs, Pow2;
    LimbsSplit(r, 11);
    LimbsDigits(r[..11], 0);
    TopLimb(r);
    Weights();
    Pow2Literals();
    TopFits(Limbs(r[..11], 0), r[11]);
  }

  lemma TopFits(low: int, top: int)
    requires 0 <= low < 0x80_0000_0000_0000_0000_0000_0000_0000_0000_0000_0000_0000_0000_0000_0000
    requires 0 <= low + 0x80_0000_0000_0000_0000_0000_0000_0000_0000_0000_0000_0000_0000_0000_0000 * top < L
    ensures 0 <= top <= 0x20_0000
  {
  }

  /** Reduces a 64-byte string modulo l, in place. */
  method ScReduce(s: array<byte>)
    requires s.Length == 64
    modifies s
    ensures LE(s[..32]) == old(LE(s[..])) % L
    ensures s[32..] == old(s[32..])
  {
    hide LE, Limbs, Pow2, Pack, Packable, Unpack24;
    var limbs := Unpack24(s[..]);
    LEBound(s[..]);
    Unpacked24(limbs, LE(s[..]));
    var r := ReduceLimbs(limbs);
    ReducedPacks(r);
    PackValue(r);
    var bytes := Pack(r);
    for i := 0 to 32
      invariant s[..i] == bytes[..i] && s[32..] == old(s[32..])
    {
      s[i] := bytes[i];
    }
    assert s[..32] == bytes;
  }

  /** The 23 columns of a b + c. */
  function MuladdColumns(a: seq<int>, b: seq<int>, c: seq<int>): (r: seq<int>)
    requires |a| == |b| == |c| == 12
    ensures |r| == 24 && Limbs(r, 0) == Limbs(a, 0) * Limbs(b, 0) + Limbs(c, 0)
  {
    hide Limbs;
    var p := Columns(a, b, 12);
    var r := seq(24, k requires 0 <= k < 24 => p[k] + if k < 12 then 1 * c[k] else 0);
    RowBelow(p, r, c, 1, 0, 0);
    RadixNext(0);
    ColumnsValue(a, b, 12);
    assert a[..12] == a;
    assert Radix21(0) * (1 * Limbs(c, 0)) == Limbs(c, 0);
    r
  }

  /** Rounded carries out of limbs 0, 2, ..., 22. */
  method BalanceAllEven(s: seq<int>) returns (r: seq<int>)
    requires |s| == 24 && Bounded(s, 0x4_0000_0000_0000) && s[23] == 0
    ensures |r| == 24 && Bounded(r, 0x4_0000_4000_0000)
    ensures forall j :: 0 <= j < 24 && (j % 2 == 0 || j == 23) ==> -0x4000_0000 <= r[j] <= 0x4000_0000
    ensures Limbs(r, 0) == Limbs(s, 0)
  {
    hide Limbs;
    r := BalanceFirstEven(s);
    r := BalanceLastEven(r);
  }

  method BalanceFirstEven(s: seq<int>) returns (r: seq<int>)
    requires |s| == 24 && Bounded(s, 0x4_0000_0000_0000)
    ensures |r| == 24 && Bounded(r, 0x4_0000_2000_0000)
    ensures forall j :: 0 <= j <= 10 && j % 2 == 0 ==> -0x4000_0000 <= r[j] <= 0x4000_0000
    ensures forall j :: 12 <= j < 24 ==> r[j] == s[j]
    ensures Limbs(r, 0) == Limbs(s, 0)
  {
    hide Limbs;
    ghost var m, c := 0x2000_0000, 0;
    r, c := RoundCarry(s, 0, m);
    r, c := RoundCarry(r, 2, m);
    r, c := RoundCarry(r, 4, m);
    r, c := RoundCarry(r, 6, m);
    r, c := RoundCarry(r, 8, m);
    r, c := RoundCarry(r, 10, m);
  }

  method BalanceLastEven(s: seq<int>) returns (r: seq<int>)
    requires |s| == 24 && (forall j :: 0 <= j < 24 ==> -0x4_0000_2000_0000 <= s[j] <= 0x4_0000_2000_0000) && s[23] == 0
    requires forall j :: 12 <= j < 24 ==> -0x4_0000_0000_0000 <= s[j] <= 0x4_0000_0000_0000
    requires forall j :: 0 <= j <= 10 && j % 2 == 0 ==> -0x4000_0000 <= s[j] <= 0x4000_0000
    ensures |r| == 24 && Bounded(r, 0x4_0000_4000_0000)
    ensures forall j :: 0 <= j < 24 && (j % 2 == 0 || j == 23) ==> -0x4000_0000 <= r[j] <= 0x4000_0000
    ensures Limbs(r, 0) == Limbs(s, 0)
  {
    hide Limbs;
    ghost var m, c := 0x2000_0000, 0;
    r, c := RoundCarry(s, 12, m);
    r, c := RoundCarry(r, 14, m);
    r, c := RoundCarry(r, 16, m);
    r, c := RoundCarry(r, 18, m);
    r, c := RoundCarry(r, 20, m);
    r, c := RoundCarry(r, 22, m);
  }

  /** Rounded carries out of limbs 1, 3, ..., 21. */
  method BalanceAllOdd(s: seq<int>) returns (r: seq<int>)
    requires |s| == 24 && Bounded(s, 0x4_0000_4000_0000)
    requires forall j :: 0 <= j < 24 && (j % 2 == 0 || j == 23) ==> -0x4000_0000 <= s[j] <= 0x4000_0000
    ensures |r| == 24 && Bounded(r, 0x8000_0000)
    ensures Limbs(r, 0) == Limbs(s, 0)
  {
    hide Limbs;
    r := BalanceFirstOdd(s);
    r := BalanceLastOdd(r);
  }

  method BalanceFirstOdd(s: seq<int>) returns (r: seq<int>)
    requires |s| == 24 && Bounded(s, 0x4_0000_4000_0000)
    requires forall j :: 0 <= j < 24 && (j % 2 == 0 || j == 23) ==> -0x4000_0000 <= s[j] <= 0x4000_0000
    ensures |r| == 24 && forall j :: 0 <= j <= 12 ==> -0x8000_0000 <= r[j] <= 0x8000_0000
    ensures forall j :: 13 <= j < 24 ==> r[j] == s[j]
    ensures Limbs(r, 0) == Limbs(s, 0)
  {
    hide Limbs;
    ghost var m, c := 0x2000_1000, 0;
    r, c := RoundCarry(s, 1, m);
    r, c := RoundCarry(r, 3, m);
    r, c := RoundCarry(r, 5, m);
    r, c := RoundCarry(r, 7, m);
    r, c := RoundCarry(r, 9, m);
    r, c := RoundCarry(r, 11, m);
  }

  method BalanceLastOdd(s: seq<int>) returns (r: seq<int>)
    requires |s| == 24 && forall j :: 0 <= j <= 12 ==> -0x8000_0000 <= s[j] <= 0x8000_0000
    requires forall j :: 13 <= j < 24 ==> -0x4_0000_4000_0000 <= s[j] <= 0x4_0000_4000_0000
    requires forall j :: 13 <= j < 24 && (j % 2 == 0 || j == 23) ==> -0x4000_0000 <= s[j] <= 0x4000_0000
    ensures |r| == 24 && Bounded(r, 0x8000_0000)
    ensures Limbs(r, 0) == Limbs(s, 0)
  {
    hide Limbs;
    ghost var m, c := 0x2000_1000, 0;
    r, c := RoundCarry(s, 13, m);
    r, c := RoundCarry(r, 15, m);
    r, c := RoundCarry(r, 17, m);
    r, c := RoundCarry(r, 19, m);
    r, c := RoundCarry(r, 21, m);
  }

  /** s = (a b + c) mod l */
  method ScMuladd(a: seq<byte>, b: seq<byte>, c: seq<byte>) returns (s: seq<byte>)
    requires |a| == 32 && |b| == 32 && |c| == 32
    ensures |s| == 32 && LE(s) == (LE(a) * LE(b) + LE(c)) % L
  {
    hide LE, Limbs, Pow2, Pack, Packable, Unpack12, MuladdColumns, Operand;
    var x, y, z := Unpack12(a), Unpack12(b), Unpack12(c);
    LEBound(a);
    LEBound(b);
    LEBound(c);
    Unpacked12(x, LE(a));
    Unpacked12(y, LE(b));
    Unpacked12(z, LE(c));
    var t := MuladdColumns(x, y, z);
    ColumnsFit(x, y, z);
    t := BalanceAllEven(t);
    t := BalanceAllOdd(t);
    var r := ReduceLimbs(t);
    ReducedPacks(r);
    PackValue(r);
    s := Pack(r);
  }

  lemma ColumnsFit(a: seq<int>, b: seq<int>, c: seq<int>)
    requires Operand(a) && Operand(b) && Operand(c)
    ensures var r := MuladdColumns(a, b, c); Bounded(r, 0x4_0000_0000_0000) && r[23] == 0
  {
    SmallLimb(a, 0);
    SmallLimb(b, 0);
    SmallLimb(c, 0);
    hide Operand, Column;
    var r := MuladdColumns(a, b, c);
    forall k | 0 <= k < 24 ensures 0 <= r[k] <= 0x4_0000_0000_0000 && (k == 23 ==> r[k] == 0) {
      ColumnFits(a, b, k);
      SmallLimb(c, k);
    }
  }

  lemma SmallLimb(c: seq<int>, k: nat)
    requires Operand(c)
    ensures |c| == 12 && (k < 12 ==> 0 <= c[k] < 0x200_0000)
  {
  }
}
