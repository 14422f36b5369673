/** What the functions of Sha3 owe to FIPS 202: the padding as a string of bits, the sponge from the first
  * block on. */
module Fips202 {
  import opened Bytes
  import opened Bits
  import opened Sha3

  // ---- bits ------------------------------------------------------------------------------

  /** The n low bits of x, the lowest first (section B.1). */
  function BitsOf(x: nat, n: nat): (s: seq<bit>)
    ensures |s| == n
  {
    if n == 0 then [] else [x % 2] + BitsOf(x / 2, n - 1)
  }

  /** The bits of a byte string. */
  function BitString(m: seq<byte>): (s: seq<bit>)
    ensures |s| == 8 * |m|
  {
    if m == [] then [] else BitsOf(m[0], 8) + BitString(m[1..])
  }

  lemma {:induction false} BitStringJoin(m: seq<byte>, n: seq<byte>)
    ensures BitString(m + n) == BitString(m) + BitString(n)
  {
    hide BitsOf;
    if m == [] {
      assert m + n == n;
    } else {
      BitStringJoin(m[1..], n);
      assert (m + n)[1..] == m[1..] + n;
    }
  }

  lemma {:induction false} BitsOfZero(k: nat)
    ensures BitsOf(0, k) == ZeroBits(k)
  {
    if k > 0 {
      BitsOfZero(k - 1);
    }
  }

  lemma {:induction false} BitsOfZeros(n: nat)
    ensures BitString(Zeros(n)) == ZeroBits(8 * n)
  {
    hide BitsOf;
    if n > 0 {
      BitsOfZero(8);
      BitsOfZeros(n - 1);
      assert Zeros(n)[1..] == Zeros(n - 1);
    }
  }

  lemma OneByte(b: byte)
    ensures BitString([b]) == BitsOf(b, 8)
  {
    hide BitsOf;
    assert BitString([b]) == BitsOf(b, 8) + BitString([]);
  }

  /** The bits of a number that is put together from k low bits and the rest. */
  lemma {:induction false} BitsOfJoin(low: nat, high: nat, k: nat, n: nat)
    requires low < Pow2(k)
    ensures low + high * Pow2(k) >= 0 && BitsOf(low + high * Pow2(k), k + n) == BitsOf(low, k) + BitsOf(high, n)
  {
    hide Pow2;
    if k == 0 {
      NoWeight(low, high);
    } else {
      HalfWeight(low, high, k);
      BitsOfJoin(low / 2, high, k - 1, n);
    }
  }

  // ---- sections 5.1, 6.1 and 6.2: the padding --------------------------------------------

  /** A 1, the least number of zeros and a 1 that bring l bits to a multiple of x. */
  ghost predicate Pad10(x: nat, l: nat, p: seq<bit>)
    requires x > 0
  {
    exists j: nat :: Fills(x, l, j) && p == [1] + ZeroBits(j) + [1]
  }

  ghost predicate Fills(x: nat, l: nat, j: nat)
    requires x > 0
  {
    Reaches(x, l, j) && forall i :: 0 <= i < j ==> !Reaches(x, l, i)
  }

  predicate Reaches(x: nat, l: nat, j: nat)
    requires x > 0
  {
    (l + j + 2) % x == 0
  }

  /** The padding bytes for a suffix byte of the bits head, the first padding bit and z zeros. */
  lemma PaddingBits(suffix: byte, head: seq<bit>, z: nat, n: nat)
    requires n > 0 && suffix < 0x80 && z > 0 && BitsOf(suffix, 8) == head + [1] + ZeroBits(z)
    ensures BitString(Padding(suffix, n)) == head + ([1] + ZeroBits(z - 1 + 8 * (n - 1)) + [1])
  {
    hide BitString, BitsOf;
    if n == 1 {
      LastBit(suffix);
      OneByte(XorB(suffix, 0x80));
      assert BitsOf(suffix, 8)[..7] == head + [1] + ZeroBits(z - 1);
    } else {
      BitStringJoin([suffix] + Zeros(n - 2), [0x80]);
      BitStringJoin([suffix], Zeros(n - 2));
      OneByte(suffix);
      OneByte(0x80);
      BitsOfZeros(n - 2);
      LastByte();
      assert ZeroBits(z) + ZeroBits(8 * (n - 2)) + ZeroBits(7) == ZeroBits(z - 1 + 8 * (n - 1));
    }
  }

  lemma LastByte()
    ensures BitsOf(0x80, 8) == ZeroBits(7) + [1]
  {
  }

  lemma LastBit(b: byte)
    requires b < 0x80
    ensures BitsOf(XorB(b, 0x80), 8) == BitsOf(b, 8)[..7] + [1]
  {
    hide Xor, BitsOf, XorB, Pow2;
    assert Pow2(7) == 0x80 by { Pow2Small(); }
    XorDisjoint(b, 1, 7);
    BitsOfJoin(b, 1, 7, 1);
    BitsOfJoin(b, 0, 7, 1);
    OneBit();
  }

  lemma OneBit()
    ensures BitsOf(1, 1) == [1]
  {
  }

  lemma FillsBlock(n: nat, r: nat, d: nat)
    requires r > 0 && d < 7
    ensures 0 <= n % r < r && Fills(8 * r, 8 * n + d, 6 - d + 8 * (r - n % r - 1))
  {
    var q, t := n / r, n % r;
    var j, x, l := 6 - d + 8 * (r - t - 1), 8 * r, 8 * n + d;
    assert n == q * r + t;
    DivModUnique(8 * n + d + j + 2, 8 * r, q + 1, 0);
    forall i | 0 <= i < j ensures !Reaches(x, l, i) {
      DivModUnique(8 * n + d + i + 2, 8 * r, q, 8 * t + d + i + 2);
    }
  }

  /** SHA3: the bits of m, then 0 1, then pad10*1. SHAKE: the bits of m, then 1 1 1 1, then pad10*1. */
  lemma PaddedBits(m: seq<byte>, r: nat) returns (p: seq<bit>, q: seq<bit>)
    requires r > 0
    ensures Pad10(8 * r, 8 * |m| + 2, p) && BitString(Padded(m, SHA3_SUFFIX, r)) == BitString(m) + [0, 1] + p
    ensures Pad10(8 * r, 8 * |m| + 4, q) && BitString(Padded(m, SHAKE_SUFFIX, r)) == BitString(m) + [1, 1, 1, 1] + q
  {
    SuffixBytes();
    p := SuffixBits(m, r, SHA3_SUFFIX, [0, 1], 5);
    q := SuffixBits(m, r, SHAKE_SUFFIX, [1, 1, 1, 1], 3);
  }

  lemma SuffixBytes()
    ensures BitsOf(SHA3_SUFFIX, 8) == [0, 1] + [1] + ZeroBits(5)
    ensures BitsOf(SHAKE_SUFFIX, 8) == [1, 1, 1, 1] + [1] + ZeroBits(3)
  {
  }

  lemma SuffixBits(m: seq<byte>, r: nat, suffix: byte, head: seq<bit>, z: nat) returns (p: seq<bit>)
    requires r > 0 && suffix < 0x80 && z > 0 && |head| + 1 + z == 8
    requires BitsOf(suffix, 8) == head + [1] + ZeroBits(z)
    ensures Pad10(8 * r, 8 * |m| + |head|, p) && BitString(Padded(m, suffix, r)) == BitString(m) + head + p
  {
    hide BitString, Padding;
    PaddedLength(|m|, r);
    var n := r - |m| % r;
    PaddingBits(suffix, head, z, n);
    FillsBlock(|m|, r, |head|);
    BitStringJoin(m, Padding(suffix, n));
    p := [1] + ZeroBits(z - 1 + 8 * (n - 1)) + [1];
    assert BitString(m) + (head + p) == BitString(m) + head + p;
  }

  // ---- section 4: the sponge ---------------------------------------------------------------

  /** The blocks of m one after the other, each with zeros up to the width of the state. */
  function Absorbed(f: Permutation, r: nat, s: State, m: seq<byte>): State
    requires 0 < r <= 200
    decreases |m|
  {
    if |m| < r then s
    else
      Absorbed(f, r, f(XorBytes(s, m[..r] + Zeros(200 - r))), m[r..])
  }

  function XorBytes(s: State, t: State): State {
    seq(200, i requires 0 <= i < 200 => XorB(s[i], t[i]))
  }

  lemma XorWithZeros(s: State, block: seq<byte>)
    requires |block| <= 200
    ensures XorInto(s, block) == XorBytes(s, block + Zeros(200 - |block|))
  {
    hide XorB;
    forall i | 0 <= i < 200 ensures XorB(s[i], 0) == s[i] {
      XorBLaws(s[i], 0, 0);
    }
  }

  lemma {:induction false} AbsorbedAppends(f: Permutation, r: nat, s: State, m: seq<byte>, block: seq<byte>)
    requires 0 < r <= 200 && |m| % r == 0 && |block| == r
    ensures Absorbed(f, r, s, m + block) == f(XorInto(Absorbed(f, r, s, m), block))
    decreases |m|
  {
    hide XorInto, XorBytes;
    var n := m + block;
    if m == [] {
      XorWithZeros(s, block);
      assert n[..r] == block && n[r..] == [];
    } else {
      BlockOff(|m|, r);
      XorWithZeros(s, m[..r]);
      assert n[..r] == m[..r] && n[r..] == m[r..] + block;
      AbsorbedAppends(f, r, f(XorInto(s, m[..r])), m[r..], block);
    }
  }

  lemma {:induction false} AbsorbIsStandard(f: Permutation, r: nat, m: seq<byte>)
    requires 0 < r <= 200 && |m| % r == 0
    ensures Absorb(f, r, m) == Absorbed(f, r, Zeros(200), m)
    decreases |m|
  {
    hide XorInto, Absorbed;
    if m == [] {
      NothingAbsorbed(f, r, Zeros(200));
    } else {
      BlockOff(|m|, r);
      var front, last := m[..|m| - r], m[|m| - r..];
      AbsorbIsStandard(f, r, front);
      AbsorbedAppends(f, r, Zeros(200), front, last);
      assert m == front + last;
    }
  }

  lemma NothingAbsorbed(f: Permutation, r: nat, s: State)
    requires 0 < r <= 200
    ensures Absorbed(f, r, s, []) == s
  {
  }

  /** n bytes of output: r from each state, with a permutation in between. */
  function Squeezed(f: Permutation, r: nat, s: State, n: nat): (z: seq<byte>)
    requires 0 < r <= 200
    ensures |z| == n
    decreases n
  {
    if n <= r then s[..n] else s[..r] + Squeezed(f, r, f(s), n - r)
  }

  lemma {:induction false} IterateFirst(f: Permutation, k: nat, s: State)
    ensures Iterate(f, k + 1, s) == Iterate(f, k, f(s))
  {
    if k > 0 {
      IterateFirst(f, k - 1, s);
    }
  }

  lemma {:induction false} SqueezedAt(f: Permutation, r: nat, s: State, n: nat, i: nat)
    requires 0 < r <= 200 && i < n
    ensures Squeezed(f, r, s, n)[i] == SqueezeByte(f, r, s, i)
    decreases n
  {
    if i < r {
      DivModUnique(i, r, 0, i);
    } else {
      SqueezedAt(f, r, f(s), n - r, i - r);
      NonNegativeQuotient(i - r, r);
      DivModUnique(i, r, (i - r) / r + 1, (i - r) % r);
      IterateFirst(f, (i - r) / r, s);
    }
  }

  /** The sponge of section 4 on the padded message. */
  lemma SpongeIsStandard(f: Permutation, r: nat, m: seq<byte>, suffix: byte, n: nat)
    requires 0 < r <= 200
    ensures Sponge(f, r, m, suffix, 0, n) == Squeezed(f, r, Absorbed(f, r, Zeros(200), Padded(m, suffix, r)), n)
  {
    hide Absorb, Absorbed, Padded, SqueezeByte, Squeezed;
    AbsorbIsStandard(f, r, Padded(m, suffix, r));
    var s := Absorb(f, r, Padded(m, suffix, r));
    forall i | 0 <= i < n ensures Squeeze(f, r, s, 0, n)[i] == Squeezed(f, r, s, n)[i] {
      SqueezedAt(f, r, s, n, i);
    }
  }
}
