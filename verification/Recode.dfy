/** The two signed recodings of scalars in ge.c: sliding windows and radix 16. */
module Recode {
  import opened Bytes

  // ---- digits to the base 2 ------------------------------------------------------------

  /** The sum of r[j] 2^(j - i) over j >= i, in Horner form. */
  function Tail(r: seq<int>, i: nat): int
    requires i <= |r|
    decreases |r| - i
  {
    if i == |r| then 0 else r[i] + 2 * Tail(r, i + 1)
  }

  lemma {:induction false} TailUpdate(r: seq<int>, i: nat, j: nat, v: int)
    requires i <= |r| && j < |r|
    ensures Tail(r[j := v], i) == Tail(r, i) + if j < i then 0 else (v - r[j]) * Pow2(j - i)
    decreases |r| - i
  {
    if i == |r| {
    } else {
      TailUpdate(r, i + 1, j, v);
      if i < j {
        assert Pow2(j - i) == 2 * Pow2(j - (i + 1));
        assert (v - r[j]) * Pow2(j - i) == 2 * ((v - r[j]) * Pow2(j - (i + 1)));
      }
    }
  }

  /** Digits below i contribute the same to two strings that agree there. */
  lemma {:induction false} TailPrefix(r: seq<int>, r': seq<int>, i: nat)
    requires i <= |r| == |r'| && r[..i] == r'[..i]
    ensures Tail(r', 0) - Tail(r, 0) == Pow2(i) * (Tail(r', i) - Tail(r, i))
  {
    if i == 0 {
    } else {
      assert r[i - 1] == r[..i][i - 1] == r'[..i][i - 1] == r'[i - 1];
      assert r[..i - 1] == r[..i][..i - 1] == r'[..i][..i - 1] == r'[..i - 1];
      TailPrefix(r, r', i - 1);
      assert Pow2(i) == 2 * Pow2(i - 1);
      assert Tail(r', i - 1) - Tail(r, i - 1) == 2 * (Tail(r', i) - Tail(r, i));
    }
  }

  /** From position i on, all digits are bits. */
  ghost predicate BitsFrom(r: seq<int>, i: nat) {
    forall j :: i <= j < |r| ==> r[j] == 0 || r[j] == 1
  }

  ghost predicate ZerosFrom(r: seq<int>, i: nat) {
    forall j :: i <= j < |r| ==> r[j] == 0
  }

  lemma {:induction false} TailNonNegative(r: seq<int>, i: nat)
    requires i <= |r| && BitsFrom(r, i)
    ensures Tail(r, i) >= 0
    ensures Tail(r, i) == 0 <==> ZerosFrom(r, i)
    decreases |r| - i
  {
    if i == |r| {
    } else {
      TailNonNegative(r, i + 1);
      assert ZerosFrom(r, i) <==> r[i] == 0 && ZerosFrom(r, i + 1);
    }
  }

  /** Skipping zeros divides by powers of two. */
  lemma {:induction false} TailZeros(r: seq<int>, i: nat, n: nat)
    requires i + n <= |r| && forall j :: i <= j < i + n ==> r[j] == 0
    ensures Tail(r, i) == Pow2(n) * Tail(r, i + n)
    decreases n
  {
    if n == 0 {
    } else {
      TailZeros(r, i + 1, n - 1);
    }
  }

  lemma {:induction false} TailOnes(r: seq<int>, i: nat, n: nat)
    requires i + n <= |r| && forall j :: i <= j < i + n ==> r[j] == 1
    ensures Tail(r, i) == Pow2(n) - 1 + Pow2(n) * Tail(r, i + n)
    decreases n
  {
    if n == 0 {
    } else {
      TailOnes(r, i + 1, n - 1);
    }
  }

  // ---- slide ---------------------------------------------------------------------------

  /** Every digit is 0 or odd and at most 15 in magnitude. */
  ghost predicate WindowDigit(d: int) { d == 0 || (d % 2 == 1 && -15 <= d <= 15) }

  /** Nonzero digits of the first n places have four zeros above them. */
  ghost predicate Sparse(r: seq<int>, n: nat)
    requires n <= |r|
  {
    && (forall j :: 0 <= j < n ==> WindowDigit(r[j]))
    && (forall j, m :: 0 <= j < n && j < m < j + 5 && m < |r| && r[j] != 0 ==> r[m] == 0)
  }

  /** v >> j. */
  function Above(v: nat, j: nat): int { v / Pow2(j) }

  /** The i-th bit of a little-endian string: 1 & (a[i >> 3] >> (i & 7)). */
  function Bit(a: seq<byte>, i: nat): (b: int)
    requires i < 8 * |a|
    ensures b == 0 || b == 1
  {
    Above(a[i / 8], i % 8) % 2
  }

  lemma Halve(v: nat, j: nat)
    ensures Above(v, j) == Above(v, j) % 2 + 2 * Above(v, j + 1)
  {
    var m, q := Pow2(j), Above(v, j);
    assert v == q / 2 * (2 * m) + (q % 2 * m + v % m) by {
      assert v == q * m + v % m && q == q / 2 * 2 + q % 2;
    }
    assert q % 2 == 0 || q % 2 == 1;
    DivModUnique(v, 2 * m, q / 2, q % 2 * m + v % m);
  }

  lemma ByteBits(v: nat)
    requires v < 256
    ensures v == Above(v, 0) % 2 + 2 * (Above(v, 1) % 2) + 4 * (Above(v, 2) % 2) + 8 * (Above(v, 3) % 2)
      + 16 * (Above(v, 4) % 2) + 32 * (Above(v, 5) % 2) + 64 * (Above(v, 6) % 2) + 128 * (Above(v, 7) % 2)
  {
    assert Above(v, 0) == v && Above(v, 8) == 0 by { Pow2Small(); }
    hide Above;
    Halve(v, 0);
    Halve(v, 1);
    Halve(v, 2);
    Halve(v, 3);
    Halve(v, 4);
    Halve(v, 5);
    Halve(v, 6);
    Halve(v, 7);
  }

  lemma TailEight(r: seq<int>, i: nat)
    requires i + 8 <= |r|
    ensures Tail(r, i) == r[i] + 2 * r[i + 1] + 4 * r[i + 2] + 8 * r[i + 3] + 16 * r[i + 4] + 32 * r[i + 5]
      + 64 * r[i + 6] + 128 * r[i + 7] + 256 * Tail(r, i + 8)
  {
    assert Tail(r, i) == r[i] + 2 * r[i + 1] + 4 * Tail(r, i + 2);
    assert Tail(r, i + 2) == r[i + 2] + 2 * r[i + 3] + 4 * Tail(r, i + 4);
    assert Tail(r, i + 4) == r[i + 4] + 2 * r[i + 5] + 4 * Tail(r, i + 6);
    assert Tail(r, i + 6) == r[i + 6] + 2 * r[i + 7] + 4 * Tail(r, i + 8);
  }

  ghost predicate AreBits(r: seq<int>, a: seq<byte>) {
    |r| == 8 * |a| && forall i :: 0 <= i < |r| ==> r[i] == Bit(a, i)
  }

  /** Bit strings and byte strings spell the same number. */
  lemma {:induction false} TailOfBits(r: seq<int>, a: seq<byte>, k: nat)
    requires k <= |a| && AreBits(r, a)
    ensures Tail(r, 8 * k) == LE(a[k..])
    decreases |a| - k
  {
    if k == |a| {
    } else {
      TailOfBits(r, a, k + 1);
      assert a[k..][1..] == a[k + 1..];
      TailByte(r, a, k, 8 * k);
    }
  }

  lemma TailByte(r: seq<int>, a: seq<byte>, k: nat, i: nat)
    requires k < |a| && AreBits(r, a) && i == 8 * k
    ensures Tail(r, i) == a[k] + 256 * Tail(r, i + 8)
  {
    hide Tail, Above, AreBits;
    ByteDigit(r, a, k, i, 0);
    ByteDigit(r, a, k, i, 1);
    ByteDigit(r, a, k, i, 2);
    ByteDigit(r, a, k, i, 3);
    ByteDigit(r, a, k, i, 4);
    ByteDigit(r, a, k, i, 5);
    ByteDigit(r, a, k, i, 6);
    ByteDigit(r, a, k, i, 7);
    TailEight(r, i);
    ByteBits(a[k]);
  }

  lemma ByteDigit(r: seq<int>, a: seq<byte>, k: nat, i: nat, j: nat)
    requires k < |a| && AreBits(r, a) && i == 8 * k && j < 8
    ensures i + j < |r| && r[i + j] == Above(a[k], j) % 2
  {
    hide Above;
    assert (i + j) / 8 == k && (i + j) % 8 == j;
    assert r[i + j] == Bit(a, i + j);
  }

  /** The innermost loop of slide: adds 1 at position start to a string of bits. The carry is
    * lost when it meets no zero. */
  method Carry(r: array<int>, start: nat)
    requires start < r.Length && BitsFrom(r[..], start)
    modifies r
    ensures r[..start] == old(r[..start])
    ensures BitsFrom(r[..], start) && r[start] == 1 - old(r[start])
    ensures Tail(r[..], start) == old(Tail(r[..], start)) + 1
      || (Tail(r[..], start) == old(Tail(r[..], start)) + 1 - Pow2(r.Length - start)
          && old(Tail(r[..], start)) == Pow2(r.Length - start) - 1 && ZerosFrom(r[..], start))
  {
    ghost var was := r[..];
    var k := start;
    while k < r.Length
      invariant start <= k <= r.Length
      invariant forall j :: 0 <= j < r.Length && !(start <= j < k) ==> r[j] == was[j]
      invariant forall j :: start <= j < k ==> was[j] == 1 && r[j] == 0
    {
      if r[k] == 0 {
        r[k] := 1;
        break;
      }
      r[k] := 0;
      k := k + 1;
    }
    assert r[..start] == was[..start];
    CarryValue(was, r[..], start, k);
  }

  lemma CarryValue(r: seq<int>, r': seq<int>, start: nat, k: nat)
    requires start <= k <= |r| == |r'|
    requires forall j :: start <= j < k ==> r[j] == 1 && r'[j] == 0
    requires forall j :: k < j < |r| ==> r'[j] == r[j]
    requires k < |r| ==> r[k] == 0 && r'[k] == 1
    ensures k < |r| ==> Tail(r', start) == Tail(r, start) + 1
    ensures k == |r| ==> Tail(r, start) == Pow2(|r| - start) - 1 && Tail(r', start) == 0 && ZerosFrom(r', start)
  {
    hide Pow2;
    TailOnes(r, start, k - start);
    TailZeros(r', start, k - start);
    if k < |r| {
      TailSame(r, r', k + 1);
      CarryStep(Pow2(k - start), Tail(r, k), Tail(r', k));
    }
  }

  lemma CarryStep(n: int, t: int, t': int)
    requires t' == t + 1
    ensures n * t' == n - 1 + n * t + 1
  {
  }

  lemma {:induction false} TailSame(r: seq<int>, r': seq<int>, i: nat)
    requires i <= |r| == |r'| && forall j :: i <= j < |r| ==> r[j] == r'[j]
    ensures Tail(r, i) == Tail(r', i)
    decreases |r| - i
  {
    if i == |r| {
    } else {
      TailSame(r, r', i + 1);
    }
  }

  /** The value survives, unless a carry was lost, which leaves only zeros above i. */
  ghost predicate Kept(r: seq<int>, i: nat, total: int)
    requires i < |r|
  {
    Tail(r, i) == total || (Tail(r, i) == total - Pow2(|r| - i) && ZerosFrom(r, i + 1) && i + 4 < |r|)
  }

  /** r[i] takes in the bit at i + b. */
  lemma AddStep(r: seq<int>, r': seq<int>, i: nat, b: nat)
    requires i < i + b < |r| && r[i + b] == 1
    requires r' == r[i := r[i] + Shl(1, b)][i + b := 0]
    ensures Tail(r', i) == Tail(r, i)
  {
    var n := Shl(1, b);
    var s := r[i := r[i] + n];
    TailUpdate(r, i, i, r[i] + n);
    TailUpdate(s, i, i + b, 0);
  }

  /** The bit at i + 4 becomes a carry and r[i] goes down by 16. */
  lemma SubStep(r: seq<int>, s: seq<int>, r': seq<int>, i: nat)
    requires |r| == |s| == |r'| == 256 && i + 4 < 256 && BitsFrom(r, i + 1) && r[i + 4] == 1 && 0 < r[i] < 16
    requires s == r[i := r[i] - 16] && r'[..i + 4] == s[..i + 4] && r'[i + 4] == 0
    requires forall m :: i < m < i + 4 ==> r[m] == 0
    requires Tail(r', i + 4) == Tail(s, i + 4) + 1
      || (Tail(r', i + 4) == Tail(s, i + 4) + 1 - Pow2(252 - i) && Tail(s, i + 4) == Pow2(252 - i) - 1
        && ZerosFrom(r', i + 4))
    ensures Kept(r', i, Tail(r, i))
  {
    hide Pow2;
    forall m | i <= m < i + 4 ensures r'[m] == s[m] {
      assert r'[m] == r'[..i + 4][m] == s[..i + 4][m] == s[m];
    }
    TailSame(r, s, i + 4);
    SkipThree(r, i);
    SkipThree(r', i);
    TailNonNegative(r, i + 4);
    assert ZerosFrom(r', i + 4) ==> ZerosFrom(r', i + 1);
    hide Tail, BitsFrom;
    var x, x' := Tail(r, i + 4), Tail(r', i + 4);
    Pow2Add(4, 252 - i);
    assert Pow2(4) == 16 by { Pow2Small(); }
  }

  lemma SkipThree(r: seq<int>, i: nat)
    requires i + 4 < |r| && r[i + 1] == 0 && r[i + 2] == 0 && r[i + 3] == 0
    ensures Tail(r, i + 1) == 8 * Tail(r, i + 4) && Tail(r, i) == r[i] + 16 * Tail(r, i + 4)
  {
    assert Tail(r, i + 1) == 2 * Tail(r, i + 2) && Tail(r, i + 2) == 2 * Tail(r, i + 3);
  }

  /** x << b. */
  function Shl(x: int, b: nat): int { x * Pow2(b) }

  lemma ShiftedOne()
    ensures Shl(1, 1) == 2 && Shl(1, 2) == 4 && Shl(1, 3) == 8 && Shl(1, 4) == 16 && Shl(1, 5) == 32 && Shl(1, 6) == 64
  {
    Pow2Small();
  }

  /** The middle loop of slide at a position that holds a 1: the next four bits move into it. */
  method Absorb(r: array<int>, i: nat)
    requires r.Length == 256 && i < 256 && r[i] == 1 && BitsFrom(r[..], i)
    modifies r
    ensures r[..i] == old(r[..i])
    ensures r[i] != 0 && WindowDigit(r[i]) && BitsFrom(r[..], i + 1)
    ensures forall m :: i < m < i + 5 && m < 256 ==> r[m] == 0
    ensures Kept(r[..], i, old(Tail(r[..], i)))
  {
    hide Kept, Shl, Tail;
    ghost var total := Tail(r[..], i);
    assert Kept(r[..], i, total) by { KeptAgain(r[..], r[..], i, total); }
    ShiftedOne();
    var b := 1;
    while b <= 6 && i + b < 256
      invariant 1 <= b <= 7
      invariant r[..i] == old(r[..i])
      invariant Absorbing(r[..], i, b, total)
    {
      if r[i + b] != 0 {
        if r[i] + Shl(r[i + b], b) <= 15 {
          ghost var was := r[..];
          r[i] := r[i] + Shl(r[i + b], b);
          r[i + b] := 0;
          AddAbsorbs(was, r[..], i, b, total);
        } else if r[i] - Shl(r[i + b], b) >= -15 {
          ghost var was := r[..];
          r[i] := r[i] - Shl(r[i + b], b);
          ghost var mid := r[..];
          Carry(r, i + b);
          SubAbsorbs(was, mid, r[..], i, total);
        } else {
          break;
        }
      }
      b := b + 1;
    }
  }

  /** What the middle loop keeps at position i before it looks at i + b. */
  ghost predicate Absorbing(r: seq<int>, i: nat, b: nat, total: int)
    requires i < |r|
  {
    && r[i] != 0 && WindowDigit(r[i]) && BitsFrom(r, i + 1) && (b <= 4 ==> 0 < r[i] < Shl(1, b))
    && (forall m :: i < m < i + b && m < i + 5 && m < |r| ==> r[m] == 0)
    && Kept(r, i, total)
  }

  lemma AddAbsorbs(r: seq<int>, r': seq<int>, i: nat, b: nat, total: int)
    requires |r| == 256 && i + b < 256 && 1 <= b <= 6 && Absorbing(r, i, b, total) && r[i + b] == 1
    requires r[i] + Shl(1, b) <= 15 && r' == r[i := r[i] + Shl(1, b)][i + b := 0]
    ensures Absorbing(r', i, b + 1, total)
  {
    hide Kept, Shl, Tail;
    ShiftedOne();
    NotLost(r, i, i + b, total);
    AddStep(r, r', i, b);
    KeptAgain(r, r', i, total);
  }

  lemma SubAbsorbs(r: seq<int>, s: seq<int>, r': seq<int>, i: nat, total: int)
    requires |r| == |s| == |r'| == 256 && i + 4 < 256 && Absorbing(r, i, 4, total) && r[i + 4] == 1
    requires s == r[i := r[i] - 16] && r'[..i + 4] == s[..i + 4] && r'[i + 4] == 0 && BitsFrom(r', i + 4)
    requires Tail(r', i + 4) == Tail(s, i + 4) + 1
      || (Tail(r', i + 4) == Tail(s, i + 4) + 1 - Pow2(252 - i) && Tail(s, i + 4) == Pow2(252 - i) - 1
        && ZerosFrom(r', i + 4))
    ensures Absorbing(r', i, 5, total)
  {
    hide Kept, Shl, Tail, Pow2;
    ShiftedOne();
    NotLost(r, i, i + 4, total);
    SubStep(r, s, r', i);
    forall m | i <= m < i + 4 ensures r'[m] == s[m] {
      assert r'[m] == r'[..i + 4][m] == s[..i + 4][m] == s[m];
    }
  }

  lemma NotLost(r: seq<int>, i: nat, j: nat, total: int)
    requires i < j < |r| && Kept(r, i, total) && r[j] != 0
    ensures Tail(r, i) == total
  {
  }

  lemma KeptAgain(r: seq<int>, r': seq<int>, i: nat, total: int)
    requires i < |r| == |r'| && Tail(r, i) == total && Tail(r', i) == Tail(r, i)
    ensures Kept(r', i, total)
  {
  }

  /** What the outer loop of slide keeps before it looks at position i. */
  ghost predicate Sliding(r: seq<int>, i: nat, value: int)
    requires i <= |r|
  {
    && Sparse(r, i) && BitsFrom(r, i)
    && (Tail(r, 0) == value || (Tail(r, 0) == value - Pow2(256) && ZerosFrom(r, i) && ZerosFrom(r, 252)))
  }

  lemma SkipSlides(r: seq<int>, i: nat, value: int)
    requires |r| == 256 && i < 256 && Sliding(r, i, value) && r[i] == 0
    ensures Sliding(r, i + 1, value)
  {
  }

  lemma AbsorbSlides(r: seq<int>, r': seq<int>, i: nat, value: int)
    requires |r| == |r'| == 256 && i < 256 && Sliding(r, i, value) && r[i] == 1 && r'[..i] == r[..i]
    requires r'[i] != 0 && WindowDigit(r'[i]) && BitsFrom(r', i + 1)
    requires forall m :: i < m < i + 5 && m < 256 ==> r'[m] == 0
    requires Kept(r', i, Tail(r, i))
    ensures Sliding(r', i + 1, value)
  {
    hide Tail, Pow2;
    TailPrefix(r, r', i);
    Pow2Add(i, 256 - i);
    LostCarry(Pow2(i), Tail(r', i) - Tail(r, i), Pow2(256 - i));
    AbsorbSparse(r, r', i);
  }

  lemma LostCarry(n: int, d: int, m: int)
    ensures (d == 0 ==> n * d == 0) && (d == -m ==> n * d == -(n * m))
  {
  }

  lemma AbsorbSparse(r: seq<int>, r': seq<int>, i: nat)
    requires |r| == |r'| && i < |r| && Sparse(r, i) && r[i] == 1 && r'[..i] == r[..i]
    requires WindowDigit(r'[i]) && forall m :: i < m < i + 5 && m < |r| ==> r'[m] == 0
    ensures Sparse(r', i + 1)
  {
    forall j | 0 <= j < i ensures r'[j] == r[j] {
      assert r'[j] == r'[..i][j] == r[..i][j];
    }
  }

  /** Recodes a 256-bit scalar in place into sparse signed digits. The digits weigh up to the
    * scalar whenever any sparse digits do, so up to 2^255 and somewhat beyond. Otherwise a carry
    * runs off the end, and they weigh 2^256 less. */
  method Slide(r: array<int>, a: seq<byte>)
    requires r.Length == 256 && |a| == 32
    modifies r
    ensures Sparse(r[..], 256)
    ensures Tail(r[..], 0) == Recoded(LE(a))
    ensures LE(a) <= Pow2(255) ==> Recoded(LE(a)) == LE(a)
  {
    hide Sliding, Kept, LE, Tail, Pow2, Bit;
    for i := 0 to 256
      invariant forall j :: 0 <= j < i ==> r[j] == Bit(a, j)
    {
      r[i] := Bit(a, i);
    }
    BitsSlide(r[..], a);
    for i := 0 to 256
      invariant Sliding(r[..], i, LE(a))
    {
      SlidingBits(r[..], i, LE(a));
      if r[i] != 0 {
        ghost var was := r[..];
        Absorb(r, i);
        AbsorbSlides(was, r[..], i, LE(a));
      } else {
        SkipSlides(r[..], i, LE(a));
      }
    }
    SlidingBits(r[..], 256, LE(a));
    RecodedBy(r[..], LE(a));
  }

  lemma BitsSlide(r: seq<int>, a: seq<byte>)
    requires |r| == 256 && |a| == 32 && AreBits(r, a)
    ensures Sliding(r, 0, LE(a))
  {
    TailOfBits(r, a, 0);
    assert a[0..] == a;
  }

  lemma SlidingBits(r: seq<int>, i: nat, value: int)
    requires i <= |r| && Sliding(r, i, value)
    ensures BitsFrom(r, i) && Sparse(r, i)
    ensures Tail(r, 0) == value || (Tail(r, 0) == value - Pow2(256) && ZerosFrom(r, 252))
  {
  }

  // ---- what slide can recode -----------------------------------------------------------

  /** Whether 256 sparse digits can weigh up to v. */
  ghost predicate Recodable(v: int) {
    exists s :: |s| == 256 && Sparse(s, 256) && Tail(s, 0) == v
  }

  /** The weight of the digits that slide makes of v. */
  ghost function Recoded(v: int): int { if Recodable(v) then v else v - Pow2(256) }

  /** Sparse digits of one length are determined by their weight. */
  lemma {:induction false} SparseUnique(r: seq<int>, s: seq<int>, i: nat, j: nat)
    requires i <= j < |r| == |s| && Sparse(r, |r|) && Sparse(s, |s|) && Tail(r, i) == Tail(s, i)
    ensures r[j] == s[j]
    decreases |r| - i
  {
    SameParity(r[i], s[i], Tail(r, i + 1), Tail(s, i + 1));
    if r[i] == 0 {
      if i < j { SparseUnique(r, s, i + 1, j); }
    } else if i + 5 > |r| {
      TailZeros(r, i + 1, |r| - i - 1);
      TailZeros(s, i + 1, |r| - i - 1);
    } else {
      Window(r, i);
      Window(s, i);
      hide Tail;
      SameWindow(r[i], s[i], Tail(r, i + 5), Tail(s, i + 5));
      if i + 5 <= j { SparseUnique(r, s, i + 5, j); }
    }
  }

  lemma SameParity(d: int, e: int, x: int, y: int)
    requires WindowDigit(d) && WindowDigit(e) && d + 2 * x == e + 2 * y
    ensures d == 0 <==> e == 0
    ensures d == 0 ==> x == y
  {
  }

  lemma SameWindow(d: int, e: int, x: int, y: int)
    requires WindowDigit(d) && WindowDigit(e) && d + 32 * x == e + 32 * y
    ensures d == e && x == y
  {
  }

  lemma Window(r: seq<int>, i: nat)
    requires i + 5 <= |r| && Sparse(r, |r|) && r[i] != 0
    ensures Tail(r, i) == r[i] + 32 * Tail(r, i + 5)
  {
    TailZeros(r, i + 1, 4);
    assert Pow2(4) == 16 by { Pow2Small(); }
  }

  /** Sparse digits stay short of 16 times the weight of the last place. */
  lemma {:induction false} SparseBound(r: seq<int>, i: nat, n: nat)
    requires i < n <= |r| && Sparse(r, |r|) && ZerosFrom(r, n)
    ensures var w := Pow2(n - 1 - i); 15 - 480 * w <= 31 * Tail(r, i) <= 480 * w - 15
    decreases |r| - i
  {
    if i == n - 1 {
      TailZeros(r, n, |r| - n);
    } else if r[i] == 0 {
      SparseBound(r, i + 1, n);
    } else if i + 5 >= n {
      TailZeros(r, i + 1, |r| - i - 1);
      PositivePower(n - 1 - i);
    } else {
      Window(r, i);
      SparseBound(r, i + 5, n);
      FiveUp(n - 6 - i);
      hide Tail, Pow2, Sparse;
      WindowBound(r[i], Tail(r, i + 5), Pow2(n - 6 - i));
    }
  }

  lemma FiveUp(n: nat)
    ensures Pow2(n + 5) == 32 * Pow2(n)
  {
    Pow2Add(5, n);
    assert Pow2(5) == 32 by { Pow2Small(); }
  }

  lemma WindowBound(d: int, t: int, w: int)
    requires WindowDigit(d) && 15 - 480 * w <= 31 * t <= 480 * w - 15
    ensures 15 - 480 * (32 * w) <= 31 * (d + 32 * t) <= 480 * (32 * w) - 15
  {
  }

  lemma PositivePower(n: nat)
    ensures Pow2(n) >= 1
  {
  }

  lemma {:induction false} TailAppend(r: seq<int>, d: int, i: nat)
    requires i <= |r|
    ensures Tail(r + [d], i) == Tail(r, i) + d * Pow2(|r| - i)
    decreases |r| - i
  {
    if i == |r| {
      assert Tail(r + [d], i + 1) == 0;
    } else {
      TailAppend(r, d, i + 1);
      assert Pow2(|r| - i) == 2 * Pow2(|r| - (i + 1));
      assert d * Pow2(|r| - i) == 2 * (d * Pow2(|r| - (i + 1)));
    }
  }

  lemma SparseAppend(r: seq<int>, d: int)
    requires |r| == 256 && Sparse(r, 256) && (d == 0 || (d == 1 && ZerosFrom(r, 252)))
    ensures Sparse(r + [d], 257)
  {
  }

  /** After a lost carry nothing else weighs up to the scalar: the next digit would be the carry. */
  lemma LostIsNotRecodable(r: seq<int>, value: int)
    requires |r| == 256 && Sparse(r, 256) && ZerosFrom(r, 252) && Tail(r, 0) == value - Pow2(256)
    ensures !Recodable(value)
  {
    if s :| |s| == 256 && Sparse(s, 256) && Tail(s, 0) == value {
      hide Tail, Pow2, Sparse;
      TailAppend(r, 1, 0);
      TailAppend(s, 0, 0);
      SparseAppend(r, 1);
      SparseAppend(s, 0);
      SparseUnique(r + [1], s + [0], 0, 256);
    }
  }

  /** Up to 2^255 no carry is lost. */
  lemma LostIsLarge(r: seq<int>, value: int)
    requires |r| == 256 && Sparse(r, 256) && ZerosFrom(r, 252) && Tail(r, 0) == value - Pow2(256)
    ensures value > Pow2(255)
  {
    hide Tail, Pow2;
    SparseBound(r, 0, 252);
    Pow2Add(5, 251);
    Pow2Add(4, 251);
    assert Pow2(4) == 16 && Pow2(5) == 32 by { Pow2Small(); }
    PositivePower(251);
  }

  lemma RecodedBy(r: seq<int>, value: int)
    requires |r| == 256 && Sparse(r, 256)
    requires Tail(r, 0) == value || (Tail(r, 0) == value - Pow2(256) && ZerosFrom(r, 252))
    ensures Tail(r, 0) == Recoded(value)
    ensures value <= Pow2(255) ==> Recoded(value) == value
  {
    hide Sparse, Tail, Pow2;
    if Tail(r, 0) == value {
      assert Recodable(value);
    } else {
      LostIsNotRecodable(r, value);
      LostIsLarge(r, value);
    }
  }

  /** A scalar whose carry is lost: 2^255 + 2^251, which comes out as -15 at position 251. */
  lemma LosesItsCarry()
    ensures Recoded(Pow2(255) + Pow2(251)) == Pow2(251) - Pow2(255)
  {
    hide Tail, Pow2;
    var r := seq(256, j requires 0 <= j < 256 => if j == 251 then -15 else 0);
    TailZeros(r, 0, 251);
    TailZeros(r, 252, 4);
    Pow2Add(5, 251);
    Pow2Add(4, 251);
    assert Pow2(4) == 16 && Pow2(5) == 32 by { Pow2Small(); }
    LastTail(r);
    Pow2Add(1, 255);
    assert Pow2(1) == 2 by { Pow2Small(); }
    LostIsNotRecodable(r, Pow2(255) + Pow2(251));
  }

  lemma LastTail(r: seq<int>)
    requires |r| == 256
    ensures Tail(r, 256) == 0 && Tail(r, 251) == r[251] + 2 * Tail(r, 252)
  {
  }

  // ---- radix 16 ------------------------------------------------------------------------

  /** The sum of e[j] 16^(j - i) over j >= i, in Horner form. */
  function Tail16(e: seq<int>, i: nat): int
    requires i <= |e|
    decreases |e| - i
  {
    if i == |e| then 0 else e[i] + 16 * Tail16(e, i + 1)
  }

  lemma {:induction false} Tail16Update(e: seq<int>, i: nat, j: nat, v: int)
    requires i <= j < |e|
    ensures Tail16(e[j := v], i) == Tail16(e, i) + (v - e[j]) * Pow2(4 * (j - i))
    decreases j - i
  {
    if i == j {
      Tail16Same(e, e[j := v], i + 1);
    } else {
      Tail16Update(e, i + 1, j, v);
      Pow2Add(4, 4 * (j - (i + 1)));
      assert Pow2(4) == 16;
      assert (v - e[j]) * Pow2(4 * (j - i)) == 16 * ((v - e[j]) * Pow2(4 * (j - (i + 1))));
    }
  }

  lemma {:induction false} Tail16Same(e: seq<int>, e': seq<int>, i: nat)
    requires i <= |e| == |e'| && forall j :: i <= j < |e| ==> e[j] == e'[j]
    ensures Tail16(e, i) == Tail16(e', i)
    decreases |e| - i
  {
    if i == |e| {
    } else {
      Tail16Same(e, e', i + 1);
    }
  }

  /** The two halves of each byte are its radix-16 digits. */
  ghost predicate AreNibbles(e: seq<int>, a: seq<byte>, n: nat)
    requires n <= |a|
  {
    |e| == 2 * |a| && forall k :: 0 <= k < n ==> e[2 * k] == a[k] % 16 && e[2 * k + 1] == a[k] / 16
  }

  lemma {:induction false} Tail16OfNibbles(e: seq<int>, a: seq<byte>, k: nat)
    requires k <= |a| && AreNibbles(e, a, |a|)
    ensures Tail16(e, 2 * k) == LE(a[k..])
    decreases |a| - k
  {
    if k == |a| {
    } else {
      Tail16OfNibbles(e, a, k + 1);
      assert a[k..][1..] == a[k + 1..];
      assert Tail16(e, 2 * k) == e[2 * k] + 16 * e[2 * k + 1] + 256 * Tail16(e, 2 * k + 2);
    }
  }

  ghost predicate Digits16(e: seq<int>, n: nat)
    requires n <= |e|
  {
    && (forall j :: 0 <= j < n ==> -8 <= e[j] < 8)
    && (forall j :: n <= j < |e| ==> 0 <= e[j] < 16)
  }

  /** The carry pass of ge_scalarmult_base: digits between -8 and 8 that sum to the scalar. */
  method Radix16(a: seq<byte>) returns (e: array<int>)
    requires |a| == 32 && a[31] <= 127
    ensures fresh(e) && e.Length == 64
    ensures forall j :: 0 <= j < 64 ==> -8 <= e[j] <= 8
    ensures Tail16(e[..], 0) == LE(a)
  {
    hide LE, Tail16, Pow2;
    e := new int[64];
    for i := 0 to 32
      invariant AreNibbles(e[..], a, i)
    {
      e[2 * i] := a[i] % 16;
      e[2 * i + 1] := a[i] / 16;
    }
    Tail16OfNibbles(e[..], a, 0);
    assert a[0..] == a;
    assert Pow2(4 * 0) == 1 by { Pow2Small(); }
    NibbleDigits(e[..], a);
    var carry := 0;
    for i := 0 to 63
      invariant 0 <= carry <= 1 && e[63] <= 7
      invariant Digits16(e[..], i)
      invariant Tail16(e[..], 0) + carry * Pow2(4 * i) == LE(a)
    {
      carry := CarryDigit(e, i, carry);
    }
    Tail16Update(e[..], 0, 63, e[63] + carry);
    ghost var was := e[..];
    e[63] := e[63] + carry;
    assert e[..] == was[63 := was[63] + carry];
  }

  /** One digit of the carry pass. */
  method CarryDigit(e: array<int>, i: nat, carry0: int) returns (carry: int)
    requires e.Length == 64 && i < 63 && 0 <= carry0 <= 1 && Digits16(e[..], i) && e[63] <= 7
    modifies e
    ensures 0 <= carry <= 1 && Digits16(e[..], i + 1) && e[63] <= 7
    ensures Tail16(e[..], 0) + carry * Pow2(4 * (i + 1)) == old(Tail16(e[..], 0)) + carry0 * Pow2(4 * i)
  {
    hide Tail16, Pow2;
    ghost var was := e[..];
    e[i] := e[i] + carry0;
    carry := (e[i] + 8) / 16;
    e[i] := e[i] - carry * 16;
    assert e[..] == was[i := was[i] + (carry0 - carry * 16)];
    CarryUp(was, e[..], i, carry0, carry);
  }

  lemma NibbleDigits(e: seq<int>, a: seq<byte>)
    requires |a| == 32 && a[31] <= 127 && AreNibbles(e, a, 32)
    ensures Digits16(e, 0) && e[63] <= 7
  {
    forall j | 0 <= j < 64 ensures 0 <= e[j] < 16 {
      var k := j / 2;
      assert e[2 * k] == a[k] % 16 && e[2 * k + 1] == a[k] / 16;
    }
    assert e[2 * 31 + 1] == a[31] / 16;
  }

  lemma CarryUp(e: seq<int>, e': seq<int>, i: nat, carry: int, carry': int)
    requires i < |e| && e' == e[i := e[i] + (carry - carry' * 16)]
    ensures Tail16(e', 0) + carry' * Pow2(4 * (i + 1)) == Tail16(e, 0) + carry * Pow2(4 * i)
  {
    hide Tail16, Pow2;
    var d := carry - carry' * 16;
    Tail16Add(e, i, d);
    NextDigit(i);
    CarryTotal(carry, carry', d, Pow2(4 * i), Pow2(4 * (i + 1)));
  }

  lemma NextDigit(i: nat)
    ensures Pow2(4 * (i + 1)) == 16 * Pow2(4 * i)
  {
    hide Pow2;
    Pow2Add(4, 4 * i);
    Pow2Small();
  }

  lemma Tail16Add(e: seq<int>, i: nat, d: int)
    requires i < |e|
    ensures Tail16(e[i := e[i] + d], 0) == Tail16(e, 0) + d * Pow2(4 * i)
  {
    hide Tail16, Pow2;
    Tail16Update(e, 0, i, e[i] + d);
    assert e[i] + d - e[i] == d;
  }

  lemma CarryTotal(c: int, c': int, d: int, n: int, n': int)
    requires d == c - c' * 16 && n' == 16 * n
    ensures d * n + c' * n' == c * n
  {
  }

  // ---- odd and even digits -------------------------------------------------------------

  /** The sum of e[2 j + parity] 256^j over j < n. */
  function Half(e: seq<int>, parity: nat, n: nat): int
    requires parity < 2 && 2 * n <= |e|
  {
    if n == 0 then 0 else Half(e, parity, n - 1) + e[2 * (n - 1) + parity] * Pow2(8 * (n - 1))
  }

  /** The odd digits, times 16, and the even digits make up the number. */
  lemma {:induction false} HalvesJoin(e: seq<int>, n: nat)
    requires 2 * n <= |e|
    ensures Tail16(e, 0) == 16 * Half(e, 1, n) + Half(e, 0, n) + Pow2(8 * n) * Tail16(e, 2 * n)
  {
    if n == 0 {
    } else {
      HalvesJoin(e, n - 1);
      hide Pow2;
      NextDigit(2 * n - 2);
      NextDigit(2 * n - 1);
      HalvesStep(Pow2(8 * (n - 1)), Pow2(8 * n), e[2 * n - 2], e[2 * n - 1], Tail16(e, 2 * n));
    }
  }

  lemma HalvesStep(p: int, p': int, even: int, odd: int, t: int)
    requires p' == 256 * p
    ensures p * (even + 16 * (odd + 16 * t)) == 16 * (odd * p) + even * p + p' * t
  {
  }
}
