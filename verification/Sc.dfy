/** Arithmetic modulo the group order l (sc.c) on limbs of 21 bits.
  *
  * The 24 limb variables of the source are one sequence, updated by the same folds and carries in
  * the same order. */
module Sc {
  import opened Words
  import opened Bytes

  const L := 0x1000000000000000000000000000000014def9dea2f79cd65812631a5cf5d3ed

  ghost predicate CongL(a: int, b: int) { (a - b) % L == 0 }

  lemma CongLIntro(a: int, b: int, k: int)
    requires a == b + k * L
    ensures CongL(a, b)
  {
  }

  lemma CongLTrans(a: int, b: int, c: int)
    requires CongL(a, b) && CongL(b, c)
    ensures CongL(a, c)
  {
  }

  lemma CongLUnique(a: int, b: int)
    requires CongL(a, b) && 0 <= a < L
    ensures a == b % L
  {
  }

  // ---- limbs ---------------------------------------------------------------------------

  /** The sum of s[j] 2^(21 (j - i)) over j >= i, in Horner form. */
  function Limbs(s: seq<int>, i: nat): int
    requires i <= |s|
    decreases |s| - i
  {
    if i == |s| then 0 else s[i] + 0x20_0000 * Limbs(s, i + 1)
  }

  function Radix21(j: nat): (r: nat)
    ensures r > 0
  {
    Pow2(21 * j)
  }

  lemma RadixAdd(i: nat, j: nat)
    ensures Radix21(i + j) == Radix21(i) * Radix21(j)
  {
    Pow2Add(21 * i, 21 * j);
    assert 21 * (i + j) == 21 * i + 21 * j;
  }

  lemma RadixNext(j: nat)
    ensures Radix21(0) == 1 && Radix21(j + 1) == 0x20_0000 * Radix21(j)
  {
    hide Pow2;
    Pow2Small();
    Pow2Add(21, 21 * j);
  }

  lemma RadixSmall()
    ensures Radix21(1) == 0x20_0000 && Radix21(2) == 0x400_0000_0000 && Radix21(3) == 0x8000_0000_0000_0000
    ensures Radix21(4) == 0x10_0000_0000_0000_0000_0000 && Radix21(5) == 0x200_0000_0000_0000_0000_0000_0000
    ensures Radix21(12) == 0x1000_0000_0000_0000_0000_0000_0000_0000_0000_0000_0000_0000_0000_0000_0000_0000
  {
    hide Radix21;
    RadixNext(0);
    RadixNext(1);
    RadixNext(2);
    RadixNext(3);
    RadixNext(4);
    RadixNext(5);
    RadixAdd(6, 6);
  }

  lemma {:induction false} LimbsUpdate(s: seq<int>, i: nat, j: nat, v: int)
    requires i <= j < |s|
    ensures Limbs(s[j := v], i) == Limbs(s, i) + (v - s[j]) * Radix21(j - i)
    decreases j - i
  {
    hide Radix21;
    RadixNext(j - i);
    if i == j {
      LimbsSame(s, s[j := v], i + 1);
    } else {
      LimbsUpdate(s, i + 1, j, v);
      RadixNext(j - i - 1);
      ScaleUp(v - s[j], Radix21(j - i - 1), Radix21(j - i));
    }
  }

  lemma ScaleUp(d: int, r: int, r': int)
    requires r' == 0x20_0000 * r
    ensures d * r' == 0x20_0000 * (d * r)
  {
  }

  lemma {:induction false} LimbsSame(s: seq<int>, t: seq<int>, i: nat)
    requires i <= |s| == |t| && forall j :: i <= j < |s| ==> s[j] == t[j]
    ensures Limbs(s, i) == Limbs(t, i)
    decreases |s| - i
  {
    if i == |s| {
    } else {
      LimbsSame(s, t, i + 1);
    }
  }

  /** The value of d in limb j. */
  function Weighted(d: int, j: nat): int { d * Radix21(j) }

  /** d is added to limb j. */
  lemma LimbsPlus(s: seq<int>, j: nat, d: int)
    requires j < |s|
    ensures Limbs(s[j := s[j] + d], 0) == Limbs(s, 0) + Weighted(d, j)
  {
    hide Limbs, Radix21;
    LimbsUpdate(s, 0, j, s[j] + d);
    assert s[j] + d - s[j] == d;
  }

  ghost predicate Bounded(s: seq<int>, n: nat) { forall j :: 0 <= j < |s| ==> -(n as int) <= s[j] <= n }

  // ---- folds and carries ---------------------------------------------------------------

  /** A product by one of the six constants, with its sum, in 64 bits. */
  function Plus(x: int, y: int, c: int, ghost n: nat, ghost b: nat): (r: int)
    requires -(n as int) <= x <= n && -(b as int) <= y <= b && -0x10_0000 <= c <= 0x10_0000
    requires n + 0x10_0000 * b < 0x8000_0000_0000_0000
    ensures r == x + y * c && I64(y * c) && -(n + 0x10_0000 * b) <= r <= n + 0x10_0000 * b
  {
    TermBound(y, c, b, 0x10_0000);
    x + y * c
  }

  lemma TermBound(x: int, y: int, m: nat, n: nat)
    requires -(m as int) <= x <= m && -(n as int) <= y <= n
    ensures -(m * n) <= x * y <= m * n
  {
    assert (m - x) * (n + y) >= 0 && (m + x) * (n - y) >= 0;
    assert (m - x) * (n - y) >= 0 && (m + x) * (n + y) >= 0;
  }

  /** Limb k, of weight 2^252 times that of limb k - 12, folds onto six limbs. */
  method Fold(s: seq<int>, k: nat, ghost n: nat, ghost b: nat) returns (r: seq<int>)
    requires |s| == 24 && 12 <= k < 24 && Bounded(s, n) && -(b as int) <= s[k] <= b
    requires n + 0x10_0000 * b < 0x8000_0000_0000_0000
    ensures |r| == 24 && r[k] == 0 && Bounded(r, n + 0x10_0000 * b)
    ensures forall j :: 0 <= j < 24 && (j < k - 12 || k - 6 <= j) && j != k ==> r[j] == s[j]
    ensures Limbs(r, 0) == Limbs(s, 0) + Folded(s[k], k - 12) && CongL(Limbs(r, 0), Limbs(s, 0))
  {
    hide Limbs, CongL, Folded;
    var i, x := k - 12, s[k];
    var s0 := s[i := Plus(s[i], x, 666643, n, b)];
    var s1 := s0[i + 1 := Plus(s0[i + 1], x, 470296, n, b)];
    var s2 := s1[i + 2 := Plus(s1[i + 2], x, 654183, n, b)];
    var s3 := s2[i + 3 := Plus(s2[i + 3], x, -997805, n, b)];
    var s4 := s3[i + 4 := Plus(s3[i + 4], x, 136657, n, b)];
    var s5 := s4[i + 5 := Plus(s4[i + 5], x, -683901, n, b)];
    r := s5[k := 0];
    FoldValue(s, s0, s1, s2, s3, s4, s5, r, k);
  }

  lemma FoldValue(s: seq<int>, s0: seq<int>, s1: seq<int>, s2: seq<int>, s3: seq<int>, s4: seq<int>, s5: seq<int>,
    r: seq<int>, k: nat)
    requires |s| == |s0| == |s1| == |s2| == |s3| == |s4| == |s5| == 24 && 12 <= k < 24
    requires var i, x := k - 12, s[k];
      && s0 == s[i := s[i] + x * 666643] && s1 == s0[i + 1 := s0[i + 1] + x * 470296]
      && s2 == s1[i + 2 := s1[i + 2] + x * 654183] && s3 == s2[i + 3 := s2[i + 3] + x * -997805]
      && s4 == s3[i + 4 := s3[i + 4] + x * 136657] && s5 == s4[i + 5 := s4[i + 5] + x * -683901]
      && s5[k] == x && r == s5[k := 0]
    ensures Limbs(r, 0) == Limbs(s, 0) + Folded(s[k], k - 12) && CongL(Limbs(r, 0), Limbs(s, 0))
  {
    hide Limbs, Radix21, CongL, Weighted, Folded;
    var i, x := k - 12, s[k];
    Added(s, s0, i, x * 666643);
    Added(s0, s1, i + 1, x * 470296);
    Added(s1, s2, i + 2, x * 654183);
    Added(s2, s3, i + 3, x * -997805);
    Added(s3, s4, i + 4, x * 136657);
    Added(s4, s5, i + 5, x * -683901);
    Added(s5, r, i + 12, -x);
    FoldTerms(x, i);
    FoldSum(Limbs(s, 0), Limbs(s0, 0), Limbs(s1, 0), Limbs(s2, 0), Limbs(s3, 0), Limbs(s4, 0), Limbs(s5, 0),
      Limbs(r, 0),
      Weighted(x * 666643, i), Weighted(x * 470296, i + 1), Weighted(x * 654183, i + 2), Weighted(x * -997805, i + 3),
      Weighted(x * 136657, i + 4), Weighted(x * -683901, i + 5), Weighted(-x, i + 12), Folded(x, i));
    FoldCong(Limbs(s, 0), x, i);
  }

  lemma FoldSum(v: int, v0: int, v1: int, v2: int, v3: int, v4: int, v5: int, v6: int,
      w0: int, w1: int, w2: int, w3: int, w4: int, w5: int, w6: int, w: int)
    requires v0 == v + w0 && v1 == v0 + w1 && v2 == v1 + w2 && v3 == v2 + w3 && v4 == v3 + w4 && v5 == v4 + w5
      && v6 == v5 + w6
    requires w0 + w1 + w2 + w3 + w4 + w5 + w6 == w
    ensures v6 == v + w
  {
  }

  /** What folding x at position i takes away: a multiple of l. */
  function Folded(x: int, i: nat): int { -(x * Radix21(i)) * L }

  lemma FoldCong(v: int, x: int, i: nat)
    ensures CongL(v + Folded(x, i), v)
  {
    CongLIntro(v + Folded(x, i), v, -(x * Radix21(i)));
  }

  lemma Added(s: seq<int>, t: seq<int>, j: nat, d: int)
    requires j < |s| && t == s[j := s[j] + d]
    ensures Limbs(t, 0) == Limbs(s, 0) + Weighted(d, j)
  {
    hide Limbs, Weighted;
    LimbsPlus(s, j, d);
  }

  /** 2^252 is congruent to the combination of the six constants. */
  lemma FoldTerms(x: int, i: nat)
    ensures Weighted(x * 666643, i) + Weighted(x * 470296, i + 1) + Weighted(x * 654183, i + 2)
      + Weighted(x * -997805, i + 3) + Weighted(x * 136657, i + 4) + Weighted(x * -683901, i + 5) + Weighted(-x, i + 12)
      == Folded(x, i)
  {
    hide Radix21, Weighted;
    RadixSmall();
    RadixNext(0);
    var t := x * Radix21(i);
    FoldTerm(x, 666643, i, 0);
    FoldTerm(x, 470296, i, 1);
    FoldTerm(x, 654183, i, 2);
    FoldTerm(x, -997805, i, 3);
    FoldTerm(x, 136657, i, 4);
    FoldTerm(x, -683901, i, 5);
    FoldTerm(x, -1, i, 12);
    assert x * -1 == -x;
    FoldConstant(t);
  }

  lemma FoldTerm(x: int, c: int, i: nat, j: nat)
    ensures Weighted(x * c, i + j) == c * Radix21(j) * (x * Radix21(i))
  {
    hide Radix21;
    RadixAdd(i, j);
    TermOrder(x, c, Radix21(i), Radix21(j));
  }

  lemma TermOrder(x: int, c: int, w: int, v: int)
    ensures x * c * (w * v) == c * v * (x * w)
  {
  }

  lemma FoldConstant(t: int)
    ensures 666643 * 1 * t + 470296 * 0x20_0000 * t + 654183 * 0x400_0000_0000 * t
      + -997805 * 0x8000_0000_0000_0000 * t + 136657 * 0x10_0000_0000_0000_0000_0000 * t
      + -683901 * 0x200_0000_0000_0000_0000_0000_0000 * t
      + -1 * 0x1000_0000_0000_0000_0000_0000_0000_0000_0000_0000_0000_0000_0000_0000_0000_0000 * t == -t * L
  {
  }

  /** A carry rounded to nearest: (s[i] + 2^20) >> 21. */
  method RoundCarry(s: seq<int>, i: nat, ghost m: nat) returns (r: seq<int>, ghost c: int)
    requires i + 1 < |s| && -(0x20_0000 * m) <= s[i] <= 0x20_0000 * m && m < 0x1000_0000_0000
    requires -0x1000_0000_0000_0000 <= s[i + 1] <= 0x1000_0000_0000_0000
    ensures -(m as int) <= c <= m && -0x10_0000 <= s[i] - 0x20_0000 * c < 0x10_0000
    ensures r == s[i := s[i] - 0x20_0000 * c][i + 1 := s[i + 1] + c]
    ensures Limbs(r, 0) == Limbs(s, 0)
  {
    hide Limbs;
    var carry := (s[i] + 0x10_0000) / 0x20_0000;
    c := carry;
    r := s[i + 1 := s[i + 1] + carry];
    r := r[i := r[i] - carry * 0x20_0000];
    CarryValue(s, i, carry);
  }

  /** A carry rounded down: s[i] >> 21. */
  method FloorCarry(s: seq<int>, i: nat) returns (r: seq<int>, ghost c: int)
    requires i + 1 < |s| && -0x2000_0000_0000_0000 <= s[i] <= 0x2000_0000_0000_0000
    requires -0x1000_0000_0000_0000 <= s[i + 1] <= 0x1000_0000_0000_0000
    ensures -0x100_0000_0000 <= c <= 0x100_0000_0000 && 0 <= s[i] - 0x20_0000 * c < 0x20_0000
    ensures r == s[i := s[i] - 0x20_0000 * c][i + 1 := s[i + 1] + c]
    ensures Limbs(r, 0) == Limbs(s, 0)
  {
    hide Limbs;
    var carry := s[i] / 0x20_0000;
    c := carry;
    r := s[i + 1 := s[i + 1] + carry];
    r := r[i := r[i] - carry * 0x20_0000];
    CarryValue(s, i, carry);
  }

  lemma CarryValue(s: seq<int>, i: nat, c: int)
    requires i + 1 < |s|
    ensures Limbs(s[i := s[i] - 0x20_0000 * c][i + 1 := s[i + 1] + c], 0) == Limbs(s, 0)
  {
    hide Limbs, Weighted;
    var t := s[i := s[i] + -0x20_0000 * c];
    LimbsPlus(s, i, -0x20_0000 * c);
    LimbsPlus(t, i + 1, c);
    CarryMoves(c, i);
    assert s[i] + -0x20_0000 * c == s[i] - 0x20_0000 * c;
  }

  lemma CarryMoves(c: int, i: nat)
    ensures Weighted(-0x20_0000 * c, i) + Weighted(c, i + 1) == 0
  {
    hide Radix21;
    RadixNext(i);
    ScaleUp(c, Radix21(i), Radix21(i + 1));
    TermOrder(-0x20_0000, c, Radix21(i), 1);
  }

  // ---- the common part of sc_reduce and sc_muladd --------------------------------------

  /** What a rounded carry leaves. */
  ghost predicate Balanced(x: int) { -0x10_0000 <= x < 0x10_0000 }

  ghost predicate Digit(x: int) { 0 <= x < 0x20_0000 }

  /** Limbs 23 to 18 fold onto limbs 6 to 16. */
  method FoldHigh(s: seq<int>) returns (r: seq<int>)
    requires |s| == 24 && Bounded(s, 0x8000_0000)
    ensures |r| == 24 && Bounded(r, 0x40_0000_0000_0000)
    ensures forall j :: 0 <= j < 24 && (j < 6 || j == 17) ==> r[j] == s[j]
    ensures forall j :: 18 <= j < 24 ==> r[j] == 0
    ensures CongL(Limbs(r, 0), Limbs(s, 0))
  {
    hide Limbs, CongL, Folded;
    ghost var n, b, d := 0x8000_0000, 0x8000_0000, 0x8_0000_0000_0000;
    var s22 := Fold(s, 23, n, b);
    var s21 := Fold(s22, 22, n + d, b);
    var s20 := Fold(s21, 21, n + 2 * d, b);
    var s19 := Fold(s20, 20, n + 3 * d, b);
    var s18 := Fold(s19, 19, n + 4 * d, b);
    r := Fold(s18, 18, n + 5 * d, b);
    CongLTrans(Limbs(s21, 0), Limbs(s22, 0), Limbs(s, 0));
    CongLTrans(Limbs(s20, 0), Limbs(s21, 0), Limbs(s, 0));
    CongLTrans(Limbs(s19, 0), Limbs(s20, 0), Limbs(s, 0));
    CongLTrans(Limbs(s18, 0), Limbs(s19, 0), Limbs(s, 0));
    CongLTrans(Limbs(r, 0), Limbs(s18, 0), Limbs(s, 0));
  }

  /** Limbs 17 to 12 fold onto limbs 0 to 10. */
  method FoldMiddle(s: seq<int>) returns (r: seq<int>)
    requires |s| == 24 && Bounded(s, 0x8_0000_0000)
    ensures |r| == 24 && Bounded(r, 0x400_0000_0000_0000)
    ensures forall j :: 12 <= j < 24 ==> r[j] == if j < 18 then 0 else s[j]
    ensures CongL(Limbs(r, 0), Limbs(s, 0))
  {
    hide Limbs, CongL, Folded;
    ghost var n, b, d := 0x8_0000_0000, 0x8_0000_0000, 0x80_0000_0000_0000;
    var s16 := Fold(s, 17, n, b);
    var s15 := Fold(s16, 16, n + d, b);
    var s14 := Fold(s15, 15, n + 2 * d, b);
    var s13 := Fold(s14, 14, n + 3 * d, b);
    var s12 := Fold(s13, 13, n + 4 * d, b);
    r := Fold(s12, 12, n + 5 * d, b);
    CongLTrans(Limbs(s15, 0), Limbs(s16, 0), Limbs(s, 0));
    CongLTrans(Limbs(s14, 0), Limbs(s15, 0), Limbs(s, 0));
    CongLTrans(Limbs(s13, 0), Limbs(s14, 0), Limbs(s, 0));
    CongLTrans(Limbs(s12, 0), Limbs(s13, 0), Limbs(s, 0));
    CongLTrans(Limbs(r, 0), Limbs(s12, 0), Limbs(s, 0));
  }

  /** Rounded carries out of limbs 6, 8, ..., 16. */
  method BalanceHighEven(s: seq<int>) returns (r: seq<int>)
    requires |s| == 24 && Bounded(s, 0x40_0000_0000_0000)
    requires forall j :: 0 <= j < 6 || 17 <= j < 24 ==> -0x8000_0000 <= s[j] <= 0x8000_0000
    ensures |r| == 24 && Bounded(r, 0x40_0002_0000_0000)
    ensures forall j :: 0 <= j < 24 && (j < 7 || j >= 17 || j % 2 == 0) ==> -0x3_0000_0000 <= r[j] <= 0x3_0000_0000
    ensures forall j :: 18 <= j < 24 ==> r[j] == s[j]
    ensures Limbs(r, 0) == Limbs(s, 0)
  {
    hide Limbs;
    ghost var m, c := 0x2_0000_0000, 0;
    r, c := RoundCarry(s, 6, m);
    r, c := RoundCarry(r, 8, m);
    r, c := RoundCarry(r, 10, m);
    r, c := RoundCarry(r, 12, m);
    r, c := RoundCarry(r, 14, m);
    r, c := RoundCarry(r, 16, m);
  }

  /** Rounded carries out of limbs 7, 9, ..., 15. */
  method BalanceHighOdd(s: seq<int>) returns (r: seq<int>)
    requires |s| == 24 && Bounded(s, 0x40_0002_0000_0000)
    requires forall j :: 0 <= j < 24 && (j < 7 || j >= 17 || j % 2 == 0) ==> -0x3_0000_0000 <= s[j] <= 0x3_0000_0000
    ensures |r| == 24 && Bounded(r, 0x8_0000_0000)
    ensures forall j :: 18 <= j < 24 ==> r[j] == s[j]
    ensures Limbs(r, 0) == Limbs(s, 0)
  {
    hide Limbs;
    ghost var m, c := 0x2_0000_1000, 0;
    r, c := RoundCarry(s, 7, m);
    r, c := RoundCarry(r, 9, m);
    r, c := RoundCarry(r, 11, m);
    r, c := RoundCarry(r, 13, m);
    r, c := RoundCarry(r, 15, m);
  }

  /** Rounded carries out of limbs 0, 2, ..., 10. */
  method BalanceLowEven(s: seq<int>) returns (r: seq<int>)
    requires |s| == 24 && Bounded(s, 0x400_0000_0000_0000) && s[12] == 0
    ensures |r| == 24 && Bounded(r, 0x400_0020_0000_0000)
    ensures forall j :: 0 <= j <= 12 && j % 2 == 0 ==> Balanced(r[j])
    ensures forall j :: 12 <= j < 24 ==> r[j] == s[j]
    ensures Limbs(r, 0) == Limbs(s, 0)
  {
    hide Limbs;
    ghost var m, c := 0x20_0000_0000, 0;
    r, c := RoundCarry(s, 0, m);
    r, c := RoundCarry(r, 2, m);
    r, c := RoundCarry(r, 4, m);
    r, c := RoundCarry(r, 6, m);
    r, c := RoundCarry(r, 8, m);
    r, c := RoundCarry(r, 10, m);
  }

  /** Rounded carries out of limbs 1, 3, ..., 11. */
  method BalanceLowOdd(s: seq<int>) returns (r: seq<int>)
    requires |s| == 24 && Bounded(s, 0x400_0020_0000_0000)
    requires forall j :: 0 <= j <= 12 && j % 2 == 0 ==> Balanced(s[j])
    ensures |r| == 24 && (forall j :: 0 <= j <= 12 ==> -0x40_0000_0000 <= r[j] <= 0x40_0000_0000) && Balanced(r[11])
    ensures forall j :: 13 <= j < 24 ==> r[j] == s[j]
    ensures Limbs(r, 0) == Limbs(s, 0)
  {
    hide Limbs;
    ghost var m, c := 0x20_0001_0000, 0;
    r, c := RoundCarry(s, 1, m);
    r, c := RoundCarry(r, 3, m);
    r, c := RoundCarry(r, 5, m);
    r, c := RoundCarry(r, 7, m);
    r, c := RoundCarry(r, 9, m);
    r, c := RoundCarry(r, 11, m);
  }

  /** Carries out of limbs 0 to 10, rounded down. */
  method FloorChain(s: seq<int>) returns (r: seq<int>)
    requires |s| == 24 && forall j :: 0 <= j <= 12 ==> -0x800_0000_0000_0000 <= s[j] <= 0x800_0000_0000_0000
    ensures |r| == 24 && (forall j :: 0 <= j < 11 ==> Digit(r[j]))
      && -0x800_1000_0000_0000 <= r[11] <= 0x800_1000_0000_0000
    ensures forall j :: 12 <= j < 24 ==> r[j] == s[j]
    ensures Limbs(r, 0) == Limbs(s, 0)
  {
    r := FloorChainLow(s);
    r := FloorChainHigh(r);
  }

  method FloorChainLow(s: seq<int>) returns (r: seq<int>)
    requires |s| == 24 && forall j :: 0 <= j <= 12 ==> -0x800_0000_0000_0000 <= s[j] <= 0x800_0000_0000_0000
    ensures |r| == 24 && (forall j :: 0 <= j < 6 ==> Digit(r[j]))
      && -0x800_1000_0000_0000 <= r[6] <= 0x800_1000_0000_0000
    ensures forall j :: 7 <= j < 24 ==> r[j] == s[j]
    ensures Limbs(r, 0) == Limbs(s, 0)
  {
    hide Limbs;
    ghost var c;
    r, c := FloorCarry(s, 0);
    r, c := FloorCarry(r, 1);
    r, c := FloorCarry(r, 2);
    r, c := FloorCarry(r, 3);
    r, c := FloorCarry(r, 4);
    r, c := FloorCarry(r, 5);
  }

  method FloorChainHigh(s: seq<int>) returns (r: seq<int>)
    requires |s| == 24 && (forall j :: 0 <= j < 6 ==> Digit(s[j]))
      && -0x800_1000_0000_0000 <= s[6] <= 0x800_1000_0000_0000
    requires forall j :: 7 <= j <= 12 ==> -0x800_0000_0000_0000 <= s[j] <= 0x800_0000_0000_0000
    ensures |r| == 24 && (forall j :: 0 <= j < 11 ==> Digit(r[j]))
      && -0x800_1000_0000_0000 <= r[11] <= 0x800_1000_0000_0000
    ensures forall j :: 12 <= j < 24 ==> r[j] == s[j]
    ensures Limbs(r, 0) == Limbs(s, 0)
  {
    hide Limbs;
    ghost var c;
    r, c := FloorCarry(s, 6);
    r, c := FloorCarry(r, 7);
    r, c := FloorCarry(r, 8);
    r, c := FloorCarry(r, 9);
    r, c := FloorCarry(r, 10);
  }

  // ---- the last quotient ---------------------------------------------------------------

  lemma {:induction false} LimbsSplit(s: seq<int>, n: nat)
    requires n <= |s|
    ensures Limbs(s, 0) == Limbs(s[..n], 0) + Radix21(n) * Limbs(s, n)
    decreases n
  {
    hide Radix21;
    if n == 0 {
      RadixNext(0);
    } else {
      LimbsSplit(s, n - 1);
      RadixNext(n - 1);
      assert s[..n][..n - 1] == s[..n - 1];
      LimbsSplit(s[..n], n - 1);
      LimbsTop(s, n);
      SplitStep(Radix21(n - 1), Radix21(n), s[n - 1], Limbs(s, n));
    }
  }

  lemma LimbsTop(s: seq<int>, n: nat)
    requires 0 < n <= |s|
    ensures Limbs(s[..n], n - 1) == s[n - 1] && Limbs(s, n - 1) == s[n - 1] + 0x20_0000 * Limbs(s, n)
  {
    assert Limbs(s[..n], n) == 0;
  }

  lemma SplitStep(w: int, w': int, d: int, t: int)
    requires w' == 0x20_0000 * w
    ensures w * (d + 0x20_0000 * t) == w * d + w' * t
  {
  }

  lemma {:induction false} LimbsZero(s: seq<int>, i: nat)
    requires i <= |s| && forall j :: i <= j < |s| ==> s[j] == 0
    ensures Limbs(s, i) == 0
    decreases |s| - i
  {
    if i == |s| {
    } else {
      LimbsZero(s, i + 1);
    }
  }

  /** n limbs of magnitude b spell less than 2 b 2^(21 (n - 1)). */
  lemma {:induction false} LimbsMagnitude(s: seq<int>, i: nat, b: nat)
    requires i < |s| && forall j :: i <= j < |s| ==> -(b as int) <= s[j] <= b
    ensures var w := Radix21(|s| - 1 - i); -(2 * b * w) + b <= Limbs(s, i) <= 2 * b * w - b
    decreases |s| - i
  {
    hide Radix21;
    RadixNext(|s| - 1 - i);
    if i + 1 == |s| {
      assert Limbs(s, i) == s[i];
    } else {
      LimbsMagnitude(s, i + 1, b);
      RadixNext(|s| - 2 - i);
      MagnitudeStep(b, Radix21(|s| - 2 - i), Radix21(|s| - 1 - i));
    }
  }

  lemma MagnitudeStep(b: nat, w: nat, w': nat)
    requires w' == 0x20_0000 * w
    ensures b + 0x20_0000 * (2 * b * w - b) <= 2 * b * w' - b
  {
    assert 2 * b * w' == 0x20_0000 * (2 * b * w);
  }

  lemma {:induction false} LimbsDigits(s: seq<int>, i: nat)
    requires i <= |s| && forall j :: i <= j < |s| ==> Digit(s[j])
    ensures 0 <= Limbs(s, i) < Radix21(|s| - i)
    decreases |s| - i
  {
    hide Radix21;
    RadixNext(|s| - i);
    if i < |s| {
      LimbsDigits(s, i + 1);
      RadixNext(|s| - i - 1);
    }
  }

  ghost predicate ZeroFrom(s: seq<int>, i: nat) { forall j :: i <= j < |s| ==> s[j] == 0 }

  lemma LowTwelve(s: seq<int>)
    requires |s| == 24 && ZeroFrom(s, 13)
    ensures Limbs(s, 0) == Limbs(s[..12], 0) + Radix21(12) * s[12]
  {
    hide Radix21;
    LimbsSplit(s, 12);
    LimbsZero(s, 13);
  }

  const TWO252 := 0x1000_0000_0000_0000_0000_0000_0000_0000_0000_0000_0000_0000_0000_0000_0000_0000

  /** With a balanced limb 11 the value stays below 2^252 in magnitude. */
  lemma TopBalanced(s: seq<int>)
    requires |s| == 24 && ZeroFrom(s, 12) && Balanced(s[11])
    requires forall j :: 0 <= j < 6 ==> -0x800_0000_0000_0000 <= s[j] <= 0x800_0000_0000_0000
    requires forall j :: 6 <= j < 11 ==> -0x40_0000_0000 <= s[j] <= 0x40_0000_0000
    ensures -TWO252 < Limbs(s, 0) < TWO252
  {
    hide Limbs, Radix21;
    LowTwelve(s);
    var t := s[..12];
    LimbsSplit(t, 11);
    var u := t[..11];
    LimbsSplit(u, 6);
    LimbsMagnitude(u[..6], 0, 0x800_0000_0000_0000);
    LimbsMagnitude(u, 6, 0x40_0000_0000);
    TopLimb(t);
    Weights();
    TopSum(Limbs(u[..6], 0), Limbs(u, 6), s[11]);
  }

  lemma TopLimb(t: seq<int>)
    requires |t| == 12
    ensures Limbs(t, 11) == t[11]
  {
    assert Limbs(t, 12) == 0;
  }

  lemma Weights()
    ensures Radix21(4) == 0x10_0000_0000_0000_0000_0000 && Radix21(5) == 0x200_0000_0000_0000_0000_0000_0000
    ensures Radix21(6) == 0x4000_0000_0000_0000_0000_0000_0000_0000 && Radix21(12) == TWO252
    ensures Radix21(11) == 0x80_0000_0000_0000_0000_0000_0000_0000_0000_0000_0000_0000_0000_0000_0000
  {
    hide Radix21;
    RadixSmall();
    RadixNext(5);
    RadixAdd(5, 6);
  }

  lemma TopSum(low: int, mid: int, top: int)
    requires -0x1000_0000_0000_0000 * 0x200_0000_0000_0000_0000_0000_0000 <= low
    requires low <= 0x1000_0000_0000_0000 * 0x200_0000_0000_0000_0000_0000_0000
    requires -0x80_0000_0000 * 0x10_0000_0000_0000_0000_0000 <= mid <= 0x80_0000_0000 * 0x10_0000_0000_0000_0000_0000
    requires -0x10_0000 <= top < 0x10_0000
    ensures -TWO252 < low + 0x4000_0000_0000_0000_0000_0000_0000_0000 * mid
      + 0x80_0000_0000_0000_0000_0000_0000_0000_0000_0000_0000_0000_0000_0000_0000 * top < TWO252
  {
  }

  /** The quotient of the last fold is -1 or 0, and the fold lands in [0, l). */
  lemma LastQuotient(w: int, d: int, q: int)
    requires -TWO252 < w < TWO252 && w == d + TWO252 * q && 0 <= d < TWO252
    ensures q == -1 || q == 0
    ensures 0 <= w - q * L < L
  {
  }

  lemma FoldedOnce(q: int)
    ensures Folded(q, 0) == -(q * L)
  {
    RadixNext(0);
    assert q * 1 == q;
  }

  /** The lines from the first fold to the last carry: the residue modulo l, in twelve limbs. */
  method ReduceLimbs(s: seq<int>) returns (r: seq<int>)
    requires |s| == 24 && Bounded(s, 0x8000_0000)
    ensures |r| == 12 && (forall j :: 0 <= j < 11 ==> Digit(r[j]))
    ensures Limbs(r, 0) == Limbs(s, 0) % L
  {
    hide Limbs, CongL, Folded, Radix21, Weighted;
    var a := FoldHigh(s);
    var b := BalanceHighEven(a);
    b := BalanceHighOdd(b);
    var c := FoldMiddle(b);
    CongLTrans(Limbs(c, 0), Limbs(b, 0), Limbs(s, 0));
    var d := BalanceLowEven(c);
    d := BalanceLowOdd(d);
    var e := FoldLast(d);
    CongLTrans(Limbs(e, 0), Limbs(d, 0), Limbs(s, 0));
    TopBalanced(e);
    var h := FoldQuotient(e);
    CongLTrans(Limbs(h, 0), Limbs(e, 0), Limbs(s, 0));
    var k := FloorChain(h);
    LowTwelve(k);
    r := k[..12];
    CongLUnique(Limbs(r, 0), Limbs(s, 0));
  }

  /** Limb 12 folds after the balanced carries. */
  method FoldLast(s: seq<int>) returns (r: seq<int>)
    requires |s| == 24 && (forall j :: 0 <= j <= 12 ==> -0x40_0000_0000 <= s[j] <= 0x40_0000_0000)
    requires ZeroFrom(s, 13) && Balanced(s[11])
    ensures |r| == 24 && ZeroFrom(r, 12) && Balanced(r[11])
    ensures forall j :: 0 <= j < 6 ==> -0x800_0000_0000_0000 <= r[j] <= 0x800_0000_0000_0000
    ensures forall j :: 6 <= j < 11 ==> -0x40_0000_0000 <= r[j] <= 0x40_0000_0000
    ensures CongL(Limbs(r, 0), Limbs(s, 0))
  {
    hide Limbs, CongL, Folded;
    r := Fold(s, 12, 0x40_0000_0000, 0x40_0000_0000);
  }

  /** Carries to the quotient by 2^252, and its fold. */
  method FoldQuotient(s: seq<int>) returns (r: seq<int>)
    requires |s| == 24 && ZeroFrom(s, 12) && -TWO252 < Limbs(s, 0) < TWO252
    requires forall j :: 0 <= j < 12 ==> -0x800_0000_0000_0000 <= s[j] <= 0x800_0000_0000_0000
    ensures |r| == 24 && Bounded(r, 0x80_0000) && ZeroFrom(r, 12)
    ensures 0 <= Limbs(r, 0) < L && CongL(Limbs(r, 0), Limbs(s, 0))
  {
    hide Limbs, CongL, Folded, Radix21;
    var f := FloorChain(s);
    var g, c := FloorCarry(f, 11);
    LowTwelve(g);
    LimbsDigits(g[..12], 0);
    Weights();
    LastQuotient(Limbs(g, 0), Limbs(g[..12], 0), g[12]);
    FoldedOnce(g[12]);
    r := Fold(g, 12, 0x20_0000, 1);
  }
}
