/** Field elements of curve25519-donna.c as byte strings: fexpand and fcontract. */
module DonnaBytes {
  import opened Bytes
  import opened Bits
  import opened Modular
  import opened Radix
  import opened Limbs25
  import opened DonnaField


  // ---- fexpand -------------------------------------------------------------------------

  /** The macro F: w bits from bit 8 start + shift on. */
  function BitField(s: seq<byte>, start: nat, shift: nat, w: nat): (r: int)
    requires start + 4 <= |s| && shift + w <= 32
    ensures r == LE(s) / Pow2(8 * start + shift) % Pow2(w)
  {
    hide Pow2, LE, And, Shr;
    LE4(s[start..]);
    Pow2Literals();
    LoadedBits(s[start..], Load4(s[start..]), 32, shift, w, LE(s[start..][4..]));
    DropBits(s, start, shift);
    And(Shr(Load4(s[start..]), shift), Pow2(w) - 1)
  }

  /** The bit position of limb i. */
  function Offset(i: nat): (n: nat)
    ensures i <= 10 ==> n <= 255
  {
    51 * (i / 2) + if i % 2 == 0 then 0 else 26
  }

  /** s holds the digits of x in radix 2^25.5. */
  ghost predicate Spells(s: seq<int>, x: nat) {
    |s| == 10 && forall j :: 0 <= j < 10 ==> s[j] == x / Pow2(Offset(j)) % Base(j)
  }

  lemma OffsetNext(i: nat)
    ensures Pow2(Offset(i + 1)) == Pow2(Offset(i)) * Base(i)
    ensures i < 10 ==> Pow2(255 - Offset(i)) == Base(i) * Pow2(255 - Offset(i + 1))
  {
    hide Pow2;
    Pow2Add(16, 10);
    Pow2Add(16, 9);
    TenBits();
    if i % 2 == 0 {
      Pow2Add(Offset(i), 26);
      if i < 10 {
        Pow2Add(26, 255 - Offset(i + 1));
      }
    } else {
      Pow2Add(Offset(i), 25);
      if i < 10 {
        Pow2Add(25, 255 - Offset(i + 1));
      }
    }
  }

  lemma TenBits()
    ensures Pow2(9) == 0x200 && Pow2(10) == 0x400 && Pow2(16) == 0x1_0000
  {
    Pow2Small();
  }

  lemma ModSplit(y: nat, b: nat, w: nat)
    requires b > 0 && w > 0
    ensures b * w > 0 && y % (b * w) == y % b + b * (y / b % w)
  {
    var q := y / b;
    SplitTotal(y, b, w, q, y % b, q / w, q % w);
    DivModUnique(y, b * w, q / w, b * (q % w) + y % b);
  }

  lemma SplitTotal(y: int, b: nat, w: nat, q: int, r: int, q': int, r': int)
    requires b > 0 && w > 0 && y == q * b + r && 0 <= r < b && q == q' * w + r' && 0 <= r' < w
    ensures b * w > 0 && y == q' * (b * w) + (b * r' + r) && 0 <= b * r' + r < b * w
  {
    assert q * b == q' * (b * w) + b * r';
    assert b * r' <= b * (w - 1);
  }

  lemma {:induction false} SpelledValue(s: seq<int>, x: nat, i: nat)
    requires i <= 10 && Spells(s, x)
    ensures Horner(s, i) == x / Pow2(Offset(i)) % Pow2(255 - Offset(i))
    decreases 10 - i
  {
    hide Pow2, Offset, Base;
    if i == 10 {
      LastOffset(x);
    } else {
      SpelledValue(s, x, i + 1);
      OffsetNext(i);
      PositiveBase(i);
      DivDiv(x, Pow2(Offset(i)), Base(i));
      NonNegativeQuotient(x, Pow2(Offset(i)));
      ModSplit(x / Pow2(Offset(i)), Base(i), Pow2(255 - Offset(i + 1)));
    }
  }

  lemma PositiveBase(i: nat)
    ensures Base(i) > 0
  {
  }

  lemma LastOffset(x: nat)
    ensures Offset(10) == 255 && Pow2(0) == 1 && x / Pow2(255) % 1 == 0
  {
  }

  /** A 32-byte string without its top bit. */
  method FExpand(s: seq<byte>) returns (output: Fe)
    requires |s| == 32
    ensures Reduced(output) && Val(output) == LE(s) % TWO255
  {
    hide Pow2, LE, BitField, Val, Horner;
    output := Fe(BitField(s, 0, 0, 26), BitField(s, 3, 2, 25), BitField(s, 6, 3, 26), BitField(s, 9, 5, 25),
      BitField(s, 12, 6, 26),
                 BitField(s, 16, 0, 25), BitField(s, 19, 1, 26), BitField(s, 22, 3, 25), BitField(s, 25, 4, 26),
                   BitField(s, 28, 6, 25));
    FieldsSpell(s, output);
    ghost var t := LimbsOf(output);
    SpelledValue(t, LE(s), 0);
    HornerIsVal(t);
    Pow2Literals();
    assert Pow2(0) == 1 by { Pow2Small(); }
    SpelledLimbs(t, LE(s));
  }

  function LimbsOf(f: Fe): seq<int> { [f.l0, f.l1, f.l2, f.l3, f.l4, f.l5, f.l6, f.l7, f.l8, f.l9] }

  lemma FieldsSpell(s: seq<byte>, f: Fe)
    requires |s| == 32
    requires f == Fe(BitField(s, 0, 0, 26), BitField(s, 3, 2, 25), BitField(s, 6, 3, 26), BitField(s, 9, 5, 25),
      BitField(s, 12, 6, 26), BitField(s, 16, 0, 25), BitField(s, 19, 1, 26), BitField(s, 22, 3, 25),
      BitField(s, 25, 4, 26), BitField(s, 28, 6, 25))
    ensures Spells(LimbsOf(f), LE(s))
  {
    hide Pow2, LE, BitField;
    Pow2Add(16, 10);
    Pow2Add(16, 9);
    TenBits();
  }

  lemma SpelledLimbs(t: seq<int>, x: nat)
    requires Spells(t, x)
    ensures forall j :: 0 <= j < 10 ==> 0 <= t[j] <= 0x3ff_ffff
  {
    hide Pow2;
  }

  // ---- comparisons without branches ----------------------------------------------------

  /** The top m of 32 bits are ones. */
  ghost predicate TopOnes(w: nat, m: nat)
    requires m <= 32
  {
    Shr(w, 32 - m) == Pow2(m) - 1
  }

  /** a &= a << m, in 32 bits. */
  function AndShifted(w: nat, m: nat): (r: nat)
    requires w < 0x1_0000_0000
    ensures r < 0x1_0000_0000
  {
    hide And, Pow2;
    NonNegativeProduct(w, Pow2(m));
    AndBound(w, w * Pow2(m) % 0x1_0000_0000);
    And(w, w * Pow2(m) % 0x1_0000_0000)
  }

  /** One step halves the number of bits that still have to be looked at. */
  lemma Folds(w: nat, m: nat)
    requires w < 0x1_0000_0000 && 2 * m <= 32
    ensures TopOnes(AndShifted(w, m), m) <==> TopOnes(w, 2 * m)
  {
    hide And, Pow2, Shr;
    Pow2Literals();
    var n, k := Pow2(m), Pow2(32 - 2 * m);
    NonNegativeProduct(w, n);
    var y := w * n % 0x1_0000_0000;
    Pow2Add(m, 32 - m);
    Pow2Add(m, 32 - 2 * m);
    Pow2Add(m, m);
    AndShr(w, y, 32 - m);
    var q := Shr(w, 32 - 2 * m);
    DivDiv(w, k, n);
    ShiftedField(w, n, k, y);
    QuotientBelow(w, n * k, n);
    AndFull(q / n, q % n, m);
    TwoHalves(q, n);
  }

  /** The m bits below the top ones of w are the top ones of w << m. */
  lemma ShiftedField(w: nat, n: nat, k: nat, y: nat)
    requires n > 0 && k > 0 && n * (n * k) == 0x1_0000_0000 && w < 0x1_0000_0000 && y == w * n % 0x1_0000_0000
    ensures n * k > 0 && y / (n * k) == w / k % n
  {
    var q := w / k;
    var r := w % k;
    assert n * k > 0;
    FieldTotal(w, n, k, q, r, q / n, q % n);
    DivModUnique(w * n, 0x1_0000_0000, q / n, n * (q % n * k + r));
    DivModUnique(y, n * k, q % n, n * r);
  }

  lemma FieldTotal(w: nat, n: nat, k: nat, q: int, r: int, a: int, b: int)
    requires n > 0 && k > 0 && n * (n * k) == 0x1_0000_0000 && w == q * k + r && 0 <= r < k && q == a * n + b
      && 0 <= b < n
    ensures w * n == a * 0x1_0000_0000 + n * (b * k + r) && 0 <= n * (b * k + r) < 0x1_0000_0000
    ensures n * (b * k + r) == b * (n * k) + n * r && 0 <= n * r < n * k
  {
    BelowProduct(b, n, k, r);
    TimesLess(n, b * k + r, n * k);
    TimesLess(n, r, k);
    FieldProduct(n, k, a, b, r);
  }

  lemma BelowProduct(b: int, n: int, k: int, r: int)
    requires 0 <= b < n && 0 <= r < k
    ensures 0 <= b * k + r < n * k
  {
    assert b * k <= (n - 1) * k;
  }

  lemma TimesLess(n: int, u: int, v: int)
    requires n > 0 && 0 <= u < v
    ensures 0 <= n * u < n * v
  {
  }

  lemma FieldProduct(n: int, k: int, a: int, b: int, r: int)
    ensures ((a * n + b) * k + r) * n == a * (n * (n * k)) + n * (b * k + r)
    ensures n * (b * k + r) == b * (n * k) + n * r
  {
  }

  lemma TwoHalves(q: nat, n: nat)
    requires n > 0 && q / n < n
    ensures q == n * n - 1 <==> q / n == n - 1 && q % n == n - 1
  {
    HalvesTotal(q, n, q / n, q % n);
  }

  lemma HalvesTotal(q: nat, n: nat, a: int, b: int)
    requires n > 0 && q == a * n + b && a < n && 0 <= b < n
    ensures q == n * n - 1 <==> a == n - 1 && b == n - 1
  {
    assert a <= n - 2 ==> a * n <= (n - 2) * n;
  }

  /** s32_eq: all ones if a == b, else zero. */
  function S32Eq(a: int, b: int): (r: int)
    requires 0 <= a < 0x8000_0000 && 0 <= b < 0x8000_0000
    ensures r == if a == b then -1 else 0
  {
    hide Xor, AndShifted, TopOnes, Pow2;
    XorIsZero(a, b);
    XorWord(a, b);
    var w := 0xffff_ffff - Xor(a, b);
    var w16 := AndShifted(w, 16);
    var w8 := AndShifted(w16, 8);
    var w4 := AndShifted(w8, 4);
    var w2 := AndShifted(w4, 2);
    var w1 := AndShifted(w2, 1);
    Folds(w, 16);
    Folds(w16, 8);
    Folds(w8, 4);
    Folds(w4, 2);
    Folds(w2, 1);
    TopBitSet(w1);
    AllBitsSet(w);
    if w1 >= 0x8000_0000 then -1 else 0
  }

  lemma XorWord(a: nat, b: nat)
    requires a < 0x8000_0000 && b < 0x8000_0000
    ensures 0 <= Xor(a, b) < 0x1_0000_0000
  {
    hide Xor, Pow2;
    Pow2Literals();
    XorBound(a, b, 32);
  }

  lemma TopBitSet(w: nat)
    requires w < 0x1_0000_0000
    ensures TopOnes(w, 1) <==> w >= 0x8000_0000
  {
    hide Pow2;
    Pow2Literals();
    Pow2Add(1, 31);
    Pow2Small();
  }

  lemma AllBitsSet(w: nat)
    ensures TopOnes(w, 32) <==> w == 0xffff_ffff
  {
    hide Pow2;
    Pow2Literals();
    Pow2Small();
  }

  /** s32_gte: all ones if a >= b, else zero. */
  function S32Gte(a: int, b: int): (r: int)
    requires 0 <= a < 0x8000_0000 && 0 <= b < 0x8000_0000
    ensures r == if a >= b then -1 else 0
  {
    -1 - (a - b) / 0x8000_0000
  }
}
