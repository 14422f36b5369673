/** fcontract of curve25519-donna.c: the canonical bytes of any limb vector below 2^26. */
module DonnaContract {
  import opened Words
  import opened Bytes
  import opened Bits
  import opened Modular
  import opened Radix
  import opened Limbs25
  import opened DonnaField
  import opened DonnaBytes

  // ---- borrows -------------------------------------------------------------------------

  /** Any input: limbs below 2^26 in magnitude. */
  ghost predicate Rough(s: seq<int>) {
    |s| == 10 && forall j :: 0 <= j < 10 ==> -0x3ff_ffff <= s[j] <= 0x3ff_ffff
  }

  /** After one pass only limb 0 can be negative, and only by three borrows times 19. */
  ghost predicate Borrowed(s: seq<int>) {
    |s| == 10 && -57 <= s[0] <= 0x3ff_ffff && forall j :: 1 <= j < 10 ==> 0 <= s[j] <= 0x3ff_ffff
  }

  ghost predicate NonNegative(s: seq<int>) {
    |s| == 10 && forall j :: 0 <= j < 10 ==> 0 <= s[j] <= 0x3ff_ffff
  }

  /** -((x & (x >> 31)) >> k): how much a limb of width b = 2^k has to borrow. */
  function Borrow(x: int, b: int): (c: int)
    requires I32(x) && (b == 0x400_0000 || b == 0x200_0000)
    ensures x >= 0 ==> c == 0
    ensures x < 0 ==> c >= 1 && 0 <= x + c * b < b
  {
    hide SAnd;
    AndAllOnes(x);
    AndZero(x);
    -(SAnd(x, x / 0x8000_0000) / b)
  }

  /** The borrow out of limb 9 is at most one exactly for limbs down to -2^25; it is two just below. */
  lemma BorrowAtMostOne(x: int)
    requires I32(x)
    ensures Borrow(x, 0x200_0000) <= 1 <==> x >= -0x200_0000
    ensures Borrow(-0x200_0001, 0x200_0000) == 2
  {
    hide SAnd;
  }

  /** Limb i borrows from limb i + 1. */
  method BorrowAt(a: array<int>, i: nat) returns (ghost c: int)
    requires a.Length == 10 && i < 9 && -0x800_0000 <= a[i] <= 0x800_0000
    modifies a
    ensures old(a[i]) >= 0 ==> c == 0
    ensures old(a[i]) < 0 ==> c >= 1 && 0 <= a[i] < Base(i)
    ensures a[..] == old(a[..])[i := old(a[i]) + c * Base(i)][i + 1 := old(a[i + 1]) - c]
    ensures Horner(a[..], 0) == old(Horner(a[..], 0))
  {
    hide Horner;
    ghost var s := a[..];
    var carry := Borrow(a[i], if i % 2 == 1 then 0x200_0000 else 0x400_0000);
    a[i] := a[i] + carry * (if i % 2 == 1 then 0x200_0000 else 0x400_0000);
    a[i + 1] := a[i + 1] - carry;
    c := carry;
    NegatedCarry(s[i], c, Base(i));
    assert a[..] == s[i := s[i] - -c * Base(i)][i + 1 := s[i + 1] + -c];
    CarryKeeps(s, a[..], i, -c, 0);
  }

  lemma NegatedCarry(x: int, c: int, b: int)
    ensures x - -c * b == x + c * b
  {
  }

  /** Limb 9 borrows 2^255 from limb 0, which is 19 modulo p. */
  method BorrowTop(a: array<int>) returns (ghost c: int)
    requires a.Length == 10 && -0x800_0000 <= a[9] <= 0x800_0000
    modifies a
    ensures old(a[9]) >= 0 ==> c == 0
    ensures old(a[9]) < 0 ==> c >= 1 && 0 <= a[9] < 0x200_0000
    ensures a[..] == old(a[..])[9 := old(a[9]) + c * 0x200_0000][0 := old(a[0]) - c * 19]
    ensures Cong(Horner(a[..], 0), old(Horner(a[..], 0)))
  {
    hide Horner, Cong, Val;
    ghost var s := a[..];
    var carry := Borrow(a[9], 0x200_0000);
    a[9] := a[9] + carry * 0x200_0000;
    a[0] := a[0] - carry * 19;
    c := carry;
    HornerIsVal(s);
    HornerIsVal(a[..]);
    Wraps(FeOf(s), FeOf(a[..]), c);
  }

  /** Moving c from the top to the bottom changes the value by a multiple of p. */
  lemma Wraps(f: Fe, g: Fe, c: int)
    requires g == f.(l9 := f.l9 + c * 0x200_0000, l0 := f.l0 - c * 19)
    ensures Cong(Val(g), Val(f))
  {
    CongIntro(Val(g), Val(f), c);
  }

  /** Before limb i of a first pass. */
  ghost predicate FirstPass(s: seq<int>, i: nat)
    requires |s| == 10 && i <= 9
  {
    && (forall j :: 0 <= j < i ==> 0 <= s[j] <= 0x3ff_ffff)
    && -0x400_0002 <= s[i] <= 0x3ff_ffff
    && (forall j :: i < j < 10 ==> -0x3ff_ffff <= s[j] <= 0x3ff_ffff)
  }

  /** Before limb i of a second pass: a borrow can only still be under way if limb 0 borrowed. */
  ghost predicate SecondPass(s: seq<int>, i: nat)
    requires |s| == 10 && i <= 9
  {
    && (forall j :: 0 <= j < i ==> 0 <= s[j] <= 0x3ff_ffff)
    && (if i == 0 then -57 <= s[0] <= 0x3ff_ffff
        else -1 <= s[i] <= 0x3ff_ffff && (s[i] == -1 ==> s[0] >= 0x400_0000 - 57))
    && (forall j :: i < j < 10 ==> 0 <= s[j] <= 0x3ff_ffff)
  }

  /** One borrow pass over all limbs. */
  method BorrowPass(a: array<int>)
    requires a.Length == 10 && Rough(a[..])
    modifies a
    ensures Borrowed(a[..])
    ensures Borrowed(old(a[..])) ==> NonNegative(a[..])
    ensures Cong(Horner(a[..], 0), old(Horner(a[..], 0)))
  {
    hide Horner, Cong;
    ghost var was := a[..];
    ghost var c;
    for i := 0 to 9
      invariant FirstPass(a[..], i) && (Borrowed(was) ==> SecondPass(a[..], i))
      invariant Horner(a[..], 0) == Horner(was, 0)
    {
      c := BorrowAt(a, i);
    }
    c := BorrowTop(a);
  }

  // ---- carries -------------------------------------------------------------------------

  /** Limbs 1 to 9 are in range, limb 0 has taken in up to two carries times 19. */
  ghost predicate Nearly(s: seq<int>) {
    |s| == 10 && 0 <= s[0] <= 0x3ff_ffff + 38 && forall j :: 1 <= j < 10 ==> 0 <= s[j] < Base(j)
  }

  /** Every limb is in range. */
  ghost predicate InRange(s: seq<int>) {
    |s| == 10 && forall j :: 0 <= j < 10 ==> 0 <= s[j] < Base(j)
  }

  /** The input of a carry pass. */
  ghost predicate Wide26(s: seq<int>) {
    |s| == 10 && 0 <= s[0] <= 0x3ff_ffff + 38 && forall j :: 1 <= j < 10 ==> 0 <= s[j] <= 0x3ff_ffff
  }

  /** Limb i keeps its low bits and passes the rest on. */
  method CarryAt(a: array<int>, i: nat) returns (ghost c: int)
    requires a.Length == 10 && i < 9 && 0 <= a[i] <= 0x800_0000
    modifies a
    ensures c == old(a[i]) / Base(i) && a[..] == old(a[..])[i := old(a[i]) % Base(i)][i + 1 := old(a[i + 1]) + c]
    ensures Horner(a[..], 0) == old(Horner(a[..], 0))
  {
    hide Horner, And;
    ghost var s := a[..];
    Masks(a[i]);
    if i % 2 == 1 {
      var carry := a[i] / 0x200_0000;
      a[i] := And(a[i], 0x1ff_ffff);
      a[i + 1] := a[i + 1] + carry;
      c := carry;
    } else {
      var carry := a[i] / 0x400_0000;
      a[i] := And(a[i], 0x3ff_ffff);
      a[i + 1] := a[i + 1] + carry;
      c := carry;
    }
    assert a[..] == s[i := s[i] - c * Base(i)][i + 1 := s[i + 1] + c];
    CarryKeeps(s, a[..], i, c, 0);
  }

  lemma Masks(x: nat)
    ensures And(x, 0x1ff_ffff) == x % 0x200_0000 && And(x, 0x3ff_ffff) == x % 0x400_0000
  {
    hide And, Pow2;
    TenBits();
    Pow2Add(16, 9);
    Pow2Add(16, 10);
    AndMask(x, 25);
    AndMask(x, 26);
  }

  method CarryTop(a: array<int>) returns (ghost c: int)
    requires a.Length == 10 && 0 <= a[9] <= 0x800_0000
    modifies a
    ensures c == old(a[9]) / 0x200_0000 && a[..] == old(a[..])[9 := old(a[9]) % 0x200_0000][0 := old(a[0]) + 19 * c]
    ensures Cong(Horner(a[..], 0), old(Horner(a[..], 0)))
  {
    hide Horner, Cong, Val, And;
    ghost var s := a[..];
    Masks(a[9]);
    var carry := a[9] / 0x200_0000;
    a[9] := And(a[9], 0x1ff_ffff);
    a[0] := a[0] + 19 * carry;
    c := carry;
    HornerIsVal(s);
    HornerIsVal(a[..]);
    Wraps(FeOf(s), FeOf(a[..]), -c);
  }

  /** Before limb i of a first carry pass. */
  ghost predicate FirstCarry(s: seq<int>, i: nat)
    requires |s| == 10 && i <= 9
  {
    && (forall j :: 0 <= j < i ==> 0 <= s[j] < Base(j))
    && 0 <= s[i] <= 0x3ff_ffff + (if i == 0 then 38 else if i % 2 == 1 then 1 else 2)
    && (forall j :: i < j < 10 ==> 0 <= s[j] <= 0x3ff_ffff)
  }

  /** Before limb i of a second carry pass: a carry can only still be under way if limb 0 wrapped. */
  ghost predicate SecondCarry(s: seq<int>, i: nat)
    requires |s| == 10 && i <= 9
  {
    && (forall j :: 0 <= j < i ==> 0 <= s[j] < Base(j))
    && (if i == 0 then 0 <= s[0] <= 0x3ff_ffff + 38
        else 0 <= s[i] <= Base(i) && (s[i] == Base(i) ==> s[0] <= 37))
    && (forall j :: i < j < 10 ==> 0 <= s[j] < Base(j))
  }

  /** One carry pass over all limbs. */
  method CarryPass(a: array<int>)
    requires a.Length == 10 && Wide26(a[..])
    modifies a
    ensures Nearly(a[..])
    ensures Nearly(old(a[..])) ==> InRange(a[..])
    ensures Cong(Horner(a[..], 0), old(Horner(a[..], 0)))
  {
    ghost var was := a[..];
    ghost var c;
    StartCarry(was);
    hide Horner, Cong, FirstCarry, SecondCarry, Nearly, InRange;
    for i := 0 to 9
      invariant FirstCarry(a[..], i) && (Nearly(was) ==> SecondCarry(a[..], i))
      invariant Horner(a[..], 0) == Horner(was, 0)
    {
      CarryRange(a[..], i);
      ghost var s := a[..];
      c := CarryAt(a, i);
      FirstStep(s, a[..], i, c);
      if Nearly(was) {
        SecondStep(s, a[..], i, c);
      }
    }
    CarryRange(a[..], 9);
    ghost var s := a[..];
    c := CarryTop(a);
    FirstEnd(s, a[..], c);
    if Nearly(was) {
      SecondEnd(s, a[..], c);
    }
  }

  lemma StartCarry(s: seq<int>)
    requires Wide26(s)
    ensures FirstCarry(s, 0) && (Nearly(s) ==> SecondCarry(s, 0))
  {
  }

  lemma CarryRange(s: seq<int>, i: nat)
    requires |s| == 10 && i <= 9 && FirstCarry(s, i)
    ensures 0 <= s[i] <= 0x800_0000
  {
  }

  lemma FirstStep(s: seq<int>, t: seq<int>, i: nat, c: int)
    requires |s| == 10 && i < 9 && FirstCarry(s, i) && c == s[i] / Base(i)
    requires t == s[i := s[i] % Base(i)][i + 1 := s[i + 1] + c]
    ensures FirstCarry(t, i + 1)
  {
  }

  lemma SecondStep(s: seq<int>, t: seq<int>, i: nat, c: int)
    requires |s| == 10 && i < 9 && SecondCarry(s, i) && c == s[i] / Base(i)
    requires t == s[i := s[i] % Base(i)][i + 1 := s[i + 1] + c]
    ensures SecondCarry(t, i + 1)
  {
  }

  lemma FirstEnd(s: seq<int>, t: seq<int>, c: int)
    requires |s| == 10 && FirstCarry(s, 9) && c == s[9] / 0x200_0000
    requires t == s[9 := s[9] % 0x200_0000][0 := s[0] + 19 * c]
    ensures Nearly(t)
  {
  }

  lemma SecondEnd(s: seq<int>, t: seq<int>, c: int)
    requires |s| == 10 && SecondCarry(s, 9) && c == s[9] / 0x200_0000
    requires t == s[9 := s[9] % 0x200_0000][0 := s[0] + 19 * c]
    ensures InRange(t)
  {
  }

  // ---- the last subtraction ------------------------------------------------------------

  /** The largest value of limb i. */
  function MaxLimb(i: nat): int { if i % 2 == 1 then 0x1ff_ffff else 0x3ff_ffff }

  /** The limbs of a value that is not below p. */
  ghost predicate AtLeastP(s: seq<int>)
    requires |s| == 10
  {
    s[0] >= 0x3ff_ffed && forall j :: 1 <= j < 10 ==> s[j] == MaxLimb(j)
  }

  lemma AtLeastPValue(s: seq<int>)
    requires InRange(s)
    ensures 0 <= Val(FeOf(s)) < TWO255
    ensures AtLeastP(s) <==> Val(FeOf(s)) >= P
  {
    hide Val;
    TopLimbs(FeOf(s));
  }

  lemma TopLimbs(f: Fe)
    requires 0 <= f.l0 <= 0x3ff_ffff && 0 <= f.l1 <= 0x1ff_ffff && 0 <= f.l2 <= 0x3ff_ffff && 0 <= f.l3 <= 0x1ff_ffff
    requires 0 <= f.l4 <= 0x3ff_ffff && 0 <= f.l5 <= 0x1ff_ffff && 0 <= f.l6 <= 0x3ff_ffff && 0 <= f.l7 <= 0x1ff_ffff
    requires 0 <= f.l8 <= 0x3ff_ffff && 0 <= f.l9 <= 0x1ff_ffff
    ensures 0 <= Val(f) < TWO255
    ensures Val(f) >= P <==> (f.l0 >= 0x3ff_ffed && f.l1 == 0x1ff_ffff && f.l2 == 0x3ff_ffff && f.l3 == 0x1ff_ffff
      && f.l4 == 0x3ff_ffff && f.l5 == 0x1ff_ffff && f.l6 == 0x3ff_ffff && f.l7 == 0x1ff_ffff && f.l8 == 0x3ff_ffff
        && f.l9 == 0x1ff_ffff)
  {
  }

  /** The mask is all ones exactly when the value is not below p. */
  method FinalMask(a: array<int>) returns (mask: int)
    requires a.Length == 10 && InRange(a[..])
    ensures mask == if AtLeastP(a[..]) then -1 else 0
  {
    hide SAnd, S32Gte, S32Eq;
    mask := S32Gte(a[0], 0x3ff_ffed);
    for i := 1 to 10
      invariant mask == if a[0] >= 0x3ff_ffed && forall j :: 1 <= j < i ==> a[j] == MaxLimb(j) then -1 else 0
    {
      AndAllOnes(mask);
      AndZero(mask);
      mask := SAnd(mask, S32Eq(a[i], if i % 2 == 1 then 0x1ff_ffff else 0x3ff_ffff));
    }
  }

  /** Subtracts p under the mask. */
  method SubtractP(a: array<int>, mask: int)
    requires a.Length == 10 && InRange(a[..]) && mask == if AtLeastP(a[..]) then -1 else 0
    modifies a
    ensures InRange(a[..]) && Val(FeOf(a[..])) == old(Val(FeOf(a[..]))) % P
  {
    hide SAnd, Val;
    ghost var s := a[..];
    AndAllOnes(0x3ff_ffed);
    AndAllOnes(0x3ff_ffff);
    AndAllOnes(0x1ff_ffff);
    AndZero(0x3ff_ffed);
    AndZero(0x3ff_ffff);
    AndZero(0x1ff_ffff);
    AtLeastPValue(s);
    a[0] := a[0] - SAnd(mask, 0x3ff_ffed);
    for i := 1 to 10
      invariant a[0] == s[0] - (if mask == -1 then 0x3ff_ffed else 0)
      invariant forall j :: 1 <= j < 10 ==> a[j] == s[j] - if j < i && mask == -1 then MaxLimb(j) else 0
    {
      if i % 2 == 1 {
        a[i] := a[i] - SAnd(mask, 0x1ff_ffff);
      } else {
        a[i] := a[i] - SAnd(mask, 0x3ff_ffff);
      }
    }
    Subtracted(s, a[..], mask);
  }

  lemma Subtracted(s: seq<int>, t: seq<int>, mask: int)
    requires InRange(s) && |t| == 10 && mask == if AtLeastP(s) then -1 else 0
    requires t[0] == s[0] - if mask == -1 then 0x3ff_ffed else 0
    requires forall j :: 1 <= j < 10 ==> t[j] == s[j] - if mask == -1 then MaxLimb(j) else 0
    ensures InRange(t) && Val(FeOf(t)) == Val(FeOf(s)) % P
  {
    hide Val;
    AtLeastPValue(s);
    if mask == -1 {
      OnlyLow(FeOf(s), FeOf(t));
    } else {
      assert t == s;
    }
    ModRange(Val(FeOf(s)), Val(FeOf(t)));
  }

  lemma OnlyLow(f: Fe, g: Fe)
    requires f.l1 == 0x1ff_ffff && f.l2 == 0x3ff_ffff && f.l3 == 0x1ff_ffff && f.l4 == 0x3ff_ffff && f.l5 == 0x1ff_ffff
    requires f.l6 == 0x3ff_ffff && f.l7 == 0x1ff_ffff && f.l8 == 0x3ff_ffff && f.l9 == 0x1ff_ffff
    requires g == Fe(f.l0 - 0x3ff_ffed, 0, 0, 0, 0, 0, 0, 0, 0, 0)
    ensures Val(g) == Val(f) - P
  {
  }

  lemma ModRange(v: int, w: int)
    requires 0 <= v < TWO255 && w == if v >= P then v - P else v
    ensures w == v % P
  {
  }

  // ---- writing -------------------------------------------------------------------------

  /** The macro F: four bytes of x from position s on, the first one or-ed in. */
  method Emit(output: array<byte>, x: int, s: nat)
    requires s + 4 <= output.Length && I32(x)
    modifies output
    ensures output[..] == old(output[..])[s := Or(old(output[s]), x % 0x100) % 0x100][s + 1 := x / 0x100 % 0x100]
      [s + 2 := x / 0x1_0000 % 0x100][s + 3 := x / 0x100_0000 % 0x100]
  {
    output[s] := Or(output[s], x % 0x100) % 0x100;
    output[s + 1] := x / 0x100 % 0x100;
    output[s + 2] := x / 0x1_0000 % 0x100;
    output[s + 3] := x / 0x100_0000 % 0x100;
  }

  /** A limb h of weight 2^(8 s + shift) lands above the bytes written so far. The shifted limb may take
    * the sign bit of its 32-bit word; the bytes are the same. */
  method EmitLimb(output: array<byte>, h: int, s: nat, shift: nat, ghost v: nat)
    requires s + 4 <= output.Length && 0 <= h && shift <= 6 && h * Pow2(shift) < 0x1_0000_0000
    requires LE(output[..s + 1]) == v < Pow2(8 * s + shift)
    modifies output
    ensures LE(output[..s + 4]) == v + Pow2(8 * s + shift) * h
    ensures forall j :: s + 4 <= j < output.Length ==> output[j] == old(output[j])
  {
    hide LE, Pow2, Or, S32;
    ghost var was := output[..s + 1];
    NonNegativeProduct(h, Pow2(shift));
    S32Bytes(h * Pow2(shift));
    Emit(output, S32(h * Pow2(shift)), s);
    assert was[..s] == output[..s] && was[s] == old(output[s]);
    EmittedValue(was, output[..s + 4], h, s, shift);
  }

  lemma EmittedValue(was: seq<byte>, now: seq<byte>, h: nat, s: nat, shift: nat)
    requires |was| == s + 1 && |now| == s + 4 && now[..s] == was[..s] && shift <= 6
    requires LE(was) < Pow2(8 * s + shift)
    requires var x := h * Pow2(shift);
      && 0 <= x < 0x1_0000_0000 && now[s] == Or(was[s], x % 0x100) % 0x100
      && now[s + 1] == x / 0x100 % 0x100 && now[s + 2] == x / 0x1_0000 % 0x100 && now[s + 3] == x / 0x100_0000 % 0x100
    ensures LE(now) == LE(was) + Pow2(8 * s + shift) * h
  {
    hide LE, Pow2, Or;
    var x := h * Pow2(shift);
    var last: int := was[s];
    SplitLast(was, s);
    Pow2Add(8 * s, shift);
    TopBelow(LE(was[..s]), last, Pow2(8 * s), Pow2(shift), Pow2(8 * s + shift), s, shift);
    ShiftedLow(h, shift, last);
    assert now == now[..s] + now[s..];
    LEJoin(now[..s], now[s..]);
    FourBytes(now[s..], last, x);
    EmitTotal(Pow2(8 * s), Pow2(shift), h, last);
  }

  lemma SplitLast(was: seq<byte>, s: nat)
    requires |was| == s + 1
    ensures LE(was) == LE(was[..s]) + Pow2(8 * s) * was[s] as int
  {
    hide LE, Pow2;
    assert was == was[..s] + [was[s]];
    LEJoin(was[..s], [was[s]]);
    OneByte(was[s]);
  }

  lemma OneByte(b: byte)
    ensures LE([b]) == b as int
  {
  }

  lemma TopBelow(low: nat, last: nat, w: nat, m: nat, wm: nat, s: nat, shift: nat)
    requires w > 0 && wm == w * m && low + w * last < wm
    ensures last < m
  {
    assert last >= m ==> w * last >= w * m;
  }

  /** The low byte of a shifted limb does not meet the bits already there. */
  lemma ShiftedLow(h: nat, shift: nat, last: nat)
    requires shift <= 6 && last < Pow2(shift)
    ensures h * Pow2(shift) >= 0 && Or(last, h * Pow2(shift) % 0x100) % 0x100 == last + h * Pow2(shift) % 0x100
  {
    hide Or, Pow2;
    var m, k := Pow2(shift), Pow2(8 - shift);
    Pow2Add(shift, 8 - shift);
    assert Pow2(8) == 0x100 by { Pow2Small(); }
    NonNegativeProduct(h, m);
    ModScale(0, h, m, k, 0x100);
    assert h * m % 0x100 == m * (h % k) by { assert 0 + m * h == h * m; }
    OrDisjoint(last, h % k, shift);
    assert h % k * m == m * (h % k);
    LowRange(last, h % k, m, k);
  }

  lemma LowRange(last: nat, y: nat, m: nat, k: nat)
    requires last < m && y < k && m * k == 0x100
    ensures last + m * y < 0x100
  {
    assert m * y <= m * (k - 1);
  }

  lemma FourBytes(t: seq<byte>, last: nat, x: nat)
    requires |t| == 4 && x < 0x1_0000_0000 && t[0] == last + x % 0x100
    requires t[1] == x / 0x100 % 0x100 && t[2] == x / 0x1_0000 % 0x100 && t[3] == x / 0x100_0000 % 0x100
    ensures LE(t) == last + x
  {
    hide LE;
    LE4(t);
    EmptyLE();
    Digits(x);
    TopByte(x);
  }

  lemma TopByte(x: nat)
    requires x < 0x1_0000_0000
    ensures x / 0x100_0000 % 0x100 == x / 0x100_0000
  {
  }

  lemma EmitTotal(w: int, m: int, h: int, last: int)
    ensures w * (last + h * m) == w * last + w * m * h
  {
  }

  /** The value of the limbs before i. */
  ghost function Partial(s: seq<int>, i: nat): int
    requires i <= |s|
  {
    if i == 0 then 0 else Partial(s, i - 1) + Pow2(Offset(i - 1)) * s[i - 1]
  }

  lemma {:induction false} PartialRange(s: seq<int>, i: nat)
    requires InRange(s) && i <= 10
    ensures 0 <= Partial(s, i) < Pow2(Offset(i))
  {
    hide Pow2, Offset;
    if i == 0 {
      assert Pow2(Offset(0)) > 0;
    } else {
      PartialRange(s, i - 1);
      OffsetNext(i - 1);
      NextPartial(Partial(s, i - 1), Pow2(Offset(i - 1)), s[i - 1], Base(i - 1));
    }
  }

  lemma NextPartial(v: int, w: int, h: int, b: int)
    requires 0 <= v < w && 0 <= h < b
    ensures 0 <= v + w * h < w * b
  {
    assert w * h <= w * (b - 1) && 0 <= w * h;
  }

  lemma {:induction false} PartialHorner(s: seq<int>, i: nat)
    requires |s| == 10 && i <= 10
    ensures Horner(s, 0) == Partial(s, i) + Pow2(Offset(i)) * Horner(s, i)
  {
    hide Pow2, Offset, Base;
    if i == 0 {
      assert Pow2(Offset(0)) == 1 by { FirstOffset(); }
    } else {
      PartialHorner(s, i - 1);
      OffsetNext(i - 1);
      Head(s, i - 1);
      PartialStep(Pow2(Offset(i - 1)), s[i - 1], Base(i - 1), Horner(s, i));
    }
  }

  lemma FirstOffset()
    ensures Pow2(Offset(0)) == 1
  {
  }

  lemma PartialStep(w: int, h: int, b: int, t: int)
    ensures w * (h + b * t) == w * h + w * b * t
  {
  }

  /** Emits limb i, whose bits start at 8 at + shift. */
  method WriteLimb(output: array<byte>, a: seq<int>, i: nat, at: nat, shift: nat)
    requires output.Length == 32 && InRange(a) && i < 10 && at + 4 <= 32 && shift <= 6 && 8 * at + shift == Offset(i)
    requires LE(output[..at + 1]) == Partial(a, i)
    modifies output
    ensures LE(output[..at + 4]) == Partial(a, i + 1)
    ensures forall j :: at + 4 <= j < 32 ==> output[j] == old(output[j])
  {
    hide LE, Pow2, Offset;
    PartialRange(a, i);
    ShiftedLimb(a[i], shift);
    EmitLimb(output, a[i], at, shift, Partial(a, i));
  }

  lemma ShiftedLimb(h: nat, shift: nat)
    requires h < 0x400_0000 && shift <= 6
    ensures 0 <= h * Pow2(shift) < 0x1_0000_0000
  {
    hide Pow2;
    Pow2Small();
    Pow2Monotone(shift, 6);
    NonNegativeProduct(h, Pow2(shift));
    ShiftRange(h, Pow2(shift));
  }

  lemma ShiftRange(h: nat, m: nat)
    requires h < 0x400_0000 && m <= 64
    ensures h * m < 0x1_0000_0000
  {
    assert h * m <= h * 64;
  }

  /** The ten uses of F. */
  method WriteLimbs(output: array<byte>, a: seq<int>)
    requires output.Length == 32 && InRange(a)
    modifies output
    ensures LE(output[..]) == Horner(a, 0)
  {
    hide LE, Horner, InRange;
    output[0] := 0;
    output[16] := 0;
    ZeroStart(output[..1]);
    WriteLimb(output, a, 0, 0, 0);
    WriteLimb(output, a, 1, 3, 2);
    WriteLimb(output, a, 2, 6, 3);
    WriteLimb(output, a, 3, 9, 5);
    WriteLimb(output, a, 4, 12, 6);
    ZeroNext(output[..16], output[..17]);
    WriteLimb(output, a, 5, 16, 0);
    WriteLimb(output, a, 6, 19, 1);
    WriteLimb(output, a, 7, 22, 3);
    WriteLimb(output, a, 8, 25, 4);
    WriteLimb(output, a, 9, 28, 6);
    assert output[..32] == output[..];
    AllWritten(a);
  }

  lemma ZeroStart(s: seq<byte>)
    requires |s| == 1 && s[0] == 0
    ensures LE(s) == 0
  {
  }

  lemma ZeroNext(s: seq<byte>, t: seq<byte>)
    requires |t| == |s| + 1 && t[..|s|] == s && t[|s|] == 0
    ensures LE(t) == LE(s)
  {
    hide LE, Pow2;
    assert t == s + [0];
    LEJoin(s, [0]);
    OneByte(0);
  }

  lemma AllWritten(a: seq<int>)
    requires InRange(a)
    ensures Partial(a, 10) == Horner(a, 0)
  {
    hide Pow2, Offset;
    PartialHorner(a, 10);
    assert Horner(a, 10) == 0;
  }

  // ---- fcontract -----------------------------------------------------------------------

  /** Writes the canonical bytes of the limbs' value modulo p. */
  method FContract(output: array<byte>, inputLimbs: Fe)
    requires output.Length == 32 && Reduced(inputLimbs)
    modifies output
    ensures LE(output[..]) == Val(inputLimbs) % P
  {
    hide LE, Horner, Val, Cong;
    var input := new int[10][inputLimbs.l0, inputLimbs.l1, inputLimbs.l2, inputLimbs.l3, inputLimbs.l4,
                             inputLimbs.l5, inputLimbs.l6, inputLimbs.l7, inputLimbs.l8, inputLimbs.l9];
    ghost var v := Horner(input[..], 0);
    assert FeOf(input[..]) == inputLimbs;
    HornerIsVal(input[..]);
    Contract(input);
    HornerIsVal(input[..]);
    ghost var w := Horner(input[..], 0);
    var mask := FinalMask(input);
    SubtractP(input, mask);
    HornerIsVal(input[..]);
    WriteLimbs(output, input[..]);
    CongSame(w, v);
  }

  /** fcontract after fexpand reduces the low 255 bits modulo p. */
  method ExpandThenContract(output: array<byte>, s: seq<byte>)
    requires output.Length == 32 && |s| == 32
    modifies output
    ensures LE(output[..]) == LE(s) % TWO255 % P
    ensures output[..] == s <==> LE(s) < P
  {
    hide Val, LE;
    var f := FExpand(s);
    FContract(output, f);
    LEBound(s);
    if LE(output[..]) == LE(s) {
      LEInjective(s, output[..]);
    }
  }

  /** Two borrow passes, one more borrow, two carry passes: every limb in range. */
  method Contract(input: array<int>)
    requires input.Length == 10 && Rough(input[..])
    modifies input
    ensures InRange(input[..]) && Cong(Horner(input[..], 0), old(Horner(input[..], 0)))
  {
    hide Horner, Cong;
    ghost var v := Horner(input[..], 0);
    BorrowPass(input);
    ghost var v1 := Horner(input[..], 0);
    BorrowPass(input);
    ghost var v2 := Horner(input[..], 0);
    CongTrans(v2, v1, v);
    ghost var c := BorrowAt(input, 0);
    CarryPass(input);
    ghost var v3 := Horner(input[..], 0);
    CongTrans(v3, v2, v);
    CarryPass(input);
    CongTrans(Horner(input[..], 0), v3, v);
  }
}
