/** Limb arrays in radix 2^25.5 (curve25519-donna.c): their value, and what carries do to it. */
module Limbs25 {
  import opened Modular
  import opened Radix

  /** Limbs are 26 and 25 bits wide by turns. */
  function Base(i: nat): int { if i % 2 == 0 then 0x400_0000 else 0x200_0000 }

  /** The value of the limbs from i on, in Horner form. */
  function Horner(s: seq<int>, i: nat): int
    requires i <= |s|
    decreases |s| - i
  {
    if i == |s| then 0 else s[i] + Base(i) * Horner(s, i + 1)
  }

  lemma Head(s: seq<int>, i: nat)
    requires i < |s|
    ensures Horner(s, i) == s[i] + Base(i) * Horner(s, i + 1)
  {
  }

  lemma {:induction false} HornerSame(s: seq<int>, t: seq<int>, i: nat)
    requires i <= |s| == |t| && forall j :: i <= j < |s| ==> s[j] == t[j]
    ensures Horner(s, i) == Horner(t, i)
    decreases |s| - i
  {
    if i == |s| {
    } else {
      HornerSame(s, t, i + 1);
    }
  }

  /** A carry of c out of limb i keeps the value. */
  lemma {:induction false} CarryKeeps(s: seq<int>, t: seq<int>, i: nat, c: int, j: nat)
    requires j <= i && i + 1 < |s| && t == s[i := s[i] - c * Base(i)][i + 1 := s[i + 1] + c]
    ensures Horner(t, j) == Horner(s, j)
    decreases i - j
  {
    if j == i {
      HornerSame(s, t, i + 2);
      hide Base;
      CarryMoves(s[i], s[i + 1], c, Base(i), Base(i + 1) * Horner(s, i + 2));
    } else {
      CarryKeeps(s, t, i, c, j + 1);
    }
  }

  lemma CarryMoves(x: int, y: int, c: int, b: int, t: int)
    ensures x - c * b + b * (y + c + t) == x + b * (y + t)
  {
  }

  function FeOf(s: seq<int>): Fe
    requires |s| >= 10
  {
    Fe(s[0], s[1], s[2], s[3], s[4], s[5], s[6], s[7], s[8], s[9])
  }

  /** The Horner form of ten limbs is the value used in fe.c. */
  lemma HornerIsVal(s: seq<int>)
    requires |s| == 10
    ensures Horner(s, 0) == Val(FeOf(s))
  {
    assert Horner(s, 10) == 0;
    Head(s, 9);
    Head(s, 8);
    Head(s, 7);
    Head(s, 6);
    Head(s, 5);
    Head(s, 4);
    Head(s, 3);
    Head(s, 2);
    Head(s, 1);
    Head(s, 0);
    hide Horner, Val;
    Unfolded(s, Horner(s, 1), Horner(s, 2), Horner(s, 3), Horner(s, 4), Horner(s, 5), Horner(s, 6), Horner(s, 7),
      Horner(s, 8), Horner(s, 9));
  }

  lemma Unfolded(s: seq<int>, t1: int, t2: int, t3: int, t4: int, t5: int, t6: int, t7: int, t8: int, t9: int)
    requires |s| == 10 && t9 == s[9] && t8 == s[8] + 0x400_0000 * t9 && t7 == s[7] + 0x200_0000 * t8
    requires t6 == s[6] + 0x400_0000 * t7 && t5 == s[5] + 0x200_0000 * t6 && t4 == s[4] + 0x400_0000 * t5
    requires t3 == s[3] + 0x200_0000 * t4 && t2 == s[2] + 0x400_0000 * t3 && t1 == s[1] + 0x200_0000 * t2
    ensures s[0] + 0x400_0000 * t1 == Val(FeOf(s))
  {
  }

  /** An eleventh limb weighs 2^255. */
  lemma {:induction false} HornerEleven(s: seq<int>, i: nat)
    requires |s| == 11 && i <= 10
    ensures Horner(s, i) == Horner(s[..10], i) + TopWeight(i) * s[10]
    decreases 10 - i
  {
    if i == 10 {
      assert Horner(s, 11) == 0;
    } else {
      HornerEleven(s, i + 1);
      hide Base;
      WeightStep(Base(i), s[i], Horner(s[..10], i + 1), TopWeight(i + 1), s[10]);
    }
  }

  /** The weight of limb 10, seen from limb i. */
  function TopWeight(i: nat): int
    requires i <= 10
    decreases 10 - i
  {
    if i == 10 then 1 else Base(i) * TopWeight(i + 1)
  }

  lemma WeightStep(b: int, x: int, h: int, w: int, top: int)
    ensures x + b * (h + w * top) == x + b * h + b * w * top
  {
  }

  lemma WeightIs2To255()
    ensures TopWeight(0) == P + 19
  {
    assert TopWeight(10) == 1 && TopWeight(9) == 0x200_0000 && TopWeight(8) == 0x8_0000_0000_0000;
    assert TopWeight(6) == TopWeight(8) * 0x8_0000_0000_0000;
    assert TopWeight(4) == TopWeight(6) * 0x8_0000_0000_0000;
    assert TopWeight(2) == TopWeight(4) * 0x8_0000_0000_0000;
    assert TopWeight(0) == TopWeight(2) * 0x8_0000_0000_0000;
  }
}
