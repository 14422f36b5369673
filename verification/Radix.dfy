/** The radix-2^25.5 representation that fe.c and curve25519-donna.c share: ten signed limbs
  * of 26, 25, 26, 25, ... bits, and the schoolbook product of two such vectors. */
module Radix {
  import opened Modular

  datatype Fe = Fe(l0: int, l1: int, l2: int, l3: int, l4: int, l5: int, l6: int, l7: int, l8: int, l9: int)

  /** The integer that ten limbs stand for. */
  function Val(f: Fe): int {
    f.l0 + 0x4000000 * f.l1
    + 0x8000000000000 * f.l2
    + 0x20000000000000000000 * f.l3
    + 0x40000000000000000000000000 * f.l4
    + 0x100000000000000000000000000000000 * f.l5
    + 0x200000000000000000000000000000000000000 * f.l6
    + 0x800000000000000000000000000000000000000000000 * f.l7
    + 0x1000000000000000000000000000000000000000000000000000 * f.l8
    + 0x4000000000000000000000000000000000000000000000000000000000 * f.l9
  }

  /** Even limbs are at most `even` in magnitude, odd limbs at most `odd`. */
  ghost predicate Within(f: Fe, even: int, odd: int) {
    && -even <= f.l0 <= even && -odd <= f.l1 <= odd
    && -even <= f.l2 <= even && -odd <= f.l3 <= odd
    && -even <= f.l4 <= even && -odd <= f.l5 <= odd
    && -even <= f.l6 <= even && -odd <= f.l7 <= odd
    && -even <= f.l8 <= even && -odd <= f.l9 <= odd
  }

  const ZERO := Fe(0, 0, 0, 0, 0, 0, 0, 0, 0, 0)
  const ONE := Fe(1, 0, 0, 0, 0, 0, 0, 0, 0, 0)

  lemma ZeroValue()
    ensures Val(ZERO) == 0 && Within(ZERO, 0, 0)
  {
    hide Val;
    LimbsOf(ZERO, 0);
  }

  lemma OneValue()
    ensures Val(ONE) == 1 && Within(ONE, 1, 0)
  {
    hide Val;
    LimbsOf(ONE, 1);
  }

  lemma LimbsOf(f: Fe, n: nat)
    requires f == Fe(n, 0, 0, 0, 0, 0, 0, 0, 0, 0)
    ensures Val(f) == n
  {
  }

  /** The nineteen columns of a schoolbook product; columns 10 to 18 count multiples of 2^255. */
  datatype Wide = Wide(c0: int, c1: int, c2: int, c3: int, c4: int, c5: int, c6: int, c7: int, c8: int, c9: int,
    c10: int, c11: int, c12: int, c13: int, c14: int, c15: int, c16: int, c17: int, c18: int)

  function WideVal(w: Wide): int {
    Val(Fe(w.c0, w.c1, w.c2, w.c3, w.c4, w.c5, w.c6, w.c7, w.c8, w.c9))
    + 0x8000_0000_0000_0000_0000_0000_0000_0000_0000_0000_0000_0000_0000_0000_0000_0000
      * Val(Fe(w.c10, w.c11, w.c12, w.c13, w.c14, w.c15, w.c16, w.c17, w.c18, 0))
  }

  /** Column i + j collects limb i times limb j, doubled when both positions are odd, because
    * there the two half-bit offsets add up. */
  function Column0(f: Fe, g: Fe): int {
    (f.l0 * g.l0)
  }

  function Column1(f: Fe, g: Fe): int {
    (f.l0 * g.l1) + (f.l1 * g.l0)
  }

  function Column2(f: Fe, g: Fe): int {
    (f.l0 * g.l2) + 2 * (f.l1 * g.l1) + (f.l2 * g.l0)
  }

  function Column3(f: Fe, g: Fe): int {
    (f.l0 * g.l3) + (f.l1 * g.l2) + (f.l2 * g.l1) + (f.l3 * g.l0)
  }

  function Column4(f: Fe, g: Fe): int {
    (f.l0 * g.l4) + 2 * (f.l1 * g.l3) + (f.l2 * g.l2) + 2 * (f.l3 * g.l1)
      + (f.l4 * g.l0)
  }

  function Column5(f: Fe, g: Fe): int {
    (f.l0 * g.l5) + (f.l1 * g.l4) + (f.l2 * g.l3) + (f.l3 * g.l2) + (f.l4 * g.l1)
      + (f.l5 * g.l0)
  }

  function Column6(f: Fe, g: Fe): int {
    (f.l0 * g.l6) + 2 * (f.l1 * g.l5) + (f.l2 * g.l4) + 2 * (f.l3 * g.l3)
      + (f.l4 * g.l2) + 2 * (f.l5 * g.l1) + (f.l6 * g.l0)
  }

  function Column7(f: Fe, g: Fe): int {
    (f.l0 * g.l7) + (f.l1 * g.l6) + (f.l2 * g.l5) + (f.l3 * g.l4) + (f.l4 * g.l3)
      + (f.l5 * g.l2) + (f.l6 * g.l1) + (f.l7 * g.l0)
  }

  function Column8(f: Fe, g: Fe): int {
    (f.l0 * g.l8) + 2 * (f.l1 * g.l7) + (f.l2 * g.l6) + 2 * (f.l3 * g.l5)
      + (f.l4 * g.l4) + 2 * (f.l5 * g.l3) + (f.l6 * g.l2) + 2 * (f.l7 * g.l1) + (f.l8 * g.l0)
  }

  function Column9(f: Fe, g: Fe): int {
    (f.l0 * g.l9) + (f.l1 * g.l8) + (f.l2 * g.l7) + (f.l3 * g.l6) + (f.l4 * g.l5)
      + (f.l5 * g.l4) + (f.l6 * g.l3) + (f.l7 * g.l2) + (f.l8 * g.l1) + (f.l9 * g.l0)
  }

  function Column10(f: Fe, g: Fe): int {
    2 * (f.l1 * g.l9) + (f.l2 * g.l8) + 2 * (f.l3 * g.l7) + (f.l4 * g.l6)
      + 2 * (f.l5 * g.l5) + (f.l6 * g.l4) + 2 * (f.l7 * g.l3) + (f.l8 * g.l2) + 2 * (f.l9 * g.l1)
  }

  function Column11(f: Fe, g: Fe): int {
    (f.l2 * g.l9) + (f.l3 * g.l8) + (f.l4 * g.l7) + (f.l5 * g.l6) + (f.l6 * g.l5)
      + (f.l7 * g.l4) + (f.l8 * g.l3) + (f.l9 * g.l2)
  }

  function Column12(f: Fe, g: Fe): int {
    2 * (f.l3 * g.l9) + (f.l4 * g.l8) + 2 * (f.l5 * g.l7) + (f.l6 * g.l6)
      + 2 * (f.l7 * g.l5) + (f.l8 * g.l4) + 2 * (f.l9 * g.l3)
  }

  function Column13(f: Fe, g: Fe): int {
    (f.l4 * g.l9) + (f.l5 * g.l8) + (f.l6 * g.l7) + (f.l7 * g.l6) + (f.l8 * g.l5)
      + (f.l9 * g.l4)
  }

  function Column14(f: Fe, g: Fe): int {
    2 * (f.l5 * g.l9) + (f.l6 * g.l8) + 2 * (f.l7 * g.l7) + (f.l8 * g.l6)
      + 2 * (f.l9 * g.l5)
  }

  function Column15(f: Fe, g: Fe): int {
    (f.l6 * g.l9) + (f.l7 * g.l8) + (f.l8 * g.l7) + (f.l9 * g.l6)
  }

  function Column16(f: Fe, g: Fe): int {
    2 * (f.l7 * g.l9) + (f.l8 * g.l8) + 2 * (f.l9 * g.l7)
  }

  function Column17(f: Fe, g: Fe): int {
    (f.l8 * g.l9) + (f.l9 * g.l8)
  }

  function Column18(f: Fe, g: Fe): int {
    2 * (f.l9 * g.l9)
  }

  function Product(f: Fe, g: Fe): Wide {
    Wide(Column0(f, g), Column1(f, g), Column2(f, g), Column3(f, g), Column4(f, g), Column5(f, g), Column6(f, g),
      Column7(f, g), Column8(f, g), Column9(f, g), Column10(f, g), Column11(f, g), Column12(f, g), Column13(f, g),
      Column14(f, g), Column15(f, g), Column16(f, g), Column17(f, g), Column18(f, g))
  }

  /** The products of one limb with all limbs of g. */
  function Row(x: int, g: Fe): Fe {
    Fe(x * g.l0, x * g.l1, x * g.l2, x * g.l3, x * g.l4, x * g.l5, x * g.l6, x * g.l7, x * g.l8, x * g.l9)
  }

  lemma RowValue(x: int, g: Fe)
    ensures Val(Row(x, g)) == x * Val(g)
  {
    SumTimes(g, x);
  }

  /** Five rows spread over the columns, products of two odd limbs twice. */
  function Spread(r0: Fe, r1: Fe, r2: Fe, r3: Fe, r4: Fe): (w: Wide)
    ensures WideVal(w) == Val(r0)
      + 0x4000000 * Val(r1)
      + 0x8000000000000 * Val(r2)
      + 0x20000000000000000000 * Val(r3)
      + 0x40000000000000000000000000 * Val(r4)
  {
    Wide(
      r0.l0, r0.l1 + r1.l0, r0.l2 + 2 * r1.l1 + r2.l0, r0.l3 + r1.l2 + r2.l1 + r3.l0,
      r0.l4 + 2 * r1.l3 + r2.l2 + 2 * r3.l1 + r4.l0, r0.l5 + r1.l4 + r2.l3 + r3.l2 + r4.l1,
      r0.l6 + 2 * r1.l5 + r2.l4 + 2 * r3.l3 + r4.l2, r0.l7 + r1.l6 + r2.l5 + r3.l4 + r4.l3,
      r0.l8 + 2 * r1.l7 + r2.l6 + 2 * r3.l5 + r4.l4, r0.l9 + r1.l8 + r2.l7 + r3.l6 + r4.l5,
      2 * r1.l9 + r2.l8 + 2 * r3.l7 + r4.l6, r2.l9 + r3.l8 + r4.l7, 2 * r3.l9 + r4.l8, r4.l9, 0, 0, 0, 0, 0)
  }

  /** The other five rows. */
  function SpreadHigh(r5: Fe, r6: Fe, r7: Fe, r8: Fe, r9: Fe): (w: Wide)
    ensures WideVal(w) == 0x100000000000000000000000000000000 * Val(r5)
      + 0x200000000000000000000000000000000000000 * Val(r6)
      + 0x800000000000000000000000000000000000000000000 * Val(r7)
      + 0x1000000000000000000000000000000000000000000000000000 * Val(r8)
      + 0x4000000000000000000000000000000000000000000000000000000000 * Val(r9)
  {
    Wide(
      0, 0, 0, 0, 0, r5.l0, 2 * r5.l1 + r6.l0, r5.l2 + r6.l1 + r7.l0, 2 * r5.l3 + r6.l2 + 2 * r7.l1 + r8.l0,
      r5.l4 + r6.l3 + r7.l2 + r8.l1 + r9.l0, 2 * r5.l5 + r6.l4 + 2 * r7.l3 + r8.l2 + 2 * r9.l1,
      r5.l6 + r6.l5 + r7.l4 + r8.l3 + r9.l2, 2 * r5.l7 + r6.l6 + 2 * r7.l5 + r8.l4 + 2 * r9.l3,
      r5.l8 + r6.l7 + r7.l6 + r8.l5 + r9.l4, 2 * r5.l9 + r6.l8 + 2 * r7.l7 + r8.l6 + 2 * r9.l5,
      r6.l9 + r7.l8 + r8.l7 + r9.l6, 2 * r7.l9 + r8.l8 + 2 * r9.l7, r8.l9 + r9.l8, 2 * r9.l9)
  }

  function LowRows(f: Fe, g: Fe): Wide {
    Spread(Row(f.l0, g), Row(f.l1, g), Row(f.l2, g), Row(f.l3, g), Row(f.l4, g))
  }

  function HighRows(f: Fe, g: Fe): Wide {
    SpreadHigh(Row(f.l5, g), Row(f.l6, g), Row(f.l7, g), Row(f.l8, g), Row(f.l9, g))
  }

  lemma RowsAreColumns(f: Fe, g: Fe)
    ensures var l, h, p := LowRows(f, g), HighRows(f, g), Product(f, g);
      SumOf(l, h, p)
  {
  }

  lemma SumTimes(f: Fe, v: int)
    ensures Val(f) * v == 0x1 * (f.l0 * v) + 0x4000000 * (f.l1 * v) + 0x8000000000000 * (f.l2 * v)
      + 0x20000000000000000000 * (f.l3 * v) + 0x40000000000000000000000000 * (f.l4 * v)
      + 0x100000000000000000000000000000000 * (f.l5 * v) + 0x200000000000000000000000000000000000000 * (f.l6 * v)
      + 0x800000000000000000000000000000000000000000000 * (f.l7 * v)
      + 0x1000000000000000000000000000000000000000000000000000 * (f.l8 * v)
      + 0x4000000000000000000000000000000000000000000000000000000000 * (f.l9 * v)
  {
  }

  /** s is the sum of l and h, column by column. */
  ghost predicate SumOf(l: Wide, h: Wide, s: Wide) {
    && s.c0 == l.c0 + h.c0 && s.c1 == l.c1 + h.c1 && s.c2 == l.c2 + h.c2 && s.c3 == l.c3 + h.c3
    && s.c4 == l.c4 + h.c4 && s.c5 == l.c5 + h.c5 && s.c6 == l.c6 + h.c6 && s.c7 == l.c7 + h.c7
    && s.c8 == l.c8 + h.c8 && s.c9 == l.c9 + h.c9 && s.c10 == l.c10 + h.c10 && s.c11 == l.c11 + h.c11
    && s.c12 == l.c12 + h.c12 && s.c13 == l.c13 + h.c13 && s.c14 == l.c14 + h.c14 && s.c15 == l.c15 + h.c15
    && s.c16 == l.c16 + h.c16 && s.c17 == l.c17 + h.c17 && s.c18 == l.c18 + h.c18
  }

  lemma WideSum(l: Wide, h: Wide, s: Wide)
    requires SumOf(l, h, s)
    ensures WideVal(s) == WideVal(l) + WideVal(h)
  {
  }

  /** The columns hold the product. */
  lemma ProductValue(f: Fe, g: Fe)
    ensures WideVal(Product(f, g)) == Val(f) * Val(g)
  {
    hide Val, WideVal, Row, Spread, SpreadHigh, Product, SumOf;
    RowsAreColumns(f, g);
    WideSum(LowRows(f, g), HighRows(f, g), Product(f, g));
    RowValue(f.l0, g);
    RowValue(f.l1, g);
    RowValue(f.l2, g);
    RowValue(f.l3, g);
    RowValue(f.l4, g);
    RowValue(f.l5, g);
    RowValue(f.l6, g);
    RowValue(f.l7, g);
    RowValue(f.l8, g);
    RowValue(f.l9, g);
    SumTimes(f, Val(g));
  }

  /** Columns 10 to 18 fold onto columns 0 to 8 times 19, because 2^255 is 19 modulo p. */
  lemma FoldValue(w: Wide, r: Fe)
    requires r.l0 == w.c0 + 19 * w.c10
    requires r.l1 == w.c1 + 19 * w.c11
    requires r.l2 == w.c2 + 19 * w.c12
    requires r.l3 == w.c3 + 19 * w.c13
    requires r.l4 == w.c4 + 19 * w.c14
    requires r.l5 == w.c5 + 19 * w.c15
    requires r.l6 == w.c6 + 19 * w.c16
    requires r.l7 == w.c7 + 19 * w.c17
    requires r.l8 == w.c8 + 19 * w.c18
    requires r.l9 == w.c9
    ensures Cong(Val(r), WideVal(w))
  {
    CongIntro(Val(r), WideVal(w), -Val(Fe(w.c10, w.c11, w.c12, w.c13, w.c14, w.c15, w.c16, w.c17, w.c18, 0)));
  }

  lemma FoldedProduct(f: Fe, g: Fe, r: Fe)
    requires r.l0 == Column0(f, g) + 19 * Column10(f, g)
    requires r.l1 == Column1(f, g) + 19 * Column11(f, g)
    requires r.l2 == Column2(f, g) + 19 * Column12(f, g)
    requires r.l3 == Column3(f, g) + 19 * Column13(f, g)
    requires r.l4 == Column4(f, g) + 19 * Column14(f, g)
    requires r.l5 == Column5(f, g) + 19 * Column15(f, g)
    requires r.l6 == Column6(f, g) + 19 * Column16(f, g)
    requires r.l7 == Column7(f, g) + 19 * Column17(f, g)
    requires r.l8 == Column8(f, g) + 19 * Column18(f, g)
    requires r.l9 == Column9(f, g)
    ensures Cong(Val(r), Val(f) * Val(g))
  {
    hide Val, WideVal, Cong, Column0, Column1, Column2, Column3, Column4, Column5, Column6, Column7, Column8, Column9,
      Column10, Column11, Column12, Column13, Column14, Column15, Column16, Column17, Column18;
    FoldValue(Product(f, g), r);
    ProductValue(f, g);
  }
}
