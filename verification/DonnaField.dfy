/** Field arithmetic of curve25519-donna.c: products without pre-scaling, then a reduction of the
  * degree and of the coefficients in a 19-limb array. */
module DonnaField {
  import opened Words
  import opened Modular
  import opened Radix
  import opened Limbs25

  /** Limbs below 2^27 in magnitude, the input range of every product. */
  ghost predicate Short(f: Fe) { Within(f, 0x7ff_ffff, 0x7ff_ffff) }

  /** Limbs below 2^26 in magnitude, the output range. */
  ghost predicate Reduced(f: Fe) { Within(f, 0x3ff_ffff, 0x3ff_ffff) }

  /** The largest product of two limbs. */
  const TERM := 0x40_0000_0000_0000

  /** The 64-bit product of two 32-bit limbs. */
  function Term(x: int, y: int): (r: int)
    requires -0x7ff_ffff <= x <= 0x7ff_ffff && -0x7ff_ffff <= y <= 0x7ff_ffff
    ensures r == x * y && -TERM <= r <= TERM
  {
    TermBound(x, y, 0x7ff_ffff);
    x * y
  }

  lemma TermBound(x: int, y: int, m: nat)
    requires -(m as int) <= x <= m && -(m as int) <= y <= m
    ensures -(m * m) <= x * y <= m * m
  {
    assert (m - x) * (m + y) >= 0 && (m + x) * (m - y) >= 0;
    assert (m - x) * (m - y) >= 0 && (m + x) * (m + y) >= 0;
  }

  // ---- products ------------------------------------------------------------------------

  // The nineteen columns of fproduct; at most fourteen products meet in one.

  function Product0(f: Fe, g: Fe): (r: int)
    requires Short(f) && Short(g)
    ensures r == Column0(f, g) && -14 * TERM <= r <= 14 * TERM
  {
    Term(f.l0, g.l0)
  }

  function Product1(f: Fe, g: Fe): (r: int)
    requires Short(f) && Short(g)
    ensures r == Column1(f, g) && -14 * TERM <= r <= 14 * TERM
  {
    Term(f.l0, g.l1) + Term(f.l1, g.l0)
  }

  function Product2(f: Fe, g: Fe): (r: int)
    requires Short(f) && Short(g)
    ensures r == Column2(f, g) && -14 * TERM <= r <= 14 * TERM
  {
    2 * Term(f.l1, g.l1) + Term(f.l0, g.l2) + Term(f.l2, g.l0)
  }

  function Product3(f: Fe, g: Fe): (r: int)
    requires Short(f) && Short(g)
    ensures r == Column3(f, g) && -14 * TERM <= r <= 14 * TERM
  {
    Term(f.l1, g.l2) + Term(f.l2, g.l1) + Term(f.l0, g.l3) + Term(f.l3, g.l0)
  }

  function Product4(f: Fe, g: Fe): (r: int)
    requires Short(f) && Short(g)
    ensures r == Column4(f, g) && -14 * TERM <= r <= 14 * TERM
  {
    Term(f.l2, g.l2) + 2 * (Term(f.l1, g.l3) + Term(f.l3, g.l1)) + Term(f.l0, g.l4) + Term(f.l4, g.l0)
  }

  function Product5(f: Fe, g: Fe): (r: int)
    requires Short(f) && Short(g)
    ensures r == Column5(f, g) && -14 * TERM <= r <= 14 * TERM
  {
    Term(f.l2, g.l3) + Term(f.l3, g.l2) + Term(f.l1, g.l4) + Term(f.l4, g.l1) + Term(f.l0, g.l5) + Term(f.l5, g.l0)
  }

  function Product6(f: Fe, g: Fe): (r: int)
    requires Short(f) && Short(g)
    ensures r == Column6(f, g) && -14 * TERM <= r <= 14 * TERM
  {
    2 * (Term(f.l3, g.l3) + Term(f.l1, g.l5) + Term(f.l5, g.l1)) + Term(f.l2, g.l4) + Term(f.l4, g.l2)
      + Term(f.l0, g.l6) + Term(f.l6, g.l0)
  }

  function Product7(f: Fe, g: Fe): (r: int)
    requires Short(f) && Short(g)
    ensures r == Column7(f, g) && -14 * TERM <= r <= 14 * TERM
  {
    Term(f.l3, g.l4) + Term(f.l4, g.l3) + Term(f.l2, g.l5) + Term(f.l5, g.l2) + Term(f.l1, g.l6) + Term(f.l6, g.l1)
      + Term(f.l0, g.l7) + Term(f.l7, g.l0)
  }

  function Product8(f: Fe, g: Fe): (r: int)
    requires Short(f) && Short(g)
    ensures r == Column8(f, g) && -14 * TERM <= r <= 14 * TERM
  {
    Term(f.l4, g.l4) + 2 * (Term(f.l3, g.l5) + Term(f.l5, g.l3) + Term(f.l1, g.l7) + Term(f.l7, g.l1))
      + Term(f.l2, g.l6) + Term(f.l6, g.l2) + Term(f.l0, g.l8) + Term(f.l8, g.l0)
  }

  function Product9(f: Fe, g: Fe): (r: int)
    requires Short(f) && Short(g)
    ensures r == Column9(f, g) && -14 * TERM <= r <= 14 * TERM
  {
    Term(f.l4, g.l5) + Term(f.l5, g.l4) + Term(f.l3, g.l6) + Term(f.l6, g.l3) + Term(f.l2, g.l7) + Term(f.l7, g.l2)
      + Term(f.l1, g.l8) + Term(f.l8, g.l1) + Term(f.l0, g.l9) + Term(f.l9, g.l0)
  }

  function Product10(f: Fe, g: Fe): (r: int)
    requires Short(f) && Short(g)
    ensures r == Column10(f, g) && -14 * TERM <= r <= 14 * TERM
  {
    2 * (Term(f.l5, g.l5) + Term(f.l3, g.l7) + Term(f.l7, g.l3) + Term(f.l1, g.l9) + Term(f.l9, g.l1))
      + Term(f.l4, g.l6) + Term(f.l6, g.l4) + Term(f.l2, g.l8) + Term(f.l8, g.l2)
  }

  function Product11(f: Fe, g: Fe): (r: int)
    requires Short(f) && Short(g)
    ensures r == Column11(f, g) && -14 * TERM <= r <= 14 * TERM
  {
    Term(f.l5, g.l6) + Term(f.l6, g.l5) + Term(f.l4, g.l7) + Term(f.l7, g.l4) + Term(f.l3, g.l8) + Term(f.l8, g.l3)
      + Term(f.l2, g.l9) + Term(f.l9, g.l2)
  }

  function Product12(f: Fe, g: Fe): (r: int)
    requires Short(f) && Short(g)
    ensures r == Column12(f, g) && -14 * TERM <= r <= 14 * TERM
  {
    Term(f.l6, g.l6) + 2 * (Term(f.l5, g.l7) + Term(f.l7, g.l5) + Term(f.l3, g.l9) + Term(f.l9, g.l3))
      + Term(f.l4, g.l8) + Term(f.l8, g.l4)
  }

  function Product13(f: Fe, g: Fe): (r: int)
    requires Short(f) && Short(g)
    ensures r == Column13(f, g) && -14 * TERM <= r <= 14 * TERM
  {
    Term(f.l6, g.l7) + Term(f.l7, g.l6) + Term(f.l5, g.l8) + Term(f.l8, g.l5) + Term(f.l4, g.l9) + Term(f.l9, g.l4)
  }

  function Product14(f: Fe, g: Fe): (r: int)
    requires Short(f) && Short(g)
    ensures r == Column14(f, g) && -14 * TERM <= r <= 14 * TERM
  {
    2 * (Term(f.l7, g.l7) + Term(f.l5, g.l9) + Term(f.l9, g.l5)) + Term(f.l6, g.l8) + Term(f.l8, g.l6)
  }

  function Product15(f: Fe, g: Fe): (r: int)
    requires Short(f) && Short(g)
    ensures r == Column15(f, g) && -14 * TERM <= r <= 14 * TERM
  {
    Term(f.l7, g.l8) + Term(f.l8, g.l7) + Term(f.l6, g.l9) + Term(f.l9, g.l6)
  }

  function Product16(f: Fe, g: Fe): (r: int)
    requires Short(f) && Short(g)
    ensures r == Column16(f, g) && -14 * TERM <= r <= 14 * TERM
  {
    Term(f.l8, g.l8) + 2 * (Term(f.l7, g.l9) + Term(f.l9, g.l7))
  }

  function Product17(f: Fe, g: Fe): (r: int)
    requires Short(f) && Short(g)
    ensures r == Column17(f, g) && -14 * TERM <= r <= 14 * TERM
  {
    Term(f.l8, g.l9) + Term(f.l9, g.l8)
  }

  function Product18(f: Fe, g: Fe): (r: int)
    requires Short(f) && Short(g)
    ensures r == Column18(f, g) && -14 * TERM <= r <= 14 * TERM
  {
    2 * Term(f.l9, g.l9)
  }

  // The nineteen columns of fsquare_inner.

  function Square0(f: Fe): (r: int)
    requires Short(f)
    ensures r == Column0(f, f) && -14 * TERM <= r <= 14 * TERM
  {
    Term(f.l0, f.l0)
  }

  function Square1(f: Fe): (r: int)
    requires Short(f)
    ensures r == Column1(f, f) && -14 * TERM <= r <= 14 * TERM
  {
    2 * Term(f.l0, f.l1)
  }

  function Square2(f: Fe): (r: int)
    requires Short(f)
    ensures r == Column2(f, f) && -14 * TERM <= r <= 14 * TERM
  {
    2 * (Term(f.l1, f.l1) + Term(f.l0, f.l2))
  }

  function Square3(f: Fe): (r: int)
    requires Short(f)
    ensures r == Column3(f, f) && -14 * TERM <= r <= 14 * TERM
  {
    2 * (Term(f.l1, f.l2) + Term(f.l0, f.l3))
  }

  function Square4(f: Fe): (r: int)
    requires Short(f)
    ensures r == Column4(f, f) && -14 * TERM <= r <= 14 * TERM
  {
    Term(f.l2, f.l2) + 4 * Term(f.l1, f.l3) + 2 * Term(f.l0, f.l4)
  }

  function Square5(f: Fe): (r: int)
    requires Short(f)
    ensures r == Column5(f, f) && -14 * TERM <= r <= 14 * TERM
  {
    2 * (Term(f.l2, f.l3) + Term(f.l1, f.l4) + Term(f.l0, f.l5))
  }

  function Square6(f: Fe): (r: int)
    requires Short(f)
    ensures r == Column6(f, f) && -14 * TERM <= r <= 14 * TERM
  {
    2 * (Term(f.l3, f.l3) + Term(f.l2, f.l4) + Term(f.l0, f.l6) + 2 * Term(f.l1, f.l5))
  }

  function Square7(f: Fe): (r: int)
    requires Short(f)
    ensures r == Column7(f, f) && -14 * TERM <= r <= 14 * TERM
  {
    2 * (Term(f.l3, f.l4) + Term(f.l2, f.l5) + Term(f.l1, f.l6) + Term(f.l0, f.l7))
  }

  function Square8(f: Fe): (r: int)
    requires Short(f)
    ensures r == Column8(f, f) && -14 * TERM <= r <= 14 * TERM
  {
    Term(f.l4, f.l4) + 2 * (Term(f.l2, f.l6) + Term(f.l0, f.l8) + 2 * (Term(f.l1, f.l7) + Term(f.l3, f.l5)))
  }

  function Square9(f: Fe): (r: int)
    requires Short(f)
    ensures r == Column9(f, f) && -14 * TERM <= r <= 14 * TERM
  {
    2 * (Term(f.l4, f.l5) + Term(f.l3, f.l6) + Term(f.l2, f.l7) + Term(f.l1, f.l8) + Term(f.l0, f.l9))
  }

  function Square10(f: Fe): (r: int)
    requires Short(f)
    ensures r == Column10(f, f) && -14 * TERM <= r <= 14 * TERM
  {
    2 * (Term(f.l5, f.l5) + Term(f.l4, f.l6) + Term(f.l2, f.l8) + 2 * (Term(f.l3, f.l7) + Term(f.l1, f.l9)))
  }

  function Square11(f: Fe): (r: int)
    requires Short(f)
    ensures r == Column11(f, f) && -14 * TERM <= r <= 14 * TERM
  {
    2 * (Term(f.l5, f.l6) + Term(f.l4, f.l7) + Term(f.l3, f.l8) + Term(f.l2, f.l9))
  }

  function Square12(f: Fe): (r: int)
    requires Short(f)
    ensures r == Column12(f, f) && -14 * TERM <= r <= 14 * TERM
  {
    Term(f.l6, f.l6) + 2 * (Term(f.l4, f.l8) + 2 * (Term(f.l5, f.l7) + Term(f.l3, f.l9)))
  }

  function Square13(f: Fe): (r: int)
    requires Short(f)
    ensures r == Column13(f, f) && -14 * TERM <= r <= 14 * TERM
  {
    2 * (Term(f.l6, f.l7) + Term(f.l5, f.l8) + Term(f.l4, f.l9))
  }

  function Square14(f: Fe): (r: int)
    requires Short(f)
    ensures r == Column14(f, f) && -14 * TERM <= r <= 14 * TERM
  {
    2 * (Term(f.l7, f.l7) + Term(f.l6, f.l8) + 2 * Term(f.l5, f.l9))
  }

  function Square15(f: Fe): (r: int)
    requires Short(f)
    ensures r == Column15(f, f) && -14 * TERM <= r <= 14 * TERM
  {
    2 * (Term(f.l7, f.l8) + Term(f.l6, f.l9))
  }

  function Square16(f: Fe): (r: int)
    requires Short(f)
    ensures r == Column16(f, f) && -14 * TERM <= r <= 14 * TERM
  {
    Term(f.l8, f.l8) + 4 * Term(f.l7, f.l9)
  }

  function Square17(f: Fe): (r: int)
    requires Short(f)
    ensures r == Column17(f, f) && -14 * TERM <= r <= 14 * TERM
  {
    2 * Term(f.l8, f.l9)
  }

  function Square18(f: Fe): (r: int)
    requires Short(f)
    ensures r == Column18(f, f) && -14 * TERM <= r <= 14 * TERM
  {
    2 * Term(f.l9, f.l9)
  }

  /** The first nineteen limbs of an array, as columns. */
  function WideOf(s: seq<int>): Wide
    requires |s| >= 19
  {
    Wide(s[0], s[1], s[2], s[3], s[4], s[5], s[6], s[7], s[8], s[9], s[10], s[11], s[12], s[13], s[14], s[15], s[16],
      s[17], s[18])
  }

  ghost predicate AllWithin(s: seq<int>, n: nat) { forall i :: 0 <= i < |s| ==> -(n as int) <= s[i] <= n }

  /** output = in2 * in, degree 18. */
  method FProduct(output: array<int>, in2: Fe, in1: Fe)
    requires output.Length == 19 && Short(in2) && Short(in1)
    modifies output
    ensures WideOf(output[..]) == Product(in2, in1) && AllWithin(output[..], 14 * TERM)
  {
    hide Short, Column0, Column1, Column2, Column3, Column4, Column5, Column6, Column7, Column8, Column9, Column10,
      Column11, Column12, Column13, Column14, Column15, Column16, Column17, Column18;
    FProductLow(output, in2, in1);
    FProductHigh(output, in2, in1);
  }

  method FProductLow(output: array<int>, in2: Fe, in1: Fe)
    requires output.Length == 19 && Short(in2) && Short(in1)
    modifies output
    ensures var w := Product(in2, in1); FeOf(output[..]) == Fe(w.c0, w.c1, w.c2, w.c3, w.c4, w.c5, w.c6, w.c7, w.c8,
      w.c9)
    ensures forall i :: 0 <= i < 10 ==> -14 * TERM <= output[i] <= 14 * TERM
  {
    hide Short, Column0, Column1, Column2, Column3, Column4, Column5, Column6, Column7, Column8, Column9, Column10,
      Column11, Column12, Column13, Column14, Column15, Column16, Column17, Column18, Product0, Product1, Product2,
      Product3, Product4, Product5, Product6, Product7, Product8, Product9, Product10, Product11, Product12, Product13,
      Product14, Product15, Product16, Product17, Product18;
    output[0] := Product0(in2, in1);
    output[1] := Product1(in2, in1);
    output[2] := Product2(in2, in1);
    output[3] := Product3(in2, in1);
    output[4] := Product4(in2, in1);
    output[5] := Product5(in2, in1);
    output[6] := Product6(in2, in1);
    output[7] := Product7(in2, in1);
    output[8] := Product8(in2, in1);
    output[9] := Product9(in2, in1);
  }

  method FProductHigh(output: array<int>, in2: Fe, in1: Fe)
    requires output.Length == 19 && Short(in2) && Short(in1)
    modifies output
    ensures forall i :: 0 <= i < 10 ==> output[i] == old(output[i])
    ensures var w := Product(in2, in1);
      Wide(w.c0, w.c1, w.c2, w.c3, w.c4, w.c5, w.c6, w.c7, w.c8, w.c9, output[10], output[11], output[12], output[13],
        output[14],
        output[15], output[16], output[17], output[18]) == w
    ensures forall i :: 10 <= i < 19 ==> -14 * TERM <= output[i] <= 14 * TERM
  {
    hide Short, Column0, Column1, Column2, Column3, Column4, Column5, Column6, Column7, Column8, Column9, Column10,
      Column11, Column12, Column13, Column14, Column15, Column16, Column17, Column18, Product0, Product1, Product2,
      Product3, Product4, Product5, Product6, Product7, Product8, Product9, Product10, Product11, Product12, Product13,
      Product14, Product15, Product16, Product17, Product18;
    output[10] := Product10(in2, in1);
    output[11] := Product11(in2, in1);
    output[12] := Product12(in2, in1);
    output[13] := Product13(in2, in1);
    output[14] := Product14(in2, in1);
    output[15] := Product15(in2, in1);
    output[16] := Product16(in2, in1);
    output[17] := Product17(in2, in1);
    output[18] := Product18(in2, in1);
  }

  /** output = in^2, degree 18: the same columns as a product. */
  method FSquareInner(output: array<int>, in1: Fe)
    requires output.Length == 19 && Short(in1)
    modifies output
    ensures WideOf(output[..]) == Product(in1, in1) && AllWithin(output[..], 14 * TERM)
  {
    hide Short, Column0, Column1, Column2, Column3, Column4, Column5, Column6, Column7, Column8, Column9, Column10,
      Column11, Column12, Column13, Column14, Column15, Column16, Column17, Column18;
    FSquareLow(output, in1);
    FSquareHigh(output, in1);
  }

  method FSquareLow(output: array<int>, in1: Fe)
    requires output.Length == 19 && Short(in1)
    modifies output
    ensures var w := Product(in1, in1); FeOf(output[..]) == Fe(w.c0, w.c1, w.c2, w.c3, w.c4, w.c5, w.c6, w.c7, w.c8,
      w.c9)
    ensures forall i :: 0 <= i < 10 ==> -14 * TERM <= output[i] <= 14 * TERM
  {
    hide Short, Column0, Column1, Column2, Column3, Column4, Column5, Column6, Column7, Column8, Column9, Column10,
      Column11, Column12, Column13, Column14, Column15, Column16, Column17, Column18, Square0, Square1, Square2,
      Square3, Square4, Square5, Square6, Square7, Square8, Square9, Square10, Square11, Square12, Square13, Square14,
      Square15, Square16, Square17, Square18;
    output[0] := Square0(in1);
    output[1] := Square1(in1);
    output[2] := Square2(in1);
    output[3] := Square3(in1);
    output[4] := Square4(in1);
    output[5] := Square5(in1);
    output[6] := Square6(in1);
    output[7] := Square7(in1);
    output[8] := Square8(in1);
    output[9] := Square9(in1);
  }

  method FSquareHigh(output: array<int>, in1: Fe)
    requires output.Length == 19 && Short(in1)
    modifies output
    ensures forall i :: 0 <= i < 10 ==> output[i] == old(output[i])
    ensures var w := Product(in1, in1);
      Wide(w.c0, w.c1, w.c2, w.c3, w.c4, w.c5, w.c6, w.c7, w.c8, w.c9, output[10], output[11], output[12], output[13],
        output[14],
        output[15], output[16], output[17], output[18]) == w
    ensures forall i :: 10 <= i < 19 ==> -14 * TERM <= output[i] <= 14 * TERM
  {
    hide Short, Column0, Column1, Column2, Column3, Column4, Column5, Column6, Column7, Column8, Column9, Column10,
      Column11, Column12, Column13, Column14, Column15, Column16, Column17, Column18, Square0, Square1, Square2,
      Square3, Square4, Square5, Square6, Square7, Square8, Square9, Square10, Square11, Square12, Square13, Square14,
      Square15, Square16, Square17, Square18;
    output[10] := Square10(in1);
    output[11] := Square11(in1);
    output[12] := Square12(in1);
    output[13] := Square13(in1);
    output[14] := Square14(in1);
    output[15] := Square15(in1);
    output[16] := Square16(in1);
    output[17] := Square17(in1);
    output[18] := Square18(in1);
  }

  // ---- reduction -----------------------------------------------------------------------

  /** Limb i takes in 19 times limb i + 10, by two shifts and an addition. */
  method AddNineteen(output: array<int>, i: nat)
    requires output.Length == 19 && i < 9
    requires -14 * TERM <= output[i] <= 14 * TERM && -14 * TERM <= output[i + 10] <= 14 * TERM
    modifies output
    ensures output[..] == old(output[..])[i := old(output[i]) + 19 * old(output[i + 10])]
    ensures -280 * TERM <= output[i] <= 280 * TERM
  {
    output[i] := output[i] + output[i + 10] * 0x10;
    output[i] := output[i] + output[i + 10] * 2;
    output[i] := output[i] + output[i + 10];
  }

  /** Columns 10 to 18 fold onto columns 0 to 8, because 2^255 is 19 modulo p. */
  method FReduceDegree(output: array<int>)
    requires output.Length == 19 && AllWithin(output[..], 14 * TERM)
    modifies output
    ensures forall i :: 0 <= i < 10 ==> -280 * TERM <= output[i] <= 280 * TERM
    ensures Cong(Val(FeOf(output[..])), WideVal(WideOf(old(output[..]))))
  {
    hide Val, WideVal, Cong;
    ghost var was := output[..];
    AddNineteen(output, 8);
    AddNineteen(output, 7);
    AddNineteen(output, 6);
    AddNineteen(output, 5);
    AddNineteen(output, 4);
    AddNineteen(output, 3);
    AddNineteen(output, 2);
    AddNineteen(output, 1);
    AddNineteen(output, 0);
    FoldValue(WideOf(was), FeOf(output[..]));
  }

  /** Division by 2^k that truncates toward zero, from the sign bit: the rounding term is
    * 2^k - 1 for negative values, cut from a word of ones. */
  function DivBy226(v: int): (r: int)
    requires I64(v)
    ensures r == if v >= 0 then v / 0x400_0000 else -(-v / 0x400_0000)
  {
    var highword := v % 0x1_0000_0000_0000_0000 / 0x1_0000_0000;
    var sign := if highword >= 0x8000_0000 then 0xffff_ffff else 0;
    var roundoff := sign / 0x40;
    (v + roundoff) / 0x400_0000
  }

  function DivBy225(v: int): (r: int)
    requires I64(v)
    ensures r == if v >= 0 then v / 0x200_0000 else -(-v / 0x200_0000)
  {
    var highword := v % 0x1_0000_0000_0000_0000 / 0x1_0000_0000;
    var sign := if highword >= 0x8000_0000 then 0xffff_ffff else 0;
    var roundoff := sign / 0x80;
    (v + roundoff) / 0x200_0000
  }

  /** The limbs before i are reduced, the one at i has taken in a carry. */
  ghost predicate Carried(s: seq<int>, i: nat)
    requires |s| == 11 && i <= 10
  {
    && (forall j :: 0 <= j < i ==> -Base(j) < s[j] < Base(j))
    && (forall j :: i < j < 10 ==> -280 * TERM <= s[j] <= 280 * TERM)
    && (i < 10 ==> -281 * TERM <= s[i] <= 281 * TERM && s[10] == 0)
    && (i == 10 ==> -0x1_0000_0000_00 <= s[10] <= 0x1_0000_0000_00)
  }

  /** The carry out of an even limb. */
  method CarryEven(output: array<int>, i: nat)
    requires output.Length >= 11 && i < 10 && i % 2 == 0 && Carried(output[..11], i)
    modifies output
    ensures Carried(output[..11], i + 1) && Horner(output[..11], 0) == old(Horner(output[..11], 0))
  {
    hide Horner;
    ghost var s := output[..11];
    var over := DivBy226(output[i]);
    output[i] := output[i] - over * 0x400_0000;
    output[i + 1] := output[i + 1] + over;
    assert output[..11] == s[i := s[i] - over * Base(i)][i + 1 := s[i + 1] + over];
    CarryKeeps(s, output[..11], i, over, 0);
  }

  /** The carry out of an odd limb. */
  method CarryOdd(output: array<int>, i: nat)
    requires output.Length >= 11 && i < 10 && i % 2 == 1 && Carried(output[..11], i)
    modifies output
    ensures Carried(output[..11], i + 1) && Horner(output[..11], 0) == old(Horner(output[..11], 0))
  {
    hide Horner;
    ghost var s := output[..11];
    var over := DivBy225(output[i]);
    output[i] := output[i] - over * 0x200_0000;
    output[i + 1] := output[i + 1] + over;
    assert output[..11] == s[i := s[i] - over * Base(i)][i + 1 := s[i + 1] + over];
    CarryKeeps(s, output[..11], i, over, 0);
  }

  /** All coefficients come down below 2^26 in magnitude. */
  method FReduceCoefficients(output: array<int>)
    requires output.Length >= 11 && forall i :: 0 <= i < 10 ==> -280 * TERM <= output[i] <= 280 * TERM
    modifies output
    ensures forall i :: 0 <= i < 10 ==> -0x3ff_ffff <= output[i] <= 0x3ff_ffff
    ensures Cong(Val(FeOf(output[..])), Val(FeOf(old(output[..]))))
  {
    hide Val, Cong, Horner, TopWeight;
    output[10] := 0;
    ghost var was := output[..11];
    var i := 0;
    while i < 10
      invariant 0 <= i <= 10 && i % 2 == 0
      invariant Carried(output[..11], i) && Horner(output[..11], 0) == Horner(was, 0)
    {
      CarryEven(output, i);
      CarryOdd(output, i + 1);
      i := i + 2;
    }
    ghost var s := output[..11];
    output[0] := output[0] + output[10] * 0x10;
    output[0] := output[0] + output[10] * 2;
    output[0] := output[0] + output[10];
    output[10] := 0;
    TopFolds(was, s, output[..11]);
    LastCarry(output);
  }

  /** The eleventh limb moves to the bottom, times 19. */
  lemma TopFolds(was: seq<int>, s: seq<int>, t: seq<int>)
    requires |was| == |s| == |t| == 11 && was[10] == 0 && Horner(s, 0) == Horner(was, 0)
    requires t == s[0 := s[0] + 19 * s[10]][10 := 0]
    ensures Cong(Val(FeOf(t)), Val(FeOf(was)))
  {
    hide Val, Cong, Horner, TopWeight;
    WeightIs2To255();
    HornerEleven(was, 0);
    HornerEleven(s, 0);
    HornerIsVal(was[..10]);
    HornerIsVal(s[..10]);
    BottomPlus(FeOf(s), FeOf(t), 19 * s[10]);
    FoldTop(Val(FeOf(was)), Val(FeOf(s)), Val(FeOf(t)), s[10]);
  }

  lemma BottomPlus(f: Fe, g: Fe, d: int)
    requires g == f.(l0 := f.l0 + d)
    ensures Val(g) == Val(f) + d
  {
  }

  lemma FoldTop(w: int, s: int, t: int, top: int)
    requires s + (P + 19) * top == w + (P + 19) * 0 && t == s + 19 * top
    ensures Cong(t, w)
  {
    CongIntro(t, w, -top);
  }

  /** The carry out of limb 0 that ends the reduction. */
  method LastCarry(output: array<int>)
    requires output.Length >= 11 && -0x8000_0000_0000 <= output[0] <= 0x8000_0000_0000
    requires forall j :: 1 <= j < 10 ==> -Base(j) < output[j] < Base(j)
    modifies output
    ensures forall i :: 0 <= i < 10 ==> -0x3ff_ffff <= output[i] <= 0x3ff_ffff
    ensures Val(FeOf(output[..])) == Val(FeOf(old(output[..])))
  {
    hide Val, Horner;
    ghost var s := output[..10];
    var over := DivBy226(output[0]);
    output[0] := output[0] - over * 0x400_0000;
    output[1] := output[1] + over;
    assert output[..10] == s[0 := s[0] - over * Base(0)][1 := s[1] + over];
    CarryKeeps(s, output[..10], 0, over, 0);
    HornerIsVal(s);
    HornerIsVal(output[..10]);
  }

  // ---- fmul and fsquare ----------------------------------------------------------------

  lemma Limbs(s: seq<int>)
    requires |s| >= 10
    ensures FeOf(s) == Fe(s[0], s[1], s[2], s[3], s[4], s[5], s[6], s[7], s[8], s[9])
  {
  }

  lemma ReducedLimbs(f: Fe)
    requires -0x3ff_ffff <= f.l0 <= 0x3ff_ffff && -0x3ff_ffff <= f.l1 <= 0x3ff_ffff && -0x3ff_ffff <= f.l2 <= 0x3ff_ffff
    requires -0x3ff_ffff <= f.l3 <= 0x3ff_ffff && -0x3ff_ffff <= f.l4 <= 0x3ff_ffff && -0x3ff_ffff <= f.l5 <= 0x3ff_ffff
    requires -0x3ff_ffff <= f.l6 <= 0x3ff_ffff && -0x3ff_ffff <= f.l7 <= 0x3ff_ffff && -0x3ff_ffff <= f.l8 <= 0x3ff_ffff
    requires -0x3ff_ffff <= f.l9 <= 0x3ff_ffff
    ensures Reduced(f)
  {
  }

  method FMul(f: Fe, g: Fe) returns (h: Fe)
    requires Short(f) && Short(g)
    ensures Reduced(h) && Cong(Val(h), Val(f) * Val(g))
  {
    hide *;
    var t := new int[19];
    FProduct(t, f, g);
    FReduceDegree(t);
    ghost var short := Val(FeOf(t[..]));
    FReduceCoefficients(t);
    assert FeOf(t[..]) == Fe(t[0], t[1], t[2], t[3], t[4], t[5], t[6], t[7], t[8], t[9]) by { Limbs(t[..]); }
    ReducedLimbs(FeOf(t[..]));
    h := Fe(t[0], t[1], t[2], t[3], t[4], t[5], t[6], t[7], t[8], t[9]);
    ProductValue(f, g);
    CongTrans(Val(h), short, Val(f) * Val(g));
  }

  method FSquare(f: Fe) returns (h: Fe)
    requires Short(f)
    ensures Reduced(h) && Cong(Val(h), Val(f) * Val(f))
  {
    hide *;
    var t := new int[19];
    FSquareInner(t, f);
    FReduceDegree(t);
    ghost var short := Val(FeOf(t[..]));
    FReduceCoefficients(t);
    assert FeOf(t[..]) == Fe(t[0], t[1], t[2], t[3], t[4], t[5], t[6], t[7], t[8], t[9]) by { Limbs(t[..]); }
    ReducedLimbs(FeOf(t[..]));
    h := Fe(t[0], t[1], t[2], t[3], t[4], t[5], t[6], t[7], t[8], t[9]);
    ProductValue(f, f);
    CongTrans(Val(h), short, Val(f) * Val(f));
  }

  // ---- limbwise operations -------------------------------------------------------------

  /** output += in */
  method FSum(output: Fe, in1: Fe) returns (h: Fe)
    requires Reduced(output) && Reduced(in1)
    ensures Short(h) && Val(h) == Val(output) + Val(in1)
  {
    h := Fe(output.l0 + in1.l0, output.l1 + in1.l1, output.l2 + in1.l2, output.l3 + in1.l3, output.l4 + in1.l4,
            output.l5 + in1.l5, output.l6 + in1.l6, output.l7 + in1.l7, output.l8 + in1.l8, output.l9 + in1.l9);
  }

  /** output = in - output */
  method FDifference(output: Fe, in1: Fe) returns (h: Fe)
    requires Reduced(output) && Reduced(in1)
    ensures Short(h) && Val(h) == Val(in1) - Val(output)
  {
    h := Fe(in1.l0 - output.l0, in1.l1 - output.l1, in1.l2 - output.l2, in1.l3 - output.l3, in1.l4 - output.l4,
            in1.l5 - output.l5, in1.l6 - output.l6, in1.l7 - output.l7, in1.l8 - output.l8, in1.l9 - output.l9);
  }

  /** fscalar_product by 121665, followed by freduce_coefficients. */
  method FScale(in1: Fe) returns (h: Fe)
    requires Short(in1)
    ensures Reduced(h) && Cong(Val(h), 121665 * Val(in1))
  {
    var t := new int[19];
    ghost var scaled := Scaled(in1);
    Write10(t, Fe(in1.l0 * 121665, in1.l1 * 121665, in1.l2 * 121665, in1.l3 * 121665, in1.l4 * 121665,
                  in1.l5 * 121665, in1.l6 * 121665, in1.l7 * 121665, in1.l8 * 121665, in1.l9 * 121665));
    hide Val, Cong;
    FReduceCoefficients(t);
    h := Fe(t[0], t[1], t[2], t[3], t[4], t[5], t[6], t[7], t[8], t[9]);
    assert FeOf(t[..]) == h;
  }

  /** What fscalar_product leaves. */
  ghost function Scaled(f: Fe): (h: Fe)
    ensures Val(h) == 121665 * Val(f)
  {
    Fe(f.l0 * 121665, f.l1 * 121665, f.l2 * 121665, f.l3 * 121665, f.l4 * 121665,
       f.l5 * 121665, f.l6 * 121665, f.l7 * 121665, f.l8 * 121665, f.l9 * 121665)
  }

  method Write10(t: array<int>, f: Fe)
    requires t.Length == 19
    modifies t
    ensures FeOf(t[..]) == f
  {
    t[0], t[1], t[2], t[3], t[4] := f.l0, f.l1, f.l2, f.l3, f.l4;
    t[5], t[6], t[7], t[8], t[9] := f.l5, f.l6, f.l7, f.l8, f.l9;
  }

}
