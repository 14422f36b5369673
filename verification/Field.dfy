/** Field arithmetic modulo 2^255 - 19 on ten signed 32-bit limbs (fe.c).
  *
  * Every C function that fills an output array is a method whose out-parameter is the new
  * limb vector; the source copies its inputs into locals first, so overlapping buffers are
  * the same as assigning the result back. */
module Field {
  import opened Words
  import opened Modular
  import opened Radix
  import opened Bits

  // Limb bounds from the source's comments, rounded down: (even limbs, odd limbs).
  const TIGHT_E := 33889976    // 1.01 * 2^25
  const TIGHT_O := 16944988    // 1.01 * 2^24
  const LOOSE_E := 73819750    // 1.1 * 2^26
  const LOOSE_O := 36909875    // 1.1 * 2^25
  const INPUT_E := 110729625   // 1.65 * 2^26
  const INPUT_O := 55364812    // 1.65 * 2^25

  // The largest product of two pre-scaled factors, and the largest column of a carry chain.
  const TERM := 38 * INPUT_E * INPUT_E
  const WIDE := 6_000_000_000_000_000_000

  ghost predicate Tight(f: Fe) { Within(f, TIGHT_E, TIGHT_O) }

  ghost predicate Loose(f: Fe) { Within(f, LOOSE_E, LOOSE_O) }

  /** What fe_mul, fe_sq and fe_sq2 demand of their inputs. */
  ghost predicate MulInput(f: Fe) { Within(f, INPUT_E, INPUT_O) }

  lemma ConstantBounds()
    ensures Tight(ZERO) && MulInput(ZERO) && Tight(ONE) && MulInput(ONE)
  {
  }

  // ---- columns without overflow --------------------------------------------------------

  /** The 32-bit operands of one product, the second one pre-scaled by up to 38. */
  ghost predicate Factors(x: int, y: int) {
    I32(x) && I32(y) && -2 * INPUT_E <= x <= 2 * INPUT_E && -19 * INPUT_E <= y <= 19 * INPUT_E
  }

  lemma ProductBound(x: int, y: int, m: nat, n: nat)
    requires -(m as int) <= x <= m && -(n as int) <= y <= n
    ensures -(m * n) <= x * y <= m * n
  {
    assert (m - x) * (n + y) >= 0 && (m + x) * (n - y) >= 0;
    assert (m - x) * (n - y) >= 0 && (m + x) * (n + y) >= 0;
  }

  /** A 64-bit multiply-accumulate that is the n-th of its column. */
  function Mac(s: int, x: int, y: int, ghost n: nat): (r: int)
    requires Factors(x, y) && n < 10 && -(n * TERM) <= s <= n * TERM
    ensures r == s + x * y && I64(x * y) && I64(r)
    ensures -((n + 1) * TERM) <= r <= (n + 1) * TERM
  {
    ProductBound(x, y, 2 * INPUT_E, 19 * INPUT_E);
    s + x * y
  }

  function Dot5(x0: int, y0: int, x1: int, y1: int, x2: int, y2: int, x3: int, y3: int, x4: int, y4: int): (r: int)
    requires Factors(x0, y0) && Factors(x1, y1) && Factors(x2, y2) && Factors(x3, y3) && Factors(x4, y4)
    ensures r == x0 * y0 + x1 * y1 + x2 * y2 + x3 * y3 + x4 * y4
    ensures -5 * TERM <= r <= 5 * TERM
  {
    var s0 := Mac(0, x0, y0, 0);
    var s1 := Mac(s0, x1, y1, 1);
    var s2 := Mac(s1, x2, y2, 2);
    var s3 := Mac(s2, x3, y3, 3);
    var s4 := Mac(s3, x4, y4, 4);
    s4
  }

  function Dot6(x0: int, y0: int, x1: int, y1: int, x2: int, y2: int, x3: int, y3: int, x4: int, y4: int, x5: int,
    y5: int): (r: int)
    requires Factors(x0, y0) && Factors(x1, y1) && Factors(x2, y2) && Factors(x3, y3) && Factors(x4, y4)
      && Factors(x5, y5)
    ensures r == x0 * y0 + x1 * y1 + x2 * y2 + x3 * y3 + x4 * y4 + x5 * y5
    ensures -6 * TERM <= r <= 6 * TERM
  {
    var s0 := Mac(0, x0, y0, 0);
    var s1 := Mac(s0, x1, y1, 1);
    var s2 := Mac(s1, x2, y2, 2);
    var s3 := Mac(s2, x3, y3, 3);
    var s4 := Mac(s3, x4, y4, 4);
    var s5 := Mac(s4, x5, y5, 5);
    s5
  }

  function Dot10(x0: int, y0: int, x1: int, y1: int, x2: int, y2: int, x3: int, y3: int, x4: int, y4: int, x5: int,
    y5: int, x6: int, y6: int, x7: int, y7: int, x8: int, y8: int, x9: int, y9: int): (r: int)
    requires Factors(x0, y0) && Factors(x1, y1) && Factors(x2, y2) && Factors(x3, y3) && Factors(x4, y4)
      && Factors(x5, y5) && Factors(x6, y6) && Factors(x7, y7) && Factors(x8, y8) && Factors(x9, y9)
    ensures r == x0 * y0 + x1 * y1 + x2 * y2 + x3 * y3 + x4 * y4 + x5 * y5 + x6 * y6 + x7 * y7 + x8 * y8 + x9 * y9
    ensures -10 * TERM <= r <= 10 * TERM
  {
    var s0 := Mac(0, x0, y0, 0);
    var s1 := Mac(s0, x1, y1, 1);
    var s2 := Mac(s1, x2, y2, 2);
    var s3 := Mac(s2, x3, y3, 3);
    var s4 := Mac(s3, x4, y4, 4);
    var s5 := Mac(s4, x5, y5, 5);
    var s6 := Mac(s5, x6, y6, 6);
    var s7 := Mac(s6, x7, y7, 7);
    var s8 := Mac(s7, x8, y8, 8);
    var s9 := Mac(s8, x9, y9, 9);
    s9
  }

  // ---- carry chains --------------------------------------------------------------------

  /** x divided by 2^26, rounded to nearest: (x + 2^25) >> 26. */
  function Round26(x: int): (q: int)
    requires I64(x) && I64(x + 0x200_0000)
    ensures -0x200_0000 <= x - 0x400_0000 * q < 0x200_0000
  {
    (x + 0x200_0000) / 0x400_0000
  }

  /** x divided by 2^25, rounded to nearest: (x + 2^24) >> 25. */
  function Round25(x: int): (q: int)
    requires I64(x) && I64(x + 0x100_0000)
    ensures -0x100_0000 <= x - 0x200_0000 * q < 0x100_0000
  {
    (x + 0x100_0000) / 0x200_0000
  }

  /** The twelve carries that end fe_mul, fe_sq and fe_sq2: rounded carries along two
    * interleaved chains, with the carry out of limb 9 folded back times 19. */
  method CarryChain(w: Fe) returns (h: Fe)
    requires Within(w, WIDE, WIDE)
    ensures Tight(h)
    ensures Cong(Val(h), Val(w))
  {
    hide Val, Cong, Round26, Round25;
    var Fe(h0, h1, h2, h3, h4, h5, h6, h7, h8, h9) := w;
    var carry0, carry1, carry2, carry3, carry4, carry5, carry6, carry7, carry8, carry9;
    carry0 := Round26(h0); h1 := h1 + carry0; h0 := h0 - carry0 * 0x400_0000;
    carry4 := Round26(h4); h5 := h5 + carry4; h4 := h4 - carry4 * 0x400_0000;
    ghost var first0, first4 := carry0, carry4;
    carry1 := Round25(h1); h2 := h2 + carry1; h1 := h1 - carry1 * 0x200_0000;
    carry5 := Round25(h5); h6 := h6 + carry5; h5 := h5 - carry5 * 0x200_0000;
    carry2 := Round26(h2); h3 := h3 + carry2; h2 := h2 - carry2 * 0x400_0000;
    carry6 := Round26(h6); h7 := h7 + carry6; h6 := h6 - carry6 * 0x400_0000;
    carry3 := Round25(h3); h4 := h4 + carry3; h3 := h3 - carry3 * 0x200_0000;
    carry7 := Round25(h7); h8 := h8 + carry7; h7 := h7 - carry7 * 0x200_0000;
    ghost var m := Fe(h0, h1, h2, h3, h4, h5, h6, h7, h8, h9);
    carry4 := Round26(h4); h5 := h5 + carry4; h4 := h4 - carry4 * 0x400_0000;
    carry8 := Round26(h8); h9 := h9 + carry8; h8 := h8 - carry8 * 0x400_0000;
    carry9 := Round25(h9); h0 := h0 + 19 * carry9; h9 := h9 - carry9 * 0x200_0000;
    carry0 := Round26(h0); h1 := h1 + carry0; h0 := h0 - carry0 * 0x400_0000;
    h := Fe(h0, h1, h2, h3, h4, h5, h6, h7, h8, h9);
    EightCarries(w, m, first0, carry1, carry2, carry3, first4, carry5, carry6, carry7);
    FourCarries(m, h, carry4, carry8, carry9, carry0);
    CongTrans(Val(h), Val(m), Val(w));
  }

  /** A carry moves a multiple of a limb's radix up one place and keeps the value. */
  lemma EightCarries(w: Fe, m: Fe, c0: int, c1: int, c2: int, c3: int, c4: int, c5: int, c6: int, c7: int)
    requires m == Fe(w.l0 - 0x400_0000 * c0, w.l1 + c0 - 0x200_0000 * c1, w.l2 + c1 - 0x400_0000 * c2,
      w.l3 + c2 - 0x200_0000 * c3, w.l4 + c3 - 0x400_0000 * c4, w.l5 + c4 - 0x200_0000 * c5,
      w.l6 + c5 - 0x400_0000 * c6, w.l7 + c6 - 0x200_0000 * c7, w.l8 + c7, w.l9)
    ensures Cong(Val(m), Val(w))
  {
    CongIntro(Val(m), Val(w), 0);
  }

  /** The carry out of limb 9 moves a multiple of 2^255 - 19 away. */
  lemma FourCarries(m: Fe, h: Fe, c4: int, c8: int, c9: int, c0: int)
    requires h == m.(l0 := m.l0 + 19 * c9 - 0x400_0000 * c0, l1 := m.l1 + c0, l4 := m.l4 - 0x400_0000 * c4,
      l5 := m.l5 + c4, l8 := m.l8 - 0x400_0000 * c8, l9 := m.l9 + c8 - 0x200_0000 * c9)
    ensures Cong(Val(h), Val(m))
  {
    CongIntro(Val(h), Val(m), -c9);
  }

  // ---- multiplication and squaring -----------------------------------------------------

  // The 64-bit columns h0 to h9 of fe_mul and of fe_sq, with their 32-bit scaled operands.

  function Mul0(f: Fe, g: Fe): (r: int)
    requires MulInput(f) && MulInput(g)
    ensures r == Column0(f, g) + 19 * Column10(f, g) && -WIDE <= r <= WIDE
  {
    Dot10(f.l0, g.l0, 2 * f.l1, 19 * g.l9, f.l2, 19 * g.l8, 2 * f.l3, 19 * g.l7, f.l4, 19 * g.l6, 2 * f.l5, 19 * g.l5,
      f.l6, 19 * g.l4, 2 * f.l7, 19 * g.l3, f.l8, 19 * g.l2, 2 * f.l9, 19 * g.l1)
  }

  function Mul1(f: Fe, g: Fe): (r: int)
    requires MulInput(f) && MulInput(g)
    ensures r == Column1(f, g) + 19 * Column11(f, g) && -WIDE <= r <= WIDE
  {
    Dot10(f.l0, g.l1, f.l1, g.l0, f.l2, 19 * g.l9, f.l3, 19 * g.l8, f.l4, 19 * g.l7, f.l5, 19 * g.l6, f.l6, 19 * g.l5,
      f.l7, 19 * g.l4, f.l8, 19 * g.l3, f.l9, 19 * g.l2)
  }

  function Mul2(f: Fe, g: Fe): (r: int)
    requires MulInput(f) && MulInput(g)
    ensures r == Column2(f, g) + 19 * Column12(f, g) && -WIDE <= r <= WIDE
  {
    Dot10(f.l0, g.l2, 2 * f.l1, g.l1, f.l2, g.l0, 2 * f.l3, 19 * g.l9, f.l4, 19 * g.l8, 2 * f.l5, 19 * g.l7, f.l6,
      19 * g.l6, 2 * f.l7, 19 * g.l5, f.l8, 19 * g.l4, 2 * f.l9, 19 * g.l3)
  }

  function Mul3(f: Fe, g: Fe): (r: int)
    requires MulInput(f) && MulInput(g)
    ensures r == Column3(f, g) + 19 * Column13(f, g) && -WIDE <= r <= WIDE
  {
    Dot10(f.l0, g.l3, f.l1, g.l2, f.l2, g.l1, f.l3, g.l0, f.l4, 19 * g.l9, f.l5, 19 * g.l8, f.l6, 19 * g.l7, f.l7,
      19 * g.l6, f.l8, 19 * g.l5, f.l9, 19 * g.l4)
  }

  function Mul4(f: Fe, g: Fe): (r: int)
    requires MulInput(f) && MulInput(g)
    ensures r == Column4(f, g) + 19 * Column14(f, g) && -WIDE <= r <= WIDE
  {
    Dot10(f.l0, g.l4, 2 * f.l1, g.l3, f.l2, g.l2, 2 * f.l3, g.l1, f.l4, g.l0, 2 * f.l5, 19 * g.l9, f.l6, 19 * g.l8,
      2 * f.l7, 19 * g.l7, f.l8, 19 * g.l6, 2 * f.l9, 19 * g.l5)
  }

  function Mul5(f: Fe, g: Fe): (r: int)
    requires MulInput(f) && MulInput(g)
    ensures r == Column5(f, g) + 19 * Column15(f, g) && -WIDE <= r <= WIDE
  {
    Dot10(f.l0, g.l5, f.l1, g.l4, f.l2, g.l3, f.l3, g.l2, f.l4, g.l1, f.l5, g.l0, f.l6, 19 * g.l9, f.l7, 19 * g.l8,
      f.l8, 19 * g.l7, f.l9, 19 * g.l6)
  }

  function Mul6(f: Fe, g: Fe): (r: int)
    requires MulInput(f) && MulInput(g)
    ensures r == Column6(f, g) + 19 * Column16(f, g) && -WIDE <= r <= WIDE
  {
    Dot10(f.l0, g.l6, 2 * f.l1, g.l5, f.l2, g.l4, 2 * f.l3, g.l3, f.l4, g.l2, 2 * f.l5, g.l1, f.l6, g.l0, 2 * f.l7,
      19 * g.l9, f.l8, 19 * g.l8, 2 * f.l9, 19 * g.l7)
  }

  function Mul7(f: Fe, g: Fe): (r: int)
    requires MulInput(f) && MulInput(g)
    ensures r == Column7(f, g) + 19 * Column17(f, g) && -WIDE <= r <= WIDE
  {
    Dot10(f.l0, g.l7, f.l1, g.l6, f.l2, g.l5, f.l3, g.l4, f.l4, g.l3, f.l5, g.l2, f.l6, g.l1, f.l7, g.l0, f.l8,
      19 * g.l9, f.l9, 19 * g.l8)
  }

  function Mul8(f: Fe, g: Fe): (r: int)
    requires MulInput(f) && MulInput(g)
    ensures r == Column8(f, g) + 19 * Column18(f, g) && -WIDE <= r <= WIDE
  {
    Dot10(f.l0, g.l8, 2 * f.l1, g.l7, f.l2, g.l6, 2 * f.l3, g.l5, f.l4, g.l4, 2 * f.l5, g.l3, f.l6, g.l2, 2 * f.l7,
      g.l1, f.l8, g.l0, 2 * f.l9, 19 * g.l9)
  }

  function Mul9(f: Fe, g: Fe): (r: int)
    requires MulInput(f) && MulInput(g)
    ensures r == Column9(f, g) && -WIDE <= r <= WIDE
  {
    Dot10(f.l0, g.l9, f.l1, g.l8, f.l2, g.l7, f.l3, g.l6, f.l4, g.l5, f.l5, g.l4, f.l6, g.l3, f.l7, g.l2, f.l8, g.l1,
      f.l9, g.l0)
  }

  function Square0(f: Fe): (r: int)
    requires MulInput(f)
    ensures r == Column0(f, f) + 19 * Column10(f, f) && -WIDE <= 2 * r <= WIDE
  {
    Dot6(f.l0, f.l0, 2 * f.l1, 38 * f.l9, 2 * f.l2, 19 * f.l8, 2 * f.l3, 38 * f.l7, 2 * f.l4, 19 * f.l6, f.l5,
      38 * f.l5)
  }

  function Square1(f: Fe): (r: int)
    requires MulInput(f)
    ensures r == Column1(f, f) + 19 * Column11(f, f) && -WIDE <= 2 * r <= WIDE
  {
    Dot5(2 * f.l0, f.l1, f.l2, 38 * f.l9, 2 * f.l3, 19 * f.l8, f.l4, 38 * f.l7, 2 * f.l5, 19 * f.l6)
  }

  function Square2(f: Fe): (r: int)
    requires MulInput(f)
    ensures r == Column2(f, f) + 19 * Column12(f, f) && -WIDE <= 2 * r <= WIDE
  {
    Dot6(2 * f.l0, f.l2, 2 * f.l1, f.l1, 2 * f.l3, 38 * f.l9, 2 * f.l4, 19 * f.l8, 2 * f.l5, 38 * f.l7, f.l6, 19 * f.l6)
  }

  function Square3(f: Fe): (r: int)
    requires MulInput(f)
    ensures r == Column3(f, f) + 19 * Column13(f, f) && -WIDE <= 2 * r <= WIDE
  {
    Dot5(2 * f.l0, f.l3, 2 * f.l1, f.l2, f.l4, 38 * f.l9, 2 * f.l5, 19 * f.l8, f.l6, 38 * f.l7)
  }

  function Square4(f: Fe): (r: int)
    requires MulInput(f)
    ensures r == Column4(f, f) + 19 * Column14(f, f) && -WIDE <= 2 * r <= WIDE
  {
    Dot6(2 * f.l0, f.l4, 2 * f.l1, 2 * f.l3, f.l2, f.l2, 2 * f.l5, 38 * f.l9, 2 * f.l6, 19 * f.l8, f.l7, 38 * f.l7)
  }

  function Square5(f: Fe): (r: int)
    requires MulInput(f)
    ensures r == Column5(f, f) + 19 * Column15(f, f) && -WIDE <= 2 * r <= WIDE
  {
    Dot5(2 * f.l0, f.l5, 2 * f.l1, f.l4, 2 * f.l2, f.l3, f.l6, 38 * f.l9, 2 * f.l7, 19 * f.l8)
  }

  function Square6(f: Fe): (r: int)
    requires MulInput(f)
    ensures r == Column6(f, f) + 19 * Column16(f, f) && -WIDE <= 2 * r <= WIDE
  {
    Dot6(2 * f.l0, f.l6, 2 * f.l1, 2 * f.l5, 2 * f.l2, f.l4, 2 * f.l3, f.l3, 2 * f.l7, 38 * f.l9, f.l8, 19 * f.l8)
  }

  function Square7(f: Fe): (r: int)
    requires MulInput(f)
    ensures r == Column7(f, f) + 19 * Column17(f, f) && -WIDE <= 2 * r <= WIDE
  {
    Dot5(2 * f.l0, f.l7, 2 * f.l1, f.l6, 2 * f.l2, f.l5, 2 * f.l3, f.l4, f.l8, 38 * f.l9)
  }

  function Square8(f: Fe): (r: int)
    requires MulInput(f)
    ensures r == Column8(f, f) + 19 * Column18(f, f) && -WIDE <= 2 * r <= WIDE
  {
    Dot6(2 * f.l0, f.l8, 2 * f.l1, 2 * f.l7, 2 * f.l2, f.l6, 2 * f.l3, 2 * f.l5, f.l4, f.l4, f.l9, 38 * f.l9)
  }

  function Square9(f: Fe): (r: int)
    requires MulInput(f)
    ensures r == Column9(f, f) && -WIDE <= 2 * r <= WIDE
  {
    Dot5(2 * f.l0, f.l9, 2 * f.l1, f.l8, 2 * f.l2, f.l7, 2 * f.l3, f.l6, 2 * f.l4, f.l5)
  }

  function MulColumns(f: Fe, g: Fe): (w: Fe)
    requires MulInput(f) && MulInput(g)
    ensures Within(w, WIDE, WIDE)
    ensures Cong(Val(w), Val(f) * Val(g))
  {
    hide Val, Cong, Column0, Column1, Column2, Column3, Column4, Column5, Column6, Column7, Column8, Column9, Column10,
      Column11, Column12, Column13, Column14, Column15, Column16, Column17, Column18, Mul0, Mul1, Mul2, Mul3, Mul4,
      Mul5, Mul6, Mul7, Mul8, Mul9;
    var w := Fe(Mul0(f, g), Mul1(f, g), Mul2(f, g), Mul3(f, g), Mul4(f, g), Mul5(f, g), Mul6(f, g), Mul7(f, g),
      Mul8(f, g), Mul9(f, g));
    FoldedProduct(f, g, w);
    w
  }

  function SqColumns(f: Fe): (w: Fe)
    requires MulInput(f)
    ensures Within(w, WIDE / 2, WIDE / 2)
    ensures Cong(Val(w), Val(f) * Val(f))
  {
    hide Val, Cong, Column0, Column1, Column2, Column3, Column4, Column5, Column6, Column7, Column8, Column9, Column10,
      Column11, Column12, Column13, Column14, Column15, Column16, Column17, Column18, Square0, Square1, Square2,
      Square3, Square4, Square5, Square6, Square7, Square8, Square9;
    var w := Fe(Square0(f), Square1(f), Square2(f), Square3(f), Square4(f), Square5(f), Square6(f), Square7(f),
      Square8(f), Square9(f));
    FoldedProduct(f, f, w);
    w
  }

  method FeMul(f: Fe, g: Fe) returns (h: Fe)
    requires MulInput(f) && MulInput(g)
    ensures Tight(h)
    ensures Cong(Val(h), Val(f) * Val(g))
  {
    hide *;
    var w := MulColumns(f, g);
    h := CarryChain(w);
    CongTrans(Val(h), Val(w), Val(f) * Val(g));
  }

  method FeSq(f: Fe) returns (h: Fe)
    requires MulInput(f)
    ensures Tight(h)
    ensures Cong(Val(h), Val(f) * Val(f))
  {
    hide Val, Cong, MulInput, Tight, SqColumns;
    var w := SqColumns(f);
    h := CarryChain(w);
    CongTrans(Val(h), Val(w), Val(f) * Val(f));
  }

  method FeSq2(f: Fe) returns (h: Fe)
    requires MulInput(f)
    ensures Tight(h)
    ensures Cong(Val(h), 2 * (Val(f) * Val(f)))
  {
    hide Cong, MulInput, Tight, SqColumns;
    var w := SqColumns(f);
    var w2 := Fe(w.l0 + w.l0, w.l1 + w.l1, w.l2 + w.l2, w.l3 + w.l3, w.l4 + w.l4, w.l5 + w.l5, w.l6 + w.l6, w.l7
      + w.l7, w.l8 + w.l8, w.l9 + w.l9);
    h := CarryChain(w2);
    CongAdd(Val(w), Val(f) * Val(f), Val(w), Val(f) * Val(f));
    assert Val(w2) == Val(w) + Val(w);
    CongTrans(Val(h), Val(w2), 2 * (Val(f) * Val(f)));
  }

  // ---- limbwise operations ---------------------------------------------------------------

  /** Limbs whose sums and differences fit in 32 bits. */
  ghost predicate Addable(f: Fe) { Within(f, 0x3fff_ffff, 0x3fff_ffff) }

  method FeAdd(f: Fe, g: Fe) returns (h: Fe)
    requires Addable(f) && Addable(g)
    ensures Val(h) == Val(f) + Val(g)
    ensures forall e: int, o: int, e': int, o': int {:trigger Within(f, e, o), Within(g, e', o')} ::
      Within(f, e, o) && Within(g, e', o') ==> Within(h, e + e', o + o')
  {
    h := Fe(f.l0 + g.l0, f.l1 + g.l1, f.l2 + g.l2, f.l3 + g.l3, f.l4 + g.l4, f.l5 + g.l5, f.l6 + g.l6, f.l7
      + g.l7, f.l8 + g.l8, f.l9 + g.l9);
  }

  method FeSub(f: Fe, g: Fe) returns (h: Fe)
    requires Addable(f) && Addable(g)
    ensures Val(h) == Val(f) - Val(g)
    ensures forall e: int, o: int, e': int, o': int {:trigger Within(f, e, o), Within(g, e', o')} ::
      Within(f, e, o) && Within(g, e', o') ==> Within(h, e + e', o + o')
  {
    h := Fe(f.l0 - g.l0, f.l1 - g.l1, f.l2 - g.l2, f.l3 - g.l3, f.l4 - g.l4, f.l5 - g.l5, f.l6 - g.l6, f.l7 - g.l7,
      f.l8 - g.l8, f.l9 - g.l9);
  }

  method FeNeg(f: Fe) returns (h: Fe)
    requires Addable(f)
    ensures Val(h) == -Val(f)
    ensures forall e: int, o: int {:trigger Within(f, e, o)} :: Within(f, e, o) ==> Within(h, e, o)
  {
    h := Fe(-f.l0, -f.l1, -f.l2, -f.l3, -f.l4, -f.l5, -f.l6, -f.l7, -f.l8, -f.l9);
  }

  /** f becomes g when b is 1 and stays f when b is 0, without branching on b. */
  method FeCmov(f: Fe, g: Fe, b: int) returns (h: Fe)
    requires b == 0 || b == 1
    ensures h == if b == 1 then g else f
  {
    h := Fe(Choose(f.l0, g.l0, b), Choose(f.l1, g.l1, b), Choose(f.l2, g.l2, b), Choose(f.l3, g.l3, b),
      Choose(f.l4, g.l4, b),
         Choose(f.l5, g.l5, b), Choose(f.l6, g.l6, b), Choose(f.l7, g.l7, b), Choose(f.l8, g.l8, b),
           Choose(f.l9, g.l9, b));
  }
}
