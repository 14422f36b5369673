/** Field elements as 32-byte little-endian strings (fe.c). */
module FieldBytes {
  import opened Words
  import opened Bytes
  import opened Modular
  import opened Radix
  import opened Field

  const TWO230 := 0x4000_0000_0000_0000_0000_0000_0000_0000_0000_0000_0000_0000_0000_0000_00
  const TWO231 := 0x80_0000_0000_0000_0000_0000_0000_0000_0000_0000_0000_0000_0000_0000_0000

  // ---- reading -------------------------------------------------------------------------

  method FeFromBytes(s: seq<byte>) returns (h: Fe)
    requires |s| == 32
    ensures Tight(h)
    ensures Cong(Val(h), LE(s) % TWO255)
  {
    hide Val, Cong, Round26, Round25, Load3, Load4, And, LE;
    var h0: int := Load4(s);
    var h1 := Load3(s[4..]) * 0x40;
    var h2 := Load3(s[7..]) * 0x20;
    var h3 := Load3(s[10..]) * 0x8;
    var h4 := Load3(s[13..]) * 0x4;
    var h5: int := Load4(s[16..]);
    var h6 := Load3(s[20..]) * 0x80;
    var h7 := Load3(s[23..]) * 0x20;
    var h8 := Load3(s[26..]) * 0x10;
    var h9 := And(Load3(s[29..]), 8388607) * 0x4;
    ghost var w := Fe(h0, h1, h2, h3, h4, h5, h6, h7, h8, h9);
    LoadsValue(s, w);
    Mask23(Load3(s[29..]));

    var carry9 := Round25(h9); h0 := h0 + 19 * carry9; h9 := h9 - carry9 * 0x200_0000;
    var carry1 := Round25(h1); h2 := h2 + carry1; h1 := h1 - carry1 * 0x200_0000;
    var carry3 := Round25(h3); h4 := h4 + carry3; h3 := h3 - carry3 * 0x200_0000;
    var carry5 := Round25(h5); h6 := h6 + carry5; h5 := h5 - carry5 * 0x200_0000;
    var carry7 := Round25(h7); h8 := h8 + carry7; h7 := h7 - carry7 * 0x200_0000;
    ghost var m := Fe(h0, h1, h2, h3, h4, h5, h6, h7, h8, h9);
    OddCarries(w, m, carry1, carry3, carry5, carry7, carry9);

    var carry0 := Round26(h0); h1 := h1 + carry0; h0 := h0 - carry0 * 0x400_0000;
    var carry2 := Round26(h2); h3 := h3 + carry2; h2 := h2 - carry2 * 0x400_0000;
    var carry4 := Round26(h4); h5 := h5 + carry4; h4 := h4 - carry4 * 0x400_0000;
    var carry6 := Round26(h6); h7 := h7 + carry6; h6 := h6 - carry6 * 0x400_0000;
    var carry8 := Round26(h8); h9 := h9 + carry8; h8 := h8 - carry8 * 0x400_0000;
    h := Fe(h0, h1, h2, h3, h4, h5, h6, h7, h8, h9);
    EvenCarries(m, h, carry0, carry2, carry4, carry6, carry8);
    CongTrans(Val(h), Val(m), Val(w));
  }

  lemma Mask23(x: nat)
    requires x < 0x100_0000
    ensures And(x, 8388607) == x % 0x80_0000
  {
    assert Pow2(23) == 0x80_0000 by { Pow2Small(); Pow2Add(16, 7); }
    AndMask(x, 23);
  }

  /** The ten loads split the string at bits 32, 56, 80, 104, 128, 160, 184, 208 and 232; the
    * mask drops bit 255. */
  lemma LoadsValue(s: seq<byte>, w: Fe)
    requires |s| == 32
    requires w == Fe(Load4(s), Load3(s[4..]) * 0x40, Load3(s[7..]) * 0x20, Load3(s[10..]) * 0x8,
      Load3(s[13..]) * 0x4, Load4(s[16..]), Load3(s[20..]) * 0x80, Load3(s[23..]) * 0x20,
      Load3(s[26..]) * 0x10, And(Load3(s[29..]), 8388607) * 0x4)
    ensures Val(w) == LE(s) % TWO255
  {
    hide LE, Load3, Load4, And, Val;
    LE4(s);
    Next3(s, 4);
    Next3(s, 7);
    Next3(s, 10);
    Next3(s, 13);
    Next4(s, 16);
    Next3(s, 20);
    Next3(s, 23);
    Next3(s, 26);
    Next3(s, 29);
    Empty(s[32..]);
    Mask23(Load3(s[29..]));
    var top, rest := Load3(s[29..]) / 0x80_0000, Load3(s[29..]) % 0x80_0000;
    var l := LE(s[20..]);
    LoadsHigh(Load3(s[20..]), Load3(s[23..]), Load3(s[26..]), rest, top, l);
    LoadsLow(Load4(s), Load3(s[4..]), Load3(s[7..]), Load3(s[10..]), Load3(s[13..]), Load4(s[16..]), w,
      l - 0x80_0000_0000_0000_0000_0000_00 * top);
    ModTop(LE(s), Val(w), top);
  }

  lemma ModTop(x: int, v: int, top: int)
    requires x == v + TWO255 * top && 0 <= v < TWO255
    ensures v == x % TWO255
  {
  }

  lemma LoadsHigh(x6: nat, x7: nat, x8: nat, x9: nat, top: nat, l: int)
    requires x6 < 0x100_0000 && x7 < 0x100_0000 && x8 < 0x100_0000 && x9 < 0x80_0000
    requires l == x6 + 0x100_0000 * (x7 + 0x100_0000 * (x8 + 0x100_0000 * (x9 + 0x80_0000 * top)))
    ensures l == x6 + 0x100_0000 * x7 + 0x1_0000_0000_0000 * x8 + 0x100_0000_0000_0000_0000 * x9
      + 0x80_0000_0000_0000_0000_0000_00 * top
    ensures 0 <= l - 0x80_0000_0000_0000_0000_0000_00 * top < 0x80_0000_0000_0000_0000_0000_00
  {
  }

  lemma LoadsLow(x0: nat, x1: nat, x2: nat, x3: nat, x4: nat, x5: nat, w: Fe, h: int)
    requires x0 < 0x1_0000_0000 && x1 < 0x100_0000 && x2 < 0x100_0000 && x3 < 0x100_0000 && x4 < 0x100_0000
      && x5 < 0x1_0000_0000
    requires w.l0 == x0 && w.l1 == 0x40 * x1 && w.l2 == 0x20 * x2 && w.l3 == 0x8 * x3 && w.l4 == 0x4 * x4 && w.l5 == x5
    requires 0x80 * h == w.l6 + 0x400_0000 * w.l7 + 0x8_0000_0000_0000 * w.l8 + 0x2000_0000_0000_0000_0000 * w.l9
    requires 0 <= h < 0x80_0000_0000_0000_0000_0000_00
    ensures Val(w) == x0 + 0x1_0000_0000 * (x1 + 0x100_0000 * (x2
      + 0x100_0000 * (x3 + 0x100_0000 * (x4 + 0x100_0000 * (x5 + 0x1_0000_0000 * h)))))
    ensures 0 <= Val(w) < TWO255
  {
  }

  lemma Empty(s: seq<byte>)
    requires |s| == 0
    ensures LE(s) == 0
  {
  }

  lemma Next3(s: seq<byte>, i: nat)
    requires i + 3 <= |s|
    ensures LE(s[i..]) == Load3(s[i..]) + 0x100_0000 * LE(s[i + 3..])
  {
    LE3(s[i..]);
    assert s[i..][3..] == s[i + 3..];
  }

  lemma Next4(s: seq<byte>, i: nat)
    requires i + 4 <= |s|
    ensures LE(s[i..]) == Load4(s[i..]) + 0x1_0000_0000 * LE(s[i + 4..])
  {
    LE4(s[i..]);
    assert s[i..][4..] == s[i + 4..];
  }

  lemma OddCarries(w: Fe, m: Fe, c1: int, c3: int, c5: int, c7: int, c9: int)
    requires m == Fe(w.l0 + 19 * c9, w.l1 - 0x200_0000 * c1, w.l2 + c1, w.l3 - 0x200_0000 * c3, w.l4 + c3,
      w.l5 - 0x200_0000 * c5, w.l6 + c5, w.l7 - 0x200_0000 * c7, w.l8 + c7, w.l9 - 0x200_0000 * c9)
    ensures Cong(Val(m), Val(w))
  {
    CongIntro(Val(m), Val(w), -c9);
  }

  lemma EvenCarries(m: Fe, h: Fe, c0: int, c2: int, c4: int, c6: int, c8: int)
    requires h == Fe(m.l0 - 0x400_0000 * c0, m.l1 + c0, m.l2 - 0x400_0000 * c2, m.l3 + c2, m.l4 - 0x400_0000 * c4,
      m.l5 + c4, m.l6 - 0x400_0000 * c6, m.l7 + c6, m.l8 - 0x400_0000 * c8, m.l9 + c8)
    ensures Cong(Val(h), Val(m))
  {
    CongIntro(Val(h), Val(m), 0);
  }

  // ---- writing -------------------------------------------------------------------------

  /** x >> 26. */
  function Floor26(x: int): (q: int)
    requires I32(x)
    ensures 0 <= x - 0x400_0000 * q < 0x400_0000
    ensures -0x800_0000 <= x < 0x800_0000 ==> -2 <= q < 2
  {
    x / 0x400_0000
  }

  /** x >> 25. */
  function Floor25(x: int): (q: int)
    requires I32(x)
    ensures 0 <= x - 0x200_0000 * q < 0x200_0000
    ensures -0x400_0000 <= x < 0x400_0000 ==> -2 <= q < 2
  {
    x / 0x200_0000
  }

  /** The limbs left by a chain of floor carries: 26, 25, 26, 25, ... bits each. */
  ghost predicate Reduced(h: Fe) {
    && 0 <= h.l0 < 0x400_0000 && 0 <= h.l1 < 0x200_0000 && 0 <= h.l2 < 0x400_0000 && 0 <= h.l3 < 0x200_0000
    && 0 <= h.l4 < 0x400_0000 && 0 <= h.l5 < 0x200_0000 && 0 <= h.l6 < 0x400_0000 && 0 <= h.l7 < 0x200_0000
    && 0 <= h.l8 < 0x400_0000 && 0 <= h.l9 < 0x200_0000
  }

  /** The quotient by p: an estimate from the top limb, carried up the chain. */
  method Quotient(h: Fe) returns (q: int)
    requires Loose(h)
    ensures q == Val(h) / P && -2 <= q < 2
  {
    hide Val, Floor26, Floor25;
    assert I32(19 * h.l9 + 0x100_0000);
    q := (19 * h.l9 + 0x100_0000) / 0x200_0000;
    ghost var q0 := q;
    var q1 := Floor26(h.l0 + q);
    var q2 := Floor25(h.l1 + q1);
    var q3 := Floor26(h.l2 + q2);
    var q4 := Floor25(h.l3 + q3);
    var q5 := Floor26(h.l4 + q4);
    var q6 := Floor25(h.l5 + q5);
    var q7 := Floor26(h.l6 + q6);
    var q8 := Floor25(h.l7 + q7);
    var q9 := Floor26(h.l8 + q8);
    q := Floor25(h.l9 + q9);
    ghost var e := Fe(h.l0 + q0 - 0x400_0000 * q1, h.l1 + q1 - 0x200_0000 * q2, h.l2 + q2 - 0x400_0000 * q3,
            h.l3 + q3 - 0x200_0000 * q4, h.l4 + q4 - 0x400_0000 * q5, h.l5 + q5 - 0x200_0000 * q6,
            h.l6 + q6 - 0x400_0000 * q7, h.l7 + q7 - 0x200_0000 * q8, h.l8 + q8 - 0x400_0000 * q9,
            h.l9 + q9 - 0x200_0000 * q);
    FloorChain(h, q0, e, q1, q2, q3, q4, q5, q6, q7, q8, q9, q);
    QuotientEstimate(h, q0, q, Val(e));
  }

  /** 19 q enters at the bottom and the carry out of the top is dropped: h - q p remains. */
  method Subtract(h: Fe, q: int) returns (r: Fe)
    requires Loose(h) && q == Val(h) / P && -2 <= q < 2
    ensures Reduced(r) && Val(r) == Val(h) % P
  {
    hide Val, Floor26, Floor25;
    var Fe(h0, h1, h2, h3, h4, h5, h6, h7, h8, h9) := h;
    h0 := h0 + 19 * q;
    var carry0 := Floor26(h0); h1 := h1 + carry0; h0 := h0 - carry0 * 0x400_0000;
    var carry1 := Floor25(h1); h2 := h2 + carry1; h1 := h1 - carry1 * 0x200_0000;
    var carry2 := Floor26(h2); h3 := h3 + carry2; h2 := h2 - carry2 * 0x400_0000;
    var carry3 := Floor25(h3); h4 := h4 + carry3; h3 := h3 - carry3 * 0x200_0000;
    var carry4 := Floor26(h4); h5 := h5 + carry4; h4 := h4 - carry4 * 0x400_0000;
    var carry5 := Floor25(h5); h6 := h6 + carry5; h5 := h5 - carry5 * 0x200_0000;
    var carry6 := Floor26(h6); h7 := h7 + carry6; h6 := h6 - carry6 * 0x400_0000;
    var carry7 := Floor25(h7); h8 := h8 + carry7; h7 := h7 - carry7 * 0x200_0000;
    var carry8 := Floor26(h8); h9 := h9 + carry8; h8 := h8 - carry8 * 0x400_0000;
    var carry9 := Floor25(h9); h9 := h9 - carry9 * 0x200_0000;
    r := Fe(h0, h1, h2, h3, h4, h5, h6, h7, h8, h9);
    FloorChain(h, 19 * q, r, carry0, carry1, carry2, carry3, carry4, carry5, carry6, carry7, carry8, carry9);
    Remainder(Val(h), q, Val(r), carry9);
  }

  method FeToBytes(h: Fe) returns (s: seq<byte>)
    requires Loose(h)
    ensures |s| == 32
    ensures LE(s) == Val(h) % P
  {
    hide Val, LE, Pack;
    var q := Quotient(h);
    var r := Subtract(h, q);
    s := Pack(r);
  }

  /** A chain of floor carries into which t enters at the bottom and top leaves above. */
  lemma FloorChain(h: Fe, t: int, r: Fe, c0: int, c1: int, c2: int, c3: int, c4: int, c5: int, c6: int, c7: int,
    c8: int, top: int)
    requires r == Fe(h.l0 + t - 0x400_0000 * c0, h.l1 + c0 - 0x200_0000 * c1, h.l2 + c1 - 0x400_0000 * c2,
      h.l3 + c2 - 0x200_0000 * c3, h.l4 + c3 - 0x400_0000 * c4, h.l5 + c4 - 0x200_0000 * c5,
      h.l6 + c5 - 0x400_0000 * c6, h.l7 + c6 - 0x200_0000 * c7, h.l8 + c7 - 0x400_0000 * c8,
      h.l9 + c8 - 0x200_0000 * top)
    requires Reduced(r)
    ensures Val(h) + t == Val(r) + TWO255 * top
    ensures 0 <= Val(r) < TWO255
  {
  }

  /** The claim in the source's comment: adding 19 h9 / 2^25, rounded, makes the quotient by
    * 2^255 the quotient by p. */
  lemma QuotientEstimate(h: Fe, q0: int, q: int, r: int)
    requires Loose(h)
    requires q0 == (19 * h.l9 + 0x100_0000) / 0x200_0000
    requires Val(h) + q0 == r + TWO255 * q && 0 <= r < TWO255
    ensures q == Val(h) / P
  {
    var v := Val(h);
    TopLimb(h);
    Estimate(v, h.l9, q0, v / P, v % P);
    QuotientUnique(v + q0, q, r, v / P, v % P + q0 - 19 * (v / P));
  }

  lemma TopLimb(h: Fe)
    requires Loose(h)
    ensures -TWO231 <= Val(h) - TWO230 * h.l9 <= TWO231
  {
  }

  lemma Estimate(v: int, h9: int, q0: int, q: int, r: int)
    requires -LOOSE_O <= h9 <= LOOSE_O
    requires var d := v - TWO230 * h9;
      -TWO231 <= d <= TWO231
    requires q0 == (19 * h9 + 0x100_0000) / 0x200_0000
    requires v == P * q + r && 0 <= r < P
    ensures 0 <= q0 - 19 * q <= 19
  {
  }

  lemma QuotientUnique(x: int, q: int, r: int, q': int, r': int)
    requires x == r + TWO255 * q && 0 <= r < TWO255
    requires x == r' + TWO255 * q' && 0 <= r' < TWO255
    ensures q == q'
  {
  }

  lemma Remainder(v: int, q: int, r: int, top: int)
    requires q == v / P
    requires v + 19 * q == r + TWO255 * top && 0 <= r < TWO255
    ensures r == v % P
  {
  }

  /** The thirty-two output bytes. */
  function Pack(h: Fe): (s: seq<byte>)
    requires Reduced(h)
    ensures |s| == 32 && LE(s) == Val(h)
  {
    hide Val, LE, Pow2, PackLow, PackHigh;
    Pow2Literals();
    LEJoin(PackLow(h), PackHigh(h));
    SplitAt128(h);
    PackLow(h) + PackHigh(h)
  }

  function Pack4(h: Fe): (s: seq<byte>)
    requires Reduced(h)
    ensures |s| == 3 && LE(s) == h.l4 / 0x4
  {
    Last3(h.l4 / 0x4)
  }

  function Pack3(h: Fe): (s: seq<byte>)
    requires Reduced(h)
    ensures |s| == 6 && LE(s) == h.l3 / 0x8 + 0x40_0000 * h.l4
  {
    hide LE, Run3, Pack4;
    var run := Run3(h.l3 / 0x8, h.l4, 64);
    RunJoin(run, Pack4(h), 0x1_0000, h.l3 / 0x8, h.l4, 64, 0);
    run + Pack4(h)
  }

  function Pack2(h: Fe): (s: seq<byte>)
    requires Reduced(h)
    ensures |s| == 9 && LE(s) == h.l2 / 0x20 + 0x20_0000 * h.l3 + 0x4000_0000_0000 * h.l4
  {
    hide LE, Run3, Pack3;
    var run := Run3(h.l2 / 0x20, h.l3, 32);
    RunJoin(run, Pack3(h), 0x1_0000, h.l2 / 0x20, h.l3, 32, 0x40_0000 * h.l4);
    run + Pack3(h)
  }

  function Pack1(h: Fe): (s: seq<byte>)
    requires Reduced(h)
    ensures |s| == 12 && LE(s) == h.l1 / 0x40 + 0x8_0000 * h.l2 + 0x2000_0000_0000 * h.l3
      + 0x40_0000_0000_0000_0000 * h.l4
  {
    hide LE, Run3, Pack2;
    var run := Run3(h.l1 / 0x40, h.l2, 8);
    RunJoin(run, Pack2(h), 0x1_0000, h.l1 / 0x40, h.l2, 8, 0x20_0000 * h.l3 + 0x4000_0000_0000 * h.l4);
    run + Pack2(h)
  }

  function PackLow(h: Fe): (s: seq<byte>)
    requires Reduced(h)
    ensures |s| == 16 && LE(s) == h.l0 + 0x400_0000 * h.l1 + 0x8_0000_0000_0000 * h.l2
      + 0x2000_0000_0000_0000_0000 * h.l3 + 0x40_0000_0000_0000_0000_0000_0000 * h.l4
  {
    hide LE, Run4, Pack1;
    var run := Run4(h.l0, h.l1, 4);
    RunJoin(run, Pack1(h), 0x100_0000, h.l0, h.l1, 4, 0x8_0000 * h.l2 + 0x2000_0000_0000 * h.l3
      + 0x40_0000_0000_0000_0000 * h.l4);
    run + Pack1(h)
  }

  function Pack9(h: Fe): (s: seq<byte>)
    requires Reduced(h)
    ensures |s| == 3 && LE(s) == h.l9 / 0x4
  {
    Last3(h.l9 / 0x4)
  }

  function Pack8(h: Fe): (s: seq<byte>)
    requires Reduced(h)
    ensures |s| == 6 && LE(s) == h.l8 / 0x10 + 0x40_0000 * h.l9
  {
    hide LE, Run3, Pack9;
    var run := Run3(h.l8 / 0x10, h.l9, 64);
    RunJoin(run, Pack9(h), 0x1_0000, h.l8 / 0x10, h.l9, 64, 0);
    run + Pack9(h)
  }

  function Pack7(h: Fe): (s: seq<byte>)
    requires Reduced(h)
    ensures |s| == 9 && LE(s) == h.l7 / 0x20 + 0x10_0000 * h.l8 + 0x4000_0000_0000 * h.l9
  {
    hide LE, Run3, Pack8;
    var run := Run3(h.l7 / 0x20, h.l8, 16);
    RunJoin(run, Pack8(h), 0x1_0000, h.l7 / 0x20, h.l8, 16, 0x40_0000 * h.l9);
    run + Pack8(h)
  }

  function Pack6(h: Fe): (s: seq<byte>)
    requires Reduced(h)
    ensures |s| == 12 && LE(s) == h.l6 / 0x80 + 0x8_0000 * h.l7 + 0x1000_0000_0000 * h.l8
      + 0x40_0000_0000_0000_0000 * h.l9
  {
    hide LE, Run3, Pack7;
    var run := Run3(h.l6 / 0x80, h.l7, 8);
    RunJoin(run, Pack7(h), 0x1_0000, h.l6 / 0x80, h.l7, 8, 0x10_0000 * h.l8 + 0x4000_0000_0000 * h.l9);
    run + Pack7(h)
  }

  function PackHigh(h: Fe): (s: seq<byte>)
    requires Reduced(h)
    ensures |s| == 16 && LE(s) == h.l5 + 0x200_0000 * h.l6 + 0x8_0000_0000_0000 * h.l7
      + 0x1000_0000_0000_0000_0000 * h.l8 + 0x40_0000_0000_0000_0000_0000_0000 * h.l9
  {
    hide LE, Run4, Pack6;
    var run := Run4(h.l5, h.l6, 2);
    RunJoin(run, Pack6(h), 0x100_0000, h.l5, h.l6, 2, 0x8_0000 * h.l7 + 0x1000_0000_0000 * h.l8
      + 0x40_0000_0000_0000_0000 * h.l9);
    run + Pack6(h)
  }

  lemma SplitAt128(r: Fe)
    ensures Val(r) == (r.l0 + 0x4000000 * r.l1 + 0x8000000000000 * r.l2 + 0x20000000000000000000 * r.l3
      + 0x40000000000000000000000000 * r.l4)
      + 0x1_0000_0000_0000_0000_0000_0000_0000_0000 * (r.l5 + 0x2000000 * r.l6 + 0x8000000000000 * r.l7
        + 0x10000000000000000000 * r.l8 + 0x40000000000000000000000000 * r.l9)
  {
  }

  /** Reading and writing back reduces the low 255 bits modulo p: exactly the strings of numbers
    * below p come back as they were. */
  method ReadThenWrite(s: seq<byte>) returns (t: seq<byte>)
    requires |s| == 32
    ensures |t| == 32 && LE(t) == LE(s) % TWO255 % P
    ensures t == s <==> LE(s) < P
  {
    hide Val, Cong, LE;
    var h := FeFromBytes(s);
    t := FeToBytes(h);
    CongSame(Val(h), LE(s) % TWO255);
    LEBound(s);
    if LE(t) == LE(s) {
      LEInjective(s, t);
    }
  }

  // ---- sign and zero tests -------------------------------------------------------------

  method FeIsNegative(f: Fe) returns (r: int)
    requires Loose(f)
    ensures r == Val(f) % P % 2
  {
    hide Val;
    var s := FeToBytes(f);
    LowBit(s);
    r := s[0] % 2;
  }

  lemma LowBit(s: seq<byte>)
    requires |s| > 0
    ensures LE(s) % 2 == s[0] % 2
  {
    var rest := LE(s[1..]);
    assert LE(s) == s[0] as int + 2 * (128 * rest);
    hide LE;
    EvenPart(s[0], 128 * rest);
  }

  lemma EvenPart(x: int, y: int)
    ensures (x + 2 * y) % 2 == x % 2
  {
  }

  method FeIsNonzero(f: Fe) returns (nonzero: bool)
    requires Loose(f)
    ensures nonzero == (Val(f) % P != 0)
  {
    hide LE, Or, Val;
    var s := FeToBytes(f);
    var r: nat := s[0];
    for i := 1 to 32
      invariant r == 0 <==> forall k :: 0 <= k < i ==> s[k] == 0
    {
      OrZero(r, s[i]);
      r := Or(r, s[i]);
    }
    ZeroBytes(s);
    nonzero := r != 0;
  }

  lemma {:induction false} ZeroBytes(s: seq<byte>)
    ensures LE(s) == 0 <==> forall k :: 0 <= k < |s| ==> s[k] == 0
  {
    if s == [] {
    } else {
      ZeroBytes(s[1..]);
      assert forall k :: 1 <= k < |s| ==> s[k] == s[1..][k - 1];
    }
  }
}
