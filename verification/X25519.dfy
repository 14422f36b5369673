/** The X25519 function (curve25519-donna.c) against the ladder of section 5 of RFC 7748. */
module X25519 {
  import opened Words
  import opened Bytes
  import opened Bits
  import opened Modular
  import opened Radix
  import opened Limbs25
  import opened DonnaField
  import opened DonnaBytes
  import opened DonnaContract
  import opened DonnaPowers

  // ---- the reference ladder ------------------------------------------------------------

  // Section 5 of RFC 7748, on integers of which only the residues modulo p matter.

  datatype Ladder = Ladder(x2: int, z2: int, x3: int, z3: int)

  const A24 := 121665

  function Step(u: int, s: Ladder): Ladder {
    var a, b, c, d := s.x2 + s.z2, s.x2 - s.z2, s.x3 + s.z3, s.x3 - s.z3;
    var aa, bb := a * a, b * b;
    var e := aa - bb;
    var da, cb := d * a, c * b;
    Ladder(aa * bb, e * (aa + A24 * e), (da + cb) * (da + cb), u * ((da - cb) * (da - cb)))
  }

  function CSwap(swap: bool, s: Ladder): Ladder {
    if swap then Ladder(s.x3, s.z3, s.x2, s.z2) else s
  }

  /** Bit t of the scalar. */
  function BitOf(k: nat, t: nat): bool { k / Pow2(t) % 2 == 1 }

  /** The state after the top n of 256 bits, with a swap around every step. */
  function Run(k: nat, u: int, n: nat): Ladder
    requires n <= 256
  {
    if n == 0 then Ladder(1, 0, u, 1)
    else
      var bit := BitOf(k, 256 - n);
      CSwap(bit, Step(u, CSwap(bit, Run(k, u, n - 1))))
  }

  function Affine(s: Ladder): int { s.x2 * Pow(s.z2, P - 2) % P }

  // ---- one step ------------------------------------------------------------------------

  /** A limb vector stands for a residue. */
  ghost predicate Stands(f: Fe, v: int) { Reduced(f) && Cong(Val(f), v) }

  lemma ProductStands(h: int, f: int, v: int, g: int, w: int)
    requires Cong(h, f * g) && Cong(f, v) && Cong(g, w)
    ensures Cong(h, v * w)
  {
    hide Cong;
    CongMul(f, v, g, w);
    CongTrans(h, f * g, v * w);
  }

  /** Doubling and differential addition on values. */
  method Monty(x: Fe, z: Fe, xprime: Fe, zprime: Fe, qmqp: Fe, ghost u: int, ghost s: Ladder)
    returns (x2: Fe, z2: Fe, x3: Fe, z3: Fe)
    requires Stands(x, s.x2) && Stands(z, s.z2) && Stands(xprime, s.x3) && Stands(zprime, s.z3) && Stands(qmqp, u)
    ensures var t := Step(u, s); Stands(x2, t.x2) && Stands(z2, t.z2) && Stands(x3, t.x3) && Stands(z3, t.z3)
  {
    hide Val, Cong, Reduced, Short;
    ReducedIsShort(qmqp);
    var a := FSum(x, z);
    var b := FDifference(z, x);
    CongAdd(Val(x), s.x2, Val(z), s.z2);
    var c := FSum(xprime, zprime);
    var d := FDifference(zprime, xprime);
    CongAdd(Val(xprime), s.x3, Val(zprime), s.z3);
    ghost var A, B, C, D := s.x2 + s.z2, s.x2 - s.z2, s.x3 + s.z3, s.x3 - s.z3;
    var xxprime := FMul(c, b);
    ProductStands(Val(xxprime), Val(c), C, Val(b), B);
    var zzprime := FMul(a, d);
    ProductStands(Val(zzprime), Val(a), A, Val(d), D);
    ghost var CB, DA := C * B, D * A;
    assert A * D == DA;
    var sum := FSum(xxprime, zzprime);
    var difference := FDifference(zzprime, xxprime);
    CongAdd(Val(xxprime), CB, Val(zzprime), DA);
    x3 := FSquare(sum);
    ProductStands(Val(x3), Val(sum), CB + DA, Val(sum), CB + DA);
    var zzzprime := FSquare(difference);
    ProductStands(Val(zzzprime), Val(difference), CB - DA, Val(difference), CB - DA);
    ReducedIsShort(zzzprime);
    z3 := FMul(zzzprime, qmqp);
    ProductStands(Val(z3), Val(zzzprime), (CB - DA) * (CB - DA), Val(qmqp), u);
    Symmetric(CB, DA, u);

    var xx := FSquare(a);
    ProductStands(Val(xx), Val(a), A, Val(a), A);
    var zz := FSquare(b);
    ProductStands(Val(zz), Val(b), B, Val(b), B);
    ghost var AA, BB := A * A, B * B;
    ReducedIsShort(xx);
    ReducedIsShort(zz);
    x2 := FMul(xx, zz);
    ProductStands(Val(x2), Val(xx), AA, Val(zz), BB);
    var e := FDifference(zz, xx);
    CongAdd(Val(xx), AA, Val(zz), BB);
    ghost var E := AA - BB;
    var zzz := FScale(e);
    CongMulBy(Val(e), E, A24);
    CongTrans(Val(zzz), A24 * Val(e), A24 * E);
    var f := FSum(zzz, xx);
    CongAdd(Val(zzz), A24 * E, Val(xx), AA);
    z2 := FMul(e, f);
    ProductStands(Val(z2), Val(e), E, Val(f), A24 * E + AA);
  }

  lemma Symmetric(cb: int, da: int, u: int)
    ensures (cb + da) * (cb + da) == (da + cb) * (da + cb)
    ensures (cb - da) * (cb - da) * u == u * ((da - cb) * (da - cb))
  {
  }

  /** fmonty: 2Q and Q + Q' from Q, Q' and Q - Q'. The inputs count as destroyed. */
  method FMonty(x2: array<int>, z2: array<int>, x3: array<int>, z3: array<int>,
                x: array<int>, z: array<int>, xprime: array<int>, zprime: array<int>, qmqp: Fe, ghost u: int,
                  ghost s: Ladder)
    requires x2.Length == 19 && z2.Length == 19 && x3.Length == 19 && z3.Length == 19
    requires x.Length == 19 && z.Length == 19 && xprime.Length == 19 && zprime.Length == 19
    requires x2 != z2 && x2 != x3 && x2 != z3 && z2 != x3 && z2 != z3 && x3 != z3
    requires Stands(FeOf(x[..]), s.x2) && Stands(FeOf(z[..]), s.z2) && Stands(FeOf(xprime[..]), s.x3)
      && Stands(FeOf(zprime[..]), s.z3)
    requires Stands(qmqp, u)
    modifies x2, z2, x3, z3, x, z, xprime, zprime
    ensures var t := Step(u, s);
      && Stands(FeOf(x2[..]), t.x2) && Stands(FeOf(z2[..]), t.z2) && Stands(FeOf(x3[..]), t.x3)
        && Stands(FeOf(z3[..]), t.z3)
  {
    hide Stands, Step;
    var a := Read10(x);
    var b := Read10(z);
    var c := Read10(xprime);
    var d := Read10(zprime);
    var r2, w2, r3, w3 := Monty(a, b, c, d, qmqp, u, s);
    Write10(x2, r2);
    Write10(z2, w2);
    Write10(x3, r3);
    Write10(z3, w3);
  }

  method Read10(a: array<int>) returns (f: Fe)
    requires a.Length >= 10
    ensures f == FeOf(a[..])
  {
    f := Fe(a[0], a[1], a[2], a[3], a[4], a[5], a[6], a[7], a[8], a[9]);
  }

  // ---- conditional swaps ---------------------------------------------------------------

  /** swap & (a ^ b), or-ed exclusively into both. */
  lemma SwapLimbs(a: int, b: int, swap: int)
    requires swap == 0 || swap == -1
    ensures var x := SAnd(swap, Xor(a, b));
      Xor(a, x) == (if swap == -1 then b else a) && Xor(b, x) == (if swap == -1 then a else b)
  {
    hide Xor, SAnd;
    XorCancels(a, b);
    AndAllOnes(Xor(a, b));
    AndZero(Xor(a, b));
    XorZero(a);
    XorZero(b);
  }

  /** Limbs below INT32_MAX in magnitude, up to one. */
  ghost predicate Narrow(f: Fe) { Within(f, 0x7fff_ffff, 0x7fff_ffff) }

  lemma NarrowLimbs(s: seq<int>)
    requires |s| >= 10 && Narrow(FeOf(s))
    ensures forall j :: 0 <= j < 10 ==> -0x7fff_ffff <= s[j] <= 0x7fff_ffff
  {
  }

  lemma StandsNarrow(f: Fe, v: int)
    requires Stands(f, v)
    ensures Narrow(f)
  {
    hide Cong;
  }

  /** Exchanges the first ten limbs of two arrays when iswap is 1. */
  method SwapConditional(a: array<int>, b: array<int>, iswap: int)
    requires a.Length == 19 && b.Length == 19 && a != b && (iswap == 0 || iswap == 1)
    requires Narrow(FeOf(a[..])) && Narrow(FeOf(b[..]))
    modifies a, b
    ensures FeOf(a[..]) == (if iswap == 1 then old(FeOf(b[..])) else old(FeOf(a[..])))
    ensures FeOf(b[..]) == (if iswap == 1 then old(FeOf(a[..])) else old(FeOf(b[..])))
  {
    hide Xor, SAnd, S32, Narrow;
    ghost var s, t := a[..], b[..];
    NarrowLimbs(s);
    NarrowLimbs(t);
    var swap := -iswap;
    for i := 0 to 10
      invariant forall j :: 0 <= j < 19 ==> a[j] == if j < i && iswap == 1 then t[j] else s[j]
      invariant forall j :: 0 <= j < 19 ==> b[j] == if j < i && iswap == 1 then s[j] else t[j]
    {
      SwapLimbs(a[i], b[i], swap);
      var x := SAnd(swap, Xor(S32(a[i]), S32(b[i])));
      a[i] := Xor(S32(a[i]), x);
      b[i] := Xor(S32(b[i]), x);
    }
  }

  /** A swap of two coordinates of the ladder. */
  method SwapStanding(a: array<int>, b: array<int>, iswap: int, ghost v: int, ghost w: int)
    requires a.Length == 19 && b.Length == 19 && a != b && (iswap == 0 || iswap == 1)
    requires Stands(FeOf(a[..]), v) && Stands(FeOf(b[..]), w)
    modifies a, b
    ensures Stands(FeOf(a[..]), if iswap == 1 then w else v) && Stands(FeOf(b[..]), if iswap == 1 then v else w)
  {
    hide Stands, Narrow;
    StandsNarrow(FeOf(a[..]), v);
    StandsNarrow(FeOf(b[..]), w);
    SwapConditional(a, b, iswap);
  }

  // ---- the scalar loop -----------------------------------------------------------------

  /** Bit j from the top of a byte that is shifted left in eight bits. */
  lemma ShiftedByte(v: nat, j: nat)
    requires v < 256 && j < 8
    ensures 0 <= v * Pow2(j) && v * Pow2(j) % 256 / 128 == v / Pow2(7 - j) % 2
    ensures v * Pow2(j) % 256 * 2 % 256 == v * Pow2(j + 1) % 256
  {
    hide Pow2;
    var m, h := Pow2(j), Pow2(7 - j);
    Pow2Add(j, 8 - j);
    Pow2Add(1, 7 - j);
    Pow2Add(j, 7 - j);
    Pow2Add(1, j);
    Pow2Small();
    NonNegativeProduct(v, m);
    ShiftedTop(v, m, h);
    ShiftAgain(v * m);
    assert v * Pow2(j + 1) == v * m * 2;
  }

  lemma ShiftedTop(v: nat, m: nat, h: nat)
    requires m > 0 && h > 0 && m * h == 128
    ensures v * m % 256 / 128 == v / h % 2
  {
    var q, r := v / (2 * h), v % (2 * h);
    TwiceHalf(m, h);
    ModScale(0, v, m, 2 * h, 256);
    NonNegativeProduct(m, r);
    CancelFactor(r, m, h);
    NonNegativeQuotient(v, 2 * h);
    BitAbove(v, q, r, h);
    assert v * m == 0 + m * v;
  }

  lemma TwiceHalf(m: nat, h: nat)
    requires m * h == 128
    ensures m * (2 * h) == 256
  {
  }

  lemma CancelFactor(r: nat, m: nat, h: nat)
    requires m > 0 && h > 0 && m * h == 128
    ensures m * r >= 0 && m * r / 128 == r / h
  {
    NonNegativeProduct(m, r);
    DivModUnique(m * r, m, r, 0);
    DivDiv(m * r, m, h);
  }

  lemma BitAbove(v: nat, q: nat, r: nat, h: nat)
    requires h > 0 && v == 2 * h * q + r && r < 2 * h
    ensures v / h % 2 == r / h
  {
    var b := if r < h then 0 else 1;
    DivModUnique(r, h, b, r - b * h);
    assert v == (2 * q + b) * h + (r - b * h) by { assert 2 * h * q == 2 * q * h; }
    DivModUnique(v, h, 2 * q + b, r - b * h);
  }

  lemma ShiftAgain(z: nat)
    ensures z % 256 * 2 % 256 == z * 2 % 256
  {
    DivAdd(z % 256 * 2, 256, z / 256 * 2);
  }

  /** A bit of a little-endian string is a bit of one of its bytes. */
  lemma ByteBit(n: seq<byte>, i: nat, j: nat)
    requires i < |n| && j < 8
    ensures BitOf(LE(n), 8 * i + j) <==> n[i] / Pow2(j) % 2 == 1
  {
    hide Pow2, LE;
    DropBits(n, i, j);
    assert LE(n[i..]) == n[i] as int + 256 * LE(n[i + 1..]) by { Tail(n, i); }
    LowByteBit(n[i], LE(n[i + 1..]), j);
  }

  lemma Tail(n: seq<byte>, i: nat)
    requires i < |n|
    ensures LE(n[i..]) == n[i] as int + 256 * LE(n[i + 1..])
  {
    assert n[i..][1..] == n[i + 1..];
  }

  lemma LowByteBit(v: nat, rest: nat, j: nat)
    requires v < 256 && j < 8
    ensures (v + 256 * rest) / Pow2(j) % 2 == v / Pow2(j) % 2
  {
    hide Pow2;
    Pow2Add(j, 8 - j);
    Pow2Add(1, 7 - j);
    Pow2Small();
    LoadOrder(Pow2(j), 2, Pow2(7 - j), rest);
    LoadedQuotient(v + 256 * rest, v, Pow2(j), 2, Pow2(7 - j) * rest);
  }

  /** The four arrays hold the ladder state. */
  ghost predicate Holds4(x2: array<int>, z2: array<int>, x3: array<int>, z3: array<int>, s: Ladder)
    requires x2.Length == 19 && z2.Length == 19 && x3.Length == 19 && z3.Length == 19
    reads x2, z2, x3, z3
  {
    Stands(FeOf(x2[..]), s.x2) && Stands(FeOf(z2[..]), s.z2) && Stands(FeOf(x3[..]), s.x3) && Stands(FeOf(z3[..]), s.z3)
  }

  /** The body of the inner loop: swap, step into the other four arrays, swap back. */
  method LadderStep(nqx: array<int>, nqz: array<int>, nqpqx: array<int>, nqpqz: array<int>,
                    nqx2: array<int>, nqz2: array<int>, nqpqx2: array<int>, nqpqz2: array<int>,
                    q: Fe, bit: int, ghost u: int, ghost s: Ladder)
    requires nqx.Length == 19 && nqz.Length == 19 && nqpqx.Length == 19 && nqpqz.Length == 19
    requires nqx2.Length == 19 && nqz2.Length == 19 && nqpqx2.Length == 19 && nqpqz2.Length == 19
    requires nqx != nqz && nqx != nqpqx && nqx != nqpqz && nqz != nqpqx && nqz != nqpqz && nqpqx != nqpqz
    requires nqx2 != nqz2 && nqx2 != nqpqx2 && nqx2 != nqpqz2 && nqz2 != nqpqx2 && nqz2 != nqpqz2 && nqpqx2 != nqpqz2
    requires Holds4(nqx, nqz, nqpqx, nqpqz, s) && Stands(q, u) && (bit == 0 || bit == 1)
    modifies nqx, nqz, nqpqx, nqpqz, nqx2, nqz2, nqpqx2, nqpqz2
    ensures Holds4(nqx2, nqz2, nqpqx2, nqpqz2, CSwap(bit == 1, Step(u, CSwap(bit == 1, s))))
  {
    hide Stands, Step;
    SwapStanding(nqx, nqpqx, bit, s.x2, s.x3);
    SwapStanding(nqz, nqpqz, bit, s.z2, s.z3);
    ghost var t := Step(u, CSwap(bit == 1, s));
    FMonty(nqx2, nqz2, nqpqx2, nqpqz2, nqx, nqz, nqpqx, nqpqz, q, u, CSwap(bit == 1, s));
    SwapStanding(nqx2, nqpqx2, bit, t.x2, t.x3);
    SwapStanding(nqz2, nqpqz2, bit, t.z2, t.z3);
  }

  /** The inner loop: the eight bits of a byte, from the top. The two sets of arrays trade places
    * at every bit, so that after eight bits they are back. */
  method LadderByte(a: array<int>, b: array<int>, c: array<int>, d: array<int>,
                    e: array<int>, f: array<int>, g: array<int>, h: array<int>,
                    n: seq<byte>, i: nat, q: Fe, ghost u: int)
    requires a.Length == 19 && b.Length == 19 && c.Length == 19 && d.Length == 19
    requires e.Length == 19 && f.Length == 19 && g.Length == 19 && h.Length == 19
    requires a != b && a != c && a != d && b != c && b != d && c != d
    requires e != f && e != g && e != h && f != g && f != h && g != h
    requires |n| == 32 && i < 32 && Stands(q, u) && Holds4(c, d, a, b, Run(LE(n), u, 8 * i))
    modifies a, b, c, d, e, f, g, h
    ensures Holds4(c, d, a, b, Run(LE(n), u, 8 * i + 8))
  {
    hide Stands, Step, LE, Pow2, Run, BitOf, CSwap, Holds4;
    var nqpqx, nqpqz, nqx, nqz := a, b, c, d;
    var nqpqx2, nqpqz2, nqx2, nqz2 := e, f, g, h;
    var byte: int := n[31 - i];
    ghost var v: int := byte;
    assert v * Pow2(0) % 256 == v by { Pow2Small(); }
    for j := 0 to 8
      invariant if j % 2 == 0 then (nqpqx, nqpqz, nqx, nqz, nqpqx2, nqpqz2, nqx2, nqz2) == (a, b, c, d, e, f, g, h)
                else (nqpqx, nqpqz, nqx, nqz, nqpqx2, nqpqz2, nqx2, nqz2) == (e, f, g, h, a, b, c, d)
      invariant byte == v * Pow2(j) % 256
      invariant Holds4(nqx, nqz, nqpqx, nqpqz, Run(LE(n), u, 8 * i + j))
    {
      var bit := byte / 128;
      ShiftedByte(v, j);
      ByteBit(n, 31 - i, 7 - j);
      NextBit(LE(n), u, 8 * i + j, 8 * (31 - i) + (7 - j));
      LadderStep(nqx, nqz, nqpqx, nqpqz, nqx2, nqz2, nqpqx2, nqpqz2, q, bit, u, Run(LE(n), u, 8 * i + j));
      nqx, nqx2 := nqx2, nqx;
      nqz, nqz2 := nqz2, nqz;
      nqpqx, nqpqx2 := nqpqx2, nqpqx;
      nqpqz, nqpqz2 := nqpqz2, nqpqz;
      byte := byte * 2 % 256;
    }
  }

  /** n Q, as a fraction, from a 32-byte scalar. */
  method CMult(n: seq<byte>, q: Fe, ghost u: int) returns (resultx: Fe, resultz: Fe)
    requires |n| == 32 && Stands(q, u)
    ensures var s := Run(LE(n), u, 256); Stands(resultx, s.x2) && Stands(resultz, s.z2)
  {
    hide Stands, LE, Pow2, Run;
    StartStands();
    var a := NewLimbs(q);
    var b := NewLimbs(ONE);
    var c := NewLimbs(ONE);
    var d := NewLimbs(ZERO);
    var e := NewLimbs(ZERO);
    var f := NewLimbs(ONE);
    var g := NewLimbs(ZERO);
    var h := NewLimbs(ONE);
    NoBits(LE(n), u);
    for i := 0 to 32
      invariant Holds4(c, d, a, b, Run(LE(n), u, 8 * i))
    {
      LadderByte(a, b, c, d, e, f, g, h, n, i, q, u);
    }
    resultx := Read10(c);
    resultz := Read10(d);
  }

  method NewLimbs(f: Fe) returns (a: array<int>)
    ensures fresh(a) && a.Length == 19 && FeOf(a[..]) == f
  {
    a := new int[19];
    Write10(a, f);
  }

  lemma StartStands()
    ensures Stands(ONE, 1) && Stands(ZERO, 0)
  {
    ZeroValue();
    OneValue();
    hide Val, Cong;
    CongRefl(1);
    CongRefl(0);
  }

  lemma NoBits(k: nat, u: int)
    ensures Run(k, u, 0) == Ladder(1, 0, u, 1)
  {
  }

  lemma NextBit(k: nat, u: int, n: nat, t: nat)
    requires n < 256 && t == 255 - n
    ensures Run(k, u, n + 1) == CSwap(BitOf(k, t), Step(u, CSwap(BitOf(k, t), Run(k, u, n))))
  {
  }

  // ---- curve25519 ----------------------------------------------------------------------

  /** decodeScalar25519 of RFC 7748: the low three bits and the top bit cleared, bit 254 set. */
  function Clamp(secret: seq<byte>): (e: seq<byte>)
    requires |secret| == 32
    ensures |e| == 32
  {
    hide And, Or;
    ClampedBytes(secret[0], secret[31]);
    secret[0 := And(secret[0], 248)][31 := Or(And(secret[31], 127), 64)]
  }

  lemma ClampedBytes(low: byte, top: byte)
    ensures And(low, 248) == low - low % 8 && And(top, 127) == top % 128
    ensures Or(And(top, 127), 64) == 64 + top % 64
  {
    hide And, Or, Pow2;
    assert Pow2(7) == 128 by { Pow2Small(); }
    HighFive(low);
    AndMask(top, 7);
    OrSixtyFour(top % 128);
    LowSix(top);
  }

  lemma LowSix(x: nat)
    ensures x % 128 % 64 == x % 64
  {
  }

  lemma HighFive(x: nat)
    requires x < 256
    ensures And(x, 248) == x - x % 8
  {
    assert Pow2(5) == 32;
    hide And, Pow2;
    EightTimes(x);
    AndMask(x / 8, 5);
    FiveBits(x, And(x, 248));
  }

  lemma FiveBits(x: nat, v: nat)
    requires x < 256 && v == 8 * (x / 8 % 32)
    ensures v == x - x % 8
  {
  }

  lemma EightTimes(x: nat)
    ensures And(x, 248) == 8 * And(x / 8, 31)
  {
    var x1, x2 := x / 2, x / 4;
    hide And;
    AndDouble(x, 124);
    AndDouble(x1, 62);
    AndDouble(x2, 31);
    assert x1 / 2 == x2 && x2 / 2 == x / 8;
  }

  lemma AndDouble(x: nat, m: nat)
    ensures And(x, 2 * m) == 2 * And(x / 2, m)
  {
  }

  lemma OrSixtyFour(x: nat)
    requires x < 128
    ensures Or(x, 64) == 64 + x % 64
  {
    hide Or, Pow2;
    assert Pow2(6) == 64 by { Pow2Small(); }
    if x < 64 {
      OrDisjoint(x, 1, 6);
    } else {
      OrTop(x - 64, 6);
    }
  }

  lemma {:induction false} OrTop(y: nat, k: nat)
    requires y < Pow2(k)
    ensures Or(Pow2(k) + y, Pow2(k)) == Pow2(k) + y
  {
    if k == 0 {
      assert Or(1, 1) == 1;
    } else {
      OrTop(y / 2, k - 1);
      assert (Pow2(k) + y) / 2 == Pow2(k - 1) + y / 2;
    }
  }

  /** The scalar of RFC 7748 as a number: 2^254 plus the multiple of 8 below the secret's low bits. */
  lemma ClampedValue(secret: seq<byte>)
    requires |secret| == 32
    ensures LE(Clamp(secret)) == TWO254 + (LE(secret) % TWO254 - LE(secret) % 8)
    ensures LE(Clamp(secret)) % 8 == 0 && TWO254 <= LE(Clamp(secret)) < 2 * TWO254
  {
    hide LE, And, Or, Pow2;
    var e := Clamp(secret);
    ClampedBytes(secret[0], secret[31]);
    Ends(secret);
    Ends(e);
    assert e[1..31] == secret[1..31];
    ClampedTotal(secret[0], LE(secret[1..31]), secret[31], LE(secret), LE(e));
  }

  const TWO254 := 0x4000_0000_0000_0000_0000_0000_0000_0000_0000_0000_0000_0000_0000_0000_0000_0000
  const TWO248 := 0x100_0000_0000_0000_0000_0000_0000_0000_0000_0000_0000_0000_0000_0000_0000_0000

  lemma Ends(s: seq<byte>)
    requires |s| == 32
    ensures LE(s) == s[0] as int + 0x100 * LE(s[1..31]) + TWO248 * s[31] as int
    ensures 0x100 * LE(s[1..31]) <= TWO248 - 0x100
  {
    hide Pow2, LE;
    Tail(s, 0);
    assert s[0..] == s && s[1..] == s[1..31] + [s[31]];
    LEJoin(s[1..31], [s[31]]);
    OneByte(s[31]);
    LEBound(s[1..31]);
    Pow2Literals();
    Pow2Small();
    Pow2Add(240, 16);
  }

  lemma ClampedTotal(low: nat, mid: nat, top: nat, v: nat, w: nat)
    requires low < 0x100 && top < 0x100 && 0x100 * mid <= TWO248 - 0x100
    requires v == low + 0x100 * mid + TWO248 * top && w == low - low % 8 + 0x100 * mid + TWO248 * (64 + top % 64)
    ensures w == TWO254 + (v % TWO254 - v % 8) && w % 8 == 0 && TWO254 <= w < 2 * TWO254
  {
    var a, q, t := low + 0x100 * mid, top / 64, top % 64;
    TopPart(v, a, q, t, top);
    LowPart(low, v, low / 8, 32 * mid + TWO248 / 8 * top);
    LowPart(0, w, 0, low / 8 + 32 * mid + TWO248 / 8 * (64 + t));
  }

  lemma TopPart(v: nat, a: nat, q: nat, t: nat, top: nat)
    requires top == 64 * q + t && t < 64 && a < TWO248 && v == a + TWO248 * top
    ensures v % TWO254 == a + TWO248 * t
  {
    DivModUnique(v, TWO254, q, a + TWO248 * t);
  }

  lemma LowPart(low: nat, v: nat, q: nat, r: nat)
    requires q == low / 8 && v == low + 8 * r
    ensures v % 8 == low % 8
  {
  }

  /** mypublic = the u-coordinate of secret times basepoint. */
  method Curve25519(mypublic: array<byte>, secret: seq<byte>, basepoint: seq<byte>) returns (ret: int)
    requires mypublic.Length == 32 && |secret| == 32 && |basepoint| == 32
    modifies mypublic
    ensures ret == 0
    ensures LE(mypublic[..]) == Affine(Run(LE(Clamp(secret)), LE(basepoint) % TWO255, 256))
  {
    hide LE, Run, Val, Cong, Pow, Clamp, Reduced, Short;
    var e := Clamp(secret);
    var bp := FExpand(basepoint);
    ghost var u := LE(basepoint) % TWO255;
    CongRefl(u);
    var x, z := CMult(e, bp, u);
    ghost var s := Run(LE(e), u, 256);
    ReducedIsShort(x);
    ReducedIsShort(z);
    var zmone := CRecip(z);
    ReducedIsShort(zmone);
    z := FMul(x, zmone);
    FContract(mypublic, z);
    QuotientValue(Val(z), Val(x), Val(zmone), s);
    ret := 0;
  }

  lemma QuotientValue(h: int, x: int, r: int, s: Ladder)
    requires Cong(x, s.x2) && Cong(h, x * r)
    requires exists z :: Cong(z, s.z2) && Cong(r, Pow(z, P - 2))
    ensures h % P == Affine(s)
  {
    var z :| Cong(z, s.z2) && Cong(r, Pow(z, P - 2));
    hide Cong, Pow;
    PowCong(z, s.z2, P - 2);
    CongTrans(r, Pow(z, P - 2), Pow(s.z2, P - 2));
    ProductStands(h, x, s.x2, r, Pow(s.z2, P - 2));
    CongSame(h, s.x2 * Pow(s.z2, P - 2));
  }
}
