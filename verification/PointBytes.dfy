/** Point encoding and decoding (ge.c), sections 5.1.2 and 5.1.3 of RFC 8032. */
module PointBytes {
  import opened Bytes
  import opened Bits
  import opened Modular
  import opened Radix
  import opened Field
  import opened FieldBytes
  import opened FieldPowers
  import opened Edwards
  import opened ScalarMultiples
  import opened Points

  // ---- encoding ------------------------------------------------------------------------

  /** 255 bits of y, then the low bit of x. */
  function Encode(p: Point): (s: seq<byte>)
    requires 0 <= p.y < P
    ensures |s| == 32
  {
    ToLE(p.y + TWO255 * (p.x % 2), 32)
  }

  method GeToBytes(h: GeP2, ghost p: Point) returns (s: seq<byte>)
    requires Fermat() && OnCurve(p) && IsP2(h, p)
    ensures s == Encode(p)
  {
    s := AffineBytes(h.X, h.Y, h.Z, p);
  }

  method GeP3ToBytes(h: GeP3, ghost p: Point) returns (s: seq<byte>)
    requires Fermat() && OnCurve(p) && IsP3(h, p)
    ensures s == Encode(p)
  {
    s := AffineBytes(h.X, h.Y, h.Z, p);
  }

  /** The body that ge_tobytes and ge_p3_tobytes share. */
  method AffineBytes(X: Fe, Y: Fe, Z: Fe, ghost p: Point) returns (s: seq<byte>)
    requires Fermat() && OnCurve(p) && IsP2(GeP2(X, Y, Z), p)
    ensures s == Encode(p)
  {
    hide Cong, Val, Fermat, Inverse, Xor, MulInput, Loose;
    ScaledMeans(X, p.x, Z);
    ScaledMeans(Y, p.y, Z);
    NonzeroMeans(Z);
    TightBounds(X);
    TightBounds(Y);
    TightBounds(Z);
    var recip := FeInvert(Z);
    TightBounds(recip);
    var x := FeMul(X, recip);
    var y := FeMul(Y, recip);
    TightLoose(x);
    TightLoose(y);
    AffineValue(Val(x), Val(X), p.x, Val(Z), Val(recip));
    AffineValue(Val(y), Val(Y), p.y, Val(Z), Val(recip));
    var t := FeToBytes(y);
    var sign := FeIsNegative(x);
    SetTop(t, p.x % 2);
    s := t[31 := Xor(t[31], sign * 0x80)];
    EncodeUnique(s, p);
  }

  lemma TightLoose(f: Fe)
    requires Tight(f)
    ensures Loose(f)
  {
  }

  /** X times Z^(p - 2) is the affine coordinate. */
  lemma AffineValue(x: int, X: int, c: int, z: int, recip: int)
    requires Fermat() && !Cong(z, 0) && 0 <= c < P
    requires Cong(X, c * z) && Cong(recip, Pow(z, P - 2)) && Cong(x, X * recip)
    ensures x % P == c
  {
    hide Cong, Pow, Fermat, Inverse;
    InverseLaw(z);
    InverseIsPow(z);
    CongMul(X, c * z, recip, Inverse(z));
    CongMulBy(z * Inverse(z), 1, c);
    assert c * z * Inverse(z) == c * (z * Inverse(z));
    CongTrans(X * recip, c * (z * Inverse(z)), c);
    CongTrans(x, X * recip, c);
    Canonical(x, c);
  }

  lemma InverseIsPow(z: int)
    ensures Inverse(z) == Pow(z, P - 2)
  {
    hide Pow;
  }

  lemma Canonical(x: int, c: int)
    requires Cong(x, c) && 0 <= c < P
    ensures x % P == c
  {
    CongMeans(x, c);
  }

  lemma SetTop(t: seq<byte>, b: nat)
    requires |t| == 32 && LE(t) < TWO255 && b < 2
    ensures t[31] < 0x80 && Xor(t[31], b * 0x80) == t[31] as int + b * 0x80
    ensures LE(t[31 := t[31] as int + b * 0x80]) == LE(t) + TWO255 * b
  {
    hide LE, Xor;
    LastByte(t);
    assert Pow2(7) == 0x80 by { Pow2Small(); }
    XorDisjoint(t[31], b, 7);
    var u := t[31 := t[31] as int + b * 0x80];
    LastByte(u);
    assert u[..31] == t[..31];
  }

  lemma LastByte(t: seq<byte>)
    requires |t| == 32
    ensures LE(t) == LE(t[..31])
      + 0x1_0000_0000_0000_0000_0000_0000_0000_0000_0000_0000_0000_0000_0000_0000_0000_00 * t[31] as int
    ensures LE(t[..31]) < 0x1_0000_0000_0000_0000_0000_0000_0000_0000_0000_0000_0000_0000_0000_0000_0000_00
  {
    hide Pow2;
    assert t == t[..31] + [t[31]];
    LEJoin(t[..31], [t[31]]);
    LEBound(t[..31]);
    Pow2Literals();
    Pow2Small();
    Pow2Add(248, 8);
  }

  lemma EncodeUnique(s: seq<byte>, p: Point)
    requires |s| == 32 && 0 <= p.y < P && LE(s) == p.y + TWO255 * (p.x % 2)
    ensures s == Encode(p)
  {
    hide ToLE, LE, Pow2;
    Pow2Literals();
    ToLEValue(p.y + TWO255 * (p.x % 2), 32);
    LEInjective(s, Encode(p));
  }

  // ---- decoding ------------------------------------------------------------------------

  /** The y-coordinate that a string encodes; values from p upwards wrap around. */
  function YCoordinate(s: seq<byte>): int { LE(s) % TWO255 % P }

  /** s encodes p: p is on the curve and the sign bit is the low bit of x. The code also accepts
    * the sign bit of a zero x in either position, which section 5.1.3 of RFC 8032 rejects. */
  ghost predicate Decodes(s: seq<byte>, p: Point)
    requires |s| == 32
  {
    OnCurve(p) && p.y == YCoordinate(s) && (p.x == 0 || p.x % 2 == s[31] / 0x80)
  }

  /** The limbs of a square root of -1 in ge.c. */
  const SQRTM1_FE := Fe(-32595792, -7943725, 9377950, 3500415, 12389472, -272473, -25146209, -2005654, 326686, 11406482)

  lemma SqrtM1Value()
    ensures Tight(SQRTM1_FE) && Cong(Val(SQRTM1_FE), SQRT_M1)
  {
    CongMeans(Val(SQRTM1_FE), SQRT_M1);
  }

  /** v x^2 = u, the equation that decoding solves. */
  ghost predicate Solves(x: int, u: int, v: int) { Cong(v * (x * x), u) }

  ghost predicate Solvable(u: int, v: int) { exists x :: Solves(x, u, v) }

  /** u v^3 (u v^7)^((p - 5) / 8). */
  function Root(u: int, v: int): int {
    u * Pow(v, 3) * Pow(u * Pow(v, 7), E22523)
  }

  /** The lines of ge_frombytes_negate_vartime that compute the candidate root into X. */
  method Candidate(u: Fe, v: Fe) returns (x: Fe)
    requires MulInput(u) && MulInput(v)
    ensures Tight(x)
    ensures Cong(Val(x), Root(Val(u), Val(v)))
  {
    First(v);
    hide Cong, Val, Pow, MulInput, Tight;
    ghost var z := Val(v);
    var v3 := Square(v, z, 1);
    v3 := Times(v3, v, z, 2, 1);
    x := Square(v3, z, 3);
    x := Times(x, v, z, 6, 1);
    ghost var v7 := Val(x);
    x := FeMul(x, u);
    TightBounds(x);
    ghost var w := Val(x);
    x := FePow22523(x);
    TightBounds(x);
    ghost var r := Val(x);
    x := FeMul(x, v3);
    TightBounds(x);
    ghost var r3 := Val(x);
    x := FeMul(x, u);
    CandidateValue(Val(u), z, Val(v3), v7, w, r, r3, Val(x));
  }

  lemma CandidateValue(u: int, v: int, v3: int, v7: int, w: int, r: int, r3: int, x: int)
    requires Cong(v3, Pow(v, 3)) && Cong(v7, Pow(v, 7)) && Cong(w, v7 * u) && Cong(r, Pow(w, E22523))
    requires Cong(r3, r * v3) && Cong(x, r3 * u)
    ensures Cong(x, Root(u, v))
  {
    hide Cong, Pow;
    var p3, p7, e := Pow(v, 3), Pow(v, 7), E22523;
    CongMulBy(v7, p7, u);
    CongTrans(w, v7 * u, p7 * u);
    assert p7 * u == u * p7;
    PowCong(w, u * p7, e);
    CongTrans(r, Pow(w, e), Pow(u * p7, e));
    CongMul(r, Pow(u * p7, e), v3, p3);
    CongTrans(r3, r * v3, Pow(u * p7, e) * p3);
    CongMulBy(r3, Pow(u * p7, e) * p3, u);
    CongTrans(x, r3 * u, Pow(u * p7, e) * p3 * u);
    RootOrder(Pow(u * p7, e), p3, u);
  }

  lemma RootOrder(a: int, b: int, c: int)
    ensures a * b * c == c * b * a
  {
  }

  /** v times the squared candidate is u times (u v^7)^((p - 1) / 4). */
  lemma RootSquared(u: int, v: int)
    ensures v * (Root(u, v) * Root(u, v)) == u * Pow(u * Pow(v, 7), 2 * E22523 + 1)
  {
    hide Pow;
    var p3, w := Pow(v, 3), u * Pow(v, 7);
    var r := Pow(w, E22523);
    assert Pow(v, 7) == v * (p3 * p3) by { PowAdd(v, 3, 3); PowSucc(v, 6); }
    assert Pow(w, 2 * E22523 + 1) == w * (r * r) by { PowAdd(w, E22523, E22523); PowSucc(w, 2 * E22523); }
    RootRegroup(u, v, p3, r);
  }

  lemma PowSucc(z: int, n: nat)
    ensures Pow(z, n + 1) == z * Pow(z, n)
  {
  }

  lemma RootRegroup(u: int, v: int, p: int, r: int)
    ensures v * ((u * p * r) * (u * p * r)) == u * ((u * (v * (p * p))) * (r * r))
  {
    RegroupSquare(u, p, r);
    RegroupFactor(u, v, p * p, r * r);
  }

  lemma RegroupSquare(u: int, p: int, r: int)
    ensures (u * p * r) * (u * p * r) == u * u * (p * p) * (r * r)
  {
  }

  lemma RegroupFactor(u: int, v: int, p: int, r: int)
    ensures v * (u * u * p * r) == u * ((u * (v * p)) * r)
  {
  }

  /** A square to the power (p - 1) / 4 is 1 or -1, unless it is zero. */
  lemma SquareToQuarter(w: int, g: int)
    requires Fermat() && Cong(w, g * g) && !Cong(g, 0)
    ensures Cong(Pow(w, 2 * E22523 + 1), 1) || Cong(Pow(w, 2 * E22523 + 1), -1)
  {
    hide Cong, Pow;
    var n := 2 * E22523 + 1;
    var r := Pow(g * g, n);
    PowCong(w, g * g, n);
    PowProduct(g, g, n);
    PowAdd(g, n, n);
    PowAdd(g, 2 * n, 2 * n);
    assert 4 * n == P - 1;
    assert FermatAt(g);
    assert r * r == Pow(g, P - 1);
    RootsOfOne(r);
    if Cong(r, 1) {
      CongTrans(Pow(w, n), r, 1);
    } else {
      CongTrans(Pow(w, n), r, -1);
    }
  }

  lemma RootsOfOne(r: int)
    requires Fermat() && Cong(r * r, 1)
    ensures Cong(r, 1) || Cong(r, -1)
  {
    hide Fermat, Cong;
    assert (r - 1) * (r + 1) == r * r - 1;
    CongRefl(1);
    CongAdd(r * r, 1, 1, 1);
    NoZeroDivisors(r - 1, r + 1);
    if Cong(r - 1, 0) {
      CongAdd(r - 1, 0, 1, 1);
    } else {
      CongAdd(r + 1, 0, 1, 1);
    }
  }

  /** If v x^2 = u has a solution, the candidate solves it for u or for -u. */
  lemma RootLaw(u: int, v: int)
    requires Fermat() && Solvable(u, v)
    ensures Solves(Root(u, v), u, v) || Solves(Root(u, v), -u, v)
  {
    var x0 :| Solves(x0, u, v);
    hide Cong, Pow, Fermat, Root;
    var w, g, n := u * Pow(v, 7), Pow(v, 4) * x0, 2 * E22523 + 1;
    RootSquared(u, v);
    SquareForm(u, v, x0);
    if Cong(g, 0) {
      ZeroU(u, v, x0);
      CongMulBy(u, 0, Pow(w, n));
      BothZero(u, u * Pow(w, n));
    } else {
      SquareToQuarter(w, g);
      if Cong(Pow(w, n), 1) {
        CongMulBy(Pow(w, n), 1, u);
      } else {
        CongMulBy(Pow(w, n), -1, u);
        assert u * -1 == -u;
      }
    }
  }

  lemma BothZero(u: int, a: int)
    requires Cong(u, 0) && Cong(a, 0)
    ensures Cong(a, u)
  {
    CongSym(u, 0);
    CongTrans(a, 0, u);
  }

  lemma SquareForm(u: int, v: int, x: int)
    requires Solves(x, u, v)
    ensures var g := Pow(v, 4) * x; Cong(u * Pow(v, 7), g * g)
  {
    hide Cong, Pow;
    var p4, p7 := Pow(v, 4), Pow(v, 7);
    CongSym(v * (x * x), u);
    CongMulBy(u, v * (x * x), p7);
    PowAdd(v, 4, 4);
    PowSucc(v, 7);
    assert v * p7 == p4 * p4;
    SquareOrder(v, x, p7, p4);
  }

  lemma SquareOrder(v: int, x: int, p7: int, p4: int)
    requires v * p7 == p4 * p4
    ensures v * (x * x) * p7 == (p4 * x) * (p4 * x)
  {
    assert v * (x * x) * p7 == (v * p7) * (x * x);
    Interchange(p4, p4, x, x);
  }

  lemma ZeroU(u: int, v: int, x: int)
    requires Fermat() && Solves(x, u, v) && Cong(Pow(v, 4) * x, 0)
    ensures Cong(u, 0)
  {
    NoZeroDivisors(Pow(v, 4), x);
    hide Cong, Pow, Fermat;
    if Cong(x, 0) {
      CongMulBy(x, 0, x);
      CongMulBy(x * x, 0, v);
    } else {
      PowZero(v, 4);
      CongMulBy(v, 0, x * x);
    }
    CongSym(v * (x * x), u);
    CongTrans(u, v * (x * x), 0);
  }

  lemma {:induction false} PowZero(v: int, n: nat)
    requires Fermat() && Cong(Pow(v, n), 0) && n > 0
    ensures Cong(v, 0)
  {
    hide Cong, Fermat;
    NoZeroDivisors(v, Pow(v, n - 1));
    if !Cong(v, 0) {
      if n == 1 {
        OneIsNotZero();
      } else {
        PowZero(v, n - 1);
      }
    }
  }

  /** Decodes a point and negates it. A result of 0 comes with the decoded point, a result of -1
    * means that the string decodes to none. */
  method GeFromBytesNegateVartime(s: seq<byte>) returns (ret: int, h: GeP3, ghost p: Point)
    requires |s| == 32 && Fermat()
    ensures ret == 0 || ret == -1
    ensures ret == 0 ==> Decodes(s, p) && IsP3(h, Neg(p))
    ensures ret == -1 ==> forall q :: !Decodes(s, q)
  {
    hide Cong, Val, Fermat, MulInput, Addable, Loose, Within, Solves, Solvable, Root, LE, Decodes, IsP3;
    p := IDENTITY;
    DValues();
    OneValue();
    ConstantBounds();
    SqrtM1Value();
    TightBounds(D_FE);
    TightBounds(SQRTM1_FE);
    TightBounds(ONE);
    ghost var y := YCoordinate(s);
    var Y := FeFromBytes(s);
    TightBounds(Y);
    var u := FeSq(Y);
    TightBounds(u);
    ghost var yy := Val(u);
    var v := FeMul(u, D_FE);
    TightBounds(v);
    ghost var dyy := Val(v);
    u := FeSub(u, ONE);
    v := FeAdd(v, ONE);
    InputBounds(u, TIGHT_E + 1, TIGHT_O + 0);
    InputBounds(v, TIGHT_E + 1, TIGHT_O + 0);
    ReadY(Val(Y), LE(s) % TWO255);
    CurveSides(y, Val(Y), yy, dyy, Val(D_FE));
    assert Val(u) == yy - 1 && Val(v) == dyy + 1;

    var X := Candidate(u, v);
    TightBounds(X);
    var vxx := FeSq(X);
    TightBounds(vxx);
    ghost var xx := Val(vxx);
    vxx := FeMul(vxx, v);
    TightBounds(vxx);
    var check := FeSub(vxx, u);
    LooseSum(check);
    CheckRoot(Val(X), Val(u), Val(v), xx, Val(vxx));
    var nonzero := FeIsNonzero(check);
    if nonzero {
      check := FeAdd(vxx, u);
      LooseSum(check);
      nonzero := FeIsNonzero(check);
      if nonzero {
        NoRoot(y, Val(X), Val(u), Val(v));
        NothingDecodes(s, Val(u), Val(v));
        return -1, GeP3(X, Y, ONE, ZERO), p;
      }
      ghost var x0 := Val(X);
      X := FeMul(X, SQRTM1_FE);
      TimesI(Val(X), x0, Val(SQRTM1_FE), Val(u), Val(v));
    }
    TightBounds(X);
    TightLoose(X);
    ghost var x1 := Val(X);
    var negative := FeIsNegative(X);
    if negative == s[31] / 0x80 {
      X := FeNeg(X);
      StillTight(X);
    }
    TightBounds(X);
    var T := FeMul(X, Y);
    ret, h := 0, GeP3(X, Y, ONE, T);
    ghost var q := Point(Val(X) % P, y);
    p := Neg(q);
    ChosenSign(x1, Val(X), s[31] / 0x80);
    NegSolves(x1, Val(u), Val(v));
    DecodedPoint(s, q, Val(X), Val(u), Val(v));
    ReducedProduct(Val(X), q.x, Val(Y), y, Val(T));
    RepresentsDecoded(h, q);
  }

  lemma ReadY(Y: int, n: int)
    requires Cong(Y, n)
    ensures Cong(Y, n % P)
  {
    var k := CongWitness(Y, n);
    CongIntro(Y, n % P, k + n / P);
  }

  lemma CurveSides(y: int, Y: int, yy: int, dyy: int, d: int)
    requires Cong(Y, y) && Cong(yy, Y * Y) && Cong(d, D) && Cong(dyy, yy * d)
    ensures Cong(yy - 1, y * y - 1) && Cong(dyy + 1, D * (y * y) + 1)
  {
    hide Cong;
    CongMul(Y, y, Y, y);
    CongTrans(yy, Y * Y, y * y);
    CongMul(yy, y * y, d, D);
    CongTrans(dyy, yy * d, y * y * D);
    assert y * y * D == D * (y * y);
    CongRefl(1);
    CongAdd(yy, y * y, 1, 1);
    CongAdd(dyy, D * (y * y), 1, 1);
  }

  lemma LooseSum(f: Fe)
    requires Within(f, TIGHT_E + (TIGHT_E + 1), TIGHT_O + (TIGHT_O + 0))
    ensures Loose(f)
  {
  }

  lemma StillTight(f: Fe)
    requires Within(f, TIGHT_E, TIGHT_O)
    ensures Tight(f)
  {
  }

  /** The two checks ask whether v x^2 is u and whether it is -u. */
  lemma CheckRoot(x: int, u: int, v: int, xx: int, vxx: int)
    requires Cong(xx, x * x) && Cong(vxx, xx * v)
    ensures (vxx - u) % P == 0 <==> Solves(x, u, v)
    ensures (vxx + u) % P == 0 <==> Solves(x, -u, v)
  {
    hide Cong;
    CongMulBy(xx, x * x, v);
    assert x * x * v == v * (x * x);
    CongTrans(vxx, xx * v, v * (x * x));
    CheckCong(vxx, v * (x * x), u);
  }

  lemma CheckCong(a: int, b: int, u: int)
    requires Cong(a, b)
    ensures (a - u) % P == 0 <==> Cong(b, u)
    ensures (a + u) % P == 0 <==> Cong(b, -u)
  {
    CheckDifference(a, b, u);
    CheckDifference(a, b, -u);
  }

  lemma CheckDifference(a: int, b: int, u: int)
    requires Cong(a, b)
    ensures (a - u) % P == 0 <==> Cong(b, u)
  {
    hide Cong;
    CongMeans(a, u);
    if Cong(a, u) {
      CongSym(a, b);
      CongTrans(b, a, u);
    }
    if Cong(b, u) {
      CongTrans(a, b, u);
    }
  }

  lemma SolvesCong(x: int, x': int, u: int, v: int)
    requires Cong(x, x')
    ensures Solves(x, u, v) <==> Solves(x', u, v)
  {
    CongMul(x, x', x, x');
    CongMulBy(x * x, x' * x', v);
    CongSame(v * (x * x), v * (x' * x'));
    CongSame(v * (x * x), u);
    CongSame(v * (x' * x'), u);
  }

  lemma NoRoot(y: int, x: int, u: int, v: int)
    requires Fermat() && Cong(x, Root(u, v)) && !Solves(x, u, v) && !Solves(x, -u, v)
    ensures !Solvable(u, v)
  {
    hide Cong, Fermat, Solves, Root;
    SolvesCong(x, Root(u, v), u, v);
    SolvesCong(x, Root(u, v), -u, v);
    if Solvable(u, v) {
      RootLaw(u, v);
    }
  }

  lemma EquationSolves(x: int, y: int, u: int, v: int)
    requires Cong(u, y * y - 1) && Cong(v, D * (y * y) + 1)
    ensures Solves(x, u, v) <==> Equation(x, y)
  {
    EquationMeans(x, y);
    CongMulBy(v, D * (y * y) + 1, x * x);
    EquationOrder(D, x * x, y * y);
    EquationTotal(v * (x * x), D * (x * x) * (y * y), x * x, y * y, u);
  }

  lemma EquationOrder(d: int, x: int, y: int)
    ensures (d * y + 1) * x == d * x * y + x
  {
  }

  lemma EquationTotal(l: int, t: int, x: int, y: int, u: int)
    requires Cong(l, t + x) && Cong(u, y - 1)
    ensures Cong(l, u) <==> Cong(y - x, 1 + t)
  {
    CongMeans(l, t + x);
    CongMeans(u, y - 1);
    CongMeans(l, u);
    CongMeans(y - x, 1 + t);
  }

  lemma NothingDecodes(s: seq<byte>, u: int, v: int)
    requires |s| == 32 && !Solvable(u, v)
    requires var y := YCoordinate(s); Cong(u, y * y - 1) && Cong(v, D * (y * y) + 1)
    ensures forall q :: !Decodes(s, q)
  {
    hide Cong, Solves;
    forall q ensures !Decodes(s, q) {
      EquationSolves(q.x, YCoordinate(s), u, v);
    }
  }

  /** Multiplying by a square root of -1 turns a solution for -u into one for u. */
  lemma TimesI(x: int, x0: int, i: int, u: int, v: int)
    requires Cong(x, x0 * i) && Cong(i, SQRT_M1) && Solves(x0, -u, v)
    ensures Solves(x, u, v)
  {
    hide Cong;
    SqrtMinusOne();
    CongMul(i, SQRT_M1, i, SQRT_M1);
    CongTrans(i * i, SQRT_M1 * SQRT_M1, -1);
    CongMul(x, x0 * i, x, x0 * i);
    Interchange(x0, i, x0, i);
    Interchange(x0, x0, i, i);
    assert (x0 * i) * (x0 * i) == (x0 * x0) * (i * i);
    CongMulBy(i * i, -1, x0 * x0);
    CongTrans(x * x, (x0 * x0) * (i * i), x0 * x0 * -1);
    CongMulBy(x * x, x0 * x0 * -1, v);
    assert v * (x0 * x0 * -1) == -(v * (x0 * x0));
    FlipSign(v * (x * x), v * (x0 * x0), u);
  }

  lemma FlipSign(a: int, b: int, u: int)
    requires Cong(a, -b) && Cong(b, -u)
    ensures Cong(a, u)
  {
    var k := CongWitness(a, -b);
    var l := CongWitness(b, -u);
    CongIntro(a, u, k - l);
  }

  /** After the conditional negation the low bit of x differs from the sign bit, unless x is 0. */
  lemma ChosenSign(x1: int, x: int, sign: int)
    requires 0 <= sign < 2 && x == if x1 % P % 2 == sign then -x1 else x1
    ensures x % P == 0 || x % P % 2 != sign
  {
    NegParity(x1);
  }

  lemma NegSolves(x: int, u: int, v: int)
    requires Solves(x, u, v)
    ensures Solves(-x, u, v)
  {
    assert -x * -x == x * x;
  }

  lemma NegParity(x: int)
    ensures -x % P == if x % P == 0 then 0 else P - x % P
    ensures x % P != 0 ==> -x % P % 2 == 1 - x % P % 2
  {
    NegRemainder(x, P, x / P, x % P);
    FlipParity(x % P);
  }

  lemma NegRemainder(x: int, m: nat, q: int, r: int)
    requires m > 0 && x == q * m + r && 0 <= r < m
    ensures -x % m == if r == 0 then 0 else m - r
  {
    if r == 0 {
      DivModUnique(-x, m, -q, 0);
    } else {
      DivModUnique(-x, m, -q - 1, m - r);
    }
  }

  lemma FlipParity(r: int)
    ensures (P - r) % 2 == 1 - r % 2
  {
  }

  lemma DecodedPoint(s: seq<byte>, q: Point, x: int, u: int, v: int)
    requires |s| == 32 && Solves(x, u, v) && q == Point(x % P, YCoordinate(s))
    requires Cong(u, q.y * q.y - 1) && Cong(v, D * (q.y * q.y) + 1)
    requires q.x == 0 || q.x % 2 != s[31] / 0x80
    ensures OnCurve(q) && Decodes(s, Neg(q)) && Neg(Neg(q)) == q
  {
    hide Cong, Solves, LE;
    Reduce(x);
    SolvesCong(q.x, x, u, v);
    EquationSolves(q.x, q.y, u, v);
    NegOnCurve(q);
    NegParity(q.x);
    Reduced(x);
    assert q.x % P == q.x;
  }

  lemma Reduced(x: int)
    ensures x % P % P == x % P
  {
  }

  lemma RepresentsDecoded(h: GeP3, q: Point)
    requires Tight(h.X) && Tight(h.Y) && h.Z == ONE && Tight(h.T)
    requires Cong(Val(h.X), q.x) && Cong(Val(h.Y), q.y) && Cong(Val(h.T), q.x * q.y)
    ensures IsP3(h, q)
  {
    hide Cong, Tight;
    OneValue();
    ConstantBounds();
    OneIsNotZero();
    P3Means(h, q);
  }

  /** The product of the coordinates, for reduced ones. */
  lemma ReducedProduct(X: int, x: int, Y: int, y: int, T: int)
    requires x == X % P && Cong(Y, y) && Cong(T, X * Y)
    ensures Cong(X, x) && Cong(T, x * y)
  {
    hide Cong;
    Reduce(X);
    CongSym(x, X);
    CongMul(X, x, Y, y);
    CongTrans(T, X * Y, x * y);
  }

  // ---- encoding against decoding -------------------------------------------------------

  lemma TopBit(s: seq<byte>)
    requires |s| == 32
    ensures LE(s) == LE(s) % TWO255 + TWO255 * (s[31] / 0x80)
  {
    hide LE;
    LastByte(s);
    SplitTop(LE(s[..31]), s[31]);
  }

  lemma SplitTop(low: nat, top: nat)
    requires low < 0x1_0000_0000_0000_0000_0000_0000_0000_0000_0000_0000_0000_0000_0000_0000_0000_00 && top < 0x100
    ensures var v := low + 0x1_0000_0000_0000_0000_0000_0000_0000_0000_0000_0000_0000_0000_0000_0000_0000_00 * top;
      v == v % TWO255 + TWO255 * (top / 0x80)
  {
  }

  /** Every curve point is decoded from its encoding. */
  lemma EncodeDecodes(p: Point)
    requires OnCurve(p)
    ensures Decodes(Encode(p), p)
  {
    hide LE, ToLE, Pow2, OnCurve;
    assert 0 <= p.x < P && 0 <= p.y < P by { CurveRange(p); }
    Pow2Literals();
    var s := Encode(p);
    ToLEValue(p.y + TWO255 * (p.x % 2), 32);
    TopBit(s);
    SplitUnique(LE(s) % TWO255, s[31] / 0x80, p.y, p.x % 2);
  }

  lemma CurveRange(p: Point)
    requires OnCurve(p)
    ensures 0 <= p.x < P && 0 <= p.y < P
  {
  }

  lemma SplitUnique(a: int, b: int, c: int, d: int)
    requires a + TWO255 * b == c + TWO255 * d && 0 <= a < TWO255 && 0 <= c < TWO255
    ensures a == c && b == d
  {
  }

  /** A string decodes to at most one point. */
  lemma DecodeUnique(s: seq<byte>, p: Point, q: Point)
    requires PrimeField() && |s| == 32 && Decodes(s, p) && Decodes(s, q)
    ensures p == q
  {
    hide LE, Cong, Fermat, NonSquare, Equation;
    var y := p.y;
    var u, v := y * y - 1, D * (y * y) + 1;
    CongRefl(u);
    CongRefl(v);
    EquationSolves(p.x, y, u, v);
    EquationSolves(q.x, y, u, v);
    DenominatorNonzero(y);
    SquaresAgree(p.x, q.x, u, v);
    SameParity(p.x, q.x);
  }

  /** d y^2 + 1 is never zero, because -1 is a square and d is not. */
  lemma DenominatorNonzero(y: int)
    requires PrimeField()
    ensures !Cong(D * (y * y) + 1, 0)
  {
    if Cong(D * (y * y) + 1, 0) {
      SqrtMinusOne();
      MinusOne(D * (y * y), SQRT_M1 * SQRT_M1);
      hide Cong, Fermat, NonSquare;
      NonSquareQuotient(y, SQRT_M1);
      CongMulBy(y, 0, y);
      CongMulBy(y * y, 0, D);
      ZeroPlusOne(D * (y * y));
    }
  }

  lemma MinusOne(a: int, b: int)
    requires Cong(a + 1, 0) && Cong(b, -1)
    ensures Cong(a, b)
  {
    var k := CongWitness(a + 1, 0);
    var l := CongWitness(b, -1);
    CongIntro(a, b, k - l);
  }

  lemma ZeroPlusOne(a: int)
    requires Cong(a, 0)
    ensures !Cong(a + 1, 0)
  {
    CongMeans(a, 0);
    CongMeans(a + 1, 0);
  }

  lemma SquaresAgree(x: int, x': int, u: int, v: int)
    requires Fermat() && !Cong(v, 0) && Solves(x, u, v) && Solves(x', u, v)
    ensures Cong(x - x', 0) || Cong(x + x', 0)
  {
    Difference(v * (x * x), v * (x' * x'), u);
    hide Cong, Fermat;
    assert v * (x * x) - v * (x' * x') == v * (x * x - x' * x');
    NoZeroDivisors(v, x * x - x' * x');
    assert x * x - x' * x' == (x - x') * (x + x');
    NoZeroDivisors(x - x', x + x');
  }

  lemma Difference(a: int, b: int, u: int)
    requires Cong(a, u) && Cong(b, u)
    ensures Cong(a - b, 0)
  {
    var k := CongWitness(a, u);
    var l := CongWitness(b, u);
    CongIntro(a - b, 0, k - l);
  }

  lemma SameParity(x: int, x': int)
    requires 0 <= x < P && 0 <= x' < P && (Cong(x - x', 0) || Cong(x + x', 0))
    requires x == 0 || x' == 0 || x % 2 == x' % 2
    ensures x == x'
  {
    if Cong(x - x', 0) {
      CongWitnesses(x, x');
    } else {
      SumZero(x, x');
    }
  }

  lemma SumZero(x: int, x': int)
    requires 0 <= x < P && 0 <= x' < P && Cong(x + x', 0)
    ensures x + x' == 0 || x + x' == P
  {
    CongMeans(x + x', 0);
  }

  lemma CongWitnesses(x: int, x': int)
    requires 0 <= x < P && 0 <= x' < P && Cong(x - x', 0)
    ensures x == x'
  {
    CongMeans(x - x', 0);
  }

  /** A string as section 5.1.3 of RFC 8032 wants it: y is below p, and the sign bit is clear for the two
    * values of y that have x = 0. */
  predicate CanonicalString(s: seq<byte>)
    requires |s| == 32
  {
    LE(s) % TWO255 < P && (s[31] < 0x80 || (YCoordinate(s) != 1 && YCoordinate(s) != P - 1))
  }

  /** A string that decodes to a point is its encoding exactly when it is canonical. */
  lemma DecodesEncoding(s: seq<byte>, p: Point)
    requires Fermat() && |s| == 32 && Decodes(s, p)
    ensures s == Encode(p) <==> CanonicalString(s)
  {
    hide LE, OnCurve, Fermat;
    ZeroX(p);
    EncodingOf(s, p);
  }

  /** The points with x = 0: the neutral element and the point of order 2. */
  lemma ZeroX(p: Point)
    requires Fermat() && OnCurve(p)
    ensures p.x == 0 <==> p.y == 1 || p.y == P - 1
  {
    hide Cong, Fermat;
    var x, y := p.x, p.y;
    EquationMeans(x, y);
    if x == 0 {
      UnitY(y);
    }
    if y == 1 || y == P - 1 {
      OneSquared(y);
      UnitX(x * x, y * y);
      NoZeroDivisors(x * x, 1 + D);
      CongMeans(1 + D, 0);
      NoZeroDivisors(x, x);
      CongUnique(x, 0);
    }
  }

  lemma UnitY(y: int)
    requires Fermat() && 0 <= y < P && Cong(y * y - 0 * 0, 1 + D * (0 * 0) * (y * y))
    ensures y == 1 || y == P - 1
  {
    hide Cong, Fermat;
    RootsOfOne(y);
    if Cong(y, 1) {
      CongUnique(y, 1);
    } else {
      CongIntro(-1, P - 1, -1);
      CongTrans(y, -1, P - 1);
      CongUnique(y, P - 1);
    }
  }

  lemma OneSquared(y: int)
    requires y == 1 || y == P - 1
    ensures Cong(y * y, 1)
  {
    CongIntro(y * y, 1, if y == 1 then 0 else P - 2);
  }

  lemma UnitX(x: int, y: int)
    requires Cong(y, 1) && Cong(y - x, 1 + D * x * y)
    ensures Cong(x * (1 + D), 0)
  {
    var k := CongWitness(y, 1);
    var l := CongWitness(y - x, 1 + D * x * y);
    UnitXTotal(x, y, k, l, P);
    CongIntro(x * (1 + D), 0, k - l - D * x * k);
  }

  lemma UnitXTotal(x: int, y: int, k: int, l: int, m: int)
    requires y == 1 + k * m && y - x == 1 + D * x * y + l * m
    ensures x * (1 + D) == (k - l - D * x * k) * m
  {
    assert D * x * y == D * x + D * x * k * m;
  }

  /** The decoder accepts, besides the encoding of a point, strings whose y is not below p and,
    * for x = 0, both positions of the sign bit; section 5.1.3 of RFC 8032 rejects those. */
  lemma EncodingOf(s: seq<byte>, p: Point)
    requires |s| == 32 && Decodes(s, p)
    ensures s == Encode(p) <==> LE(s) % TWO255 < P && (p.x != 0 || s[31] < 0x80)
  {
    hide LE, ToLE, Pow2, OnCurve;
    CurveRange(p);
    TopBit(s);
    EncodeDecodes(p);
    var e := Encode(p);
    TopBit(e);
    Pow2Literals();
    ToLEValue(p.y + TWO255 * (p.x % 2), 32);
    SplitUnique(LE(e) % TWO255, e[31] / 0x80, p.y, p.x % 2);
    if LE(s) % TWO255 < P && (p.x != 0 || s[31] < 0x80) {
      EncodeUnique(s, p);
    }
  }

  /** Two strings that the code decodes to the neutral element and the standard rejects: p + 1, and 1
    * with the sign bit set. */
  lemma NonCanonicalIdentity()
    ensures var s := ToLE(P + 1, 32); Decodes(s, IDENTITY) && s != Encode(IDENTITY)
    ensures var s := ToLE(TWO255 + 1, 32); Decodes(s, IDENTITY) && s != Encode(IDENTITY)
  {
    hide LE, ToLE, Pow2;
    Pow2Literals();
    IdentityOnCurve();
    forall n | n == P + 1 || n == TWO255 + 1
      ensures var s := ToLE(n, 32); Decodes(s, IDENTITY) && s != Encode(IDENTITY)
    {
      var s := ToLE(n, 32);
      ToLEValue(n, 32);
      TopBit(s);
      assert n % TWO255 == n || n % TWO255 == n - TWO255;
      EncodingOf(s, IDENTITY);
    }
  }
}
