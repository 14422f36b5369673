/** The two scalar multiplications of ge.c: a A + b B with sliding windows, and a B from a table
  * of radix-16 multiples of the base point. */
module ScalarMult {
  import opened Bytes
  import opened Bits
  import opened Modular
  import opened Radix
  import opened Field
  import opened Edwards
  import opened ScalarMultiples
  import opened Points
  import opened Recode

  // ---- multiples by single digits ------------------------------------------------------

  lemma BaseOnCurve()
    ensures OnCurve(BASE)
  {
    EquationMeans(BASE.x, BASE.y);
    CongMeans(BASE.y * BASE.y - BASE.x * BASE.x, 1 + D * (BASE.x * BASE.x) * (BASE.y * BASE.y));
    assert Equation(BASE.x, BASE.y);
  }

  /** p + d q for two known multiples. */
  lemma AddMultiple(m: int, d: int, q: Point)
    requires Curve() && OnCurve(q)
    ensures Add(Mul(m, q), Mul(d, q)) == Mul(m + d, q) && Add(Mul(m, q), Neg(Mul(-d, q))) == Mul(m + d, q)
    ensures OnCurve(Mul(m, q)) && OnCurve(Mul(d, q)) && OnCurve(Mul(-d, q))
  {
    hide Add, OnCurve, Neg, Mul;
    MulAdd(m, d, q);
    MulNeg(-d, q);
    MulOnCurve(m, q);
    MulOnCurve(d, q);
    MulOnCurve(-d, q);
  }

  /** m p + n q, the value of the double-scalar loop. */
  ghost function Combine(m: int, p: Point, n: int, q: Point): Point { Add(Mul(m, p), Mul(n, q)) }

  lemma CombineOnCurve(m: int, p: Point, n: int, q: Point)
    requires PrimeField() && OnCurve(p) && OnCurve(q)
    ensures OnCurve(Combine(m, p, n, q))
  {
    hide Add, OnCurve, Mul;
    MulOnCurve(m, p);
    MulOnCurve(n, q);
    Closed(Mul(m, p), Mul(n, q));
  }

  lemma CombineAdd(m: int, n: int, d: int, e: int, p: Point, q: Point)
    requires Curve() && OnCurve(p) && OnCurve(q)
    ensures Add(Combine(m, p, n, q), Combine(d, p, e, q)) == Combine(m + d, p, n + e, q)
  {
    hide Add, OnCurve, Mul;
    MulOnCurve(m, p);
    MulOnCurve(n, q);
    MulOnCurve(d, p);
    MulOnCurve(e, q);
    AddInterchange(Mul(m, p), Mul(n, q), Mul(d, p), Mul(e, q));
    MulAdd(m, d, p);
    MulAdd(n, e, q);
  }

  /** A multiple of p, then a multiple of q, joins the running sum. */
  lemma CombineFirst(m: int, n: int, d: int, p: Point, q: Point)
    requires Curve() && OnCurve(p) && OnCurve(q)
    ensures Add(Combine(m, p, n, q), Mul(d, p)) == Combine(m + d, p, n, q)
  {
    hide Add, OnCurve, Mul;
    CombineAdd(m, n, d, 0, p, q);
    MulZero(q);
    MulOnCurve(d, p);
    AddIdentity(Mul(d, p));
  }

  lemma CombineSecond(m: int, n: int, e: int, p: Point, q: Point)
    requires Curve() && OnCurve(p) && OnCurve(q)
    ensures Add(Combine(m, p, n, q), Mul(e, q)) == Combine(m, p, n + e, q)
  {
    hide Add, OnCurve, Mul;
    CombineAdd(m, n, 0, e, p, q);
    MulZero(p);
    MulOnCurve(e, q);
    AddIdentity(Mul(e, q));
  }

  // ---- a A + b B -----------------------------------------------------------------------

  /** Entry k stands for (2 k + 1) p. */
  ghost predicate OddMultiples(t: seq<GeCached>, p: Point) {
    forall k :: 0 <= k < |t| ==> IsCached(t[k], Mul(2 * k + 1, p))
  }

  /** The table Bi of precomp_data.h: entry k stands for (2 k + 1) B. */
  ghost predicate IsBi(bi: seq<GePrecomp>) {
    |bi| == 8 && forall k :: 0 <= k < 8 ==> IsPrecomp(bi[k], Mul(2 * k + 1, BASE))
  }

  /** One round of the table: ge_add, and the sum in cached form. */
  method NextOdd(A2: GeP3, last: GeCached, ghost p2: Point, ghost p: Point) returns (next: GeCached)
    requires PrimeField() && OnCurve(p2) && OnCurve(p) && IsP3(A2, p2) && IsCached(last, p)
    ensures IsCached(next, Add(p2, p))
  {
    hide Add, OnCurve, IsP3, IsCached, IsP1P1, Fermat, NonSquare;
    var t := GeAdd(A2, last, p2, p);
    var u := GeP1P1ToP3(t, Add(p2, p));
    next := GeP3ToCached(u, Add(p2, p));
  }

  /** A, 3A, 5A, ..., 15A. */
  method OddTable(A: GeP3, ghost p: Point) returns (Ai: seq<GeCached>)
    requires Curve() && OnCurve(p) && IsP3(A, p)
    ensures |Ai| == 8 && OddMultiples(Ai, p)
  {
    hide Add, OnCurve, Mul, IsP3, IsCached, IsP1P1, Fermat, NonSquare, Associative;
    MulOne(p);
    MulAdd(1, 1, p);
    var a0 := GeP3ToCached(A, p);
    var t := GeP3Dbl(A, p);
    var A2 := GeP1P1ToP3(t, Mul(2, p));
    OddSums(p);
    var a1 := NextOdd(A2, a0, Mul(2, p), Mul(1, p));
    var a2 := NextOdd(A2, a1, Mul(2, p), Mul(3, p));
    var a3 := NextOdd(A2, a2, Mul(2, p), Mul(5, p));
    var a4 := NextOdd(A2, a3, Mul(2, p), Mul(7, p));
    var a5 := NextOdd(A2, a4, Mul(2, p), Mul(9, p));
    var a6 := NextOdd(A2, a5, Mul(2, p), Mul(11, p));
    var a7 := NextOdd(A2, a6, Mul(2, p), Mul(13, p));
    Ai := [a0, a1, a2, a3, a4, a5, a6, a7];
  }

  lemma OddSums(p: Point)
    requires Curve() && OnCurve(p)
    ensures forall k: int {:trigger Mul(k, p)} ::
      OnCurve(Mul(k, p)) && Add(Mul(2, p), Mul(k, p)) == Mul(k + 2, p)
  {
    hide Add, OnCurve, Mul, Fermat, NonSquare, Associative;
    forall k: int
      ensures OnCurve(Mul(k, p)) && Add(Mul(2, p), Mul(k, p)) == Mul(k + 2, p)
    {
      AddMultiple(2, k, p);
      assert 2 + k == k + 2;
    }
  }

  lemma DigitIndex(d: int)
    requires WindowDigit(d)
    ensures d > 0 ==> 0 <= d / 2 < 8 && 2 * (d / 2) + 1 == d
    ensures d < 0 ==> 0 <= -d / 2 < 8 && 2 * (-d / 2) + 1 == -d
  {
  }

  /** The first half of a round: adds d times p, looked up in the table of odd multiples. */
  method AddWindow(t: GeP1P1, d: int, Ai: seq<GeCached>, ghost m: int, ghost n: int, ghost p: Point,
    ghost q: Point) returns (r: GeP1P1)
    requires Curve() && OnCurve(p) && OnCurve(q) && WindowDigit(d)
    requires |Ai| == 8 && OddMultiples(Ai, p) && IsP1P1(t, Combine(m, p, n, q))
    ensures IsP1P1(r, Combine(m + d, p, n, q))
  {
    hide Add, OnCurve, Mul, Neg, IsP3, IsCached, IsP1P1, Fermat, NonSquare, Associative, Combine;
    DigitIndex(d);
    ghost var s := Combine(m, p, n, q);
    CombineOnCurve(m, p, n, q);
    CombineFirst(m, n, d, p, q);
    AddMultiple(0, d, p);
    MulNeg(-d, p);
    r := t;
    if d > 0 {
      var u := GeP1P1ToP3(t, s);
      r := GeAdd(u, Ai[d / 2], s, Mul(d, p));
    } else if d < 0 {
      var u := GeP1P1ToP3(t, s);
      r := GeSub(u, Ai[-d / 2], s, Mul(-d, p));
    }
  }

  /** The second half of a round: adds d times B, looked up in Bi. */
  method AddBaseWindow(t: GeP1P1, d: int, Bi: seq<GePrecomp>, ghost m: int, ghost n: int,
    ghost p: Point) returns (r: GeP1P1)
    requires Curve() && OnCurve(p) && WindowDigit(d) && IsBi(Bi) && IsP1P1(t, Combine(m, p, n, BASE))
    ensures IsP1P1(r, Combine(m, p, n + d, BASE))
  {
    hide Add, OnCurve, Mul, Neg, IsP3, IsPrecomp, IsP1P1, Fermat, NonSquare, Associative, Combine;
    DigitIndex(d);
    BaseOnCurve();
    ghost var s := Combine(m, p, n, BASE);
    CombineOnCurve(m, p, n, BASE);
    CombineSecond(m, n, d, p, BASE);
    AddMultiple(0, d, BASE);
    MulNeg(-d, BASE);
    r := t;
    if d > 0 {
      var u := GeP1P1ToP3(t, s);
      r := GeMadd(u, Bi[d / 2], s, Mul(d, BASE));
    } else if d < 0 {
      var u := GeP1P1ToP3(t, s);
      r := GeMsub(u, Bi[-d / 2], s, Mul(-d, BASE));
    }
  }

  lemma TailHead(r: seq<int>, i: nat)
    requires i < |r|
    ensures Tail(r, i) == r[i] + 2 * Tail(r, i + 1)
  {
  }

  lemma TailEnd(r: seq<int>)
    ensures Tail(r, |r|) == 0
  {
  }

  lemma NoDigits(p: Point)
    requires Curve()
    ensures Combine(0, p, 0, BASE) == IDENTITY
  {
    hide Add, OnCurve;
    MulZero(p);
    MulZero(BASE);
    IdentityOnCurve();
    AddIdentity(IDENTITY);
  }

  lemma DoubleSum(m: int, n: int, p: Point)
    requires Curve() && OnCurve(p)
    ensures OnCurve(Combine(m, p, n, BASE))
    ensures Add(Combine(m, p, n, BASE), Combine(m, p, n, BASE)) == Combine(2 * m, p, 2 * n, BASE)
  {
    hide Add, OnCurve, Mul, Combine;
    BaseOnCurve();
    CombineOnCurve(m, p, n, BASE);
    CombineAdd(m, n, m, n, p, BASE);
  }

  /** r = a A + b B, for scalars whose recodings lose no carry. */
  method GeDoubleScalarmultVartime(a: seq<byte>, A: GeP3, b: seq<byte>, Bi: seq<GePrecomp>,
    ghost p: Point) returns (r: GeP2)
    requires Curve() && OnCurve(p) && IsP3(A, p) && IsBi(Bi)
    requires |a| == 32 && |b| == 32
    ensures IsP2(r, Combine(Recoded(LE(a)), p, Recoded(LE(b)), BASE))
    ensures LE(a) <= Pow2(255) && LE(b) <= Pow2(255) ==> IsP2(r, Combine(LE(a), p, LE(b), BASE))
  {
    hide Add, OnCurve, Mul, IsP3, IsP2, IsCached, IsP1P1, Fermat, NonSquare, Associative, Combine, Tail, LE, IsBi,
      OddMultiples, Pow2, Recoded;
    BaseOnCurve();
    var aslide := new int[256];
    var bslide := new int[256];
    Slide(aslide, a);
    Slide(bslide, b);
    var Ai := OddTable(A, p);
    r := GeP20();
    ghost var x, y := aslide[..], bslide[..];
    TailEnd(x);
    TailEnd(y);
    var i := 255;
    while i >= 0 && aslide[i] == 0 && bslide[i] == 0
      invariant -1 <= i <= 255 && x == aslide[..] && y == bslide[..]
      invariant Tail(x, i + 1) == 0 && Tail(y, i + 1) == 0
    {
      TailHead(x, i);
      TailHead(y, i);
      i := i - 1;
    }
    NoDigits(p);
    while i >= 0
      invariant -1 <= i <= 255 && x == aslide[..] && y == bslide[..]
      invariant IsP2(r, Combine(Tail(x, i + 1), p, Tail(y, i + 1), BASE))
    {
      TailHead(x, i);
      TailHead(y, i);
      ghost var m, n := Tail(x, i + 1), Tail(y, i + 1);
      DoubleSum(m, n, p);
      var t := GeP2Dbl(r, Combine(m, p, n, BASE));
      t := AddWindow(t, aslide[i], Ai, 2 * m, 2 * n, p, BASE);
      t := AddBaseWindow(t, bslide[i], Bi, 2 * m + aslide[i], 2 * n, p);
      r := GeP1P1ToP2(t, Combine(2 * m + aslide[i], p, 2 * n + bslide[i], BASE));
      i := i - 1;
    }
  }

  // ---- a B -----------------------------------------------------------------------------

  /** equal(): the top bit of (x ^ y) - 1 in 64 bits says whether two bytes are the same. */
  function Equal(b: int, c: int): (r: int)
    requires -128 <= b < 256 && -128 <= c < 256
    ensures r == if b % 256 == c % 256 then 1 else 0
  {
    hide Xor;
    XorIsZero(b % 256, c % 256);
    assert Pow2(8) == 256 by { Pow2Small(); }
    XorBound(b % 256, c % 256, 8);
    Top64(Xor(b % 256, c % 256) - 1)
  }

  /** The top bit of a value in 64 bits. */
  function Top64(x: int): (r: int)
    requires -128 <= x < 256
    ensures r == if x < 0 then 1 else 0
  {
    x % 0x1_0000_0000_0000_0000 / 0x8000_0000_0000_0000
  }

  /** negative(): the sign bit of a byte widened to 64 bits. */
  function Negative(b: int): (r: int)
    requires -128 <= b < 128
    ensures r == if b < 0 then 1 else 0
  {
    Top64(b)
  }

  /** b - (((-bnegative) & b) << 1), stored in a byte. */
  function Magnitude(b: int): (r: int)
    requires -128 <= b < 128
    ensures r == if b < 0 then -b else b
  {
    hide SAnd;
    AndAllOnes(b);
    AndZero(b);
    (b - 2 * SAnd(-Negative(b), b)) % 256
  }

  method Cmov(t: GePrecomp, u: GePrecomp, b: int) returns (r: GePrecomp)
    requires b == 0 || b == 1
    ensures r == if b == 1 then u else t
  {
    var yplusx := FeCmov(t.yplusx, u.yplusx, b);
    var yminusx := FeCmov(t.yminusx, u.yminusx, b);
    var xy2d := FeCmov(t.xy2d, u.xy2d, b);
    r := GePrecomp(yplusx, yminusx, xy2d);
  }

  /** One row of the table base: entry k stands for (k + 1) q. */
  ghost predicate IsRow(row: seq<GePrecomp>, q: Point) {
    |row| == 8 && forall k :: 0 <= k < 8 ==> IsPrecomp(row[k], Mul(k + 1, q))
  }

  /** The table base of precomp_data.h: row pos holds the multiples of 256^pos B. */
  ghost predicate IsBase(base: seq<seq<GePrecomp>>) {
    |base| == 32 && forall pos :: 0 <= pos < 32 ==> IsRow(base[pos], Mul(Pow2(8 * pos), BASE))
  }

  lemma IdentityPrecomp()
    ensures IsPrecomp(GePrecomp(ONE, ONE, ZERO), IDENTITY)
  {
    ZeroValue();
    OneValue();
    ConstantBounds();
    hide Val, Cong, MulInput;
    var p := IDENTITY;
    assert p.x == 0 && p.y == 1;
    TimesZero(D);
    CongRefl(1);
    CongRefl(0);
    ScaledMeans(ONE, 1, ONE);
    ScaledWeightMeans(ZERO, p, ONE);
  }

  lemma TimesZero(d: int)
    ensures 2 * (d * (0 * 1)) == 0
  {
  }

  /** The entry for babs, if it is among the first k ones. */
  function Chosen(babs: nat, k: nat): nat { if babs <= k then babs else 0 }

  /** cmov of entry k - 1 when babs is k. */
  method CmovEntry(t: GePrecomp, row: seq<GePrecomp>, k: nat, babs: nat, ghost q: Point) returns (r: GePrecomp)
    requires IsRow(row, q) && 1 <= k <= 8 && babs <= 8 && IsPrecomp(t, Mul(Chosen(babs, k - 1), q))
    ensures IsPrecomp(r, Mul(Chosen(babs, k), q))
  {
    hide IsPrecomp, Mul, Equal;
    r := Cmov(t, row[k - 1], Equal(babs, k));
    assert IsPrecomp(row[k - 1], Mul(k - 1 + 1, q));
  }

  lemma NegPrecomp(t: GePrecomp, p: Point, n: Fe)
    requires IsPrecomp(t, p) && Val(n) == -Val(t.xy2d) && MulInput(n)
    ensures IsPrecomp(GePrecomp(t.yminusx, t.yplusx, n), Neg(p))
  {
    hide Cong, Val, MulInput, Neg;
    PrecompIsCached(t, p);
    OneValue();
    ScaledMeans(t.yminusx, Neg(p).y + Neg(p).x, ONE);
    ScaledMeans(t.yplusx, Neg(p).y - Neg(p).x, ONE);
    ScaledWeightMeans(n, Neg(p), ONE);
    NegReduced(p);
    NegTerms(Neg(p).x, p.x, p.y);
    NegCached(p.x, p.y, Neg(p).x, Weighted(p.x, p.y), Weighted(Neg(p).x, p.y), Val(t.yplusx), Val(t.yminusx),
      Val(t.xy2d), 1);
    Ones(Neg(p).y + Neg(p).x, Neg(p).y - Neg(p).x, Weighted(Neg(p).x, Neg(p).y));
  }

  lemma Ones(a: int, b: int, c: int)
    ensures a * 1 == a && b * 1 == b && c * 1 == c
  {
  }

  lemma NegBounds(f: Fe)
    requires MulInput(f)
    ensures Addable(f) && Within(f, INPUT_E, INPUT_O)
    ensures forall g: Fe :: Within(g, INPUT_E, INPUT_O) ==> MulInput(g)
  {
  }

  /** select(): t = b q from a row of the table, without branching on b. */
  method Select(row: seq<GePrecomp>, b: int, ghost q: Point) returns (t: GePrecomp)
    requires Curve() && OnCurve(q) && IsRow(row, q) && -8 <= b <= 8
    ensures IsPrecomp(t, Mul(b, q))
  {
    hide IsPrecomp, Mul, Neg, Add, OnCurve, Fermat, NonSquare, Associative, IsRow, Negative, Magnitude, Addable, Within,
      MulInput, Val;
    var bnegative := Negative(b);
    var babs := Magnitude(b);
    IdentityPrecomp();
    MulZero(q);
    t := GePrecomp(ONE, ONE, ZERO);
    t := CmovEntry(t, row, 1, babs, q);
    t := CmovEntry(t, row, 2, babs, q);
    t := CmovEntry(t, row, 3, babs, q);
    t := CmovEntry(t, row, 4, babs, q);
    t := CmovEntry(t, row, 5, babs, q);
    t := CmovEntry(t, row, 6, babs, q);
    t := CmovEntry(t, row, 7, babs, q);
    t := CmovEntry(t, row, 8, babs, q);
    PrecompBounds(t, Mul(babs, q));
    NegBounds(t.xy2d);
    var xy2d := FeNeg(t.xy2d);
    NegPrecomp(t, Mul(babs, q), xy2d);
    MulNeg(babs, q);
    t := Cmov(t, GePrecomp(t.yminusx, t.yplusx, xy2d), bnegative);
  }

  lemma PrecompBounds(t: GePrecomp, p: Point)
    requires IsPrecomp(t, p)
    ensures MulInput(t.xy2d)
  {
  }

  /** One round: select, ge_madd, ge_p1p1_to_p3. */
  method AddSelected(h: GeP3, row: seq<GePrecomp>, b: int, ghost m: int, ghost c: int) returns (r: GeP3)
    requires Curve() && IsRow(row, Mul(c, BASE)) && -8 <= b <= 8 && IsP3(h, Mul(m, BASE))
    ensures IsP3(r, Mul(m + b * c, BASE))
  {
    hide IsPrecomp, IsP3, IsP1P1, Mul, Add, OnCurve, Fermat, NonSquare, Associative, IsRow;
    BaseOnCurve();
    ghost var q := Mul(c, BASE);
    MulOnCurve(c, BASE);
    MulOnCurve(m, BASE);
    MulOnCurve(b, q);
    MulMul(b, c, BASE);
    MulAdd(m, b * c, BASE);
    var t := Select(row, b, q);
    var s := GeMadd(h, t, Mul(m, BASE), Mul(b, q));
    r := GeP1P1ToP3(s, Mul(m + b * c, BASE));
  }

  /** Four doublings. */
  method TimesSixteen(h: GeP3, ghost m: int) returns (r: GeP3)
    requires Curve() && IsP3(h, Mul(m, BASE))
    ensures IsP3(r, Mul(16 * m, BASE))
  {
    hide IsP2, IsP3, IsP1P1, Mul, Add, OnCurve, Fermat, NonSquare, Associative;
    BaseOnCurve();
    MulOnCurve(m, BASE);
    MulOnCurve(2 * m, BASE);
    MulOnCurve(4 * m, BASE);
    MulOnCurve(8 * m, BASE);
    MulAdd(m, m, BASE);
    MulAdd(2 * m, 2 * m, BASE);
    MulAdd(4 * m, 4 * m, BASE);
    MulAdd(8 * m, 8 * m, BASE);
    var t := GeP3Dbl(h, Mul(m, BASE));
    var s := GeP1P1ToP2(t, Mul(2 * m, BASE));
    t := GeP2Dbl(s, Mul(2 * m, BASE));
    s := GeP1P1ToP2(t, Mul(4 * m, BASE));
    t := GeP2Dbl(s, Mul(4 * m, BASE));
    s := GeP1P1ToP2(t, Mul(8 * m, BASE));
    t := GeP2Dbl(s, Mul(8 * m, BASE));
    r := GeP1P1ToP3(t, Mul(16 * m, BASE));
  }

  /** h = a B */
  method GeScalarmultBase(a: seq<byte>, base: seq<seq<GePrecomp>>) returns (h: GeP3)
    requires Curve() && IsBase(base) && |a| == 32 && a[31] <= 127
    ensures IsP3(h, Mul(LE(a), BASE))
  {
    hide IsP3, Mul, Add, OnCurve, Fermat, NonSquare, Associative, IsRow, Half, LE, Tail16, Pow2;
    var e := Radix16(a);
    ghost var digits := e[..];
    HalvesJoin(digits, 32);
    Tail16End(digits);
    h := GeP30();
    MulZero(BASE);
    NoHalf(digits);
    var i := 1;
    while i < 64
      invariant 1 <= i <= 65 && i % 2 == 1 && digits == e[..]
      invariant IsP3(h, Mul(Half(digits, 1, i / 2), BASE))
    {
      HalfNext(digits, 1, i / 2);
      h := AddSelected(h, base[i / 2], e[i], Half(digits, 1, i / 2), Pow2(8 * (i / 2)));
      i := i + 2;
    }
    ghost var m := 16 * Half(digits, 1, 32);
    h := TimesSixteen(h, Half(digits, 1, 32));
    i := 0;
    while i < 64
      invariant 0 <= i <= 64 && i % 2 == 0 && digits == e[..]
      invariant IsP3(h, Mul(m + Half(digits, 0, i / 2), BASE))
    {
      HalfNext(digits, 0, i / 2);
      h := AddSelected(h, base[i / 2], e[i], m + Half(digits, 0, i / 2), Pow2(8 * (i / 2)));
      i := i + 2;
    }
  }

  lemma Tail16End(e: seq<int>)
    ensures Tail16(e, |e|) == 0
  {
  }

  lemma NoHalf(e: seq<int>)
    ensures Half(e, 0, 0) == 0 && Half(e, 1, 0) == 0
  {
  }

  lemma HalfNext(e: seq<int>, parity: nat, i: nat)
    requires parity < 2 && 2 * i + 2 <= |e|
    ensures Half(e, parity, i + 1) == Half(e, parity, i) + e[2 * i + parity] * Pow2(8 * i)
  {
  }
}
