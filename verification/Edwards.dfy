/** The group that ge.c computes in: affine points of -x^2 + y^2 = 1 + d x^2 y^2 over the
  * integers modulo p, with the addition law of section 5.1.4 of RFC 8032.
  *
  * Three facts about the fixed constants are hypotheses, because they are number theory that the
  * code takes for granted: p is prime (used as Fermat's little theorem), d is not a square
  * modulo p, and the addition law is associative. Completeness, closure, commutativity,
  * identity and inverses are proved from them. */
module Edwards {
  import opened Modular

  const D := 0x52036cee2b6ffe738cc740797779e89800700a4d4141d8ab75eb4dca135978a3
  const SQRT_M1 := 0x2b8324804fc1df0b2b4d00993dfbd7a72f431806ad2fe478c4ee1b274a0ea0b0

  datatype Point = Point(x: int, y: int)

  const IDENTITY := Point(0, 1)

  /** The base point of section 5.1 of RFC 8032: y is 4/5 and x is even. */
  const BASE := Point(
    0x216936d3cd6e53fec0a4e231fdd6dc5c692cc7609525a7b2c9562d608f25d51a,
    0x6666666666666666666666666666666666666666666666666666666666666658)

  // ---- hypotheses ----------------------------------------------------------------------

  ghost predicate FermatAt(z: int) { !Cong(z, 0) ==> Cong(Pow(z, P - 1), 1) }

  /** p is prime. */
  ghost predicate Fermat() { forall z :: FermatAt(z) }

  ghost predicate NotRootOfD(z: int) { !Cong(z * z, D) }

  ghost predicate NonSquare() { forall z :: NotRootOfD(z) }

  ghost predicate AssociativeAt(p: Point, q: Point, r: Point) {
    OnCurve(p) && OnCurve(q) && OnCurve(r) ==> Add(Add(p, q), r) == Add(p, Add(q, r))
  }

  ghost predicate Associative() { forall p, q, r :: AssociativeAt(p, q, r) }

  ghost predicate PrimeField() { Fermat() && NonSquare() }

  // ---- definitions ---------------------------------------------------------------------

  ghost predicate Equation(x: int, y: int) {
    forall u {:trigger Opened(x, y, u)} :: Opened(x, y, u) ==>
      exists v {:trigger Witnessed(x, y, v)} :: Witnessed(x, y, v) && Cong(y * y - x * x, 1 + D * (x * x) * (y * y))
  }

  lemma EquationMeans(x: int, y: int)
    ensures Equation(x, y) <==> Cong(y * y - x * x, 1 + D * (x * x) * (y * y))
  {
    assert Opened(x, y, 0) && Witnessed(x, y, 0);
  }

  ghost predicate OnCurve(p: Point) {
    0 <= p.x < P && 0 <= p.y < P && Equation(p.x, p.y)
  }

  function Inverse(z: int): int { Pow(z, P - 2) }

  /** d x1 x2 y1 y2. */
  function Cross(p: Point, q: Point): int { D * (p.x * q.x) * (p.y * q.y) }

  function Sum(p: Point, q: Point): Point {
    var t := Cross(p, q);
    Point((p.x * q.y + q.x * p.y) * Inverse(1 + t) % P, (p.y * q.y + p.x * q.x) * Inverse(1 - t) % P)
  }

  ghost predicate Added(p: Point, q: Point, u: int) { true }

  ghost predicate IsSum(p: Point, q: Point, r: Point) {
    forall u {:trigger Added(p, q, u)} :: Added(p, q, u) ==> r == Sum(p, q)
  }

  /** The sum as the group operation: the solver looks into the formula of the pairs named by Added. */
  ghost function Add(p: Point, q: Point): Point {
    assert IsSum(p, q, Sum(p, q));
    var r :| IsSum(p, q, r);
    r
  }

  lemma AddMeans(p: Point, q: Point)
    ensures Add(p, q) == Sum(p, q)
  {
    assert Added(p, q, 0);
  }

  function Neg(p: Point): Point { Point(-p.x % P, p.y) }

  // ---- the field -----------------------------------------------------------------------

  lemma InverseLaw(z: int)
    requires Fermat() && !Cong(z, 0)
    ensures Cong(z * Inverse(z), 1)
  {
    assert FermatAt(z);
    assert Pow(z, P - 1) == z * Pow(z, P - 2);
  }

  lemma Cancel(a: int, b: int, c: int)
    requires Fermat() && !Cong(c, 0) && Cong(a * c, b * c)
    ensures Cong(a, b)
  {
    hide Cong, Pow, Inverse;
    var i := Inverse(c);
    InverseLaw(c);
    CongMulBy(a * c, b * c, i);
    CongMulBy(c * i, 1, a);
    CongMulBy(c * i, 1, b);
    assert a * c * i == a * (c * i) && b * c * i == b * (c * i);
    CongSym(a * (c * i), a);
    CongTrans(a, a * (c * i), b * (c * i));
    CongTrans(a, b * (c * i), b);
  }

  lemma NoZeroDivisors(a: int, b: int)
    requires Fermat() && Cong(a * b, 0)
    ensures Cong(a, 0) || Cong(b, 0)
  {
    if !Cong(b, 0) {
      Cancel(a, 0, b);
    }
  }

  lemma SqrtMinusOne()
    ensures Cong(SQRT_M1 * SQRT_M1, -1)
  {
    CongIntro(SQRT_M1 * SQRT_M1, -1, 6690407189080634018507799843845558368979872843924222843531373839242004886245);
  }

  // ---- completeness --------------------------------------------------------------------

  lemma RootOfD(c: int, r: int)
    requires Fermat() && Cong(D * (c * c), r * r) && !Cong(c, 0)
    ensures Cong((r * Inverse(c)) * (r * Inverse(c)), D)
  {
    hide Cong, Pow, Inverse;
    var i := Inverse(c);
    InverseLaw(c);
    CongMul(c * i, 1, c * i, 1);
    CongMulBy((c * i) * (c * i), 1, D);
    CongMulBy(D * (c * c), r * r, i * i);
    Regroup(D, c, r, i);
    CongSym(D * (c * c) * (i * i), (r * i) * (r * i));
    CongTrans((r * i) * (r * i), D * ((c * i) * (c * i)), D);
  }

  lemma Regroup(d: int, c: int, r: int, i: int)
    ensures d * (c * c) * (i * i) == d * ((c * i) * (c * i)) && r * r * (i * i) == (r * i) * (r * i)
  {
  }

  /** If d times a square is a square, then the first square is zero. */
  lemma NonSquareQuotient(c: int, r: int)
    requires PrimeField() && Cong(D * (c * c), r * r)
    ensures Cong(c, 0)
  {
    assert NotRootOfD(r * Inverse(c));
    if !Cong(c, 0) {
      RootOfD(c, r);
    }
  }

  /** With e = d x1 x2 y1 y2 and e^2 = 1, d (x1 y1 (y2 + i x2))^2 is (y1 + e i x1)^2. */
  lemma CompleteIdentity(x1: int, y1: int, x2: int, y2: int, i: int, e: int)
    requires Equation(x1, y1) && Equation(x2, y2)
    requires e == D * (x1 * x2) * (y1 * y2) && Cong(e * e, 1) && Cong(i * i, -1)
    ensures var w := x1 * y1 * (y2 + i * x2);
      Cong(D * (w * w), (y1 + e * i * x1) * (y1 + e * i * x1))
  {
    hide Cong;
    EquationMeans(x1, y1);
    EquationMeans(x2, y2);
    CompleteLeft(D, x1, y1, x2, y2, i, e);
    CompleteSquare(D, x1, y1, x2, y2);
    CompleteRight(x1, y1, i, e);
    var w, r := x1 * y1 * (y2 + i * x2), y1 + e * i * x1;
    CompleteSum(D * (x1 * x1) * (y1 * y1), D * (x2 * x2) * (y2 * y2), y2 * y2 - x2 * x2, x2 * x2, y1 * y1 - x1 * x1,
      x1 * x1,
      2 * (i * e * (x1 * y1)), e * e, i * i, D * (w * w), r * r);
  }

  lemma CompleteSum(a: int, b: int, v: int, q: int, u: int, p: int, z: int, ee: int, ii: int, l: int, r: int)
    requires l == a * v + z + a * ((ii + 1) * q) && r == u + z + (ee * ii + 1) * p
    requires Cong(u, 1 + a) && Cong(v, 1 + b) && ee == a * b && Cong(ee, 1) && Cong(ii, -1)
    ensures Cong(l, r)
  {
    CongRefl(1);
    CongMulBy(v, 1 + b, a);
    CongAdd(ii, -1, 1, 1);
    CongMulBy(ii + 1, 0, q);
    CongMulBy((ii + 1) * q, 0, a);
    CongMul(ee, 1, ii, -1);
    CongAdd(ee * ii, 1 * -1, 1, 1);
    CongMulBy(ee * ii + 1, 0, p);
    CompleteTotal(a, ee, a * (1 + b), a * v, a * ((ii + 1) * q), z, u, (ee * ii + 1) * p);
  }

  lemma CompleteTotal(a: int, ee: int, s: int, av: int, aq: int, z: int, u: int, ep: int)
    requires s == a + ee && Cong(av, s) && Cong(aq, 0) && Cong(ee, 1) && Cong(u, 1 + a) && Cong(ep, 0)
    ensures Cong(av + z + aq, u + z + ep)
  {
    var j := CongWitness(av, s);
    var k := CongWitness(aq, 0);
    var l := CongWitness(ee, 1);
    var m := CongWitness(u, 1 + a);
    var n := CongWitness(ep, 0);
    CongIntro(av + z + aq, u + z + ep, j + k + l - m - n);
  }

  lemma CompleteLeft(d: int, x1: int, y1: int, x2: int, y2: int, i: int, e: int)
    requires e == d * (x1 * x2) * (y1 * y2)
    ensures d * ((x1 * y1 * (y2 + i * x2)) * (x1 * y1 * (y2 + i * x2)))
      == d * (x1 * x1) * (y1 * y1) * (y2 * y2 - x2 * x2) + 2 * (i * e * (x1 * y1))
      + d * (x1 * x1) * (y1 * y1) * ((i * i + 1) * (x2 * x2))
  {
    var c := d * (x1 * x1) * (y1 * y1);
    Square3(d, x1, y1, y2 + i * x2);
    SquareSum(y2, i, x2);
    Distribute(c, y2 * y2 - x2 * x2, 2 * (i * (x2 * y2)), (i * i + 1) * (x2 * x2));
    CrossTerm(d, x1, y1, x2, y2, i);
  }

  lemma Square3(d: int, x: int, y: int, z: int)
    ensures d * ((x * y * z) * (x * y * z)) == d * (x * x) * (y * y) * (z * z)
  {
  }

  lemma SquareSum(y: int, i: int, x: int)
    ensures (y + i * x) * (y + i * x) == (y * y - x * x) + 2 * (i * (x * y)) + (i * i + 1) * (x * x)
  {
  }

  lemma CrossTerm(d: int, x1: int, y1: int, x2: int, y2: int, i: int)
    ensures d * (x1 * x1) * (y1 * y1) * (2 * (i * (x2 * y2))) == 2 * (i * (d * (x1 * x2) * (y1 * y2)) * (x1 * y1))
  {
    var c, t := d * (x1 * x1) * (y1 * y1), i * (x2 * y2);
    assert c * (2 * t) == 2 * (c * t);
    CrossMonomial(d, x1, y1, x2, y2, i);
  }

  lemma CrossMonomial(d: int, x1: int, y1: int, x2: int, y2: int, i: int)
    ensures d * (x1 * x1) * (y1 * y1) * (i * (x2 * y2)) == i * (d * (x1 * x2) * (y1 * y2)) * (x1 * y1)
  {
    CrossRegroup(d, x1, y1, x2, y2, i);
    Rotate(d * (x1 * x1) * (y1 * y1), i, x2 * y2);
    Rotate(d * (x1 * x2) * (y1 * y2), i, x1 * y1);
  }

  lemma CrossRegroup(d: int, x1: int, y1: int, x2: int, y2: int, i: int)
    ensures (d * (x1 * x2) * (y1 * y2)) * (x1 * y1) * i == d * (x1 * x1) * (y1 * y1) * (x2 * y2) * i
  {
  }

  lemma Rotate(c: int, i: int, t: int)
    ensures c * (i * t) == c * t * i && i * c * t == c * t * i
  {
  }

  lemma Distribute(c: int, p: int, q: int, r: int)
    ensures c * (p + q + r) == c * p + c * q + c * r
  {
  }

  lemma CompleteSquare(d: int, x1: int, y1: int, x2: int, y2: int)
    ensures (d * (x1 * x2) * (y1 * y2)) * (d * (x1 * x2) * (y1 * y2))
      == d * (x1 * x1) * (y1 * y1) * (d * (x2 * x2) * (y2 * y2))
  {
  }

  lemma CompleteRight(x1: int, y1: int, i: int, e: int)
    ensures (y1 + e * i * x1) * (y1 + e * i * x1)
      == (y1 * y1 - x1 * x1) + 2 * (i * e * (x1 * y1)) + ((e * e) * (i * i) + 1) * (x1 * x1)
  {
  }

  /** d x1 x2 y1 y2 cannot be 1 or -1: it would have to be zero as well. */
  lemma UnitCross(p: Point, q: Point)
    requires PrimeField() && OnCurve(p) && OnCurve(q) && Cong(Cross(p, q) * Cross(p, q), 1)
    ensures Cong(Cross(p, q), 0)
  {
    hide Cong, NonSquare, Fermat;
    var i, e := SQRT_M1, Cross(p, q);
    var u, v := p.x * p.y * (q.y + i * q.x), p.x * p.y * (q.y + -i * q.x);
    SqrtMinusOne();
    CompleteIdentity(p.x, p.y, q.x, q.y, i, e);
    NonSquareQuotient(u, p.y + e * i * p.x);
    assert -i * -i == i * i;
    CompleteIdentity(p.x, p.y, q.x, q.y, -i, e);
    NonSquareQuotient(v, p.y + e * -i * p.x);
    CongAdd(u, 0, v, 0);
    CongMulBy(u + v, 0, D * q.x);
    CrossFromSum(D, p.x, p.y, q.x, q.y, i);
    Halve(e);
  }

  lemma CrossFromSum(d: int, x1: int, y1: int, x2: int, y2: int, i: int)
    ensures (d * x2) * (x1 * y1 * (y2 + i * x2) + x1 * y1 * (y2 + -i * x2)) == 2 * (d * (x1 * x2) * (y1 * y2))
  {
    var a := x1 * y1;
    assert a * (y2 + i * x2) + a * (y2 + -i * x2) == 2 * (a * y2);
    assert (d * x2) * (2 * (a * y2)) == 2 * ((d * x2) * (a * y2));
    CrossCommute(d, x1, y1, x2, y2);
  }

  lemma CrossCommute(d: int, x1: int, y1: int, x2: int, y2: int)
    ensures (d * x2) * (x1 * y1 * y2) == d * (x1 * x2) * (y1 * y2)
  {
  }

  lemma Halve(e: int)
    requires Cong(2 * e, 0)
    ensures Cong(e, 0)
  {
    CongMulBy(2 * e, 0, (P + 1) / 2);
    CongIntro((P + 1) / 2 * (2 * e), e, e);
    CongSame((P + 1) / 2 * (2 * e), e);
    CongSame((P + 1) / 2 * (2 * e), (P + 1) / 2 * 0);
    CongSame(e, 0);
  }

  /** The denominators of the addition law never vanish. */
  lemma Complete(p: Point, q: Point)
    requires PrimeField() && OnCurve(p) && OnCurve(q)
    ensures !Cong(1 + Cross(p, q), 0) && !Cong(1 - Cross(p, q), 0)
  {
    hide Cong, Cross, OnCurve, PrimeField;
    var t := Cross(p, q);
    if Cong(1 + t, 0) || Cong(1 - t, 0) {
      UnitSquare(t);
      UnitCross(p, q);
      ZeroIsNotOne(t);
    }
  }

  lemma UnitSquare(t: int)
    requires Cong(1 + t, 0) || Cong(1 - t, 0)
    ensures Cong(t * t, 1)
  {
    CongRefl(1);
    CongRefl(-1);
    if Cong(1 + t, 0) {
      CongAdd(1 + t, 0, -1, -1);
      CongMul(t, -1, t, -1);
    } else {
      CongAdd(1, 1, 1 - t, 0);
      CongMul(t, 1, t, 1);
    }
  }

  lemma ZeroIsNotOne(t: int)
    requires Cong(t, 0)
    ensures !Cong(1 + t, 0) && !Cong(1 - t, 0)
  {
    CongMeans(t, 0);
    CongMeans(1 + t, 0);
    CongMeans(1 - t, 0);
  }

  // ---- the addition law ----------------------------------------------------------------

  ghost predicate LawOf(p: Point, q: Point, r: Point, v: int) { true }

  /** The cross-multiplied affine law: r has the sum's numerators over the sum's denominators. */
  ghost predicate SumLaw(p: Point, q: Point, r: Point) {
    forall u {:trigger Added(p, q, u)} :: Added(p, q, u) ==>
      exists v {:trigger LawOf(p, q, r, v)} :: LawOf(p, q, r, v)
        && Cong(r.x * (1 + Cross(p, q)), p.x * q.y + q.x * p.y)
        && Cong(r.y * (1 - Cross(p, q)), p.y * q.y + p.x * q.x)
  }

  lemma SumLawMeans(p: Point, q: Point, r: Point)
    ensures SumLaw(p, q, r) <==>
      Cong(r.x * (1 + Cross(p, q)), p.x * q.y + q.x * p.y) && Cong(r.y * (1 - Cross(p, q)), p.y * q.y + p.x * q.x)
  {
    assert Added(p, q, 0) && LawOf(p, q, r, 0);
  }

  /** Add satisfies the cross-multiplied affine law. */
  lemma AddLaw(p: Point, q: Point)
    requires PrimeField() && OnCurve(p) && OnCurve(q)
    ensures SumLaw(p, q, Add(p, q))
  {
    AddMeans(p, q);
    SumLawMeans(p, q, Add(p, q));
    Complete(p, q);
    QuotientLaw(p.x * q.y + q.x * p.y, 1 + Cross(p, q));
    QuotientLaw(p.y * q.y + p.x * q.x, 1 - Cross(p, q));
  }

  lemma QuotientLaw(n: int, z: int)
    requires Fermat() && !Cong(z, 0)
    ensures Cong(n * Inverse(z) % P * z, n)
  {
    hide Cong, Pow, Inverse;
    InverseLaw(z);
    var i := Inverse(z);
    Reduce(n * i);
    CongMulBy(n * i % P, n * i, z);
    CongMulBy(z * i, 1, n);
    assert n * i * z == n * (z * i);
    CongTrans(n * i % P * z, n * (z * i), n);
  }

  lemma Reduce(a: int)
    ensures Cong(a % P, a) && 0 <= a % P < P
  {
    CongIntro(a % P, a, -(a / P));
  }

  // ---- closure -------------------------------------------------------------------------

  lemma SumDifference(x1: int, y1: int, x2: int, y2: int)
    ensures var n, m := x1 * y2 + x2 * y1, y1 * y2 + x1 * x2;
      && m * m - n * n == (y1 * y1 - x1 * x1) * (y2 * y2 - x2 * x2)
      && m * m + n * n == (y1 * y1 + x1 * x1) * (y2 * y2 + x2 * x2) + 4 * ((x1 * y1) * (x2 * y2))
      && n * m == (x1 * y1) * (y2 * y2 + x2 * x2) + (x2 * y2) * (y1 * y1 + x1 * x1)
  {
    var n, m := x1 * y2 + x2 * y1, y1 * y2 + x1 * x2;
    Binomial(x1, y2, x2, y1);
    Binomial(y1, y2, x1, x2);
    Binomial2(y1 * y1, x1 * x1, y2 * y2, x2 * x2);
    SquareProducts(x1, y1, x2, y2);
  }

  lemma Binomial(a: int, b: int, c: int, d: int)
    ensures (a * b + c * d) * (a * b + c * d) == (a * a) * (b * b) + (c * c) * (d * d) + 2 * ((a * c) * (b * d))
  {
  }

  lemma Binomial2(a: int, b: int, c: int, d: int)
    ensures (a - b) * (c - d) == a * c - a * d - b * c + b * d
    ensures (a + b) * (c + d) == a * c + a * d + b * c + b * d
  {
  }

  lemma SquareProducts(x1: int, y1: int, x2: int, y2: int)
    ensures (x1 * x2) * (y2 * y1) == (x1 * y1) * (x2 * y2) && (y1 * x1) * (y2 * x2) == (x1 * y1) * (x2 * y2)
    ensures (x1 * y2 + x2 * y1) * (y1 * y2 + x1 * x2) == (x1 * y1) * (y2 * y2) + (x2 * y2) * (x1 * x1)
      + (x2 * y2) * (y1 * y1) + (x1 * y1) * (x2 * x2)
    ensures (x1 * y1) * (y2 * y2 + x2 * x2) == (x1 * y1) * (y2 * y2) + (x1 * y1) * (x2 * x2)
    ensures (x2 * y2) * (y1 * y1 + x1 * x1) == (x2 * y2) * (y1 * y1) + (x2 * y2) * (x1 * x1)
  {
  }

  lemma ProductOfSums(p1: int, p2: int, s1: int, s2: int)
    ensures (p1 * s2 + p2 * s1) * (p1 * s2 + p2 * s1)
      == 2 * (p1 * p2) * (s1 * s2 + 4 * (p1 * p2)) + (p1 * p1) * (s2 * s2 - 4 * (p2 * p2))
        + (p2 * p2) * (s1 * s1 - 4 * (p1 * p1))
  {
    Binomial(p1, s2, p2, s1);
    ProductOfSums2(p1, p2, s1, s2);
  }

  lemma ProductOfSums2(p1: int, p2: int, s1: int, s2: int)
    ensures 2 * ((p1 * p2) * (s2 * s1)) + (p1 * p1) * (s2 * s2) + (p2 * p2) * (s1 * s1)
      == 2 * (p1 * p2) * (s1 * s2 + 4 * (p1 * p2)) + (p1 * p1) * (s2 * s2 - 4 * (p2 * p2))
        + (p2 * p2) * (s1 * s1 - 4 * (p1 * p1))
  {
  }

  lemma SumSquare(x: int, y: int)
    ensures (y * y + x * x) * (y * y + x * x) - 4 * ((x * y) * (x * y)) == (y * y - x * x) * (y * y - x * x)
  {
  }

  /** The squared numerators, in terms of u = y1^2 - x1^2 and v = y2^2 - x2^2. */
  lemma NumeratorProduct(x1: int, y1: int, x2: int, y2: int)
    ensures var n, m := x1 * y2 + x2 * y1, y1 * y2 + x1 * x2;
      var p1, p2, u, v := x1 * y1, x2 * y2, y1 * y1 - x1 * x1, y2 * y2 - x2 * x2;
      (n * n) * (m * m) == 2 * (p1 * p2) * (m * m + n * n) + (p1 * p1) * (v * v) + (p2 * p2) * (u * u)
  {
    var n, m := x1 * y2 + x2 * y1, y1 * y2 + x1 * x2;
    SumDifference(x1, y1, x2, y2);
    ProductOfSums(x1 * y1, x2 * y2, y1 * y1 + x1 * x1, y2 * y2 + x2 * x2);
    SumSquare(x1, y1);
    SumSquare(x2, y2);
    Interchange(n, n, m, m);
  }

  /** Both sides of the curve equation of the sum, times both squared denominators, differ by a
    * polynomial that only the two given curve equations make vanish. */
  lemma ClosureExact(n2: int, m2: int, d: int, pi: int, q1: int, q2: int, u: int, v: int, t: int)
    requires m2 - n2 == u * v
    requires n2 * m2 == 2 * pi * (m2 + n2) + q1 * (v * v) + q2 * (u * u)
    requires t == d * pi && t * t == (d * q1) * (d * q2)
    ensures m2 * ((1 + t) * (1 + t)) - n2 * ((1 - t) * (1 - t)) - (1 - t * t) * (1 - t * t) - d * (n2 * m2)
      == (u * v) * (1 + t * t) - (1 - t * t) * (1 - t * t) - (d * q1) * (v * v) - (d * q2) * (u * u)
  {
    Expand(m2, n2, t);
    ScaleSum(d, pi, m2 + n2, q1, v * v, q2, u * u);
  }

  lemma Expand(m: int, n: int, t: int)
    ensures m * ((1 + t) * (1 + t)) - n * ((1 - t) * (1 - t)) == (m - n) * (1 + t * t) + 2 * (t * (m + n))
  {
  }

  lemma ScaleSum(d: int, pi: int, s: int, q1: int, v: int, q2: int, u: int)
    ensures d * (2 * pi * s + q1 * v + q2 * u) == 2 * (d * pi * s) + (d * q1) * v + (d * q2) * u
  {
  }

  /** ... and they do: u = 1 + a and v = 1 + b modulo p, where ab = t^2. */
  lemma ClosureVanishes(a: int, b: int, u: int, v: int, c: int)
    requires Cong(u, 1 + a) && Cong(v, 1 + b) && c == a * b
    ensures Cong((u * v) * (1 + c) - (1 - c) * (1 - c) - a * (v * v) - b * (u * u), 0)
  {
    hide Cong;
    CongMul(u, 1 + a, v, 1 + b);
    CongMulBy(u * v, (1 + a) * (1 + b), 1 + c);
    CongMul(u, 1 + a, u, 1 + a);
    CongMulBy(u * u, (1 + a) * (1 + a), b);
    CongMul(v, 1 + b, v, 1 + b);
    CongMulBy(v * v, (1 + b) * (1 + b), a);
    VanishIdentity(a, b);
    VanishTotal((u * v) * (1 + c), (1 + a) * (1 + b) * (1 + c), (1 - c) * (1 - c), a * (v * v), a * ((1 + b) * (1 + b)),
      b * (u * u), b * ((1 + a) * (1 + a)));
  }

  lemma VanishIdentity(a: int, b: int)
    ensures (1 + a) * (1 + b) * (1 + a * b) - (1 - a * b) * (1 - a * b) - a * ((1 + b) * (1 + b)) - b * ((1 + a) * (1
      + a)) == 0
  {
  }

  lemma VanishTotal(w: int, w': int, c: int, x: int, x': int, y: int, y': int)
    requires Cong(w, w') && Cong(x, x') && Cong(y, y') && w' - c - x' - y' == 0
    ensures Cong(w - c - x - y, 0)
  {
    var k := CongWitness(w, w');
    var l := CongWitness(x, x');
    var m := CongWitness(y, y');
    CongIntro(w - c - x - y, 0, k - l - m);
  }

  /** If n = x (1 + t) and m = y (1 - t), the closure equation for n and m is that of (x, y), scaled. */
  lemma ClosureScaled(n: int, m: int, x: int, y: int, t: int)
    requires PrimeField() && !Cong(1 + t, 0) && !Cong(1 - t, 0)
    requires Cong(x * (1 + t), n) && Cong(y * (1 - t), m)
    requires Cong((m * m) * ((1 + t) * (1
      + t)) - (n * n) * ((1 - t) * (1 - t)) - (1 - t * t) * (1 - t * t) - D * ((n * n) * (m * m)), 0)
    ensures Equation(x, y)
  {
    hide Cong;
    EquationMeans(x, y);
    var a, b := (1 + t) * (1 + t), (1 - t) * (1 - t);
    ScaleSquare(x, 1 + t, n);
    ScaleSquare(y, 1 - t, m);
    CongMulBy((x * x) * a, n * n, b);
    CongMulBy((y * y) * b, m * m, a);
    CongMul((x * x) * a, n * n, (y * y) * b, m * m);
    CongMulBy(((x * x) * a) * ((y * y) * b), (n * n) * (m * m), D);
    Conjugates(t);
    ScaledTotal(x * x, y * y, a, b, (m * m) * a, (n * n) * b, D * ((n * n) * (m * m)));
    WeightNonzero(t);
    Cancel(y * y - x * x, 1 + D * (x * x) * (y * y), a * b);
  }

  lemma ScaleSquare(x: int, z: int, n: int)
    requires Cong(x * z, n)
    ensures Cong((x * x) * (z * z), n * n)
  {
    CongMul(x * z, n, x * z, n);
    Interchange(x, x, z, z);
  }

  lemma Conjugates(t: int)
    ensures (1 - t * t) * (1 - t * t) == ((1 + t) * (1 + t)) * ((1 - t) * (1 - t))
  {
  }

  lemma ScaledTotal(x: int, y: int, a: int, b: int, ma: int, nb: int, dnm: int)
    requires Cong((y * b) * a, ma) && Cong((x * a) * b, nb) && Cong(D * ((x * a) * (y * b)), dnm)
    requires Cong(ma - nb - a * b - dnm, 0)
    ensures Cong((y - x) * (a * b), (1 + D * x * y) * (a * b))
  {
    hide Cong;
    ScaledIdentity(D, x, y, a, b);
    ScaledSum((y * b) * a, (x * a) * b, D * ((x * a) * (y * b)), a * b, ma, nb, dnm);
  }

  lemma ScaledSum(e1: int, e2: int, e3: int, w: int, ma: int, nb: int, dnm: int)
    requires Cong(e1, ma) && Cong(e2, nb) && Cong(e3, dnm) && Cong(ma - nb - w - dnm, 0)
    ensures Cong(e1 - e2, w + e3)
  {
    var j := CongWitness(e1, ma);
    var k := CongWitness(e2, nb);
    var l := CongWitness(e3, dnm);
    var m := CongWitness(ma - nb - w - dnm, 0);
    CongIntro(e1 - e2, w + e3, j - k - l + m);
  }

  lemma ScaledIdentity(d: int, x: int, y: int, a: int, b: int)
    ensures (y - x) * (a * b) == (y * b) * a - (x * a) * b
    ensures (1 + d * x * y) * (a * b) == a * b + d * ((x * a) * (y * b))
  {
  }

  lemma WeightNonzero(t: int)
    requires Fermat() && !Cong(1 + t, 0) && !Cong(1 - t, 0)
    ensures !Cong(((1 + t) * (1 + t)) * ((1 - t) * (1 - t)), 0)
  {
    hide Cong, Fermat;
    var a, b := (1 + t) * (1 + t), (1 - t) * (1 - t);
    if Cong(a * b, 0) {
      NoZeroDivisors(a, b);
      if Cong(a, 0) { NoZeroDivisors(1 + t, 1 + t); }
      if Cong(b, 0) { NoZeroDivisors(1 - t, 1 - t); }
    }
  }

  /** The sum of two points of the curve is on the curve. */
  lemma Closed(p: Point, q: Point)
    requires PrimeField() && OnCurve(p) && OnCurve(q)
    ensures OnCurve(Add(p, q))
  {
    hide Cong, Inverse;
    AddMeans(p, q);
    EquationMeans(p.x, p.y);
    EquationMeans(q.x, q.y);
    var n, m := p.x * q.y + q.x * p.y, p.y * q.y + p.x * q.x;
    var p1, p2, u, v := p.x * p.y, q.x * q.y, p.y * p.y - p.x * p.x, q.y * q.y - q.x * q.x;
    var t := Cross(p, q);
    NumeratorProduct(p.x, p.y, q.x, q.y);
    SumDifference(p.x, p.y, q.x, q.y);
    CrossProducts(D, p.x, p.y, q.x, q.y);
    ClosureExact(n * n, m * m, D, p1 * p2, p1 * p1, p2 * p2, u, v, t);
    ClosureVanishes(D * (p1 * p1), D * (p2 * p2), u, v, t * t);
    Complete(p, q);
    AddLaw(p, q);
    SumLawMeans(p, q, Add(p, q));
    ClosureScaled(n, m, Add(p, q).x, Add(p, q).y, t);
  }

  lemma CrossProducts(d: int, x1: int, y1: int, x2: int, y2: int)
    ensures var t, p1, p2 := d * (x1 * x2) * (y1 * y2), x1 * y1, x2 * y2;
      && t == d * (p1 * p2) && t * t == (d * (p1 * p1)) * (d * (p2 * p2))
      && d * (p1 * p1) == d * (x1 * x1) * (y1 * y1) && d * (p2 * p2) == d * (x2 * x2) * (y2 * y2)
  {
    CrossCommute2(d, x1, y1, x2, y2);
    CrossSquare(d, x1, y1);
    CrossSquare(d, x2, y2);
    CompleteSquare(d, x1, y1, x2, y2);
  }

  lemma CrossCommute2(d: int, x1: int, y1: int, x2: int, y2: int)
    ensures d * (x1 * x2) * (y1 * y2) == d * ((x1 * y1) * (x2 * y2))
  {
  }

  lemma CrossSquare(d: int, x: int, y: int)
    ensures d * ((x * y) * (x * y)) == d * (x * x) * (y * y)
  {
  }
}
