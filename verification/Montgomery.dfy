/** What the ladder computes: the u-coordinate of a multiple of a point, and so a shared secret.
  *
  * The Montgomery curve of section 4.1 of RFC 7748 is the Edwards curve with u = (1 + y) / (1 - y).
  * A pair (X : Z) of the ladder stands for the point with y = (X - Z) / (X + Z), which is defined for
  * the neutral element too. */
module Montgomery {
  import opened Words
  import opened Bytes
  import opened Modular
  import opened Edwards
  import opened ScalarMultiples
  import opened PointBytes
  import opened X25519
  import Recode
  import Rfc7748
  import FieldBytes
  import ScalarMult

  /** (1 + y) / (1 - y), and 0 for the neutral element. */
  function U(p: Point): int { (1 + p.y) * Inverse(1 - p.y) % P }

  /** (X : Z) stands for p. */
  ghost predicate OnU(X: int, Z: int, p: Point) {
    forall u {:trigger Judged(X, Z, p, u)} :: Judged(X, Z, p, u) ==>
      exists v {:trigger Decided(X, Z, p, v)} :: Decided(X, Z, p, v)
        && !Cong(X + Z, 0) && Cong(X - Z, p.y * (X + Z))
  }

  /** Name a pair that is to be looked into, as Opened and Witnessed do for numbers. */
  ghost predicate Judged(X: int, Z: int, p: Point, u: int) { true }

  ghost predicate Decided(X: int, Z: int, p: Point, v: int) { true }

  lemma OnUMeans(X: int, Z: int, p: Point)
    ensures OnU(X, Z, p) <==> !Cong(X + Z, 0) && Cong(X - Z, p.y * (X + Z))
  {
    assert Judged(X, Z, p, 0) && Decided(X, Z, p, 0);
  }

  // ---- doubling ------------------------------------------------------------------------

  /** a b and (a - b) (a + A24 (a - b)), added and subtracted. */
  lemma DoublePolynomials(a: int, b: int)
    ensures var e := a - b; var z := e * (a + A24 * e);
      && a * b + z == 121666 * (a * a) - 243330 * (a * b) + 121665 * (b * b)
      && a * b - z == 243332 * (a * b) - 121666 * (a * a) - 121665 * (b * b)
  {
    var e := a - b;
    assert e * (a + A24 * e) == e * a + A24 * (e * e);
    assert e * e == a * a - 2 * (a * b) + b * b && e * a == a * a - a * b;
  }

  /** With b = Y a the two polynomials are those of Y, times a^2. */
  lemma DoubleScaled(a: int, b: int, Y: int, w: int)
    requires Cong(b, Y * a) && w == a * a
    ensures Cong(121666 * (a * a) - 243330 * (a * b) + 121665 * (b * b), (121666 - 243330 * Y + 121665 * (Y * Y)) * w)
    ensures Cong(243332 * (a * b) - 121666 * (a * a) - 121665 * (b * b), (243332 * Y - 121666 - 121665 * (Y * Y)) * w)
  {
    hide Cong;
    CongMulBy(b, Y * a, a);
    assert a * (Y * a) == Y * w;
    CongMul(b, Y * a, b, Y * a);
    assert (Y * a) * (Y * a) == (Y * Y) * w by { Interchange(Y, a, Y, a); }
    DoubleTerms(w, a * b, b * b, Y * w, (Y * Y) * w);
    Distribute(Y, Y * Y, w);
  }

  lemma DoubleTerms(w: int, ab: int, bb: int, Yw: int, YYw: int)
    requires Cong(ab, Yw) && Cong(bb, YYw)
    ensures Cong(121666 * w - 243330 * ab + 121665 * bb, 121666 * w - 243330 * Yw + 121665 * YYw)
    ensures Cong(243332 * ab - 121666 * w - 121665 * bb, 243332 * Yw - 121666 * w - 121665 * YYw)
  {
    var k := CongWitness(ab, Yw);
    var l := CongWitness(bb, YYw);
    CongIntro(121666 * w - 243330 * ab + 121665 * bb, 121666 * w - 243330 * Yw + 121665 * YYw, 121665 * l - 243330 * k);
    CongIntro(243332 * ab - 121666 * w - 121665 * bb, 243332 * Yw - 121666 * w - 121665 * YYw, 243332 * k - 121665 * l);
  }

  lemma Distribute(Y: int, YY: int, w: int)
    ensures (121666 - 243330 * Y + 121665 * YY) * w == 121666 * w - 243330 * (Y * w) + 121665 * (YY * w)
    ensures (243332 * Y - 121666 - 121665 * YY) * w == 243332 * (Y * w) - 121666 * w - 121665 * (YY * w)
  {
  }

  /** d = -121665 / 121666. */
  lemma DValue()
    ensures Cong(121666 * D, -121665) && !Cong(121666, 0) && !Cong(1 + D, 0)
  {
    CongMeans(121666 * D, -121665);
    CongMeans(121666, 0);
    CongMeans(1 + D, 0);
  }

  /** The curve equation, solved for x^2. */
  lemma SolvedEquation(p: Point)
    requires OnCurve(p)
    ensures Cong((p.x * p.x) * (1 + D * (p.y * p.y)), p.y * p.y - 1)
  {
    EquationMeans(p.x, p.y);
    Solved(p.x * p.x, p.y * p.y);
  }

  lemma Solved(Q: int, Y: int)
    requires Cong(Y - Q, 1 + D * Q * Y)
    ensures Cong(Q * (1 + D * Y), Y - 1)
  {
    var k := CongWitness(Y - Q, 1 + D * Q * Y);
    assert Q * (1 + D * Y) == Q + D * Q * Y;
    CongIntro(Q * (1 + D * Y), Y - 1, -k);
  }

  lemma DoubleProducts(d: int, Y: int, Q: int, V: int, t: int)
    requires V == 1 + d * Y && t == d * Q * Y
    ensures V * (1 - t) == 1 + d * Y - d * Y * (Q * V) && V * (Y + Q) == Y + d * (Y * Y) + Q * V
    ensures d * Y * (Y - 1) == d * (Y * Y) - d * Y
  {
    TimesT(d, Q, Y, V);
    assert V * (1 - t) == V - V * t && V * (Y + Q) == V * Y + V * Q && V * Y == Y + d * Y * Y;
    assert d * Y * Y == d * (Y * Y);
  }

  lemma DoubleCongruences(Y: int, dy: int, dyy: int)
    requires dy == D * Y && dyy == D * (Y * Y)
    ensures Cong(121666 * dy, -121665 * Y) && Cong(121666 * dyy, -121665 * (Y * Y))
  {
    hide Cong;
    DValue();
    CongMulBy(121666 * D, -121665, Y);
    CongMulBy(121666 * D, -121665, Y * Y);
  }

  lemma TimesT(d: int, Q: int, Y: int, V: int)
    ensures V * (d * Q * Y) == d * Y * (Q * V)
  {
  }

  /** The two polynomials of Y are denominator and numerator of the doubled y, times 121666 (1 + d Y). */
  lemma DoubleLawTerms(Y: int, YY: int, dy: int, dyy: int, qv: int, dq: int)
    requires Cong(qv, Y - 1) && Cong(dq, dyy - dy) && Cong(121666 * dy, -121665 * Y) && Cong(121666 * dyy, -121665 * YY)
    ensures Cong(121666 - 243330 * Y + 121665 * YY, 121666 * (1 + dy - dq))
    ensures Cong(243332 * Y - 121666 - 121665 * YY, 121666 * (Y + dyy + qv))
  {
    var j := CongWitness(qv, Y - 1);
    var k := CongWitness(dq, dyy - dy);
    var l := CongWitness(121666 * dy, -121665 * Y);
    var m := CongWitness(121666 * dyy, -121665 * YY);
    CongIntro(121666 - 243330 * Y + 121665 * YY, 121666 * (1 + dy - dq), 121666 * k - 2 * l + m);
    CongIntro(243332 * Y - 121666 - 121665 * YY, 121666 * (Y + dyy + qv), -121666 * j - m);
  }

  /** From S = k m, T = k n and y m = n: T = y S. */
  lemma Ratio(S: int, T: int, y: int, k: int, m: int, n: int)
    requires Cong(S, k * m) && Cong(T, k * n) && Cong(y * m, n)
    ensures Cong(T, y * S)
  {
    hide Cong;
    CongMulBy(y * m, n, k);
    CongMulBy(S, k * m, y);
    assert k * (y * m) == y * (k * m);
    CongSym(k * (y * m), k * n);
    CongTrans(T, k * n, k * (y * m));
    CongSym(y * S, y * (k * m));
    CongTrans(T, y * (k * m), y * S);
  }

  lemma Unit3(a: int, b: int, c: int)
    requires Fermat() && !Cong(a, 0) && !Cong(b, 0) && !Cong(c, 0)
    ensures !Cong(a * (b * c), 0)
  {
    hide Cong, Fermat;
    Rfc7748.ProductUnit(b, c);
    Rfc7748.ProductUnit(a, b * c);
  }

  lemma NonzeroTo(a: int, b: int)
    requires Cong(a, b) && !Cong(b, 0)
    ensures !Cong(a, 0)
  {
    hide Cong;
    if Cong(a, 0) {
      CongSym(a, b);
      CongTrans(b, a, 0);
    }
  }

  /** V = 1 + d y^2 is never 0. */
  lemma WeightUnit(y: int)
    requires PrimeField()
    ensures !Cong(1 + D * (y * y), 0)
  {
    DenominatorNonzero(y);
    assert 1 + D * (y * y) == D * (y * y) + 1;
  }

  /** With Y = y^2 the two polynomials are in the ratio of denominator and numerator of the doubled y. */
  lemma DoubleLaw(p: Point) returns (V: int, m: int, n: int)
    requires PrimeField() && OnCurve(p)
    ensures !Cong(V, 0) && !Cong(m, 0) && Cong(Add(p, p).y * m, n)
    ensures var Y := p.y * p.y;
      && Cong(121666 - 243330 * Y + 121665 * (Y * Y), V * m)
      && Cong(243332 * Y - 121666 - 121665 * (Y * Y), V * n)
  {
    hide Cong, OnCurve, Add, Fermat, NonSquare;
    var Y, Q, t := p.y * p.y, p.x * p.x, Cross(p, p);
    var W := 1 + D * Y;
    V, m, n := 121666 * W, 1 - t, Y + Q;
    SolvedEquation(p);
    DoubleProducts(D, Y, Q, W, t);
    CongMulBy(Q * W, Y - 1, D * Y);
    DoubleCongruences(Y, D * Y, D * (Y * Y));
    DoubleLawTerms(Y, Y * Y, D * Y, D * (Y * Y), Q * W, D * Y * (Q * W));
    assert V * m == 121666 * (W * (1 - t)) && V * n == 121666 * (W * (Y + Q));
    DoubleUnits(p);
    AddLaw(p, p);
    SumLawMeans(p, p, Add(p, p));
  }

  lemma DoubleUnits(p: Point)
    requires PrimeField() && OnCurve(p)
    ensures !Cong(121666 * (1 + D * (p.y * p.y)), 0) && !Cong(1 - Cross(p, p), 0)
  {
    hide Cong, OnCurve, Fermat, NonSquare, Cross;
    DValue();
    WeightUnit(p.y);
    Complete(p, p);
    Rfc7748.ProductUnit(121666, 1 + D * (p.y * p.y));
  }

  lemma DoubleU(X: int, Z: int, p: Point)
    requires PrimeField() && OnCurve(p) && OnU(X, Z, p)
    ensures var a, b := (X + Z) * (X + Z), (X - Z) * (X - Z);
      OnU(a * b, (a - b) * (a + A24 * (a - b)), Add(p, p))
  {
    hide Cong, OnCurve, Add, Fermat, NonSquare, OnU;
    OnUMeans(X, Z, p);
    var a, b, y := (X + Z) * (X + Z), (X - Z) * (X - Z), p.y;
    CongMul(X - Z, y * (X + Z), X - Z, y * (X + Z));
    Interchange(y, X + Z, y, X + Z);
    Rfc7748.ProductUnit(X + Z, X + Z);
    DoubleTotal(a, b, p);
    OnUMeans(a * b, (a - b) * (a + A24 * (a - b)), Add(p, p));
  }

  lemma DoubleTotal(a: int, b: int, p: Point)
    requires PrimeField() && OnCurve(p) && Cong(b, (p.y * p.y) * a) && !Cong(a, 0)
    ensures var z := (a - b) * (a + A24 * (a - b)); !Cong(a * b + z, 0) && Cong(a * b - z, Add(p, p).y * (a * b + z))
  {
    hide Cong, OnCurve, Add, Fermat, NonSquare;
    var Y, w, z := p.y * p.y, a * a, (a - b) * (a + A24 * (a - b));
    DoublePolynomials(a, b);
    DoubleScaled(a, b, Y, w);
    var V, m, n := DoubleLaw(p);
    ScaledTo(a * b + z, 121666 - 243330 * Y + 121665 * (Y * Y), w, V, m);
    ScaledTo(a * b - z, 243332 * Y - 121666 - 121665 * (Y * Y), w, V, n);
    Ratio(a * b + z, a * b - z, Add(p, p).y, V * w, m, n);
    Rfc7748.ProductUnit(a, a);
    Rfc7748.ProductUnit(V, w);
    Rfc7748.ProductUnit(V * w, m);
    NonzeroTo(a * b + z, V * w * m);
  }

  lemma ScaledTo(S: int, f: int, w: int, V: int, m: int)
    requires Cong(S, f * w) && Cong(f, V * m)
    ensures Cong(S, V * w * m)
  {
    hide Cong;
    CongMulBy(f, V * m, w);
    assert V * m * w == V * w * m;
    CongTrans(S, f * w, V * m * w);
  }

  // ---- differential addition -----------------------------------------------------------

  /** The identity behind it: with s = y2^2 + y3^2 and p = y2 y3. */
  lemma HarmonicIdentity(d: int, s: int, p: int)
    ensures (1 + p) * (1 + p) * (1 + d * s + d * d * (p * p)) - (p * p - s + 1) * ((1 - d * p) * (1 - d * p))
      == (s + 2 * p) * ((1 + d) * (1 + d * (p * p)))
  {
    var dp, pp := d * p, p * p;
    assert (1 + p) * (1 + p) == 1 + 2 * p + pp && (1 - dp) * (1 - dp) == 1 - 2 * dp + dp * dp;
    assert dp * dp == d * d * pp;
    assert (1 + d) * (1 + d * pp) == 1 + d + d * pp + d * d * pp;
    HarmonicSum(d, s, p, pp, d * d);
  }

  lemma HarmonicSum(d: int, s: int, p: int, pp: int, dd: int)
    requires pp == p * p && dd == d * d
    ensures (1 + 2 * p + pp) * (1 + d * s + dd * pp) - (pp - s + 1) * (1 - 2 * (d * p) + dd * pp)
      == (s + 2 * p) * (1 + d + d * pp + dd * pp)
  {
    var e := dd * pp;
    HarmonicLeft(p, pp, d * s, e);
    HarmonicMiddle(s, pp, d * p, e);
    HarmonicRight(s, p, d, d * pp, e);
    HarmonicMonomials(d, s, p, pp);
  }

  lemma HarmonicLeft(p: int, pp: int, ds: int, e: int)
    ensures (1 + 2 * p + pp) * (1 + ds + e)
      == 1 + ds + e + 2 * p + 2 * (p * ds) + 2 * (p * e) + pp + pp * ds + pp * e
  {
  }

  lemma HarmonicMiddle(s: int, pp: int, dp: int, e: int)
    ensures (pp - s + 1) * (1 - 2 * dp + e)
      == pp - 2 * (pp * dp) + pp * e - s + 2 * (s * dp) - s * e + 1 - 2 * dp + e
  {
  }

  lemma HarmonicRight(s: int, p: int, d: int, dpp: int, e: int)
    ensures (s + 2 * p) * (1 + d + dpp + e)
      == s + s * d + s * dpp + s * e + 2 * p + 2 * (p * d) + 2 * (p * dpp) + 2 * (p * e)
  {
  }

  lemma HarmonicMonomials(d: int, s: int, p: int, pp: int)
    ensures p * (d * s) == s * (d * p) && pp * (d * s) == s * (d * pp) && pp * (d * p) == p * (d * pp)
    ensures s * d == d * s && p * d == d * p
  {
  }

  /** One of the two halves: V is V2 V3, q is x2 x3. */
  lemma HarmonicHalf(V: int, q: int, p: int, s: int)
    requires V == 1 + D * s + D * D * (p * p) && Cong(V * (q * q), p * p - s + 1)
    ensures Cong(V * ((1 + p) * (1 + p) - (q * (1 - D * p)) * (q * (1 - D * p))),
      (s + 2 * p) * ((1 + D) * (1 + D * (p * p))))
  {
    hide Cong;
    var e, f := 1 - D * p, (1 + p) * (1 + p);
    HarmonicIdentity(D, s, p);
    Interchange(q, e, q, e);
    assert V * (f - (q * q) * (e * e)) == f * V - V * (q * q) * (e * e) by { SplitOff(V, f, q * q, e * e); }
    CongMulBy(V * (q * q), p * p - s + 1, e * e);
    CongRefl(f * V);
    CongAdd(f * V, f * V, V * (q * q) * (e * e), (p * p - s + 1) * (e * e));
  }

  lemma SplitOff(V: int, f: int, qq: int, ee: int)
    ensures V * (f - qq * ee) == f * V - V * qq * ee
  {
    assert V * (qq * ee) == V * qq * ee;
  }

  /** The other half. */
  lemma HarmonicMinus(V: int, q: int, p: int, s: int)
    requires V == 1 + D * s + D * D * (p * p) && Cong(V * (q * q), p * p - s + 1)
    ensures Cong(V * ((1 - p) * (1 - p) - (q * (1 + D * p)) * (q * (1 + D * p))),
      (s - 2 * p) * ((1 + D) * (1 + D * (p * p))))
  {
    hide Cong;
    var m := -p;
    assert m * m == p * p && D * m == -(D * p);
    HarmonicHalf(V, q, m, s);
    assert 1 + m == 1 - p && 1 - D * m == 1 + D * p && s + 2 * m == s - 2 * p;
  }

  /** The product of the solved curve equations of two points. */
  lemma ProductEquation(r: Point, q: Point)
    requires OnCurve(r) && OnCurve(q)
    ensures var Y2, Y3, x, p := r.y * r.y, q.y * q.y, r.x * q.x, r.y * q.y;
      var V, s := (1 + D * Y2) * (1 + D * Y3), Y2 + Y3;
      V == 1 + D * s + D * D * (p * p) && Cong(V * (x * x), p * p - s + 1)
  {
    hide Cong, OnCurve;
    var Y2, Y3 := r.y * r.y, q.y * q.y;
    SolvedEquation(r);
    SolvedEquation(q);
    CongMul((r.x * r.x) * (1 + D * Y2), Y2 - 1, (q.x * q.x) * (1 + D * Y3), Y3 - 1);
    Interchange(r.x * r.x, 1 + D * Y2, q.x * q.x, 1 + D * Y3);
    Interchange(r.x, r.x, q.x, q.x);
    Interchange(r.y, r.y, q.y, q.y);
    var p := r.y * q.y;
    assert p * p == Y2 * Y3;
    assert (Y2 - 1) * (Y3 - 1) == Y2 * Y3 - Y2 - Y3 + 1;
    Weights(D, Y2, Y3);
    var V, x := (1 + D * Y2) * (1 + D * Y3), r.x * q.x;
    assert (x * x) * V == V * (x * x);
  }

  lemma Weights(d: int, a: int, b: int)
    ensures (1 + d * a) * (1 + d * b) == 1 + d * (a + b) + d * d * (a * b)
  {
  }

  lemma NegTermsOf(b: int, t: int, p: int, x: int, dp: int)
    requires Cong(b * (1 - -t), p - x) && t == x * dp
    ensures Cong((1 + b) * (1 + t), 1 + p - x * (1 - dp)) && Cong((1 - b) * (1 + t), 1 - p + x * (1 + dp))
  {
    hide Cong;
    var m := -x;
    assert m * dp == -t && m * (1 - dp) == -(x * (1 - dp)) && m * (1 + dp) == -(x * (1 + dp));
    LawTerms(b, -t, p, m, p - x, dp);
    assert 1 - -t == 1 + t;
  }

  lemma CrossForm(r: Point, q: Point)
    ensures Cross(r, q) == (r.x * q.x) * (D * (r.y * q.y))
  {
  }

  /** Negating one x-coordinate negates the product of both, and the cross term. */
  lemma NegCross(x: int, y: int, n: int, p: int, e: int)
    requires Cong(n, -x)
    ensures Cong(y * n * e, -(x * y * e)) && Cong(p + y * n, p - x * y)
  {
    hide Cong;
    CongMulBy(n, -x, y);
    assert y * -x == -(x * y);
    CongMulBy(y * n, -(x * y), e);
    assert e * (y * n) == y * n * e && e * -(x * y) == -(x * y * e);
    CongRefl(p);
    CongAdd(p, p, y * n, -(x * y));
  }

  lemma NegLaw(b: int, c: int, t: int, n: int, p: int, x: int)
    requires Cong(b * (1 - c), n) && Cong(c, -t) && Cong(n, p - x)
    ensures Cong(b * (1 - -t), p - x)
  {
    hide Cong;
    CongRefl(1);
    CongAdd(1, 1, c, -t);
    CongMulBy(1 - c, 1 - -t, b);
    CongSym(b * (1 - c), b * (1 - -t));
    CongTrans(b * (1 - -t), b * (1 - c), n);
    CongTrans(b * (1 - -t), n, p - x);
  }

  /** From a (1 - t) = p + x with t = x dp. */
  lemma LawTerms(a: int, t: int, p: int, x: int, n: int, dp: int)
    requires Cong(a * (1 - t), n) && n == p + x && t == x * dp
    ensures Cong((1 + a) * (1 - t), 1 + p + x * (1 - dp)) && Cong((1 - a) * (1 - t), 1 - p - x * (1 + dp))
  {
    var k := CongWitness(a * (1 - t), n);
    assert (1 + a) * (1 - t) == 1 - t + a * (1 - t) && (1 - a) * (1 - t) == 1 - t - a * (1 - t);
    assert x * (1 - dp) == x - t && x * (1 + dp) == x + t;
    CongIntro((1 + a) * (1 - t), 1 + p + x * (1 - dp), k);
    CongIntro((1 - a) * (1 - t), 1 - p - x * (1 + dp), -k);
  }

  /** (1 + a) (1 + b) and (1 - a) (1 - b) are in the ratio of (y3 + y2)^2 and (y3 - y2)^2, for the
    * y-coordinates a and b of the sum and the difference. */
  lemma Harmonic(r: Point, q: Point) returns (W: int, K: int)
    requires PrimeField() && OnCurve(r) && OnCurve(q)
    ensures !Cong(W, 0) && !Cong(K, 0)
    ensures var a, b := Add(r, q).y, Add(q, Neg(r)).y;
      && Cong(W * ((1 + a) * (1 + b)), ((q.y + r.y) * (q.y + r.y)) * K)
      && Cong(W * ((1 - a) * (1 - b)), ((q.y - r.y) * (q.y - r.y)) * K)
  {
    hide Cong, OnCurve, Add, Fermat, NonSquare, Neg, Cross;
    var t, x, p, n := Cross(r, q), r.x * q.x, r.y * q.y, Neg(r);
    var a, b := Add(r, q).y, Add(q, n).y;
    var V, s := (1 + D * (r.y * r.y)) * (1 + D * (q.y * q.y)), r.y * r.y + q.y * q.y;
    W, K := V * ((1 - t) * (1 + t)), (1 + D) * (1 + D * (p * p));
    DValue();
    WeightUnit(p);
    WeightUnit(r.y);
    WeightUnit(q.y);
    Complete(r, q);
    Unit4(1 + D * (r.y * r.y), 1 + D * (q.y * q.y), 1 - t, 1 + t);
    Rfc7748.ProductUnit(1 + D, 1 + D * (p * p));
    AddLaw(r, q);
    SumLawMeans(r, q, Add(r, q));
    CrossForm(r, q);
    LawTerms(a, t, p, x, r.y * q.y + r.x * q.x, D * p);
    NegOnCurve(r);
    NegReduced(r);
    AddLaw(q, n);
    SumLawMeans(q, n, Add(q, n));
    CrossForm(q, n);
    assert q.y * n.y == p;
    NegCross(r.x, q.x, n.x, p, D * p);
    NegLaw(b, Cross(q, n), t, q.y * n.y + q.x * n.x, p, x);
    NegTermsOf(b, t, p, x, D * p);
    ProductEquation(r, q);
    HarmonicHalf(V, x, p, s);
    HarmonicMinus(V, x, p, s);
    Squares(q.y, r.y);
    HarmonicTotal(V, t, p, x * (1 - D * p), x * (1 + D * p), a, b, s + 2 * p, s - 2 * p, K);
  }

  lemma Unit4(a: int, b: int, c: int, d: int)
    requires Fermat() && !Cong(a, 0) && !Cong(b, 0) && !Cong(c, 0) && !Cong(d, 0)
    ensures !Cong(a * b * (c * d), 0)
  {
    hide Cong, Fermat;
    Rfc7748.ProductUnit(a, b);
    Rfc7748.ProductUnit(c, d);
    Rfc7748.ProductUnit(a * b, c * d);
  }

  lemma HarmonicTotal(V: int, t: int, p: int, m: int, n: int, a: int, b: int, u: int, v: int, K: int)
    requires Cong((1 + a) * (1 - t), 1 + p + m) && Cong((1 - a) * (1 - t), 1 - p - n)
    requires Cong((1 + b) * (1 + t), 1 + p - m) && Cong((1 - b) * (1 + t), 1 - p + n)
    requires Cong(V * ((1 + p) * (1 + p) - m * m), u * K) && Cong(V * ((1 - p) * (1 - p) - n * n), v * K)
    ensures Cong(V * ((1 - t) * (1 + t)) * ((1 + a) * (1 + b)), u * K)
    ensures Cong(V * ((1 - t) * (1 + t)) * ((1 - a) * (1 - b)), v * K)
  {
    hide Cong;
    HalfProduct(V, 1 + a, 1 - t, 1 + b, 1 + t, 1 + p, m);
    HalfProduct(V, 1 - a, 1 - t, 1 - b, 1 + t, 1 - p, -n);
    assert (-n) * (-n) == n * n;
    CongTrans(V * ((1 - t) * (1 + t)) * ((1 + a) * (1 + b)), V * ((1 + p) * (1 + p) - m * m), u * K);
    CongTrans(V * ((1 - t) * (1 + t)) * ((1 - a) * (1 - b)), V * ((1 - p) * (1 - p) - n * n), v * K);
  }

  lemma Squares(y: int, z: int)
    ensures (y + z) * (y + z) == z * z + y * y + 2 * (z * y) && (y - z) * (y - z) == z * z + y * y - 2 * (z * y)
  {
  }

  lemma HalfProduct(V: int, a: int, e: int, b: int, f: int, m: int, n: int)
    requires Cong(a * e, m + n) && Cong(b * f, m - n)
    ensures Cong(V * (e * f) * (a * b), V * (m * m - n * n))
  {
    hide Cong;
    CongMul(a * e, m + n, b * f, m - n);
    Interchange(a, e, b, f);
    assert (m + n) * (m - n) == m * m - n * n;
    CongMulBy((a * b) * (e * f), m * m - n * n, V);
    assert V * ((a * b) * (e * f)) == V * (e * f) * (a * b);
  }

  /** u is the u-coordinate of a point with this y, other than the two with x = 0. */
  ghost predicate IsU(u: int, y: int) {
    forall v {:trigger Opened(u, y, v)} :: Opened(u, y, v) ==>
      exists w {:trigger Witnessed(u, y, w)} :: Witnessed(u, y, w) && Cong(u * (1 - y), 1 + y) && !Cong(1 + y, 0)
  }

  lemma IsUMeans(u: int, y: int)
    ensures IsU(u, y) <==> Cong(u * (1 - y), 1 + y) && !Cong(1 + y, 0)
  {
    assert Opened(u, y, 0) && Witnessed(u, y, 0);
  }

  /** The products of the ladder are the sum and the difference of the two y, times the same w. */
  lemma CrossedProducts(X2: int, Z2: int, y2: int, X3: int, Z3: int, y3: int)
    requires Cong(X2 - Z2, y2 * (X2 + Z2)) && Cong(X3 - Z3, y3 * (X3 + Z3))
    ensures var w, da, cb := (X2 + Z2) * (X3 + Z3), (X3 - Z3) * (X2 + Z2), (X3 + Z3) * (X2 - Z2);
      && Cong((da + cb) * (da + cb), ((y3 + y2) * (y3 + y2)) * (w * w))
      && Cong((da - cb) * (da - cb), ((y3 - y2) * (y3 - y2)) * (w * w))
  {
    hide Cong;
    var A, C := X2 + Z2, X3 + Z3;
    var w, da, cb := A * C, (X3 - Z3) * A, C * (X2 - Z2);
    CongMulBy(X3 - Z3, y3 * C, A);
    CongMulBy(X2 - Z2, y2 * A, C);
    assert y3 * C * A == y3 * w && C * (y2 * A) == y2 * w;
    CongAdd(da, y3 * w, cb, y2 * w);
    assert y3 * w + y2 * w == (y3 + y2) * w && y3 * w - y2 * w == (y3 - y2) * w;
    CongMul(da + cb, (y3 + y2) * w, da + cb, (y3 + y2) * w);
    CongMul(da - cb, (y3 - y2) * w, da - cb, (y3 - y2) * w);
    Interchange(y3 + y2, w, y3 + y2, w);
    Interchange(y3 - y2, w, y3 - y2, w);
  }

  /** Differential addition: r and q are known, and the y-coordinate b of their difference. */
  lemma AddU(X2: int, Z2: int, r: Point, X3: int, Z3: int, q: Point, u: int)
    requires PrimeField() && OnCurve(r) && OnCurve(q) && OnU(X2, Z2, r) && OnU(X3, Z3, q)
    requires IsU(u, Add(q, Neg(r)).y)
    ensures var da, cb := (X3 - Z3) * (X2 + Z2), (X3 + Z3) * (X2 - Z2);
      OnU((da + cb) * (da + cb), u * ((da - cb) * (da - cb)), Add(r, q))
  {
    hide Cong, OnCurve, Add, Fermat, NonSquare, Neg, Cross;
    var da, cb, w := (X3 - Z3) * (X2 + Z2), (X3 + Z3) * (X2 - Z2), (X2 + Z2) * (X3 + Z3);
    var a, b := Add(r, q).y, Add(q, Neg(r)).y;
    OnUMeans(X2, Z2, r);
    OnUMeans(X3, Z3, q);
    OnUMeans((da + cb) * (da + cb), u * ((da - cb) * (da - cb)), Add(r, q));
    CrossedProducts(X2, Z2, r.y, X3, Z3, q.y);
    var W, K := Harmonic(r, q);
    Rfc7748.ProductUnit(X2 + Z2, X3 + Z3);
    Rfc7748.ProductUnit(w, w);
    AddTotal((da + cb) * (da + cb), (da - cb) * (da - cb), (q.y + r.y) * (q.y + r.y), (q.y - r.y) * (q.y - r.y),
      w * w, W, K, a, b, u);
  }

  /** From K s = W (1 + a) (1 + b), K d = W (1 - a) (1 - b) and u = (1 + b) / (1 - b). */
  lemma AddTotal(X: int, Y: int, s: int, d: int, w: int, W: int, K: int, a: int, b: int, u: int)
    requires Fermat() && Cong(X, s * w) && Cong(Y, d * w)
    requires Cong(W * ((1 + a) * (1 + b)), s * K) && Cong(W * ((1 - a) * (1 - b)), d * K)
    requires IsU(u, b) && !Cong(w, 0) && !Cong(W, 0) && !Cong(K, 0)
    ensures !Cong(X + u * Y, 0) && Cong(X - u * Y, a * (X + u * Y))
  {
    hide Cong, Fermat;
    var M := (1 + b) * (W * w);
    IsUMeans(u, b);
    Numerator(X, s, w, W, K, 1 + a, 1 + b);
    Numerator(Y, d, w, W, K, 1 - a, 1 - b);
    UTimes(Y, u, K, 1 - a, b, W * w);
    Unit3(1 + b, W, w);
    Halves(K, X, u * Y, a, M);
  }

  lemma Numerator(X: int, s: int, w: int, W: int, K: int, e: int, f: int)
    requires Cong(X, s * w) && Cong(W * (e * f), s * K)
    ensures Cong(K * X, e * (f * (W * w)))
  {
    hide Cong;
    CongMulBy(X, s * w, K);
    CongMulBy(W * (e * f), s * K, w);
    assert K * (s * w) == s * K * w;
    assert W * (e * f) * w == e * (f * (W * w)) by { Fourfold(W, e, f, w); }
    CongSym(W * (e * f) * w, s * K * w);
    CongTrans(K * X, s * K * w, e * (f * (W * w)));
  }

  lemma Fourfold(W: int, e: int, f: int, w: int)
    ensures W * (e * f) * w == e * (f * (W * w))
  {
    assert W * (e * f) == e * (f * W);
    assert e * (f * W) * w == e * (f * W * w);
  }

  /** u (1 - b) = 1 + b, inside a product. */
  lemma UTimes(Y: int, u: int, K: int, e: int, b: int, m: int)
    requires Cong(K * Y, e * ((1 - b) * m)) && Cong(u * (1 - b), 1 + b)
    ensures Cong(K * (u * Y), e * ((1 + b) * m))
  {
    hide Cong;
    CongMulBy(K * Y, e * ((1 - b) * m), u);
    assert u * (K * Y) == K * (u * Y);
    CongMulBy(u * (1 - b), 1 + b, e * m);
    assert u * (e * ((1 - b) * m)) == u * (1 - b) * (e * m) by { Fivefold(u, e, 1 - b, m); }
    assert (1 + b) * (e * m) == e * ((1 + b) * m);
    CongTrans(K * (u * Y), u * (1 - b) * (e * m), e * ((1 + b) * m));
  }

  lemma Fivefold(u: int, e: int, f: int, m: int)
    ensures u * (e * (f * m)) == u * f * (e * m)
  {
    assert e * (f * m) == f * (e * m);
    assert u * (f * (e * m)) == u * f * (e * m);
  }

  /** From K X = (1 + a) M and K Z = (1 - a) M. */
  lemma Halves(K: int, X: int, Z: int, a: int, M: int)
    requires Fermat() && Cong(K * X, (1 + a) * M) && Cong(K * Z, (1 - a) * M) && !Cong(K, 0) && !Cong(M, 0)
    ensures !Cong(X + Z, 0) && Cong(X - Z, a * (X + Z))
  {
    hide Cong, Fermat;
    CongAdd(K * X, (1 + a) * M, K * Z, (1 - a) * M);
    assert (1 + a) * M + (1 - a) * M == 2 * M && (1 + a) * M - (1 - a) * M == a * (2 * M);
    assert K * X + K * Z == K * (X + Z) && K * X - K * Z == K * (X - Z);
    if Cong(X + Z, 0) {
      CongMulBy(X + Z, 0, K);
      CongSym(K * (X + Z), 2 * M);
      CongTrans(2 * M, K * (X + Z), 0);
      Halve(M);
    }
    CongMulBy(K * (X + Z), 2 * M, a);
    CongSym(a * (K * (X + Z)), a * (2 * M));
    CongTrans(K * (X - Z), a * (2 * M), a * (K * (X + Z)));
    assert K * (X - Z) == (X - Z) * K && a * (K * (X + Z)) == a * (X + Z) * K;
    Cancel(X - Z, a * (X + Z), K);
  }

  // ---- the ladder ----------------------------------------------------------------------

  /** The ladder state stands for m P and (m + 1) P. */
  ghost predicate At(s: Ladder, m: int, p: Point) {
    OnU(s.x2, s.z2, Mul(m, p)) && OnU(s.x3, s.z3, Mul(m + 1, p))
  }

  /** A step doubles one of the two points and adds the other one to it. */
  lemma StepAt(u: int, s: Ladder, m: int, p: Point, bit: bool)
    requires Curve() && OnCurve(p) && IsU(u, p.y) && At(s, m, p)
    ensures At(CSwap(bit, Step(u, CSwap(bit, s))), 2 * m + if bit then 1 else 0, p)
  {
    hide Cong, OnCurve, Add, Fermat, NonSquare, Neg, OnU, Mul, IsU, Associative;
    var r, q := Mul(m, p), Mul(m + 1, p);
    MulOnCurve(m, p);
    MulOnCurve(m + 1, p);
    MulAdd(m, m + 1, p);
    Commute(r, q);
    if bit {
      MulAdd(m + 1, m + 1, p);
      MulNeg(m + 1, p);
      MulAdd(m, -(m + 1), p);
      assert m + -(m + 1) == -1;
      MulNeg(1, p);
      MulOne(p);
      assert Neg(p).y == p.y by { NegReduced(p); }
      DoubleU(s.x3, s.z3, q);
      AddU(s.x3, s.z3, q, s.x2, s.z2, r, u);
    } else {
      MulAdd(m, m, p);
      MulNeg(m, p);
      MulAdd(m + 1, -m, p);
      assert m + 1 + -m == 1;
      MulOne(p);
      DoubleU(s.x2, s.z2, r);
      AddU(s.x2, s.z2, r, s.x3, s.z3, q, u);
    }
  }

  /** (1 : 0) and (u : 1). */
  lemma StartAt(u: int, p: Point)
    requires PrimeField() && OnCurve(p) && IsU(u, p.y)
    ensures At(Ladder(1, 0, u, 1), 0, p)
  {
    hide Cong, OnCurve, Fermat, NonSquare, Mul;
    MulZero(p);
    MulOne(p);
    OneIsNotZero();
    CongRefl(1);
    IsUMeans(u, p.y);
    StartU(u, p.y);
    OnUMeans(1, 0, IDENTITY);
    OnUMeans(u, 1, p);
  }

  lemma StartU(u: int, y: int)
    requires Fermat() && Cong(u * (1 - y), 1 + y)
    ensures !Cong(u + 1, 0) && Cong(u - 1, y * (u + 1))
  {
    hide Fermat;
    var k := CongWitness(u * (1 - y), 1 + y);
    assert u * (1 - y) == u - u * y && y * (u + 1) == y * u + y && (u + 1) * (1 - y) == u * (1 - y) + (1 - y);
    CongIntro(u - 1, y * (u + 1), k);
    if Cong(u + 1, 0) {
      CongMulBy(u + 1, 0, 1 - y);
      CongIntro(2, (u + 1) * (1 - y), -k);
      CongTrans(2, (u + 1) * (1 - y), 0);
      CongMeans(2, 0);
    }
  }

  /** After n bits the state stands for the multiples by the top n bits of k. */
  lemma {:induction false} RunAt(k: nat, u: int, p: Point, n: nat)
    requires Curve() && OnCurve(p) && IsU(u, p.y) && k < Pow2(256) && n <= 256
    ensures At(Run(k, u, n), k / Pow2(256 - n), p)
  {
    hide Cong, OnCurve, Fermat, NonSquare, Associative, At, Step, CSwap, IsU, Run, BitOf, Pow2;
    if n == 0 {
      NoTop(k, Pow2(256));
      NoBits(k, u);
      StartAt(u, p);
    } else {
      RunAt(k, u, p, n - 1);
      NextBit(k, u, n - 1, 256 - n);
      TopBits(k, 256 - n);
      StepAt(u, Run(k, u, n - 1), k / Pow2(257 - n), p, BitOf(k, 256 - n));
    }
  }

  lemma NoTop(k: nat, m: nat)
    requires k < m
    ensures k / m == 0
  {
  }

  lemma TopBits(k: nat, j: nat)
    ensures k / Pow2(j) == 2 * (k / Pow2(j + 1)) + if BitOf(k, j) then 1 else 0
  {
    Recode.Halve(k, j);
  }

  // ---- the result ----------------------------------------------------------------------

  /** From X b = Z a with Z and b invertible: X / Z = a / b. */
  lemma SameQuotient(X: int, Z: int, a: int, b: int)
    requires Fermat() && Cong(X * b, Z * a) && !Cong(Z, 0) && !Cong(b, 0)
    ensures Cong(X * Inverse(Z), a * Inverse(b))
  {
    hide Cong, Fermat, Inverse;
    var i, j := Inverse(Z), Inverse(b);
    InverseLaw(Z);
    InverseLaw(b);
    CongMulBy(X * b, Z * a, i * j);
    assert X * b * (i * j) == X * i * (b * j) && Z * a * (i * j) == a * j * (Z * i) by { Crossed(X, b, i, j, Z, a); }
    CongMulBy(b * j, 1, X * i);
    CongMulBy(Z * i, 1, a * j);
    CongSym(X * i * (b * j), X * i);
    CongTrans(X * i, X * i * (b * j), a * j * (Z * i));
    CongTrans(X * i, a * j * (Z * i), a * j);
  }

  lemma Crossed(X: int, b: int, i: int, j: int, Z: int, a: int)
    ensures X * b * (i * j) == X * i * (b * j) && Z * a * (i * j) == a * j * (Z * i)
  {
    Interchange(X, b, i, j);
    Interchange(a, Z, j, i);
    assert Z * a == a * Z && i * j == j * i;
  }

  /** The affine result is the u-coordinate of the point, also for the neutral element. */
  lemma AffineU(X: int, Z: int, p: Point)
    requires Fermat() && OnU(X, Z, p)
    ensures X * Inverse(Z) % P == U(p)
  {
    hide Cong, Fermat, Inverse;
    var y := p.y;
    OnUMeans(X, Z, p);
    Rearranged(X, Z, y);
    if Cong(Z, 0) {
      CongMulBy(Z, 0, 1 + y);
      CongTrans(X * (1 - y), Z * (1 + y), 0);
      NoZeroDivisors(X, 1 - y);
      if Cong(X, 0) {
        CongAdd(X, 0, Z, 0);
      }
      ZeroInverse(X, Z);
      ZeroInverse(1 + y, 1 - y);
    } else {
      if Cong(1 - y, 0) {
        CongMulBy(1 - y, 0, X);
        CongSym(X * (1 - y), Z * (1 + y));
        CongTrans(Z * (1 + y), X * (1 - y), 0);
        NoZeroDivisors(Z, 1 + y);
        CongAdd(1 - y, 0, 1 + y, 0);
        CongMeans(2, 0);
      }
      SameQuotient(X, Z, 1 + y, 1 - y);
      CongSame(X * Inverse(Z), (1 + y) * Inverse(1 - y));
    }
  }

  lemma Rearranged(X: int, Z: int, y: int)
    requires Cong(X - Z, y * (X + Z))
    ensures Cong(X * (1 - y), Z * (1 + y))
  {
    var k := CongWitness(X - Z, y * (X + Z));
    assert y * (X + Z) == X * y + Z * y && X * (1 - y) == X - X * y && Z * (1 + y) == Z + Z * y;
    CongIntro(X * (1 - y), Z * (1 + y), k);
  }

  lemma ZeroInverse(a: int, z: int)
    requires Cong(z, 0)
    ensures a * Inverse(z) % P == 0
  {
    hide Cong, Pow;
    PowCong(z, 0, P - 2);
    assert Pow(0, P - 2) == 0 * Pow(0, P - 3) by { Unfold(0, P - 3); }
    CongMulBy(Inverse(z), 0, a);
    CongMeans(a * Inverse(z), 0);
  }

  lemma Unfold(z: int, n: nat)
    ensures Pow(z, n + 1) == z * Pow(z, n)
  {
  }

  /** The ladder takes the u-coordinate of a point to that of its multiple. */
  lemma LadderIsMultiple(k: nat, u: int, p: Point)
    requires Curve() && OnCurve(p) && IsU(u, p.y) && k < Pow2(256)
    ensures Affine(Run(k, u, 256)) == U(Mul(k, p))
  {
    hide Cong, OnCurve, Fermat, NonSquare, Associative, Run, Pow, U, Mul, IsU;
    RunAt(k, u, p, 256);
    assert Pow2(0) == 1 by { Pow2Small(); }
    assert k / 1 == k;
    hide Pow2;
    var s := Run(k, u, 256);
    AffineU(s.x2, s.z2, Mul(k, p));
  }

  /** The even multiples of the two points with x = 0 are neutral. */
  lemma EvenMultiple(k: nat, p: Point)
    requires Curve() && OnCurve(p) && p.x == 0 && k % 2 == 0
    ensures Mul(k, p) == IDENTITY
  {
    hide Cong, Fermat, NonSquare, Associative, Mul, OnCurve;
    TwiceZero(p);
    MulMul(k / 2, 2, p);
    MulMul(k / 2, 0, p);
    MulZero(p);
    assert k / 2 * 2 == k && k / 2 * 0 == 0;
  }

  lemma UOfZero(p: Point)
    requires p.y == 1 || p.y == P - 1
    ensures U(p) == 0
  {
    hide Cong, Inverse;
    if p.y == 1 {
      CongRefl(0);
      ZeroInverse(1 + p.y, 1 - p.y);
    } else {
      CongIntro(1 + p.y, 0, 1);
      CongMulBy(1 + p.y, 0, Inverse(1 - p.y));
      CongMeans((1 + p.y) * Inverse(1 - p.y), 0);
    }
  }

  lemma TwiceZero(p: Point)
    requires Curve() && OnCurve(p) && p.x == 0
    ensures Mul(2, p) == Mul(0, p)
  {
    hide Cong, Fermat, NonSquare, Associative, Mul, OnCurve, Add;
    assert Neg(p) == p by { assert -0 % P == 0; }
    AddNeg(p);
    MulOne(p);
    MulAdd(1, 1, p);
    MulZero(p);
  }

  /** The X25519 function of the code on a residue. */
  function Result(secret: seq<byte>, u: int): int
    requires |secret| == 32
  {
    Affine(Run(LE(Clamp(secret)), u, 256))
  }

  /** The u-coordinate of any point of the curve goes to that of its multiple by the clamped scalar. */
  lemma ResultIsMultiple(secret: seq<byte>, p: Point)
    requires Curve() && OnCurve(p) && |secret| == 32
    ensures Result(secret, U(p)) == U(Mul(LE(Clamp(secret)), p))
  {
    hide Cong, Fermat, NonSquare, Associative, Mul, OnCurve, Run, LE, Clamp, Affine, U, Pow2;
    var k := LE(Clamp(secret));
    ClampedValue(secret);
    if p.x == 0 {
      EvenMultiple(k, p);
      ZeroX(p);
      UOfZero(p);
      UOfZero(IDENTITY);
      ZeroRun(k);
    } else {
      ZeroX(p);
      UOfPoint(p);
      Pow2Literals();
      LadderIsMultiple(k, U(p), p);
    }
  }

  lemma ZeroRun(k: nat)
    requires TWO254 <= k < 2 * TWO254
    ensures Affine(Run(k, 0, 256)) == 0
  {
    hide Cong, Run, Affine, Pow2;
    Pow2Literals();
    CongRefl(0);
    Rfc7748.DegenerateRuns(k, 0, 255);
    Rfc7748.DegenerateAffine(Run(k, 0, 256));
  }

  lemma UOfPoint(p: Point)
    requires Fermat() && OnCurve(p) && p.y != 1 && p.y != P - 1
    ensures IsU(U(p), p.y)
  {
    hide Cong, Fermat, Inverse;
    var y := p.y;
    if Cong(1 - y, 0) {
      var k := CongWitness(1 - y, 0);
      CongIntro(y, 1, -k);
      CongUnique(y, 1);
    }
    if Cong(1 + y, 0) {
      var k := CongWitness(1 + y, 0);
      CongIntro(y, P - 1, k - 1);
      CongUnique(y, P - 1);
    }
    IsUMeans(U(p), y);
    QuotientLaw(1 + y, 1 - y);
  }

  /** Two sides that send each other the u-coordinates of their multiples of a point get the same secret. */
  lemma KeyAgreement(a: seq<byte>, b: seq<byte>, p: Point, publicA: int, publicB: int)
    requires Curve() && OnCurve(p) && |a| == |b| == 32
    requires publicA == Result(a, U(p)) && publicB == Result(b, U(p))
    ensures Result(a, publicB) == Result(b, publicA)
  {
    hide Cong, Fermat, NonSquare, Associative, Mul, OnCurve, Result, LE, Clamp, U;
    var k, l := LE(Clamp(a)), LE(Clamp(b));
    ResultIsMultiple(a, p);
    ResultIsMultiple(b, p);
    MulOnCurve(k, p);
    MulOnCurve(l, p);
    ResultIsMultiple(a, Mul(l, p));
    ResultIsMultiple(b, Mul(k, p));
    MulMul(k, l, p);
    MulMul(l, k, p);
    assert k * l == l * k;
  }

  /** The u-coordinate of the base point of Ed25519 is the base point of X25519. */
  lemma BaseU()
    requires Fermat()
    ensures U(BASE) == 9
  {
    hide Cong, Fermat, Inverse;
    var y := BASE.y;
    CongMeans(1 - y, 0);
    CongMeans(9 * (1 - y), 1 + y);
    InverseLaw(1 - y);
    var i := Inverse(1 - y);
    CongMulBy(9 * (1 - y), 1 + y, i);
    assert 9 * (1 - y) * i == 9 * ((1 - y) * i);
    CongMulBy((1 - y) * i, 1, 9);
    CongSym(9 * ((1 - y) * i), (1 + y) * i);
    CongTrans((1 + y) * i, 9 * ((1 - y) * i), 9);
    CongSame((1 + y) * i, 9);
  }

  /** A key exchange as the code runs it, on both sides, from the base point 9. */
  method Exchange(a: seq<byte>, b: seq<byte>) returns (secretA: array<byte>, secretB: array<byte>)
    requires Curve() && |a| == |b| == 32
    ensures secretA.Length == secretB.Length == 32 && secretA[..] == secretB[..]
    ensures LE(secretA[..]) == U(Mul(LE(Clamp(a)) * LE(Clamp(b)), BASE))
  {
    hide Cong, Fermat, NonSquare, Associative, Mul, OnCurve, LE, Clamp, U, Run, Affine, ToLE;
    var nine := [9] + Zeros(31);
    var publicA, publicB := new byte[32](_ => 0), new byte[32](_ => 0);
    secretA, secretB := new byte[32](_ => 0), new byte[32](_ => 0);
    BaseU();
    ScalarMult.BaseOnCurve();
    NineValue(nine);
    ghost var k, l := LE(Clamp(a)), LE(Clamp(b));
    var r := Curve25519(publicA, a, nine);
    r := Curve25519(publicB, b, nine);
    ResultIsMultiple(a, BASE);
    ResultIsMultiple(b, BASE);
    MulOnCurve(k, BASE);
    MulOnCurve(l, BASE);
    UBelow(Mul(k, BASE));
    UBelow(Mul(l, BASE));
    r := Curve25519(secretA, a, publicB[..]);
    r := Curve25519(secretB, b, publicA[..]);
    ResultIsMultiple(a, Mul(l, BASE));
    ResultIsMultiple(b, Mul(k, BASE));
    MulMul(k, l, BASE);
    MulMul(l, k, BASE);
    assert k * l == l * k;
    LEInjective(secretA[..], secretB[..]);
  }

  lemma NineValue(nine: seq<byte>)
    requires nine == [9] + Zeros(31)
    ensures LE(nine) == 9 && LE(nine) % TWO255 == 9
  {
    assert nine[1..] == Zeros(31);
    FieldBytes.ZeroBytes(Zeros(31));
  }

  lemma UBelow(p: Point)
    ensures 0 <= U(p) < P && U(p) % TWO255 == U(p)
  {
    hide Inverse;
  }
}
