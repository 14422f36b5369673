/** Integer multiples of curve points, and the group laws behind them. */
module ScalarMultiples {
  import opened Modular
  import opened Edwards

  /** Everything that is assumed about the curve. */
  ghost predicate Curve() { PrimeField() && Associative() }

  // ---- group laws ----------------------------------------------------------------------

  lemma Commute(p: Point, q: Point)
    ensures Add(p, q) == Add(q, p)
  {
    hide Inverse;
    AddMeans(p, q);
    AddMeans(q, p);
    assert Cross(p, q) == Cross(q, p);
  }

  lemma Assoc(p: Point, q: Point, r: Point)
    requires Curve() && OnCurve(p) && OnCurve(q) && OnCurve(r)
    ensures Add(Add(p, q), r) == Add(p, Add(q, r))
  {
    hide Add, OnCurve;
    assert AssociativeAt(p, q, r);
  }

  lemma IdentityOnCurve()
    ensures OnCurve(IDENTITY)
  {
    EquationMeans(0, 1);
    CongRefl(1);
  }

  /** Canonical coordinates that satisfy the cross-multiplied law are those of the sum. */
  lemma SumUnique(p: Point, q: Point, r: Point)
    requires PrimeField() && OnCurve(p) && OnCurve(q)
    requires 0 <= r.x < P && 0 <= r.y < P && SumLaw(p, q, r)
    ensures r == Add(p, q)
  {
    hide Cong, Cross, OnCurve;
    var s, t := Add(p, q), Cross(p, q);
    AddLaw(p, q);
    SumLawMeans(p, q, s);
    SumLawMeans(p, q, r);
    Complete(p, q);
    SumRange(p, q);
    CancelTo(r.x, s.x, 1 + t, p.x * q.y + q.x * p.y);
    CancelTo(r.y, s.y, 1 - t, p.y * q.y + p.x * q.x);
  }

  lemma SumRange(p: Point, q: Point)
    ensures 0 <= Add(p, q).x < P && 0 <= Add(p, q).y < P
  {
    hide Inverse;
    AddMeans(p, q);
  }

  lemma CancelTo(a: int, b: int, z: int, n: int)
    requires Fermat() && !Cong(z, 0) && Cong(a * z, n) && Cong(b * z, n)
    requires 0 <= a < P && 0 <= b < P
    ensures a == b
  {
    hide Cong, Fermat;
    CongSym(b * z, n);
    CongTrans(a * z, n, b * z);
    Cancel(a, b, z);
    CongUnique(a, b);
  }

  lemma AddIdentity(p: Point)
    requires PrimeField() && OnCurve(p)
    ensures Add(p, IDENTITY) == p && Add(IDENTITY, p) == p
  {
    CongRefl(p.x);
    CongRefl(p.y);
    hide Add;
    IdentityOnCurve();
    assert Cross(p, IDENTITY) == 0;
    SumLawMeans(p, IDENTITY, p);
    SumUnique(p, IDENTITY, p);
    Commute(p, IDENTITY);
  }

  lemma NegOnCurve(p: Point)
    requires OnCurve(p)
    ensures OnCurve(Neg(p)) && Neg(Neg(p)) == p
  {
    hide Cong, Neg;
    EquationMeans(p.x, p.y);
    EquationMeans(Neg(p).x, p.y);
    NegReduced(p);
    NegTwice(p);
    CongMul(Neg(p).x, -p.x, Neg(p).x, -p.x);
    assert -p.x * -p.x == p.x * p.x;
    NegEquation(Neg(p).x * Neg(p).x, p.x * p.x, p.y * p.y);
  }

  lemma NegReduced(p: Point)
    ensures Cong(Neg(p).x, -p.x) && 0 <= Neg(p).x < P && Neg(p).y == p.y
  {
    Reduce(-p.x);
  }

  lemma NegTwice(p: Point)
    requires 0 <= p.x < P
    ensures Neg(Neg(p)) == p
  {
  }

  lemma NegEquation(a: int, b: int, y: int)
    requires Cong(a, b) && Cong(y - b, 1 + D * b * y)
    ensures Cong(y - a, 1 + D * a * y)
  {
    hide Cong;
    CongMulBy(a, b, D);
    CongMulBy(D * a, D * b, y);
    NegTotal(a, b, y, D * a * y, D * b * y);
  }

  lemma NegTotal(a: int, b: int, y: int, u: int, v: int)
    requires Cong(a, b) && Cong(u, v) && Cong(y - b, 1 + v)
    ensures Cong(y - a, 1 + u)
  {
    var k := CongWitness(a, b);
    var l := CongWitness(u, v);
    var n := CongWitness(y - b, 1 + v);
    CongIntro(y - a, 1 + u, n - k - l);
  }

  lemma AddNeg(p: Point)
    requires PrimeField() && OnCurve(p)
    ensures Add(p, Neg(p)) == IDENTITY
  {
    hide Cong, Add;
    EquationMeans(p.x, p.y);
    NegOnCurve(p);
    Reduce(-p.x);
    NegProducts(p.x, p.y, Neg(p).x);
    SumLawMeans(p, Neg(p), IDENTITY);
    SumUnique(p, Neg(p), IDENTITY);
  }

  lemma NegProducts(x: int, y: int, n: int)
    requires Cong(n, -x) && Cong(y * y - x * x, 1 + D * (x * x) * (y * y))
    ensures Cong(0 * (1 + D * (x * n) * (y * y)), x * y + n * y)
    ensures Cong(1 * (1 - D * (x * n) * (y * y)), y * y + x * n)
  {
    hide Cong;
    NegTimes(n, x, y);
    NegTimes(n, x, x);
    NegScale(x * n, x * x, D);
    NegScale(D * (x * n), D * (x * x), y * y);
    NegSums(x * y, n * y, x * n, x * x, y * y, D * (x * n) * (y * y), D * (x * x) * (y * y));
  }

  lemma NegTimes(n: int, x: int, y: int)
    requires Cong(n, -x)
    ensures Cong(n * y, -(x * y)) && Cong(y * n, -(x * y))
  {
    hide Cong;
    CongMulBy(n, -x, y);
    assert -x * y == -(x * y) && y * -x == -(x * y);
  }

  lemma NegScale(a: int, b: int, c: int)
    requires Cong(a, -b)
    ensures Cong(c * a, -(c * b)) && Cong(a * c, -(b * c))
  {
    hide Cong;
    CongMulBy(a, -b, c);
    assert -b * c == -(b * c) && c * -b == -(c * b);
  }

  lemma NegSums(s: int, t: int, w: int, xx: int, yy: int, c: int, d: int)
    requires Cong(t, -s) && Cong(w, -xx) && Cong(c, -d) && Cong(yy - xx, 1 + d)
    ensures Cong(0, s + t) && Cong(1 - c, yy + w)
  {
    var k := CongWitness(t, -s);
    var l := CongWitness(w, -xx);
    var m := CongWitness(c, -d);
    var n := CongWitness(yy - xx, 1 + d);
    CongIntro(0, s + t, -k);
    CongIntro(1 - c, yy + w, -m - n - l);
  }

  // ---- multiples -----------------------------------------------------------------------

  /** n P, for any integer n. */
  ghost function Mul(n: int, p: Point): Point
    decreases if n < 0 then 1 - n else n
  {
    if n == 0 then IDENTITY
    else if n > 0 then Add(Mul(n - 1, p), p)
    else Neg(Mul(-n, p))
  }

  lemma {:induction false} MulOnCurve(n: int, p: Point)
    requires PrimeField() && OnCurve(p)
    ensures OnCurve(Mul(n, p))
    decreases if n < 0 then 1 - n else n
  {
    hide Add, OnCurve, PrimeField;
    if n == 0 {
      IdentityOnCurve();
    } else if n > 0 {
      MulOnCurve(n - 1, p);
      Closed(Mul(n - 1, p), p);
    } else {
      MulOnCurve(-n, p);
      NegOnCurve(Mul(-n, p));
    }
  }

  /** Two points with the same sum with r are equal. */
  lemma AddCancel(p: Point, q: Point, r: Point)
    requires Curve() && OnCurve(p) && OnCurve(q) && OnCurve(r) && Add(p, r) == Add(q, r)
    ensures p == q
  {
    hide Add, OnCurve, Neg;
    NegOnCurve(r);
    AddNeg(r);
    Assoc(p, r, Neg(r));
    Assoc(q, r, Neg(r));
    AddIdentity(p);
    AddIdentity(q);
  }

  lemma NegSum(p: Point, q: Point)
    requires Curve() && OnCurve(p) && OnCurve(q)
    ensures Add(Neg(Add(p, q)), q) == Neg(p)
  {
    hide Add, OnCurve, Neg;
    Closed(p, q);
    NegOnCurve(Add(p, q));
    NegOnCurve(p);
    var m := Neg(Add(p, q));
    Closed(m, q);
    AddNeg(p);
    AddNeg(Add(p, q));
    Commute(p, q);
    Commute(m, Add(p, q));
    Assoc(m, q, p);
    Commute(Neg(p), p);
    AddCancel(Add(m, q), Neg(p), p);
  }

  /** (n + 1) P = n P + P, also below zero. */
  lemma MulNext(n: int, p: Point)
    requires Curve() && OnCurve(p)
    ensures Mul(n + 1, p) == Add(Mul(n, p), p)
  {
    hide Add, OnCurve, Neg;
    if n == -1 {
      AddIdentity(p);
      assert Mul(1, p) == Add(Mul(0, p), p);
      NegOnCurve(p);
      Commute(p, Neg(p));
      AddNeg(p);
      assert Mul(-1, p) == Neg(p);
    } else if n < -1 {
      MulOnCurve(-n - 1, p);
      assert Mul(-n, p) == Add(Mul(-n - 1, p), p);
      NegSum(Mul(-n - 1, p), p);
      assert Mul(n, p) == Neg(Mul(-n, p));
    }
  }

  lemma {:induction false} MulAdd(m: int, n: int, p: Point)
    requires Curve() && OnCurve(p)
    ensures Mul(m + n, p) == Add(Mul(m, p), Mul(n, p))
    decreases if n < 0 then -n else n
  {
    hide Add, OnCurve, Neg;
    MulOnCurve(m, p);
    if n == 0 {
      AddIdentity(Mul(m, p));
    } else if n > 0 {
      MulAdd(m, n - 1, p);
      MulNext(m + n - 1, p);
      MulOnCurve(n - 1, p);
      Assoc(Mul(m, p), Mul(n - 1, p), p);
    } else {
      MulAdd(m, n + 1, p);
      MulNext(m + n, p);
      MulNext(n, p);
      MulOnCurve(n, p);
      MulOnCurve(m + n, p);
      Closed(Mul(m, p), Mul(n, p));
      Assoc(Mul(m, p), Mul(n, p), p);
      AddCancel(Mul(m + n, p), Add(Mul(m, p), Mul(n, p)), p);
    }
  }

  lemma {:induction false} MulMul(m: int, n: int, p: Point)
    requires Curve() && OnCurve(p)
    ensures Mul(m, Mul(n, p)) == Mul(m * n, p)
    decreases if m < 0 then -m else m
  {
    hide Add, OnCurve, Neg, Mul;
    var q := Mul(n, p);
    MulOnCurve(n, p);
    if m == 0 {
      MulZero(q);
      MulZero(p);
    } else if m > 0 {
      MulMul(m - 1, n, p);
      MulNext(m - 1, q);
      MulAdd((m - 1) * n, n, p);
      assert (m - 1) * n + n == m * n;
    } else {
      MulMul(m + 1, n, p);
      MulNext(m, q);
      MulAdd(m * n, n, p);
      assert m * n + n == (m + 1) * n;
      MulOnCurve(m, q);
      MulOnCurve(m * n, p);
      AddCancel(Mul(m, q), Mul(m * n, p), q);
    }
  }

  lemma MulZero(p: Point)
    ensures Mul(0, p) == IDENTITY
  {
  }

  lemma MulOne(p: Point)
    requires PrimeField() && OnCurve(p)
    ensures Mul(1, p) == p
  {
    hide Add;
    AddIdentity(p);
  }

  lemma MulNeg(n: int, p: Point)
    requires Curve() && OnCurve(p)
    ensures Mul(-n, p) == Neg(Mul(n, p))
  {
    hide Add, OnCurve;
    if n < 0 {
      MulOnCurve(-n, p);
      NegOnCurve(Mul(-n, p));
    } else if n == 0 {
      assert Neg(IDENTITY) == IDENTITY;
    }
  }

  /** (p + q) + (r + s) = (p + r) + (q + s). */
  lemma AddInterchange(p: Point, q: Point, r: Point, s: Point)
    requires Curve() && OnCurve(p) && OnCurve(q) && OnCurve(r) && OnCurve(s)
    ensures Add(Add(p, q), Add(r, s)) == Add(Add(p, r), Add(q, s))
  {
    hide Add, OnCurve;
    Closed(r, s);
    Closed(q, s);
    Closed(q, r);
    Assoc(p, q, Add(r, s));
    Assoc(q, r, s);
    Commute(q, r);
    Assoc(r, q, s);
    Assoc(p, r, Add(q, s));
  }
}
