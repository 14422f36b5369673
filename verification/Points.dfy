/** The point formulas of ge.c on limb vectors, against the affine group law.
  *
  * Every method takes, as ghost arguments, the affine points that its inputs stand for, and says
  * which point its result stands for; the limb bounds chain through the same predicates. */
module Points {
  import opened Modular
  import opened Radix
  import opened Field
  import opened Edwards
  import opened ScalarMultiples

  datatype GeP2 = GeP2(X: Fe, Y: Fe, Z: Fe)
  datatype GeP3 = GeP3(X: Fe, Y: Fe, Z: Fe, T: Fe)
  datatype GeP1P1 = GeP1P1(X: Fe, Y: Fe, Z: Fe, T: Fe)
  datatype GePrecomp = GePrecomp(yplusx: Fe, yminusx: Fe, xy2d: Fe)
  datatype GeCached = GeCached(YplusX: Fe, YminusX: Fe, Z: Fe, T2d: Fe)

  // ---- what a representation stands for ------------------------------------------------

  /** v is c times z. */
  ghost predicate Scaled(v: Fe, c: int, z: Fe) {
    forall u {:trigger Looked(v, z, u)} :: Looked(v, z, u) ==>
      exists w {:trigger Seen(v, z, w)} :: Seen(v, z, w) && Cong(Val(v), c * Val(z))
  }

  /** Name two coordinates whose values are to be looked into, as Opened and Witnessed do for numbers. */
  ghost predicate Looked(v: Fe, z: Fe, u: int) { true }

  ghost predicate Seen(v: Fe, z: Fe, w: int) { true }

  lemma ScaledMeans(v: Fe, c: int, z: Fe)
    ensures Scaled(v, c, z) <==> Cong(Val(v), c * Val(z))
  {
    assert Looked(v, z, 0) && Seen(v, z, 0);
  }

  /** v is x y times z. */
  ghost predicate ScaledXY(v: Fe, p: Point, z: Fe) {
    forall u {:trigger Looked(v, z, u)} :: Looked(v, z, u) ==>
      exists w {:trigger Seen(v, z, w)} :: Seen(v, z, w) && Cong(Val(v), p.x * p.y * Val(z))
  }

  lemma ScaledXYMeans(v: Fe, p: Point, z: Fe)
    ensures ScaledXY(v, p, z) <==> Cong(Val(v), p.x * p.y * Val(z))
  {
    assert Looked(v, z, 0) && Seen(v, z, 0);
  }

  /** The weighted product of the coordinates, which the cached form carries. */
  function Weighted(x: int, y: int): int { 2 * (D * (x * y)) }

  /** v is 2 d x y times z. */
  ghost predicate ScaledWeight(v: Fe, p: Point, z: Fe) {
    forall u {:trigger Looked(v, z, u)} :: Looked(v, z, u) ==>
      exists w {:trigger Seen(v, z, w)} :: Seen(v, z, w) && Cong(Val(v), Weighted(p.x, p.y) * Val(z))
  }

  lemma ScaledWeightMeans(v: Fe, p: Point, z: Fe)
    ensures ScaledWeight(v, p, z) <==> Cong(Val(v), Weighted(p.x, p.y) * Val(z))
  {
    assert Looked(v, z, 0) && Seen(v, z, 0);
  }

  ghost predicate Nonzero(v: Fe) {
    forall u {:trigger Looked(v, v, u)} :: Looked(v, v, u) ==>
      exists w {:trigger Seen(v, v, w)} :: Seen(v, v, w) && !Cong(Val(v), 0)
  }

  lemma NonzeroMeans(v: Fe)
    ensures Nonzero(v) <==> !Cong(Val(v), 0)
  {
    assert Looked(v, v, 0) && Seen(v, v, 0);
  }

  /** (X:Y:Z) with x = X/Z, y = Y/Z. */
  ghost predicate IsP2(r: GeP2, p: Point) {
    && Tight(r.X) && Tight(r.Y) && Tight(r.Z) && Nonzero(r.Z)
    && Scaled(r.X, p.x, r.Z) && Scaled(r.Y, p.y, r.Z)
  }

  /** (X:Y:Z:T) with x = X/Z, y = Y/Z, XY = ZT. */
  ghost predicate IsP3(r: GeP3, p: Point) {
    && Tight(r.X) && Tight(r.Y) && Tight(r.Z) && Tight(r.T) && Nonzero(r.Z)
    && Scaled(r.X, p.x, r.Z) && Scaled(r.Y, p.y, r.Z) && ScaledXY(r.T, p, r.Z)
  }

  /** ((X:Z),(Y:T)) with x = X/Z, y = Y/T. */
  ghost predicate IsP1P1(r: GeP1P1, p: Point) {
    && MulInput(r.X) && MulInput(r.Y) && MulInput(r.Z) && MulInput(r.T) && Nonzero(r.Z) && Nonzero(r.T)
    && Scaled(r.X, p.x, r.Z) && Scaled(r.Y, p.y, r.T)
  }

  /** (y + x, y - x, 2dxy). */
  ghost predicate IsPrecomp(q: GePrecomp, p: Point) {
    && MulInput(q.yplusx) && MulInput(q.yminusx) && MulInput(q.xy2d)
    && Scaled(q.yplusx, p.y + p.x, ONE) && Scaled(q.yminusx, p.y - p.x, ONE)
    && ScaledWeight(q.xy2d, p, ONE)
  }

  /** (Y + X, Y - X, Z, 2dT). */
  ghost predicate IsCached(q: GeCached, p: Point) {
    && MulInput(q.YplusX) && MulInput(q.YminusX) && Tight(q.Z) && Tight(q.T2d) && Nonzero(q.Z)
    && Scaled(q.YplusX, p.y + p.x, q.Z) && Scaled(q.YminusX, p.y - p.x, q.Z)
    && ScaledWeight(q.T2d, p, q.Z)
  }

  lemma P2Means(r: GeP2, p: Point)
    ensures IsP2(r, p) <==>
      Tight(r.X) && Tight(r.Y) && Tight(r.Z) && !Cong(Val(r.Z), 0)
      && Cong(Val(r.X), p.x * Val(r.Z)) && Cong(Val(r.Y), p.y * Val(r.Z))
  {
    hide Cong, Val, Tight;
    NonzeroMeans(r.Z);
    ScaledMeans(r.X, p.x, r.Z);
    ScaledMeans(r.Y, p.y, r.Z);
  }

  lemma P3Means(r: GeP3, p: Point)
    ensures IsP3(r, p) <==>
      Tight(r.X) && Tight(r.Y) && Tight(r.Z) && Tight(r.T) && !Cong(Val(r.Z), 0)
      && Cong(Val(r.X), p.x * Val(r.Z)) && Cong(Val(r.Y), p.y * Val(r.Z)) && Cong(Val(r.T), p.x * p.y * Val(r.Z))
  {
    hide Cong, Val, Tight;
    NonzeroMeans(r.Z);
    ScaledMeans(r.X, p.x, r.Z);
    ScaledMeans(r.Y, p.y, r.Z);
    ScaledXYMeans(r.T, p, r.Z);
  }

  lemma P1P1Means(r: GeP1P1, p: Point)
    ensures IsP1P1(r, p) <==>
      MulInput(r.X) && MulInput(r.Y) && MulInput(r.Z) && MulInput(r.T)
      && !Cong(Val(r.Z), 0) && !Cong(Val(r.T), 0)
      && Cong(Val(r.X), p.x * Val(r.Z)) && Cong(Val(r.Y), p.y * Val(r.T))
  {
    hide Cong, Val, MulInput;
    NonzeroMeans(r.Z);
    NonzeroMeans(r.T);
    ScaledMeans(r.X, p.x, r.Z);
    ScaledMeans(r.Y, p.y, r.T);
  }

  lemma CachedMeans(q: GeCached, p: Point)
    ensures IsCached(q, p) <==>
      MulInput(q.YplusX) && MulInput(q.YminusX) && Tight(q.Z) && Tight(q.T2d) && !Cong(Val(q.Z), 0)
      && Cong(Val(q.YplusX), (p.y + p.x) * Val(q.Z)) && Cong(Val(q.YminusX), (p.y - p.x) * Val(q.Z))
      && Cong(Val(q.T2d), Weighted(p.x, p.y) * Val(q.Z))
  {
    hide Cong, Val, MulInput, Tight, Weighted;
    NonzeroMeans(q.Z);
    ScaledMeans(q.YplusX, p.y + p.x, q.Z);
    ScaledMeans(q.YminusX, p.y - p.x, q.Z);
    ScaledWeightMeans(q.T2d, p, q.Z);
  }

  // ---- products of scaled values -------------------------------------------------------

  lemma ScaledProduct(u: int, c: int, y: int, v: int, e: int, z: int)
    requires Cong(u, c * y) && Cong(v, e * z)
    ensures Cong(u * v, (c * e) * (y * z))
  {
    CongMul(u, c * y, v, e * z);
    Interchange(c, y, e, z);
  }

  /** h holds the product of two scaled values. */
  lemma MulScaled(h: int, u: int, c: int, y: int, v: int, e: int, z: int)
    requires Cong(h, u * v) && Cong(u, c * y) && Cong(v, e * z)
    ensures Cong(h, (c * e) * (y * z))
  {
    hide Cong;
    ScaledProduct(u, c, y, v, e, z);
    CongTrans(h, u * v, (c * e) * (y * z));
  }

  lemma NonzeroProduct(a: int, b: int)
    requires Fermat() && !Cong(a, 0) && !Cong(b, 0)
    ensures !Cong(a * b, 0)
  {
    hide Cong, Fermat;
    if Cong(a * b, 0) {
      NoZeroDivisors(a, b);
    }
  }

  lemma NonzeroCong(a: int, b: int)
    requires Cong(a, b) && !Cong(b, 0)
    ensures !Cong(a, 0)
  {
    hide Cong;
    if Cong(a, 0) {
      CongSym(a, b);
      CongTrans(b, a, 0);
    }
  }

  /** From u = c z: the product u t is c times the product z t. */
  lemma ScaledBy(h: int, hz: int, u: int, c: int, z: int, t: int)
    requires Cong(h, u * t) && Cong(u, c * z) && Cong(hz, z * t)
    ensures Cong(h, c * hz)
  {
    hide Cong;
    CongMulBy(u, c * z, t);
    CongMulBy(hz, z * t, c);
    assert c * z * t == c * (z * t);
    CongTrans(h, u * t, c * (z * t));
    CongSym(c * hz, c * (z * t));
    CongTrans(h, c * (z * t), c * hz);
  }

  // ---- conversions ---------------------------------------------------------------------

  method GeP1P1ToP2(p: GeP1P1, ghost a: Point) returns (r: GeP2)
    requires Fermat() && IsP1P1(p, a)
    ensures IsP2(r, a)
  {
    hide Cong, Val, MulInput, Fermat;
    var X := FeMul(p.X, p.T);
    var Y := FeMul(p.Y, p.Z);
    var Z := FeMul(p.Z, p.T);
    r := GeP2(X, Y, Z);
    P2Means(r, a);
    CompletedToProjective(a, p, Val(r.X), Val(r.Y), Val(r.Z));
  }

  method GeP1P1ToP3(p: GeP1P1, ghost a: Point) returns (r: GeP3)
    requires Fermat() && IsP1P1(p, a)
    ensures IsP3(r, a)
  {
    hide Cong, Val, MulInput, Fermat;
    P1P1Means(p, a);
    var X := FeMul(p.X, p.T);
    var Y := FeMul(p.Y, p.Z);
    var Z := FeMul(p.Z, p.T);
    var T := FeMul(p.X, p.Y);
    r := GeP3(X, Y, Z, T);
    P3Means(r, a);
    CompletedToProjective(a, p, Val(r.X), Val(r.Y), Val(r.Z));
    MulScaled(Val(r.T), Val(p.X), a.x, Val(p.Z), Val(p.Y), a.y, Val(p.T));
    CongMulBy(Val(r.Z), Val(p.Z) * Val(p.T), a.x * a.y);
    CongSym(a.x * a.y * Val(r.Z), a.x * a.y * (Val(p.Z) * Val(p.T)));
    CongTrans(Val(r.T), a.x * a.y * (Val(p.Z) * Val(p.T)), a.x * a.y * Val(r.Z));
  }

  lemma CompletedToProjective(a: Point, p: GeP1P1, X: int, Y: int, Z: int)
    requires Fermat() && IsP1P1(p, a)
    requires Cong(X, Val(p.X) * Val(p.T)) && Cong(Y, Val(p.Y) * Val(p.Z)) && Cong(Z, Val(p.Z) * Val(p.T))
    ensures Cong(X, a.x * Z) && Cong(Y, a.y * Z) && !Cong(Z, 0)
  {
    hide Cong, Val, MulInput, Fermat;
    P1P1Means(p, a);
    ScaledBy(X, Z, Val(p.X), a.x, Val(p.Z), Val(p.T));
    assert Val(p.Z) * Val(p.T) == Val(p.T) * Val(p.Z);
    ScaledBy(Y, Z, Val(p.Y), a.y, Val(p.T), Val(p.Z));
    NonzeroProduct(Val(p.Z), Val(p.T));
    NonzeroCong(Z, Val(p.Z) * Val(p.T));
  }

  /** ge_p2_0 and ge_p3_0: the neutral element. */
  function GeP20(): (r: GeP2)
    ensures IsP2(r, IDENTITY)
  {
    IdentityCoordinates();
    GeP2(ZERO, ONE, ONE)
  }

  function GeP30(): (r: GeP3)
    ensures IsP3(r, IDENTITY)
  {
    IdentityCoordinates();
    GeP3(ZERO, ONE, ONE, ZERO)
  }

  lemma IdentityCoordinates()
    ensures Tight(ZERO) && Tight(ONE) && Nonzero(ONE)
    ensures Scaled(ZERO, 0, ONE) && Scaled(ONE, 1, ONE) && ScaledXY(ZERO, IDENTITY, ONE)
  {
    hide Val, Cong, Tight, MulInput, Within;
    ZeroValue();
    OneValue();
    ConstantBounds();
    OneIsNotZero();
    CongRefl(0);
    CongRefl(1);
    NonzeroMeans(ONE);
    ScaledMeans(ZERO, 0, ONE);
    ScaledMeans(ONE, 1, ONE);
    ScaledXYMeans(ZERO, IDENTITY, ONE);
  }

  function GeP3ToP2(p: GeP3): (r: GeP2)
    ensures forall a {:trigger IsP3(p, a)} :: IsP3(p, a) ==> IsP2(r, a)
  {
    GeP2(p.X, p.Y, p.Z)
  }

  // The limbs of d and 2d in ge.c.
  const D_FE := Fe(-10913610, 13857413, -15372611, 6949391, 114729, -8787816, -6275908, -3247719, -18696448, -12055116)
  const D2_FE := Fe(-21827239, -5839606, -30745221, 13898782, 229458, 15978800, -12551817, -6495438, 29715968, 9444199)

  lemma DValues()
    ensures Tight(D_FE) && Cong(Val(D_FE), D)
    ensures Tight(D2_FE) && Cong(Val(D2_FE), 2 * D)
  {
    CongMeans(Val(D_FE), D);
    CongMeans(Val(D2_FE), 2 * D);
  }

  /** Tight coordinates can be added, subtracted and multiplied again. */
  lemma TightBounds(f: Fe)
    requires Tight(f)
    ensures MulInput(f) && Addable(f) && Within(f, TIGHT_E, TIGHT_O)
  {
  }

  ghost predicate Usable(f: Fe) { MulInput(f) && Addable(f) && Within(f, TIGHT_E, TIGHT_O) }

  lemma P3Bounds(p: GeP3, a: Point)
    requires IsP3(p, a)
    ensures Usable(p.X) && Usable(p.Y) && Usable(p.Z) && Usable(p.T)
  {
    hide Scaled, Nonzero;
  }

  lemma CachedBounds(q: GeCached, b: Point)
    requires IsCached(q, b)
    ensures Usable(q.Z) && Usable(q.T2d) && MulInput(q.YplusX) && MulInput(q.YminusX)
  {
    hide Scaled, Nonzero;
  }

  lemma InputBounds(f: Fe, e: int, o: int)
    requires Within(f, e, o) && 0 <= e <= INPUT_E && 0 <= o <= INPUT_O
    ensures MulInput(f) && Addable(f)
  {
  }

  method GeP3ToCached(p: GeP3, ghost a: Point) returns (r: GeCached)
    requires IsP3(p, a)
    ensures IsCached(r, a)
  {
    hide Cong, Val, MulInput, Addable, Within;
    P3Means(p, a);
    TightBounds(p.X);
    TightBounds(p.Y);
    TightBounds(p.T);
    DValues();
    TightBounds(D2_FE);
    var YplusX := FeAdd(p.Y, p.X);
    var YminusX := FeSub(p.Y, p.X);
    var T2d := FeMul(p.T, D2_FE);
    r := GeCached(YplusX, YminusX, p.Z, T2d);
    CachedMeans(r, a);
    InputBounds(YplusX, TIGHT_E + TIGHT_E, TIGHT_O + TIGHT_O);
    InputBounds(YminusX, TIGHT_E + TIGHT_E, TIGHT_O + TIGHT_O);
    TightBounds(T2d);
    CachedValues(a.x, a.y, Val(p.X), Val(p.Y), Val(p.Z), Val(p.T), Val(D2_FE), Val(T2d));
  }

  lemma CachedValues(x: int, y: int, X: int, Y: int, Z: int, T: int, d2: int, T2d: int)
    requires Cong(X, x * Z) && Cong(Y, y * Z) && Cong(T, x * y * Z) && Cong(d2, 2 * D) && Cong(T2d, T * d2)
    ensures Cong(Y + X, (y + x) * Z) && Cong(Y - X, (y - x) * Z) && Cong(T2d, 2 * (D * (x * y)) * Z)
  {
    SumTimes2(x, y, Z);
    CongAdd(Y, y * Z, X, x * Z);
    hide Cong;
    CongMul(T, x * y * Z, d2, 2 * D);
    CongTrans(T2d, T * d2, x * y * Z * (2 * D));
    Commute3(x * y, Z, 2, D);
  }

  lemma SumTimes2(x: int, y: int, z: int)
    ensures (y + x) * z == y * z + x * z && (y - x) * z == y * z - x * z
  {
  }

  lemma Commute3(c: int, z: int, k: int, d: int)
    ensures c * z * (k * d) == k * (d * c) * z
  {
  }

  // ---- the completed sum ---------------------------------------------------------------

  /** Numerators and denominators of the affine law, all times the same nonzero w, make a
    * completed point that stands for the sum. */
  lemma Completed(a: Point, b: Point, w: int, X: int, Y: int, Z: int, T: int)
    requires PrimeField() && OnCurve(a) && OnCurve(b) && !Cong(w, 0)
    requires Cong(X, (a.x * b.y + b.x * a.y) * w) && Cong(Y, (a.y * b.y + a.x * b.x) * w)
    requires Cong(Z, (1 + Cross(a, b)) * w) && Cong(T, (1 - Cross(a, b)) * w)
    ensures Cong(X, Add(a, b).x * Z) && Cong(Y, Add(a, b).y * T) && !Cong(Z, 0) && !Cong(T, 0)
  {
    hide Cong, Cross, OnCurve, Add, Fermat;
    AddLaw(a, b);
    SumLawMeans(a, b, Add(a, b));
    Complete(a, b);
    CompletedQuotient(Add(a, b).x, 1 + Cross(a, b), a.x * b.y + b.x * a.y, w, X, Z);
    CompletedQuotient(Add(a, b).y, 1 - Cross(a, b), a.y * b.y + a.x * b.x, w, Y, T);
  }

  lemma CompletedQuotient(s: int, e: int, n: int, w: int, X: int, Z: int)
    requires Fermat() && !Cong(w, 0) && !Cong(e, 0)
    requires Cong(s * e, n) && Cong(X, n * w) && Cong(Z, e * w)
    ensures Cong(X, s * Z) && !Cong(Z, 0)
  {
    hide Cong, Fermat;
    CongMulBy(s * e, n, w);
    CongMulBy(Z, e * w, s);
    assert s * e * w == s * (e * w);
    CongSym(s * Z, s * (e * w));
    CongSym(s * e * w, n * w);
    CongTrans(X, n * w, s * (e * w));
    CongTrans(X, s * (e * w), s * Z);
    NonzeroProduct(e, w);
    NonzeroCong(Z, e * w);
  }

  /** The values that ge_add and its variants form before their last four lines: from
    * p1 = (Y1 + X1)(y2 + x2), p2 = (Y1 - X1)(y2 - x2) and c = 2 d T1 t2, with w = Z1 z2. */
  lemma SumColumns(a: Point, b: Point, X: int, Y: int, Z: int, T: int, yp: int, ym: int, t2: int, z: int, p1: int,
    p2: int, c: int, w: int)
    requires Fermat() && !Cong(Z, 0) && !Cong(z, 0) && Cong(w, Z * z)
    requires Cong(X, a.x * Z) && Cong(Y, a.y * Z) && Cong(T, a.x * a.y * Z)
    requires Cong(yp, (b.y + b.x) * z) && Cong(ym, (b.y - b.x) * z) && Cong(t2, Weighted(b.x, b.y) * z)
    requires Cong(p1, (Y + X) * yp) && Cong(p2, (Y - X) * ym) && Cong(c, t2 * T)
    ensures !Cong(2 * w, 0)
    ensures Cong(p1 - p2, (a.x * b.y + b.x * a.y) * (2 * w)) && Cong(p1 + p2, (a.y * b.y + a.x * b.x) * (2 * w))
    ensures Cong(w + w + c, (1 + Cross(a, b)) * (2 * w)) && Cong(w + w - c, (1 - Cross(a, b)) * (2 * w))
  {
    hide Cong, Fermat, Cross;
    CoordinateSums(a.x, a.y, X, Y, Z);
    MulRescaled(p1, Y + X, a.y + a.x, Z, yp, b.y + b.x, z, w);
    MulRescaled(p2, Y - X, a.y - a.x, Z, ym, b.y - b.x, z, w);
    NumeratorColumns(a.x, a.y, b.x, b.y, p1, p2, w);
    assert Z * z == z * Z;
    MulRescaled(c, t2, Weighted(b.x, b.y), z, T, a.x * a.y, Z, w);
    DenominatorColumns(a, b, c, w);
    NonzeroProduct(Z, z);
    NonzeroCong(w, Z * z);
    TwiceNonzero(w);
  }

  lemma MulRescaled(h: int, u: int, c: int, y: int, v: int, e: int, z: int, w: int)
    requires Cong(h, u * v) && Cong(u, c * y) && Cong(v, e * z) && Cong(w, y * z)
    ensures Cong(h, (c * e) * w)
  {
    hide Cong;
    MulScaled(h, u, c, y, v, e, z);
    Rescale(h, c * e, w, y * z);
  }

  lemma NumeratorColumns(x1: int, y1: int, x2: int, y2: int, p1: int, p2: int, w: int)
    requires Cong(p1, (y1 + x1) * (y2 + x2) * w) && Cong(p2, (y1 - x1) * (y2 - x2) * w)
    ensures Cong(p1 - p2, (x1 * y2 + x2 * y1) * (2 * w)) && Cong(p1 + p2, (y1 * y2 + x1 * x2) * (2 * w))
  {
    hide Cong;
    SumIdentities(x1, y1, x2, y2, w);
    CongAdd(p1, (y1 + x1) * (y2 + x2) * w, p2, (y1 - x1) * (y2 - x2) * w);
  }

  lemma DenominatorColumns(a: Point, b: Point, c: int, w: int)
    requires Cong(c, Weighted(b.x, b.y) * (a.x * a.y) * w)
    ensures Cong(w + w + c, (1 + Cross(a, b)) * (2 * w)) && Cong(w + w - c, (1 - Cross(a, b)) * (2 * w))
  {
    hide Cong;
    CrossIdentity(D, a.x, a.y, b.x, b.y, w);
    CongRefl(w + w);
    CongAdd(w + w, w + w, c, 2 * (Cross(a, b) * w));
  }

  lemma CoordinateSums(x: int, y: int, X: int, Y: int, Z: int)
    requires Cong(X, x * Z) && Cong(Y, y * Z)
    ensures Cong(Y + X, (y + x) * Z) && Cong(Y - X, (y - x) * Z)
  {
    hide Cong;
    SumTimes2(x, y, Z);
    CongAdd(Y, y * Z, X, x * Z);
  }

  lemma Rescale(p: int, k: int, w: int, v: int)
    requires Cong(p, k * v) && Cong(w, v)
    ensures Cong(p, k * w)
  {
    hide Cong;
    CongMulBy(w, v, k);
    CongSym(k * w, k * v);
    CongTrans(p, k * v, k * w);
  }

  lemma SumIdentities(x1: int, y1: int, x2: int, y2: int, w: int)
    ensures (y1 + x1) * (y2 + x2) * w - (y1 - x1) * (y2 - x2) * w == (x1 * y2 + x2 * y1) * (2 * w)
    ensures (y1 + x1) * (y2 + x2) * w + (y1 - x1) * (y2 - x2) * w == (y1 * y2 + x1 * x2) * (2 * w)
  {
    Binomial2(y1, x1, y2, x2);
    TwoSums((y1 + x1) * (y2 + x2), (y1 - x1) * (y2 - x2), x1 * y2 + x2 * y1, y1 * y2 + x1 * x2, w);
  }

  lemma TwoSums(p: int, q: int, n: int, m: int, w: int)
    requires p - q == 2 * n && p + q == 2 * m
    ensures p * w - q * w == n * (2 * w) && p * w + q * w == m * (2 * w)
  {
    assert p == m + n && q == m - n;
  }

  lemma CrossIdentity(d: int, x1: int, y1: int, x2: int, y2: int, w: int)
    ensures 2 * (d * (x2 * y2)) * (x1 * y1) * w == 2 * (d * (x1 * x2) * (y1 * y2) * w)
    ensures (1 + d * (x1 * x2) * (y1 * y2)) * (2 * w) == w + w + 2 * (d * (x1 * x2) * (y1 * y2) * w)
    ensures (1 - d * (x1 * x2) * (y1 * y2)) * (2 * w) == w + w - 2 * (d * (x1 * x2) * (y1 * y2) * w)
  {
    CrossOrder(d, x1, y1, x2, y2);
    CrossTimes(d * (x1 * x2) * (y1 * y2), w);
  }

  lemma CrossOrder(d: int, x1: int, y1: int, x2: int, y2: int)
    ensures 2 * (d * (x2 * y2)) * (x1 * y1) == 2 * (d * (x1 * x2) * (y1 * y2))
  {
    CrossCommute2(d, x1, y1, x2, y2);
    assert d * (x2 * y2) * (x1 * y1) == d * ((x1 * y1) * (x2 * y2));
  }

  lemma CrossTimes(t: int, w: int)
    ensures 2 * t * w == 2 * (t * w) && (1 + t) * (2 * w) == w + w + 2 * (t * w) && (1 - t) * (2 * w) == w
      + w - 2 * (t * w)
  {
  }

  lemma TwiceNonzero(w: int)
    requires !Cong(w, 0)
    ensures !Cong(2 * w, 0)
  {
    if Cong(2 * w, 0) {
      Halve(w);
    }
  }

  /** What ge_sub and ge_msub see is a cached form of the negated point. */
  lemma NegCached(x: int, y: int, n: int, c: int, m: int, yp: int, ym: int, t2: int, z: int)
    requires Cong(n, -x) && Cong(m, -c)
    requires Cong(yp, (y + x) * z) && Cong(ym, (y - x) * z) && Cong(t2, c * z)
    ensures Cong(ym, (y + n) * z) && Cong(yp, (y - n) * z) && Cong(-t2, m * z)
  {
    CongRefl(y);
    CongAdd(y, y, n, -x);
    hide Cong;
    Rescale2(ym, y - x, y + n, z);
    Rescale2(yp, y + x, y - n, z);
    NegTimes2(t2, c, z);
    Rescale2(-t2, -c, m, z);
  }

  lemma NegTerms(n: int, x: int, y: int)
    requires Cong(n, -x)
    ensures Cong(Weighted(n, y), -Weighted(x, y))
  {
    NegTimes(n, x, y);
    NegScale(n * y, x * y, D);
    NegScale(D * (n * y), D * (x * y), 2);
  }

  lemma Rescale2(p: int, k: int, l: int, z: int)
    requires Cong(p, k * z) && Cong(l, k)
    ensures Cong(p, l * z)
  {
    hide Cong;
    CongMulBy(l, k, z);
    CongSym(l * z, k * z);
    CongTrans(p, k * z, l * z);
  }

  lemma NegTimes2(t: int, k: int, z: int)
    requires Cong(t, k * z)
    ensures Cong(-t, -k * z)
  {
    var m := CongWitness(t, k * z);
    assert -k * z == -(k * z);
    CongIntro(-t, -k * z, -m);
  }

  lemma NegProduct(c: int, t2: int, t: int)
    requires Cong(c, t2 * t)
    ensures Cong(-c, -t2 * t)
  {
    var m := CongWitness(c, t2 * t);
    assert -t2 * t == -(t2 * t);
    CongIntro(-c, -t2 * t, -m);
  }

  lemma TimesOne(w: int)
    ensures Cong(w, w * 1)
  {
    CongRefl(w);
  }

  lemma PrecompIsCached(q: GePrecomp, b: Point)
    requires IsPrecomp(q, b)
    ensures Cong(Val(q.yplusx), (b.y + b.x) * 1) && Cong(Val(q.yminusx), (b.y - b.x) * 1)
    ensures Cong(Val(q.xy2d), Weighted(b.x, b.y) * 1) && !Cong(1, 0)
  {
    hide Cong, Val;
    OneIsNotZero();
    OneValue();
    ScaledMeans(q.yplusx, b.y + b.x, ONE);
    ScaledMeans(q.yminusx, b.y - b.x, ONE);
    ScaledWeightMeans(q.xy2d, b, ONE);
  }

  // ---- addition and doubling -----------------------------------------------------------

  /** r = p + q */
  method GeAdd(p: GeP3, q: GeCached, ghost a: Point, ghost b: Point) returns (r: GeP1P1)
    requires PrimeField() && OnCurve(a) && OnCurve(b)
    requires IsP3(p, a) && IsCached(q, b)
    ensures IsP1P1(r, Add(a, b))
  {
    hide Cong, Val, MulInput, Addable, Within, Add, OnCurve, Neg;
    P3Means(p, a);
    CachedMeans(q, b);
    P3Bounds(p, a);
    CachedBounds(q, b);
    var X := FeAdd(p.Y, p.X);
    InputBounds(X, TIGHT_E + TIGHT_E, TIGHT_O + TIGHT_O);
    var Y := FeSub(p.Y, p.X);
    InputBounds(Y, TIGHT_E + TIGHT_E, TIGHT_O + TIGHT_O);
    var Z := FeMul(X, q.YplusX);
    TightBounds(Z);
    Y := FeMul(Y, q.YminusX);
    TightBounds(Y);
    var T := FeMul(q.T2d, p.T);
    TightBounds(T);
    X := FeMul(p.Z, q.Z);
    TightBounds(X);
    var t0 := FeAdd(X, X);
    ghost var w := Val(X);
    InputBounds(t0, TIGHT_E + TIGHT_E, TIGHT_O + TIGHT_O);
    ghost var z := Val(q.Z);
    ghost var s := b;
    SumColumns(a, b, Val(p.X), Val(p.Y), Val(p.Z), Val(p.T), Val(q.YplusX), Val(q.YminusX), Val(q.T2d), z, Val(Z),
      Val(Y), Val(T), w);
    X := FeSub(Z, Y);
    InputBounds(X, TIGHT_E + TIGHT_E, TIGHT_O + TIGHT_O);
    Y := FeAdd(Z, Y);
    InputBounds(Y, TIGHT_E + TIGHT_E, TIGHT_O + TIGHT_O);
    Z := FeAdd(t0, T);
    InputBounds(Z, 3 * TIGHT_E, 3 * TIGHT_O);
    T := FeSub(t0, T);
    InputBounds(T, 3 * TIGHT_E, 3 * TIGHT_O);
    r := GeP1P1(X, Y, Z, T);
    P1P1Means(r, Add(a, b));
    Completed(a, s, 2 * w, Val(r.X), Val(r.Y), Val(r.Z), Val(r.T));
  }

  /** r = p - q */
  method GeSub(p: GeP3, q: GeCached, ghost a: Point, ghost b: Point) returns (r: GeP1P1)
    requires PrimeField() && OnCurve(a) && OnCurve(b)
    requires IsP3(p, a) && IsCached(q, b)
    ensures IsP1P1(r, Add(a, Neg(b)))
  {
    hide Cong, Val, MulInput, Addable, Within, Add, OnCurve, Neg;
    P3Means(p, a);
    CachedMeans(q, b);
    P3Bounds(p, a);
    CachedBounds(q, b);
    var X := FeAdd(p.Y, p.X);
    InputBounds(X, TIGHT_E + TIGHT_E, TIGHT_O + TIGHT_O);
    var Y := FeSub(p.Y, p.X);
    InputBounds(Y, TIGHT_E + TIGHT_E, TIGHT_O + TIGHT_O);
    var Z := FeMul(X, q.YminusX);
    TightBounds(Z);
    Y := FeMul(Y, q.YplusX);
    TightBounds(Y);
    var T := FeMul(q.T2d, p.T);
    TightBounds(T);
    X := FeMul(p.Z, q.Z);
    TightBounds(X);
    var t0 := FeAdd(X, X);
    ghost var w := Val(X);
    InputBounds(t0, TIGHT_E + TIGHT_E, TIGHT_O + TIGHT_O);
    ghost var z := Val(q.Z);
    NegReduced(b);
    NegTerms(Neg(b).x, b.x, b.y);
    NegCached(b.x, b.y, Neg(b).x, Weighted(b.x, b.y), Weighted(Neg(b).x, b.y), Val(q.YplusX), Val(q.YminusX),
      Val(q.T2d), z);
    NegOnCurve(b);
    NegProduct(Val(T), Val(q.T2d), Val(p.T));
    ghost var s := Neg(b);
    SumColumns(a, s, Val(p.X), Val(p.Y), Val(p.Z), Val(p.T), Val(q.YminusX), Val(q.YplusX), -Val(q.T2d), z, Val(Z),
      Val(Y), -Val(T), w);
    X := FeSub(Z, Y);
    InputBounds(X, TIGHT_E + TIGHT_E, TIGHT_O + TIGHT_O);
    Y := FeAdd(Z, Y);
    InputBounds(Y, TIGHT_E + TIGHT_E, TIGHT_O + TIGHT_O);
    Z := FeSub(t0, T);
    InputBounds(Z, 3 * TIGHT_E, 3 * TIGHT_O);
    T := FeAdd(t0, T);
    InputBounds(T, 3 * TIGHT_E, 3 * TIGHT_O);
    r := GeP1P1(X, Y, Z, T);
    P1P1Means(r, Add(a, Neg(b)));
    Completed(a, s, 2 * w, Val(r.X), Val(r.Y), Val(r.Z), Val(r.T));
  }

  /** r = p + q */
  method GeMadd(p: GeP3, q: GePrecomp, ghost a: Point, ghost b: Point) returns (r: GeP1P1)
    requires PrimeField() && OnCurve(a) && OnCurve(b)
    requires IsP3(p, a) && IsPrecomp(q, b)
    ensures IsP1P1(r, Add(a, b))
  {
    hide Cong, Val, MulInput, Addable, Within, Add, OnCurve, Neg;
    P3Means(p, a);
    P3Bounds(p, a);
    var X := FeAdd(p.Y, p.X);
    InputBounds(X, TIGHT_E + TIGHT_E, TIGHT_O + TIGHT_O);
    var Y := FeSub(p.Y, p.X);
    InputBounds(Y, TIGHT_E + TIGHT_E, TIGHT_O + TIGHT_O);
    var Z := FeMul(X, q.yplusx);
    TightBounds(Z);
    Y := FeMul(Y, q.yminusx);
    TightBounds(Y);
    var T := FeMul(q.xy2d, p.T);
    TightBounds(T);
    var t0 := FeAdd(p.Z, p.Z);
    ghost var w := Val(p.Z);
    InputBounds(t0, TIGHT_E + TIGHT_E, TIGHT_O + TIGHT_O);
    PrecompIsCached(q, b);
    TimesOne(w);
    ghost var z := 1;
    ghost var s := b;
    SumColumns(a, b, Val(p.X), Val(p.Y), Val(p.Z), Val(p.T), Val(q.yplusx), Val(q.yminusx), Val(q.xy2d), z, Val(Z),
      Val(Y), Val(T), w);
    X := FeSub(Z, Y);
    InputBounds(X, TIGHT_E + TIGHT_E, TIGHT_O + TIGHT_O);
    Y := FeAdd(Z, Y);
    InputBounds(Y, TIGHT_E + TIGHT_E, TIGHT_O + TIGHT_O);
    Z := FeAdd(t0, T);
    InputBounds(Z, 3 * TIGHT_E, 3 * TIGHT_O);
    T := FeSub(t0, T);
    InputBounds(T, 3 * TIGHT_E, 3 * TIGHT_O);
    r := GeP1P1(X, Y, Z, T);
    P1P1Means(r, Add(a, b));
    Completed(a, s, 2 * w, Val(r.X), Val(r.Y), Val(r.Z), Val(r.T));
  }

  /** r = p - q */
  method GeMsub(p: GeP3, q: GePrecomp, ghost a: Point, ghost b: Point) returns (r: GeP1P1)
    requires PrimeField() && OnCurve(a) && OnCurve(b)
    requires IsP3(p, a) && IsPrecomp(q, b)
    ensures IsP1P1(r, Add(a, Neg(b)))
  {
    hide Cong, Val, MulInput, Addable, Within, Add, OnCurve, Neg;
    P3Means(p, a);
    P3Bounds(p, a);
    var X := FeAdd(p.Y, p.X);
    InputBounds(X, TIGHT_E + TIGHT_E, TIGHT_O + TIGHT_O);
    var Y := FeSub(p.Y, p.X);
    InputBounds(Y, TIGHT_E + TIGHT_E, TIGHT_O + TIGHT_O);
    var Z := FeMul(X, q.yminusx);
    TightBounds(Z);
    Y := FeMul(Y, q.yplusx);
    TightBounds(Y);
    var T := FeMul(q.xy2d, p.T);
    TightBounds(T);
    var t0 := FeAdd(p.Z, p.Z);
    ghost var w := Val(p.Z);
    InputBounds(t0, TIGHT_E + TIGHT_E, TIGHT_O + TIGHT_O);
    PrecompIsCached(q, b);
    TimesOne(w);
    ghost var z := 1;
    NegReduced(b);
    NegTerms(Neg(b).x, b.x, b.y);
    NegCached(b.x, b.y, Neg(b).x, Weighted(b.x, b.y), Weighted(Neg(b).x, b.y), Val(q.yplusx), Val(q.yminusx),
      Val(q.xy2d), z);
    NegOnCurve(b);
    NegProduct(Val(T), Val(q.xy2d), Val(p.T));
    ghost var s := Neg(b);
    SumColumns(a, s, Val(p.X), Val(p.Y), Val(p.Z), Val(p.T), Val(q.yminusx), Val(q.yplusx), -Val(q.xy2d), z, Val(Z),
      Val(Y), -Val(T), w);
    X := FeSub(Z, Y);
    InputBounds(X, TIGHT_E + TIGHT_E, TIGHT_O + TIGHT_O);
    Y := FeAdd(Z, Y);
    InputBounds(Y, TIGHT_E + TIGHT_E, TIGHT_O + TIGHT_O);
    Z := FeSub(t0, T);
    InputBounds(Z, 3 * TIGHT_E, 3 * TIGHT_O);
    T := FeAdd(t0, T);
    InputBounds(T, 3 * TIGHT_E, 3 * TIGHT_O);
    r := GeP1P1(X, Y, Z, T);
    P1P1Means(r, Add(a, Neg(b)));
    Completed(a, s, 2 * w, Val(r.X), Val(r.Y), Val(r.Z), Val(r.T));
  }

  /** r = 2 * p */
  method GeP2Dbl(p: GeP2, ghost a: Point) returns (r: GeP1P1)
    requires PrimeField() && OnCurve(a) && IsP2(p, a)
    ensures IsP1P1(r, Add(a, a))
  {
    hide Cong, Val, MulInput, Addable, Within, Add, OnCurve;
    P2Means(p, a);
    TightBounds(p.X);
    TightBounds(p.Y);
    TightBounds(p.Z);
    var X := FeSq(p.X);
    TightBounds(X);
    var Z := FeSq(p.Y);
    TightBounds(Z);
    var T := FeSq2(p.Z);
    TightBounds(T);
    var Y := FeAdd(p.X, p.Y);
    InputBounds(Y, TIGHT_E + TIGHT_E, TIGHT_O + TIGHT_O);
    var t0 := FeSq(Y);
    TightBounds(t0);
    ghost var w := Val(p.Z) * Val(p.Z);
    NonzeroProduct(Val(p.Z), Val(p.Z));
    DoubleColumns(a, Val(p.X), Val(p.Y), Val(p.Z), Val(X), Val(Z), Val(T), Val(t0));
    Y := FeAdd(Z, X);
    InputBounds(Y, TIGHT_E + TIGHT_E, TIGHT_O + TIGHT_O);
    Z := FeSub(Z, X);
    InputBounds(Z, TIGHT_E + TIGHT_E, TIGHT_O + TIGHT_O);
    X := FeSub(t0, Y);
    InputBounds(X, TIGHT_E + (TIGHT_E + TIGHT_E), TIGHT_O + (TIGHT_O + TIGHT_O));
    T := FeSub(T, Z);
    InputBounds(T, TIGHT_E + (TIGHT_E + TIGHT_E), TIGHT_O + (TIGHT_O + TIGHT_O));
    r := GeP1P1(X, Y, Z, T);
    P1P1Means(r, Add(a, a));
    Completed(a, a, w, Val(r.X), Val(r.Y), Val(r.Z), Val(r.T));
  }

  method GeP3Dbl(p: GeP3, ghost a: Point) returns (r: GeP1P1)
    requires PrimeField() && OnCurve(a) && IsP3(p, a)
    ensures IsP1P1(r, Add(a, a))
  {
    hide Cong, Val, Tight, Add, OnCurve;
    var q := GeP3ToP2(p);
    r := GeP2Dbl(q, a);
  }

  /** The squares of ge_p2_dbl; the curve equation turns y^2 - x^2 into the denominator. */
  lemma DoubleColumns(a: Point, X: int, Y: int, Z: int, xx: int, yy: int, zz2: int, aa: int)
    requires OnCurve(a) && Cong(X, a.x * Z) && Cong(Y, a.y * Z)
    requires Cong(xx, X * X) && Cong(yy, Y * Y) && Cong(zz2, 2 * (Z * Z)) && Cong(aa, (X + Y) * (X + Y))
    ensures var w := Z * Z;
      && Cong(aa - (yy + xx), (a.x * a.y + a.x * a.y) * w) && Cong(yy + xx, (a.y * a.y + a.x * a.x) * w)
      && Cong(yy - xx, (1 + Cross(a, a)) * w) && Cong(zz2 - (yy - xx), (1 - Cross(a, a)) * w)
  {
    hide Cong;
    EquationMeans(a.x, a.y);
    var x, y, w := a.x, a.y, Z * Z;
    MulScaled(xx, X, x, Z, X, x, Z);
    MulScaled(yy, Y, y, Z, Y, y, Z);
    CoordinateSums(x, y, X, Y, Z);
    assert X + Y == Y + X;
    MulScaled(aa, Y + X, y + x, Z, Y + X, y + x, Z);
    CongMulBy(y * y - x * x, 1 + D * (x * x) * (y * y), w);
    DoubleIdentities(x, y, D * (x * x) * (y * y), w);
    DoubleTotals(aa, xx, yy, zz2, (y + x) * (y + x) * w, x * x * w, y * y * w, w, (x * y + x * y) * w,
      (1 + D * (x * x) * (y * y)) * w);
  }

  lemma DoubleIdentities(x: int, y: int, t: int, w: int)
    ensures (y + x) * (y + x) * w - (y * y * w + x * x * w) == (x * y + x * y) * w
    ensures (y * y + x * x) * w == y * y * w + x * x * w && (y * y - x * x) * w == y * y * w - x * x * w
    ensures (1 - t) * w == 2 * w - (1 + t) * w
  {
    Binomial2(y, -x, y, -x);
    assert (y + x) * (y + x) == y * y + x * x + (x * y + x * y);
  }

  lemma DoubleTotals(aa: int, xx: int, yy: int, zz2: int, s: int, x: int, y: int, w: int, e: int, f: int)
    requires Cong(aa, s) && Cong(xx, x) && Cong(yy, y) && Cong(zz2, 2 * w) && s - (y + x) == e && Cong(y - x, f)
    ensures Cong(aa - (yy + xx), e) && Cong(yy + xx, y + x) && Cong(yy - xx, f) && Cong(zz2 - (yy - xx), 2 * w - f)
  {
    hide Cong;
    CongAdd(yy, y, xx, x);
    CongAdd(aa, s, yy + xx, y + x);
    CongTrans(yy - xx, y - x, f);
    CongAdd(zz2, 2 * w, yy - xx, f);
  }
}
