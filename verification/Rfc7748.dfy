/** The ladder that the code runs gives the X25519 function of RFC 7748.
  *
  * The code swaps before and after each of 256 steps; section 5 of RFC 7748 takes 255 steps and
  * defers every second swap. The extra step multiplies the coordinates by a factor that cancels,
  * given that p is prime. */
module Rfc7748 {
  import opened Bytes
  import opened Modular
  import opened Edwards
  import opened X25519

  // ---- the ladder as the standard writes it --------------------------------------------

  datatype Deferred = Deferred(s: Ladder, swap: bool)

  /** After n of the bits 254 to 0. */
  function RfcRun(k: nat, u: int, n: nat): Deferred
    requires n <= 255
  {
    if n == 0 then Deferred(Ladder(1, 0, u, 1), false)
    else
      var d := RfcRun(k, u, n - 1);
      var bit := BitOf(k, 255 - n);
      Deferred(Step(u, CSwap(d.swap != bit, d.s)), bit)
  }

  /** X25519(k, u) for a decoded scalar and u-coordinate. */
  function Standard(k: nat, u: int): int {
    var d := RfcRun(k, u, 255);
    Affine(CSwap(d.swap, d.s))
  }

  // ---- deferred swaps ------------------------------------------------------------------

  /** The code's loop on the bits 254 to 0. */
  function Eager(k: nat, u: int, n: nat): Ladder
    requires n <= 255
  {
    if n == 0 then Ladder(1, 0, u, 1)
    else
      var bit := BitOf(k, 255 - n);
      CSwap(bit, Step(u, CSwap(bit, Eager(k, u, n - 1))))
  }

  /** Deferring a swap to the next step changes nothing. */
  lemma {:induction false} DeferredIsEager(k: nat, u: int, n: nat)
    requires n <= 255
    ensures var d := RfcRun(k, u, n); CSwap(d.swap, d.s) == Eager(k, u, n)
  {
    hide Step, BitOf;
    if n == 0 {
    } else {
      DeferredIsEager(k, u, n - 1);
    }
  }

  // ---- the step at bit 255 -------------------------------------------------------------

  /** Both points of s are those of t, with coordinates multiplied by l and m. */
  ghost predicate Scaled(s: Ladder, t: Ladder, l: int, m: int) {
    s.x2 == l * t.x2 && s.z2 == l * t.z2 && s.x3 == m * t.x3 && s.z3 == m * t.z3
  }

  lemma ScaledSums(x: int, z: int, l: int)
    ensures l * x + l * z == l * (x + z) && l * x - l * z == l * (x - z)
  {
  }

  lemma ScaledProduct(x: int, y: int, l: int, m: int)
    ensures (l * x) * (m * y) == (l * m) * (x * y)
  {
  }

  /** A step maps scaled states to scaled states. */
  lemma StepScaled(u: int, s: Ladder, t: Ladder, l: int, m: int)
    requires Scaled(s, t, l, m)
    ensures Scaled(Step(u, s), Step(u, t), (l * l) * (l * l), (m * l) * (m * l))
  {
    var a, b, c, d := t.x2 + t.z2, t.x2 - t.z2, t.x3 + t.z3, t.x3 - t.z3;
    ScaledSums(t.x2, t.z2, l);
    ScaledSums(t.x3, t.z3, m);
    StepCoordinates(u, l * a, l * b, m * c, m * d, s);
    StepCoordinates(u, a, b, c, d, t);
    DoubledScaled(a, b, l);
    AddedScaled(u, a, b, c, d, l, m);
  }

  /** The four coordinates of a step in terms of the sums and differences. */
  lemma StepCoordinates(u: int, a: int, b: int, c: int, d: int, s: Ladder)
    requires a == s.x2 + s.z2 && b == s.x2 - s.z2 && c == s.x3 + s.z3 && d == s.x3 - s.z3
    ensures var e, da, cb := a * a - b * b, d * a, c * b;
      Step(u, s) == Ladder((a * a) * (b * b), e * (a * a + A24 * e), (da + cb) * (da + cb), u * ((da - cb) * (da - cb)))
  {
  }

  lemma DoubledScaled(a: int, b: int, l: int)
    ensures var w, e := l * l, a * a - b * b;
      var f := (l * a) * (l * a) - (l * b) * (l * b);
      && ((l * a) * (l * a)) * ((l * b) * (l * b)) == (w * w) * ((a * a) * (b * b))
      && f * ((l * a) * (l * a) + A24 * f) == (w * w) * (e * (a * a + A24 * e))
  {
    var w, aa, bb := l * l, a * a, b * b;
    ScaledProduct(a, a, l, l);
    ScaledProduct(b, b, l, l);
    ScaledProduct(aa, bb, w, w);
    Weighted(w, aa, bb);
  }

  lemma Weighted(w: int, aa: int, bb: int)
    ensures var e, f := aa - bb, w * aa - w * bb; f * (w * aa + A24 * f) == (w * w) * (e * (aa + A24 * e))
  {
    var e := aa - bb;
    assert w * aa - w * bb == w * e;
    assert w * aa + A24 * (w * e) == w * (aa + A24 * e);
    ScaledProduct(e, aa + A24 * e, w, w);
  }

  lemma AddedScaled(u: int, a: int, b: int, c: int, d: int, l: int, m: int)
    ensures var w := m * l;
      var da, cb := d * a, c * b;
      var da', cb' := (m * d) * (l * a), (m * c) * (l * b);
      && (da' + cb') * (da' + cb') == (w * w) * ((da + cb) * (da + cb))
      && u * ((da' - cb') * (da' - cb')) == (w * w) * (u * ((da - cb) * (da - cb)))
  {
    var w := m * l;
    ScaledProduct(d, a, m, l);
    ScaledProduct(c, b, m, l);
    SquaresScaled(u, d * a, c * b, w);
  }

  lemma SquaresScaled(u: int, x: int, y: int, w: int)
    ensures (w * x + w * y) * (w * x + w * y) == (w * w) * ((x + y) * (x + y))
    ensures u * ((w * x - w * y) * (w * x - w * y)) == (w * w) * (u * ((x - y) * (x - y)))
  {
    ScaledSums(x, y, w);
    ScaledProduct(x + y, x + y, w, w);
    ScaledProduct(x - y, x - y, w, w);
    Outside(u, w * w, (x - y) * (x - y));
  }

  lemma Outside(u: int, w: int, q: int)
    ensures u * (w * q) == w * (u * q)
  {
  }

  /** The step at the clear bit 255 leaves the first point alone and scales the second by 4 u. */
  lemma FirstStep(k: nat, u: int)
    requires k < Pow2(255)
    ensures Scaled(Run(k, u, 1), Eager(k, u, 0), 1, 4 * u)
  {
    hide Pow2;
    ClearBit(k, Pow2(255));
    Start(u);
    assert Run(k, u, 0) == Ladder(1, 0, u, 1);
  }

  lemma ClearBit(k: nat, n: nat)
    requires k < n
    ensures k / n == 0
  {
  }

  lemma Start(u: int)
    ensures Step(u, Ladder(1, 0, u, 1)) == Ladder(1, 0, 4 * u * u, 4 * u * 1)
  {
  }

  // ---- the factor cancels --------------------------------------------------------------

  lemma ProductUnit(a: int, b: int)
    requires Fermat() && !Cong(a, 0) && !Cong(b, 0)
    ensures !Cong(a * b, 0)
  {
    hide Cong, Fermat;
    if Cong(a * b, 0) {
      NoZeroDivisors(a, b);
    }
  }

  /** After every further bit the two runs differ by invertible factors. */
  lemma {:induction false} RunsScaled(k: nat, u: int, n: nat) returns (l: int, m: int)
    requires Fermat() && k < Pow2(255) && n <= 255 && !Cong(4 * u, 0)
    ensures Scaled(Run(k, u, n + 1), Eager(k, u, n), l, m) && !Cong(l, 0) && !Cong(m, 0)
  {
    hide Fermat, Pow2, Step, Scaled, Run, Eager, CSwap, BitOf, Cong;
    if n == 0 {
      FirstStep(k, u);
      l, m := 1, 4 * u;
      assert !Cong(1, 0) by { OneIsNotZero(); }
    } else {
      var l', m' := RunsScaled(k, u, n - 1);
      var bit := BitOf(k, 255 - n);
      var s, t := Run(k, u, n), Eager(k, u, n - 1);
      RunNext(k, u, n);
      l, m := if bit then m' else l', if bit then l' else m';
      SwapScaled(s, t, l', m', bit);
      StepScaled(u, CSwap(bit, s), CSwap(bit, t), l, m);
      ProductUnit(l, l);
      ProductUnit(l * l, l * l);
      ProductUnit(m, l);
      ProductUnit(m * l, m * l);
      l, m := (l * l) * (l * l), (m * l) * (m * l);
      SwapScaled(Step(u, CSwap(bit, s)), Step(u, CSwap(bit, t)), l, m, bit);
      l, m := if bit then m else l, if bit then l else m;
    }
  }

  lemma RunNext(k: nat, u: int, n: nat)
    requires 1 <= n <= 255
    ensures var bit := BitOf(k, 255 - n);
      && Run(k, u, n + 1) == CSwap(bit, Step(u, CSwap(bit, Run(k, u, n))))
      && Eager(k, u, n) == CSwap(bit, Step(u, CSwap(bit, Eager(k, u, n - 1))))
  {
    hide Step, BitOf, CSwap;
  }

  lemma SwapScaled(s: Ladder, t: Ladder, l: int, m: int, bit: bool)
    requires Scaled(s, t, l, m)
    ensures Scaled(CSwap(bit, s), CSwap(bit, t), if bit then m else l, if bit then l else m)
  {
  }

  /** An invertible common factor of x and z does not change x / z. */
  lemma FactorCancels(x: int, z: int, l: int)
    requires Fermat() && !Cong(l, 0)
    ensures (l * x) * Pow(l * z, P - 2) % P == x * Pow(z, P - 2) % P
  {
    hide Cong, Pow, Fermat;
    PowProduct(l, z, P - 2);
    Interchange(l, x, Pow(l, P - 2), Pow(z, P - 2));
    assert l * Pow(l, P - 2) == Pow(l, P - 1) by { NextPower(l); }
    assert FermatAt(l) by { FermatFor(l); }
    CongMulBy(Pow(l, P - 1), 1, x * Pow(z, P - 2));
    CongSame((l * x) * Pow(l * z, P - 2), x * Pow(z, P - 2));
  }

  lemma NextPower(z: int)
    ensures z * Pow(z, P - 2) == Pow(z, P - 1)
  {
  }

  lemma FermatFor(z: int)
    requires Fermat()
    ensures FermatAt(z)
  {
    hide FermatAt;
  }

  // ---- u = 0 ---------------------------------------------------------------------------

  /** What remains of both runs from the first set bit on, when u is 0 modulo p. */
  ghost predicate Degenerate(s: Ladder) { Cong(s.x2, 0) && Cong(s.z2, 0) && Cong(s.z3, 0) }

  lemma ZeroTimes(a: int, b: int)
    requires Cong(a, 0)
    ensures Cong(a * b, 0) && Cong(b * a, 0)
  {
    CongMulBy(a, 0, b);
  }

  lemma ZeroSum(a: int, b: int)
    requires Cong(a, 0) && Cong(b, 0)
    ensures Cong(a + b, 0) && Cong(a - b, 0)
  {
    CongAdd(a, 0, b, 0);
  }

  /** With u zero, a step from (x : 0), (0 : 0) or back again stays degenerate. */
  lemma StaysDegenerate(u: int, s: Ladder, bit: bool)
    requires Cong(u, 0) && Degenerate(s)
    ensures Degenerate(CSwap(bit, Step(u, CSwap(bit, s))))
  {
    hide Cong;
    var t := CSwap(bit, s);
    var a, b, c, d := t.x2 + t.z2, t.x2 - t.z2, t.x3 + t.z3, t.x3 - t.z3;
    var e, da, cb := a * a - b * b, d * a, c * b;
    StepCoordinates(u, a, b, c, d, t);
    if bit {
      ZeroSum(t.x3, t.z3);
      ZeroTimes(d, a);
      ZeroTimes(c, b);
      ZeroSum(da, cb);
      ZeroTimes(da + cb, da + cb);
      SquareDifference(t.x2, t.z2);
      ZeroTimes(t.z2, 4 * t.x2);
      ZeroTimes(e, a * a + A24 * e);
      ZeroTimes(u, (da - cb) * (da - cb));
    } else {
      ZeroSum(t.x2, t.z2);
      ZeroTimes(a, a);
      ZeroTimes(b, b);
      ZeroSum(a * a, b * b);
      ZeroTimes(a * a, b * b);
      ZeroTimes(e, a * a + A24 * e);
      ZeroTimes(u, (da - cb) * (da - cb));
    }
  }

  lemma SquareDifference(x: int, z: int)
    ensures (x + z) * (x + z) - (x - z) * (x - z) == z * (4 * x)
  {
  }

  /** The first set bit makes the state degenerate. */
  lemma BecomesDegenerate(u: int, s: Ladder)
    requires Cong(u, 0) && Cong(s.z2, 0) && Cong(s.x3, 0)
    ensures Degenerate(CSwap(true, Step(u, CSwap(true, s))))
  {
    hide Cong;
    var a, b, c, d := s.x3 + s.z3, s.x3 - s.z3, s.x2 + s.z2, s.x2 - s.z2;
    var e, da, cb := a * a - b * b, d * a, c * b;
    StepCoordinates(u, a, b, c, d, CSwap(true, s));
    SquareDifference(s.x3, s.z3);
    ZeroTimes(s.x3, 4 * s.z3);
    assert s.z3 * (4 * s.x3) == s.x3 * (4 * s.z3);
    ZeroTimes(e, a * a + A24 * e);
    CrossSum(s.x2, s.z2, s.x3, s.z3);
    ZeroTimes(s.x3, 2 * s.x2);
    ZeroTimes(s.z2, 2 * s.z3);
    ZeroSum(s.x3 * (2 * s.x2), s.z2 * (2 * s.z3));
    ZeroTimes(da + cb, da + cb);
    ZeroTimes(u, (da - cb) * (da - cb));
  }

  lemma CrossSum(x2: int, z2: int, x3: int, z3: int)
    ensures (x2 - z2) * (x3 + z3) + (x2 + z2) * (x3 - z3) == x3 * (2 * x2) - z2 * (2 * z3)
  {
  }

  lemma {:induction false} DegenerateRuns(k: nat, u: int, n: nat)
    requires TWO254 <= k < Pow2(255) && Cong(u, 0) && 1 <= n <= 255
    ensures Degenerate(Run(k, u, n + 1)) && Degenerate(Eager(k, u, n))
  {
    hide Pow2, Step, Run, Eager, CSwap, BitOf, Cong, Degenerate, Scaled;
    RunNext(k, u, n);
    if n == 1 {
      TopBitSet(k);
      StartZero(k, u);
      BecomesDegenerate(u, Run(k, u, 1));
      BecomesDegenerate(u, Eager(k, u, 0));
    } else {
      DegenerateRuns(k, u, n - 1);
      StaysDegenerate(u, Run(k, u, n), BitOf(k, 255 - n));
      StaysDegenerate(u, Eager(k, u, n - 1), BitOf(k, 255 - n));
    }
  }

  lemma TopBitSet(k: nat)
    requires TWO254 <= k < Pow2(255)
    ensures BitOf(k, 254)
  {
    hide Pow2;
    Pow2Literals();
    Pow2Add(1, 254);
    Pow2Small();
  }

  lemma StartZero(k: nat, u: int)
    requires k < Pow2(255) && Cong(u, 0)
    ensures Cong(Run(k, u, 1).z2, 0) && Cong(Run(k, u, 1).x3, 0)
    ensures Cong(Eager(k, u, 0).z2, 0) && Cong(Eager(k, u, 0).x3, 0)
  {
    FirstStep(k, u);
    hide Cong, Pow2, Run;
    ZeroTimes(u, 4 * u);
    assert 4 * u * u == u * (4 * u);
    CongRefl(0);
    assert Run(k, u, 1).z2 == 1 * 0;
  }

  lemma DegenerateAffine(s: Ladder)
    requires Degenerate(s)
    ensures Affine(s) == 0
  {
    hide Pow;
    ZeroTimes(s.x2, Pow(s.z2, P - 2));
    CongMeans(s.x2 * Pow(s.z2, P - 2), 0);
  }

  // ---- the result ----------------------------------------------------------------------

  /** For every scalar with bit 254 set and bit 255 clear, as clamping makes it, and every
    * u-coordinate, the code's 256 steps give the function of section 5 of RFC 7748. */
  lemma LadderIsX25519(k: nat, u: int)
    requires Fermat() && TWO254 <= k < 2 * TWO254
    ensures Affine(Run(k, u, 256)) == Standard(k, u)
  {
    hide Fermat, Pow2, Step, Run, Eager, CSwap, BitOf, Cong, RfcRun, Affine;
    Pow2Literals();
    DeferredIsEager(k, u, 255);
    if Cong(4 * u, 0) {
      Quarter(u);
      DegenerateRuns(k, u, 255);
      DegenerateAffine(Run(k, u, 256));
      DegenerateAffine(Eager(k, u, 255));
    } else {
      var l, m := RunsScaled(k, u, 255);
      ScaledAffine(Run(k, u, 256), Eager(k, u, 255), l, m);
    }
  }

  lemma Quarter(u: int)
    requires Cong(4 * u, 0)
    ensures Cong(u, 0)
  {
    hide Cong;
    Halve(2 * u);
    Halve(u);
  }

  lemma ScaledAffine(s: Ladder, t: Ladder, l: int, m: int)
    requires Fermat() && Scaled(s, t, l, m) && !Cong(l, 0)
    ensures Affine(s) == Affine(t)
  {
    hide Fermat, Cong, Pow;
    FactorCancels(t.x2, t.z2, l);
  }

  /** curve25519 computes X25519 of the decoded scalar and u-coordinate. */
  lemma Curve25519IsX25519(secret: seq<byte>, u: int)
    requires Fermat() && |secret| == 32
    ensures Affine(Run(LE(Clamp(secret)), u, 256)) == Standard(LE(Clamp(secret)), u)
  {
    hide Fermat, LE, Clamp, Run, Affine, Standard;
    ClampedValue(secret);
    LadderIsX25519(LE(Clamp(secret)), u);
  }
}
