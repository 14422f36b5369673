/** Integers modulo the prime p = 2^255 - 19, and powers.
  *
  * Congruences carry explicit multiples of p, so that every polynomial identity the
  * curve code needs becomes an equation over the integers. */
module Modular {

  const P := 0x7fffffffffffffffffffffffffffffffffffffffffffffffffffffffffffffed

  const TWO255 := 0x8000_0000_0000_0000_0000_0000_0000_0000_0000_0000_0000_0000_0000_0000_0000_0000

  /** Names a pair of numbers whose congruence is to be looked into. */
  ghost predicate Opened(a: int, b: int, u: int) { true }

  ghost predicate Witnessed(a: int, b: int, v: int) { true }

  /** a and b differ by a multiple of p. The solver sees that only of the pairs named by Opened and
    * Witnessed: most proofs treat congruence as a relation with the laws below. */
  ghost predicate Cong(a: int, b: int) {
    forall u {:trigger Opened(a, b, u)} :: Opened(a, b, u) ==>
      exists v {:trigger Witnessed(a, b, v)} :: Witnessed(a, b, v) && (a - b) % P == 0
  }

  lemma CongMeans(a: int, b: int)
    ensures Cong(a, b) <==> (a - b) % P == 0
  {
    assert Opened(a, b, 0) && Witnessed(a, b, 0);
  }

  lemma CongIntro(a: int, b: int, k: int)
    requires a == b + k * P
    ensures Cong(a, b)
  {
    CongMeans(a, b);
  }

  lemma CongWitness(a: int, b: int) returns (k: int)
    requires Cong(a, b)
    ensures a == b + k * P
  {
    CongMeans(a, b);
    k := (a - b) / P;
  }

  lemma OneIsNotZero()
    ensures !Cong(1, 0)
  {
    CongMeans(1, 0);
  }

  lemma CongSame(a: int, b: int)
    ensures Cong(a, b) <==> a % P == b % P
  {
    CongMeans(a, b);
  }

  lemma CongAdd(a: int, b: int, c: int, d: int)
    requires Cong(a, b) && Cong(c, d)
    ensures Cong(a + c, b + d) && Cong(a - c, b - d)
  {
    var k := CongWitness(a, b);
    var l := CongWitness(c, d);
    CongIntro(a + c, b + d, k + l);
    CongIntro(a - c, b - d, k - l);
  }

  lemma CongMul(a: int, b: int, c: int, d: int)
    requires Cong(a, b) && Cong(c, d)
    ensures Cong(a * c, b * d)
  {
    var k := CongWitness(a, b);
    var l := CongWitness(c, d);
    assert a * c == b * d + (k * d + b * l + k * l * P) * P;
    CongIntro(a * c, b * d, k * d + b * l + k * l * P);
  }

  lemma CongTrans(a: int, b: int, c: int)
    requires Cong(a, b) && Cong(b, c)
    ensures Cong(a, c)
  {
    var k := CongWitness(a, b);
    var l := CongWitness(b, c);
    CongIntro(a, c, k + l);
  }

  lemma CongSym(a: int, b: int)
    ensures Cong(a, b) <==> Cong(b, a)
  {
    CongMeans(a, b);
    CongMeans(b, a);
  }

  lemma CongRefl(a: int)
    ensures Cong(a, a)
  {
    CongIntro(a, a, 0);
  }

  lemma CongMulBy(a: int, b: int, c: int)
    requires Cong(a, b)
    ensures Cong(a * c, b * c) && Cong(c * a, c * b)
  {
    var k := CongWitness(a, b);
    CongIntro(a * c, b * c, k * c);
    CongIntro(c * a, c * b, k * c);
  }

  /** Canonical residues are congruent only to themselves. */
  lemma CongUnique(a: int, b: int)
    requires Cong(a, b) && 0 <= a < P && 0 <= b < P
    ensures a == b
  {
    CongMeans(a, b);
  }

  // ---- powers --------------------------------------------------------------------------

  function Pow(z: int, n: nat): int {
    if n == 0 then 1 else z * Pow(z, n - 1)
  }

  lemma {:induction false} PowAdd(z: int, m: nat, n: nat)
    ensures Pow(z, m + n) == Pow(z, m) * Pow(z, n)
  {
    if m == 0 {
    } else {
      PowAdd(z, m - 1, n);
      assert Pow(z, m + n) == z * (Pow(z, m - 1) * Pow(z, n));
    }
  }

  lemma Interchange(a: int, b: int, x: int, y: int)
    ensures (a * b) * (x * y) == (a * x) * (b * y)
  {
  }

  lemma {:induction false} PowProduct(a: int, b: int, n: nat)
    ensures Pow(a * b, n) == Pow(a, n) * Pow(b, n)
  {
    if n == 0 {
    } else {
      PowProduct(a, b, n - 1);
      Interchange(a, b, Pow(a, n - 1), Pow(b, n - 1));
    }
  }

  lemma {:induction false} PowCong(a: int, b: int, n: nat)
    requires Cong(a, b)
    ensures Cong(Pow(a, n), Pow(b, n))
  {
    if n == 0 {
      CongRefl(1);
    } else {
      PowCong(a, b, n - 1);
      CongMul(a, b, Pow(a, n - 1), Pow(b, n - 1));
    }
  }
}
