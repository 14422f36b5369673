/** The inversion chain of curve25519-donna.c. */
module DonnaPowers {
  import opened Bytes
  import opened Modular
  import opened Radix
  import opened DonnaField
  import FieldPowers

  /** t holds z^e. */
  ghost predicate Holds(t: Fe, z: int, e: nat) {
    Short(t) && Cong(Val(t), Pow(z, e))
  }

  method Times(f: Fe, g: Fe, ghost z: int, ghost m: nat, ghost n: nat) returns (h: Fe)
    requires Holds(f, z, m) && Holds(g, z, n)
    ensures Reduced(h) && Holds(h, z, m + n)
  {
    hide Val, Cong, Pow;
    h := FMul(f, g);
    ReducedIsShort(h);
    PowAdd(z, m, n);
    CongMul(Val(f), Pow(z, m), Val(g), Pow(z, n));
    CongTrans(Val(h), Val(f) * Val(g), Pow(z, m + n));
  }

  lemma ReducedIsShort(f: Fe)
    requires Reduced(f)
    ensures Short(f)
  {
  }

  method Square(f: Fe, ghost z: int, ghost m: nat) returns (h: Fe)
    requires Holds(f, z, m)
    ensures Holds(h, z, 2 * m)
  {
    hide Val, Cong, Pow;
    h := FSquare(f);
    ReducedIsShort(h);
    PowAdd(z, m, m);
    CongMul(Val(f), Pow(z, m), Val(f), Pow(z, m));
    CongTrans(Val(h), Val(f) * Val(f), Pow(z, 2 * m));
  }

  /** n squarings for even n: two, then a loop that alternates between two buffers. */
  method SquarePairs(f: Fe, n: nat, ghost z: int, ghost m: nat) returns (t1: Fe)
    requires Holds(f, z, m) && n >= 2 && n % 2 == 0
    ensures Holds(t1, z, FieldPowers.Shifted(m, n))
  {
    hide Holds;
    var t0 := Square(f, z, m);
    t1 := Square(t0, z, 2 * m);
    ShiftedTwice(m, 0);
    var i := 2;
    while i < n
      invariant 2 <= i <= n && i % 2 == 0
      invariant Holds(t1, z, FieldPowers.Shifted(m, i))
    {
      t0 := Square(t1, z, FieldPowers.Shifted(m, i));
      t1 := Square(t0, z, 2 * FieldPowers.Shifted(m, i));
      ShiftedTwice(m, i);
      i := i + 2;
    }
  }

  lemma ShiftedTwice(m: nat, i: nat)
    ensures FieldPowers.Shifted(m, 0) == m
    ensures 2 * (2 * FieldPowers.Shifted(m, i)) == FieldPowers.Shifted(m, i + 2)
  {
    assert Pow2(i + 2) == 4 * Pow2(i);
  }

  /** n squarings and a multiplication by z^(2^n - 1). */
  method Extend(f: Fe, g: Fe, n: nat, ghost z: int, ghost m: nat) returns (h: Fe)
    requires n >= 2 && n % 2 == 0 && Holds(f, z, FieldPowers.Ones(m)) && Holds(g, z, FieldPowers.Ones(n))
    ensures Holds(h, z, FieldPowers.Ones(m + n))
  {
    hide Holds, FieldPowers.Ones, FieldPowers.Shifted;
    h := SquarePairs(f, n, z, FieldPowers.Ones(m));
    h := Times(h, g, z, FieldPowers.Shifted(FieldPowers.Ones(m), n), FieldPowers.Ones(n));
    FieldPowers.OnesDouble(m, n);
  }

  /** Five squarings, written out. */
  method SquareFive(f: Fe, ghost z: int, ghost m: nat) returns (h: Fe)
    requires Holds(f, z, m)
    ensures Holds(h, z, FieldPowers.Shifted(m, 5))
  {
    hide Holds;
    h := Square(f, z, m);
    h := Square(h, z, 2 * m);
    h := Square(h, z, 4 * m);
    h := Square(h, z, 8 * m);
    h := Square(h, z, 16 * m);
    assert Pow2(5) == 32;
  }

  /** out = z^(2^255 - 21) = z^(p - 2). */
  method CRecip(f: Fe) returns (out: Fe)
    requires Short(f)
    ensures Reduced(out) && Cong(Val(out), Pow(Val(f), P - 2))
  {
    ghost var z := Val(f);
    First(f);
    hide Holds, FieldPowers.Ones, FieldPowers.Shifted, Val, Pow, Cong;
    var z2 := Square(f, z, 1);
    var t1 := Square(z2, z, 2);
    var t0 := Square(t1, z, 4);
    var z9 := Times(t0, f, z, 8, 1);
    var z11 := Times(z9, z2, z, 9, 2);
    t0 := Square(z11, z, 11);
    var z5 := Times(t0, z9, z, 22, 9);
    FieldPowers.Five();
    t0 := SquareFive(z5, z, FieldPowers.Ones(5));
    FieldPowers.OnesDouble(5, 5);
    var z10 := Times(t0, z5, z, FieldPowers.Shifted(FieldPowers.Ones(5), 5), FieldPowers.Ones(5));
    var z20 := Extend(z10, z10, 10, z, 10);
    var z40 := Extend(z20, z20, 20, z, 20);
    var z50 := Extend(z40, z10, 10, z, 40);
    var z100 := Extend(z50, z50, 50, z, 50);
    var z200 := Extend(z100, z100, 100, z, 100);
    var z250 := Extend(z200, z50, 50, z, 200);
    t1 := SquareFive(z250, z, FieldPowers.Ones(250));
    out := Times(t1, z11, z, FieldPowers.Shifted(FieldPowers.Ones(250), 5), 11);
    FieldPowers.Exponents();
    HoldsValue(out, z, P - 2);
  }

  lemma First(f: Fe)
    requires Short(f)
    ensures Holds(f, Val(f), 1)
  {
    assert Pow(Val(f), 1) == Val(f) * Pow(Val(f), 0);
    CongRefl(Val(f));
  }

  lemma HoldsValue(t: Fe, z: int, e: nat)
    requires Holds(t, z, e)
    ensures Cong(Val(t), Pow(z, e))
  {
  }
}
