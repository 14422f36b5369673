/** The addition chains of fe_invert and fe_pow22523 (fe.c). */
module FieldPowers {
  import opened Bytes
  import opened Modular
  import opened Radix
  import opened Field

  const E22523 := 0x0fff_ffff_ffff_ffff_ffff_ffff_ffff_ffff_ffff_ffff_ffff_ffff_ffff_ffff_ffff_fffd   // 2^252 - 3

  /** t holds z^e. */
  ghost predicate Holds(t: Fe, z: int, e: nat) {
    MulInput(t) && Cong(Val(t), Pow(z, e))
  }

  /** fe_mul of two powers of z. */
  method Times(f: Fe, g: Fe, ghost z: int, ghost m: nat, ghost n: nat) returns (h: Fe)
    requires Holds(f, z, m) && Holds(g, z, n)
    ensures Tight(h) && Holds(h, z, m + n)
  {
    hide Val, Cong, Pow;
    h := FeMul(f, g);
    PowAdd(z, m, n);
    CongMul(Val(f), Pow(z, m), Val(g), Pow(z, n));
    CongTrans(Val(h), Val(f) * Val(g), Pow(z, m + n));
  }

  /** The exponent after n squarings. */
  function Shifted(m: nat, n: nat): nat { m * Pow2(n) }

  /** fe_sq into a new variable, then n - 1 squarings in place. */
  method Squarings(f: Fe, n: nat, ghost z: int, ghost m: nat) returns (h: Fe)
    requires Holds(f, z, m) && n > 0
    ensures Holds(h, z, Shifted(m, n))
  {
    hide Holds;
    h := Square(f, z, m);
    assert Shifted(m, 1) == 2 * m;
    for i := 1 to n
      invariant Holds(h, z, Shifted(m, i))
    {
      h := Square(h, z, Shifted(m, i));
      assert 2 * Shifted(m, i) == Shifted(m, i + 1);
    }
  }

  method Square(f: Fe, ghost z: int, ghost m: nat) returns (h: Fe)
    requires Holds(f, z, m)
    ensures Holds(h, z, 2 * m)
  {
    hide Val, Cong, Pow;
    h := FeSq(f);
    PowAdd(z, m, m);
    CongMul(Val(f), Pow(z, m), Val(f), Pow(z, m));
    CongTrans(Val(h), Val(f) * Val(f), Pow(z, 2 * m));
  }

  /** 2^n - 1, the exponents of n ones that both chains build up. */
  function Ones(n: nat): nat { Pow2(n) - 1 }

  lemma OnesDouble(m: nat, n: nat)
    ensures Shifted(Ones(m), n) + Ones(n) == Ones(m + n)
  {
    hide Pow2;
    Pow2Add(m, n);
    LessOne(Pow2(m), Pow2(n));
  }

  lemma LessOne(a: int, b: int)
    ensures (a - 1) * b == a * b - b
  {
  }

  /** One line pair of the chains: n squarings of f, then a multiplication by g. */
  method Extend(f: Fe, g: Fe, n: nat, ghost z: int, ghost m: nat) returns (h: Fe)
    requires n > 0 && Holds(f, z, Ones(m)) && Holds(g, z, Ones(n))
    ensures Holds(h, z, Ones(m + n))
  {
    hide Holds, Ones, Shifted;
    h := Squarings(f, n, z, Ones(m));
    h := Times(h, g, z, Shifted(Ones(m), n), Ones(n));
    OnesDouble(m, n);
  }

  /** z^11 and z^(2^250 - 1), which both functions compute the same way. */
  method Chain(f: Fe) returns (t11: Fe, t250: Fe)
    requires MulInput(f)
    ensures Holds(t11, Val(f), 11) && Holds(t250, Val(f), Ones(250))
  {
    ghost var z := Val(f);
    First(f);
    hide Holds, Ones, Val;
    assert Shifted(1, 1) == 2 && Shifted(2, 2) == 8 && Shifted(11, 1) == 22;
    var t2 := Squarings(f, 1, z, 1);
    var t8 := Squarings(t2, 2, z, 2);
    var t9 := Times(f, t8, z, 1, 8);
    t11 := Times(t2, t9, z, 2, 9);
    var t22 := Squarings(t11, 1, z, 11);
    var t5 := Times(t9, t22, z, 9, 22);
    assert Ones(5) == 31 by { Five(); }
    var t10 := Extend(t5, t5, 5, z, 5);
    var t20 := Extend(t10, t10, 10, z, 10);
    var t40 := Extend(t20, t20, 20, z, 20);
    var t50 := Extend(t40, t10, 10, z, 40);
    var t100 := Extend(t50, t50, 50, z, 50);
    var t200 := Extend(t100, t100, 100, z, 100);
    t250 := Extend(t200, t50, 50, z, 200);
  }

  lemma First(f: Fe)
    requires MulInput(f)
    ensures Holds(f, Val(f), 1)
  {
    assert Pow(Val(f), 1) == Val(f) * Pow(Val(f), 0);
    CongRefl(Val(f));
  }

  lemma Five()
    ensures Ones(5) == 31
  {
  }

  /** out = z^(2^255 - 21) = z^(p - 2). */
  method FeInvert(f: Fe) returns (out: Fe)
    requires MulInput(f)
    ensures Tight(out)
    ensures Cong(Val(out), Pow(Val(f), P - 2))
  {
    hide Val, Pow, Cong, Shifted, Ones;
    ghost var z := Val(f);
    var t11, t250 := Chain(f);
    var t := Squarings(t250, 5, z, Ones(250));
    out := Times(t, t11, z, Shifted(Ones(250), 5), 11);
    Exponents();
  }

  /** out = z^(2^252 - 3). */
  method FePow22523(f: Fe) returns (out: Fe)
    requires MulInput(f)
    ensures Tight(out)
    ensures Cong(Val(out), Pow(Val(f), E22523))
  {
    hide Val, Pow, Cong, Shifted, Ones;
    ghost var z := Val(f);
    var t11, t250 := Chain(f);
    var t := Squarings(t250, 2, z, Ones(250));
    First(f);
    out := Times(t, f, z, Shifted(Ones(250), 2), 1);
    Exponents();
  }

  lemma Exponents()
    ensures Shifted(Ones(250), 5) + 11 == P - 2
    ensures Shifted(Ones(250), 2) + 1 == E22523
  {
    Pow2Literals();
    Pow2Add(250, 5);
    assert Pow2(5) == 32 && Pow2(2) == 4;
  }
}
