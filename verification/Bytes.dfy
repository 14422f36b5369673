/** Bytes, little-endian integers and the bit operations of C on them. */
module Bytes {

  type byte = x: int | 0 <= x < 256

  function Pow2(n: nat): (r: nat)
    ensures r > 0
  {
    if n == 0 then 1 else 2 * Pow2(n - 1)
  }

  lemma {:induction false} Pow2Add(m: nat, n: nat)
    ensures Pow2(m + n) == Pow2(m) * Pow2(n)
  {
    if m == 0 {
    } else {
      Pow2Add(m - 1, n);
      assert Pow2(m + n) == 2 * (Pow2(m - 1) * Pow2(n));
    }
  }

  lemma {:induction false} Pow2Monotone(m: nat, n: nat)
    requires m <= n
    ensures Pow2(m) <= Pow2(n)
  {
    if m == n {
    } else {
      Pow2Monotone(m, n - 1);
    }
  }

  lemma Pow2Small()
    ensures Pow2(0) == 1 && Pow2(1) == 2 && Pow2(2) == 4 && Pow2(3) == 8 && Pow2(4) == 16
    ensures Pow2(5) == 32 && Pow2(6) == 64 && Pow2(7) == 128 && Pow2(8) == 256
    ensures Pow2(16) == 0x1_0000 && Pow2(21) == 0x20_0000 && Pow2(24) == 0x100_0000
  {
    Pow2Add(8, 8);
    Pow2Add(16, 5);
    Pow2Add(16, 8);
  }

  /** The powers of two that appear as literals. */
  lemma Pow2Literals()
    ensures Pow2(8) == 0x100 && Pow2(16) == 0x1_0000 && Pow2(32) == 0x1_0000_0000
    ensures Pow2(64) == 0x1_0000_0000_0000_0000
    ensures Pow2(128) == 0x1_0000_0000_0000_0000_0000_0000_0000_0000
    ensures Pow2(255) == 0x8000_0000_0000_0000_0000_0000_0000_0000_0000_0000_0000_0000_0000_0000_0000_0000
    ensures Pow2(256) == 2 * Pow2(255)
  {
    Pow2Small();
    hide Pow2;
    Pow2Add(16, 16);
    Pow2Add(32, 32);
    Pow2Add(64, 64);
    Pow2Add(128, 128);
    Pow2Add(1, 255);
  }

  // ---- little-endian integers ----------------------------------------------------------

  function LE(s: seq<byte>): nat {
    if s == [] then 0 else s[0] + 256 * LE(s[1..])
  }

  lemma LE4(s: seq<byte>)
    requires |s| >= 4
    ensures LE(s) == s[0] + 0x100 * s[1] + 0x1_0000 * s[2] + 0x100_0000 * s[3] + 0x1_0000_0000 * LE(s[4..])
  {
    LE2(s);
    LE2(s[2..]);
    assert s[2..][2..] == s[4..];
  }

  lemma LE3(s: seq<byte>)
    requires |s| >= 3
    ensures LE(s) == s[0] + 0x100 * s[1] + 0x1_0000 * s[2] + 0x100_0000 * LE(s[3..])
  {
    LE2(s);
    assert s[2..][1..] == s[3..];
  }

  lemma LE2(s: seq<byte>)
    requires |s| >= 2
    ensures LE(s) == s[0] + 0x100 * s[1] + 0x1_0000 * LE(s[2..])
  {
    assert s[1..][1..] == s[2..];
  }

  lemma {:induction false} LEJoin(s: seq<byte>, t: seq<byte>)
    ensures LE(s + t) == LE(s) + Pow2(8 * |s|) * LE(t)
  {
    if s == [] {
      assert s + t == t;
    } else {
      assert (s + t)[1..] == s[1..] + t;
      LEJoin(s[1..], t);
      Pow2Add(8, 8 * |s[1..]|);
      assert Pow2(8) == 256;
      assert 256 * (Pow2(8 * |s[1..]|) * LE(t)) == Pow2(8 * |s|) * LE(t);
    }
  }

  lemma {:induction false} LEBound(s: seq<byte>)
    ensures LE(s) < Pow2(8 * |s|)
  {
    if s == [] {
    } else {
      LEBound(s[1..]);
      Pow2Add(8, 8 * |s[1..]|);
      assert Pow2(8) == 256;
    }
  }

  /** A little-endian string of a given length is determined by its value. */
  lemma {:induction false} LEInjective(s: seq<byte>, t: seq<byte>)
    requires |s| == |t| && LE(s) == LE(t)
    ensures s == t
  {
    if s == [] {
    } else {
      assert s[0] == LE(s) % 256 && t[0] == LE(t) % 256;
      LEInjective(s[1..], t[1..]);
      assert s == [s[0]] + s[1..] && t == [t[0]] + t[1..];
    }
  }

  /** The byte string of length n that holds x modulo 256^n. */
  function ToLE(x: nat, n: nat): (s: seq<byte>)
    ensures |s| == n
  {
    if n == 0 then [] else [x % 256] + ToLE(x / 256, n - 1)
  }

  lemma {:induction false} ToLEValue(x: nat, n: nat)
    requires x < Pow2(8 * n)
    ensures LE(ToLE(x, n)) == x
  {
    if n == 0 {
    } else {
      Pow2Add(8, 8 * (n - 1));
      assert Pow2(8) == 256;
      ToLEValue(x / 256, n - 1);
      assert ToLE(x, n)[1..] == ToLE(x / 256, n - 1);
    }
  }

  function Zeros(n: nat): (s: seq<byte>)
    ensures |s| == n && forall i :: 0 <= i < n ==> s[i] == 0
  {
    seq(n, _ => 0)
  }

  // ---- bit operations ------------------------------------------------------------------

  /** x | y. */
  function Or(x: nat, y: nat): nat {
    if x == 0 then y
    else if y == 0 then x
    else 2 * Or(x / 2, y / 2) + (if x % 2 == 1 || y % 2 == 1 then 1 else 0)
  }

  /** x & y. */
  function And(x: nat, y: nat): nat {
    if x == 0 || y == 0 then 0
    else 2 * And(x / 2, y / 2) + (if x % 2 == 1 && y % 2 == 1 then 1 else 0)
  }

  lemma {:induction false} OrDisjoint(x: nat, y: nat, k: nat)
    requires x < Pow2(k)
    ensures Or(x, y * Pow2(k)) == x + y * Pow2(k)
  {
    if k == 0 || x == 0 || y == 0 {
    } else {
      var z := y * Pow2(k - 1);
      assert y * Pow2(k) == 2 * z;
      OrDisjoint(x / 2, y, k - 1);
    }
  }

  lemma AndOdd(x: nat, m: nat, n: nat)
    requires n == 2 * m > 0
    ensures And(x, n - 1) == 2 * And(x / 2, m - 1) + x % 2
  {
    assert (2 * m - 1) / 2 == m - 1 && (2 * m - 1) % 2 == 1;
  }

  lemma {:induction false} AndMask(x: nat, k: nat)
    ensures And(x, Pow2(k) - 1) == x % Pow2(k)
  {
    if k == 0 {
    } else {
      AndMask(x / 2, k - 1);
      AndMaskStep(x, Pow2(k - 1), Pow2(k));
    }
  }

  lemma AndMaskStep(x: nat, m: nat, n: nat)
    requires n == 2 * m > 0 && And(x / 2, m - 1) == (x / 2) % m
    ensures And(x, n - 1) == x % n
  {
    hide And;
    AndOdd(x, m, n);
    ModHalf(x, m, n);
  }

  lemma ModHalf(x: nat, m: nat, n: nat)
    requires n == 2 * m > 0
    ensures x % n == 2 * ((x / 2) % m) + x % 2
  {
    var h := x / 2;
    var q, r := h / m, h % m;
    assert h == q * m + r;
    assert x == q * n + (2 * r + x % 2) by { assert 2 * (q * m) == q * n; }
    DivModUnique(x, n, q, 2 * r + x % 2);
  }

  lemma DivModUnique(x: int, m: nat, q: int, r: int)
    requires m > 0 && x == q * m + r && 0 <= r < m
    ensures x / m == q && x % m == r
  {
    var d := x / m - q;
    assert d * m == r - x % m;
    assert d >= 1 ==> d * m >= m;
    assert d <= -1 ==> d * m <= -(m as int);
  }

  // ---- quotients -----------------------------------------------------------------------

  lemma DivDiv(x: nat, m: nat, n: nat)
    requires m > 0 && n > 0
    ensures m * n > 0 && x / m / n == x / (m * n)
  {
    var q := x / m;
    DivDivTotal(x, m, n, q, x % m, q / n, q % n);
    DivModUnique(x, m * n, q / n, q % n * m + x % m);
  }

  lemma DivDivTotal(x: int, m: nat, n: nat, q: int, r: int, q': int, r': int)
    requires m > 0 && n > 0 && x == q * m + r && 0 <= r < m && q == q' * n + r' && 0 <= r' < n
    ensures m * n > 0 && x == q' * (m * n) + (r' * m + r) && 0 <= r' * m + r < m * n
  {
    assert q * m == q' * (m * n) + r' * m;
    assert r' * m <= (n - 1) * m;
  }

  /** x >> n. */
  function Shr(x: nat, n: nat): (r: nat)
    ensures r == x / Pow2(n)
  {
    hide Pow2;
    NonNegativeQuotient(x, Pow2(n));
    x / Pow2(n)
  }

  lemma NonNegativeQuotient(x: nat, m: nat)
    requires m > 0
    ensures x / m >= 0
  {
  }

  lemma DivAdd(x: nat, m: nat, y: nat)
    requires m > 0
    ensures (x + m * y) / m == x / m + y && (x + m * y) % m == x % m
  {
    DivModUnique(x + m * y, m, x / m + y, x % m);
  }

  lemma QuotientBelow(x: nat, m: nat, p: nat)
    requires m > 0 && x < m * p
    ensures x / m < p
  {
    var q := x / m;
    assert x == m * q + x % m;
    assert q >= p ==> m * q >= m * p;
  }

  lemma {:induction false} AndBound(x: nat, y: nat)
    ensures And(x, y) <= x && And(x, y) <= y
  {
    if x == 0 || y == 0 {
    } else {
      AndBound(x / 2, y / 2);
    }
  }

  lemma AndHalf(x: nat, y: nat)
    ensures And(x, y) / 2 == And(x / 2, y / 2)
  {
  }

  /** Shifting distributes over &. */
  lemma {:induction false} AndShr(x: nat, y: nat, k: nat)
    ensures Shr(And(x, y), k) == And(Shr(x, k), Shr(y, k))
  {
    if k == 0 {
      assert Pow2(0) == 1 && x / 1 == x && y / 1 == y;
    } else {
      hide And, Shr, Pow2;
      AndShr(x / 2, y / 2, k - 1);
      AndHalf(x, y);
      ShrHalf(And(x, y), k);
      ShrHalf(x, k);
      ShrHalf(y, k);
    }
  }

  lemma ShrHalf(x: nat, k: nat)
    requires k > 0
    ensures Shr(x, k) == Shr(x / 2, k - 1)
  {
    DivDiv(x, 2, Pow2(k - 1));
  }

  /** x & y is all ones exactly when both are. */
  lemma AndFull(x: nat, y: nat, k: nat)
    requires x < Pow2(k) && y < Pow2(k)
    ensures And(x, y) == Pow2(k) - 1 <==> x == Pow2(k) - 1 && y == Pow2(k) - 1
  {
    hide And, Pow2;
    AndBound(x, y);
    AndMask(x, k);
  }

  lemma {:induction false} OrZero(x: nat, y: nat)
    ensures Or(x, y) == 0 <==> x == 0 && y == 0
  {
    if x == 0 || y == 0 {
    } else {
      OrZero(x / 2, y / 2);
    }
  }

  lemma {:induction false} OrBound(x: nat, y: nat, k: nat)
    requires x < Pow2(k) && y < Pow2(k)
    ensures Or(x, y) < Pow2(k)
  {
    if k == 0 || x == 0 || y == 0 {
    } else {
      OrBound(x / 2, y / 2, k - 1);
    }
  }

  // ---- limbs that straddle bytes -------------------------------------------------------

  lemma ModScale(x: nat, y: nat, p: nat, q: nat, n: nat)
    requires x < p && q > 0 && n == p * q
    ensures n > 0 && (x + p * y) % n == x + p * (y % q)
  {
    var d, r := y / q, y % q;
    assert y == d * q + r;
    assert p * y == d * n + p * r;
    assert p * r <= p * (q - 1);
    DivModUnique(x + p * y, n, d, x + p * r);
  }

  /** y << k for 1 <= k <= 7, as a factor. */
  ghost predicate Shift(p: nat) {
    p == 2 || p == 4 || p == 8 || p == 16 || p == 32 || p == 64 || p == 128
  }

  lemma OrShift(x: nat, y: nat, p: nat)
    requires Shift(p) && x < p
    ensures Or(x, y * p) % 0x100 == x + p * (y % (0x100 / p))
  {
    hide Or, Pow2;
    Pow2Small();
    var k := if p == 2 then 1 else if p == 4 then 2 else if p == 8 then 3 else if p == 16 then 4
             else if p == 32 then 5 else if p == 64 then 6 else 7;
    assert p == Pow2(k) && p * (0x100 / p) == 0x100;
    OrShiftBy(x, y, k, p, 0x100 / p);
  }

  lemma OrShiftBy(x: nat, y: nat, k: nat, p: nat, q: nat)
    requires p == Pow2(k) && x < p && p * q == 0x100
    ensures Or(x, y * p) % 0x100 == x + p * (y % q)
  {
    hide Or, Pow2;
    OrDisjoint(x, y, k);
    ModScale(x, y, p, q, 0x100);
    assert y * p == p * y;
  }

  // fe_tobytes and sc_reduce emit each limb as a run of bytes h >> i, h >> (i + 8), ... whose last
  // byte also takes the low 8 - k bits of the next limb y. Here u is h >> i and p is 2^k.

  function Run3(u: nat, y: nat, p: nat): (s: seq<byte>)
    requires Shift(p) && u < 0x1_0000 * p
    ensures |s| == 3 && LE(s) == u + 0x1_0000 * (p * (y % (0x100 / p)))
  {
    hide Or, LE;
    OrShift(u / 0x1_0000, y, p);
    RunValue3(u, p * (y % (0x100 / p)));
    [u % 0x100, u / 0x100 % 0x100, Or(u / 0x1_0000, y * p) % 0x100]
  }

  function Run4(u: nat, y: nat, p: nat): (s: seq<byte>)
    requires Shift(p) && u < 0x100_0000 * p
    ensures |s| == 4 && LE(s) == u + 0x100_0000 * (p * (y % (0x100 / p)))
  {
    hide Or, LE;
    OrShift(u / 0x100_0000, y, p);
    RunValue4(u, p * (y % (0x100 / p)));
    [u % 0x100, u / 0x100 % 0x100, u / 0x1_0000 % 0x100, Or(u / 0x100_0000, y * p) % 0x100]
  }

  /** A last run that fills whole bytes. */
  function Last3(u: nat): (s: seq<byte>)
    requires u < 0x100_0000
    ensures |s| == 3 && LE(s) == u
  {
    RunValue3(u, 0);
    [u % 0x100, u / 0x100 % 0x100, u / 0x1_0000 % 0x100]
  }

  lemma RunValue3(u: nat, t: nat)
    requires u / 0x1_0000 + t < 0x100
    ensures LE([u % 0x100, u / 0x100 % 0x100, u / 0x1_0000 + t]) == u + 0x1_0000 * t
  {
    hide LE;
    LE3([u % 0x100, u / 0x100 % 0x100, u / 0x1_0000 + t]);
    EmptyLE();
    Digits(u);
  }

  lemma RunValue4(u: nat, t: nat)
    requires u / 0x100_0000 + t < 0x100
    ensures LE([u % 0x100, u / 0x100 % 0x100, u / 0x1_0000 % 0x100, u / 0x100_0000 + t]) == u + 0x100_0000 * t
  {
    hide LE;
    LE4([u % 0x100, u / 0x100 % 0x100, u / 0x1_0000 % 0x100, u / 0x100_0000 + t]);
    EmptyLE();
    Digits(u);
  }

  lemma EmptyLE()
    ensures forall s: seq<byte> {:trigger LE(s)} :: |s| == 0 ==> LE(s) == 0
  {
  }

  lemma Digits(u: nat)
    ensures u == u % 0x100 + 0x100 * (u / 0x100 % 0x100) + 0x1_0000 * (u / 0x1_0000)
    ensures u / 0x1_0000 == u / 0x1_0000 % 0x100 + 0x100 * (u / 0x100_0000)
  {
    var v, w := u / 0x100, u / 0x1_0000;
    DivModUnique(u, 0x1_0000, v / 0x100, (v % 0x100) * 0x100 + u % 0x100);
    DivModUnique(u, 0x100_0000, w / 0x100, (w % 0x100) * 0x1_0000 + u % 0x1_0000);
  }

  /** Joining a run of n bytes, n == 256^(|run| - 1), to the runs of the higher limbs restores the
    * limb whose bits they share. */
  lemma RunJoin(run: seq<byte>, rest: seq<byte>, n: nat, u: int, y: nat, p: nat, z: int)
    requires Shift(p) && 3 <= |run| <= 4
    requires n == (if |run| == 3 then 0x1_0000 else 0x100_0000)
    requires LE(run) == u + n * (p * (y % (0x100 / p)))
    requires LE(rest) == y / (0x100 / p) + z
    ensures LE(run + rest) == u + n * p * y + 0x100 * n * z
  {
    hide LE, Pow2;
    Pow2Small();
    Pow2Literals();
    LEJoin(run, rest);
    var q := 0x100 / p;
    assert p * q == 0x100;
    JoinMod(u, n, p, q, y, z);
  }

  lemma JoinMod(u: int, n: int, p: int, q: nat, y: nat, z: int)
    requires p * q == 0x100 && q > 0
    ensures u + n * (p * (y % q)) + 0x100 * n * (y / q + z) == u + n * p * y + 0x100 * n * z
  {
    JoinSum(u, n, p, q, y, y / q, y % q, z);
  }

  lemma JoinSum(u: int, n: int, p: int, q: int, y: int, d: int, r: int, z: int)
    requires y == q * d + r && p * q == 0x100
    ensures u + n * (p * r) + 0x100 * n * (d + z) == u + n * p * y + 0x100 * n * z
  {
    assert n * p * y == n * (p * q) * d + n * (p * r);
  }

  // ---- the loads of fe.c and sc.c ------------------------------------------------------

  function Load3(s: seq<byte>): (r: nat)
    requires |s| >= 3
    ensures r == s[0] as int + 0x100 * s[1] as int + 0x1_0000 * s[2] as int
  {
    var a: int, b: int, c: int := s[0], s[1], s[2];
    Pow2Small();
    OrDisjoint(a, b, 8);
    OrDisjoint(a + 0x100 * b, c, 16);
    Or(Or(a, b * 0x100), c * 0x1_0000)
  }

  function Load4(s: seq<byte>): (r: nat)
    requires |s| >= 4
    ensures r == s[0] as int + 0x100 * s[1] as int + 0x1_0000 * s[2] as int + 0x100_0000 * s[3] as int
  {
    var a: int, b: int, c: int, d: int := s[0], s[1], s[2], s[3];
    Pow2Small();
    OrDisjoint(a, b, 8);
    OrDisjoint(a + 0x100 * b, c, 16);
    OrDisjoint(a + 0x100 * b + 0x1_0000 * c, d, 24);
    Or(Or(Or(a, b * 0x100), c * 0x1_0000), d * 0x100_0000)
  }

  // ---- bit fields of a string ----------------------------------------------------------

  /** Bits 8 off + sh and up of a string are those of its bytes from off on. */
  lemma DropBits(s: seq<byte>, off: nat, sh: nat)
    requires off <= |s|
    ensures LE(s[off..]) / Pow2(sh) == LE(s) / Pow2(8 * off + sh)
  {
    hide Pow2, LE;
    assert s == s[..off] + s[off..];
    LEJoin(s[..off], s[off..]);
    LEBound(s[..off]);
    DivModUnique(LE(s), Pow2(8 * off), LE(s[off..]), LE(s[..off]));
    DivDiv(LE(s), Pow2(8 * off), Pow2(sh));
    Pow2Add(8 * off, sh);
  }

  /** A masked load is a field of w bits of the string, if the load reaches far enough. */
  lemma LoadedBits(t: seq<byte>, load: nat, n: nat, sh: nat, w: nat, rest: nat)
    requires sh + w <= n && LE(t) == load + Pow2(n) * rest
    ensures And(Shr(load, sh), Pow2(w) - 1) == LE(t) / Pow2(sh) % Pow2(w)
  {
    hide Pow2, LE, And, Shr;
    var k := n - sh - w;
    LoadWeight(sh, w, k);
    LoadOrder(Pow2(sh), Pow2(w), Pow2(k), rest);
    LoadedQuotient(LE(t), load, Pow2(sh), Pow2(w), Pow2(k) * rest);
    AndMask(Shr(load, sh), w);
  }

  lemma LoadWeight(sh: nat, w: nat, k: nat)
    ensures Pow2(sh + w + k) == Pow2(sh) * (Pow2(w) * Pow2(k))
  {
    hide Pow2;
    Pow2Add(sh, w + k);
    Pow2Add(w, k);
    assert sh + (w + k) == sh + w + k;
  }

  lemma LoadOrder(m: int, w: int, k: int, r: int)
    ensures m * (w * k) * r == m * (w * (k * r))
  {
  }

  lemma LoadedQuotient(v: nat, load: nat, m: nat, w: nat, y: nat)
    requires m > 0 && w > 0 && v == load + m * (w * y)
    ensures v / m % w == load / m % w
  {
    NonNegativeProduct(w, y);
    DivAdd(load, m, w * y);
    NonNegativeQuotient(load, m);
    DivAdd(load / m, w, y);
  }

  lemma NonNegativeProduct(x: nat, y: nat)
    ensures x * y >= 0
  {
  }

  // ---- big-endian integers -------------------------------------------------------------

  /** The big-endian value of a byte string. */
  function BE(s: seq<byte>): nat {
    if s == [] then 0 else 256 * BE(s[..|s| - 1]) + s[|s| - 1]
  }

  lemma {:induction false} BEBound(s: seq<byte>)
    ensures BE(s) < Pow2(8 * |s|)
  {
    if s == [] {
    } else {
      BEBound(s[..|s| - 1]);
      Pow2Add(8, 8 * (|s| - 1));
      assert Pow2(8) == 256;
    }
  }

  /** The n-byte big-endian encoding of x. */
  function ToBE(x: nat, n: nat): (s: seq<byte>)
    ensures |s| == n
  {
    if n == 0 then [] else ToBE(x / 256, n - 1) + [x % 256]
  }

  lemma BELast(s: seq<byte>, j: nat)
    requires j < |s|
    ensures BE(s[..j + 1]) == 256 * BE(s[..j]) + s[j]
  {
    assert s[..j + 1][..j] == s[..j];
  }

  /** Byte i of a big-endian encoding. */
  lemma {:induction false} ToBEIndex(x: nat, n: nat, i: nat)
    requires i < n
    ensures ToBE(x, n)[i] == Shr(x, 8 * (n - 1 - i)) % 256
  {
    hide Pow2;
    Pow2Small();
    if i == n - 1 {
    } else {
      ToBEIndex(x / 256, n - 1, i);
      DivDiv(x, 256, Pow2(8 * (n - 2 - i)));
      Pow2Add(8, 8 * (n - 2 - i));
    }
  }

  lemma {:induction false} ZeroBE(k: nat)
    ensures ToBE(0, k) == Zeros(k)
  {
    if k == 0 {
    } else {
      ZeroBE(k - 1);
    }
  }

  lemma {:induction false} WideBE(x: nat, k: nat, n: nat)
    requires x < Pow2(8 * n)
    ensures ToBE(x, k + n) == Zeros(k) + ToBE(x, n)
  {
    if n == 0 {
      ZeroBE(k);
    } else {
      Pow2Add(8, 8 * (n - 1));
      assert Pow2(8) == 256;
      WideBE(x / 256, k, n - 1);
    }
  }

  lemma {:induction false} BEJoin(s: seq<byte>, t: seq<byte>)
    ensures BE(s + t) == BE(s) * Pow2(8 * |t|) + BE(t)
  {
    if t == [] {
      assert s + t == s;
    } else {
      var n := |t| - 1;
      BEJoin(s, t[..n]);
      assert (s + t)[..|s + t| - 1] == s + t[..n];
      Pow2Add(8, 8 * n);
      assert Pow2(8) == 256;
      ScaleBE(BE(s), Pow2(8 * n), Pow2(8 * |t|));
    }
  }

  lemma ScaleBE(x: int, w: int, w': int)
    requires w' == 256 * w
    ensures 256 * (x * w) == x * w'
  {
  }

  lemma {:induction false} BEOfToBE(x: nat, n: nat)
    requires x < Pow2(8 * n)
    ensures BE(ToBE(x, n)) == x
  {
    if n == 0 {
    } else {
      Pow2Add(8, 8 * (n - 1));
      assert Pow2(8) == 256;
      BEOfToBE(x / 256, n - 1);
      assert ToBE(x, n)[..n - 1] == ToBE(x / 256, n - 1);
    }
  }

  lemma {:induction false} BEInjective(s: seq<byte>, t: seq<byte>)
    requires |s| == |t| && BE(s) == BE(t)
    ensures s == t
  {
    if s == [] {
    } else {
      var n := |s| - 1;
      assert s[n] == BE(s) % 256 && t[n] == BE(t) % 256;
      BEInjective(s[..n], t[..n]);
      assert s == s[..n] + [s[n]] && t == t[..n] + [t[n]];
    }
  }
}
