/** What the tables and functions of Sha512 owe to FIPS 180-4: the constants to the primes, the logical
  * functions to single bits, the rounds to two recurrences, the padding to a string of bits. */
module Fips180 {
  import opened Bytes
  import opened Bits
  import opened Primes
  import opened Sha512

  // ---- sections 4.2.3 and 5.3.5: the constants -----------------------------------------

  const TWO128 := 0x1_0000_0000_0000_0000_0000_0000_0000_0000
  const TWO192 := 0x1_0000_0000_0000_0000_0000_0000_0000_0000_0000_0000_0000_0000

  /** c is the integer part of the cube root of x. */
  predicate CubeRoot(c: nat, x: nat) { c * c * c <= x < (c + 1) * (c + 1) * (c + 1) }

  /** The cube root of p is r and a fraction that begins with the 64 bits of k. */
  predicate Fraction(k: word, p: nat, r: nat) { CubeRoot(r * TWO64 + k, p * TWO192) }

  /** k is the first 64 bits of the fractional part of the cube root of p. */
  ghost predicate CubeFraction(k: word, p: nat) {
    exists c: nat :: CubeRoot(c, p * TWO192) && k == c % TWO64
  }

  predicate Fractions(ks: seq<word>, ps: seq<nat>, rs: seq<nat>)
    requires |ks| == |ps| == |rs| == 10
  {
    && Fraction(ks[0], ps[0], rs[0]) && Fraction(ks[1], ps[1], rs[1]) && Fraction(ks[2], ps[2], rs[2])
    && Fraction(ks[3], ps[3], rs[3]) && Fraction(ks[4], ps[4], rs[4]) && Fraction(ks[5], ps[5], rs[5])
    && Fraction(ks[6], ps[6], rs[6]) && Fraction(ks[7], ps[7], rs[7]) && Fraction(ks[8], ps[8], rs[8])
    && Fraction(ks[9], ps[9], rs[9])
  }

  lemma Fractions0()
    ensures Fractions(K0, PRIMES0, [1, 1, 1, 1, 2, 2, 2, 2, 2, 3])
  {
  }

  lemma Fractions1()
    ensures Fractions(K1, PRIMES1, [3, 3, 3, 3, 3, 3, 3, 3, 4, 4])
  {
  }

  lemma Fractions2()
    ensures Fractions(K2, PRIMES2, [4, 4, 4, 4, 4, 4, 4, 4, 4, 4])
  {
  }

  lemma Fractions3()
    ensures Fractions(K3, PRIMES3, [5, 5, 5, 5, 5, 5, 5, 5, 5, 5])
  {
  }

  lemma Fractions4()
    ensures Fractions(K4, PRIMES4, [5, 5, 5, 5, 5, 5, 5, 6, 6, 6])
  {
  }

  lemma Fractions5()
    ensures Fractions(K5, PRIMES5, [6, 6, 6, 6, 6, 6, 6, 6, 6, 6])
  {
  }

  lemma Fractions6()
    ensures Fractions(K6, PRIMES6, [6, 6, 6, 6, 6, 6, 6, 6, 7, 7])
  {
  }

  lemma Fractions7()
    ensures Fractions(K7, PRIMES7, [7, 7, 7, 7, 7, 7, 7, 7, 7, 7])
  {
  }

  function RoundGroup(n: nat): seq<word>
    requires n < 8
  {
    Chosen(K0, K1, K2, K3, K4, K5, K6, K7, n)
  }

  lemma RoundAt(n: nat, i: nat)
    requires n < 8 && i < 10
    ensures |K| == 80 && |RoundGroup(n)| == 10 && K[10 * n + i] == RoundGroup(n)[i]
  {
    Joined(K0, K1, K2, K3, K4, K5, K6, K7, n, i);
  }

  lemma FractionsAt(n: nat) returns (rs: seq<nat>)
    requires n < 8
    ensures |RoundGroup(n)| == |PrimeGroup(n)| == |rs| == 10 && Fractions(RoundGroup(n), PrimeGroup(n), rs)
  {
    hide Fractions;
    if n == 0 {
      Fractions0();
      rs := [1, 1, 1, 1, 2, 2, 2, 2, 2, 3];
    } else if n == 1 {
      Fractions1();
      rs := [3, 3, 3, 3, 3, 3, 3, 3, 4, 4];
    } else if n == 2 {
      Fractions2();
      rs := [4, 4, 4, 4, 4, 4, 4, 4, 4, 4];
    } else if n == 3 {
      Fractions3();
      rs := [5, 5, 5, 5, 5, 5, 5, 5, 5, 5];
    } else if n == 4 {
      Fractions4();
      rs := [5, 5, 5, 5, 5, 5, 5, 6, 6, 6];
    } else if n == 5 {
      Fractions5();
      rs := [6, 6, 6, 6, 6, 6, 6, 6, 6, 6];
    } else if n == 6 {
      Fractions6();
      rs := [6, 6, 6, 6, 6, 6, 6, 6, 7, 7];
    } else {
      Fractions7();
      rs := [7, 7, 7, 7, 7, 7, 7, 7, 7, 7];
    }
  }

  lemma FractionAt(ks: seq<word>, ps: seq<nat>, rs: seq<nat>, i: nat)
    requires |ks| == |ps| == |rs| == 10 && i < 10 && Fractions(ks, ps, rs)
    ensures Fraction(ks[i], ps[i], rs[i])
  {
    hide Fraction;
  }

  lemma FractionMeans(k: word, p: nat, r: nat)
    requires Fraction(k, p, r)
    ensures CubeFraction(k, p)
  {
    hide CubeRoot;
    var c := r * TWO64 + k;
    assert c % TWO64 == k;
  }

  /** The round constants are the first 64 bits of the fractional parts of the cube roots of the first
    * eighty primes. */
  lemma RoundConstants(t: nat)
    requires t < 80
    ensures CubeFraction(RoundConstant(t), PRIMES[t])
  {
    hide Fractions, Fraction, RoundGroup, PrimeGroup, K, PRIMES, CubeFraction;
    var n, i := t / 10, t % 10;
    assert t == 10 * n + i;
    RoundAt(n, i);
    PrimeAt(n, i);
    var rs := FractionsAt(n);
    FractionAt(RoundGroup(n), PrimeGroup(n), rs, i);
    FractionMeans(K[t], PRIMES[t], rs[i]);
  }

  /** There is one such number, so the constants are determined. */
  lemma OneCubeRoot(c: nat, d: nat, x: nat)
    requires CubeRoot(c, x) && CubeRoot(d, x)
    ensures c == d
  {
    if c < d {
      CubeGrows(c + 1, d);
    } else if d < c {
      CubeGrows(d + 1, c);
    }
  }

  lemma CubeGrows(c: nat, d: nat)
    requires c <= d
    ensures c * c * c <= d * d * d
  {
    assert c * c <= d * d;
    assert c * c * c <= d * d * c <= d * d * d;
  }

  /** c is the integer part of the square root of x. */
  predicate SquareRoot(c: nat, x: nat) { c * c <= x < (c + 1) * (c + 1) }

  /** k is the first 64 bits of the fractional part of the square root of p. */
  ghost predicate SquareFraction(k: word, p: nat) {
    exists c: nat :: SquareRoot(c, p * TWO128) && k == c % TWO64
  }

  /** The initial hash value is the first 64 bits of the fractional parts of the square roots of the
    * first eight primes. */
  lemma InitialValue(i: nat)
    requires i < 8
    ensures SquareFraction(IV[i], PRIMES[i])
  {
    var r := RootOfIV(i);
    RootMeans(IV[i], PRIMES0[i], r);
    PrimeAt(0, i);
  }

  lemma RootMeans(k: word, p: nat, r: nat)
    requires SquareRoot(r * TWO64 + k, p * TWO128)
    ensures SquareFraction(k, p)
  {
    hide SquareRoot;
    var c := r * TWO64 + k;
    assert c % TWO64 == k;
  }

  lemma RootOfIV(i: nat) returns (r: nat)
    requires i < 8
    ensures SquareRoot(r * TWO64 + IV[i], PRIMES0[i] * TWO128)
  {
    r := if i < 2 then 1 else if i < 4 then 2 else if i < 6 then 3 else 4;
  }

  // ---- section 4.1.3: the logical functions, bit by bit ----------------------------------

  lemma BitOfWord(x: word, n: nat, i: nat)
    requires n < 64
    ensures Bit(Shr64(x, n), i) == Bit(x, i + n)
    ensures i < n ==> x % Pow2(n) >= 0 && Bit(x, i) == Bit(x % Pow2(n), i)
  {
    hide Pow2;
    var q, r := Shr64(x, n), x % Pow2(n);
    assert x == r + q * Pow2(n);
    BitOfJoin(r, q, n, i + n);
    BitOfJoin(r, q, n, i);
  }

  /** Bit i of a rotation is bit i + n, around the word. */
  lemma BitOfRotr(x: word, n: nat, i: nat)
    requires 0 < n < 64 && i < 64
    ensures Bit(Rotr(x, n), i) == Bit(x, (i + n) % 64)
  {
    hide Pow2;
    RotatedRange(x, n);
    BitOfJoin(x / Pow2(n), x % Pow2(n), 64 - n, i);
    if i < 64 - n {
      BitOfWord(x, n, i);
    } else {
      BitOfWord(x, n, i + n - 64);
    }
  }

  lemma BitOfXor3(x: word, y: word, z: word, i: nat)
    ensures Bit(Xor64(Xor64(x, y), z), i) == (Bit(x, i) + Bit(y, i) + Bit(z, i)) % 2
  {
    hide Bit, Xor64, BitXor;
    BitOfXor(x, y, i);
    BitOfXor(Xor64(x, y), z, i);
    OddOfThree(Bit(x, i), Bit(y, i), Bit(z, i));
  }

  lemma OddOfThree(a: bit, b: bit, c: bit)
    ensures BitXor(BitXor(a, b), c) == (a + b + c) % 2
  {
  }

  lemma BigSigmaBits(x: word, i: nat)
    requires i < 64
    ensures Bit(BigSigma0(x), i) == (Bit(x, (i + 28) % 64) + Bit(x, (i + 34) % 64) + Bit(x, (i + 39) % 64)) % 2
    ensures Bit(BigSigma1(x), i) == (Bit(x, (i + 14) % 64) + Bit(x, (i + 18) % 64) + Bit(x, (i + 41) % 64)) % 2
  {
    hide Rotr, Xor64, Bit;
    BitOfRotr(x, 28, i);
    BitOfRotr(x, 34, i);
    BitOfRotr(x, 39, i);
    BitOfXor3(Rotr(x, 28), Rotr(x, 34), Rotr(x, 39), i);
    BitOfRotr(x, 14, i);
    BitOfRotr(x, 18, i);
    BitOfRotr(x, 41, i);
    BitOfXor3(Rotr(x, 14), Rotr(x, 18), Rotr(x, 41), i);
  }

  /** The last term of these is a shift, so its bits beyond the word are 0. */
  lemma SmallSigmaBits(x: word, i: nat)
    requires i < 64
    ensures Bit(SmallSigma0(x), i) == (Bit(x, (i + 1) % 64) + Bit(x, (i + 8) % 64) + Bit(x, i + 7)) % 2
    ensures Bit(SmallSigma1(x), i) == (Bit(x, (i + 19) % 64) + Bit(x, (i + 61) % 64) + Bit(x, i + 6)) % 2
    ensures forall j :: j >= 64 ==> Bit(x, j) == 0
  {
    hide Rotr, Shr64, Xor64, Bit;
    BitOfRotr(x, 1, i);
    BitOfRotr(x, 8, i);
    BitOfWord(x, 7, i);
    BitOfXor3(Rotr(x, 1), Rotr(x, 8), Shr64(x, 7), i);
    BitOfRotr(x, 19, i);
    BitOfRotr(x, 61, i);
    BitOfWord(x, 6, i);
    BitOfXor3(Rotr(x, 19), Rotr(x, 61), Shr64(x, 6), i);
    forall j | j >= 64 ensures Bit(x, j) == 0 {
      BitBeyond(x, j);
    }
  }

  lemma BitBeyond(x: word, j: nat)
    requires j >= 64
    ensures Bit(x, j) == 0
  {
    hide Pow2, Bit;
    Pow2Literals();
    BitOfJoin(x, 0, 64, j);
    BitOfZero(j - 64);
  }

  /** Ch takes the bit of y where x has a 1, and that of z elsewhere; Maj takes what two of three have. */
  lemma ChoiceBits(x: word, y: word, z: word, i: nat)
    requires i < 64
    ensures Bit(Ch(x, y, z), i) == if Bit(x, i) == 1 then Bit(y, i) else Bit(z, i)
    ensures Bit(Maj(x, y, z), i) == if Bit(x, i) + Bit(y, i) + Bit(z, i) >= 2 then 1 else 0
  {
    hide Bit, Pow2, Xor64, And64;
    Pow2Literals();
    BitOfComplement(x, TWO64 - 1 - x, 64, i);
    BitOfAnd(x, y, i);
    BitOfAnd(x, z, i);
    BitOfAnd(y, z, i);
    BitOfAnd(TWO64 - 1 - x, z, i);
    BitOfXor(And64(x, y), And64(TWO64 - 1 - x, z), i);
    BitOfXor3(And64(x, y), And64(x, z), And64(y, z), i);
  }

  // ---- section 6.4.2: the computation of a block ----------------------------------------

  /** The message schedule, each word one sum. */
  function W(block: seq<byte>, t: nat): word
    requires |block| == 128
  {
    if t < 16 then Word(block[8 * t..8 * t + 8])
    else
      (SmallSigma1(W(block, t - 2)) + W(block, t - 7) + SmallSigma0(W(block, t - 15)) + W(block, t - 16)) % TWO64
  }

  lemma Sum4(a: word, b: word, c: word, d: word)
    ensures Plus(Plus(Plus(a, b), c), d) == (a + b + c + d) % TWO64
  {
    hide Plus;
    PlusAgain(a, b);
    PlusAgain(a + b, c);
    PlusAgain(a + b + c, d);
  }

  lemma PlusAgain(n: nat, y: word)
    ensures 0 <= n % TWO64 < TWO64 && Plus(n % TWO64, y) == (n + y) % TWO64
    ensures n < TWO64 ==> n % TWO64 == n
  {
  }

  lemma {:induction false} ScheduleIsStandard(block: seq<byte>, t: nat)
    requires |block| == 128
    ensures Schedule(block, t) == W(block, t)
  {
    hide Schedule, W, SmallSigma0, SmallSigma1, Plus;
    if t < 16 {
      FirstWords(block, t);
    } else {
      ScheduleIsStandard(block, t - 2);
      ScheduleIsStandard(block, t - 7);
      ScheduleIsStandard(block, t - 15);
      ScheduleIsStandard(block, t - 16);
      LaterWords(block, t);
      Sum4(SmallSigma1(W(block, t - 2)), W(block, t - 7), SmallSigma0(W(block, t - 15)), W(block, t - 16));
    }
  }

  lemma FirstWords(block: seq<byte>, t: nat)
    requires |block| == 128 && t < 16
    ensures Schedule(block, t) == W(block, t) == BE(block[8 * t..8 * t + 8])
  {
  }

  lemma LaterWords(block: seq<byte>, t: nat)
    requires |block| == 128 && t >= 16
    ensures Schedule(block, t) == Plus(Plus(Plus(SmallSigma1(Schedule(block, t - 2)), Schedule(block, t - 7)),
      SmallSigma0(Schedule(block, t - 15))), Schedule(block, t - 16))
    ensures W(block, t) == (SmallSigma1(W(block, t - 2)) + W(block, t - 7) + SmallSigma0(W(block, t - 15))
      + W(block, t - 16)) % TWO64
  {
    hide Word, SmallSigma0, SmallSigma1, Plus;
  }

  // The eight working variables hold the last four values of two sequences. A and E are these values
  // after round t; the chaining value gives those before the first round.

  function A(h: seq<word>, block: seq<byte>, t: int): word
    requires |h| == 8 && |block| == 128 && -3 <= t <= 80
    decreases if t > 0 then t else 0, 1
  {
    if t <= 0 then h[-t]
    else
      var a, b, c := A(h, block, t - 1), A(h, block, t - 2), A(h, block, t - 3);
      (T(h, block, t) + BigSigma0(a) + Maj(a, b, c)) % TWO64
  }

  function E(h: seq<word>, block: seq<byte>, t: int): word
    requires |h| == 8 && |block| == 128 && -3 <= t <= 80
    decreases if t > 0 then t else 0, 1
  {
    if t <= 0 then h[4 - t] else (A(h, block, t - 4) + T(h, block, t)) % TWO64
  }

  function T(h: seq<word>, block: seq<byte>, t: int): nat
    requires |h| == 8 && |block| == 128 && 0 < t <= 80
    decreases t, 0
  {
    var e, f, g := E(h, block, t - 1), E(h, block, t - 2), E(h, block, t - 3);
    E(h, block, t - 4) + BigSigma1(e) + Ch(e, f, g) + RoundConstant(t - 1) + W(block, t - 1)
  }

  ghost predicate Window(h: seq<word>, block: seq<byte>, t: int, v: Vars)
    requires |h| == 8 && |block| == 128 && 0 <= t <= 80
  {
    && v.a == A(h, block, t) && v.b == A(h, block, t - 1) && v.c == A(h, block, t - 2) && v.d == A(h, block, t - 3)
    && v.e == E(h, block, t) && v.f == E(h, block, t - 1) && v.g == E(h, block, t - 2) && v.h == E(h, block, t - 3)
  }

  lemma RoundSums(v: Vars, k: word, w: word)
    ensures var t := v.h + BigSigma1(v.e) + Ch(v.e, v.f, v.g) + k + w; var r := Round(v, k, w);
      && r.e == (v.d + t) % TWO64 && r.a == (t + BigSigma0(v.a) + Maj(v.a, v.b, v.c)) % TWO64
      && r.b == v.a && r.c == v.b && r.d == v.c && r.f == v.e && r.g == v.f && r.h == v.g
  {
    hide BigSigma0, BigSigma1, Ch, Maj, Plus;
    var s1, c, s0, m := BigSigma1(v.e), Ch(v.e, v.f, v.g), BigSigma0(v.a), Maj(v.a, v.b, v.c);
    var n := v.h + s1 + c + k + w;
    Sum4(v.h, s1, c, k);
    PlusAgain(v.h + s1 + c + k, w);
    var t1 := Plus(Plus(Plus(Plus(v.h, s1), c), k), w);
    PlusMore(n, v.d);
    var s: int := s0 as int + m as int;
    PlusBoth(n, s);
    assert Plus(s0, m) == s % TWO64 by { PlusMeans(s0, m); }
  }

  lemma PlusMore(n: nat, y: word)
    ensures 0 <= n % TWO64 < TWO64 && Plus(y, n % TWO64) == (y + n) % TWO64
  {
  }

  lemma PlusMeans(x: word, y: word)
    ensures Plus(x, y) == (x as int + y as int) % TWO64
  {
  }

  lemma PlusBoth(n: nat, m: nat)
    ensures 0 <= n % TWO64 < TWO64 && 0 <= m % TWO64 < TWO64
    ensures Plus(n % TWO64, m % TWO64) == (n + m) % TWO64
  {
  }

  /** After t rounds the working variables are the last four values of both sequences. */
  lemma {:induction false} RoundsAreStandard(h: seq<word>, block: seq<byte>, t: nat)
    requires |h| == 8 && |block| == 128 && t <= 80
    ensures Window(h, block, t, Rounds(Load(h), block, t))
  {
    hide Rounds, Load, Schedule, W, Window, Round;
    if t == 0 {
      FirstWindow(h, block);
    } else {
      RoundsAreStandard(h, block, t - 1);
      ScheduleIsStandard(block, t - 1);
      RoundsNext(Load(h), block, t - 1);
      NextWindow(h, block, t, Rounds(Load(h), block, t - 1));
    }
  }

  lemma FirstWindow(h: seq<word>, block: seq<byte>)
    requires |h| == 8 && |block| == 128
    ensures Window(h, block, 0, Rounds(Load(h), block, 0))
  {
    hide T, W, Round, BigSigma0, Maj;
  }

  lemma NextWindow(h: seq<word>, block: seq<byte>, t: nat, v: Vars)
    requires |h| == 8 && |block| == 128 && 0 < t <= 80 && Window(h, block, t - 1, v)
    ensures Window(h, block, t, Round(v, RoundConstant(t - 1), W(block, t - 1)))
  {
    hide BigSigma0, BigSigma1, Ch, Maj, W, RoundConstant, Round;
    Recurrences(h, block, t);
    RoundSums(v, RoundConstant(t - 1), W(block, t - 1));
    hide A, E, T;
  }

  lemma Recurrences(h: seq<word>, block: seq<byte>, t: nat)
    requires |h| == 8 && |block| == 128 && 0 < t <= 80
    ensures var a, b, c := A(h, block, t - 1), A(h, block, t - 2), A(h, block, t - 3);
      A(h, block, t) == (T(h, block, t) + BigSigma0(a) + Maj(a, b, c)) % TWO64
    ensures E(h, block, t) == (A(h, block, t - 4) + T(h, block, t)) % TWO64
    ensures var e, f, g := E(h, block, t - 1), E(h, block, t - 2), E(h, block, t - 3);
      T(h, block, t) == E(h, block, t - 4) + BigSigma1(e) + Ch(e, f, g) + RoundConstant(t - 1) + W(block, t - 1)
  {
    hide BigSigma0, BigSigma1, Ch, Maj, W, RoundConstant;
  }

  /** The hash value after one block more. */
  function Step(h: seq<word>, block: seq<byte>): (r: seq<word>)
    requires |h| == 8 && |block| == 128
    ensures |r| == 8
  {
    hide A, E;
    [(h[0] + A(h, block, 80)) % TWO64, (h[1] + A(h, block, 79)) % TWO64,
     (h[2] + A(h, block, 78)) % TWO64, (h[3] + A(h, block, 77)) % TWO64,
     (h[4] + E(h, block, 80)) % TWO64, (h[5] + E(h, block, 79)) % TWO64,
     (h[6] + E(h, block, 78)) % TWO64, (h[7] + E(h, block, 77)) % TWO64]
  }

  lemma CompressIsStandard(h: seq<word>, block: seq<byte>)
    requires |h| == 8 && |block| == 128
    ensures Compress(h, block) == Step(h, block)
  {
    hide A, E, Rounds;
    RoundsAreStandard(h, block, 80);
  }

  /** The blocks of a message one after the other. */
  function Hash(h: seq<word>, m: seq<byte>): (r: seq<word>)
    requires |h| == 8 && |m| % 128 == 0
    ensures |r| == 8
    decreases |m|
  {
    if |m| < 128 then h
    else
      hide Step;
      BlockOff(|m|);
      Hash(Step(h, m[..128]), m[128..])
  }

  lemma BlockOff(n: nat)
    requires n >= 128 && n % 128 == 0
    ensures (n - 128) % 128 == 0
  {
  }

  lemma {:induction false} HashAppends(h: seq<word>, m: seq<byte>, block: seq<byte>)
    requires |h| == 8 && |m| % 128 == 0 && |block| == 128
    ensures |m + block| % 128 == 0 && Hash(h, m + block) == Step(Hash(h, m), block)
    decreases |m|
  {
    hide Step;
    var n := m + block;
    if m == [] {
      assert n[..128] == block && n[128..] == [];
    } else {
      assert n[..128] == m[..128] && n[128..] == m[128..] + block;
      HashAppends(Step(h, m[..128]), m[128..], block);
    }
  }

  lemma {:induction false} AbsorbIsStandard(m: seq<byte>)
    requires |m| % 128 == 0
    ensures Absorb(m) == Hash(IV, m)
    decreases |m|
  {
    hide Step, Compress, IV, Absorb, Hash;
    if m == [] {
      NoBlocks();
    } else {
      var front, last := m[..|m| - 128], m[|m| - 128..];
      BlockOff(|m|);
      AbsorbIsStandard(front);
      CompressIsStandard(Absorb(front), last);
      NoBlocks();
      HashAppends(IV, front, last);
      assert m == front + last;
      AbsorbNext(front, last);
    }
  }

  lemma NoBlocks()
    ensures |IV| == 8 && Absorb([]) == IV == Hash(IV, [])
  {
  }

  // ---- section 5.1.2: the padding, as bits ----------------------------------------------

  /** The n low bits of x, the highest first. */
  function BitsOf(x: nat, n: nat): (s: seq<bit>)
    ensures |s| == n
  {
    if n == 0 then [] else BitsOf(x / 2, n - 1) + [x % 2]
  }

  /** The bits of a byte string. */
  function BitString(m: seq<byte>): (s: seq<bit>)
    ensures |s| == 8 * |m|
  {
    if m == [] then [] else BitString(m[..|m| - 1]) + BitsOf(m[|m| - 1], 8)
  }

  lemma {:induction false} BitStringJoin(m: seq<byte>, n: seq<byte>)
    ensures BitString(m + n) == BitString(m) + BitString(n)
  {
    hide BitsOf;
    if n == [] {
      assert m + n == m;
    } else {
      var k := |n| - 1;
      BitStringJoin(m, n[..k]);
      assert (m + n)[..|m + n| - 1] == m + n[..k];
    }
  }

  lemma {:induction false} BitsSplit(x: nat, n: nat, k: nat)
    ensures x / Pow2(k) >= 0 && BitsOf(x, n + k) == BitsOf(x / Pow2(k), n) + BitsOf(x, k)
  {
    NonNegativeQuotient(x, Pow2(k));
    if k == 0 {
      assert x / Pow2(0) == x;
    } else {
      BitsSplit(x / 2, n, k - 1);
      DivDiv(x, 2, Pow2(k - 1));
    }
  }

  lemma {:induction false} LowBits(x: nat, k: nat)
    ensures x % Pow2(k) >= 0 && BitsOf(x % Pow2(k), k) == BitsOf(x, k)
  {
    if k > 0 {
      LowBits(x / 2, k - 1);
      Halved(x, Pow2(k - 1));
    }
  }

  lemma Halved(x: nat, m: nat)
    requires m > 0
    ensures 0 <= x % (2 * m) && x % (2 * m) / 2 == x / 2 % m && x % (2 * m) % 2 == x % 2
  {
    var q, r := x / 2 / m, x / 2 % m;
    DivModUnique(x, 2 * m, q, 2 * r + x % 2);
  }

  lemma {:induction false} BitsOfNumber(x: nat, n: nat)
    ensures BitString(ToBE(x, n)) == BitsOf(x, 8 * n)
  {
    hide BitsOf;
    if n > 0 {
      BitsOfNumber(x / 256, n - 1);
      var s := ToBE(x, n);
      assert s[..n - 1] == ToBE(x / 256, n - 1) && s[n - 1] == x % 256;
      assert Pow2(8) == 256 by { Pow2Small(); }
      BitsSplit(x, 8 * (n - 1), 8);
      LowBits(x, 8);
    } else {
      assert BitsOf(x, 0) == [];
    }
  }

  lemma {:induction false} BitsOfZero(k: nat)
    ensures BitsOf(0, k) == ZeroBits(k)
  {
    if k > 0 {
      BitsOfZero(k - 1);
    }
  }

  lemma BitsOfZeros(n: nat)
    ensures BitString(Zeros(n)) == ZeroBits(8 * n)
  {
    hide BitString;
    ZeroBE(n);
    BitsOfNumber(0, n);
    BitsOfZero(8 * n);
  }

  lemma BitsOfMark()
    ensures BitString([0x80]) == [1] + ZeroBits(7)
  {
    var b: byte := 0x80;
    assert Pow2(7) == 128 by { Pow2Small(); }
    assert BitString([b]) == BitString([]) + BitsOf(b, 8);
    hide BitString, BitsOf, Pow2;
    BitsSplit(b, 1, 7);
    LowBits(b, 7);
    BitsOfZero(7);
    FirstBit();
  }

  lemma FirstBit()
    ensures BitsOf(1, 1) == [1]
  {
  }

  /** k is the least number of zeros that brings l bits and a 1 to 896 modulo 1024. */
  ghost predicate Fills(l: nat, k: nat) {
    Reaches(l, k) && forall j :: 0 <= j < k ==> !Reaches(l, j)
  }

  predicate Reaches(l: nat, j: nat) { (l + 1 + j) % 1024 == 896 }

  lemma ZerosFill(len: nat)
    ensures Fills(8 * len, 7 + 8 * PadZeros(len))
  {
    var n, l := PadZeros(len), 8 * len;
    var q, k := (len + 1 + n + 16) / 128 - 1, 7 + 8 * n;
    assert l + 1 + k == q * 1024 + 896;
    hide PadZeros;
    DivModUnique(l + 1 + k, 1024, q, 896);
    forall j | 0 <= j < k ensures !Reaches(l, j) {
      var d := k - j;
      if d <= 896 {
        DivModUnique(l + 1 + j, 1024, q, 896 - d);
      } else {
        DivModUnique(l + 1 + j, 1024, q - 1, 1920 - d);
      }
    }
  }

  /** The bits of m, a 1, the least number of zeros, and the length in 128 bits. */
  lemma PaddedBits(m: seq<byte>) returns (k: nat)
    ensures Fills(8 * |m|, k)
    ensures BitString(Padded(m, 8 * |m|)) == BitString(m) + [1] + ZeroBits(k) + BitsOf(8 * |m|, 128)
  {
    var n, l := PadZeros(|m|), 8 * |m|;
    k := 7 + 8 * n;
    ZerosFill(|m|);
    hide BitString, BitsOf, Fills, PadZeros, Zeros, ToBE, ZeroBits;
    var fill := [0x80] + Zeros(n);
    assert Padded(m, l) == m + (fill + ToBE(l, 16));
    BitStringJoin(m, fill + ToBE(l, 16));
    BitStringJoin(fill, ToBE(l, 16));
    FillBits(n);
    BitsOfNumber(l, 16);
    Regrouped(BitString(m), [1], ZeroBits(k), BitsOf(l, 128));
  }

  lemma FillBits(n: nat)
    ensures BitString([0x80] + Zeros(n)) == [1] + ZeroBits(7 + 8 * n)
  {
    hide BitString, Zeros;
    BitStringJoin([0x80], Zeros(n));
    BitsOfMark();
    BitsOfZeros(n);
    assert ZeroBits(7) + ZeroBits(8 * n) == ZeroBits(7 + 8 * n);
  }

  lemma Regrouped(a: seq<bit>, b: seq<bit>, c: seq<bit>, d: seq<bit>)
    ensures a + (b + c + d) == a + b + c + d
  {
  }

  // ---- section 6.4: the digest -----------------------------------------------------------

  lemma {:induction false} StoredWord(h: seq<word>, i: nat)
    requires i < |h|
    ensures StoreAll(h)[8 * i..8 * i + 8] == ToBE(h[i], 8)
  {
    hide ToBE;
    var n := |h| - 1;
    var s, t := StoreAll(h[..n]), ToBE(h[n], 8);
    if i < n {
      StoredWord(h[..n], i);
      assert (s + t)[8 * i..8 * i + 8] == s[8 * i..8 * i + 8];
    } else {
      assert (s + t)[8 * n..8 * n + 8] == t;
    }
  }

  /** What the code gives for every message below 2^64 bits: word i of the last hash value, over the blocks
    * of the padded message. */
  lemma DigestIsStandard(m: seq<byte>, i: nat)
    requires 8 * |m| < TWO64 && i < 8
    ensures BE(CodeDigest(m)[8 * i..8 * i + 8]) == Hash(IV, Padded(m, 8 * |m|))[i]
  {
    hide Hash, Absorb, Padded, BE, ToBE, IV, StoreAll;
    CodeIsDigest(m);
    var h := Absorb(Padded(m, 8 * |m|));
    AbsorbIsStandard(Padded(m, 8 * |m|));
    StoredWord(h, i);
    assert Pow2(64) == TWO64 by { Pow2Literals(); }
    hide Pow2;
    BEOfToBE(h[i], 8);
  }
}
