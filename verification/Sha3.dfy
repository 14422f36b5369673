/** SHA-3 and SHAKE (sha3.c) against the sponge of sections 4 to 6 of FIPS 202. The permutation
  * Keccak-f[1600] is an argument. */
module Sha3 {
  import opened Bytes
  import opened Bits

  type State = s: seq<byte> | |s| == 200 witness Zeros(200)

  type Permutation = State -> State

  const SHA3_SUFFIX: byte := 0x06
  const SHAKE_SUFFIX: byte := 0x1f

  // ---- definitions ---------------------------------------------------------------------

  /** A block xor-ed into the first bytes of the state. */
  function XorInto(s: State, block: seq<byte>): State
    requires |block| <= 200
  {
    seq(200, i requires 0 <= i < 200 => if i < |block| then XorB(s[i], block[i]) else s[i])
  }

  /** The state after all blocks of r bytes of a padded message. */
  function Absorb(f: Permutation, r: nat, m: seq<byte>): State
    requires 0 < r <= 200 && |m| % r == 0
    decreases |m|
  {
    if m == [] then Zeros(200)
    else
      BlockOff(|m|, r);
      f(XorInto(Absorb(f, r, m[..|m| - r]), m[|m| - r..]))
  }

  lemma BlockOff(n: nat, r: nat)
    requires 0 < r && n > 0 && n % r == 0
    ensures n >= r && (n - r) % r == 0
  {
    var q := n / r;
    assert n == q * r;
    assert q >= 1 by { assert q <= 0 ==> q * r <= 0; }
    DivModUnique(n - r, r, q - 1, 0);
  }

  /** The domain suffix with the first padding bit, zeros, the last padding bit: n bytes. They
    * share a byte when there is only one. */
  function Padding(suffix: byte, n: nat): (p: seq<byte>)
    requires n > 0
    ensures |p| == n
  {
    if n == 1 then [XorB(suffix, 0x80)] else [suffix] + Zeros(n - 2) + [0x80]
  }

  function Padded(m: seq<byte>, suffix: byte, r: nat): (p: seq<byte>)
    requires r > 0
    ensures |p| % r == 0
  {
    PaddedLength(|m|, r);
    m + Padding(suffix, r - |m| % r)
  }

  lemma PaddedLength(n: nat, r: nat)
    requires r > 0
    ensures 0 <= n % r < r && (n + (r - n % r)) % r == 0
  {
    DivModUnique(n + (r - n % r), r, n / r + 1, 0);
  }

  function Iterate(f: Permutation, k: nat, s: State): State {
    if k == 0 then s else f(Iterate(f, k - 1, s))
  }

  /** n bytes of output from position from on. */
  function Squeeze(f: Permutation, r: nat, s: State, from: nat, n: nat): (out: seq<byte>)
    requires 0 < r <= 200
    ensures |out| == n
  {
    seq<byte>(n, i requires 0 <= i < n => SqueezeByte(f, r, s, from + i))
  }

  function SqueezeByte(f: Permutation, r: nat, s: State, i: nat): byte
    requires 0 < r <= 200
  {
    NonNegativeQuotient(i, r);
    Iterate(f, i / r, s)[i % r]
  }

  /** The sponge: absorb the padded message, then squeeze. */
  function Sponge(f: Permutation, r: nat, m: seq<byte>, suffix: byte, from: nat, n: nat): seq<byte>
    requires 0 < r <= 200
  {
    Squeeze(f, r, Absorb(f, r, Padded(m, suffix, r)), from, n)
  }

  // ---- blocks --------------------------------------------------------------------------

  /** The state holds m, the last |tail| bytes of it since the last permutation. */
  ghost predicate Holds(f: Permutation, r: nat, m: seq<byte>, tail: nat, s: seq<byte>)
    requires 0 < r <= 200
  {
    && tail < r && tail == |m| % r && tail <= |m| && (|m| - tail) % r == 0
    && s == XorInto(Absorb(f, r, m[..|m| - tail]), m[|m| - tail..])
  }

  lemma HoldsNothing(f: Permutation, r: nat)
    requires 0 < r <= 200
    ensures Holds(f, r, [], 0, Zeros(200))
  {
    assert XorInto(Zeros(200), []) == Zeros(200);
  }

  lemma AbsorbNext(f: Permutation, r: nat, m: seq<byte>, block: seq<byte>)
    requires 0 < r <= 200 && |m| % r == 0 && |block| == r
    ensures |m + block| % r == 0 && Absorb(f, r, m + block) == f(XorInto(Absorb(f, r, m), block))
  {
    hide XorInto;
    var n := m + block;
    DivModUnique(|n|, r, |m| / r + 1, 0);
    assert n[..|n| - r] == m && n[|n| - r..] == block;
  }

  lemma XorNext(s: State, block: seq<byte>, x: byte)
    requires |block| < 200
    ensures XorInto(s, block + [x]) == XorInto(s, block)[|block| := XorB(s[|block|], x)]
  {
    hide XorB;
  }

  /** One more byte, and the permutation when it fills the block. */
  lemma NextByte(f: Permutation, r: nat, m: seq<byte>, tail: nat, s: State, x: byte)
    requires 0 < r <= 200 && Holds(f, r, m, tail, s)
    ensures tail + 1 < r ==> Holds(f, r, m + [x], tail + 1, s[tail := XorB(s[tail], x)])
    ensures tail + 1 == r ==> Holds(f, r, m + [x], 0, f(s[tail := XorB(s[tail], x)]))
  {
    hide Absorb, XorB;
    var whole, rest, n := m[..|m| - tail], m[|m| - tail..], m + [x];
    assert m == whole + rest && n == whole + (rest + [x]);
    XorNext(Absorb(f, r, whole), rest, x);
    NextCount(|m|, tail, r);
    if tail + 1 < r {
      assert n[..|n| - (tail + 1)] == whole && n[|n| - (tail + 1)..] == rest + [x];
    } else {
      AbsorbNext(f, r, whole, rest + [x]);
      assert n[..|n|] == n && n[|n|..] == [];
      assert XorInto(Absorb(f, r, n), []) == Absorb(f, r, n);
    }
  }

  lemma NextCount(n: nat, tail: nat, r: nat)
    requires r > 0 && tail == n % r
    ensures (n + 1) % r == if tail + 1 < r then tail + 1 else 0
  {
    if tail + 1 < r {
      DivModUnique(n + 1, r, n / r, tail + 1);
    } else {
      DivModUnique(n + 1, r, n / r + 1, 0);
    }
  }

  /** The two lines that pad: they meet in one byte when the block has one byte left. */
  lemma PaddedBlock(f: Permutation, r: nat, m: seq<byte>, tail: nat, s: State, suffix: byte)
    requires 0 < r <= 200 && Holds(f, r, m, tail, s)
    ensures var t := s[tail := XorB(s[tail], suffix)];
      f(t[r - 1 := XorB(t[r - 1], 0x80)]) == Absorb(f, r, Padded(m, suffix, r))
  {
    hide Absorb, XorB;
    var whole, rest, p := m[..|m| - tail], m[|m| - tail..], Padding(suffix, r - tail);
    var c, t := Absorb(f, r, whole), s[tail := XorB(s[tail], suffix)];
    assert m == whole + rest && Padded(m, suffix, r) == whole + (rest + p);
    AbsorbNext(f, r, whole, rest + p);
    forall i | 0 <= i < 200 ensures XorInto(c, rest + p)[i] == t[r - 1 := XorB(t[r - 1], 0x80)][i] {
      XorBLaws(c[i], suffix, 0x80);
    }
    assert XorInto(c, rest + p) == t[r - 1 := XorB(t[r - 1], 0x80)];
  }

  // ---- the context ---------------------------------------------------------------------

  class Sha3Context {
    const f: Permutation
    const b: array<byte>
    const mdlen: nat
    const rsiz: nat
    var pt: nat
    /** Everything absorbed so far. */
    ghost var message: seq<byte>
    /** While squeezing: the state at the start, the permutations and the bytes of output since. */
    ghost var start: seq<byte>
    ghost var turns: nat
    ghost var squeezed: nat

    ghost predicate Shaped() { b.Length == 200 && 0 < rsiz <= 200 && rsiz == 200 - 2 * mdlen }

    ghost predicate Absorbing()
      reads this, b
    {
      Shaped() && Holds(f, rsiz, message, pt, b[..])
    }

    ghost predicate Squeezing()
      reads this, b
    {
      && Shaped() && |start| == 200 && pt <= rsiz
      && b[..] == Iterate(f, turns, start) && squeezed == turns * rsiz + pt
    }

    /** sha3_init */
    constructor (mdlen: nat, f: Permutation)
      requires mdlen < 100
      ensures Absorbing() && message == [] && fresh(b) && this.mdlen == mdlen && this.f == f
    {
      this.f := f;
      this.b := new byte[200](_ => 0);
      this.mdlen := mdlen;
      this.rsiz := 200 - 2 * mdlen;
      this.pt := 0;
      this.message := [];
      new;
      assert b[..] == Zeros(200);
      HoldsNothing(f, rsiz);
    }

    /** keccak_f1600 in place. */
    method Permute()
      requires b.Length == 200
      modifies b
      ensures b[..] == f(old(b[..]))
    {
      var s := f(b[..]);
      for i := 0 to 200
        invariant b[..i] == s[..i]
      {
        b[i] := s[i];
      }
      assert b[..] == b[..200] && s[..200] == s;
    }

    /** sha3_update */
    method Update(data: seq<byte>)
      requires Absorbing()
      modifies this, b
      ensures Absorbing() && message == old(message) + data
    {
      hide Holds, XorB;
      var j: nat := pt;
      for i := 0 to |data|
        invariant Shaped() && Holds(f, rsiz, message, j, b[..]) && message == old(message) + data[..i]
      {
        PositionInBlock(f, rsiz, message, j, b[..]);
        NextByte(f, rsiz, message, j, b[..], data[i]);
        ghost var was := b[..];
        b[j] := XorB(b[j], data[i]);
        assert b[..] == was[j := XorB(was[j], data[i])];
        message := message + [data[i]];
        assert data[..i + 1] == data[..i] + [data[i]];
        j := j + 1;
        if j >= rsiz {
          Permute();
          j := 0;
        }
      }
      assert data[..|data|] == data;
      pt := j;
    }

    /** The padding that sha3_final and shake_xof apply before the last permutation. */
    method PadBlock(suffix: byte)
      requires Absorbing()
      modifies b
      ensures b[..] == Absorb(f, rsiz, Padded(message, suffix, rsiz))
    {
      hide Holds, XorB, Absorb;
      PositionInBlock(f, rsiz, message, pt, b[..]);
      PaddedBlock(f, rsiz, message, pt, b[..], suffix);
      ghost var was := b[..];
      b[pt] := XorB(b[pt], suffix);
      ghost var t := b[..];
      assert t == was[pt := XorB(was[pt], suffix)];
      b[rsiz - 1] := XorB(b[rsiz - 1], 0x80);
      assert b[..] == t[rsiz - 1 := XorB(t[rsiz - 1], 0x80)];
      Permute();
    }

    /** sha3_final; the digest fits one block for every mdlen up to 66. */
    method Final() returns (md: seq<byte>)
      requires Absorbing()
      modifies b
      ensures md == Absorb(f, rsiz, Padded(message, SHA3_SUFFIX, rsiz))[..mdlen]
      ensures mdlen <= rsiz ==> md == Sponge(f, rsiz, message, SHA3_SUFFIX, 0, mdlen)
    {
      hide Holds, XorB, Absorb, Padded;
      PadBlock(SHA3_SUFFIX);
      md := [];
      for i := 0 to mdlen
        invariant md == b[..i]
      {
        md := md + [b[i]];
      }
      assert md == b[..][..mdlen];
      if mdlen <= rsiz {
        FirstBlock(f, rsiz, b[..], mdlen);
      }
    }

    /** shake_xof */
    method Xof()
      requires Absorbing()
      modifies this, b
      ensures Squeezing() && squeezed == 0 && message == old(message)
      ensures start == Absorb(f, rsiz, Padded(message, SHAKE_SUFFIX, rsiz))
    {
      hide Holds, Absorb, Padded;
      PadBlock(SHAKE_SUFFIX);
      pt := 0;
      start, turns, squeezed := b[..], 0, 0;
    }

    /** shake_out: output continues where the last call stopped. */
    method Out(len: nat) returns (out: seq<byte>)
      requires Squeezing()
      modifies this, b
      ensures Squeezing() && start == old(start) && message == old(message) && squeezed == old(squeezed) + len
      ensures out == Squeeze(f, rsiz, start, old(squeezed), len)
    {
      hide Squeeze, SqueezeByte;
      out := [];
      var j: nat := pt;
      ghost var from := squeezed;
      NoOutput(f, rsiz, start, from);
      for i := 0 to len
        invariant Shaped() && |start| == 200 && j <= rsiz && start == old(start) && message == old(message)
        invariant b[..] == Iterate(f, turns, start) && squeezed == turns * rsiz + j && squeezed == from + i
        invariant out == Squeeze(f, rsiz, start, from, i)
      {
        if j >= rsiz {
          Permute();
          turns := turns + 1;
          j := 0;
          Turn(turns, rsiz);
        }
        NextOutput(f, rsiz, start, from, i, turns, j);
        out := out + [b[j]];
        squeezed := squeezed + 1;
        j := j + 1;
      }
      pt := j;
    }
  }

  lemma PositionInBlock(f: Permutation, r: nat, m: seq<byte>, tail: nat, s: seq<byte>)
    requires 0 < r <= 200 && Holds(f, r, m, tail, s)
    ensures tail < r && |s| == 200
  {
  }

  lemma FirstBlock(f: Permutation, r: nat, s: State, n: nat)
    requires 0 < r <= 200 && n <= r
    ensures Squeeze(f, r, s, 0, n) == s[..n]
  {
    forall i | 0 <= i < n ensures SqueezeByte(f, r, s, i) == s[i] {
      DivModUnique(i, r, 0, i);
    }
  }

  lemma NoOutput(f: Permutation, r: nat, s: State, from: nat)
    requires 0 < r <= 200
    ensures Squeeze(f, r, s, from, 0) == []
  {
  }

  lemma Turn(k: nat, r: nat)
    requires k > 0
    ensures (k - 1) * r + r == k * r
  {
  }

  lemma NextOutput(f: Permutation, r: nat, s: State, from: nat, i: nat, k: nat, j: nat)
    requires 0 < r <= 200 && from + i == k * r + j && j < r
    ensures Squeeze(f, r, s, from, i + 1) == Squeeze(f, r, s, from, i) + [Iterate(f, k, s)[j]]
  {
    DivModUnique(from + i, r, k, j);
    var t := Squeeze(f, r, s, from, i + 1);
    assert t[i] == SqueezeByte(f, r, s, from + i) == Iterate(f, k, s)[j];
    assert t == t[..i] + [t[i]] && t[..i] == Squeeze(f, r, s, from, i);
  }

  /** Output does not depend on how the calls split it. */
  lemma SqueezeJoins(f: Permutation, r: nat, s: State, from: nat, n: nat, m: nat)
    requires 0 < r <= 200
    ensures Squeeze(f, r, s, from, n) + Squeeze(f, r, s, from + n, m) == Squeeze(f, r, s, from, n + m)
  {
    hide SqueezeByte;
    var whole := Squeeze(f, r, s, from, n + m);
    forall k | n <= k < n + m ensures whole[k] == Squeeze(f, r, s, from + n, m)[k - n] {
      assert from + n + (k - n) == from + k;
    }
    assert whole[..n] == Squeeze(f, r, s, from, n) && whole[n..] == Squeeze(f, r, s, from + n, m);
  }

  /** sha3(): one update between init and final. Beyond 66 bytes the digest takes in bytes of the
    * state that the sponge does not give out. */
  method Digest(input: seq<byte>, mdlen: nat, f: Permutation) returns (md: seq<byte>)
    requires mdlen < 100
    ensures md == Absorb(f, 200 - 2 * mdlen, Padded(input, SHA3_SUFFIX, 200 - 2 * mdlen))[..mdlen]
    ensures mdlen <= 66 ==> md == Sponge(f, 200 - 2 * mdlen, input, SHA3_SUFFIX, 0, mdlen)
  {
    hide Holds, Sponge, Absorb, Padded;
    var c := new Sha3Context(mdlen, f);
    c.Update(input);
    assert c.message == input;
    md := c.Final();
  }
}
