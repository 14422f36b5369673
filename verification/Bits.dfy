/** Bit operations on signed integers in two's complement, of unbounded width. */
module Bits {
  import opened Bytes

  /** How far x is from 0 or -1, the two values that a right shift leaves alone. */
  function Depth(x: int): nat { if x < 0 then -1 - x else x }

  /** x ^ y. */
  function Xor(x: int, y: int): int
    decreases Depth(x) + Depth(y)
  {
    if Depth(x) + Depth(y) == 0 then (if x == y then 0 else -1)
    else 2 * Xor(x / 2, y / 2) + (x % 2 + y % 2) % 2
  }

  /** x & y. */
  function SAnd(x: int, y: int): int
    decreases Depth(x) + Depth(y)
  {
    if Depth(x) + Depth(y) == 0 then (if x == -1 && y == -1 then -1 else 0)
    else 2 * SAnd(x / 2, y / 2) + (x % 2) * (y % 2)
  }

  lemma {:induction false} XorCancels(x: int, y: int)
    ensures Xor(x, Xor(x, y)) == y && Xor(y, Xor(x, y)) == x
    decreases Depth(x) + Depth(y)
  {
    if Depth(x) + Depth(y) == 0 {
    } else {
      XorCancels(x / 2, y / 2);
      XorCancelsStep(x, y);
    }
  }

  lemma XorCancelsStep(x: int, y: int)
    requires Xor(x / 2, Xor(x / 2, y / 2)) == y / 2 && Xor(y / 2, Xor(x / 2, y / 2)) == x / 2
    ensures Xor(x, Xor(x, y)) == y && Xor(y, Xor(x, y)) == x
  {
    hide Xor;
    XorStep(x, y);
    var h, b := Xor(x / 2, y / 2), (x % 2 + y % 2) % 2;
    XorJoin(x, h, b);
    XorJoin(y, h, b);
    Parity(x % 2, y % 2);
  }

  lemma XorJoin(x: int, h: int, b: int)
    requires 0 <= b < 2
    ensures Xor(x, 2 * h + b) == 2 * Xor(x / 2, h) + (x % 2 + b) % 2
  {
    hide Xor;
    XorStep(x, 2 * h + b);
    assert (2 * h + b) / 2 == h && (2 * h + b) % 2 == b;
  }

  lemma Parity(a: int, b: int)
    requires 0 <= a < 2 && 0 <= b < 2
    ensures (a + (a + b) % 2) % 2 == b && (b + (a + b) % 2) % 2 == a
  {
  }

  /** The recursive equation also holds where the recursion stops. */
  lemma XorStep(x: int, y: int)
    ensures Xor(x, y) == 2 * Xor(x / 2, y / 2) + (x % 2 + y % 2) % 2
  {
    if Depth(x) + Depth(y) == 0 {
      assert x / 2 == x && y / 2 == y;
    }
  }

  lemma {:induction false} XorZero(x: int)
    ensures Xor(x, 0) == x
    decreases Depth(x)
  {
    if Depth(x) == 0 {
    } else {
      XorZero(x / 2);
    }
  }

  lemma {:induction false} AndAllOnes(x: int)
    ensures SAnd(x, -1) == x && SAnd(-1, x) == x
    decreases Depth(x)
  {
    if Depth(x) == 0 {
    } else {
      AndAllOnes(x / 2);
    }
  }

  lemma {:induction false} AndZero(x: int)
    ensures SAnd(x, 0) == 0 && SAnd(0, x) == 0
    decreases Depth(x)
  {
    if Depth(x) == 0 {
    } else {
      AndZero(x / 2);
    }
  }

  /** x ^ ((x ^ y) & -b): y when b is 1, x when b is 0. */
  function Choose(x: int, y: int, b: int): (r: int)
    requires b == 0 || b == 1
    ensures r == if b == 1 then y else x
  {
    XorCancels(x, y);
    AndAllOnes(Xor(x, y));
    AndZero(Xor(x, y));
    XorZero(x);
    Xor(x, SAnd(Xor(x, y), -b))
  }

  /** Bits above position k do not meet bits below it. */
  lemma {:induction false} XorDisjoint(x: nat, y: nat, k: nat)
    requires x < Pow2(k)
    ensures Xor(x, y * Pow2(k)) == x + y * Pow2(k)
  {
    hide Xor;
    if k == 0 {
      assert y * Pow2(0) == y;
      XorZeroLeft(y);
    } else {
      XorDisjoint(x / 2, y, k - 1);
      XorDouble(x, y * Pow2(k - 1), y * Pow2(k));
    }
  }

  lemma XorDouble(x: int, h: int, z: int)
    requires z == 2 * h
    ensures Xor(x, z) == 2 * Xor(x / 2, h) + x % 2
  {
    hide Xor;
    XorJoin(x, h, 0);
  }

  lemma {:induction false} XorZeroLeft(x: nat)
    ensures Xor(0, x) == x
  {
    if x == 0 {
    } else {
      XorZeroLeft(x / 2);
    }
  }

  lemma {:induction false} XorSelf(x: int)
    ensures Xor(x, x) == 0
    decreases Depth(x)
  {
    if Depth(x) == 0 {
    } else {
      XorSelf(x / 2);
    }
  }

  lemma {:induction false} XorNonNegative(x: nat, y: nat)
    ensures Xor(x, y) >= 0
    decreases x + y
  {
    if x + y == 0 {
    } else {
      XorNonNegative(x / 2, y / 2);
    }
  }

  /** x ^ y is zero exactly when x equals y. */
  lemma XorIsZero(x: int, y: int)
    ensures Xor(x, y) == 0 <==> x == y
  {
    XorCancels(x, y);
    XorZero(x);
    XorSelf(x);
  }

  lemma {:induction false} XorBound(x: nat, y: nat, k: nat)
    requires x < Pow2(k) && y < Pow2(k)
    ensures 0 <= Xor(x, y) < Pow2(k)
    decreases k
  {
    XorNonNegative(x, y);
    if k == 0 {
    } else {
      hide Xor;
      XorBound(x / 2, y / 2, k - 1);
      XorStep(x, y);
      assert (x % 2 + y % 2) % 2 <= 1;
    }
  }

  // A bitwise operation acts on the low bits and on the rest separately.

  type bit = b: int | b == 0 || b == 1

  function BitXor(a: bit, b: bit): bit { (a + b) % 2 }

  function BitAnd(a: bit, b: bit): bit { if a == 1 && b == 1 then 1 else 0 }

  function BitOr(a: bit, b: bit): bit { if a == 1 || b == 1 then 1 else 0 }

  lemma XorBits(x: nat, x': nat, a: bit, y: nat, y': nat, b: bit)
    requires x == 2 * x' + a && y == 2 * y' + b
    ensures Xor(x', y') >= 0 && Xor(x, y) == 2 * Xor(x', y') + BitXor(a, b)
  {
    XorNonNegative(x', y');
    hide Xor;
    XorStep(x, y);
    assert x / 2 == x' && y / 2 == y' && x % 2 == a && y % 2 == b;
  }

  lemma AndBits(x: nat, x': nat, a: bit, y: nat, y': nat, b: bit)
    requires x == 2 * x' + a && y == 2 * y' + b
    ensures And(x, y) == 2 * And(x', y') + BitAnd(a, b)
  {
    assert x / 2 == x' && y / 2 == y' && x % 2 == a && y % 2 == b;
  }

  lemma OrBits(x: nat, x': nat, a: bit, y: nat, y': nat, b: bit)
    requires x == 2 * x' + a && y == 2 * y' + b
    ensures Or(x, y) == 2 * Or(x', y') + BitOr(a, b)
  {
    assert x / 2 == x' && y / 2 == y' && x % 2 == a && y % 2 == b;
  }

  lemma {:induction false} XorCommutes(x: int, y: int)
    ensures Xor(x, y) == Xor(y, x)
    decreases Depth(x) + Depth(y)
  {
    if Depth(x) + Depth(y) == 0 {
    } else {
      XorCommutes(x / 2, y / 2);
    }
  }

  lemma {:induction false} XorAssociates(x: nat, y: nat, z: nat)
    ensures Xor(x, y) >= 0 && Xor(y, z) >= 0 && Xor(Xor(x, y), z) == Xor(x, Xor(y, z))
    decreases x + y + z
  {
    XorNonNegative(x, y);
    XorNonNegative(y, z);
    if x + y + z == 0 {
    } else {
      XorAssociates(x / 2, y / 2, z / 2);
      AssociateStep(x, y, z, x / 2, y / 2, z / 2, x % 2, y % 2, z % 2);
    }
  }

  lemma AssociateStep(x: nat, y: nat, z: nat, x': nat, y': nat, z': nat, a: bit, b: bit, c: bit)
    requires x == 2 * x' + a && y == 2 * y' + b && z == 2 * z' + c
    requires Xor(x', y') >= 0 && Xor(y', z') >= 0 && Xor(x, y) >= 0 && Xor(y, z) >= 0
    requires Xor(Xor(x', y'), z') == Xor(x', Xor(y', z'))
    ensures Xor(Xor(x, y), z) == Xor(x, Xor(y, z))
  {
    AssociateBit(a, b, c);
    hide Xor, BitXor;
    XorBits(x, x', a, y, y', b);
    XorBits(y, y', b, z, z', c);
    XorBits(Xor(x, y), Xor(x', y'), BitXor(a, b), z, z', c);
    XorBits(x, x', a, Xor(y, z), Xor(y', z'), BitXor(b, c));
  }

  lemma AssociateBit(a: bit, b: bit, c: bit)
    ensures BitXor(BitXor(a, b), c) == BitXor(a, BitXor(b, c))
  {
  }

  lemma NoWeight(a: nat, b: nat)
    ensures b * Pow2(0) == b
    ensures a < Pow2(0) ==> a == 0
  {
  }

  /** Halving what is put together from k low bits and the rest. */
  lemma HalfWeight(a: nat, b: nat, k: nat)
    requires k > 0 && a < Pow2(k)
    ensures 0 <= b * Pow2(k) == 2 * (b * Pow2(k - 1)) && a / 2 < Pow2(k - 1)
    ensures a + b * Pow2(k) == 2 * (a / 2 + b * Pow2(k - 1)) + a % 2
  {
    NonNegativeProduct(b, Pow2(k - 1));
    assert b * Pow2(k) == b * (2 * Pow2(k - 1));
  }

  /** Bit i of x, from the low end. */
  function Bit(x: nat, i: nat): (b: bit) {
    if i == 0 then x % 2 else Bit(x / 2, i - 1)
  }

  lemma BitStep(x: nat, h: nat, b: bit, i: nat)
    requires x == 2 * h + b
    ensures Bit(x, i) == if i == 0 then b else Bit(h, i - 1)
  {
    assert x / 2 == h && x % 2 == b;
  }

  lemma {:induction false} BitOfXor(x: nat, y: nat, i: nat)
    ensures Xor(x, y) >= 0 && Bit(Xor(x, y), i) == BitXor(Bit(x, i), Bit(y, i))
  {
    hide Xor, Bit, BitXor;
    XorNonNegative(x, y);
    XorBits(x, x / 2, x % 2, y, y / 2, y % 2);
    BitStep(x, x / 2, x % 2, i);
    BitStep(y, y / 2, y % 2, i);
    BitStep(Xor(x, y), Xor(x / 2, y / 2), BitXor(x % 2, y % 2), i);
    if i > 0 {
      BitOfXor(x / 2, y / 2, i - 1);
    }
  }

  lemma {:induction false} BitOfAnd(x: nat, y: nat, i: nat)
    ensures Bit(And(x, y), i) == BitAnd(Bit(x, i), Bit(y, i))
  {
    hide And, Bit, BitAnd;
    AndBits(x, x / 2, x % 2, y, y / 2, y % 2);
    BitStep(x, x / 2, x % 2, i);
    BitStep(y, y / 2, y % 2, i);
    BitStep(And(x, y), And(x / 2, y / 2), BitAnd(x % 2, y % 2), i);
    if i > 0 {
      BitOfAnd(x / 2, y / 2, i - 1);
    }
  }

  /** The bits of a number that is put together from k low bits and the rest. */
  lemma {:induction false} BitOfJoin(low: nat, high: nat, k: nat, i: nat)
    requires low < Pow2(k)
    ensures low + high * Pow2(k) >= 0
    ensures Bit(low + high * Pow2(k), i) == if i < k then Bit(low, i) else Bit(high, i - k)
  {
    hide Pow2;
    if k == 0 {
      NoWeight(low, high);
    } else {
      HalfWeight(low, high, k);
      if i > 0 {
        BitOfJoin(low / 2, high, k - 1, i - 1);
      }
    }
  }

  function ZeroBits(n: nat): (s: seq<bit>)
    ensures |s| == n
  {
    seq(n, _ => 0)
  }

  lemma {:induction false} BitOfZero(i: nat)
    ensures Bit(0, i) == 0
  {
    if i > 0 {
      BitOfZero(i - 1);
    }
  }

  /** The bits of 2^k - 1 - x are the other ones. */
  lemma {:induction false} BitOfComplement(x: nat, y: nat, k: nat, i: nat)
    requires x + y + 1 == Pow2(k) && i < k
    ensures Bit(y, i) == 1 - Bit(x, i)
  {
    if i > 0 {
      BitOfComplement(x / 2, y / 2, k - 1, i - 1);
    }
  }

  /** A number is determined by its bits. */
  lemma {:induction false} BitsDetermine(x: nat, y: nat, k: nat)
    requires x < Pow2(k) && y < Pow2(k) && forall i :: 0 <= i < k ==> Bit(x, i) == Bit(y, i)
    ensures x == y
  {
    if k > 0 {
      assert Bit(x, 0) == Bit(y, 0);
      forall i | 0 <= i < k - 1 ensures Bit(x / 2, i) == Bit(y / 2, i) {
        assert Bit(x, i + 1) == Bit(y, i + 1);
      }
      BitsDetermine(x / 2, y / 2, k - 1);
    }
  }

  /** x ^ y on bytes. */
  function XorB(x: byte, y: byte): (r: byte)
    ensures r == Xor(x, y)
  {
    hide Xor, Pow2;
    assert Pow2(8) == 256 by { Pow2Small(); }
    XorBound(x, y, 8);
    Xor(x, y)
  }

  lemma XorBLaws(x: byte, y: byte, z: byte)
    ensures XorB(x, y) == XorB(y, x) && XorB(XorB(x, y), z) == XorB(x, XorB(y, z))
    ensures XorB(x, 0) == x && XorB(XorB(x, y), y) == x
  {
    hide Xor;
    XorCommutes(x, y);
    XorCommutes(y, x);
    XorAssociates(x, y, z);
    XorZero(x);
    XorCancels(y, x);
    XorCommutes(XorB(x, y), y);
  }
}
