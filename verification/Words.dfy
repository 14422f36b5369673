/** The ranges of C's signed words, and the cast to 32 bits. */
module Words {
  ghost predicate I32(x: int) { -0x8000_0000 <= x < 0x8000_0000 }

  ghost predicate I64(x: int) { -0x8000_0000_0000_0000 <= x < 0x8000_0000_0000_0000 }

  /** A cast to 32 bits. */
  function S32(x: int): (r: int)
    ensures I32(r)
    ensures I32(x) ==> r == x
  {
    (x + 0x8000_0000) % 0x1_0000_0000 - 0x8000_0000
  }

  /** The bytes of a word do not depend on its sign: shifts and masks see its two's complement. */
  lemma S32Bytes(x: int)
    requires 0 <= x < 0x1_0000_0000
    ensures var r := S32(x);
      && r % 0x100 == x % 0x100 && r / 0x100 % 0x100 == x / 0x100 % 0x100
      && r / 0x1_0000 % 0x100 == x / 0x1_0000 % 0x100 && r / 0x100_0000 % 0x100 == x / 0x100_0000 % 0x100
  {
    assert S32(x) == if x < 0x8000_0000 then x else x - 0x1_0000_0000;
    LessByte(x, 1, 0x100_0000);
    LessByte(x, 0x100, 0x1_0000);
    LessByte(x, 0x1_0000, 0x100);
    LessByte(x, 0x100_0000, 1);
  }

  lemma LessByte(x: int, m: nat, n: nat)
    requires m > 0 && m * (0x100 * n) == 0x1_0000_0000
    ensures (x - 0x1_0000_0000) / m % 0x100 == x / m % 0x100
  {
    var q, r := x / m, x % m;
    assert (q - 0x100 * n) * m == q * m - m * (0x100 * n);
    Quotient(x - 0x1_0000_0000, m, q - 0x100 * n, r);
    DropWords(q, n);
  }

  lemma Quotient(x: int, m: nat, q: int, r: int)
    requires m > 0 && x == q * m + r && 0 <= r < m
    ensures x / m == q
  {
    var d, t := x / m - q, x % m;
    assert x == (q + d) * m + t && 0 <= t < m;
    Small(d, m, q, r, t);
  }

  lemma Small(d: int, m: nat, q: int, r: int, t: int)
    requires m > 0 && (q + d) * m + t == q * m + r && 0 <= r < m && 0 <= t < m
    ensures d == 0
  {
    assert (q + d) * m == q * m + d * m;
    Grows(d, m);
  }

  lemma Grows(d: int, m: nat)
    ensures d >= 1 ==> d * m >= m
    ensures d <= -1 ==> d * m + m <= 0
  {
    if d >= 1 {
      assert d * m == (d - 1) * m + m;
    } else if d <= -1 {
      assert d * m == (d + 1) * m - m;
    }
  }

  lemma DropWords(q: int, n: nat)
    ensures (q - 0x100 * n) % 0x100 == q % 0x100
  {
  }
}
