/**
 * Unsigned 32-bit words as bounded integers.
 *
 * A DWORD is a value in [0, 2^32). The bit operations the row code performs
 * on DWORDs are written here through their arithmetic meaning on such values:
 * `x >> s` is `x / 2^s`, `x & ((1 << n) - 1)` is `x % 2^n`, `x << s` is
 * `(x * 2^s) % 2^32` (bits shifted past bit 31 are lost), and clearing or
 * setting a group of bits subtracts or adds them.
 * The lemmas below are the division facts the row proofs are built from.
 */
module Words {

  /** Number of bits in a DWORD. */
  const WORD_BITS: nat := 32

  /** One past the largest DWORD value. */
  const WORD_LIMIT: nat := 0x1_0000_0000

  /** An unsigned 32-bit value (`DWORD`). */
  type Word = x: int | 0 <= x < WORD_LIMIT

  /** 2 to the power `n`. */
  function Pow2(n: nat): (p: nat)
    ensures p >= 1
  {
    if n == 0 then 1 else 2 * Pow2(n - 1)
  }

  lemma {:induction false} Pow2Add(a: nat, b: nat)
    ensures Pow2(a + b) == Pow2(a) * Pow2(b)
  {
    if b > 0 {
      Pow2Add(a, b - 1);
      assert Pow2(a + b) == 2 * Pow2(a + b - 1);
    }
  }

  lemma Pow2Word()
    ensures Pow2(WORD_BITS) == WORD_LIMIT
  {
    assert Pow2(8) == 0x100;
    Pow2Add(8, 8);
    Pow2Add(16, 16);
  }

  lemma {:induction false} Pow2Monotone(a: nat, b: nat)
    requires a <= b
    ensures Pow2(a) <= Pow2(b)
  {
    if a < b {
      Pow2Monotone(a, b - 1);
    }
  }

  /** `a * d` grows with `a` when `d` is positive. */
  lemma MulLess(a: int, b: int, d: int)
    requires a < b && d > 0
    ensures a * d + d <= b * d
  {
    var k := b - a - 1;
    assert k * d >= 0;
    assert b * d == a * d + k * d + d;
  }

  /** Quotient and remainder are the only pair that rebuilds `y`. */
  lemma DivModUnique(y: int, d: int, q: int, r: int)
    requires d > 0 && 0 <= r < d && y == q * d + r
    ensures y / d == q && y % d == r
  {
    var q', r' := y / d, y % d;
    assert y == q' * d + r';
    if q' < q {
      MulLess(q', q, d);
    } else if q < q' {
      MulLess(q, q', d);
    }
  }

  /** Adding a multiple of `d` moves the quotient and keeps the remainder. */
  lemma DivModAddMultiple(y: int, k: int, d: int)
    requires d > 0
    ensures (y + k * d) / d == y / d + k
    ensures (y + k * d) % d == y % d
  {
    DivModUnique(y + k * d, d, y / d + k, y % d);
  }

  /** Dividing by `a` and then by `b` is dividing by `a * b`. */
  lemma DivDiv(x: int, a: int, b: int)
    requires x >= 0 && a > 0 && b > 0
    ensures x / a / b == x / (a * b)
  {
    var q, r := x / a, x % a;
    var q2, r2 := q / b, q % b;
    assert x == q2 * (a * b) + (r2 * a + r) by {
      assert x == q * a + r;
      assert q == q2 * b + r2;
      assert q * a == q2 * b * a + r2 * a;
    }
    assert r2 * a + r < a * b by {
      MulLess(r2, b, a);
    }
    DivModUnique(x, a * b, q2, r2 * a + r);
  }

  /** A value below `k * d` has a quotient by `d` below `k`. */
  lemma DivBelow(x: int, k: int, d: int)
    requires 0 <= x < k * d && d > 0
    ensures x / d < k
  {
    var q := x / d;
    assert x == q * d + x % d;
    if q >= k {
      MulLess(k - 1, q, d);
    }
  }

  /**
   * Seen in mixed radix (`a` below, then `b`), `x` is its high part, its
   * middle digit and its low part.
   */
  lemma SplitDigits(x: int, a: int, b: int)
    requires x >= 0 && a > 0 && b > 0
    ensures x == (x / (a * b)) * (a * b) + ((x / a) % b) * a + x % a
  {
    var q := x / a;
    DivDiv(x, a, b);
    var h := q / b;
    assert q == h * b + q % b;
    assert x == q * a + x % a;
    assert q * a == h * (a * b) + (q % b) * a;
  }

  /** A high part, a middle digit and a low part put together read back as those parts. */
  lemma JoinDigits(h: int, m: int, r: int, a: int, b: int)
    requires a > 0 && b > 0 && h >= 0 && 0 <= m < b && 0 <= r < a
    ensures var y := h * (a * b) + m * a + r;
      y % a == r && (y / a) % b == m && y / (a * b) == h
  {
    var y := h * (a * b) + m * a + r;
    assert y == (h * b + m) * a + r;
    DivModUnique(y, a, h * b + m, r);
    DivModUnique(h * b + m, b, h, m);
    DivDiv(y, a, b);
  }

  /** Parts below their radix bounds put together stay below the next power. */
  lemma JoinDigitsBelow(h: int, m: int, r: int, a: int, b: int, k: int)
    requires a > 0 && b > 0 && 0 <= h < k && 0 <= m < b && 0 <= r < a
    ensures h * (a * b) + m * a + r < k * (a * b)
  {
    MulLess(m, b, a);
    MulLess(h, k, a * b);
  }

  /** The digit at radix `a`, base `b`, does not depend on anything at or above `a * b * e`. */
  lemma DigitIgnoresHigh(y: int, a: int, b: int, e: int)
    requires y >= 0 && a > 0 && b > 0 && e > 0
    ensures (y / a) % b == ((y % (a * (b * e))) / a) % b
  {
    var S := a * (b * e);
    var z, k := y % S, y / S;
    assert y == z + (k * (b * e)) * a;
    DivModAddMultiple(z, k * (b * e), a);
    assert k * (b * e) == (k * e) * b;
    DivModAddMultiple(z / a, k * e, b);
  }

  /**
   * Replacing the digit at radix `a`, base `b`, by `m` keeps the low part and
   * the high part, and a value below `k * (a * b)` stays below it.
   */
  lemma ReplaceDigit(x: int, a: int, b: int, k: int, m: int)
    requires a > 0 && b > 0 && 0 <= x < k * (a * b) && 0 <= m < b
    ensures var y := x - ((x / a) % b) * a + m * a;
      && 0 <= y < k * (a * b)
      && y % a == x % a
      && (y / a) % b == m
      && y / (a * b) == x / (a * b)
  {
    var h, r := x / (a * b), x % a;
    SplitDigits(x, a, b);
    JoinDigits(h, m, r, a, b);
    DivBelow(x, k, a * b);
    JoinDigitsBelow(h, m, r, a, b, k);
  }

  /** A value below the modulus is its own remainder. */
  lemma ModBelow(x: int, d: int)
    requires 0 <= x < d
    ensures x % d == x
  {
    DivModUnique(x, d, 0, x);
  }

  /** Below `a * b`, the quotient by `a` is already a single digit of base `b`. */
  lemma TopDigit(y: int, a: int, b: int)
    requires a > 0 && b > 0 && 0 <= y < a * b
    ensures y / a < b && (y / a) % b == y / a
  {
    var ba := b * a;
    assert ba == a * b;
    DivBelow(y, b, a);
    ModBelow(y / a, b);
  }

  /** `d` divides `-n` exactly when it divides `n`. */
  lemma NegDivides(n: int, d: int)
    requires n >= 0 && d > 0
    ensures (-n) % d == 0 <==> n % d == 0
  {
    var q, r := n / d, n % d;
    assert n == q * d + r;
    if r == 0 {
      DivModUnique(-n, d, -q, 0);
    } else {
      DivModUnique(-n, d, -q - 1, d - r);
    }
  }

  /** A remainder of a non-negative value is no larger than the value. */
  lemma ModAtMost(x: int, d: int)
    requires x >= 0 && d > 0
    ensures 0 <= x % d <= x
  {
    var q := x / d;
    assert x == q * d + x % d;
    assert q >= 0;
    assert q * d >= 0;
  }
}
