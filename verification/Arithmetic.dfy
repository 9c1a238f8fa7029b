/** The integers of the programs, and facts about products and quotients of variables. */
module Arithmetic {
  type byte = b: int | 0 <= b < 256

  const UINT_RANGE := 0x1_0000_0000
  const INT_MAX := 0x7FFF_FFFF

  /** Unsigned 32-bit wrap-around. */
  function U32(v: int): nat { v % UINT_RANGE }

  /** The signed number that 32 bits stand for. */
  function Wrap(v: int): int {
    if U32(v) <= INT_MAX then U32(v) else U32(v) - UINT_RANGE
  }

  lemma MulMonotone(a: int, b: int, m: int)
    requires m >= 0 && a <= b
    ensures a * m <= b * m
  {
  }

  lemma LessTimes(a: int, b: int, m: int, r: int)
    requires a < b && 0 <= r < m
    ensures m * a + r < m * b
  {
    MulMonotone(a + 1, b, m);
  }

  lemma DivMod(x: int, m: int)
    requires m > 0
    ensures x == x / m * m + x % m && 0 <= x % m < m
  {
  }

  lemma DivUnique(x: int, q: int, r: int, m: int)
    requires m > 0 && 0 <= r < m && x == q * m + r
    ensures x / m == q && x % m == r
  {
    DivMod(x, m);
    if x / m > q {
      MulMonotone(q + 1, x / m, m);
    } else if x / m < q {
      MulMonotone(x / m + 1, q, m);
    }
  }

  /** Comparing a quotient is comparing with a multiple. */
  lemma DivAtLeast(x: int, q: int, m: int)
    requires m > 0
    ensures x / m >= q <==> x >= q * m
  {
    DivMod(x, m);
    if x / m >= q {
      MulMonotone(q, x / m, m);
    } else {
      MulMonotone(x / m + 1, q, m);
    }
  }

  /** What adding one does to a quotient. */
  lemma NextQuotient(n: nat, m: nat)
    requires m >= 1
    ensures 0 <= n % m < m
    ensures if n % m + 1 == m then (n + 1) / m == n / m + 1 && (n + 1) % m == 0
            else (n + 1) / m == n / m && (n + 1) % m == n % m + 1
  {
    DivMod(n, m);
    if n % m + 1 == m {
      DivUnique(n + 1, n / m + 1, 0, m);
    } else {
      DivUnique(n + 1, n / m, n % m + 1, m);
    }
  }

  lemma QuotientOfQuotient(d: nat, p: nat, q: nat)
    requires p >= 1 && q >= 1
    ensures p * q >= 1 && d / p / q == d / (p * q)
  {
    DivMod(d, p);
    DivAtLeast(d, 0, p);
    DivMod(d / p, q);
    DivAtLeast(d / p, 0, q);
    var a, b, c := d / p / q, d / p % q, d % p;
    assert d == a * (p * q) + (b * p + c) by {
      assert a * q * p == a * (p * q);
      assert (a * q + b) * p == a * q * p + b * p;
    }
    MulMonotone(b + 1, q, p);
    MulMonotone(0, b, p);
    assert (b + 1) * p == b * p + p;
    assert q * p == p * q;
    DivUnique(d, a, b * p + c, p * q);
  }

  lemma OneMultipleLess(d: int, m: int)
    requires m >= 1 && d >= 1 && d % m == 0
    ensures d >= m && (d - m) % m == 0
  {
    DivMod(d, m);
    if d < m {
      DivUnique(d, 0, d, m);
    }
    assert d - m == (d / m - 1) * m;
    DivUnique(d - m, d / m - 1, 0, m);
  }

  function Pow2(n: nat): nat { if n == 0 then 1 else 2 * Pow2(n - 1) }

  lemma {:induction false} Pow2Positive(n: nat)
    ensures Pow2(n) >= 1
  {
    if n == 0 {
    } else {
      Pow2Positive(n - 1);
    }
  }

  lemma {:induction false} Pow2Add(m: nat, n: nat)
    ensures Pow2(m + n) == Pow2(m) * Pow2(n)
  {
    if m == 0 {
    } else {
      Pow2Add(m - 1, n);
    }
  }
}
