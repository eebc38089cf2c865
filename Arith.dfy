/** Facts about floor division of natural numbers that the cell and grid proofs lean on. */
module Arith {

  /** If `q` copies of `n` fit into `x`, then `x / n` is at least `q`. */
  lemma DivAtLeast(x: nat, n: nat, q: nat)
    requires n >= 1 && q * n <= x
    ensures q <= x / n
  {
    var d := x / n;
    assert x == d * n + x % n;
    assert q * n < (d + 1) * n;
    MulLessCancel(q, d + 1, n);
  }

  /** If `x` is below `q + 1` copies of `n`, then `x / n` is at most `q`. */
  lemma DivAtMost(x: nat, n: nat, q: nat)
    requires n >= 1 && x < (q + 1) * n
    ensures x / n <= q
  {
    var d := x / n;
    assert x == d * n + x % n;
    assert d * n < (q + 1) * n;
    MulLessCancel(d, q + 1, n);
  }

  /** Quotient and remainder are determined by `x == q*n + r` with `r < n`. */
  lemma DivModUnique(x: nat, n: nat, q: nat, r: nat)
    requires r < n && x == q * n + r
    ensures x / n == q && x % n == r
  {
    DivAtLeast(x, n, q);
    DivAtMost(x, n, q);
  }

  /** Floor division by a positive number is monotone. */
  lemma DivMono(x: nat, y: nat, n: nat)
    requires n >= 1 && x <= y
    ensures x / n <= y / n
  {
    assert x == (x / n) * n + x % n;
    DivAtLeast(y, n, x / n);
  }

  /** Dividing a sum loses at most one against dividing its parts. */
  lemma DivOfSum(m: nat, e: nat, n: nat)
    requires n >= 1
    ensures m / n + e / n <= (m + e) / n <= m / n + e / n + 1
  {
    DivOfSumParts(m, e, n, m / n, m % n, e / n, e % n);
  }

  lemma DivOfSumParts(m: nat, e: nat, n: nat, a: nat, r1: nat, q: nat, r2: nat)
    requires r1 < n && r2 < n && m == a * n + r1 && e == q * n + r2
    ensures a + q <= (m + e) / n <= a + q + 1
  {
    MulAddLeft(a, q, n);
    if r1 + r2 < n {
      DivModUnique(m + e, n, a + q, r1 + r2);
    } else {
      MulAddLeft(a + q, 1, n);
      DivModUnique(m + e, n, a + q + 1, r1 + r2 - n);
    }
  }

  /** Reducing the left summand first does not change a sum's remainder. */
  lemma ModAdd(a: nat, b: nat, n: nat)
    requires n >= 1
    ensures ((a % n) + b) % n == (a + b) % n
  {
    ModAddParts(a, b, n, a / n, a % n, (a % n + b) / n, (a % n + b) % n);
  }

  lemma ModAddParts(a: nat, b: nat, n: nat, q: nat, r: nat, q2: nat, r2: nat)
    requires r < n && r2 < n && a == q * n + r && r + b == q2 * n + r2
    ensures (a + b) % n == r2
  {
    MulAddLeft(q, q2, n);
    DivModUnique(a + b, n, q + q2, r2);
  }

  /** A remainder never exceeds the number divided, and equals it below the divisor. */
  lemma ModAtMost(x: nat, n: nat)
    requires n >= 1
    ensures x % n <= x
    ensures x < n ==> x % n == x
  {
    ModAtMostParts(x, n, x / n, x % n);
    if x < n {
      DivModUnique(x, n, 0, x);
    }
  }

  lemma ModAtMostParts(x: nat, n: nat, q: nat, r: nat)
    requires x == q * n + r
    ensures r <= x
  {
  }

  lemma MulAddLeft(a: int, b: int, c: int)
    ensures (a + b) * c == a * c + b * c
  {
  }

  lemma MulAddRight(a: int, b: int, c: int)
    ensures a * (b + c) == a * b + a * c
  {
  }

  lemma MulLessCancel(a: nat, b: nat, n: nat)
    requires a * n < b * n
    ensures a < b
  {
    if a >= b {
      MulMono(b, a, n, n);
    }
  }

  lemma MulMono(a: nat, b: nat, m: nat, n: nat)
    requires a <= b && m <= n
    ensures a * m <= b * n
  {
    assert a * m <= b * m;
    assert b * m <= b * n;
  }
}
