/** Division with a variable divisor. */
module Arith {

  lemma MulBound(m: int, e: int)
    requires m > 0
    ensures e >= 1 ==> m * e >= m
    ensures e <= -1 ==> m * e <= -m
  {
    assert m * e == m * (e - 1) + m;
    assert m * e == m * (e + 1) - m;
    if e >= 1 { assert m * (e - 1) >= 0; }
    if e <= -1 { assert m * (e + 1) <= 0; }
  }

  lemma NonNegative(a: nat, b: nat)
    ensures a * b >= 0
  {
  }

  /** A number below `k` divisors has fewer than `k` of them in it, rounded up at most `k`. */
  lemma BelowMultiple(n: nat, m: int, k: int)
    requires m > 0 && n < k * m
    ensures n / m < k
  {
    var q := n / m;
    assert n == m * q + n % m;
    assert m * (q - k) == m * q - m * k;
    MulBound(m, q - k);
  }

  lemma MulAssoc(a: int, b: int, c: int)
    ensures (a * b) * c == a * (b * c)
  {
  }

  lemma DivModUnique(m: int, q: int, r: int)
    requires 0 <= r < m
    ensures (m * q + r) / m == q && (m * q + r) % m == r
  {
    var d := m * q + r;
    var e := d / m - q;
    assert d == m * (d / m) + d % m;
    assert m * e == m * (d / m) - m * q;
    MulBound(m, e);
  }

  lemma ModShift(n: int, a: int, k: int)
    requires n > 0
    ensures (a % n + k) % n == (a + k) % n
  {
    var q := (a % n + k) / n;
    var r := (a % n + k) % n;
    assert a % n + k == n * q + r;
    assert a == n * (a / n) + a % n;
    assert a + k == n * (a / n + q) + r by {
      assert n * (a / n + q) == n * (a / n) + n * q;
    }
    DivModUnique(n, a / n + q, r);
  }

  /** Taking away or adding one divisor. */
  lemma DivStep(n: int, m: int)
    requires m > 0
    ensures n / m == (n - m) / m + 1 && n % m == (n - m) % m
  {
    var q, r := (n - m) / m, (n - m) % m;
    assert n - m == m * q + r;
    assert n == m * (q + 1) + r by { assert m * (q + 1) == m * q + m; }
    DivModUnique(m, q + 1, r);
  }

  lemma ModSmall(n: int, m: int)
    requires 0 <= n < m
    ensures n / m == 0 && n % m == n
  {
  }

  /** Two numbers closer than the divisor have different remainders. */
  lemma ModDistinct(n: int, a: int, b: int)
    requires n > 0 && a != b && -n < a - b < n
    ensures a % n != b % n
  {
    var e := a / n - b / n;
    assert a == n * (a / n) + a % n && b == n * (b / n) + b % n;
    assert n * e == n * (a / n) - n * (b / n);
    MulBound(n, e);
  }
}
