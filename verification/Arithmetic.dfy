/** Division with remainder, as far as handles and blocks need it. */
module Arithmetic {
  lemma Distribute(a: nat, b: nat, n: nat)
    ensures (a + b) * n == a * n + b * n
  {
  }

  lemma Multiple(d: int, n: nat)
    ensures d >= 1 ==> d * n >= n
    ensures d <= -1 ==> d * n + n <= 0
  {
  }

  /** Quotient and remainder are unique. */
  lemma DivisionIs(k: nat, n: nat, q: nat, r: nat)
    requires n > 0 && r < n && k == q * n + r
    ensures k / n == q && k % n == r
  {
    var d := k / n - q;
    assert k == k / n * n + k % n;
    assert d * n == r - k % n;
    Multiple(d, n);
  }

  lemma NextRemainder(k: nat, n: nat)
    requires n > 0
    ensures (k + 1) % n == if k % n == n - 1 then 0 else k % n + 1
  {
    var q, r := k / n, k % n;
    if r == n - 1 {
      assert k + 1 == (q + 1) * n + 0;
      DivisionIs(k + 1, n, q + 1, 0);
    } else {
      DivisionIs(k + 1, n, q, r + 1);
    }
  }

  lemma SameRemainderIff(i: nat, d: nat, n: nat)
    requires n > 0
    ensures i % n == (i + d) % n <==> d % n == 0
  {
    var p, a, q, r := i / n, i % n, d / n, d % n;
    assert i == p * n + a && d == q * n + r;
    Distribute(p, q, n);
    Distribute(p + q, 1, n);
    if a + r < n { DivisionIs(i + d, n, p + q, a + r); } else { DivisionIs(i + d, n, p + q + 1, a + r - n); }
  }

  lemma OneBlockLess(k: nat, n: nat)
    requires 0 < n <= k
    ensures (k - n) % n == k % n && k / n == (k - n) / n + 1
  {
    var q, r := (k - n) / n, (k - n) % n;
    assert k == (q + 1) * n + r by { Distribute(q, 1, n); }
    DivisionIs(k, n, q + 1, r);
  }

  /** Of two numbers less than `n` apart, the larger has the smaller remainder exactly when a multiple of `n` lies
      between them. */
  lemma RemaindersCross(i: nat, j: nat, n: nat)
    requires i < j < i + n
    ensures j % n < i % n <==> i / n != j / n
    ensures i / n != j / n ==> i / n < j / n
  {
    var p, a, q, b := i / n, i % n, j / n, j % n;
    assert i == p * n + a && j == q * n + b;
    assert (q - p) * n == (j - i) + (a - b);
    Multiple(q - p, n);
  }
}
