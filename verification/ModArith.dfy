/** Facts about `/` and `%` by a positive, otherwise arbitrary modulus. */
module ModArith {

  lemma AtLeastOnce(d: int, n: int)
    requires 1 <= d && 0 <= n
    ensures n <= d * n
  {
  }

  lemma QuotientUnique(q: int, r: int, q': int, r': int, n: int)
    requires 0 <= r < n && 0 <= r' < n && q * n + r == q' * n + r'
    ensures q == q'
  {
    assert (q - q') * n == r' - r;
    assert (q' - q) * n == r - r';
    if q > q' {
      AtLeastOnce(q - q', n);
    } else if q < q' {
      AtLeastOnce(q' - q, n);
    }
  }

  lemma DivModUnique(a: int, q: int, r: int, n: int)
    requires 0 <= r < n && a == q * n + r
    ensures a / n == q && a % n == r
  {
    QuotientUnique(q, r, a / n, a % n, n);
  }

  /** Adding two residues wraps at most once. */
  lemma ModSum(a: int, r: int, n: int)
    requires 0 <= a < n && 0 <= r < n
    ensures (a + r) % n == if a + r < n then a + r else a + r - n
  {
  }

  lemma ModDifference(a: int, b: int, n: int)
    requires 0 <= a < n && 0 <= b < n
    ensures (a - b) % n == if a >= b then a - b else a - b + n
  {
  }

  lemma ModShift(a: int, c: int, n: int)
    requires 1 <= n
    ensures (a + c) % n == (a + c % n) % n
  {
    var q := (a + c % n) / n;
    var r := (a + c % n) % n;
    assert a + c == (q + c / n) * n + r by {
      assert c == (c / n) * n + c % n;
      assert a + c % n == q * n + r;
      assert (q + c / n) * n == q * n + (c / n) * n;
    }
    DivModUnique(a + c, q + c / n, r, n);
  }

  lemma ModSuccessor(u: int, n: int)
    requires 1 <= n
    ensures (u + 1) % n == if u % n == n - 1 then 0 else u % n + 1
    ensures (u + 1) / n == u / n + if u % n == n - 1 then 1 else 0
  {
    var q, r := u / n, u % n;
    if r == n - 1 {
      assert u + 1 == (q + 1) * n + 0;
      DivModUnique(u + 1, q + 1, 0, n);
    } else {
      DivModUnique(u + 1, q, r + 1, n);
    }
  }
}
