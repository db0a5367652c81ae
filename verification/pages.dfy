/** Integer helpers for page arithmetic: `Ceil(n, ps)` is the number of pages of `ps` bytes needed for `n` bytes. */
module Pages {

  function Min(a: int, b: int): int {
    if a <= b then a else b
  }

  function Max(a: int, b: int): int {
    if a >= b then a else b
  }

  /** `Math.ceil(n / ps)` for a non-negative `n` and a positive `ps`. */
  function Ceil(n: nat, ps: nat): nat
    requires ps > 0
  {
    (n + ps - 1) / ps
  }

  lemma MulLess(a: nat, b: nat, ps: nat)
    requires a < b
    ensures a * ps <= b * ps - ps
  {
    var d := b - a;
    assert b * ps == a * ps + d * ps;
    assert d * ps >= ps by {
      assert d >= 1;
    }
  }

  /** Multiplying by a page size keeps the order of page counts. */
  lemma MulMono(a: nat, b: nat, ps: nat)
    requires a <= b
    ensures ps * a <= ps * b
  {
    if a < b {
      MulLess(a, b, ps);
    }
  }

  /** `Ceil(n, ps)` pages hold `n` bytes, and one page fewer would not. */
  lemma CeilBounds(n: nat, ps: nat)
    requires ps > 0
    ensures n <= ps * Ceil(n, ps) < n + ps
  {
    var q := (n + ps - 1) / ps;
    var r := (n + ps - 1) % ps;
    assert n + ps - 1 == q * ps + r;
    assert 0 <= r < ps;
  }

  /** `n` bytes fit in `k` pages exactly when `n <= k * ps`. */
  lemma CeilAtMost(n: nat, ps: nat, k: nat)
    requires ps > 0
    ensures Ceil(n, ps) <= k <==> n <= ps * k
  {
    CeilBounds(n, ps);
    var q := Ceil(n, ps);
    if q <= k {
      if q < k {
        MulLess(q, k, ps);
      }
      assert ps * q <= ps * k;
    } else {
      MulLess(k, q, ps);
      assert ps * k <= ps * q - ps;
    }
  }

  /** More bytes never need fewer pages. */
  lemma CeilMono(n: nat, m: nat, ps: nat)
    requires ps > 0
    ensures n <= m ==> Ceil(n, ps) <= Ceil(m, ps)
  {
    CeilBounds(m, ps);
    CeilAtMost(n, ps, Ceil(m, ps));
  }

  /** Division by a positive divisor has exactly one quotient and remainder. */
  lemma DivUnique(n: nat, ps: nat, q: nat, r: nat)
    requires ps > 0
    requires n == q * ps + r && r < ps
    ensures n / ps == q && n % ps == r
  {
    var q' := n / ps;
    var r' := n % ps;
    assert n == q' * ps + r';
    if q' < q {
      MulLess(q', q, ps);
    } else if q < q' {
      MulLess(q, q', ps);
    }
  }

  /** A whole number of pages is its own page count. */
  lemma CeilOfPages(k: nat, ps: nat)
    requires ps > 0
    ensures Ceil(ps * k, ps) == k
    ensures (ps * k) % ps == 0
  {
    assert ps * k == k * ps;
    DivUnique(ps * k + ps - 1, ps, k, ps - 1);
    DivUnique(ps * k, ps, k, 0);
  }

  /** A page-aligned length is `ps` times its page count. */
  lemma AlignedCeil(n: nat, ps: nat)
    requires ps > 0
    requires n % ps == 0
    ensures ps * Ceil(n, ps) == n
  {
    var q := n / ps;
    assert n == q * ps + n % ps;
    assert n == ps * q;
    CeilOfPages(q, ps);
  }

  /** A page-aligned length of at least `k` pages has at least `k` pages, and exactly `k` only when it is `k` pages long. */
  lemma AlignedAtLeast(n: nat, ps: nat, k: nat)
    requires ps > 0
    requires n % ps == 0
    requires ps * k <= n
    ensures k <= Ceil(n, ps)
    ensures k == Ceil(n, ps) ==> n == ps * k
  {
    AlignedCeil(n, ps);
    if Ceil(n, ps) < k {
      MulLess(Ceil(n, ps), k, ps);
    }
  }
}
