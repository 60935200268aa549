/** Integer division facts the date and progress arithmetic rest on. */
module Arith {

  /** `y / k` steps up by one from `y - 1` exactly when `k` divides `y`. */
  lemma FloorStep(y: int, k: int)
    requires k > 0
    ensures y / k - (y - 1) / k == if y % k == 0 then 1 else 0
  {
    var q, r := (y - 1) / k, (y - 1) % k;
    assert y - 1 == k * q + r;
    if r == k - 1 {
      assert y == k * (q + 1) + 0;
      DivUnique(y, k, q + 1, 0);
    } else {
      DivUnique(y, k, q, r + 1);
    }
  }

  /** Quotient and remainder are the only ones with `0 <= r < k`. */
  lemma DivUnique(n: int, k: int, q: int, r: int)
    requires k > 0 && 0 <= r < k && n == k * q + r
    ensures n / k == q && n % k == r
  {
    var q', r' := n / k, n % k;
    assert n == k * q' + r';
    if q' < q {
      MulStep(k, q', q);
    } else if q < q' {
      MulStep(k, q, q');
    }
  }

  lemma {:induction false} MulStep(k: int, a: int, b: int)
    requires k > 0 && a < b
    ensures k * a + k <= k * b
    decreases b - a
  {
    assert k * b == k * (b - 1) + k;
    if a < b - 1 {
      MulStep(k, a, b - 1);
    }
  }

  /** `n / k == q` exactly when `k * q <= n < k * q + k`. */
  lemma DivIs(n: int, k: int, q: int)
    requires k > 0
    ensures n / k == q <==> k * q <= n < k * q + k
  {
    if k * q <= n < k * q + k {
      DivUnique(n, k, q, n - k * q);
    }
  }
}
