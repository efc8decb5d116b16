/** Facts about multiplication and Euclidean division by a positive
    divisor, used where the model rounds or buckets integers. */
module IntArith {

  /** For a positive divisor, `n / d` is the largest `q` with `d * q <= n`. */
  lemma DivBracket(n: int, d: int, k: int)
    requires d > 0
    ensures d * (n / d) <= n < d * (n / d + 1)
    ensures n < d * k ==> n / d < k
    ensures d * k <= n ==> k <= n / d
  {
    var q := n / d;
    assert d * q + n % d == n;
    if n < d * k && q >= k {
      MulMono(d, k, q);
    }
    if d * k <= n && k > q {
      MulMono(d, q + 1, k);
    }
  }

  /** Division by a positive divisor is monotone. */
  lemma DivMonotone(a: int, b: int, d: int)
    requires a <= b && d > 0
    ensures a / d <= b / d
  {
    var qa, qb := a / d, b / d;
    assert a == d * qa + a % d && 0 <= a % d;
    assert b == d * qb + b % d && b % d < d;
    if qa > qb {
      MulMono(d, qb + 1, qa);
      assert false;
    }
  }

  lemma MulMono(d: int, x: int, y: int)
    requires d > 0 && x <= y
    ensures d * x <= d * y
  {
    assert d * y - d * x == d * (y - x);
  }
}
