/** Facts about integer multiplication and floor division that the index arithmetic of the
    binning loop relies on. The solver does not find these on its own. */
module Arith {

  /** Multiplying both sides of an inequality by a non-negative factor keeps it. */
  lemma MulMonotone(a: int, b: int, c: int)
    requires a <= b && 0 <= c
    ensures a * c <= b * c
  {
    assert b * c - a * c == (b - a) * c;
  }

  /** Floor division by a positive divisor leaves a remainder in `[0, n)`. */
  lemma DivBounds(a: int, n: int)
    requires 0 < n
    ensures (a / n) * n <= a < (a / n) * n + n
  {
    assert a == (a / n) * n + a % n;
  }

  /** A non-negative dividend below `n * m` has a quotient by `n` in `[0, m)`. */
  lemma DivBelow(p: int, n: int, m: int)
    requires 0 <= p && 0 < n && p < n * m
    ensures 0 <= p / n < m
  {
    var q := p / n;
    DivBounds(p, n);
    if q < 0 {
      MulMonotone(q + 1, 0, n);
    }
    if q >= m {
      MulMonotone(m, q, n);
    }
  }

  /** Floor division by a positive divisor: the quotient is the unique `q` with
      `q * n <= a < q * n + n`, and the remainder is what is left. */
  lemma DivIsUnique(a: int, n: int, q: int)
    requires 0 < n && q * n <= a < q * n + n
    ensures a / n == q && a % n == a - q * n
  {
    var d, m := a / n, a % n;
    assert a == d * n + m && 0 <= m < n;
    if d < q {
      assert (d + 1) * n == d * n + n;
      MulMonotone(d + 1, q, n);
    } else if d > q {
      assert (q + 1) * n == q * n + n;
      MulMonotone(q + 1, d, n);
    }
  }

  /** Quotient and remainder of `q * n + r` for `0 <= r < n`. */
  lemma DivModOfSum(q: int, n: int, r: int)
    requires 0 <= r < n
    ensures (q * n + r) / n == q && (q * n + r) % n == r
  {
    DivIsUnique(q * n + r, n, q);
  }

  /** Blocks `[s * n, s * n + n)` of a positive size `n` are disjoint: an index `k * n + o` with
      `0 <= o < n` lies in block `s` exactly when `k == s`. */
  lemma InBlockIff(k: int, s: int, n: int, o: int)
    requires 0 <= o < n
    ensures s * n <= k * n + o < s * n + n <==> k == s
  {
    if k < s {
      MulMonotone(k + 1, s, n);
      assert (k + 1) * n == k * n + n;
    } else if k > s {
      MulMonotone(s + 1, k, n);
      assert (s + 1) * n == s * n + n;
    }
  }
}
