/** Quotients and remainders by a divisor that is not a literal. */
module Division {

  /** What an unsigned 64-bit variable holds. */
  function U64(x: int): int { x % 0x1_0000_0000_0000_0000 }

  /** A number built from a quotient and a remainder gives them back. */
  lemma Quotient(m: int, q: int, r: int)
    requires 0 < m && 0 <= r < m && 0 <= q
    ensures (q * m + r) / m == q && (q * m + r) % m == r
  {
    var b := q * m + r;
    assert b == (b / m) * m + b % m;
    var d := b / m - q;
    assert d * m == r - b % m;
    assert d >= 1 ==> d * m >= m;
    assert d <= -1 ==> d * m <= -m;
  }

  /** And every number is built from its own. */
  lemma Parts(m: int, b: int)
    requires 0 < m
    ensures b == (b / m) * m + b % m && 0 <= b % m < m
  {
  }

  lemma NonNegative(m: int, b: int)
    requires 0 < m && 0 <= b
    ensures 0 <= b / m
  {
  }

  /** The numbers with quotient `n` are the `w` numbers from `n * w` on. */
  lemma SameQuotient(w: int, n: int, i: int)
    requires 0 < w
    ensures n * w <= i < n * w + w <==> i / w == n
  {
    Parts(w, i);
    var d := i / w - n;
    assert d * w == (i / w) * w - n * w;
    assert d >= 1 ==> d * w >= w;
    assert d <= -1 ==> d * w <= -w;
  }
}
