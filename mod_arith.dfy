/** Facts about Euclidean remainder that the wrap-around proofs share. */
module ModArith {

  /** A positive multiple of a positive m is at least m. */
  lemma MulAtLeast(a: int, m: int)
    requires a >= 1 && m > 0
    ensures a * m >= m
  {
    assert a * m == (a - 1) * m + m;
  }

  /** The remainder of d * m + r by m is r, for 0 <= r < m. */
  lemma ModUnique(b: int, d: int, r: int, m: int)
    requires m > 0 && 0 <= r < m && b == d * m + r
    ensures b % m == r
  {
    var q, s := b / m, b % m;
    assert b == q * m + s && 0 <= s < m;
    assert (q - d) * m == q * m - d * m;
    if q > d {
      MulAtLeast(q - d, m);
    } else if q < d {
      assert (d - q) * m == d * m - q * m;
      MulAtLeast(d - q, m);
    }
  }
}
