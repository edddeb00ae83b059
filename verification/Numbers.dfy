/** Division with remainder, for the codecs and the round-robin. */
module Numbers {

  lemma MultipleIsLarge(m: nat, d: int)
    ensures d > 0 ==> m * d >= m
    ensures d < 0 ==> m * d <= -1 * m
  {
    if d > 0 {
      assert m * d == m * (d - 1) + m;
    }
    if d < 0 {
      assert m * d == m * (d + 1) - m;
    }
  }

  /** Quotient and remainder are unique. */
  lemma QuotientIs(x: int, m: nat, q: int, r: int)
    requires x == m * q + r && 0 <= r < m
    ensures x / m == q && x % m == r
  {
    var d := x / m - q;
    assert x == m * (x / m) + x % m;
    assert m * d == m * (x / m) - m * q;
    MultipleIsLarge(m, d);
  }

  /** Whole multiples do not show in a remainder. */
  lemma ModShift(r: int, m: nat, q: int)
    requires m > 0
    ensures (m * q + r) % m == r % m
  {
    assert m * q + r == m * (q + r / m) + r % m by {
      assert r == m * (r / m) + r % m;
      assert m * (q + r / m) == m * q + m * (r / m);
    }
    QuotientIs(m * q + r, m, q + r / m, r % m);
  }

  lemma ModAdd(x: int, y: int, m: nat)
    requires m > 0
    ensures (x % m + y) % m == (x + y) % m
  {
    assert x + y == m * (x / m) + (x % m + y);
    ModShift(x % m + y, m, x / m);
  }
}
