/** Division with remainder by a positive number. */
module Division {
  lemma MulAtLeast(m: nat, k: int)
    requires k >= 1
    ensures m * k >= m
  {
    assert m * k == m + m * (k - 1);
  }

  lemma DivUnique(m: nat, x: int, q: int, r: nat)
    requires m > 0 && x == m * q + r && r < m
    ensures x / m == q && x % m == r
  {
    var k := x / m - q;
    assert m * k == r - x % m;
    if k >= 1 {
      MulAtLeast(m, k);
    } else if k <= -1 {
      MulAtLeast(m, -k);
    }
  }

  /** The opposite of a multiple is a multiple. */
  lemma Opposite(m: nat, x: int)
    requires m > 0 && x % m == 0
    ensures (-x) % m == 0
  {
    assert x == m * (x / m);
    assert -x == m * (-(x / m));
    DivUnique(m, -x, -(x / m), 0);
  }
}
