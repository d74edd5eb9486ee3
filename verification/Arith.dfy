/** Division by a variable, which the solver cannot do on its own. */
module Arith {
  const TWO63: int := 0x8000_0000_0000_0000
  const TWO64: int := 0x1_0000_0000_0000_0000

  lemma {:induction false} Above(m: nat, a: int, b: int)
    requires a < b
    ensures m * b >= m * a + m
  {
    assert m * b == m * a + m * (b - a);
    var x := b - a - 1;
    assert m * (x + 1) == m * x + m;
    assert m * x >= 0;
  }

  /** Quotient and remainder are determined by what they add up to. */
  lemma {:induction false} DivModUnique(n: int, m: nat, k: int, r: int)
    requires m > 0 && n == m * k + r && 0 <= r < m
    ensures n / m == k && n % m == r
  {
    var k', r' := n / m, n % m;
    assert n == m * k' + r';
    if k > k' {
      Above(m, k', k);
    } else if k < k' {
      Above(m, k, k');
    }
  }
}
