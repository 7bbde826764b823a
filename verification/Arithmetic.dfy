/** Division with remainder, for divisors that are not constants. */
module Arithmetic {

  lemma ProductIsNat(m: nat, b: nat)
    ensures m * b >= 0
  {
  }

  lemma {:induction false} Steps(m: nat, a: nat, b: nat)
    ensures a < b ==> m * a + m <= m * b
    decreases b
  {
    if a < b {
      Steps(m, a, b - 1);
      OneMore(m, b - 1);
    }
  }

  lemma OneMore(m: nat, b: nat)
    ensures m * (b + 1) == m * b + m
  {
  }

  /** There is only one quotient and one remainder. */
  lemma DivideUnique(v: nat, m: nat, q: nat, r: nat)
    requires m > 0 && v == m * q + r && r < m
    ensures v / m == q && v % m == r
  {
    var q', r' := v / m, v % m;
    assert m * q' + r' == m * q + r;
    Steps(m, q, q');
    Steps(m, q', q);
  }
}
