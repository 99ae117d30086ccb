/** Facts about division the solver does not find by itself. */
module Division {
  lemma Larger(a: nat, b: nat, d: nat)
    requires a > b
    ensures a * d >= b * d + d
  {
    assert a * d == b * d + (a - b) * d;
    assert (a - b) * d == d + (a - b - 1) * d;
  }

  /** A quotient and a remainder that fit are the quotient and the remainder. */
  lemma DivisionIs(n: nat, d: nat, q: nat, r: nat)
    requires r < d && n == q * d + r
    ensures n / d == q && n % d == r
  {
    var q', r' := n / d, n % d;
    assert n == q' * d + r';
    if q' > q {
      Larger(q', q, d);
    } else if q > q' {
      Larger(q, q', d);
    }
  }

  lemma NestedDivision(n: nat, a: nat, b: nat)
    requires a > 0 && b > 0
    ensures a * b > 0 && n / (a * b) == n / a / b
  {
    var q, r := n / a, n % a;
    var q2, r2 := q / b, q % b;
    assert n == q * a + r && q == q2 * b + r2;
    assert (q2 * b + r2) * a == q2 * (a * b) + r2 * a;
    Larger(b, r2, a);
    assert b * a == a * b;
    DivisionIs(n, a * b, q2, r2 * a + r);
  }
}
