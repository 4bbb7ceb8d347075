/** The facts about products and quotients that the solver is not left alone with. */
module Arithmetic {

  lemma {:induction false} MulSteps(k: int, d: int)
    requires d >= 0
    ensures k >= 1 ==> k * d >= d
    ensures k <= -1 ==> k * d <= -d
  {
  }

  lemma {:induction false} MulAssociates(a: int, b: int, c: int)
    ensures a * (b * c) == a * b * c
  {
  }

  lemma {:induction false} MulMonotone(k: nat, a: int, b: int)
    requires a <= b
    ensures k * a <= k * b && a * k <= b * k
    ensures k * b - k * a == k * (b - a)
  {
  }

  /** Quotient and remainder are unique. */
  lemma {:induction false} DivModUnique(n: int, d: nat, q: int, r: nat)
    requires n == q * d + r && r < d
    ensures n / d == q && n % d == r
  {
    var q', r' := n / d, n % d;
    assert n == q' * d + r';
    assert (q' - q) * d == r - r';
    MulSteps(q' - q, d);
  }
}
