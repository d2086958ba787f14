/** Products and quotients of natural numbers. */
module Arithmetic {
  lemma AtMostTimes(a: nat, b: nat, s: nat)
    requires a <= b
    ensures a * s <= b * s
  {
  }

  lemma StepTimes(a: nat, b: nat, s: nat)
    ensures a < b ==> s * a + s <= s * b
  {
    if a < b {
      AtMostTimes(a + 1, b, s);
    }
  }

  /** Division has one result. */
  lemma DivisionUnique(n: nat, s: nat, q: nat, r: nat)
    requires s > 0 && n == s * q + r && r < s
    ensures n / s == q && n % s == r
  {
    var p := n / s;
    assert n == s * p + n % s;
    StepTimes(p, q, s);
    StepTimes(q, p, s);
  }
}
