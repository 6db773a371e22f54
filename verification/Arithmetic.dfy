/** Division of products, where the solver needs help. */
module Arithmetic {

  lemma {:induction false} MulMonotone(a: nat, b: nat, c: nat)
    requires a <= b
    ensures a * c <= b * c
  {
  }

  lemma {:induction false} ModOfMultiple(k: nat, s: nat)
    requires s > 0
    ensures (k * s) % s == 0 && (k * s) / s == k
  {
    DivModUnique(k * s, s, k, 0);
  }

  lemma {:induction false} DivModUnique(x: nat, s: nat, q: nat, r: nat)
    requires s > 0 && r < s && x == q * s + r
    ensures x / s == q && x % s == r
  {
    var q', r' := x / s, x % s;
    assert x == q' * s + r';
    if q' < q {
      MulMonotone(q' + 1, q, s);
    } else if q < q' {
      MulMonotone(q + 1, q', s);
    }
  }

  lemma {:induction false} QuotientIs(x: nat, b: nat, q: nat)
    requires b > 0 && q * b <= x < q * b + b
    ensures x / b == q
  {
    DivModUnique(x, b, q, x - q * b);
  }

  lemma {:induction false} MultipleIs(x: nat, b: nat) returns (q: nat)
    requires b > 0 && x % b == 0
    ensures x == q * b
  {
    q := x / b;
  }
}
