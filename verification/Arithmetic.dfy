/** Division of naturals, said once so that other proofs need not divide. */
module Arithmetic {

  lemma MulMono(a: nat, b: nat, c: nat)
    requires a <= b
    ensures a * c <= b * c
  {
    assert b * c == a * c + (b - a) * c;
  }

  lemma BigMultiple(k: int, b: int)
    requires k != 0 && b >= 0
    ensures k * b >= b || k * b <= -b
  {
    if k > 0 {
      MulMono(1, k, b);
    } else {
      MulMono(1, -k, b);
      assert -k * b == -(k * b);
    }
  }

  /** The quotient and the remainder are the only ones. */
  lemma DivUnique(a: nat, b: nat, q: nat, r: nat)
    requires r < b && a == q * b + r
    ensures a / b == q && a % b == r
  {
    var q', r' := a / b, a % b;
    assert a == q' * b + r';
    assert (q' - q) * b == r - r';
    if q' != q {
      BigMultiple(q' - q, b);
    }
  }

  lemma Divide(n: nat, p: nat) returns (q: nat, r: nat)
    requires p > 0
    ensures n == q * p + r && r < p && q == n / p && r == n % p
  {
    q, r := n / p, n % p;
  }
}
