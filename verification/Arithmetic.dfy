/** Division with remainder. */
module Arithmetic {

  lemma ModuloSmall(a: nat, b: nat)
    requires a < b
    ensures a % b == a
  {
  }

  lemma ModuloTurn(a: nat, b: nat)
    requires 0 < b <= a
    ensures a % b == (a - b) % b
  {
    var q, r := (a - b) / b, (a - b) % b;
    assert a - b == q * b + r;
    assert (q + 1) * b == q * b + b;
    Quotient(a, b, q + 1, r);
  }

  lemma Quotient(a: nat, b: nat, q: nat, r: nat)
    requires 0 < b && a == q * b + r && r < b
    ensures a % b == r && a / b == q
  {
    var q', r' := a / b, a % b;
    assert a == q' * b + r';
    if q' < q {
      assert (q - q') * b == q * b - q' * b;
      Multiple(q - q', b);
    } else if q' > q {
      assert (q' - q) * b == q' * b - q * b;
      Multiple(q' - q, b);
    }
  }

  lemma Multiple(k: nat, b: nat)
    requires k > 0
    ensures k * b >= b
  {
  }
}
