/** Small facts of natural-number multiplication and division that the solver does not find alone. */
module Arith {
  lemma MulMono(a: nat, b: nat, g: nat)
    requires a <= b
    ensures a * g <= b * g
  {
  }

  lemma MulStrict(a: nat, b: nat, g: nat)
    requires a < b && g > 0
    ensures a * g < b * g
  {
  }

  /** A multiple of d leaves no remainder and divides back exactly. */
  lemma MulDiv(k: nat, d: nat)
    requires d > 0
    ensures (k * d) / d == k && (k * d) % d == 0
  {
    DivUnique(k * d, d, k, 0);
  }

  lemma DivUnique(n: nat, d: nat, q: nat, r: nat)
    requires d > 0 && n == q * d + r && r < d
    ensures n / d == q
  {
    var q', r' := n / d, n % d;
    assert n == q' * d + r';
    if q' < q {
      MulMono(q' + 1, q, d);
      assert false;
    } else if q' > q {
      MulMono(q + 1, q', d);
      assert false;
    }
  }

  lemma DivLe(n: nat, s: nat)
    requires s > 0
    ensures n / s <= n
  {
    assert n == (n / s) * s + n % s;
    MulMono(1, s, n / s);
    assert 1 * (n / s) <= s * (n / s);
  }

  /** A multiple of a, written as a sum, leaves no remainder. */
  lemma MultipleAfter(p: nat, a: nat)
    requires a > 0
    ensures (p + (a - p % a)) % a == 0
  {
    var q := p / a;
    assert p == q * a + p % a;
    assert p + (a - p % a) == (q + 1) * a;
    MulDiv(q + 1, a);
  }
}
