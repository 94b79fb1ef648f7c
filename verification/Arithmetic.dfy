/** Division of natural numbers, where the verifier needs help. */
module Arithmetic {
  lemma {:induction false} Scaled(d: nat, a: nat, b: nat)
    requires a < b
    ensures d * a + d <= d * b
  {
    if b == a + 1 {
      assert d * (a + 1) == d * a + d;
    } else {
      Scaled(d, a, b - 1);
      assert d * b == d * (b - 1) + d;
    }
  }

  lemma QuotientIs(n: nat, d: nat, q: nat, r: nat)
    requires n == d * q + r && r < d
    ensures n / d == q
  {
    if n / d > q {
      Scaled(d, q, n / d);
    } else if n / d < q {
      Scaled(d, n / d, q);
    }
  }

  /** Dividing twice is dividing by the product. */
  lemma DivideTwice(n: nat, a: nat, b: nat)
    requires a > 0 && b > 0
    ensures a * b > 0 && n / a / b == n / (a * b)
  {
    var m := n / a;
    Parts(n, a);
    Parts(m, b);
    Together(n, a, b, m, n % a, m / b, m % b);
    QuotientIs(n, a * b, m / b, a * (m % b) + n % a);
  }

  lemma Parts(n: nat, d: nat)
    requires d > 0
    ensures n == d * (n / d) + n % d && 0 <= n / d && 0 <= n % d < d
  {
  }

  lemma Together(n: nat, a: nat, b: nat, m: nat, r: nat, q: nat, s: nat)
    requires n == a * m + r && r < a && m == b * q + s && s < b
    ensures a * b > 0 && n == (a * b) * q + (a * s + r) && a * s + r < a * b
  {
    Scaled(a, s, b);
    Spread(a, b, q, s);
  }

  lemma Spread(a: nat, b: nat, q: nat, s: nat)
    ensures a * (b * q + s) == (a * b) * q + a * s
  {
    assert a * (b * q + s) == a * (b * q) + a * s;
    assert a * (b * q) == (a * b) * q;
  }
}
