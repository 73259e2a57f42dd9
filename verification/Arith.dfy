/** Facts about division and remainder by a variable. */
module Arith {
  lemma TimesMonotone(a: nat, b: nat, c: nat)
    requires a <= b
    ensures c * a <= c * b && a * c <= b * c
  {
  }

  /** Quotient and remainder are the only ones. */
  lemma DivModUnique(n: nat, d: nat, q: nat, r: nat)
    requires d >= 1 && n == d * q + r && r < d
    ensures n / d == q && n % d == r
  {
    var q', r' := n / d, n % d;
    assert n == d * q' + r';
    if q < q' {
      TimesMonotone(q + 1, q', d);
    } else if q' < q {
      TimesMonotone(q' + 1, q, d);
    }
  }

  lemma ModAddMultiple(x: nat, k: nat, d: nat)
    requires d >= 1
    ensures (x + k * d) % d == x % d
  {
    assert x + k * d == d * (x / d + k) + x % d;
    DivModUnique(x + k * d, d, x / d + k, x % d);
  }

  lemma MultipleMod(d: nat, q: nat)
    requires d >= 1
    ensures (d * q) % d == 0
  {
    DivModUnique(d * q, d, q, 0);
  }

  lemma ModNext(x: nat, d: nat)
    requires d >= 1
    ensures (x % d + 1) % d == (x + 1) % d
  {
    assert x + 1 == x % d + 1 + x / d * d;
    ModAddMultiple(x % d + 1, x / d, d);
  }
}
