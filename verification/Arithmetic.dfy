/** Multiplication and division by a variable. */
module Arithmetic {
  lemma MulMonotone(a: int, b: int, d: nat)
    requires a <= b
    ensures a * d <= b * d
  {
    assert b * d == a * d + (b - a) * d;
  }

  lemma MulDistributes(a: int, b: int, d: int)
    ensures (a + b) * d == a * d + b * d
  {
  }

  lemma Division(x: nat, d: nat)
    requires d > 0
    ensures x == x / d * d + x % d && 0 <= x % d < d
  {
  }

  lemma QuotientNat(x: nat, d: nat)
    requires d > 0
    ensures x / d >= 0
  {
    Division(x, d);
    if x / d < 0 { MulMonotone(x / d, -1, d); }
  }

  lemma QuotientUnique(d: nat, q: int, r: nat, p: int, s: nat)
    requires r < d && s < d && q * d + r == p * d + s
    ensures q == p && r == s
  {
    if q < p {
      MulDistributes(q, 1, d);
      MulMonotone(q + 1, p, d);
    } else if p < q {
      MulDistributes(p, 1, d);
      MulMonotone(p + 1, q, d);
    }
  }

  lemma QuotientOf(q: nat, d: nat, r: nat, x: nat)
    requires d > 0 && r < d && x == q * d + r
    ensures x / d == q && x % d == r
  {
    Division(x, d);
    QuotientUnique(d, q, r, x / d, x % d);
  }

  lemma QuotientMonotone(a: nat, b: nat, d: nat)
    requires d > 0 && a <= b
    ensures a / d <= b / d
  {
    Division(a, d);
    Division(b, d);
    if b / d < a / d {
      MulDistributes(b / d, 1, d);
      MulMonotone(b / d + 1, a / d, d);
    }
  }

  lemma QuotientOfQuotient(x: nat, c: nat, d: nat)
    requires c > 0 && d > 0
    ensures c * d > 0 && x / c / d == x / (c * d)
  {
    Division(x, c);
    QuotientNat(x, c);
    var q, r := x / c, x % c;
    Division(q, d);
    QuotientNat(q, d);
    MulDistributes(q / d * d, q % d, c);
    MulMonotone(q % d, d - 1, c);
    MulDistributes(d, -1, c);
    assert q / d * d * c == q / d * (c * d);
    QuotientOf(q / d, c * d, q % d * c + r, x);
  }
}
