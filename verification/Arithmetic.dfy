/** Word sizes, and the facts about division that the other modules need. */
module Arithmetic {

  const U32 := 0x1_0000_0000
  const U64 := 0x1_0000_0000_0000_0000

  lemma MulAtLeast(k: int, d: int)
    requires k >= 1 && d > 0
    ensures k * d >= d
  {
  }

  lemma MulMono(p: nat, a: nat, b: nat)
    requires a <= b
    ensures p * a <= p * b
  {
  }

  /** Quotient and remainder are determined by the equation between them. */
  lemma QuotientUnique(n: int, d: int, q: int, r: int)
    requires d > 0 && 0 <= r < d && n == q * d + r
    ensures n / d == q && n % d == r
  {
    var q', r' := n / d, n % d;
    assert n == d * q' + r';
    assert (q - q') * d == q * d - d * q';
    assert (q' - q) * d == d * q' - q * d;
    if q > q' {
      MulAtLeast(q - q', d);
    } else if q < q' {
      MulAtLeast(q' - q, d);
    }
  }

  lemma QuotientStep(n: int, d: int)
    requires n >= d > 0
    ensures n / d == (n - d) / d + 1 && n % d == (n - d) % d
  {
    var q, r := (n - d) / d, (n - d) % d;
    assert n == (q + 1) * d + r;
    QuotientUnique(n, d, q + 1, r);
  }

  lemma QuotientBelow(n: nat, d: nat)
    requires d > 0
    ensures n < (n / d + 1) * d
  {
    assert n == d * (n / d) + n % d;
    assert (n / d + 1) * d == d * (n / d) + d;
  }

  /** Numbers that are a divisor apart have different quotients. */
  lemma QuotientGap(a: nat, b: nat, p: nat)
    requires 0 < p && a + p <= b
    ensures a / p < b / p
  {
    var q := a / p;
    assert a == p * q + a % p;
    assert p * (q + 1) == p * q + p;
    assert b == p * (b / p) + b % p;
    if b / p <= q {
      MulMono(p, b / p, q);
    }
  }
}
