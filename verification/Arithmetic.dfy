/** Small facts about products, quotients and remainders. */
module Arithmetic {
  import opened Text

  lemma MulMono(c: nat, a: nat, b: nat)
    requires a <= b
    ensures c * a <= c * b
  {
  }

  lemma MulStep(c: nat, a: nat)
    ensures c * (a + 1) == c * a + c
  {
  }

  lemma Distribute(d: nat, c: nat, r: nat, h: nat)
    ensures d * (c + r * h) == c * d + d * r * h
  {
  }

  lemma DivisionFacts(n: nat, d: nat)
    requires d > 0
    ensures n == d * (n / d) + n % d && 0 <= n / d && 0 <= n % d < d
  {
  }

  lemma SmallQuotient(n: nat, d: nat)
    requires d > 0
    ensures 0 <= n / d <= n
  {
    DivisionFacts(n, d);
    MulMono(n / d, 1, d);
  }

  lemma RemainderBelow(m: nat, d: nat)
    requires d > 0
    ensures 0 <= m % d <= m
  {
    DivisionFacts(m, d);
    MulMono(d, 0, m / d);
  }

  /** The two digits of a number in a mixed radix are determined by the number. */
  lemma MixedDigitsUnique(d: nat, x: nat, y: nat, x': nat, y': nat)
    requires x < d && x' < d && x + d * y == x' + d * y'
    ensures x == x' && y == y'
  {
    MulStep(d, y);
    MulStep(d, y');
    if y < y' {
      MulMono(d, y + 1, y');
    } else if y' < y {
      MulMono(d, y' + 1, y);
    }
  }

  lemma ThreeDigitsUnique(d: nat, r: nat, x: nat, y: nat, z: nat, x': nat, y': nat, z': nat)
    requires x < d && x' < d && y < r && y' < r
    requires x + d * (y + r * z) == x' + d * (y' + r * z')
    ensures x == x' && y == y' && z == z'
  {
    MixedDigitsUnique(d, x, y + r * z, x', y' + r * z');
    MixedDigitsUnique(r, y, z, y', z');
  }

  lemma DivisionUnique(n: nat, d: nat, q: nat, r: nat)
    requires r < d && n == d * q + r
    ensures n / d == q && n % d == r
  {
    DivisionFacts(n, d);
    MixedDigitsUnique(d, n % d, n / d, r, q);
  }

  /** Numbers less than `p` apart with the same remainder are the same. */
  lemma CongruentNeighbours(p: nat, m: nat, n: nat)
    requires p > 0 && m <= n < m + p && m % p == n % p
    ensures m == n
  {
    DivisionFacts(m, p);
    DivisionFacts(n, p);
    var a, b := m / p, n / p;
    MulStep(p, a);
    if a < b {
      MulMono(p, a + 1, b);
    } else {
      MulMono(p, b, a);
    }
  }

  lemma ShiftKeepsRemainder(m: nat, k: nat, p: nat)
    requires p > 0
    ensures (m + k) % p == m % p <==> k % p == 0
  {
    DivisionFacts(m, p);
    DivisionFacts(k, p);
    var r := m % p + k % p;
    var q := m / p + k / p;
    assert p * q == p * (m / p) + p * (k / p);
    if r < p {
      DivisionUnique(m + k, p, q, r);
    } else {
      MulStep(p, q);
      DivisionUnique(m + k, p, q + 1, r - p);
    }
  }

  /** A 32-bit sum may be cut at any point. */
  lemma WrapAdd(x: nat, y: nat)
    ensures (x % TWO32 + y) % TWO32 == (x + y) % TWO32
  {
  }
}
