/** Converting an unsigned machine integer to a floating point number of 53 bits, and back. */
module Doubles {
  import opened Arithmetic
  import opened Text

  /** The first number that needs more than 53 bits; up to it every integer is a double. */
  const TWO53: nat := 0x20_0000_0000_0000

  /** The distance between neighbouring doubles around `n`. */
  function Spacing(n: nat): (u: nat)
    ensures u >= 1
  {
    if n < TWO53 then 1 else 2 * Spacing(n / 2)
  }

  /** The multiple of `u` nearest to `n`; halfway between two, the even one. */
  function NearestMultiple(n: nat, u: nat): (d: nat)
    requires u >= 1
    ensures 2 * d <= 2 * n + u && 2 * n <= 2 * d + u
  {
    if n >= 2 * u then 2 * u + NearestMultiple(n - 2 * u, u)
    else if 2 * n <= u then 0
    else if 2 * n < 3 * u then u
    else 2 * u
  }

  /** The nearest double. */
  function ToDouble(n: nat): nat { NearestMultiple(n, Spacing(n)) }

  lemma {:induction false} EvenMultiple(n: nat, v: nat) returns (h: nat)
    requires v >= 1
    ensures NearestMultiple(n, 2 * v) == 2 * h
  {
    if n >= 4 * v {
      h := EvenMultiple(n - 4 * v, v);
      h := 2 * v + h;
    } else if n <= v {
      h := 0;
    } else if n < 3 * v {
      h := v;
    } else {
      h := 2 * v;
    }
  }

  lemma OneMultiple(n: nat, u: nat)
    requires u >= 1
    ensures NearestMultiple(2 * u + n, u) == 2 * u + NearestMultiple(n, u)
  {
  }

  lemma {:induction false} PastMultiples(q: nat, r: nat, u: nat)
    requires u >= 1
    ensures NearestMultiple(2 * u * q + r, u) == 2 * u * q + NearestMultiple(r, u)
  {
    if q > 0 {
      MulStep(2 * u, q - 1);
      PastMultiples(q - 1, r, u);
      OneMultiple(2 * u * (q - 1) + r, u);
    }
  }

  lemma SmallIsExact(n: nat)
    requires n <= TWO53
    ensures ToDouble(n) == n
  {
    if n == TWO53 {
      assert Spacing(n / 2) == 1;
      PastMultiples(TWO53 / 4, 0, 2);
    }
  }

  /** Above 53 bits every double is even. */
  lemma LargeIsEven(n: nat) returns (h: nat)
    requires n >= TWO53
    ensures ToDouble(n) == 2 * h
  {
    h := EvenMultiple(n, Spacing(n / 2));
  }

  lemma OddIsExact(n: nat)
    ensures ToDouble(n) % 2 == 1 ==> ToDouble(n) == n
  {
    if n < TWO53 {
      SmallIsExact(n);
    } else {
      var h := LargeIsEven(n);
    }
  }

  function Doubling(k: nat): nat { if k == 0 then 1 else 2 * Doubling(k - 1) }

  lemma {:induction false} SpacingAtMost(n: nat, k: nat)
    requires n < TWO53 * Doubling(k)
    ensures Spacing(n) <= Doubling(k)
    decreases k
  {
    if n >= TWO53 {
      assert k > 0;
      SpacingAtMost(n / 2, k - 1);
    }
  }

  lemma {:induction false} SpacingOfRange(n: nat, k: nat)
    requires k >= 1 && TWO53 * Doubling(k - 1) <= n < TWO53 * Doubling(k)
    ensures Spacing(n) == Doubling(k)
    decreases k
  {
    if k > 1 {
      SpacingOfRange(n / 2, k - 1);
    }
  }

  /** A 64-bit number moves by at most 1024. */
  lemma WordMovesLittle(n: nat)
    requires n < TWO64
    ensures n <= ToDouble(n) + 1024 && ToDouble(n) <= n + 1024
  {
    assert Doubling(6) == 64;
    assert Doubling(11) == 2048;
    SpacingAtMost(n, 11);
  }

  /** `p` is nearer to `n` than its neighbours at distance `u`, or as near as one of them and an even multiple. */
  predicate Nearest(n: nat, u: nat, q: nat, p: nat) {
    || (2 * n < 2 * p + u && 2 * p < 2 * n + u)
    || ((2 * n == 2 * p + u || 2 * p == 2 * n + u) && q % 2 == 0)
  }

  lemma SmallMultiple(u: nat, q: nat, p: nat)
    requires p == q * u
    ensures q == 1 ==> p == u
    ensures q == 2 ==> p == 2 * u
    ensures q >= 3 ==> p >= 3 * u
    ensures q >= 2 ==> p - 2 * u == (q - 2) * u
    ensures q < 2 ==> p <= u
  {
    if q >= 3 {
      MulMono(u, 3, q);
    }
  }

  lemma NearestBelowTwo(n: nat, u: nat, q: nat, p: nat)
    requires n < 2 * u && p == q * u
    ensures NearestMultiple(n, u) == p <==> Nearest(n, u, q, p)
  {
    SmallMultiple(u, q, p);
  }

  lemma NearestShift(n: nat, u: nat, q: nat, p: nat)
    requires u >= 1 && n >= 2 * u && p >= 2 * u && q >= 2
    ensures Nearest(n - 2 * u, u, q - 2, p - 2 * u) <==> Nearest(n, u, q, p)
  {
  }

  lemma {:induction false} NearestProduct(n: nat, u: nat, q: nat, p: nat)
    requires u >= 1 && p == q * u
    ensures NearestMultiple(n, u) == p <==> Nearest(n, u, q, p)
    decreases n
  {
    if n < 2 * u {
      NearestBelowTwo(n, u, q, p);
    } else {
      SmallMultiple(u, q, p);
      if q >= 2 {
        MulMono(u, 2, q);
        NearestProduct(n - 2 * u, u, q - 2, p - 2 * u);
        NearestShift(n, u, q, p);
      }
    }
  }

  /** A multiple is what a number is rounded to exactly when it is the nearest one, the even one of two. */
  lemma NearestExactly(n: nat, u: nat, q: nat)
    requires u >= 1
    ensures NearestMultiple(n, u) == q * u <==> Nearest(n, u, q, q * u)
  {
    NearestProduct(n, u, q, q * u);
  }

  lemma TiesGoToEven()
    ensures ToDouble(0x20_0000_0000_0001) == 0x20_0000_0000_0000
    ensures ToDouble(0x20_0000_0000_0003) == 0x20_0000_0000_0004
  {
    assert Spacing(0x10_0000_0000_0000) == 1 && Spacing(0x10_0000_0000_0001) == 1;
    NearestExactly(0x20_0000_0000_0001, 2, 0x10_0000_0000_0000);
    NearestExactly(0x20_0000_0000_0003, 2, 0x10_0000_0000_0002);
  }
}
