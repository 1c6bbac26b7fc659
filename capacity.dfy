/**
 * The table capacities of DictHash: isprime, nextprime and the integer
 * square root isprime bounds its factors by.
 */
module Capacity {
  /**
   * What isprime decides. It tries the factors 2, 4, 6, ... only, so below 4
   * it accepts everything and from 4 on it accepts exactly the odd numbers
   * (9, 15 and 21 pass; the capacities are odd, not prime).
   */
  predicate PassesPrimeTest(n: nat)
  {
    n < 4 || n % 2 == 1
  }

  /** `static_cast<size_t>(std::sqrt(n))`, taken as the exact integer square root. */
  method FloorSqrt(n: nat) returns (r: nat)
    ensures r * r <= n < (r + 1) * (r + 1)
  {
    r := 0;
    while (r + 1) * (r + 1) <= n
      invariant r * r <= n
      decreases n - r * r
    {
      r := r + 1;
    }
  }

  /** A number with an even divisor is even. */
  lemma EvenDivisor(n: nat, f: nat)
    requires f >= 2 && f % 2 == 0 && n % f == 0
    ensures n % 2 == 0
  {
    var q := n / f;
    var h := f / 2;
    assert n == f * q;
    assert f * q == 2 * (h * q);
  }

  /** The integer square root of n is at least 2 exactly when n is at least 4. */
  lemma SqrtFromFour(n: nat, r: nat)
    requires r * r <= n < (r + 1) * (r + 1)
    ensures n >= 4 <==> r >= 2
  {
    if r >= 2 {
      assert r * r >= 2 * r;
    }
  }

  /** isprime: trial division by 2, 4, 6, ... below floor(sqrt(n)) + 1. */
  method IsPrime(n: nat) returns (b: bool)
    ensures b == PassesPrimeTest(n)
  {
    var root := FloorSqrt(n);
    var limit := root + 1;
    SqrtFromFour(n, root);
    var factor := 2;
    while factor < limit
      invariant 2 <= factor <= limit + 1 && factor % 2 == 0
      invariant factor > 2 ==> n % 2 != 0
      decreases limit + 1 - factor
    {
      if n % factor == 0 {
        EvenDivisor(n, factor);
        return false;
      }
      factor := factor + 2;
    }
    return true;
  }

  /** nextprime: the least number from n on that passes isprime, but at least 7. */
  method NextPrime(n: nat) returns (p: nat)
    ensures n < 7 ==> p == 7
    ensures n >= 7 ==> n <= p && PassesPrimeTest(p) && forall m :: n <= m < p ==> !PassesPrimeTest(m)
    ensures n >= 7 ==> p == if n % 2 == 1 then n else n + 1
  {
    if n < 7 {
      return 7;
    }
    p := n;
    var accepted := IsPrime(p);
    while !accepted
      invariant n <= p <= n + 1 && accepted == PassesPrimeTest(p)
      invariant forall m :: n <= m < p ==> !PassesPrimeTest(m)
      decreases if p % 2 == 0 then 1 else 0
    {
      p := p + 1;
      accepted := IsPrime(p);
    }
  }
}
