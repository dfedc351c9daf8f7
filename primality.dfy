/**
 * The primality test of prime_checker.py: trial division by every candidate
 * from 2 up to and including the exact integer square root of n.
 */
module Primality {

  /** Mathematical primality: at least 2, and no divisor strictly between 1 and n. */
  predicate Prime(n: int) {
    n >= 2 && forall d :: 1 < d < n ==> n % d != 0
  }

  /** The property that makes r the exact integer square root of n. */
  predicate IsRootOf(n: nat, r: nat) {
    r * r <= n < (r + 1) * (r + 1)
  }

  /**
   * The exact integer square root (the value of math.isqrt for n >= 0).
   * It is a specified library function in the source; this body only gives
   * Dafny a definition that meets the specification.
   */
  function Isqrt(n: nat): (r: nat)
    ensures IsRootOf(n, r)
  {
    if n == 0 then 0
    else
      var r := Isqrt(n - 1);
      if (r + 1) * (r + 1) <= n then
        assert (r + 2) * (r + 2) == (r + 1) * (r + 1) + 2 * r + 3;
        r + 1
      else r
  }

  /** Products of non-negative factors are monotone in both factors. */
  lemma MulMonotone(a: int, b: int, c: int, d: int)
    requires 0 <= a <= c && 0 <= b <= d
    ensures a * b <= c * d
  {
    assert a * b <= a * d by {
      assert a * (d - b) >= 0;
    }
    assert a * d <= c * d by {
      assert (c - a) * d >= 0;
    }
  }

  /** There is exactly one integer square root. */
  lemma {:induction false} IsqrtUnique(n: nat, r: nat)
    requires IsRootOf(n, r)
    ensures Isqrt(n) == r
  {
    var s := Isqrt(n);
    if s < r {
      MulMonotone(s + 1, s + 1, r, r);
    } else if r < s {
      MulMonotone(r + 1, r + 1, s, s);
    }
  }

  /** For n >= 2 the square root is strictly below n, so every candidate is a proper divisor. */
  lemma IsqrtBelow(n: nat)
    requires n >= 2
    ensures 1 <= Isqrt(n) < n
  {
    var r := Isqrt(n);
    if r >= n {
      MulMonotone(n, 2, r, r);
    }
  }

  /** No candidate i with 2 <= i < hi divides n. */
  predicate NoDivisorBelow(n: int, hi: int) {
    forall i :: 2 <= i < hi ==> n % i != 0
  }

  /** A multiple of b leaves no remainder. */
  lemma MultipleMod(a: int, b: int)
    requires b > 0
    ensures (a * b) % b == 0
  {
    var q, m := (a * b) / b, (a * b) % b;
    assert a * b == q * b + m;
    assert (a - q) * b == m;
    if a - q > 0 {
      MulMonotone(1, b, a - q, b);
    } else if a - q < 0 {
      MulMonotone(1, b, q - a, b);
    }
  }

  /** A divisor d of n with 1 < d < n comes with its cofactor e, also in (1, n). */
  lemma Cofactor(n: int, d: int) returns (e: int)
    requires n >= 2 && 1 < d < n && n % d == 0
    ensures n == d * e && 1 < e < n && n % e == 0
  {
    e := n / d;
    assert n == d * e;
    if e <= 1 {
      MulMonotone(d, e, d, 1);
    }
    if e >= n {
      MulMonotone(2, n, d, e);
    }
    MultipleMod(d, e);
  }

  /**
   * The soundness of the square-root bound: for n >= 2, having no divisor in
   * [2, isqrt(n)] is the same as being prime.
   */
  lemma SqrtBoundSuffices(n: int)
    requires n >= 2
    ensures Prime(n) <==> NoDivisorBelow(n, Isqrt(n) + 1)
  {
    var r := Isqrt(n);
    IsqrtBelow(n);
    if NoDivisorBelow(n, r + 1) && !Prime(n) {
      var d :| 1 < d < n && n % d == 0;
      var e := Cofactor(n, d);
      assert d > r;
      if e > r {
        MulMonotone(r + 1, r + 1, d, e);
      }
    }
  }

  /**
   * is_prime: false below 2, otherwise trial division by 2 .. isqrt(n),
   * returning false at the first divisor.
   */
  method IsPrime(n: int) returns (b: bool)
    ensures b == Prime(n)
    ensures b <==> n >= 2 && NoDivisorBelow(n, Isqrt(n) + 1)
  {
    if n < 2 {
      return false;
    }
    IsqrtBelow(n);
    SqrtBoundSuffices(n);
    for i := 2 to Isqrt(n) + 1
      invariant NoDivisorBelow(n, i)
    {
      if n % i == 0 {
        return false;
      }
    }
    return true;
  }

  /** Every integer below 2 (1, 0 and all negatives) is rejected. */
  lemma BelowTwoNotPrime(n: int)
    requires n < 2
    ensures !Prime(n)
  {
  }

  /**
   * The loop bound includes the root itself: a perfect square k*k has k as its
   * root, and k is a divisor the loop reaches, so k*k is never prime.
   */
  lemma SquareNotPrime(k: int)
    requires k >= 2
    ensures Isqrt(k * k) == k
    ensures !NoDivisorBelow(k * k, Isqrt(k * k) + 1)
    ensures !Prime(k * k)
  {
    assert (k + 1) * (k + 1) == k * k + 2 * k + 1;
    IsqrtUnique(k * k, k);
    MulMonotone(2, k, k, k);
    MultipleMod(k, k);
  }

  /** An exclusive bound (range(2, isqrt(n))) would accept 25 = 5 * 5. */
  lemma ExclusiveBoundAccepts25()
    ensures Isqrt(25) == 5
    ensures NoDivisorBelow(25, Isqrt(25))
    ensures !Prime(25)
  {
    IsqrtUnique(25, 5);
    forall i | 2 <= i < 5 ensures 25 % i != 0 {
      assert i == 2 || i == 3 || i == 4;
    }
    assert 25 % 5 == 0;
  }

  /** The primes of the unit-test table of is_prime. */
  lemma PrimeExamples()
    ensures Prime(2) && Prime(3) && Prime(17)
  {
    IsqrtUnique(2, 1);
    IsqrtUnique(3, 1);
    SqrtBoundSuffices(2);
    SqrtBoundSuffices(3);
    IsqrtUnique(17, 4);
    SqrtBoundSuffices(17);
    forall i | 2 <= i < 5 ensures 17 % i != 0 {
      assert i == 2 || i == 3 || i == 4;
    }
  }

  /** The non-primes of the unit-test table of is_prime. */
  lemma NonPrimeExamples()
    ensures !Prime(4) && !Prime(20) && !Prime(1) && !Prime(0) && !Prime(-5)
  {
    assert 4 % 2 == 0;
    assert 20 % 2 == 0;
  }
}
