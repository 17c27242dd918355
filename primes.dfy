/** Primality: the mathematical definition and the trial-division test `is_prime`. */
module Primes {

  /** d is a non-zero divisor of n. */
  predicate Divides(d: int, n: int) {
    d != 0 && n % d == 0
  }

  /** n is prime: at least 2 and without a divisor strictly between 1 and n. */
  predicate IsPrime(n: int) {
    n >= 2 && forall d :: 1 < d < n ==> !Divides(d, n)
  }

  lemma MulMono(a: int, b: int)
    requires 0 <= a <= b
    ensures a * a <= b * b
  {
    assert a * a <= a * b <= b * b;
  }

  /** The integer square root; stands for `int(num ** 0.5)`. */
  function FloorSqrt(n: nat): (r: nat)
    ensures r * r <= n < (r + 1) * (r + 1)
  {
    if n == 0 then 0
    else
      var s := FloorSqrt(n - 1);
      if (s + 1) * (s + 1) <= n then
        assert (s + 2) * (s + 2) == (s + 1) * (s + 1) + 2 * s + 3;
        s + 1
      else s
  }

  /** An even number does not divide an odd one. */
  lemma EvenDoesNotDivideOdd(d: int, n: int)
    requires d != 0 && d % 2 == 0 && n % 2 == 1
    ensures !Divides(d, n)
  {
    var q, m := n / d, n % d;
    var h := d / 2;
    assert n == d * q + m;
    assert d * q == 2 * (h * q);
    assert m % 2 == 1;
  }

  lemma MulAtLeastOne(e: int, k: int)
    requires e > 0 && k >= 1
    ensures e * k >= e
  {
    assert e * k == e * (k - 1) + e;
  }

  /** Euclidean division is unique: n = e * q + r with 0 <= r < e fixes q and r. */
  lemma DivUnique(n: int, e: int, q: int, r: int)
    requires e > 0 && 0 <= r < e && n == e * q + r
    ensures n % e == r && n / e == q
  {
    var k := q - n / e;
    assert e * k == n % e - r by {
      assert n == e * (n / e) + n % e;
      assert e * q - e * (n / e) == e * k;
    }
    if k >= 1 {
      MulAtLeastOne(e, k);
    } else if k <= -1 {
      MulAtLeastOne(e, -k);
    }
  }

  /** The cofactor n / d of a proper divisor d is itself a proper divisor. */
  lemma Cofactor(n: int, d: int)
    requires 1 < d < n
    ensures Divides(d, n) ==> n == d * (n / d) && 1 < n / d < n && Divides(n / d, n)
  {
    var e := n / d;
    if n % d == 0 {
      assert n == d * e;
      if e >= 2 {
        MulAtLeastOne(d, e);
        assert d * e == e + (d - 1) * e;
        MulAtLeastOne(e, d - 1);
        DivUnique(n, e, d, 0);
      }
    }
  }

  /** Two factors larger than r have a product of at least (r + 1)^2. */
  lemma LargeFactors(d: int, e: int, r: nat)
    requires d >= r + 1 && e >= r + 1
    ensures d * e >= (r + 1) * (r + 1)
  {
    assert d * e >= (r + 1) * e >= (r + 1) * (r + 1);
  }

  /**
   * Trying the odd divisors from 3 up to the integer square root is enough
   * to show that an odd n >= 3 is prime.
   */
  lemma TrialSuffices(n: int, r: nat)
    requires n >= 3 && n % 2 == 1
    requires r * r <= n < (r + 1) * (r + 1)
    requires forall d :: 3 <= d <= r && d % 2 == 1 ==> !Divides(d, n)
    ensures IsPrime(n)
  {
    forall d | 1 < d < n
      ensures !Divides(d, n)
    {
      if d % 2 == 0 {
        EvenDoesNotDivideOdd(d, n);
      } else if d > r {
        Cofactor(n, d);
        var e := n / d;
        if e >= r + 1 {
          LargeFactors(d, e, r);
        } else if e % 2 == 0 && e != 0 {
          EvenDoesNotDivideOdd(e, n);
        }
      }
    }
  }

  /** One more odd candidate that fails to divide n extends the range already tried. */
  lemma OddCandidatesExtend(n: int, i: int)
    requires i % 2 == 1 && !Divides(i, n)
    requires forall d :: 3 <= d < i && d % 2 == 1 ==> !Divides(d, n)
    ensures (i + 2) % 2 == 1
    ensures forall d :: 3 <= d < i + 2 && d % 2 == 1 ==> !Divides(d, n)
  {
    forall d | 3 <= d < i + 2 && d % 2 == 1
      ensures !Divides(d, n)
    {
      if d >= i {
        assert d == i;
      }
    }
  }

  /** A candidate from 3 up to the integer square root that divides n is a proper divisor. */
  lemma FoundDivisor(n: int, i: int, r: nat)
    requires 3 <= i <= r && r * r <= n && n % i == 0
    ensures !IsPrime(n)
  {
    MulMono(i, r);
    assert i < i * i;
    assert Divides(i, n);
  }

  /**
   * `is_prime`: 2 is prime; anything below 2 or even is not; otherwise the
   * odd candidates 3, 5, ... up to the integer square root are tried.
   */
  method IsPrimeTrial(n: int) returns (r: bool)
    ensures r == IsPrime(n)
  {
    if n == 2 {
      return true;
    }
    if n < 2 || n % 2 == 0 {
      if n >= 2 {
        assert Divides(2, n);
      }
      return false;
    }
    var limit := FloorSqrt(n);
    var i := 3;
    while i < limit + 1
      invariant 3 <= i && i % 2 == 1
      invariant forall d :: 3 <= d < i && d % 2 == 1 ==> !Divides(d, n)
    {
      if n % i == 0 {
        FoundDivisor(n, i, limit);
        return false;
      }
      OddCandidatesExtend(n, i);
      i := i + 2;
    }
    TrialSuffices(n, limit);
    return true;
  }

  /** Concrete values named by the behaviour of `is_prime`. */
  lemma SmallCases(n: int)
    ensures !IsPrime(0) && !IsPrime(1) && !IsPrime(-5) && IsPrime(2)
    ensures n < 2 ==> !IsPrime(n)
    ensures n > 2 && n % 2 == 0 ==> !IsPrime(n)
  {
    if n > 2 && n % 2 == 0 {
      assert Divides(2, n);
    }
  }
}
