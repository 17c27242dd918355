/**
 * The three Euler-type prime families and the colour a number is drawn in
 * (shared by both spirals).
 */
module Classification {
  import opened Primes

  /** The polynomial i^2 + i + c. */
  function Poly(i: int, c: int): int {
    i * i + i + c
  }

  /** The primes among i^2 + i + c for i in 0..999 (`primes41`, `primes17`, `primes11`). */
  function FamilySet(c: int): (s: set<int>)
    ensures forall x :: x in s ==> IsPrime(x) && x >= c
  {
    set i | 0 <= i < 1000 && IsPrime(Poly(i, c)) :: Poly(i, c)
  }

  /** A value of the polynomial for an index in range is in the family exactly when it is prime. */
  lemma FamilyMembership(c: int, i: int)
    requires 0 <= i < 1000
    ensures Poly(i, c) in FamilySet(c) <==> IsPrime(Poly(i, c))
  {
  }

  /** The colours the spirals draw; Black is also the colour of an unwritten cell. */
  datatype Colour = Red | Green | Blue | White | Black

  /** The RGB triple stored for each colour. */
  function Rgb(c: Colour): (t: (int, int, int))
    ensures t.0 in {0, 255} && t.1 in {0, 255} && t.2 in {0, 255}
    ensures (t == (0, 0, 0)) == (c == Black)
  {
    match c
    case Red => (255, 0, 0)
    case Green => (0, 255, 0)
    case Blue => (0, 0, 255)
    case White => (255, 255, 255)
    case Black => (0, 0, 0)
  }

  /**
   * The colour number n is drawn in: family 41 before family 17 before
   * family 11, then white for any other prime, black for the rest.
   */
  function Classify(n: int): (r: Colour)
    ensures r != White && r != Black <==> n in FamilySet(41) || n in FamilySet(17) || n in FamilySet(11)
    ensures r == White <==> IsPrime(n) && !(n in FamilySet(41) || n in FamilySet(17) || n in FamilySet(11))
  {
    if n in FamilySet(41) then Red
    else if n in FamilySet(17) then Green
    else if n in FamilySet(11) then Blue
    else if IsPrime(n) then White
    else Black
  }

  /** Only primes are drawn in a colour: the family sets hold primes only. */
  lemma ClassifyColoursExactlyPrimes(n: int)
    ensures Classify(n) != Black <==> IsPrime(n)
  {
  }

  /** No number below 11 belongs to a family, so it is White or Black. */
  lemma SmallNumbersHaveNoFamily(n: int)
    requires n < 11
    ensures Classify(n) == (if IsPrime(n) then White else Black)
  {
  }

  /** An odd number in [3, 64) that 3, 5 and 7 do not divide is prime. */
  lemma OddPrimeBelow64(n: int)
    requires 3 <= n < 64 && n % 2 == 1
    requires n % 3 != 0 && n % 5 != 0 && n % 7 != 0
    ensures IsPrime(n)
  {
    var r := FloorSqrt(n);
    if r >= 8 {
      MulMono(8, r);
    }
    OddDivisorsUpTo7(n);
    TrialSuffices(n, r);
  }

  lemma OddDivisorsUpTo7(n: int)
    requires n % 3 != 0 && n % 5 != 0 && n % 7 != 0
    ensures forall d :: 3 <= d <= 7 && d % 2 == 1 ==> !Divides(d, n)
  {
    forall d | 3 <= d <= 7 && d % 2 == 1
      ensures !Divides(d, n)
    {
      assert d == 3 || d == 5 || d == 7;
    }
  }

  /** The first values of i^2 + i + 41 are all in `primes41`. */
  lemma Family41Begins()
    ensures 41 in FamilySet(41) && 43 in FamilySet(41) && 47 in FamilySet(41)
    ensures 53 in FamilySet(41) && 61 in FamilySet(41)
  {
    OddPrimeBelow64(41);
    OddPrimeBelow64(43);
    OddPrimeBelow64(47);
    OddPrimeBelow64(53);
    OddPrimeBelow64(61);
    FamilyMembership(41, 0);
    FamilyMembership(41, 1);
    FamilyMembership(41, 2);
    FamilyMembership(41, 3);
    FamilyMembership(41, 4);
  }

  /** The priority order at work on a few numbers. */
  lemma ClassifyExamples()
    ensures Classify(1) == Black && Classify(4) == Black && Classify(42) == Black
    ensures Classify(5) == White
    ensures Classify(41) == Red
    ensures 47 in FamilySet(17) && Classify(47) == Red
    ensures Classify(17) == Green
  {
    SmallCases(4);
    SmallCases(42);
    TrialSuffices(5, 2);
    SmallNumbersHaveNoFamily(5);
    Family41Begins();
    OddPrimeBelow64(17);
    FamilyMembership(17, 5);
    FamilyMembership(17, 0);
    assert 17 !in FamilySet(41);
  }
}
