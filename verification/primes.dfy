/** The two free helper functions of the table: `isPrime`, a trial-division
    primality test, and `nextPrime`, which searches odd candidates upward. */
module Primes {
  import opened Arithmetic

  /** Mathematical primality: at least two and no divisor strictly between one and itself. */
  ghost predicate IsPrime(n: nat)
  {
    2 <= n && forall d :: 2 <= d < n ==> n % d != 0
  }

  /** The `for (i = 3; i * i <= n; i += 2)` loop of `isPrime`, entered with an odd
      `n >= 3` and an odd candidate divisor `i` below which `n` has no divisor. */
  function TrialDivision(n: nat, i: nat): (b: bool)
    requires n >= 3 && n % 2 == 1
    requires i >= 3 && i % 2 == 1
    requires forall d :: 2 <= d < i ==> n % d != 0
    ensures b <==> IsPrime(n)
    decreases n - i
  {
    if i * i > n then
      NoSmallDivisorIsPrime(n, i);
      true
    else if n % i == 0 then
      DivisorBelowRoot(n, i);
      false
    else
      NextOddCandidate(n, i);
      TrialDivision(n, i + 2)
  }

  /** A divisor at most the square root of `n` shows that `n` is not prime. */
  lemma DivisorBelowRoot(n: nat, i: nat)
    requires n >= 3 && i >= 2 && i * i <= n && n % i == 0
    ensures !IsPrime(n)
  {
    Scale(i, i);
    assert 2 <= i < n && n % i == 0;
  }

  /** Stepping an odd candidate that does not divide odd `n` by two skips no divisor. */
  lemma NextOddCandidate(n: nat, i: nat)
    requires n % 2 == 1 && i >= 3 && i % 2 == 1 && i * i <= n && n % i != 0
    requires forall d :: 2 <= d < i ==> n % d != 0
    ensures i <= n
    ensures forall d :: 2 <= d < i + 2 ==> n % d != 0
  {
    Scale(i, i);
    OddHasNoEvenDivisor(n, i + 1);
    forall d | 2 <= d < i + 2
      ensures n % d != 0
    {
      if d == i + 1 {
        assert n % (i + 1) != 0;
      }
    }
  }

  /** If nothing below `i` divides `n` and `i * i > n`, then `n` is prime. */
  lemma NoSmallDivisorIsPrime(n: nat, i: nat)
    requires n >= 2 && i >= 2 && i * i > n
    requires forall d :: 2 <= d < i ==> n % d != 0
    ensures IsPrime(n)
  {
    forall d | 2 <= d < n
      ensures n % d != 0
    {
      if n % d == 0 {
        var q := Cofactor(n, d);
        MonotoneProduct(q, d, i);
      }
    }
  }

  lemma MonotoneProduct(a: nat, b: nat, i: nat)
    requires a >= i && b >= i
    ensures a * b >= i * i
  {
    assert a * b >= i * b;
    assert i * b >= i * i;
  }

  /** The primality test `isPrime` of `hashtable.h`: 2 and 3 are prime, 1 and the even
      numbers are not, and any other odd number goes through trial division. */
  function IsPrimeTest(n: nat): (b: bool)
    ensures b <==> IsPrime(n)
  {
    if n == 2 || n == 3 then true
    else if n == 1 || n % 2 == 0 then false
    else TrialDivision(n, 3)
  }

  /** The `while (!isPrime(n)) n += 2` loop of `nextPrime` from an odd start `n`.
      The ghost parameter `p` is an odd prime at or above `n`; it bounds the search. */
  function OddPrimeSearch(n: nat, ghost p: nat): (r: nat)
    requires n % 2 == 1 && p % 2 == 1 && IsPrime(p) && n <= p
    ensures n <= r <= p && r % 2 == 1 && IsPrime(r)
    ensures forall m :: n <= m < r && m % 2 == 1 ==> !IsPrime(m)
    decreases p - n
  {
    if IsPrimeTest(n) then n else OddPrimeSearch(n + 2, p)
  }

  /** `nextPrime`: an even argument is first bumped to the next odd number, then odd
      candidates are tried in turn. The result is the least odd prime at or above `n`. */
  function NextPrime(n: nat): (r: nat)
    ensures r >= n && r % 2 == 1 && IsPrime(r)
    ensures forall m :: n <= m < r && m % 2 == 1 ==> !IsPrime(m)
  {
    var start := if n % 2 == 0 then n + 1 else n;
    OddPrimeSearch(start, OddPrimeAtLeast(start))
  }

  /** For `n >= 3` the least odd prime at or above `n` is the least prime at or above `n`. */
  lemma NextPrimeIsLeastPrime(n: nat)
    requires n >= 3
    ensures forall m :: n <= m < NextPrime(n) ==> !IsPrime(m)
  {
  }

  /** `nextPrime(2)` is 3, not 2: the even argument is bumped before any test. */
  lemma NextPrimeOfTwo()
    ensures NextPrime(2) == 3
  {
    assert IsPrimeTest(3);
  }

  /** The example of the rehash comment: a 7-slot table grows to `nextPrime(14) == 17`. */
  lemma NextPrimeOfFourteen()
    ensures NextPrime(14) == 17
  {
    assert !IsPrime(15) by { assert 15 % 3 == 0; }
    assert IsPrimeTest(17);
  }

  /** A table of 5 slots grows to `nextPrime(10) == 11`. */
  lemma NextPrimeOfTen()
    ensures NextPrime(10) == 11
  {
    assert IsPrimeTest(11);
  }

  /** A table of the default 101 slots grows to `nextPrime(202) == 211`. */
  lemma NextPrimeOfTwoHundredTwo()
    ensures NextPrime(202) == 211
  {
    TwoHundredElevenIsPrime();
    forall m | 202 <= m < 211 && m % 2 == 1
      ensures !IsPrime(m)
    {
      assert m in {203, 205, 207, 209};
      assert 203 % 7 == 0 && 205 % 5 == 0 && 207 % 3 == 0 && 209 % 11 == 0;
    }
    NextPrimeIsTheLeastOddPrime(202, 211);
  }

  /** The contract of `NextPrime` pins its result down: it is the odd prime `p` at or
      above `n` with no odd prime in between. */
  lemma NextPrimeIsTheLeastOddPrime(n: nat, p: nat)
    requires p >= n && p % 2 == 1 && IsPrime(p)
    requires forall m :: n <= m < p && m % 2 == 1 ==> !IsPrime(m)
    ensures NextPrime(n) == p
  {
  }

  lemma TwoHundredElevenIsPrime()
    ensures IsPrime(211)
  {
    forall d | 2 <= d < 15
      ensures 211 % d != 0
    {
      assert d in {2, 3, 4, 5, 6, 7, 8, 9, 10, 11, 12, 13, 14};
    }
    NoSmallDivisorIsPrime(211, 15);
  }

  /** The default capacity 101 is prime. */
  lemma DefaultCapacityIsPrime()
    ensures IsPrime(101)
  {
    assert IsPrimeTest(101);
  }

  // ---------------------------------------------------------------------------
  // Euclid's argument: an odd prime exists above every bound. It is only used as
  // the ghost bound that makes the candidate search terminate.

  ghost function Factorial(n: nat): (f: nat)
    ensures f >= 1
  {
    if n == 0 then 1 else n * Factorial(n - 1)
  }

  lemma {:induction false} FactorialMultiple(n: nat, d: nat)
    requires 1 <= d <= n
    ensures Factorial(n) % d == 0
  {
    if d == n {
      MultipleHasZeroRemainder(Factorial(n), Factorial(n - 1), n);
    } else {
      FactorialMultiple(n - 1, d);
      DividesProduct(Factorial(n - 1), n, d);
    }
  }

  /** The least divisor of `m` that is at least `d`. */
  ghost function LeastDivisorFrom(m: nat, d: nat): (r: nat)
    requires 2 <= d <= m
    requires forall e :: 2 <= e < d ==> m % e != 0
    ensures d <= r <= m && m % r == 0
    ensures forall e :: 2 <= e < r ==> m % e != 0
    decreases m - d
  {
    if d == m then
      MultipleHasZeroRemainder(m, 1, m);
      m
    else if m % d == 0 then d
    else LeastDivisorFrom(m, d + 1)
  }

  /** The least divisor above one of any `m >= 2` is prime. */
  lemma LeastDivisorIsPrime(m: nat)
    requires m >= 2
    ensures IsPrime(LeastDivisorFrom(m, 2))
  {
    var r := LeastDivisorFrom(m, 2);
    forall e | 2 <= e < r
      ensures r % e != 0
    {
      if r % e == 0 {
        DividesTransitive(m, r, e);
      }
    }
  }

  /** Euclid: the least prime factor of `n! + 1` exceeds `n`, so for `n > 2` it is odd. */
  lemma EuclidPrime(n: nat)
    requires n > 2
    ensures var p := LeastDivisorFrom(Factorial(n) + 1, 2);
      p > n && p % 2 == 1 && IsPrime(p)
  {
    var m := Factorial(n) + 1;
    var p := LeastDivisorFrom(m, 2);
    LeastDivisorIsPrime(m);
    if p <= n {
      FactorialMultiple(n, p);
      SuccessorOfMultiple(Factorial(n), p);
    }
  }

  /** An odd prime at or above `n`. */
  ghost function OddPrimeAtLeast(n: nat): (p: nat)
    ensures p >= n && p % 2 == 1 && IsPrime(p)
  {
    if n <= 3 then
      assert 3 % 2 != 0;
      3
    else
      EuclidPrime(n);
      LeastDivisorFrom(Factorial(n) + 1, 2)
  }
}
