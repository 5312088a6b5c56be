/** Divisibility facts over natural numbers, stated with Dafny's `%` (which on
    non-negative operands agrees with C++'s unsigned and non-negative `%`). */
module Arithmetic {

  lemma Distribute(x: int, y: int, d: int)
    ensures x * d - y * d == (x - y) * d
  {
  }

  lemma AtLeastOneTimes(x: int, d: nat)
    requires x >= 1
    ensures x * d >= d
  {
  }

  lemma Scale(q: nat, d: nat)
    ensures q <= 1 ==> q * d <= d
    ensures d >= 2 ==> q * d >= 2 * q
  {
  }

  /** Two representations `q * d + r` with `0 <= r < d` agree. */
  lemma QuotientUnique(q: int, r: int, q': int, r': int, d: nat)
    requires d > 0 && 0 <= r < d && 0 <= r' < d
    requires q * d + r == q' * d + r'
    ensures q == q' && r == r'
  {
    Distribute(q, q', d);
    if q > q' {
      AtLeastOneTimes(q - q', d);
    } else if q < q' {
      Distribute(q', q, d);
      AtLeastOneTimes(q' - q, d);
    }
  }

  /** `a % d == 0` exactly when `a` is a multiple of `d`. */
  lemma MultipleHasZeroRemainder(a: nat, q: nat, d: nat)
    requires d > 0 && a == q * d
    ensures a % d == 0
  {
    QuotientUnique(a / d, a % d, q, 0, d);
  }

  /** A zero remainder gives the quotient explicitly. */
  lemma ZeroRemainderIsMultiple(a: nat, d: nat)
    requires d > 0 && a % d == 0
    ensures a == (a / d) * d
  {
  }

  /** Divisibility is transitive. */
  lemma DividesTransitive(a: nat, b: nat, c: nat)
    requires c > 0 && b > 0 && a % b == 0 && b % c == 0
    ensures a % c == 0
  {
    ZeroRemainderIsMultiple(a, b);
    ZeroRemainderIsMultiple(b, c);
    var x := a / b;
    var y := b / c;
    assert a == x * (y * c);
    assert a == (x * y) * c;
    MultipleHasZeroRemainder(a, x * y, c);
  }

  /** A multiple of a multiple of `d` is a multiple of `d`. */
  lemma DividesProduct(a: nat, b: nat, d: nat)
    requires d > 0 && a % d == 0
    ensures (b * a) % d == 0
  {
    ZeroRemainderIsMultiple(a, d);
    var x := a / d;
    assert b * a == (b * x) * d;
    MultipleHasZeroRemainder(b * a, b * x, d);
  }

  /** One more than a multiple of `d >= 2` leaves remainder one. */
  lemma SuccessorOfMultiple(a: nat, d: nat)
    requires d >= 2 && a % d == 0
    ensures (a + 1) % d == 1
  {
    ZeroRemainderIsMultiple(a, d);
    QuotientUnique((a + 1) / d, (a + 1) % d, a / d, 1, d);
  }

  /** An odd number has no even divisor. */
  lemma OddHasNoEvenDivisor(n: nat, e: nat)
    requires n % 2 == 1 && e > 0 && e % 2 == 0
    ensures n % e != 0
  {
    if n % e == 0 {
      DividesTransitive(n, e, 2);
    }
  }

  /** A divisor `d` of `n` with `1 < d < n` has a cofactor `q` with `1 < q < n`. */
  lemma Cofactor(n: nat, d: nat) returns (q: nat)
    requires 1 < d < n && n % d == 0
    ensures q * d == n && 1 < q < n && n % q == 0
  {
    ZeroRemainderIsMultiple(n, d);
    q := n / d;
    Scale(q, d);
    MultipleHasZeroRemainder(n, d, q);
  }
}
