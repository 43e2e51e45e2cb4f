/** The primality predicate shared by all three programs: screening by 2 and 3,
    then trial division by the candidates 6k+5 and 6k+7. */
module Primality {
  import opened Numeric

  /** The divisibility test of isPrime, `n % d == 0`. */
  predicate Divides(d: int, n: int)
    requires d != 0
  {
    n % d == 0
  }

  /** Mathematical primality: at least 2 and without a divisor strictly between 1 and n. */
  ghost predicate Prime(n: int) {
    n >= 2 && forall d :: 2 <= d < n ==> !Divides(d, n)
  }

  /** The largest number of the form 6k+5 whose square fits in a signed 64-bit integer. */
  const RootLimit: int := 3037000499

  /** Below this bound the loop of isPrime never forms a square that leaves the 64-bit range. */
  const TrialLimit: int := RootLimit * RootLimit

  lemma DividesTransitive(e: int, d: int, n: int)
    requires e >= 1 && d >= 1 && Divides(e, d) && Divides(d, n)
    ensures Divides(e, n)
  {
    var p, q := d / e, n / d;
    assert n == (e * p) * q == e * (p * q);
    ModOfMultiple(e, p * q);
  }

  /** A composite n has a divisor below any bound whose square exceeds n. */
  lemma DivisorBelowRoot(n: int, d: int, bound: int)
    requires 2 <= d < n && Divides(d, n) && bound >= 2 && n < bound * bound
    ensures exists e :: 2 <= e < bound && Divides(e, n)
  {
    var q := n / d;
    assert n == d * q;
    if q <= 1 {
      MulMonotone(q, 1, d);
    }
    assert q >= 2;
    if d <= q {
      MulMonotone(d, q, d);
      SquareBelow(d, bound);
      assert 2 <= d < bound && Divides(d, n);
    } else {
      MulMonotone(q, d, q);
      ModOfMultiple(q, d);
      SquareBelow(q, bound);
      assert 2 <= q < bound && Divides(q, n);
    }
  }

  /** No divisor below a bound whose square exceeds n: n is prime. */
  lemma NoSmallDivisorIsPrime(n: int, bound: int)
    requires n >= 2 && bound >= 2 && n < bound * bound
    requires forall d :: 2 <= d < bound ==> !Divides(d, n)
    ensures Prime(n)
  {
    forall d | 2 <= d < n
      ensures !Divides(d, n)
    {
      if Divides(d, n) {
        DivisorBelowRoot(n, d, bound);
        assert false;
      }
    }
  }

  /** If p does not divide n, no multiple of p does. */
  lemma MultipleNotDivisor(p: int, q: int, n: int)
    requires p >= 1 && q >= 1 && !Divides(p, n)
    ensures !Divides(p * q, n)
  {
    ModOfMultiple(p, q);
    if Divides(p * q, n) {
      DividesTransitive(p, p * q, n);
    }
  }

  /** Of the six numbers from i = 6k+5 on, only i and i+2 can divide an n
      that neither 2 nor 3 divides. */
  lemma SkippedCandidates(n: int, i: int)
    requires i >= 5 && i % 6 == 5 && !Divides(2, n) && !Divides(3, n)
    ensures !Divides(i + 1, n) && !Divides(i + 3, n) && !Divides(i + 4, n) && !Divides(i + 5, n)
  {
    var k := i / 6;
    assert i == 6 * k + 5;
    MultipleNotDivisor(2, 3 * k + 3, n);
    MultipleNotDivisor(2, 3 * k + 4, n);
    MultipleNotDivisor(3, 2 * k + 3, n);
    MultipleNotDivisor(2, 3 * k + 5, n);
  }

  /** One round of the loop: when neither i nor i+2 divides n, no number below i+6 does,
      and i+6 is again a candidate of the form 6k+5 within RootLimit. */
  lemma NextCandidate(n: int, i: int)
    requires 5 <= i && i % 6 == 5 && i * i <= n < TrialLimit
    requires !Divides(2, n) && !Divides(3, n)
    requires forall d :: 2 <= d < i ==> !Divides(d, n)
    requires !Divides(i, n) && !Divides(i + 2, n)
    ensures i + 6 <= RootLimit && (i + 6) % 6 == 5
    ensures forall d :: 2 <= d < i + 6 ==> !Divides(d, n)
  {
    SkippedCandidates(n, i);
    SquareBelow(i, RootLimit);
    forall d | 2 <= d < i + 6
      ensures !Divides(d, n)
    {
      if d >= i {
        assert d == i || d == i + 1 || d == i + 2 || d == i + 3 || d == i + 4 || d == i + 5;
      }
    }
  }

  lemma NoDivisorBelowFive(n: int)
    requires !Divides(2, n) && !Divides(3, n)
    ensures forall d :: 2 <= d < 5 ==> !Divides(d, n)
  {
    if Divides(4, n) {
      DividesTransitive(2, 4, n);
    }
  }

  /** A candidate i or i+2 with i*i <= n that divides n proves n composite. */
  lemma CandidateDivides(n: int, i: int)
    requires 5 <= i && i * i <= n && (Divides(i, n) || Divides(i + 2, n))
    ensures !Prime(n)
  {
    MulMonotone(5, i, i);
    assert Divides(i, n) || Divides(i + 2, n);
  }

  /** isPrime: decides primality exactly for every 64-bit n below TrialLimit. */
  method IsPrime(n: Int64) returns (prime: bool)
    requires n < TrialLimit
    ensures prime <==> Prime(n)
    ensures n < 2 ==> !prime
    ensures n == 2 || n == 3 ==> prime
    ensures n > 3 && (n % 2 == 0 || n % 3 == 0) ==> !prime
  {
    if n < 2 {
      return false;
    }
    if n == 2 || n == 3 {
      assert Prime(n) by {
        forall d | 2 <= d < n
          ensures !Divides(d, n)
        {
          assert d == 2;
        }
      }
      return true;
    }
    if n % 2 == 0 || n % 3 == 0 {
      assert Divides(2, n) || Divides(3, n);
      return false;
    }
    NoDivisorBelowFive(n);
    var i: Int64 := 5;
    while i * i <= n
      invariant 5 <= i <= RootLimit && i % 6 == 5
      invariant forall d :: 2 <= d < i ==> !Divides(d, n)
      decreases RootLimit - i
    {
      // Neither the square compared above nor i + 2 leaves the 64-bit range.
      assert i * i <= Int64Max && i + 2 <= Int64Max;
      if Divides(i, n) || Divides(i + 2, n) {
        CandidateDivides(n, i);
        return false;
      }
      NextCandidate(n, i);
      i := i + 6;
    }
    NoSmallDivisorIsPrime(n, i);
    assert Prime(n);
    return true;
  }
}
