/** Counting primes in a list of 64-bit integers: the specification count, the
    sequential loop, and the per-chunk loop each worker runs. */
module Counting {
  import opened Numeric
  import opened Primality

  /** Every element is small enough for isPrime's 64-bit loop not to wrap. */
  predicate WithinTrialLimit(numbers: seq<Int64>) {
    forall k :: 0 <= k < |numbers| ==> numbers[k] < TrialLimit
  }

  /** The number of elements of s that are prime. */
  ghost function PrimeCount(s: seq<Int64>): (c: nat)
    ensures c <= |s|
  {
    if |s| == 0 then 0
    else PrimeCount(s[..|s| - 1]) + (if Prime(s[|s| - 1]) then 1 else 0)
  }

  /** The count is zero exactly when the list holds no prime. */
  lemma {:induction false} PrimeCountZero(s: seq<Int64>)
    ensures PrimeCount(s) == 0 <==> forall k :: 0 <= k < |s| ==> !Prime(s[k])
  {
    if |s| > 0 {
      var init := s[..|s| - 1];
      PrimeCountZero(init);
      assert forall k :: 0 <= k < |init| ==> init[k] == s[k];
    }
  }

  /** Counting splits over concatenation: the basis of summing per-chunk counts. */
  lemma {:induction false} PrimeCountAppend(a: seq<Int64>, b: seq<Int64>)
    ensures PrimeCount(a + b) == PrimeCount(a) + PrimeCount(b)
  {
    if |b| == 0 {
      assert a + b == a;
    } else {
      var b' := b[..|b| - 1];
      assert (a + b)[..|a + b| - 1] == a + b';
      PrimeCountAppend(a, b');
    }
  }

  /** The indicator of one element: 1 for a prime, 0 otherwise. */
  ghost function PrimeIndicator(n: int): nat {
    if Prime(n) then 1 else 0
  }

  /** Taking out any one element takes out its indicator from the count. */
  lemma PrimeCountTakeOut(s: seq<Int64>, k: nat)
    requires k < |s|
    ensures PrimeCount(s) == PrimeCount(s[..k] + s[k + 1..]) + PrimeIndicator(s[k])
  {
    var front, x, back, tail := s[..k], s[k], s[k + 1..], s[k..];
    assert s == front + tail;
    assert tail == [x] + back;
    PrimeCountAppend(front, tail);
    PrimeCountAppend([x], back);
    PrimeCountAppend(front, back);
    assert PrimeCount([x]) == PrimeIndicator(x) by {
      assert [x][..0] == [];
    }
  }

  /** Removing the same element from two lists with equal multisets leaves equal multisets. */
  lemma MultisetTakeOut(a: seq<Int64>, b: seq<Int64>, k: nat)
    requires multiset(a) == multiset(b) && |a| > 0 && k < |b| && b[k] == a[|a| - 1]
    ensures multiset(a[..|a| - 1]) == multiset(b[..k] + b[k + 1..])
  {
    var x := b[k];
    var a', b' := a[..|a| - 1], b[..k] + b[k + 1..];
    assert a == a' + [x];
    assert b == b[..k] + [x] + b[k + 1..];
    assert multiset(a') + multiset{x} == multiset(b') + multiset{x};
    assert multiset(a') == multiset(a') + multiset{x} - multiset{x};
    assert multiset(b') == multiset(b') + multiset{x} - multiset{x};
  }

  /** The count does not depend on the order of the list. */
  lemma {:induction false} PrimeCountPermutation(a: seq<Int64>, b: seq<Int64>)
    requires multiset(a) == multiset(b)
    ensures PrimeCount(a) == PrimeCount(b)
    decreases |a|
  {
    if |a| == 0 {
      assert |b| == |multiset(b)| == 0;
    } else {
      var x := a[|a| - 1];
      assert x in multiset(b);
      var k :| 0 <= k < |b| && b[k] == x;
      MultisetTakeOut(a, b, k);
      PrimeCountPermutation(a[..|a| - 1], b[..k] + b[k + 1..]);
      PrimeCountTakeOut(a, |a| - 1);
      PrimeCountTakeOut(b, k);
      assert a[..|a| - 1] + a[|a|..] == a[..|a| - 1];
    }
  }

  /** countPrimeSingleThread: one pass over the list with a running count. */
  method CountPrimeSingleThread(numbers: seq<Int64>) returns (count: int)
    requires WithinTrialLimit(numbers)
    ensures count == PrimeCount(numbers)
    ensures 0 <= count <= |numbers|
  {
    count := 0;
    for k := 0 to |numbers|
      invariant count == PrimeCount(numbers[..k])
    {
      var prime := IsPrime(numbers[k]);
      assert numbers[..k + 1][..k] == numbers[..k];
      if prime {
        count := count + 1;
      }
    }
    assert numbers[..|numbers|] == numbers;
  }

  /** One worker's task: the number of primes among numbers[from..to]. */
  method CountRange(numbers: seq<Int64>, from: nat, to: nat) returns (local: int)
    requires from <= to <= |numbers| && WithinTrialLimit(numbers)
    ensures local == PrimeCount(numbers[from..to])
    ensures 0 <= local <= to - from
  {
    local := 0;
    for j := from to to
      invariant local == PrimeCount(numbers[from..j])
    {
      var prime := IsPrime(numbers[j]);
      assert numbers[from..j + 1][..j - from] == numbers[from..j];
      if prime {
        local := local + 1;
      }
    }
  }
}
