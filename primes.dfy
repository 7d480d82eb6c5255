/**
 * The trial-division prime list of the test worker scripts
 * (test/worker-scripts/seive.js:15-38, test/worker-scripts/one-second.js:12-34).
 * The list starts as [2]; each round tries the numbers after its last
 * element until one has no divisor among the listed primes, and appends it.
 * The scripts bound the rounds by the wall clock; here the number of rounds
 * is a parameter.
 */
module PrimeList {

  predicate IsPrime(n: int) {
    n >= 2 && forall d :: 2 <= d < n ==> n % d != 0
  }

  /** `n % d == 0` in JavaScript; `n % 0` is NaN there, never 0. */
  predicate Divides(d: int, n: int) {
    d != 0 && n % d == 0
  }

  /** Some element of the list divides n: what the inner loop looks for. */
  predicate HasDivisorIn(list: seq<int>, n: int) {
    exists j :: 0 <= j < |list| && Divides(list[j], n)
  }

  predicate Increasing(s: seq<int>) {
    forall i, j :: 0 <= i < j < |s| ==> s[i] < s[j]
  }

  function Last(s: seq<int>): int
    requires s != []
  {
    s[|s| - 1]
  }

  /** The list is exactly the primes up to its last element, in ascending order. */
  predicate ExactPrimes(s: seq<int>) {
    && s != []
    && Increasing(s)
    && (forall i :: 0 <= i < |s| ==> IsPrime(s[i]))
    && (forall p :: 2 <= p <= Last(s) && IsPrime(p) ==> p in s)
  }

  lemma {:induction false} MulAtLeast(a: int, t: int)
    requires a > 0 && t >= 1
    ensures a * t >= a
    decreases t
  {
    if t > 1 {
      MulAtLeast(a, t - 1);
      assert a * t == a * (t - 1) + a;
    }
  }

  /** Remainder and quotient are the unique ones of Euclidean division. */
  lemma ModUnique(x: int, a: int, q: int, r: int)
    requires a > 0 && 0 <= r < a && x == a * q + r
    ensures x % a == r
  {
    var q', r' := x / a, x % a;
    assert x == a * q' + r';
    assert a * (q - q') == r' - r;
    if q - q' >= 1 {
      MulAtLeast(a, q - q');
    } else if q' - q >= 1 {
      MulAtLeast(a, q' - q);
    }
  }

  lemma DividesTransitive(p: int, d: int, n: int)
    requires p > 0 && d > 0 && d % p == 0 && n % d == 0
    ensures n % p == 0
  {
    var k, m := n / d, d / p;
    assert n == d * k;
    assert d == p * m;
    assert n == p * (m * k);
    ModUnique(n, p, m * k, 0);
  }

  /** Every number from 2 on has a prime divisor no larger than itself. */
  lemma {:induction false} PrimeDivisor(n: int) returns (p: int)
    requires n >= 2
    ensures IsPrime(p) && p <= n && n % p == 0
    decreases n
  {
    if IsPrime(n) {
      p := n;
    } else {
      var d :| 2 <= d < n && n % d == 0;
      p := PrimeDivisor(d);
      DividesTransitive(p, d, n);
    }
  }

  function Product(s: seq<int>): int
    decreases |s|
  {
    if s == [] then 1 else s[0] * Product(s[1..])
  }

  /** Each element of a list of numbers from 2 on is a factor of the list's product. */
  lemma {:induction false} ProductFactor(s: seq<int>, i: nat) returns (c: int)
    requires i < |s| && forall k :: 0 <= k < |s| ==> s[k] >= 2
    ensures c >= 1 && Product(s) == s[i] * c
    decreases |s|
  {
    ProductPositive(s[1..]);
    if i == 0 {
      c := Product(s[1..]);
    } else {
      assert s[1..][i - 1] == s[i];
      var c' := ProductFactor(s[1..], i - 1);
      c := s[0] * c';
      MulAtLeast(c', s[0]);
      assert Product(s) == s[0] * Product(s[1..]);
      MulSwap(s[0], s[i], c');
    }
  }

  lemma MulSwap(a: int, b: int, c: int)
    ensures a * (b * c) == b * (a * c)
  {
  }

  lemma {:induction false} ProductPositive(s: seq<int>)
    requires forall k :: 0 <= k < |s| ==> s[k] >= 2
    ensures Product(s) >= 1
    decreases |s|
  {
    if s != [] {
      ProductPositive(s[1..]);
      MulAtLeast(Product(s[1..]), s[0]);
    }
  }

  /** Euclid: one more than the product of the list is above it and has no divisor in it. */
  lemma EuclidWitness(s: seq<int>)
    requires ExactPrimes(s)
    ensures Product(s) + 1 > Last(s)
    ensures !HasDivisorIn(s, Product(s) + 1)
  {
    var c := ProductFactor(s, |s| - 1);
    MulAtLeast(Last(s), c);
    if HasDivisorIn(s, Product(s) + 1) {
      var j :| 0 <= j < |s| && Divides(s[j], Product(s) + 1);
      var k := ProductFactor(s, j);
      ModUnique(Product(s) + 1, s[j], k, 1);
    }
  }

  /**
   * A candidate above the last prime with no divisor in the list, where every
   * number between had one, is the next prime.
   */
  lemma CandidateIsNextPrime(s: seq<int>, next: int)
    requires ExactPrimes(s) && Last(s) < next
    requires forall c :: Last(s) < c < next ==> HasDivisorIn(s, c)
    requires !HasDivisorIn(s, next)
    ensures IsPrime(next)
    ensures forall c :: Last(s) < c < next ==> !IsPrime(c)
  {
    forall c | Last(s) < c < next
      ensures !IsPrime(c)
    {
      assert HasDivisorIn(s, c);
      var j :| 0 <= j < |s| && Divides(s[j], c);
      assert s[j] <= Last(s);
    }
    if !IsPrime(next) {
      var d :| 2 <= d < next && next % d == 0;
      var p := PrimeDivisor(d);
      DividesTransitive(p, d, next);
      assert false;
    }
  }

  lemma Extend(s: seq<int>, next: int)
    requires ExactPrimes(s) && Last(s) < next && IsPrime(next)
    requires forall c :: Last(s) < c < next ==> !IsPrime(c)
    ensures ExactPrimes(s + [next])
  {
    var t := s + [next];
    forall p | 2 <= p <= Last(t) && IsPrime(p)
      ensures p in t
    {
      if p <= Last(s) {
        assert p in s;
      } else {
        assert p == next;
      }
    }
  }

  /**
   * The inner `for (const prime of seive)` loop: is some listed number a
   * divisor of the candidate? It stops at the first divisor.
   */
  method FindDivisor(seive: seq<int>, next: int) returns (foundADivisor: bool)
    ensures foundADivisor <==> HasDivisorIn(seive, next)
  {
    foundADivisor := false;
    var i := 0;
    while i < |seive|
      invariant 0 <= i <= |seive|
      invariant forall j :: 0 <= j < i ==> !Divides(seive[j], next)
    {
      if Divides(seive[i], next) {
        foundADivisor := true;
        break;
      }
      i := i + 1;
    }
  }

  /**
   * The candidate loop `for (let next = last + 1; ; next++)`: the first
   * number after the last element with no divisor in the list. It always
   * ends, and what it finds is the next prime.
   */
  method NextCandidate(seive: seq<int>) returns (next: int)
    requires ExactPrimes(seive)
    ensures Last(seive) < next
    ensures IsPrime(next)
    ensures forall c :: Last(seive) < c < next ==> !IsPrime(c)
    ensures ExactPrimes(seive + [next])
  {
    ghost var bound := Product(seive) + 1;
    EuclidWitness(seive);
    next := Last(seive) + 1;
    while true
      invariant Last(seive) < next <= bound
      invariant forall c :: Last(seive) < c < next ==> HasDivisorIn(seive, c)
      decreases bound - next
    {
      var foundADivisor := FindDivisor(seive, next);
      if !foundADivisor {
        break;
      }
      next := next + 1;
    }
    CandidateIsNextPrime(seive, next);
    Extend(seive, next);
  }

  /**
   * The outer loop of both scripts, run for `rounds` rounds instead of
   * until the clock passes `stop`: every round appends exactly one number.
   */
  method Grow(rounds: nat) returns (seive: seq<int>)
    ensures |seive| == rounds + 1
    ensures seive[0] == 2
    ensures ExactPrimes(seive)
  {
    seive := [2];
    assert ExactPrimes(seive) by {
      forall p | 2 <= p <= 2 && IsPrime(p) ensures p in [2] {
      }
    }
    for round := 0 to rounds
      invariant |seive| == round + 1
      invariant seive[0] == 2
      invariant ExactPrimes(seive)
    {
      var next := NextCandidate(seive);
      seive := seive + [next];
    }
  }

  lemma NotBelow(a: seq<int>, b: seq<int>, i: nat)
    requires ExactPrimes(a) && ExactPrimes(b) && |a| == |b|
    requires i < |a| && a[..i] == b[..i]
    ensures !(a[i] < b[i])
  {
  }

  /**
   * Two lists that are each exactly the primes up to their last element,
   * and have the same length, are equal: such a list of length k is the
   * first k primes.
   */
  lemma {:induction false} ExactPrimesUnique(a: seq<int>, b: seq<int>)
    requires ExactPrimes(a) && ExactPrimes(b) && |a| == |b|
    ensures a == b
  {
    var i := 0;
    while i < |a|
      invariant 0 <= i <= |a|
      invariant a[..i] == b[..i]
    {
      NotBelow(a, b, i);
      NotBelow(b, a, i);
      assert a[..i + 1] == a[..i] + [a[i]];
      assert b[..i + 1] == b[..i] + [b[i]];
      i := i + 1;
    }
    assert a == a[..i] && b == b[..i];
  }
}
