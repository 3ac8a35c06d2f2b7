/**
  Prime arithmetic behind the table sizes of the hash map: trial division by 6k-1 and 6k+1,
  the search for the next prime, and Euclid's two theorems (a prime that divides a product
  divides a factor; there is a prime above every number).
 */
module Primes {

  predicate Divides(d: int, n: int)
    requires d != 0
  {
    n % d == 0
  }

  ghost predicate Prime(n: int) {
    2 <= n && forall m :: 2 <= m < n ==> !Divides(m, n)
  }

  // ---------------------------------------------------------------- divisibility

  lemma MultipleAtLeast(d: int, x: int)
    requires d > 0 && x >= 1
    ensures d * x >= d
  {}

  /** Euclidean division is unique. */
  lemma UniqueQuotient(d: int, k: int, q: int, r: int)
    requires 0 <= r < d && d * k == d * q + r
    ensures k == q && r == 0
  {
    assert d * (k - q) == r;
    if k > q { MultipleAtLeast(d, k - q); }
    if k < q { MultipleAtLeast(d, q - k); }
  }

  lemma DividesFromProduct(d: int, k: int, n: int)
    requires d > 0 && n == d * k
    ensures Divides(d, n)
  {
    UniqueQuotient(d, k, n / d, n % d);
  }

  lemma ProductFromDivides(d: int, n: int) returns (k: int)
    requires d > 0 && Divides(d, n)
    ensures n == d * k
  {
    k := n / d;
  }

  lemma DividesTransitive(a: int, b: int, n: int)
    requires a > 0 && b > 0 && Divides(a, b) && Divides(b, n)
    ensures Divides(a, n)
  {
    var k := ProductFromDivides(a, b);
    var l := ProductFromDivides(b, n);
    assert n == a * (k * l);
    DividesFromProduct(a, k * l, n);
  }

  /** Euclid's lemma: a prime dividing a product whose first factor it cannot divide, divides the second. */
  lemma PrimeDividesFactor(p: int, a: int, b: int, k: int) returns (j: int)
    requires Prime(p) && 0 < a < p && a * b == p * k
    ensures b == p * j
    decreases a
  {
    if a == 1 {
      j := k;
    } else {
      var q, r := p / a, p % a;
      assert !Divides(a, p);
      calc {
        r * b;
        (p - q * a) * b;
        p * b - q * (a * b);
        p * b - q * (p * k);
        p * (b - q * k);
      }
      j := PrimeDividesFactor(p, r, b, b - q * k);
    }
  }

  lemma MultipleTimes(p: int, a: int, b: int)
    requires p > 0 && Divides(p, a)
    ensures Divides(p, a * b)
  {
    var k := ProductFromDivides(p, a);
    assert a * b == p * (k * b);
    DividesFromProduct(p, k * b, a * b);
  }

  lemma PrimeDividesFactorOf(p: int, a: int, b: int)
    requires Prime(p) && !Divides(p, a) && Divides(p, a * b)
    ensures Divides(p, b)
  {
    var k := ProductFromDivides(p, a * b);
    var r, q := a % p, a / p;
    calc {
      r * b;
      (a - p * q) * b;
      a * b - p * (q * b);
      p * (k - q * b);
    }
    var l := PrimeDividesFactor(p, r, b, k - q * b);
    DividesFromProduct(p, l, b);
  }

  lemma PrimeDividesProductExactlyWhen(p: int, a: int, b: int)
    requires Prime(p)
    ensures Divides(p, a * b) <==> Divides(p, a) || Divides(p, b)
  {
    if Divides(p, a) {
      MultipleTimes(p, a, b);
    } else if Divides(p, b) {
      MultipleTimes(p, b, a);
    } else if Divides(p, a * b) {
      PrimeDividesFactorOf(p, a, b);
    }
  }

  // ---------------------------------------------------------------- primes are unbounded

  ghost function Factorial(n: nat): nat {
    if n == 0 then 1 else n * Factorial(n - 1)
  }

  lemma {:induction false} FactorialDivisible(n: nat, d: int)
    requires 1 <= d <= n
    ensures Divides(d, Factorial(n))
  {
    if d == n {
      DividesFromProduct(d, Factorial(n - 1), Factorial(n));
    } else {
      FactorialDivisible(n - 1, d);
      var k := ProductFromDivides(d, Factorial(n - 1));
      assert n * (d * k) == d * (n * k);
      DividesFromProduct(d, n * k, Factorial(n));
    }
  }

  lemma {:induction false} FactorialPositive(n: nat)
    ensures Factorial(n) >= 1
  {
    if n > 0 {
      FactorialPositive(n - 1);
      assert n * Factorial(n - 1) >= 1 * Factorial(n - 1);
    }
  }

  /** Every number above one has a prime divisor. */
  lemma PrimeDivisor(n: int) returns (q: int)
    requires 2 <= n
    ensures Prime(q) && Divides(q, n) && q <= n
    decreases n
  {
    if Prime(n) {
      q := n;
    } else {
      var m :| 2 <= m < n && Divides(m, n);
      q := PrimeDivisor(m);
      DividesTransitive(q, m, n);
    }
  }

  /** Euclid: no bound is above every prime. */
  lemma PrimeAtLeast(n: nat) returns (p: int)
    ensures Prime(p) && n <= p
  {
    FactorialPositive(n);
    var big := Factorial(n) + 1;
    p := PrimeDivisor(big);
    if p < n {
      FactorialDivisible(n, p);
      var k := ProductFromDivides(p, Factorial(n));
      var l := ProductFromDivides(p, big);
      UniqueQuotient(p, l, k, 1);
    }
  }

  // ---------------------------------------------------------------- trial division

  /** A candidate the trial loop tests: i and i + 2 for i = 5, 11, 17, ... while i * i <= n. */
  ghost predicate TrialHit(n: int, i: int) {
    5 <= i && i % 6 == 5 && i * i <= n && (Divides(i, n) || Divides(i + 2, n))
  }

  ghost predicate HasTrialDivisor(n: int) {
    exists i :: TrialHit(n, i)
  }

  lemma TrialHitIsComposite(n: int, i: int)
    requires TrialHit(n, i)
    ensures n > 3 && !Prime(n)
  {}

  lemma SquareMonotone(a: int, b: int)
    requires 0 <= a <= b
    ensures a * a <= b * b
  {}

  /** No divisor below i survives the trials made before i, provided 2 and 3 do not divide n. */
  lemma NoSmallDivisor(n: int, i: int, d: int)
    requires n > 3 && n % 2 == 1 && n % 3 != 0
    requires 5 <= i && i % 6 == 5 && forall j :: 5 <= j < i && j % 6 == 5 ==> !TrialHit(n, j)
    requires i == 5 || (i - 6) * (i - 6) <= n
    requires 2 <= d < i
    ensures !Divides(d, n)
  {
    if d % 2 == 0 {
      if Divides(d, n) { DividesTransitive(2, d, n); }
    } else if d % 3 == 0 {
      if Divides(d, n) { DividesTransitive(3, d, n); }
    } else {
      var j := TrialBelow(d, i);
      SquareMonotone(j, i - 6);
      assert !TrialHit(n, j);
    }
  }

  /** A number with neither 2 nor 3 as a divisor is one of the two numbers some trial tests. */
  lemma TrialBelow(d: int, i: int) returns (j: int)
    requires 2 <= d < i && d % 2 != 0 && d % 3 != 0 && i % 6 == 5
    ensures 5 <= j <= i - 6 && j % 6 == 5 && (d == j || d == j + 2)
  {
    j := if d % 6 == 5 then d else d - 2;
  }

  lemma NoDivisorBelowRoot(n: int, i: int)
    requires n > 3 && i >= 2 && i * i > n && forall d :: 2 <= d < i ==> !Divides(d, n)
    ensures Prime(n)
  {
    forall d | 2 <= d < n
      ensures !Divides(d, n)
    {
      if d >= i && Divides(d, n) {
        var e := ProductFromDivides(d, n);
        CofactorBelowRoot(n, i, d, e);
        DividesFromProduct(e, d, n);
      }
    }
  }

  lemma CofactorBelowRoot(n: int, i: int, d: int, e: int)
    requires 2 <= i <= d < n && i * i > n && n == d * e
    ensures 2 <= e < i
  {}

  /** Every trial before i has been made and none fired. */
  ghost predicate Passed(n: int, i: int) {
    && 5 <= i && i % 6 == 5 && (i == 5 || (i - 6) * (i - 6) <= n)
    && forall j :: 5 <= j < i && j % 6 == 5 ==> !TrialHit(n, j)
  }

  lemma PassOne(n: int, i: int)
    requires Passed(n, i) && i * i <= n && n % i != 0 && n % (i + 2) != 0
    ensures Passed(n, i + 6) && i < n
  {
    assert i * i >= 5 * i;
    forall j | 5 <= j < i + 6 && j % 6 == 5 ensures !TrialHit(n, j) {
      assert j < i || j == i;
    }
  }

  lemma PassedAll(n: int, i: int)
    requires Passed(n, i) && i * i > n
    ensures !HasTrialDivisor(n)
  {
    forall j ensures !TrialHit(n, j) {
      if j >= i { SquareMonotone(i, j); }
    }
  }

  lemma PassedAllIsPrime(n: int, i: int)
    requires Passed(n, i) && i * i > n && n > 3 && n % 2 == 1 && n % 3 != 0
    ensures Prime(n)
  {
    forall d | 2 <= d < i ensures !Divides(d, n) { NoSmallDivisor(n, i, d); }
    NoDivisorBelowRoot(n, i);
  }

  lemma TrialFires(n: int, i: int)
    requires 5 <= i && i % 6 == 5 && i * i <= n && (n % i == 0 || n % (i + 2) == 0)
    ensures HasTrialDivisor(n) && !Prime(n)
  {
    assert TrialHit(n, i);
    TrialHitIsComposite(n, i);
  }

  /**
    The trial loop. Its answer is exact for every argument in terms of the trials, and for every
    odd argument (the only ones the next-prime search passes) it is primality.
   */
  method IsPrime(n: int) returns (r: bool)
    ensures r <==> n == 2 || n == 3 || (n > 3 && n % 3 != 0 && !HasTrialDivisor(n))
    ensures n <= 3 || n % 2 == 1 ==> (r <==> Prime(n))
  {
    if n <= 1 { return false; }
    if n <= 3 {
      SmallPrimes();
      return true;
    }
    if n % 3 == 0 {
      assert Divides(3, n);
      return false;
    }
    var i := 5;
    while i * i <= n
      invariant Passed(n, i)
      decreases n - i
    {
      if n % i == 0 || n % (i + 2) == 0 {
        TrialFires(n, i);
        return false;
      }
      PassOne(n, i);
      i := i + 6;
    }
    PassedAll(n, i);
    if n % 2 == 1 { PassedAllIsPrime(n, i); }
    return true;
  }

  lemma SmallPrimes()
    ensures Prime(2) && Prime(3)
  {}

  /**
    For every odd number the trials decide primality. They skip the divisor 2, a latent flaw: the answer for an
    even number is right only when some other trial happens to fire. The search for the next prime asks about
    odd numbers only and never meets it.
   */
  lemma TrialsDecidePrimalityExactlyWhen(n: int)
    requires n > 3
    ensures ((n % 3 != 0 && !HasTrialDivisor(n)) <==> Prime(n))
       <==> n % 2 == 1 || n % 3 == 0 || HasTrialDivisor(n)
  {
    if n % 3 == 0 { assert Divides(3, n); }
    if HasTrialDivisor(n) {
      var i :| TrialHit(n, i);
      TrialHitIsComposite(n, i);
    }
    if n % 2 == 0 { assert Divides(2, n); }
    if n % 2 == 1 && n % 3 != 0 && !HasTrialDivisor(n) {
      var i := 5;
      while i * i <= n
        invariant Passed(n, i)
        decreases n - i
      {
        assert !TrialHit(n, i);
        PassOne(n, i);
        i := i + 6;
      }
      PassedAllIsPrime(n, i);
    }
  }

  /** Four passes every trial and is not prime. */
  lemma FourPassesTheTrials()
    ensures 4 % 3 != 0 && !HasTrialDivisor(4) && !Prime(4)
  {
    forall i ensures !TrialHit(4, i) {
      if i >= 5 { assert i * i >= 25; }
    }
    assert Divides(2, 4);
  }

  ghost predicate NoPrimeIn(low: int, high: int) {
    forall q :: low <= q < high ==> !Prime(q)
  }

  /** Stepping from an odd composite to the next odd number skips no prime and not the known prime above. */
  lemma StepByTwo(start: int, p: int, above: int)
    requires NoPrimeIn(start, p) && 3 <= p <= above && p % 2 == 1 && !Prime(p) && Prime(above) && above % 2 == 1
    ensures NoPrimeIn(start, p + 2) && p + 2 <= above
  {
    EvenNotPrime(p + 1);
  }

  lemma StartOdd(start: int)
    requires start > 2
    ensures NoPrimeIn(start, if start % 2 == 0 then start + 1 else start)
  {
    if start % 2 == 0 { EvenNotPrime(start); }
  }

  /** The trial loop on the arguments the search below passes. */
  method IsOddPrime(n: int) returns (r: bool)
    requires n % 2 == 1
    ensures r <==> Prime(n)
  {
    r := IsPrime(n);
  }

  /** The least prime that is at least n, and 2 below that; the search always ends. */
  method NextPrime(start: int) returns (p: int)
    ensures Prime(p) && start <= p && NoPrimeIn(start, p)
  {
    if start <= 2 {
      SmallPrimes();
      return 2;
    }
    StartOdd(start);
    p := if start % 2 == 0 then start + 1 else start;
    ghost var above := PrimeAtLeast(p);
    OddPrime(above);
    var prime := IsOddPrime(p);
    while !prime
      invariant 3 <= p <= above && p % 2 == 1 && start <= p
      invariant prime <==> Prime(p)
      invariant NoPrimeIn(start, p)
      decreases above - p
    {
      StepByTwo(start, p, above);
      p := p + 2;
      prime := IsOddPrime(p);
    }
  }

  lemma EvenNotPrime(n: int)
    requires n > 2 && n % 2 == 0
    ensures !Prime(n)
  {
    assert Divides(2, n);
  }

  lemma OddPrime(p: int)
    requires Prime(p) && p > 2
    ensures p % 2 == 1
  {
    assert !Divides(2, p);
  }
}
