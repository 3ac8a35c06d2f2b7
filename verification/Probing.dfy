/**
  The quadratic probe sequence s, s + 1, s + 4, s + 9, ... modulo a prime table length.
  Everything the hash map relies on about which slots a probe visits, and how many.
 */
module Probing {
  import opened Primes

  /** The slot visited on try number i from home slot s. */
  function Probe(s: nat, i: nat, p: nat): (r: nat)
    requires p > 0
    ensures r < p
  {
    (s + i * i) % p
  }

  lemma SameRemainder(a: int, b: int, p: int)
    requires p > 0
    ensures a % p == b % p <==> Divides(p, a - b)
  {
    if a % p == b % p {
      assert a - b == p * (a / p - b / p);
      DividesFromProduct(p, a / p - b / p, a - b);
    }
    if Divides(p, a - b) {
      var k := ProductFromDivides(p, a - b);
      assert p * (a / p) + a % p == p * (b / p + k) + b % p;
      if a % p >= b % p {
        UniqueQuotient(p, b / p + k, a / p, a % p - b % p);
      } else {
        UniqueQuotient(p, a / p, b / p + k, b % p - a % p);
      }
    }
  }

  /** Two tries meet in the same slot exactly when their sum or their difference is a multiple of p. */
  lemma ProbesMeetExactlyWhen(s: nat, i: nat, j: nat, p: nat)
    requires Prime(p)
    ensures Probe(s, i, p) == Probe(s, j, p) <==> Divides(p, j - i) || Divides(p, j + i)
  {
    assert (s + j * j) - (s + i * i) == (j - i) * (j + i);
    SameRemainder(s + j * j, s + i * i, p);
    PrimeDividesProductExactlyWhen(p, j - i, j + i);
  }

  lemma NoSmallMultiple(p: nat, x: int)
    requires p > 0 && 0 < x < p
    ensures !Divides(p, x)
  {}

  /** Tries below half the table hit distinct slots; with i = 0, no try below p returns home. */
  lemma ProbesDistinct(s: nat, i: nat, j: nat, p: nat)
    requires Prime(p) && i < j && i + j < p
    ensures Probe(s, i, p) != Probe(s, j, p)
  {
    ProbesMeetExactlyWhen(s, i, j, p);
    NoSmallMultiple(p, j - i);
    NoSmallMultiple(p, j + i);
  }

  lemma ProbeReturnsHome(s: nat, p: nat)
    requires Prime(p) && s < p
    ensures Probe(s, 0, p) == s && Probe(s, p, p) == s
  {
    FirstTryIsHome(s, p);
    DividesFromProduct(p, 1, p);
    ProbesMeetExactlyWhen(s, 0, p, p);
  }

  lemma FirstTryIsHome(s: nat, p: nat)
    requires s < p
    ensures Probe(s, 0, p) == s
  {}

  /** The second half of a probe sequence revisits the first half backwards. */
  lemma ProbeMirror(s: nat, i: nat, p: nat)
    requires Prime(p) && i <= p
    ensures Probe(s, i, p) == Probe(s, p - i, p)
  {
    DividesFromProduct(p, 1, p);
    ProbesMeetExactlyWhen(s, i, p - i, p);
  }

  ghost function Reached(s: nat, n: nat, p: nat): set<nat>
    requires p > 0
  {
    set i | 0 <= i < n :: Probe(s, i, p)
  }

  lemma {:induction false} ReachedCount(s: nat, n: nat, p: nat)
    requires Prime(p) && 2 * n <= p + 1
    ensures |Reached(s, n, p)| == n
  {
    if n == 0 {
      assert Reached(s, 0, p) == {};
    } else {
      ReachedCount(s, n - 1, p);
      forall i | 0 <= i < n - 1 ensures Probe(s, i, p) != Probe(s, n - 1, p) {
        ProbesDistinct(s, i, n - 1, p);
      }
      assert Reached(s, n, p) == Reached(s, n - 1, p) + {Probe(s, n - 1, p)};
    }
  }

  /** A whole probe sequence visits exactly (p + 1) / 2 of the p slots of an odd prime table. */
  lemma ProbeReach(s: nat, p: nat)
    requires Prime(p) && p > 2
    ensures Reached(s, p, p) == Reached(s, (p + 1) / 2, p) && |Reached(s, p, p)| == (p + 1) / 2
  {
    OddPrime(p);
    ReachedCount(s, (p + 1) / 2, p);
    forall i | 0 <= i < p ensures Probe(s, i, p) in Reached(s, (p + 1) / 2, p) {
      ProbeMirror(s, i, p);
      assert i < (p + 1) / 2 || p - i < (p + 1) / 2;
    }
  }
}
