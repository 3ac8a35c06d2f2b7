/** Sums of a weight over a sequence, under pointwise changes. */
module Sums {

  ghost function Sum<T>(s: seq<T>, f: T -> int): int {
    if s == [] then 0 else Sum(s[..|s| - 1], f) + f(s[|s| - 1])
  }

  lemma {:induction false} SumUpdate<T>(s: seq<T>, i: nat, x: T, f: T -> int)
    requires i < |s|
    ensures Sum(s[i := x], f) == Sum(s, f) - f(s[i]) + f(x)
  {
    var n := |s| - 1;
    if i == n {
      assert s[i := x][..n] == s[..n];
    } else {
      assert s[i := x][..n] == s[..n][i := x];
      SumUpdate(s[..n], i, x, f);
    }
  }

  /** Raising each term by at most c raises the sum by at most c times the length. */
  lemma {:induction false} SumWithin<T>(s: seq<T>, t: seq<T>, f: T -> int, c: nat)
    requires |s| == |t| && forall i :: 0 <= i < |s| ==> f(s[i]) <= f(t[i]) <= f(s[i]) + c
    ensures Sum(s, f) <= Sum(t, f) <= Sum(s, f) + c * |s|
  {
    if s != [] {
      var n := |s| - 1;
      SumWithin(s[..n], t[..n], f, c);
      assert c * |s| == c * n + c;
    }
  }

  lemma {:induction false} SumStrict<T>(s: seq<T>, t: seq<T>, f: T -> int, at: nat)
    requires |s| == |t| && forall i :: 0 <= i < |s| ==> f(s[i]) <= f(t[i])
    requires at < |s| && f(s[at]) < f(t[at])
    ensures Sum(s, f) < Sum(t, f)
  {
    var n := |s| - 1;
    if at == n {
      SumMonotone(s[..n], t[..n], f);
    } else {
      SumStrict(s[..n], t[..n], f, at);
    }
  }

  lemma {:induction false} SumMonotone<T>(s: seq<T>, t: seq<T>, f: T -> int)
    requires |s| == |t| && forall i :: 0 <= i < |s| ==> f(s[i]) <= f(t[i])
    ensures Sum(s, f) <= Sum(t, f)
  {
    if s != [] { SumMonotone(s[..|s| - 1], t[..|s| - 1], f); }
  }

  lemma {:induction false} SumSame<T>(s: seq<T>, t: seq<T>, f: T -> int, g: T -> int)
    requires |s| == |t| && forall i :: 0 <= i < |s| ==> f(s[i]) == g(t[i])
    ensures Sum(s, f) == Sum(t, g)
  {
    if s != [] { SumSame(s[..|s| - 1], t[..|s| - 1], f, g); }
  }

  lemma {:induction false} SumNonNegative<T>(s: seq<T>, f: T -> int, at: nat)
    requires forall i :: 0 <= i < |s| ==> f(s[i]) >= 0
    ensures Sum(s, f) >= 0
    ensures at < |s| ==> Sum(s, f) >= f(s[at])
  {
    if s != [] { SumNonNegative(s[..|s| - 1], f, at); }
  }

  lemma {:induction false} SumZero<T>(s: seq<T>, f: T -> int)
    requires forall i :: 0 <= i < |s| ==> f(s[i]) == 0
    ensures Sum(s, f) == 0
  {
    if s != [] { SumZero(s[..|s| - 1], f); }
  }
}
