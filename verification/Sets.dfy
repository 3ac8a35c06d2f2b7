/** Sizes of finite sets. */
module Sets {

  lemma {:induction false} SubsetSize<T>(a: set<T>, b: set<T>)
    requires a <= b
    ensures |a| <= |b|
  {
    if a != {} {
      var x :| x in a;
      SubsetSize(a - {x}, b - {x});
    }
  }

  /** A set has at most as many elements as its image under an injective function. */
  lemma {:induction false} InjectiveSize<S, T>(a: set<S>, image: set<T>, f: S --> T)
    requires forall x :: x in a ==> f.requires(x) && f(x) in image
    requires forall x, y :: x in a && y in a && f(x) == f(y) ==> x == y
    ensures |a| <= |image|
  {
    if a != {} {
      var x :| x in a;
      InjectiveSize(a - {x}, image - {f(x)}, f);
    }
  }
}
