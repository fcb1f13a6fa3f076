/** Helpers for the Python idioms that iterate a set or copy it into a list. */
module Collections {

  /** No element occurs twice. */
  ghost predicate Distinct<T(!new)>(xs: seq<T>)
  {
    forall x :: multiset(xs)[x] <= 1
  }

  /**
    `list(s)` for a set: every element once, in an order the model leaves
    open (Python's set iteration order is not part of the behaviour).
   */
  method Enumerate<T(!new)>(s: set<T>) returns (xs: seq<T>)
    ensures forall x :: x in xs <==> x in s
    ensures |xs| == |s|
    ensures Distinct(xs)
  {
    xs := [];
    var rest := s;
    while rest != {}
      invariant rest <= s
      invariant forall x :: x in xs <==> x in s && x !in rest
      invariant |xs| + |rest| == |s|
      invariant Distinct(xs)
      decreases |rest|
    {
      var x :| x in rest;
      xs := xs + [x];
      rest := rest - {x};
    }
  }
}
