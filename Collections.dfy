// Enumerating the elements of a set, in the arbitrary order in which
// Python iterates a set, a frozenset or the keys of a dictionary.

module Collections {

  predicate NoDuplicates<T(==)>(s: seq<T>) {
    forall i, j :: 0 <= i < j < |s| ==> s[i] != s[j]
  }

  /** The elements of st listed once each, in an order the model leaves open. */
  method SetToSeq<T>(st: set<T>) returns (s: seq<T>)
    ensures forall x :: x in s <==> x in st
    ensures NoDuplicates(s)
    ensures |s| == |st|
  {
    s := [];
    var rest := st;
    while rest != {}
      invariant rest <= st
      invariant forall x :: x in s <==> x in st && x !in rest
      invariant NoDuplicates(s)
      invariant |s| + |rest| == |st|
      decreases |rest|
    {
      var x :| x in rest;
      s := s + [x];
      rest := rest - {x};
    }
  }
}
