/**
 * Python's `sorted` and `list.sort`, modelled as a stable insertion sort by a
 * total preorder `le` ("x goes no later than y").
 */
module Sorting {

  ghost predicate TotalPreorder<T(!new)>(le: (T, T) -> bool) {
    && (forall x, y :: le(x, y) || le(y, x))
    && (forall x, y, z :: le(x, y) && le(y, z) ==> le(x, z))
  }

  predicate SortedBy<T>(s: seq<T>, le: (T, T) -> bool) {
    forall i, j :: 0 <= i < j < |s| ==> le(s[i], s[j])
  }

  /** Inserts x after every element that goes no later than x. */
  function InsertBy<T(!new)>(x: T, s: seq<T>, le: (T, T) -> bool): (r: seq<T>)
    requires TotalPreorder(le)
    requires SortedBy(s, le)
    ensures multiset(r) == multiset(s) + multiset{x}
    ensures SortedBy(r, le)
  {
    if s == [] then [x]
    else if le(s[|s| - 1], x) then s + [x]
    else
      var init, last := s[..|s| - 1], s[|s| - 1];
      assert s == init + [last];
      var r' := InsertBy(x, init, le);
      BoundedByLast(r', init, x, last, le);
      SortedSnoc(r', last, le);
      r' + [last]
  }

  /** Every element of a rearrangement of `init` and `x` goes no later than `last`. */
  lemma BoundedByLast<T(!new)>(r': seq<T>, init: seq<T>, x: T, last: T, le: (T, T) -> bool)
    requires TotalPreorder(le)
    requires SortedBy(init + [last], le)
    requires !le(last, x)
    requires multiset(r') == multiset(init) + multiset{x}
    ensures forall k :: 0 <= k < |r'| ==> le(r'[k], last)
  {
    forall k | 0 <= k < |r'| ensures le(r'[k], last) {
      assert r'[k] in multiset(r');
      if r'[k] != x {
        assert r'[k] in multiset(init);
        var i :| 0 <= i < |init| && init[i] == r'[k];
        assert (init + [last])[i] == init[i];
        assert (init + [last])[|init|] == last;
      }
    }
  }

  /** Appending an element that every element goes no later than keeps a sequence sorted. */
  lemma SortedSnoc<T>(s: seq<T>, y: T, le: (T, T) -> bool)
    requires SortedBy(s, le)
    requires forall k :: 0 <= k < |s| ==> le(s[k], y)
    ensures SortedBy(s + [y], le)
  {
  }

  /** A sort by `le`; `SortByStable` shows that elements that tie keep their input order. */
  function SortBy<T(!new)>(s: seq<T>, le: (T, T) -> bool): (r: seq<T>)
    requires TotalPreorder(le)
    ensures multiset(r) == multiset(s)
    ensures SortedBy(r, le)
  {
    if s == [] then []
    else
      assert s == s[..|s| - 1] + [s[|s| - 1]];
      InsertBy(s[|s| - 1], SortBy(s[..|s| - 1], le), le)
  }

  /** Sorting a sequence that is already in order leaves it unchanged. */
  lemma {:induction false} SortBySorted<T(!new)>(s: seq<T>, le: (T, T) -> bool)
    requires TotalPreorder(le)
    requires SortedBy(s, le)
    ensures SortBy(s, le) == s
  {
    if s != [] {
      var init, last := s[..|s| - 1], s[|s| - 1];
      assert SortedBy(init, le);
      SortBySorted(init, le);
      assert SortBy(s, le) == InsertBy(last, init, le);
      assert init == [] || le(init[|init| - 1], last);
      assert s == init + [last];
    }
  }

  lemma SortedElements<T(!new)>(s: seq<T>, le: (T, T) -> bool)
    requires TotalPreorder(le)
    ensures forall x :: x in SortBy(s, le) <==> x in s
  {
    var r := SortBy(s, le);
    forall x ensures x in r <==> x in s {
      assert x in r <==> x in multiset(r);
      assert x in s <==> x in multiset(s);
    }
  }

  // ---------------------------------------------------------------------------
  // Stability
  // ---------------------------------------------------------------------------

  /** The elements of s that satisfy p, in their order in s. */
  function Filter<T>(s: seq<T>, p: T -> bool): (r: seq<T>)
    ensures |r| <= |s|
  {
    if s == [] then []
    else Filter(s[..|s| - 1], p) + (if p(s[|s| - 1]) then [s[|s| - 1]] else [])
  }

  /** The filtered elements are exactly the elements of s that satisfy p. */
  lemma {:induction false} FilterMembers<T>(s: seq<T>, p: T -> bool)
    ensures forall x :: x in Filter(s, p) <==> x in s && p(x)
  {
    if s != [] {
      var init, last := s[..|s| - 1], s[|s| - 1];
      assert s == init + [last];
      FilterMembers(init, p);
      FilterSnoc(init, last, p);
    }
  }

  /** The elements that tie with c under le: each goes no later than c and c no later than it. */
  function Ties<T>(le: (T, T) -> bool, c: T): T -> bool {
    y => le(c, y) && le(y, c)
  }

  /** Two elements that tie with c go in either order. */
  lemma TiesAreOrdered<T(!new)>(le: (T, T) -> bool, c: T, x: T, y: T)
    requires TotalPreorder(le)
    ensures Ties(le, c)(x) && Ties(le, c)(y) ==> le(x, y)
  {
  }

  /** Filtering one more element at the end adds it when it satisfies p. */
  lemma FilterSnoc<T>(s: seq<T>, x: T, p: T -> bool)
    ensures Filter(s + [x], p) == Filter(s, p) + (if p(x) then [x] else [])
  {
    assert (s + [x])[..|s|] == s;
  }

  /** Inserting x keeps the elements tying with any c in order, with x after those already there. */
  lemma {:induction false} InsertByStable<T(!new)>(x: T, s: seq<T>, le: (T, T) -> bool, c: T)
    requires TotalPreorder(le)
    requires SortedBy(s, le)
    ensures Filter(InsertBy(x, s, le), Ties(le, c)) == Filter(s, Ties(le, c)) + (if Ties(le, c)(x) then [x] else [])
  {
    var p := Ties(le, c);
    if s == [] {
      FilterSnoc([], x, p);
      assert [] + [x] == [x];
    } else if le(s[|s| - 1], x) {
      FilterSnoc(s, x, p);
    } else {
      var init, last := s[..|s| - 1], s[|s| - 1];
      assert s == init + [last];
      assert SortedBy(init, le);
      InsertByStable(x, init, le, c);
      var r' := InsertBy(x, init, le);
      assert InsertBy(x, s, le) == r' + [last];
      TiesAreOrdered(le, c, last, x);
      SwapPast(init, r', x, last, p);
    }
  }

  /**
   * When x and last do not both satisfy p, filtering r' + [last] where r'
   * filters like init + [x] gives the same as filtering init + [last] + [x].
   */
  lemma SwapPast<T>(init: seq<T>, r': seq<T>, x: T, last: T, p: T -> bool)
    requires Filter(r', p) == Filter(init, p) + (if p(x) then [x] else [])
    requires !(p(x) && p(last))
    ensures Filter(r' + [last], p) == Filter(init + [last], p) + (if p(x) then [x] else [])
  {
    FilterSnoc(r', last, p);
    FilterSnoc(init, last, p);
    var a, ls := Filter(init, p), if p(last) then [last] else [];
    if p(x) {
      assert ls == [];
      assert Filter(r' + [last], p) == a + [x] + [];
      assert Filter(init + [last], p) == a + [];
    } else {
      assert Filter(r', p) == a + [];
    }
  }

  /** SortBy is stable: for every c, the elements tying with c keep their input order. */
  lemma {:induction false} SortByStable<T(!new)>(s: seq<T>, le: (T, T) -> bool, c: T)
    requires TotalPreorder(le)
    ensures Filter(SortBy(s, le), Ties(le, c)) == Filter(s, Ties(le, c))
  {
    if s != [] {
      var init, last := s[..|s| - 1], s[|s| - 1];
      assert s == init + [last];
      SortByStable(init, le, c);
      InsertByStable(last, SortBy(init, le), le, c);
      FilterSnoc(init, last, Ties(le, c));
    }
  }
}
