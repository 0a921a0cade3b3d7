/**
 * Set operations of the current package (imagecmp/setops.py): superset search,
 * subset elimination for general sets and for integer intervals, and the
 * tolerance grouping `group_by` built on a two-pointer sweep.
 */
module SetOps {
  import opened Sorting

  // ---------------------------------------------------------------------------
  // has_supersets / without_subsets on general sets
  // ---------------------------------------------------------------------------

  /** Some set of s contains x. */
  predicate HasSuperset<T>(x: set<T>, s: seq<set<T>>) {
    exists i :: 0 <= i < |s| && x <= s[i]
  }

  /** has_supersets: a search loop with an early return. */
  method HasSupersets<T>(x: set<T>, s: seq<set<T>>) returns (found: bool)
    ensures found <==> HasSuperset(x, s)
  {
    for i := 0 to |s|
      invariant forall k :: 0 <= k < i ==> !(x <= s[k])
    {
      if x <= s[i] {
        return true;
      }
    }
    return false;
  }

  function ByLength<T>(): (set<T>, set<T>) -> bool {
    (x: set<T>, y: set<T>) => |x| <= |y|
  }

  /** The sets of s that no other set of s properly contains. */
  ghost function MaximalSets<T>(s: seq<set<T>>): set<set<T>> {
    set x | x in s && forall y :: y in s ==> !(x < y)
  }

  /**
   * without_subsets: sort by size, then keep each set that has no superset
   * after it in that order.
   */
  function WithoutSubsets<T(!new)>(s: seq<set<T>>): (r: set<set<T>>)
    ensures forall x :: x in r ==> x in s
  {
    var sorted := SortBy(s, ByLength());
    SortedElements(s, ByLength());
    set i | 0 <= i < |sorted| && !HasSuperset(sorted[i], sorted[i + 1..]) :: sorted[i]
  }

  lemma {:induction false} KeptAtOrAfter<T(!new)>(sorted: seq<set<T>>, i: nat)
    requires i < |sorted|
    ensures exists j :: i <= j < |sorted| && sorted[i] <= sorted[j] && !HasSuperset(sorted[j], sorted[j + 1..])
    decreases |sorted| - i
  {
    if HasSuperset(sorted[i], sorted[i + 1..]) {
      var k :| 0 <= k < |sorted[i + 1..]| && sorted[i] <= sorted[i + 1..][k];
      KeptAtOrAfter(sorted, i + 1 + k);
    }
  }

  /** Every input set lies inside some set that without_subsets keeps. */
  lemma WithoutSubsetsCovers<T(!new)>(s: seq<set<T>>)
    ensures forall x :: x in s ==> exists m :: m in WithoutSubsets(s) && x <= m
  {
    var sorted := SortBy(s, ByLength());
    SortedElements(s, ByLength());
    forall x | x in s ensures exists m :: m in WithoutSubsets(s) && x <= m {
      var i :| 0 <= i < |sorted| && sorted[i] == x;
      KeptAtOrAfter(sorted, i);
      var j :| i <= j < |sorted| && sorted[i] <= sorted[j] && !HasSuperset(sorted[j], sorted[j + 1..]);
      assert sorted[j] in WithoutSubsets(s);
    }
  }

  lemma {:induction false} MaximalKept<T(!new)>(s: seq<set<T>>, sorted: seq<set<T>>, i: nat)
    requires sorted == SortBy(s, ByLength())
    requires i < |sorted| && sorted[i] in MaximalSets(s)
    ensures exists j :: i <= j < |sorted| && sorted[j] == sorted[i] && !HasSuperset(sorted[j], sorted[j + 1..])
    decreases |sorted| - i
  {
    SortedElements(s, ByLength());
    if HasSuperset(sorted[i], sorted[i + 1..]) {
      var k :| 0 <= k < |sorted[i + 1..]| && sorted[i] <= sorted[i + 1..][k];
      var j := i + 1 + k;
      assert sorted[j] in s;
      MaximalSupersetIsEqual(s, sorted[i], sorted[j]);
      MaximalKept(s, sorted, j);
    }
  }

  /** A maximal set's only superset among the inputs is itself. */
  lemma MaximalSupersetIsEqual<T>(s: seq<set<T>>, x: set<T>, y: set<T>)
    requires x in MaximalSets(s) && y in s && x <= y
    ensures y == x
  {
    assert !(x < y);
  }

  /** without_subsets keeps exactly the sets no input set properly contains. */
  lemma WithoutSubsetsIsMaximal<T(!new)>(s: seq<set<T>>)
    ensures WithoutSubsets(s) == MaximalSets(s)
  {
    var sorted := SortBy(s, ByLength());
    SortedElements(s, ByLength());
    forall x | x in WithoutSubsets(s) ensures x in MaximalSets(s) {
      var i :| 0 <= i < |sorted| && sorted[i] == x && !HasSuperset(x, sorted[i + 1..]);
      KeptSetIsMaximal(s, sorted, i);
    }
    forall x | x in MaximalSets(s) ensures x in WithoutSubsets(s) {
      var i :| 0 <= i < |sorted| && sorted[i] == x;
      MaximalKept(s, sorted, i);
    }
  }

  /** A set with no superset after it in size order has no proper superset at all. */
  lemma KeptSetIsMaximal<T(!new)>(s: seq<set<T>>, sorted: seq<set<T>>, i: nat)
    requires sorted == SortBy(s, ByLength())
    requires i < |sorted| && !HasSuperset(sorted[i], sorted[i + 1..])
    ensures forall y :: y in s ==> !(sorted[i] < y)
  {
    SortedElements(s, ByLength());
    forall y | y in s ensures !(sorted[i] < y) {
      var j :| 0 <= j < |sorted| && sorted[j] == y;
      if j > i {
        assert sorted[i + 1..][j - i - 1] == y;
      } else {
        assert ByLength()(y, sorted[i]) || j == i;
        NoLargerNotProperSuperset(sorted[i], y);
      }
    }
  }

  lemma NoLargerNotProperSuperset<T>(x: set<T>, y: set<T>)
    requires |y| <= |x|
    ensures !(x < y)
  {
    if x < y {
      ProperSubsetSmaller(x, y);
    }
  }

  lemma ProperSubsetSmaller<T>(x: set<T>, y: set<T>)
    requires x < y
    ensures |x| < |y|
  {
    assert y == x + (y - x);
  }

  // ---------------------------------------------------------------------------
  // without_pair_subsets on integer intervals
  // ---------------------------------------------------------------------------

  /** The tuple (a, b), read as the closed interval from a to b. */
  datatype Pair = Pair(a: int, b: int)

  predicate Contains(outer: Pair, inner: Pair) {
    outer.a <= inner.a && inner.b <= outer.b
  }

  /** Ascending a; for equal a, descending b (the two sorts of lines 59-60). */
  function LexOrder(): (Pair, Pair) -> bool {
    (p: Pair, q: Pair) => p.a < q.a || (p.a == q.a && p.b >= q.b)
  }

  /** Each pair of p is contained in some pair of q. */
  ghost predicate Covers(q: seq<Pair>, p: seq<Pair>) {
    forall i :: 0 <= i < |p| ==> CoveredBy(q, p[i])
  }

  /** Some pair of q contains x. */
  ghost predicate CoveredBy(q: seq<Pair>, x: Pair) {
    exists j :: 0 <= j < |q| && Contains(q[j], x)
  }

  /** A list covers any list whose elements all occur in it. */
  lemma CoversItsElements(q: seq<Pair>, p: seq<Pair>)
    requires forall x :: x in p ==> x in q
    ensures Covers(q, p)
  {
    forall i | 0 <= i < |p| ensures CoveredBy(q, p[i]) {
      assert p[i] in q;
      var j :| 0 <= j < |q| && q[j] == p[i];
      assert Contains(q[j], p[i]);
    }
  }

  predicate StrictlyIncreasing(s: seq<Pair>) {
    forall i, j :: 0 <= i < j < |s| ==> s[i].a < s[j].a && s[i].b < s[j].b
  }

  /** p is in s and no other pair of s contains it. */
  ghost predicate IsMaximalIn(p: Pair, s: seq<Pair>) {
    p in s && forall q :: q in s && Contains(q, p) ==> q == p
  }

  lemma LexOrderIsTotal()
    ensures TotalPreorder(LexOrder())
  {}

  /** Two maximal pairs of one input, in sort order, grow in both bounds. */
  lemma MaximalOrdered(q: Pair, p: Pair, pairs: seq<Pair>)
    requires IsMaximalIn(q, pairs) && IsMaximalIn(p, pairs) && q != p
    requires LexOrder()(q, p)
    ensures q.a < p.a && q.b < p.b
  {}

  /**
   * The maximal pairs of `pairs`, taken from a sorted copy in order, each
   * at the last of its repeated occurrences.
   */
  ghost function KeepMaximal(sorted: seq<Pair>, pairs: seq<Pair>): (r: seq<Pair>)
    ensures forall p :: p in r ==> p in sorted && IsMaximalIn(p, pairs)
  {
    if sorted == [] then []
    else
      var init, p := sorted[..|sorted| - 1], sorted[|sorted| - 1];
      var kept := KeepMaximal(init, pairs);
      if IsMaximalIn(p, pairs) && (init == [] || init[|init| - 1] != p) then kept + [p] else kept
  }

  lemma {:induction false} KeepMaximalIsStrict(sorted: seq<Pair>, pairs: seq<Pair>)
    requires SortedBy(sorted, LexOrder())
    ensures StrictlyIncreasing(KeepMaximal(sorted, pairs))
  {
    if sorted != [] {
      var init, p := sorted[..|sorted| - 1], sorted[|sorted| - 1];
      assert SortedBy(init, LexOrder());
      KeepMaximalIsStrict(init, pairs);
      var kept := KeepMaximal(init, pairs);
      if IsMaximalIn(p, pairs) && (init == [] || init[|init| - 1] != p) {
        forall q | q in kept ensures q.a < p.a && q.b < p.b {
          var m :| 0 <= m < |init| && init[m] == q;
          assert LexOrder()(sorted[m], sorted[|init| - 1]);
          assert LexOrder()(sorted[m], sorted[|sorted| - 1]);
          MaximalOrdered(q, p, pairs);
        }
        AppendStrict(kept, p);
      }
    }
  }

  /** A pair above every pair of a strictly increasing sequence extends it. */
  lemma AppendStrict(s: seq<Pair>, p: Pair)
    requires StrictlyIncreasing(s)
    requires forall q :: q in s ==> q.a < p.a && q.b < p.b
    ensures StrictlyIncreasing(s + [p])
  {
    forall i, j | 0 <= i < j < |s| + 1 ensures (s + [p])[i].a < (s + [p])[j].a && (s + [p])[i].b < (s + [p])[j].b {
      if j == |s| {
        assert (s + [p])[i] == s[i] && s[i] in s;
      } else {
        assert (s + [p])[i] == s[i] && (s + [p])[j] == s[j];
      }
    }
  }

  /** Every maximal pair of the sorted list is kept. */
  lemma {:induction false} KeepMaximalComplete(sorted: seq<Pair>, pairs: seq<Pair>)
    ensures forall p :: p in sorted && IsMaximalIn(p, pairs) ==> p in KeepMaximal(sorted, pairs)
  {
    if sorted != [] {
      var init, p := sorted[..|sorted| - 1], sorted[|sorted| - 1];
      KeepMaximalComplete(init, pairs);
      assert sorted == init + [p];
      if init != [] {
        assert init[|init| - 1] in init;
      }
    }
  }

  /**
   * The specification of without_pair_subsets: the maximal input pairs, once
   * each, in increasing order.
   */
  ghost function PrunedSpec(pairs: seq<Pair>): (r: seq<Pair>)
    ensures StrictlyIncreasing(r)
    ensures forall p :: p in r <==> IsMaximalIn(p, pairs)
  {
    LexOrderIsTotal();
    var sorted := SortBy(pairs, LexOrder());
    SortedElements(pairs, LexOrder());
    KeepMaximalIsStrict(sorted, pairs);
    KeepMaximalComplete(sorted, pairs);
    KeepMaximal(sorted, pairs)
  }

  /** Two strictly increasing sequences with the same elements are equal. */
  lemma {:induction false} StrictlyIncreasingUnique(s: seq<Pair>, t: seq<Pair>)
    requires StrictlyIncreasing(s) && StrictlyIncreasing(t)
    requires forall p :: p in s <==> p in t
    ensures s == t
    decreases |s|
  {
    assert s != [] ==> s[0] in t;
    assert t != [] ==> t[0] in s;
    if s != [] && t != [] {
      SameLeast(s, t);
      SameTails(s, t);
      StrictlyIncreasingUnique(s[1..], t[1..]);
      assert s == [s[0]] + s[1..] && t == [t[0]] + t[1..];
    }
  }

  /** Strictly increasing sequences with the same elements start alike. */
  lemma SameLeast(s: seq<Pair>, t: seq<Pair>)
    requires StrictlyIncreasing(s) && StrictlyIncreasing(t)
    requires forall p :: p in s <==> p in t
    requires s != [] && t != []
    ensures s[0] == t[0]
  {
    assert t[0] in t && s[0] in s;
    var i :| 0 <= i < |s| && s[i] == t[0];
    var j :| 0 <= j < |t| && t[j] == s[0];
  }

  /** ... and then have the same elements after their first. */
  lemma SameTails(s: seq<Pair>, t: seq<Pair>)
    requires StrictlyIncreasing(s) && StrictlyIncreasing(t)
    requires forall p :: p in s <==> p in t
    requires s != [] && t != [] && s[0] == t[0]
    ensures StrictlyIncreasing(s[1..]) && StrictlyIncreasing(t[1..])
    ensures forall p :: p in s[1..] <==> p in t[1..]
  {
    forall p ensures p in s[1..] <==> p in t[1..] {
      if p in s[1..] {
        var k :| 0 <= k < |s| - 1 && s[1..][k] == p;
        assert s[0].a < s[k + 1].a;
        assert p in t && p != t[0];
      }
      if p in t[1..] {
        var k :| 0 <= k < |t| - 1 && t[1..][k] == p;
        assert t[0].a < t[k + 1].a;
        assert p in s && p != s[0];
      }
    }
    assert t == [t[0]] + t[1..];
    assert s == [s[0]] + s[1..];
  }


  /** A subset of the input that covers it and has no nested pairs is the set of maximal pairs. */
  lemma CoverOfMaximal(pairs: seq<Pair>, r: seq<Pair>)
    requires forall p :: p in r ==> p in pairs
    requires Covers(r, pairs)
    requires StrictlyIncreasing(r)
    ensures forall p :: p in r <==> IsMaximalIn(p, pairs)
  {
    forall p | p in r ensures IsMaximalIn(p, pairs) {
      KeptIsMaximal(pairs, r, p);
    }
    forall p | IsMaximalIn(p, pairs) ensures p in r {
      MaximalIsKept(pairs, r, p);
    }
  }

  lemma KeptIsMaximal(pairs: seq<Pair>, r: seq<Pair>, p: Pair)
    requires forall p :: p in r ==> p in pairs
    requires Covers(r, pairs)
    requires StrictlyIncreasing(r)
    requires p in r
    ensures IsMaximalIn(p, pairs)
  {
    forall q | q in pairs && Contains(q, p) ensures q == p {
      var k :| 0 <= k < |pairs| && pairs[k] == q;
      var j :| 0 <= j < |r| && Contains(r[j], q);
      NotNested(r, r[j], p);
    }
  }

  lemma MaximalIsKept(pairs: seq<Pair>, r: seq<Pair>, p: Pair)
    requires forall p :: p in r ==> p in pairs
    requires Covers(r, pairs)
    requires IsMaximalIn(p, pairs)
    ensures p in r
  {
    var k :| 0 <= k < |pairs| && pairs[k] == p;
    var j :| 0 <= j < |r| && Contains(r[j], p);
    assert r[j] in pairs;
  }

  /** In a strictly increasing list, a pair contains another only if they are equal. */
  lemma NotNested(r: seq<Pair>, z: Pair, p: Pair)
    requires StrictlyIncreasing(r)
    requires z in r && p in r && Contains(z, p)
    ensures z == p
  {
    var iz :| 0 <= iz < |r| && r[iz] == z;
    var ip :| 0 <= ip < |r| && r[ip] == p;
  }

  /**
   * without_pair_subsets: sort by (a ascending, b descending), then walk the
   * list deleting, after each kept pair, the run of pairs whose b does not
   * exceed its b.
   */
  method WithoutPairSubsets(pairs: seq<Pair>) returns (r: seq<Pair>)
    ensures forall p :: p in r ==> p in pairs
    ensures Covers(r, pairs)
    ensures StrictlyIncreasing(r)
    ensures forall i, j :: 0 <= i < |r| && 0 <= j < |r| && i != j ==> !Contains(r[i], r[j])
    ensures r == PrunedSpec(pairs)
  {
    LexOrderIsTotal();
    var sortedPairs := SortBy(pairs, LexOrder());
    SortedElements(pairs, LexOrder());
    CoversItsElements(sortedPairs, pairs);
    var i := 0;
    while i < |sortedPairs| - 1
      invariant 0 <= i <= |sortedPairs|
      invariant SortedBy(sortedPairs, LexOrder())
      invariant forall p :: p in sortedPairs ==> p in pairs
      invariant Covers(sortedPairs, pairs)
      invariant forall p, q :: 0 <= p < q <= i && q < |sortedPairs| ==>
        sortedPairs[p].a < sortedPairs[q].a && sortedPairs[p].b < sortedPairs[q].b
      decreases |sortedPairs| - i
    {
      var transition := FindTransition(sortedPairs, i);
      var beforeTransition := transition - 1;
      ghost var before := sortedPairs;
      sortedPairs := sortedPairs[..i + 1] + sortedPairs[beforeTransition + 1..];
      DeleteRunIndex(before, sortedPairs, i, transition);
      DeleteRunSorted(before, sortedPairs, i, transition);
      DeleteRunMembers(before, sortedPairs, pairs, i, transition);
      DeleteRunCovers(before, sortedPairs, pairs, i, transition);
      DeleteRunStrict(before, sortedPairs, i, transition);
      i := i + 1;
    }
    r := sortedPairs;
    PrunedIsSpec(pairs, r);
  }

  /**
   * The for/break loop inside without_pair_subsets: the index of the first
   * pair after i whose b exceeds that of pair i, or the length when there
   * is none (the loop variable is then one before it).
   */
  method FindTransition(sortedPairs: seq<Pair>, i: nat) returns (transition: nat)
    requires i < |sortedPairs|
    ensures i + 1 <= transition <= |sortedPairs|
    ensures forall k :: i < k < transition ==> sortedPairs[k].b <= sortedPairs[i].b
    ensures transition < |sortedPairs| ==> sortedPairs[transition].b > sortedPairs[i].b
  {
    var b := sortedPairs[i].b;
    transition := i + 1;
    while transition < |sortedPairs| && sortedPairs[transition].b <= b
      invariant i + 1 <= transition <= |sortedPairs|
      invariant forall k :: i < k < transition ==> sortedPairs[k].b <= b
    {
      transition := transition + 1;
    }
  }

  /** What the pruning loop establishes determines its result. */
  lemma PrunedIsSpec(pairs: seq<Pair>, r: seq<Pair>)
    requires forall p :: p in r ==> p in pairs
    requires Covers(r, pairs)
    requires StrictlyIncreasing(r)
    ensures forall i, j :: 0 <= i < |r| && 0 <= j < |r| && i != j ==> !Contains(r[i], r[j])
    ensures r == PrunedSpec(pairs)
  {
    CoverOfMaximal(pairs, r);
    StrictlyIncreasingUnique(r, PrunedSpec(pairs));
  }

  /** Where each pair of the shortened list was before the deletion. */
  function Origin(i: nat, transition: nat, k: nat): nat {
    if k <= i then k else k + transition - (i + 1)
  }

  lemma DeleteRunIndex(before: seq<Pair>, after: seq<Pair>, i: nat, transition: nat)
    requires i + 1 <= transition <= |before|
    requires after == before[..i + 1] + before[transition..]
    ensures |after| == |before| - (transition - (i + 1))
    ensures forall k :: 0 <= k < |after| ==> Origin(i, transition, k) < |before| && after[k] == before[Origin(i, transition, k)]
  {}

  lemma DeleteRunSorted(before: seq<Pair>, after: seq<Pair>, i: nat, transition: nat)
    requires i + 1 <= transition <= |before|
    requires |after| == |before| - (transition - (i + 1))
    requires forall k :: 0 <= k < |after| ==> Origin(i, transition, k) < |before| && after[k] == before[Origin(i, transition, k)]
    requires SortedBy(before, LexOrder())
    ensures SortedBy(after, LexOrder())
  {
    forall p, q | 0 <= p < q < |after| ensures LexOrder()(after[p], after[q]) {
      assert Origin(i, transition, p) < Origin(i, transition, q);
      assert after[p] == before[Origin(i, transition, p)];
      assert after[q] == before[Origin(i, transition, q)];
    }
  }

  lemma DeleteRunMembers(before: seq<Pair>, after: seq<Pair>, pairs: seq<Pair>, i: nat, transition: nat)
    requires i + 1 <= transition <= |before|
    requires forall k :: 0 <= k < |after| ==> Origin(i, transition, k) < |before| && after[k] == before[Origin(i, transition, k)]
    requires forall p :: p in before ==> p in pairs
    ensures forall p :: p in after ==> p in pairs
  {
    forall p | p in after ensures p in pairs {
      var k :| 0 <= k < |after| && after[k] == p;
      assert before[Origin(i, transition, k)] == p;
    }
  }

  lemma DeleteRunCovers(before: seq<Pair>, after: seq<Pair>, pairs: seq<Pair>, i: nat, transition: nat)
    requires i + 1 <= transition <= |before|
    requires after == before[..i + 1] + before[transition..]
    requires SortedBy(before, LexOrder())
    requires Covers(before, pairs)
    requires forall k :: i < k < transition ==> before[k].b <= before[i].b
    ensures Covers(after, pairs)
  {
    forall x | 0 <= x < |pairs| ensures CoveredBy(after, pairs[x]) {
      var k :| 0 <= k < |before| && Contains(before[k], pairs[x]);
      if i < k < transition {
        assert LexOrder()(before[i], before[k]);
        assert after[i] == before[i] && Contains(after[i], pairs[x]);
      } else if k >= transition {
        var j := k - (transition - (i + 1));
        assert after[j] == before[k] && Contains(after[j], pairs[x]);
      } else {
        assert after[k] == before[k] && Contains(after[k], pairs[x]);
      }
    }
  }

  lemma DeleteRunStrict(before: seq<Pair>, after: seq<Pair>, i: nat, transition: nat)
    requires i + 1 <= transition <= |before|
    requires after == before[..i + 1] + before[transition..]
    requires SortedBy(before, LexOrder())
    requires forall p, q :: 0 <= p < q <= i && q < |before| ==> before[p].a < before[q].a && before[p].b < before[q].b
    requires transition < |before| ==> before[transition].b > before[i].b
    ensures forall p, q :: 0 <= p < q <= i + 1 && q < |after| ==> after[p].a < after[q].a && after[p].b < after[q].b
  {
    if i + 1 < |after| {
      assert after[i + 1] == before[transition];
      assert LexOrder()(before[i], before[transition]);
      forall p | 0 <= p < i + 1 ensures after[p].a < after[i + 1].a && after[p].b < after[i + 1].b {
        assert after[p] == before[p];
      }
    }
    forall p, q | 0 <= p < q <= i ensures after[p].a < after[q].a && after[p].b < after[q].b {
      assert after[p] == before[p] && after[q] == before[q];
    }
  }

  // ---------------------------------------------------------------------------
  // group_by: windows of a sorted key list
  // ---------------------------------------------------------------------------

  ghost predicate SortedReals(ks: seq<real>) {
    forall i, j :: InOrder(ks, i, j)
  }

  /** Keys at positions i < j are in non-decreasing order. */
  predicate InOrder(ks: seq<real>, i: int, j: int) {
    0 <= i < j < |ks| ==> ks[i] <= ks[j]
  }

  function Min(x: int, y: int): int {
    if x <= y then x else y
  }

  /** The first index whose key is at least v (|ks| when there is none). */
  function FirstAtLeast(ks: seq<real>, v: real): (r: nat)
    ensures r <= |ks|
    ensures r < |ks| ==> ks[r] >= v
  {
    FirstAtLeastFrom(ks, v, 0)
  }

  function FirstAtLeastFrom(ks: seq<real>, v: real, from: nat): (r: nat)
    requires from <= |ks|
    ensures from <= r <= |ks|
    ensures r < |ks| ==> ks[r] >= v
    decreases |ks| - from
  {
    if from == |ks| || ks[from] >= v then from else FirstAtLeastFrom(ks, v, from + 1)
  }

  /** The first index whose key exceeds v (|ks| when there is none). */
  function FirstAbove(ks: seq<real>, v: real): (r: nat)
    ensures r <= |ks|
    ensures r < |ks| ==> ks[r] > v
  {
    FirstAboveFrom(ks, v, 0)
  }

  function FirstAboveFrom(ks: seq<real>, v: real, from: nat): (r: nat)
    requires from <= |ks|
    ensures from <= r <= |ks|
    ensures r < |ks| ==> ks[r] > v
    decreases |ks| - from
  {
    if from == |ks| || ks[from] > v then from else FirstAboveFrom(ks, v, from + 1)
  }

  /** Every key before FirstAtLeast is below v. */
  lemma FirstAtLeastSkips(ks: seq<real>, v: real, k: nat)
    requires k < FirstAtLeast(ks, v)
    ensures ks[k] < v
  {
    FirstAtLeastFromSkips(ks, v, 0, k);
  }

  lemma {:induction false} FirstAtLeastFromSkips(ks: seq<real>, v: real, from: nat, k: nat)
    requires from <= |ks| && from <= k < FirstAtLeastFrom(ks, v, from)
    ensures ks[k] < v
    decreases |ks| - from
  {
    if k > from {
      FirstAtLeastFromSkips(ks, v, from + 1, k);
    }
  }

  /** Every key before FirstAbove is at most v. */
  lemma FirstAboveSkips(ks: seq<real>, v: real, k: nat)
    requires k < FirstAbove(ks, v)
    ensures ks[k] <= v
  {
    FirstAboveFromSkips(ks, v, 0, k);
  }

  lemma {:induction false} FirstAboveFromSkips(ks: seq<real>, v: real, from: nat, k: nat)
    requires from <= |ks| && from <= k < FirstAboveFrom(ks, v, from)
    ensures ks[k] <= v
    decreases |ks| - from
  {
    if k > from {
      FirstAboveFromSkips(ks, v, from + 1, k);
    }
  }

  /**
   * The index pair (lo_idx, hi_idx) with which group_by's scan leaves
   * element i: lo_idx skips keys below ks[i] - t but never passes i, hi_idx
   * stops at the first key above ks[i] + t.
   */
  function Window(ks: seq<real>, t: real, i: nat): (w: Pair)
    requires i < |ks|
    ensures 0 <= w.a <= i && 0 <= w.b <= |ks|
  {
    Pair(Min(i, FirstAtLeast(ks, ks[i] - t)), FirstAbove(ks, ks[i] + t))
  }

  /** no_singles discards the windows holding at most one element. */
  predicate Kept(w: Pair, noSingles: bool) {
    w.b > w.a + 1 || !noSingles
  }

  /** The windows that the scan appends for the first n elements, in order. */
  function WindowsUpTo(ks: seq<real>, t: real, noSingles: bool, n: nat): (r: seq<Pair>)
    requires n <= |ks|
  {
    if n == 0 then []
    else
      var w := Window(ks, t, n - 1);
      WindowsUpTo(ks, t, noSingles, n - 1) + (if Kept(w, noSingles) then [w] else [])
  }

  function Windows(ks: seq<real>, t: real, noSingles: bool): (r: seq<Pair>)
    ensures forall p :: p in r ==> 0 <= p.a && 0 <= p.b <= |ks|
  {
    WindowsUpToBounds(ks, t, noSingles, |ks|);
    WindowsUpTo(ks, t, noSingles, |ks|)
  }

  lemma {:induction false} WindowsUpToBounds(ks: seq<real>, t: real, noSingles: bool, n: nat)
    requires n <= |ks|
    ensures forall p :: p in WindowsUpTo(ks, t, noSingles, n) ==> 0 <= p.a && 0 <= p.b <= |ks|
  {
    if n > 0 {
      WindowsUpToBounds(ks, t, noSingles, n - 1);
    }
  }

  /** The comparison sorted(seq, key=key) uses. */
  function ByKey<T>(key: T -> real): (T, T) -> bool {
    (x: T, y: T) => key(x) <= key(y)
  }

  lemma ByKeyIsTotal<T(!new)>(key: T -> real)
    ensures TotalPreorder(ByKey(key))
  {}

  function KeysOf<T>(s: seq<T>, key: T -> real): (ks: seq<real>)
    ensures |ks| == |s| && forall i :: 0 <= i < |s| ==> ks[i] == key(s[i])
  {
    seq(|s|, i requires 0 <= i < |s| => key(s[i]))
  }

  lemma SortedKeys<T>(s: seq<T>, key: T -> real)
    requires SortedBy(s, ByKey(key))
    ensures SortedReals(KeysOf(s, key))
  {
    forall i, j ensures InOrder(KeysOf(s, key), i, j) {
      if 0 <= i < j < |s| {
        assert ByKey(key)(s[i], s[j]);
      }
    }
  }

  /** Python's s[a:b] for non-negative bounds. */
  function PySlice<T>(s: seq<T>, a: int, b: int): (r: seq<T>)
    requires 0 <= a && 0 <= b
    ensures |r| <= |s|
  {
    if a >= b || a >= |s| then [] else s[a..Min(b, |s|)]
  }

  function Slices<T>(s: seq<T>, pairs: seq<Pair>): (r: seq<seq<T>>)
    requires forall p :: p in pairs ==> 0 <= p.a && 0 <= p.b
    ensures |r| == |pairs|
  {
    seq(|pairs|, k requires 0 <= k < |pairs| => PySlice(s, pairs[k].a, pairs[k].b))
  }

  /**
   * What group_by returns: the sorted input cut at the maximal windows, in
   * increasing order of their bounds.
   */
  ghost function GroupBySpec<T(!new)>(s: seq<T>, t: real, noSingles: bool, key: T -> real): seq<seq<T>> {
    CutGroups(SortedInput(s, key), key, t, noSingles)
  }

  /** A key-sorted sequence cut at its maximal windows. */
  ghost function CutGroups<T>(sorted: seq<T>, key: T -> real, t: real, noSingles: bool): seq<seq<T>> {
    var windows := Windows(KeysOf(sorted, key), t, noSingles);
    var pruned := PrunedSpec(windows);
    assert forall p :: p in pruned ==> p in windows;
    Slices(sorted, pruned)
  }

  /** Two cursors that scan a sorted key list land on the window of each element. */
  lemma CursorsAtWindow(ks: seq<real>, t: real, i: nat, lo: nat, hi: nat)
    requires i < |ks| && lo <= i && hi <= |ks|
    requires forall k :: 0 <= k < lo ==> ks[k] < ks[i] - t
    requires lo == i || ks[lo] >= ks[i] - t
    requires forall k :: 0 <= k < hi ==> ks[k] <= ks[i] + t
    requires hi == |ks| || ks[hi] > ks[i] + t
    ensures Window(ks, t, i) == Pair(lo, hi)
  {
    var first := FirstAtLeast(ks, ks[i] - t);
    if lo < first {
      FirstAtLeastSkips(ks, ks[i] - t, lo);
    }
    var above := FirstAbove(ks, ks[i] + t);
    if hi < above {
      FirstAboveSkips(ks, ks[i] + t, hi);
    }
  }

  /** Element i's window extends the windows of the elements before it when it is kept. */
  lemma WindowsStep(ks: seq<real>, t: real, noSingles: bool, i: nat)
    requires i < |ks|
    ensures Kept(Window(ks, t, i), noSingles) ==>
      WindowsUpTo(ks, t, noSingles, i + 1) == WindowsUpTo(ks, t, noSingles, i) + [Window(ks, t, i)]
    ensures !Kept(Window(ks, t, i), noSingles) ==>
      WindowsUpTo(ks, t, noSingles, i + 1) == WindowsUpTo(ks, t, noSingles, i)
  {
  }

  /** The cursors left at element i - 1 are valid starting points for element i. */
  lemma CursorsCarryOver(ks: seq<real>, t: real, i: nat, lo: nat, hi: nat)
    requires SortedReals(ks)
    requires 0 < i < |ks|
    requires Pair(lo, hi) == Window(ks, t, i - 1)
    ensures lo <= i && hi <= |ks|
    ensures forall k :: 0 <= k < lo ==> ks[k] < ks[i] - t
    ensures forall k :: 0 <= k < hi ==> ks[k] <= ks[i] + t
  {
    assert InOrder(ks, i - 1, i);
    forall k | 0 <= k < lo ensures ks[k] < ks[i] - t {
      FirstAtLeastSkips(ks, ks[i - 1] - t, k);
    }
    forall k | 0 <= k < hi ensures ks[k] <= ks[i] + t {
      FirstAboveSkips(ks, ks[i - 1] + t, k);
    }
  }

  /**
   * group_by: sort by key, scan with two cursors that only move forward,
   * keep the windows no_singles allows, drop the windows inside others and
   * cut the sorted sequence at the rest.
   */
  method GroupBy<T(!new)>(s: seq<T>, tolerance: real, noSingles: bool, key: T -> real) returns (groups: seq<seq<T>>)
    ensures groups == GroupBySpec(s, tolerance, noSingles, key)
  {
    ByKeyIsTotal(key);
    var sortedSeq := SortBy(s, ByKey(key));
    SortedKeys(sortedSeq, key);
    var pairs := ScanWindows(KeysOf(sortedSeq, key), tolerance, noSingles);
    var pruned := WithoutPairSubsets(pairs);
    groups := Slices(sortedSeq, pruned);
  }

  /** Where the lo_idx loop of group_by stops: at the first key from lo on that is not below minval, or at i. */
  function SkipLow(ks: seq<real>, i: nat, lo: nat, minval: real): (r: nat)
    requires lo <= i < |ks|
    ensures lo <= r <= i
    ensures r == i || ks[r] >= minval
    decreases i - lo
  {
    if lo < i && ks[lo] < minval then SkipLow(ks, i, lo + 1, minval) else lo
  }

  /** Where the hi_idx loop of group_by stops: at the first key from hi on above maxval, or at the end. */
  function SkipHigh(ks: seq<real>, hi: nat, maxval: real): (r: nat)
    requires hi <= |ks|
    ensures hi <= r <= |ks|
    ensures r == |ks| || ks[r] > maxval
    decreases |ks| - hi
  {
    if hi < |ks| && ks[hi] <= maxval then SkipHigh(ks, hi + 1, maxval) else hi
  }

  /** Every key the lo_idx loop passes over is below minval. */
  lemma {:induction false} SkipLowPassesBelow(ks: seq<real>, i: nat, lo: nat, minval: real, k: nat)
    requires lo <= i < |ks|
    requires lo <= k < SkipLow(ks, i, lo, minval)
    ensures ks[k] < minval
    decreases i - lo
  {
    if k > lo {
      SkipLowPassesBelow(ks, i, lo + 1, minval, k);
    }
  }

  /** Every key the hi_idx loop passes over is at most maxval. */
  lemma {:induction false} SkipHighPassesAtMost(ks: seq<real>, hi: nat, maxval: real, k: nat)
    requires hi <= |ks|
    requires hi <= k < SkipHigh(ks, hi, maxval)
    ensures ks[k] <= maxval
    decreases |ks| - hi
  {
    if k > hi {
      SkipHighPassesAtMost(ks, hi + 1, maxval, k);
    }
  }

  /**
   * Started from the cursors of element i - 1 (or from 0 at the first
   * element), the two cursor loops stop exactly at element i's window.
   */
  lemma CursorStep(ks: seq<real>, t: real, i: nat, lo: nat, hi: nat)
    requires SortedReals(ks)
    requires lo <= i < |ks| && hi <= |ks|
    requires i == 0 ==> lo == 0 && hi == 0
    requires 0 < i ==> Pair(lo, hi) == Window(ks, t, i - 1)
    ensures Pair(SkipLow(ks, i, lo, ks[i] - t), SkipHigh(ks, hi, ks[i] + t)) == Window(ks, t, i)
  {
    var minval, maxval := ks[i] - t, ks[i] + t;
    if i > 0 {
      CursorsCarryOver(ks, t, i, lo, hi);
    }
    var lo', hi' := SkipLow(ks, i, lo, minval), SkipHigh(ks, hi, maxval);
    forall k | 0 <= k < lo' ensures ks[k] < minval {
      if k >= lo { SkipLowPassesBelow(ks, i, lo, minval, k); }
    }
    forall k | 0 <= k < hi' ensures ks[k] <= maxval {
      if k >= hi { SkipHighPassesAtMost(ks, hi, maxval, k); }
    }
    CursorsAtWindow(ks, t, i, lo', hi');
  }

  /** The lo_idx loop of group_by: skip the keys below minval, never passing i. */
  method SkipBelow(ks: seq<real>, i: nat, lo0: nat, minval: real) returns (lo: nat)
    requires lo0 <= i < |ks|
    ensures lo == SkipLow(ks, i, lo0, minval)
  {
    lo := lo0;
    while lo < i && ks[lo] < minval
      invariant lo0 <= lo <= i
      invariant SkipLow(ks, i, lo, minval) == SkipLow(ks, i, lo0, minval)
      decreases i - lo
    {
      lo := lo + 1;
    }
  }

  /** The hi_idx loop of group_by: move past every key up to maxval. */
  method SkipUpTo(ks: seq<real>, hi0: nat, maxval: real) returns (hi: nat)
    requires hi0 <= |ks|
    ensures hi == SkipHigh(ks, hi0, maxval)
  {
    hi := hi0;
    while hi < |ks| && ks[hi] <= maxval
      invariant hi0 <= hi <= |ks|
      invariant SkipHigh(ks, hi, maxval) == SkipHigh(ks, hi0, maxval)
      decreases |ks| - hi
    {
      hi := hi + 1;
    }
  }

  /**
   * The loop of group_by over the sorted sequence, collecting index pairs;
   * ks holds the key of each element of the sorted sequence.
   */
  method ScanWindows(ks: seq<real>, tolerance: real, noSingles: bool) returns (pairs: seq<Pair>)
    requires SortedReals(ks)
    ensures pairs == Windows(ks, tolerance, noSingles)
  {
    pairs := [];
    var lo: nat, hi: nat := 0, 0;
    for i := 0 to |ks|
      invariant lo <= i && hi <= |ks|
      invariant i == 0 ==> lo == 0 && hi == 0
      invariant i > 0 ==> Pair(lo, hi) == Window(ks, tolerance, i - 1)
      invariant pairs == WindowsUpTo(ks, tolerance, noSingles, i)
    {
      var val := ks[i];
      var minval := val - tolerance;
      var maxval := val + tolerance;
      ghost var lo0, hi0 := lo, hi;
      lo := SkipBelow(ks, i, lo, minval);
      hi := SkipUpTo(ks, hi, maxval);
      CursorStep(ks, tolerance, i, lo0, hi0);
      WindowsStep(ks, tolerance, noSingles, i);
      if hi > lo + 1 || !noSingles {
        pairs := pairs + [Pair(lo, hi)];
      }
    }
  }

  // ---------------------------------------------------------------------------
  // Properties of group_by
  // ---------------------------------------------------------------------------

  /** The first pair of s that contains x (|s| when there is none). */
  function FirstContaining(s: seq<Pair>, x: Pair): (r: nat)
    ensures r <= |s|
    ensures forall k :: 0 <= k < r ==> !Contains(s[k], x)
    ensures r < |s| ==> Contains(s[r], x)
  {
    if s == [] || Contains(s[0], x) then 0 else 1 + FirstContaining(s[1..], x)
  }

  /** In sort order, the first pair containing x is maximal. */
  lemma FirstContainerMaximal(sorted: seq<Pair>, pairs: seq<Pair>, x: Pair) returns (y: Pair)
    requires SortedBy(sorted, LexOrder())
    requires forall q :: q in pairs <==> q in sorted
    requires x in pairs
    ensures IsMaximalIn(y, pairs) && Contains(y, x)
  {
    var kx :| 0 <= kx < |sorted| && sorted[kx] == x;
    var f := FirstContaining(sorted, x);
    assert f <= kx;
    y := sorted[f];
    forall q | q in pairs && Contains(q, y) ensures q == y {
      var m :| 0 <= m < |sorted| && sorted[m] == q;
      if m > f {
        assert LexOrder()(sorted[f], sorted[m]);
      }
    }
  }

  /**
   * Each input pair lies inside a pair that without_pair_subsets keeps: the
   * first pair containing it in sort order is maximal.
   */
  lemma PrunedCoversOne(pairs: seq<Pair>, x: Pair)
    requires x in pairs
    ensures CoveredBy(PrunedSpec(pairs), x)
  {
    LexOrderIsTotal();
    SortedElements(pairs, LexOrder());
    var y := FirstContainerMaximal(SortBy(pairs, LexOrder()), pairs, x);
    var r := PrunedSpec(pairs);
    var j :| 0 <= j < |r| && r[j] == y;
    assert Contains(r[j], x);
  }

  lemma PrunedCovers(pairs: seq<Pair>)
    ensures Covers(PrunedSpec(pairs), pairs)
  {
    forall i | 0 <= i < |pairs| ensures CoveredBy(PrunedSpec(pairs), pairs[i]) {
      PrunedCoversOne(pairs, pairs[i]);
    }
  }

  /** Every key in the window of element i is within t of the key of element i. */
  lemma WindowWithinTolerance(ks: seq<real>, t: real, i: nat)
    requires SortedReals(ks) && i < |ks|
    ensures forall k :: Window(ks, t, i).a <= k < Window(ks, t, i).b ==> ks[i] - t <= ks[k] <= ks[i] + t
  {
    var w := Window(ks, t, i);
    var first := FirstAtLeast(ks, ks[i] - t);
    var above := FirstAbove(ks, ks[i] + t);
    if i < above {
      FirstAboveSkips(ks, ks[i] + t, i);
    }
    forall k | w.a <= k < w.b ensures ks[i] - t <= ks[k] <= ks[i] + t {
      FirstAboveSkips(ks, ks[i] + t, k);
      assert InOrder(ks, first, k) && InOrder(ks, i, k);
    }
  }

  /**
   * Conversely, with a non-negative tolerance every position whose key lies
   * within t of the key of element i is inside element i's window.
   */
  lemma WindowHoldsInRange(ks: seq<real>, t: real, i: nat, k: nat)
    requires SortedReals(ks) && i < |ks| && k < |ks| && t >= 0.0
    requires ks[i] - t <= ks[k] <= ks[i] + t
    ensures Window(ks, t, i).a <= k < Window(ks, t, i).b
  {
    var first := FirstAtLeast(ks, ks[i] - t);
    if k < first {
      FirstAtLeastSkips(ks, ks[i] - t, k);
    }
    FirstAboveFromPasses(ks, ks[i] + t, 0, k);
  }

  /** On sorted keys, FirstAboveFrom passes every later key that is at most v. */
  lemma {:induction false} FirstAboveFromPasses(ks: seq<real>, v: real, from: nat, k: nat)
    requires SortedReals(ks) && from <= k < |ks| && ks[k] <= v
    ensures k < FirstAboveFrom(ks, v, from)
    decreases k - from
  {
    if from < k {
      assert InOrder(ks, from, k);
      FirstAboveFromPasses(ks, v, from + 1, k);
    }
  }

  /** With a non-negative tolerance, every element lies in its own window. */
  lemma WindowHoldsAnchor(ks: seq<real>, t: real, i: nat)
    requires SortedReals(ks) && i < |ks| && t >= 0.0
    ensures Window(ks, t, i).a <= i < Window(ks, t, i).b
  {
    var above := FirstAbove(ks, ks[i] + t);
    assert InOrder(ks, above, i);
  }

  /** The windows are exactly the kept windows of the elements scanned. */
  lemma {:induction false} WindowsUpToMembers(ks: seq<real>, t: real, noSingles: bool, n: nat)
    requires n <= |ks|
    ensures forall p :: p in WindowsUpTo(ks, t, noSingles, n) <==>
      exists i :: 0 <= i < n && Kept(Window(ks, t, i), noSingles) && p == Window(ks, t, i)
  {
    if n > 0 {
      WindowsUpToMembers(ks, t, noSingles, n - 1);
    }
  }

  /** Python slices: the elements of s[a:b] are those at positions a to b - 1. */
  lemma PySliceMembers<T>(s: seq<T>, a: int, b: int)
    requires 0 <= a && 0 <= b
    ensures forall x :: x in PySlice(s, a, b) <==> exists k :: a <= k < b && k < |s| && s[k] == x
  {
    forall x | x in PySlice(s, a, b) ensures exists k :: a <= k < b && k < |s| && s[k] == x {
      var m :| 0 <= m < |PySlice(s, a, b)| && PySlice(s, a, b)[m] == x;
      assert s[a + m] == x;
    }
    forall x | (exists k :: a <= k < b && k < |s| && s[k] == x) ensures x in PySlice(s, a, b) {
      var k :| a <= k < b && k < |s| && s[k] == x;
      assert PySlice(s, a, b)[k - a] == x;
    }
  }

  /** The sorted input from which group_by cuts its groups. */
  ghost function SortedInput<T(!new)>(s: seq<T>, key: T -> real): (sorted: seq<T>)
    ensures multiset(sorted) == multiset(s) && |sorted| == |s|
    ensures SortedReals(KeysOf(sorted, key))
  {
    ByKeyIsTotal(key);
    SortedKeys(SortBy(s, ByKey(key)), key);
    assert |multiset(SortBy(s, ByKey(key)))| == |multiset(s)|;
    SortBy(s, ByKey(key))
  }

  /** Each kept pair is the kept window of some element. */
  lemma PrunedWindow(ks: seq<real>, t: real, noSingles: bool, j: nat) returns (i: nat)
    requires j < |PrunedSpec(Windows(ks, t, noSingles))|
    ensures i < |ks| && Kept(Window(ks, t, i), noSingles)
    ensures PrunedSpec(Windows(ks, t, noSingles))[j] == Window(ks, t, i)
  {
    var windows := Windows(ks, t, noSingles);
    var pruned := PrunedSpec(windows);
    assert pruned[j] in pruned;
    assert pruned[j] in windows;
    WindowsUpToMembers(ks, t, noSingles, |ks|);
    i :| 0 <= i < |ks| && Kept(Window(ks, t, i), noSingles) && pruned[j] == Window(ks, t, i);
  }

  /** Each group is the sorted sequence cut at the window of some element. */
  lemma CutAt<T>(sorted: seq<T>, key: T -> real, t: real, noSingles: bool, j: nat) returns (i: nat)
    requires j < |CutGroups(sorted, key, t, noSingles)|
    ensures i < |sorted|
    ensures Kept(Window(KeysOf(sorted, key), t, i), noSingles)
    ensures CutGroups(sorted, key, t, noSingles)[j] ==
      PySlice(sorted, Window(KeysOf(sorted, key), t, i).a, Window(KeysOf(sorted, key), t, i).b)
  {
    i := PrunedWindow(KeysOf(sorted, key), t, noSingles, j);
  }

  /** Group j is anchored at element i: its keys lie within t of the key of element i. */
  lemma CutAnchor<T>(sorted: seq<T>, key: T -> real, t: real, noSingles: bool, j: nat) returns (i: nat)
    requires SortedReals(KeysOf(sorted, key))
    requires j < |CutGroups(sorted, key, t, noSingles)|
    ensures i < |sorted|
    ensures forall x :: x in CutGroups(sorted, key, t, noSingles)[j] ==>
      key(sorted[i]) - t <= key(x) <= key(sorted[i]) + t
  {
    var ks := KeysOf(sorted, key);
    i := CutAt(sorted, key, t, noSingles, j);
    var w := Window(ks, t, i);
    WindowWithinTolerance(ks, t, i);
    PySliceMembers(sorted, w.a, w.b);
    forall x | x in PySlice(sorted, w.a, w.b) ensures key(sorted[i]) - t <= key(x) <= key(sorted[i]) + t {
      var k :| w.a <= k < w.b && k < |sorted| && sorted[k] == x;
      assert ks[k] == key(x);
    }
  }

  /** Every element of a group is an element of the sorted sequence. */
  lemma CutMembers<T>(sorted: seq<T>, key: T -> real, t: real, noSingles: bool, j: nat)
    requires j < |CutGroups(sorted, key, t, noSingles)|
    ensures forall x :: x in CutGroups(sorted, key, t, noSingles)[j] ==> x in sorted
  {
    var i := CutAt(sorted, key, t, noSingles, j);
    var w := Window(KeysOf(sorted, key), t, i);
    PySliceMembers(sorted, w.a, w.b);
  }

  /** With a non-negative tolerance and singles allowed, some kept pair spans element k. */
  lemma KeptPairSpanning(ks: seq<real>, t: real, k: nat) returns (j: nat)
    requires SortedReals(ks)
    requires t >= 0.0 && k < |ks|
    ensures j < |PrunedSpec(Windows(ks, t, false))|
    ensures PrunedSpec(Windows(ks, t, false))[j].a <= k < PrunedSpec(Windows(ks, t, false))[j].b
  {
    var windows := Windows(ks, t, false);
    var pruned := PrunedSpec(windows);
    WindowHoldsAnchor(ks, t, k);
    WindowsUpToMembers(ks, t, false, |ks|);
    var w := Window(ks, t, k);
    assert w in windows;
    PrunedCoversOne(windows, w);
    j :| 0 <= j < |pruned| && Contains(pruned[j], w);
  }

  /** With a non-negative tolerance and singles allowed, element k is in some group. */
  lemma CutHolding<T>(sorted: seq<T>, key: T -> real, t: real, k: nat) returns (j: nat)
    requires SortedReals(KeysOf(sorted, key))
    requires t >= 0.0 && k < |sorted|
    ensures j < |CutGroups(sorted, key, t, false)|
    ensures sorted[k] in CutGroups(sorted, key, t, false)[j]
  {
    var ks := KeysOf(sorted, key);
    var pruned := PrunedSpec(Windows(ks, t, false));
    j := KeptPairSpanning(ks, t, k);
    assert pruned[j] in pruned;
    assert pruned[j] in Windows(ks, t, false);
    PySliceMembers(sorted, pruned[j].a, pruned[j].b);
  }

  /** With no_singles, group j holds at least two elements. */
  lemma CutNoSingle<T>(sorted: seq<T>, key: T -> real, t: real, j: nat)
    requires j < |CutGroups(sorted, key, t, true)|
    ensures |CutGroups(sorted, key, t, true)[j]| >= 2
  {
    var i := CutAt(sorted, key, t, true, j);
  }

  /**
   * Every group is anchored at an input element: every key in it lies within
   * the tolerance of the anchor's key.
   */
  lemma GroupsAnchored<T(!new)>(s: seq<T>, t: real, noSingles: bool, key: T -> real)
    ensures forall g :: g in GroupBySpec(s, t, noSingles, key) ==>
      exists c :: c in s && forall x :: x in g ==> key(c) - t <= key(x) <= key(c) + t
  {
    var sorted := SortedInput(s, key);
    var spec := GroupBySpec(s, t, noSingles, key);
    forall g | g in spec
      ensures exists c :: c in s && forall x :: x in g ==> key(c) - t <= key(x) <= key(c) + t
    {
      var j :| 0 <= j < |spec| && spec[j] == g;
      var i := CutAnchor(sorted, key, t, noSingles, j);
      assert sorted[i] in multiset(s);
    }
  }

  /** Within each group of a key-sorted sequence, keys differ by at most 2 * t. */
  lemma CutWithinTolerance<T>(sorted: seq<T>, key: T -> real, t: real, noSingles: bool)
    requires SortedReals(KeysOf(sorted, key))
    ensures forall g, x, y :: g in CutGroups(sorted, key, t, noSingles) && x in g && y in g ==>
      key(x) - key(y) <= 2.0 * t
  {
    var cut := CutGroups(sorted, key, t, noSingles);
    forall g, x, y | g in cut && x in g && y in g ensures key(x) - key(y) <= 2.0 * t {
      var j :| 0 <= j < |cut| && cut[j] == g;
      var i := CutAnchor(sorted, key, t, noSingles, j);
    }
  }

  /** The bound the tests check: within a group, keys differ by at most 2 * tolerance. */
  lemma GroupsWithinTolerance<T(!new)>(s: seq<T>, t: real, noSingles: bool, key: T -> real)
    ensures forall g, x, y :: g in GroupBySpec(s, t, noSingles, key) && x in g && y in g ==>
      key(x) - key(y) <= 2.0 * t
  {
    CutWithinTolerance(SortedInput(s, key), key, t, noSingles);
  }

  /** Every grouped element comes from the input. */
  lemma GroupsFromInput<T(!new)>(s: seq<T>, t: real, noSingles: bool, key: T -> real)
    ensures forall g, x :: g in GroupBySpec(s, t, noSingles, key) && x in g ==> x in s
  {
    var sorted := SortedInput(s, key);
    var spec := GroupBySpec(s, t, noSingles, key);
    forall g, x | g in spec && x in g ensures x in s {
      var j :| 0 <= j < |spec| && spec[j] == g;
      CutMembers(sorted, key, t, noSingles, j);
      assert x in multiset(sorted);
    }
  }

  /**
   * Nothing is lost: with a non-negative tolerance and singles allowed, every
   * input element is in some group.
   */
  lemma GroupsLossless<T(!new)>(s: seq<T>, t: real, key: T -> real)
    requires t >= 0.0
    ensures forall x :: x in s ==> exists g :: g in GroupBySpec(s, t, false, key) && x in g
  {
    var sorted := SortedInput(s, key);
    var spec := GroupBySpec(s, t, false, key);
    forall x | x in s ensures exists g :: g in spec && x in g {
      assert x in multiset(sorted);
      var k :| 0 <= k < |sorted| && sorted[k] == x;
      var j := CutHolding(sorted, key, t, k);
      assert spec[j] in spec;
    }
  }

  /** With no_singles, every group holds at least two elements. */
  lemma NoSingleGroups<T(!new)>(s: seq<T>, t: real, key: T -> real)
    ensures forall g :: g in GroupBySpec(s, t, true, key) ==> |g| >= 2
  {
    var sorted := SortedInput(s, key);
    var spec := GroupBySpec(s, t, true, key);
    forall g | g in spec ensures |g| >= 2 {
      var j :| 0 <= j < |spec| && spec[j] == g;
      CutNoSingle(sorted, key, t, j);
    }
  }

  // ---------------------------------------------------------------------------
  // The test vectors of group_by
  // ---------------------------------------------------------------------------

  /** An empty sequence has no groups. */
  lemma GroupByEmpty<T(!new)>(t: real, noSingles: bool, key: T -> real)
    ensures GroupBySpec([], t, noSingles, key) == []
  {
    var sorted := SortedInput([], key);
    assert |sorted| == 0;
    var windows := Windows(KeysOf(sorted, key), t, noSingles);
    assert windows == [];
    assert PrunedSpec(windows) == [] by {
      forall p ensures p !in PrunedSpec(windows) {
      }
    }
  }

  /** The windows are those of each element, one after the other. */
  lemma {:induction false} AllWindowsKept(ks: seq<real>, t: real, n: nat)
    requires n <= |ks|
    ensures |WindowsUpTo(ks, t, false, n)| == n
    ensures forall i :: 0 <= i < n ==> WindowsUpTo(ks, t, false, n)[i] == Window(ks, t, i)
  {
    if n > 0 {
      AllWindowsKept(ks, t, n - 1);
    }
  }

  /** The keys 0, 1, ..., 9. */
  ghost predicate FirstTen(ks: seq<real>) {
    |ks| == 10 && forall k :: 0 <= k < 10 ==> ks[k] == k as real
  }

  /** On the keys 0 to 9 with tolerance 3, element i's window runs from i - 3 to i + 3, clipped. */
  lemma TenKeysWindow(ks: seq<real>, i: nat)
    requires FirstTen(ks) && i < 10
    ensures Window(ks, 3.0, i) == TenKeysPair(i)
  {
    var lo := if i < 3 then 0 else i - 3;
    var hi := if i > 6 then 10 else i + 4;
    CursorsAtWindow(ks, 3.0, i, lo, hi);
  }

  /** Element i's window on the keys 0 to 9 with tolerance 3. */
  function TenKeysPair(i: nat): Pair {
    Pair(if i < 3 then 0 else i - 3, if i > 6 then 10 else i + 4)
  }

  /** Of the ten windows [i - 3, i + 4), clipped, the maximal ones are the four unclipped. */
  lemma TenPairsPruned(windows: seq<Pair>)
    requires |windows| == 10 && forall i :: 0 <= i < 10 ==> windows[i] == TenKeysPair(i)
    ensures PrunedSpec(windows) == [Pair(0, 7), Pair(1, 8), Pair(2, 9), Pair(3, 10)]
  {
    var r := [Pair(0, 7), Pair(1, 8), Pair(2, 9), Pair(3, 10)];
    forall x | x in r ensures x in windows {
      var j :| 0 <= j < 4 && r[j] == x;
      assert windows[j + 3] == x;
    }
    forall i | 0 <= i < 10 ensures CoveredBy(r, windows[i]) {
      var j := if i < 3 then 0 else if i > 6 then 3 else i - 3;
      assert Contains(r[j], windows[i]);
    }
    PrunedIsSpec(windows, r);
  }

  /** On those keys the maximal windows are [0, 7), [1, 8), [2, 9) and [3, 10). */
  lemma TenKeysPruned(ks: seq<real>)
    requires FirstTen(ks)
    ensures PrunedSpec(Windows(ks, 3.0, false)) == [Pair(0, 7), Pair(1, 8), Pair(2, 9), Pair(3, 10)]
  {
    var windows := Windows(ks, 3.0, false);
    AllWindowsKept(ks, 3.0, 10);
    forall i | 0 <= i < 10 ensures windows[i] == TenKeysPair(i) {
      TenKeysWindow(ks, i);
    }
    TenPairsPruned(windows);
  }

  /**
   * The vector of the tests: ten elements with keys 0 to 9 and tolerance 3
   * give the groups s[0:7], s[1:8], s[2:9] and s[3:10], in that order.
   */
  lemma TenKeysGroups<T(!new)>(s: seq<T>, key: T -> real)
    requires |s| == 10 && forall k :: 0 <= k < 10 ==> key(s[k]) == k as real
    ensures GroupBySpec(s, 3.0, false, key) == [s[0..7], s[1..8], s[2..9], s[3..10]]
  {
    ByKeyIsTotal(key);
    assert SortedBy(s, ByKey(key));
    SortBySorted(s, ByKey(key));
    var ks := KeysOf(s, key);
    assert FirstTen(ks);
    TenKeysPruned(ks);
  }

  /**
   * A strictly increasing list holding exactly the maximal intervals is what
   * without_pair_subsets returns.
   */
  lemma PrunedIs(pairs: seq<Pair>, r: seq<Pair>)
    requires StrictlyIncreasing(r)
    requires forall p :: IsMaximalIn(p, pairs) <==> p in r
    ensures PrunedSpec(pairs) == r
  {
    StrictlyIncreasingUnique(PrunedSpec(pairs), r);
  }

  /** The tests' overlap vector: [(4, 50), (45, 51), (45, 50)] keeps (4, 50) and (45, 51). */
  lemma OverlapVector()
    ensures PrunedSpec([Pair(4, 50), Pair(45, 51), Pair(45, 50)]) == [Pair(4, 50), Pair(45, 51)]
  {
    var pairs := [Pair(4, 50), Pair(45, 51), Pair(45, 50)];
    assert Contains(Pair(4, 50), Pair(45, 50));
    PrunedIs(pairs, [Pair(4, 50), Pair(45, 51)]);
  }

  /** The tests' unsorted vector: [(99, 101), (10, 100), (20, 21)] gives [(10, 100), (99, 101)]. */
  lemma UnsortedVector()
    ensures PrunedSpec([Pair(99, 101), Pair(10, 100), Pair(20, 21)]) == [Pair(10, 100), Pair(99, 101)]
  {
    var pairs := [Pair(99, 101), Pair(10, 100), Pair(20, 21)];
    assert Contains(Pair(10, 100), Pair(20, 21));
    PrunedIs(pairs, [Pair(10, 100), Pair(99, 101)]);
  }

  /**
   * The tests' vector with repeats and negative bounds:
   * [(3, 3), (2, 10), (2, 10), (-5, 10), (10, 10), (300, 304), (-5, 10)]
   * gives [(-5, 10), (300, 304)].
   */
  lemma RepeatsVector()
    ensures PrunedSpec([Pair(3, 3), Pair(2, 10), Pair(2, 10), Pair(-5, 10), Pair(10, 10), Pair(300, 304), Pair(-5, 10)])
      == [Pair(-5, 10), Pair(300, 304)]
  {
    var pairs := [Pair(3, 3), Pair(2, 10), Pair(2, 10), Pair(-5, 10), Pair(10, 10), Pair(300, 304), Pair(-5, 10)];
    assert Contains(Pair(-5, 10), Pair(3, 3));
    assert Contains(Pair(-5, 10), Pair(2, 10));
    assert Contains(Pair(-5, 10), Pair(10, 10));
    PrunedIs(pairs, [Pair(-5, 10), Pair(300, 304)]);
  }

  /** The tests' vector [{1}] * 3: repeated copies of one set collapse to one. */
  lemma RepeatedSetVector()
    ensures WithoutSubsets([{1}, {1}, {1}]) == {{1}}
  {
    WithoutSubsetsIsMaximal([{1}, {1}, {1}]);
    assert {1} in MaximalSets([{1}, {1}, {1}]);
  }

  /** Of two sets, one a proper subset of the other, only the larger is kept. */
  lemma NestedPairOfSets<T(!new)>(big: set<T>, small: set<T>)
    requires small < big
    ensures WithoutSubsets([big, small]) == {big}
  {
    WithoutSubsetsIsMaximal([big, small]);
    MaximalOfNestedPair(big, small);
  }

  lemma MaximalOfNestedPair<T>(big: set<T>, small: set<T>)
    requires small < big
    ensures MaximalSets([big, small]) == {big}
  {
    ProperSubsetSmaller(small, big);
    NoLargerNotProperSuperset(big, small);
    var m := MaximalSets([big, small]);
    assert big in m;
    assert small !in m;
    assert m == {big};
  }

  /** The tests' vector {range(10), range(0, 10, 2)}: the even digits are dropped. */
  lemma EvenDigitsVector()
    ensures WithoutSubsets([{0, 1, 2, 3, 4, 5, 6, 7, 8, 9}, {0, 2, 4, 6, 8}]) == {{0, 1, 2, 3, 4, 5, 6, 7, 8, 9}}
  {
    var digits, evens := {0, 1, 2, 3, 4, 5, 6, 7, 8, 9}, {0, 2, 4, 6, 8};
    assert 1 in digits && 1 !in evens;
    NestedPairOfSets(digits, evens);
  }
}
