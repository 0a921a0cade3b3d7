// The earlier version of the set operations (setops.py at the top of the
// repository): without_subsets on intervals, and a group_by that expects
// its input already sorted and can keep duplicate or nested groups.

module OldSetOps {
  import opened SetOps
  import opened Collections

  /**
   * The two cursors of group_by from element i on, over the keys exactly as
   * given: unlike the later version nothing here assumes they are sorted.
   */
  function ScanFrom(ks: seq<real>, t: real, i: nat, lo: nat, hi: nat): (r: seq<Pair>)
    requires lo <= i <= |ks| && hi <= |ks|
    ensures |r| == |ks| - i
    decreases |ks| - i
  {
    if i == |ks| then []
    else
      var lo' := SkipLow(ks, i, lo, ks[i] - t);
      var hi' := SkipHigh(ks, hi, ks[i] + t);
      [Pair(lo', hi')] + ScanFrom(ks, t, i + 1, lo', hi')
  }

  /** The index pairs group_by collects, one per element, in scan order. */
  function CursorScan(ks: seq<real>, t: real): (r: seq<Pair>)
    ensures |r| == |ks|
    ensures forall p :: p in r ==> 0 <= p.a && 0 <= p.b <= |ks|
  {
    ScanFromBounds(ks, t, 0, 0, 0);
    ScanFrom(ks, t, 0, 0, 0)
  }

  lemma {:induction false} ScanFromBounds(ks: seq<real>, t: real, i: nat, lo: nat, hi: nat)
    requires lo <= i <= |ks| && hi <= |ks|
    ensures forall p :: p in ScanFrom(ks, t, i, lo, hi) ==> 0 <= p.a && 0 <= p.b <= |ks|
    decreases |ks| - i
  {
    if i < |ks| {
      ScanFromBounds(ks, t, i + 1, SkipLow(ks, i, lo, ks[i] - t), SkipHigh(ks, hi, ks[i] + t));
    }
  }

  /** The windows of elements i onwards, all kept. */
  function WindowsFrom(ks: seq<real>, t: real, i: nat): seq<Pair>
    requires i <= |ks|
    decreases |ks| - i
  {
    if i == |ks| then [] else [Window(ks, t, i)] + WindowsFrom(ks, t, i + 1)
  }

  /** On sorted keys the remaining scan produces the remaining windows. */
  lemma {:induction false} ScanFromIsWindows(ks: seq<real>, t: real, i: nat, lo: nat, hi: nat)
    requires SortedReals(ks)
    requires lo <= i <= |ks| && hi <= |ks|
    requires i == 0 ==> lo == 0 && hi == 0
    requires 0 < i ==> Pair(lo, hi) == Window(ks, t, i - 1)
    ensures ScanFrom(ks, t, i, lo, hi) == WindowsFrom(ks, t, i)
    decreases |ks| - i
  {
    if i < |ks| {
      CursorStep(ks, t, i, lo, hi);
      var w := Window(ks, t, i);
      ScanFromIsWindows(ks, t, i + 1, w.a, w.b);
      ScanFromUnfold(ks, t, i, lo, hi, w);
    }
  }

  /** Splitting the windows at any element: those before it, then those from it on. */
  lemma {:induction false} WindowsSplit(ks: seq<real>, t: real, i: nat)
    requires i <= |ks|
    ensures WindowsUpTo(ks, t, false, i) + WindowsFrom(ks, t, i) == Windows(ks, t, false)
    decreases |ks| - i
  {
    if i < |ks| {
      WindowsSplit(ks, t, i + 1);
      var w := Window(ks, t, i);
      assert WindowsUpTo(ks, t, false, i + 1) == WindowsUpTo(ks, t, false, i) + [w];
      Associate(WindowsUpTo(ks, t, false, i), [w], WindowsFrom(ks, t, i + 1));
    }
  }

  lemma ScanFromUnfold(ks: seq<real>, t: real, i: nat, lo: nat, hi: nat, w: Pair)
    requires lo <= i < |ks| && hi <= |ks|
    requires Pair(SkipLow(ks, i, lo, ks[i] - t), SkipHigh(ks, hi, ks[i] + t)) == w
    ensures w.a <= i + 1 && 0 <= w.a && 0 <= w.b <= |ks|
    ensures ScanFrom(ks, t, i, lo, hi) == [w] + ScanFrom(ks, t, i + 1, w.a, w.b)
  {}

  lemma Associate<T>(a: seq<T>, b: seq<T>, c: seq<T>)
    ensures a + (b + c) == (a + b) + c
  {}

  /** On sorted input the old scan yields the windows of the later version, all kept. */
  lemma SortedScanIsWindows(ks: seq<real>, t: real)
    requires SortedReals(ks)
    ensures CursorScan(ks, t) == Windows(ks, t, false)
  {
    ScanFromIsWindows(ks, t, 0, 0, 0);
    WindowsSplit(ks, t, 0);
  }

  /**
   * On unsorted keys the scan does not group by tolerance: for the keys
   * 10, 0, 10 and tolerance 1 every element gets the whole list, whose keys
   * differ by 10.
   */
  lemma UnsortedScanMixesKeys()
    ensures CursorScan([10.0, 0.0, 10.0], 1.0) == [Pair(0, 3), Pair(0, 3), Pair(0, 3)]
  {
    var ks := [10.0, 0.0, 10.0];
    assert SkipLow(ks, 0, 0, 9.0) == 0;
    assert SkipHigh(ks, 0, 11.0) == 3 by {
      assert SkipHigh(ks, 3, 11.0) == 3;
      assert SkipHigh(ks, 2, 11.0) == 3;
      assert SkipHigh(ks, 1, 11.0) == 3;
    }
    assert SkipLow(ks, 1, 0, -1.0) == 0;
    assert SkipHigh(ks, 3, 1.0) == 3;
    assert SkipLow(ks, 2, 0, 9.0) == 0;
    assert ScanFrom(ks, 1.0, 3, 0, 3) == [];
    assert ScanFrom(ks, 1.0, 2, 0, 3) == [Pair(0, 3)];
    assert ScanFrom(ks, 1.0, 1, 0, 3) == [Pair(0, 3), Pair(0, 3)];
  }

  /** Two lists with the same elements have the same maximal pairs. */
  lemma PrunedSpecOfSameElements(p: seq<Pair>, q: seq<Pair>)
    requires forall x :: x in p <==> x in q
    ensures PrunedSpec(p) == PrunedSpec(q)
  {
    StrictlyIncreasingUnique(PrunedSpec(p), PrunedSpec(q));
  }

  /**
   * without_subsets: the intervals not contained in another interval of the
   * input, each once, in increasing order. The algorithm is the one the
   * later without_pair_subsets keeps unchanged.
   */
  method WithoutSubsets(pairs: seq<Pair>) returns (r: seq<Pair>)
    ensures forall p :: p in r <==> IsMaximalIn(p, pairs)
    ensures StrictlyIncreasing(r)
    ensures r == PrunedSpec(pairs)
  {
    r := WithoutPairSubsets(pairs);
  }

  /**
   * group_by over a sequence taken as given. With unique the index pairs go
   * into a set, which is later read in an order the model leaves open
   * (returned as the ghost `order`); with greedy the nested intervals are
   * dropped.
   */
  method GroupBy<T>(s: seq<T>, tolerance: real, unique: bool, greedy: bool, key: T -> real)
    returns (groups: seq<seq<T>>, ghost order: seq<Pair>)
    ensures greedy ==> groups == Slices(s, PrunedSpec(CursorScan(KeysOf(s, key), tolerance)))
    ensures !greedy && !unique ==> groups == Slices(s, CursorScan(KeysOf(s, key), tolerance))
    ensures !greedy && unique ==>
      && (forall p :: p in order <==> p in CursorScan(KeysOf(s, key), tolerance))
      && NoDuplicates(order)
      && groups == Slices(s, order)
  {
    var ks := KeysOf(s, key);
    var pairList, pairSet := CollectScan(ks, tolerance, unique);
    ghost var scanned := CursorScan(ks, tolerance);
    var chosen: seq<Pair>;
    if unique {
      chosen := SetToSeq(pairSet);
    } else {
      chosen := pairList;
    }
    order := chosen;
    if greedy {
      PrunedSpecOfSameElements(chosen, scanned);
      chosen := WithoutSubsets(chosen);
      assert forall p :: p in chosen ==> p in scanned;
    }
    groups := Slices(s, chosen);
  }

  /** The two cursor loops for element i: the scan emits their pair and moves on. */
  method ScanStep(ks: seq<real>, tolerance: real, i: nat, lo0: nat, hi0: nat) returns (lo: nat, hi: nat)
    requires lo0 <= i < |ks| && hi0 <= |ks|
    ensures lo <= i + 1 && hi <= |ks|
    ensures ScanFrom(ks, tolerance, i, lo0, hi0) == [Pair(lo, hi)] + ScanFrom(ks, tolerance, i + 1, lo, hi)
  {
    var val := ks[i];
    var minval := val - tolerance;
    var maxval := val + tolerance;
    lo := SkipBelow(ks, i, lo0, minval);
    hi := SkipUpTo(ks, hi0, maxval);
    ScanFromUnfold(ks, tolerance, i, lo0, hi0, Pair(lo, hi));
  }

  /**
   * The scanning loop of the old group_by: one pair of cursors per element,
   * gathered into a set when unique and into a list otherwise.
   */
  method CollectScan(ks: seq<real>, tolerance: real, unique: bool)
    returns (pairList: seq<Pair>, pairSet: set<Pair>)
    ensures !unique ==> pairList == CursorScan(ks, tolerance)
    ensures unique ==> forall p :: p in pairSet <==> p in CursorScan(ks, tolerance)
  {
    ghost var scanned: seq<Pair> := [];
    pairList, pairSet := [], {};
    var lo: nat, hi: nat := 0, 0;
    for i := 0 to |ks|
      invariant lo <= i && hi <= |ks|
      invariant scanned + ScanFrom(ks, tolerance, i, lo, hi) == CursorScan(ks, tolerance)
      invariant unique ==> forall p :: p in pairSet <==> p in scanned
      invariant !unique ==> pairList == scanned
    {
      lo, hi := ScanStep(ks, tolerance, i, lo, hi);
      Associate(scanned, [Pair(lo, hi)], ScanFrom(ks, tolerance, i + 1, lo, hi));
      scanned := scanned + [Pair(lo, hi)];
      if unique {
        pairSet := pairSet + {Pair(lo, hi)};
      } else {
        pairList := pairList + [Pair(lo, hi)];
      }
    }
  }

  /**
   * On sorted input the greedy old group_by returns what the later group_by
   * returns without no_singles, so its groups keep their keys within twice
   * the tolerance and lose no element.
   */
  lemma SortedGreedyAgrees<T>(s: seq<T>, tolerance: real, key: T -> real)
    requires SortedReals(KeysOf(s, key))
    ensures Slices(s, PrunedSpec(CursorScan(KeysOf(s, key), tolerance))) == CutGroups(s, key, tolerance, false)
    ensures forall g, x, y :: g in Slices(s, PrunedSpec(CursorScan(KeysOf(s, key), tolerance))) && x in g && y in g ==>
      key(x) - key(y) <= 2.0 * tolerance
  {
    SortedScanIsWindows(KeysOf(s, key), tolerance);
    CutWithinTolerance(s, key, tolerance, false);
  }

  /**
   * With a non-negative tolerance, each pair the scan emits from element i
   * on spans its own element, provided the high cursor has not fallen behind
   * element i.
   */
  lemma {:induction false} ScanFromAnchored(ks: seq<real>, t: real, i: nat, lo: nat, hi: nat)
    requires lo <= i <= hi <= |ks| && t >= 0.0
    ensures forall k :: 0 <= k < |ks| - i ==> ScanFrom(ks, t, i, lo, hi)[k].a <= i + k < ScanFrom(ks, t, i, lo, hi)[k].b
    decreases |ks| - i
  {
    if i < |ks| {
      var w := Pair(SkipLow(ks, i, lo, ks[i] - t), SkipHigh(ks, hi, ks[i] + t));
      ScanFromUnfold(ks, t, i, lo, hi, w);
      ScanFromAnchored(ks, t, i + 1, w.a, w.b);
      var rest := ScanFrom(ks, t, i + 1, w.a, w.b);
      forall k | 0 <= k < |ks| - i ensures ScanFrom(ks, t, i, lo, hi)[k].a <= i + k < ScanFrom(ks, t, i, lo, hi)[k].b {
        if k > 0 {
          assert ScanFrom(ks, t, i, lo, hi)[k] == rest[k - 1];
        }
      }
    }
  }

  /**
   * Window i contains position i whenever the tolerance is non-negative,
   * even on keys that are not sorted: the high cursor always moves past the
   * element it is at.
   */
  lemma ScanHoldsAnchor(ks: seq<real>, t: real)
    requires t >= 0.0
    ensures forall i :: 0 <= i < |ks| ==> CursorScan(ks, t)[i].a <= i < CursorScan(ks, t)[i].b
  {
    ScanFromAnchored(ks, t, 0, 0, 0);
  }

  /**
   * On sorted input every group cut at pairs of the scan, so with any
   * combination of unique and greedy, keeps its keys within twice the
   * tolerance.
   */
  lemma ScanGroupsWithinTolerance<T>(s: seq<T>, tolerance: real, key: T -> real, pairs: seq<Pair>)
    requires SortedReals(KeysOf(s, key))
    requires forall p :: p in pairs ==> p in CursorScan(KeysOf(s, key), tolerance) && 0 <= p.a && 0 <= p.b
    ensures forall g, x, y :: g in Slices(s, pairs) && x in g && y in g ==> key(x) - key(y) <= 2.0 * tolerance
  {
    var ks := KeysOf(s, key);
    SortedScanIsWindows(ks, tolerance);
    AllWindowsKept(ks, tolerance, |ks|);
    var groups := Slices(s, pairs);
    forall g, x, y | g in groups && x in g && y in g ensures key(x) - key(y) <= 2.0 * tolerance {
      var j :| 0 <= j < |groups| && groups[j] == g;
      assert pairs[j] in CursorScan(ks, tolerance);
      var i :| 0 <= i < |ks| && CursorScan(ks, tolerance)[i] == pairs[j];
      ScanSliceAnchored(s, key, tolerance, i);
    }
  }

  /** On sorted input the slice at element i's window holds keys within t of element i's key. */
  lemma ScanSliceAnchored<T>(s: seq<T>, key: T -> real, t: real, i: nat)
    requires SortedReals(KeysOf(s, key)) && i < |s|
    ensures forall x :: x in PySlice(s, Window(KeysOf(s, key), t, i).a, Window(KeysOf(s, key), t, i).b) ==>
      key(s[i]) - t <= key(x) <= key(s[i]) + t
  {
    var ks := KeysOf(s, key);
    var w := Window(ks, t, i);
    WindowWithinTolerance(ks, t, i);
    PySliceMembers(s, w.a, w.b);
    forall x | x in PySlice(s, w.a, w.b) ensures key(s[i]) - t <= key(x) <= key(s[i]) + t {
      var k :| w.a <= k < w.b && k < |s| && s[k] == x;
      assert ks[k] == key(x);
    }
  }
}
