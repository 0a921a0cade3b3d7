/**
 * The earlier compare.py: the same counting and candidate selection as the
 * later version, on four fixed quadrants, with at least three of the four
 * quadrants required to match.
 *
 * get_grouped_quadrants there hands the unsorted averages to the earlier
 * group_by, which expects sorted input. GroupQuadrantsAsWritten and
 * GetSimilarCandidatesAsWritten model the search as written;
 * GetGroupedQuadrants sorts by each quadrant first, and GetSimilarCandidates
 * and the properties proved about it use that corrected grouping.
 */
module OldCompare {
  import opened Wrappers
  import opened Sorting
  import opened ImageDescriptors
  import opened Counting
  import SetOps
  import OldSetOps
  import Old = OldImageDescriptors

  /** SIMILAR_QUADS_THRESHOLD: how many quadrants must match. */
  const SimilarQuadsThreshold: int := 3

  /** _get_nw, _get_ne, _get_sw, _get_se */
  function KeyNW(q: Old.QuadrantAverages): (v: real) { q.nw }
  function KeyNE(q: Old.QuadrantAverages): (v: real) { q.ne }
  function KeySW(q: Old.QuadrantAverages): (v: real) { q.sw }
  function KeySE(q: Old.QuadrantAverages): (v: real) { q.se }

  /** The quadrant keys in the order the groupings are returned: NW, NE, SW, SE. */
  function QuadrantKey(k: nat): (key: Old.QuadrantAverages -> real)
    requires k < 4
  {
    if k == 0 then KeyNW else if k == 1 then KeyNE else if k == 2 then KeySW else KeySE
  }

  /** quadavg.imdesc */
  function ImDesc(q: Old.QuadrantAverages): (im: ImageDescr) {
    q.imdesc
  }

  /** pool.map(imagedescr.calc_quadrants, img_descriptors), or the first error. */
  function AllQuadrants(descs: seq<ImageDescr>): (r: Result<seq<Old.QuadrantAverages>, GridError>)
    ensures r.Ok? <==> forall i :: 0 <= i < |descs| ==> |descs[i].fingerprint| == FingerprintLength
    ensures r.Ok? ==> |r.value| == |descs|
    ensures r.Ok? ==> forall i :: 0 <= i < |descs| ==> r.value[i] == Old.CalcQuadrants(descs[i]).value
    ensures r.Err? ==> r.error == FingerprintSize
  {
    if descs == [] then Ok([])
    else
      var first := Old.CalcQuadrants(descs[0]);
      if first.Err? then Err(first.error)
      else
        var rest := AllQuadrants(descs[1..]);
        if rest.Err? then Err(rest.error) else Ok([first.value] + rest.value)
  }

  /** What the earlier group_by with unique and greedy returns for the averages as given. */
  ghost function ScanGroups(quads: seq<Old.QuadrantAverages>, tolerance: real, key: Old.QuadrantAverages -> real): seq<seq<Old.QuadrantAverages>> {
    SetOps.Slices(quads, SetOps.PrunedSpec(OldSetOps.CursorScan(SetOps.KeysOf(quads, key), tolerance)))
  }

  /** The four group_by calls of get_grouped_quadrants, on the averages in input order. */
  method GroupQuadrantsAsWritten(quads: seq<Old.QuadrantAverages>, tolerance: real)
    returns (grouped: seq<seq<seq<Old.QuadrantAverages>>>)
    ensures grouped == [ScanGroups(quads, tolerance, KeyNW), ScanGroups(quads, tolerance, KeyNE),
                        ScanGroups(quads, tolerance, KeySW), ScanGroups(quads, tolerance, KeySE)]
  {
    var nw, _ := OldSetOps.GroupBy(quads, tolerance, true, true, KeyNW);
    var ne, _ := OldSetOps.GroupBy(quads, tolerance, true, true, KeyNE);
    var sw, _ := OldSetOps.GroupBy(quads, tolerance, true, true, KeySW);
    var se, _ := OldSetOps.GroupBy(quads, tolerance, true, true, KeySE);
    grouped := [nw, ne, sw, se];
  }

  /**
   * Three images whose north-west averages are 10, 0 and 10 in input order
   * land in one north-west group at tolerance 1, although two of their
   * averages differ by 10.
   */
  lemma AsWrittenMixesQuadrants(quads: seq<Old.QuadrantAverages>)
    requires |quads| == 3 && quads[0].nw == 10.0 && quads[1].nw == 0.0 && quads[2].nw == 10.0
    ensures ScanGroups(quads, 1.0, KeyNW) == [quads]
    ensures KeyNW(quads[0]) - KeyNW(quads[1]) > 2.0 * 1.0
  {
    assert SetOps.KeysOf(quads, KeyNW) == [10.0, 0.0, 10.0];
    AsWrittenPairs();
    WholeSlice(quads);
  }

  /** Slicing a list at the one pair (0, len) gives back the list. */
  lemma WholeSlice<T>(s: seq<T>)
    ensures SetOps.Slices(s, [SetOps.Pair(0, |s|)]) == [s]
  {
    if s != [] {
      assert SetOps.PySlice(s, 0, |s|) == s[0..|s|] == s;
    }
  }

  /** The earlier group_by keeps one pair, the whole list, for the keys 10, 0, 10. */
  lemma AsWrittenPairs()
    ensures SetOps.PrunedSpec(OldSetOps.CursorScan([10.0, 0.0, 10.0], 1.0)) == [SetOps.Pair(0, 3)]
  {
    OldSetOps.UnsortedScanMixesKeys();
    var scan := OldSetOps.CursorScan([10.0, 0.0, 10.0], 1.0);
    var whole := SetOps.Pair(0, 3);
    assert forall p :: p in scan <==> p in [whole];
    OldSetOps.PrunedSpecOfSameElements(scan, [whole]);
    SinglePairPruned(whole);
  }

  /** A single interval is its own maximal set of intervals. */
  lemma SinglePairPruned(p: SetOps.Pair)
    ensures SetOps.PrunedSpec([p]) == [p]
  {
    var r := SetOps.PrunedSpec([p]);
    assert forall x :: x in r <==> x == p;
    SetOps.StrictlyIncreasingUnique(r, [p]);
  }

  /** One quadrant's grouping: the averages sorted by that quadrant, then grouped. */
  method GroupQuadrant(quads: seq<Old.QuadrantAverages>, tolerance: real, key: Old.QuadrantAverages -> real)
    returns (groups: seq<seq<Old.QuadrantAverages>>)
    ensures groups == SetOps.GroupBySpec(quads, tolerance, false, key)
  {
    SetOps.ByKeyIsTotal(key);
    var sorted := SortBy(quads, SetOps.ByKey(key));
    SetOps.SortedKeys(sorted, key);
    ghost var order;
    groups, order := OldSetOps.GroupBy(sorted, tolerance, true, true, key);
    OldSetOps.SortedGreedyAgrees(sorted, tolerance, key);
  }

  ghost function Groupings(quads: seq<Old.QuadrantAverages>, tolerance: real): (gs: seq<seq<seq<Old.QuadrantAverages>>>) {
    seq(4, k requires 0 <= k < 4 => SetOps.GroupBySpec(quads, tolerance, false, QuadrantKey(k)))
  }

  ghost function GroupedQuadrantsSpec(descs: seq<ImageDescr>, tolerance: real): Result<seq<seq<seq<Old.QuadrantAverages>>>, GridError> {
    var all := AllQuadrants(descs);
    if all.Err? then Err(all.error) else Ok(Groupings(all.value, tolerance))
  }

  /**
   * get_grouped_quadrants(img_descriptors, tolerance, pool) with each
   * group_by given the averages sorted by its quadrant: the NW, NE, SW and SE
   * groupings, in that order.
   */
  method GetGroupedQuadrants(descs: seq<ImageDescr>, tolerance: real)
    returns (r: Result<seq<seq<seq<Old.QuadrantAverages>>>, GridError>)
    ensures r == GroupedQuadrantsSpec(descs, tolerance)
  {
    var all := AllQuadrants(descs);
    if all.Err? {
      return Err(all.error);
    }
    var quads := all.value;
    var nw := GroupQuadrant(quads, tolerance, QuadrantKey(0));
    var ne := GroupQuadrant(quads, tolerance, QuadrantKey(1));
    var sw := GroupQuadrant(quads, tolerance, QuadrantKey(2));
    var se := GroupQuadrant(quads, tolerance, QuadrantKey(3));
    var gs := Groupings(quads, tolerance);
    FourOf(gs, nw, ne, sw, se);
    return Ok([nw, ne, sw, se]);
  }

  /** A sequence of four elements is the display of its elements. */
  lemma FourOf<T>(s: seq<T>, a: T, b: T, c: T, d: T)
    requires |s| == 4 && s[0] == a && s[1] == b && s[2] == c && s[3] == d
    ensures s == [a, b, c, d]
  {
  }

  ghost function SimilarCandidatesSpec(descs: seq<ImageDescr>, tolerance: real): Result<set<set<ImageDescr>>, GridError> {
    var quadrants := GroupedQuadrantsSpec(descs, tolerance);
    if quadrants.Err? then Err(quadrants.error)
    else Ok(CandidatesSpec(MergeSpec(QuadrantCounts(quadrants.value, ImDesc)), SimilarQuadsThreshold))
  }

  /**
   * get_similar_candidates(filenames, tolerance, pool) on descriptors
   * already made from the file names; findsimilar returns the same.
   */
  method GetSimilarCandidates(descs: seq<ImageDescr>, tolerance: real)
    returns (r: Result<set<set<ImageDescr>>, GridError>)
    ensures r == SimilarCandidatesSpec(descs, tolerance)
  {
    var quadrants := GetGroupedQuadrants(descs, tolerance);
    if quadrants.Err? {
      return Err(quadrants.error);
    }
    var similarCounts := GetSimilarCounts(quadrants.value, ImDesc);
    var candidates := SelectCandidates(similarCounts, SimilarQuadsThreshold);
    return Ok(candidates);
  }

  // ---------------------------------------------------------------------------
  // Properties
  // ---------------------------------------------------------------------------

  /**
   * There are four groupings, one per quadrant; within each group the
   * quadrant's averages lie within twice the tolerance of each other, and
   * each group holds averages of the input images.
   */
  lemma GroupingsWithinTolerance(descs: seq<ImageDescr>, tolerance: real, k: nat)
    requires GroupedQuadrantsSpec(descs, tolerance).Ok? && k < 4
    ensures |GroupedQuadrantsSpec(descs, tolerance).value| == 4
    ensures forall g, x, y :: g in GroupedQuadrantsSpec(descs, tolerance).value[k] && x in g && y in g ==>
      QuadrantKey(k)(x) - QuadrantKey(k)(y) <= 2.0 * tolerance
    ensures forall g, x :: g in GroupedQuadrantsSpec(descs, tolerance).value[k] && x in g ==> x.imdesc in descs
  {
    var quads := AllQuadrants(descs).value;
    var key := QuadrantKey(k);
    assert GroupedQuadrantsSpec(descs, tolerance).value[k] == SetOps.GroupBySpec(quads, tolerance, false, key);
    SetOps.GroupsWithinTolerance(quads, tolerance, false, key);
    SetOps.GroupsFromInput(quads, tolerance, false, key);
    forall g, x | g in SetOps.GroupBySpec(quads, tolerance, false, key) && x in g ensures x.imdesc in descs {
      var i :| 0 <= i < |quads| && quads[i] == x;
    }
  }

  /** The image of an average in any group is one of the input images. */
  lemma GroupedImageIsInput(descs: seq<ImageDescr>, tolerance: real, k: nat, i: nat, j: nat)
    requires GroupedQuadrantsSpec(descs, tolerance).Ok? && k < 4
    requires i < |GroupedQuadrantsSpec(descs, tolerance).value[k]|
    requires j < |GroupedQuadrantsSpec(descs, tolerance).value[k][i]|
    ensures GroupedQuadrantsSpec(descs, tolerance).value[k][i][j].imdesc in descs
  {
    var quads := AllQuadrants(descs).value;
    var key := QuadrantKey(k);
    var g := SetOps.GroupBySpec(quads, tolerance, false, key)[i];
    assert g == GroupedQuadrantsSpec(descs, tolerance).value[k][i];
    var x := g[j];
    assert x in g;
    SetOps.GroupsFromInput(quads, tolerance, false, key);
    assert x in quads;
    var n :| 0 <= n < |quads| && quads[n] == x;
  }

  /** get_similar_candidates fails exactly when some fingerprint is malformed. */
  lemma CandidatesSucceed(descs: seq<ImageDescr>, tolerance: real)
    ensures SimilarCandidatesSpec(descs, tolerance).Ok? <==>
      forall i :: 0 <= i < |descs| ==> |descs[i].fingerprint| == FingerprintLength
  {
  }

  /**
   * Each candidate holds at least two of the input images, one of which
   * matches each of the others in at least three quadrant groups.
   */
  lemma CandidatesOfInputs(descs: seq<ImageDescr>, tolerance: real, c: set<ImageDescr>)
    requires SimilarCandidatesSpec(descs, tolerance).Ok?
    requires c in SimilarCandidatesSpec(descs, tolerance).value
    ensures |c| >= 2
    ensures forall d :: d in c ==> d in descs
    ensures exists a :: a in c && forall b :: b in c && b != a ==>
      Get(MergeSpec(QuadrantCounts(GroupedQuadrantsSpec(descs, tolerance).value, ImDesc)), a, b) >= SimilarQuadsThreshold
  {
    var quadrants := GroupedQuadrantsSpec(descs, tolerance).value;
    var counts := MergeSpec(QuadrantCounts(quadrants, ImDesc));
    forall d | d in counts ensures d in descs {
      SimilarCountsContents(quadrants, ImDesc, d, d);
      var k, i :| 0 <= k < |quadrants| && 0 <= i < |quadrants[k]| && d in ImagesOf(quadrants[k][i], ImDesc);
      var g: seq<Old.QuadrantAverages> := quadrants[k][i];
      var j :| 0 <= j < |g| && ImagesOf(g, ImDesc)[j] == d;
      GroupedImageIsInput(descs, tolerance, k, i, j);
    }
    var someImage := ImageDescr([], []);
    SimilarCountsContents(quadrants, ImDesc, someImage, someImage);
    CandidatesSound(counts, SimilarQuadsThreshold, c);
  }

  // ---------------------------------------------------------------------------
  // The candidate search as written: grouping the unsorted averages
  // ---------------------------------------------------------------------------

  ghost function GroupedQuadrantsAsWrittenSpec(descs: seq<ImageDescr>, tolerance: real): Result<seq<seq<seq<Old.QuadrantAverages>>>, GridError> {
    var all := AllQuadrants(descs);
    if all.Err? then Err(all.error) else Ok(AsWrittenGroupings(all.value, tolerance))
  }

  ghost function AsWrittenGroupings(quads: seq<Old.QuadrantAverages>, tolerance: real): seq<seq<seq<Old.QuadrantAverages>>> {
    seq(4, k requires 0 <= k < 4 => ScanGroups(quads, tolerance, QuadrantKey(k)))
  }

  ghost function SimilarCandidatesAsWrittenSpec(descs: seq<ImageDescr>, tolerance: real): Result<set<set<ImageDescr>>, GridError> {
    var quadrants := GroupedQuadrantsAsWrittenSpec(descs, tolerance);
    if quadrants.Err? then Err(quadrants.error)
    else Ok(CandidatesSpec(MergeSpec(QuadrantCounts(quadrants.value, ImDesc)), SimilarQuadsThreshold))
  }

  /**
   * get_similar_candidates as written: the counts and the selection of the
   * candidates over the four groupings of the unsorted averages.
   */
  method GetSimilarCandidatesAsWritten(descs: seq<ImageDescr>, tolerance: real)
    returns (r: Result<set<set<ImageDescr>>, GridError>)
    ensures r == SimilarCandidatesAsWrittenSpec(descs, tolerance)
  {
    var all := AllQuadrants(descs);
    if all.Err? {
      return Err(all.error);
    }
    var quadrants := GroupQuadrantsAsWritten(all.value, tolerance);
    FourOf(AsWrittenGroupings(all.value, tolerance), quadrants[0], quadrants[1], quadrants[2], quadrants[3]);
    var similarCounts := GetSimilarCounts(quadrants, ImDesc);
    var candidates := SelectCandidates(similarCounts, SimilarQuadsThreshold);
    return Ok(candidates);
  }

  /** Every average in a group of the unsorted grouping is one of the averages grouped. */
  lemma ScanGroupsFromInput(quads: seq<Old.QuadrantAverages>, tolerance: real, key: Old.QuadrantAverages -> real)
    ensures forall g, x :: g in ScanGroups(quads, tolerance, key) && x in g ==> x in quads
  {
    var scan := OldSetOps.CursorScan(SetOps.KeysOf(quads, key), tolerance);
    var pairs := SetOps.PrunedSpec(scan);
    assert forall p :: p in pairs ==> p in scan;
    SlicesFromInput(quads, pairs);
  }

  /** Every element of every slice is an element of the sequence sliced. */
  lemma SlicesFromInput<T>(s: seq<T>, pairs: seq<SetOps.Pair>)
    requires forall p :: p in pairs ==> 0 <= p.a && 0 <= p.b
    ensures forall g, x :: g in SetOps.Slices(s, pairs) && x in g ==> x in s
  {
    forall g, x | g in SetOps.Slices(s, pairs) && x in g ensures x in s {
      var j :| 0 <= j < |pairs| && g == SetOps.PySlice(s, pairs[j].a, pairs[j].b);
      SetOps.PySliceMembers(s, pairs[j].a, pairs[j].b);
    }
  }

  /** The image of an average in any unsorted grouping is one of the input images. */
  lemma AsWrittenImageIsInput(descs: seq<ImageDescr>, tolerance: real, k: nat, i: nat, j: nat)
    requires GroupedQuadrantsAsWrittenSpec(descs, tolerance).Ok? && k < 4
    requires i < |GroupedQuadrantsAsWrittenSpec(descs, tolerance).value[k]|
    requires j < |GroupedQuadrantsAsWrittenSpec(descs, tolerance).value[k][i]|
    ensures GroupedQuadrantsAsWrittenSpec(descs, tolerance).value[k][i][j].imdesc in descs
  {
    var quads := AllQuadrants(descs).value;
    var key := QuadrantKey(k);
    assert GroupedQuadrantsAsWrittenSpec(descs, tolerance).value[k] == ScanGroups(quads, tolerance, key);
    var g := ScanGroups(quads, tolerance, key)[i];
    var x := g[j];
    assert x in g;
    ScanGroupsFromInput(quads, tolerance, key);
    assert x in quads;
    var n :| 0 <= n < |quads| && quads[n] == x;
  }

  /** As written, the search also fails exactly when some fingerprint is malformed. */
  lemma CandidatesAsWrittenSucceed(descs: seq<ImageDescr>, tolerance: real)
    ensures SimilarCandidatesAsWrittenSpec(descs, tolerance).Ok? <==>
      forall i :: 0 <= i < |descs| ==> |descs[i].fingerprint| == FingerprintLength
  {
  }

  /**
   * As written, each candidate still holds at least two input images, one of
   * which shares at least three of the unsorted quadrant groupings with each
   * of the others; only the groupings themselves lose the tolerance bound
   * (AsWrittenMixesQuadrants).
   */
  lemma CandidatesAsWrittenOfInputs(descs: seq<ImageDescr>, tolerance: real, c: set<ImageDescr>)
    requires SimilarCandidatesAsWrittenSpec(descs, tolerance).Ok?
    requires c in SimilarCandidatesAsWrittenSpec(descs, tolerance).value
    ensures |c| >= 2
    ensures forall d :: d in c ==> d in descs
    ensures exists a :: a in c && forall b :: b in c && b != a ==>
      Get(MergeSpec(QuadrantCounts(GroupedQuadrantsAsWrittenSpec(descs, tolerance).value, ImDesc)), a, b) >= SimilarQuadsThreshold
  {
    var quadrants := GroupedQuadrantsAsWrittenSpec(descs, tolerance).value;
    var counts := MergeSpec(QuadrantCounts(quadrants, ImDesc));
    forall d | d in counts ensures d in descs {
      SimilarCountsContents(quadrants, ImDesc, d, d);
      var k, i :| 0 <= k < |quadrants| && 0 <= i < |quadrants[k]| && d in ImagesOf(quadrants[k][i], ImDesc);
      var g: seq<Old.QuadrantAverages> := quadrants[k][i];
      var j :| 0 <= j < |g| && ImagesOf(g, ImDesc)[j] == d;
      AsWrittenImageIsInput(descs, tolerance, k, i, j);
    }
    var someImage := ImageDescr([], []);
    SimilarCountsContents(quadrants, ImDesc, someImage, someImage);
    CandidatesSound(counts, SimilarQuadsThreshold, c);
  }
}
