/**
 * imagecmp/compare.py: the similarity search on an n_x by n_y grid of cell
 * averages, and the schedule of refinements in findsimilar.
 *
 * pool.map becomes an ordinary map over the sequence. Where Python iterates
 * a frozenset, the order it happens to use is the parameter `order`.
 */
module Compare {
  import opened Wrappers
  import opened Collections
  import opened ImageDescriptors
  import opened Counting
  import SetOps

  /** What the pipeline can raise: a calc_quadrants error, or the IndexError of the grouping key. */
  datatype Failure = Quadrants(error: GridError) | QuadrantIndex

  /**
   * int(nquads_x * nquads_y * SIMILAR_QUADS_RATIO) with the ratio 0.6:
   * six tenths of the cell count, truncated toward zero.
   */
  function MinSimilarQuads(nx: int, ny: int): (m: int)
    ensures nx * ny >= 0 ==> m * 10 <= nx * ny * 6 < m * 10 + 10
    ensures nx * ny < 0 ==> m * 10 - 10 < nx * ny * 6 <= m * 10
  {
    var n := nx * ny;
    if n >= 0 then n * 6 / 10 else -((-n) * 6 / 10)
  }

  /** findsimilar refines on a 4 x 4 grid, then on a 16 x 16 grid. */
  const CoarseGrid: int := 4
  const FineGrid: int := 16

  /** The two grids of findsimilar need 9 of 16 and 153 of 256 matching cells. */
  lemma ScheduleThresholds()
    ensures MinSimilarQuads(CoarseGrid, CoarseGrid) == 9
    ensures MinSimilarQuads(FineGrid, FineGrid) == 153
  {
  }

  /** quadavg.imdesc */
  function ImDesc(q: QuadrantAverages): (im: ImageDescr) {
    q.imdesc
  }

  /**
   * pool.map(calc_quadrants_xy, img_descriptors): every descriptor's
   * averages, or the error of the first descriptor that fails.
   */
  function AllQuadrants(descs: seq<ImageDescr>, nx: int, ny: int): (r: Result<seq<QuadrantAverages>, GridError>)
    ensures r.Ok? <==> forall i :: 0 <= i < |descs| ==> CalcQuadrants(descs[i], nx, ny).Ok?
    ensures r.Ok? ==> |r.value| == |descs|
    ensures r.Ok? ==> forall i :: 0 <= i < |descs| ==> r.value[i] == CalcQuadrants(descs[i], nx, ny).value
    ensures r.Err? ==> exists i :: 0 <= i < |descs| && CalcQuadrants(descs[i], nx, ny) == Err(r.error)
  {
    if descs == [] then Ok([])
    else
      var first := CalcQuadrants(descs[0], nx, ny);
      if first.Err? then Err(first.error)
      else
        var rest := AllQuadrants(descs[1..], nx, ny);
        if rest.Err? then Err(rest.error) else Ok([first.value] + rest.value)
  }

  /** lambda q: q.quadrants[n], made total; it is only applied where n is in range. */
  function QuadrantKey(n: nat): (key: QuadrantAverages -> real) {
    (q: QuadrantAverages) => if n < |q.quadrants| then q.quadrants[n] else 0.0
  }

  /** Some image has no n-th cell, so the key raises IndexError while sorting. */
  predicate MissingCell(quads: seq<QuadrantAverages>, n: nat) {
    exists q :: q in quads && |q.quadrants| <= n
  }

  /** group_by(all_image_quads, tolerance, key=lambda q: q.quadrants[n]) */
  ghost function Grouping(quads: seq<QuadrantAverages>, tolerance: real, n: nat): (groups: seq<seq<QuadrantAverages>>) {
    SetOps.GroupBySpec(quads, tolerance, false, QuadrantKey(n))
  }

  ghost function GroupedQuadrant(quads: seq<QuadrantAverages>, tolerance: real, n: nat): (r: Result<seq<seq<QuadrantAverages>>, Failure>) {
    if MissingCell(quads, n) then Err(QuadrantIndex) else Ok(Grouping(quads, tolerance, n))
  }

  /** group_quadrant_n((all_image_quads, tolerance, n)) */
  method GroupQuadrantN(quads: seq<QuadrantAverages>, tolerance: real, n: nat) returns (r: Result<seq<seq<QuadrantAverages>>, Failure>)
    ensures r == GroupedQuadrant(quads, tolerance, n)
  {
    if MissingCell(quads, n) {
      return Err(QuadrantIndex);
    }
    var groups := SetOps.GroupBy(quads, tolerance, false, QuadrantKey(n));
    return Ok(groups);
  }

  /** Every image has at least `count` cell averages. */
  predicate HasCells(quads: seq<QuadrantAverages>, count: int) {
    forall q :: q in quads ==> count <= |q.quadrants|
  }

  /** The groupings of cells 0 .. n - 1, in order. */
  ghost function GroupingsUpTo(quads: seq<QuadrantAverages>, tolerance: real, n: nat): (gs: seq<seq<seq<QuadrantAverages>>>)
    ensures |gs| == n
  {
    if n == 0 then [] else GroupingsUpTo(quads, tolerance, n - 1) + [Grouping(quads, tolerance, n - 1)]
  }

  /** One grouping per cell index 0 .. count - 1, or the IndexError. */
  ghost function Groupings(quads: seq<QuadrantAverages>, tolerance: real, count: int): (r: Result<seq<seq<seq<QuadrantAverages>>>, Failure>) {
    if !HasCells(quads, count) then Err(QuadrantIndex)
    else Ok(seq(if count > 0 then count else 0, n requires 0 <= n => Grouping(quads, tolerance, n)))
  }

  ghost function GroupedQuadrantsSpec(descs: seq<ImageDescr>, tolerance: real, nx: int, ny: int): Result<seq<seq<seq<QuadrantAverages>>>, Failure> {
    var all := AllQuadrants(descs, nx, ny);
    if all.Err? then Err(Quadrants(all.error)) else Groupings(all.value, tolerance, nx * ny)
  }

  /** get_grouped_quadrants(img_descriptors, tolerance, nquads_x, nquads_y, pool) */
  method GetGroupedQuadrants(descs: seq<ImageDescr>, tolerance: real, nx: int, ny: int)
    returns (r: Result<seq<seq<seq<QuadrantAverages>>>, Failure>)
    ensures r == GroupedQuadrantsSpec(descs, tolerance, nx, ny)
  {
    var all := AllQuadrants(descs, nx, ny);
    if all.Err? {
      return Err(Quadrants(all.error));
    }
    r := GroupAllCells(all.value, tolerance, nx * ny);
  }

  /**
   * The loop of get_grouped_quadrants: group_quadrant_n for each cell index
   * n in range(quads_per_image), stopping at the first IndexError.
   */
  method GroupAllCells(quads: seq<QuadrantAverages>, tolerance: real, quadsPerImage: int)
    returns (r: Result<seq<seq<seq<QuadrantAverages>>>, Failure>)
    ensures r == Groupings(quads, tolerance, quadsPerImage)
  {
    var count := if quadsPerImage > 0 then quadsPerImage else 0;
    var grouped: seq<seq<seq<QuadrantAverages>>> := [];
    for n := 0 to count
      invariant grouped == GroupingsUpTo(quads, tolerance, n)
      invariant HasCells(quads, n)
    {
      var g := GroupQuadrantN(quads, tolerance, n);
      if g.Err? {
        MissingCellFails(quads, tolerance, n, quadsPerImage);
        return Err(g.error);
      }
      grouped := grouped + [g.value];
    }
    assert HasCells(quads, quadsPerImage);
    GroupingsUpToAll(quads, tolerance, count);
    return Ok(grouped);
  }

  /** An image without cell n, for n below the cell count, makes the whole grouping fail. */
  lemma MissingCellFails(quads: seq<QuadrantAverages>, tolerance: real, n: nat, count: int)
    requires MissingCell(quads, n) && n < count
    ensures Groupings(quads, tolerance, count) == Err(QuadrantIndex)
  {
    var q :| q in quads && |q.quadrants| <= n;
  }

  lemma GroupingsUpToAll(quads: seq<QuadrantAverages>, tolerance: real, count: nat)
    ensures GroupingsUpTo(quads, tolerance, count) == seq(count, n requires 0 <= n => Grouping(quads, tolerance, n))
  {
    var grouped := GroupingsUpTo(quads, tolerance, count);
    forall k | 0 <= k < count ensures grouped[k] == Grouping(quads, tolerance, k) {
      GroupingsUpToAt(quads, tolerance, count, k);
    }
  }

  lemma {:induction false} GroupingsUpToAt(quads: seq<QuadrantAverages>, tolerance: real, n: nat, k: nat)
    requires k < n
    ensures GroupingsUpTo(quads, tolerance, n)[k] == Grouping(quads, tolerance, k)
  {
    var prev := GroupingsUpTo(quads, tolerance, n - 1);
    var last := Grouping(quads, tolerance, n - 1);
    assert GroupingsUpTo(quads, tolerance, n) == prev + [last];
    if k < n - 1 {
      GroupingsUpToAt(quads, tolerance, n - 1, k);
      assert (prev + [last])[k] == prev[k];
    } else {
      assert (prev + [last])[k] == last;
    }
  }

  ghost function SimilarCandidatesSpec(descs: seq<ImageDescr>, tolerance: real, nx: int, ny: int): Result<set<set<ImageDescr>>, Failure> {
    var quadrants := GroupedQuadrantsSpec(descs, tolerance, nx, ny);
    if quadrants.Err? then Err(quadrants.error)
    else Ok(CandidatesSpec(MergeSpec(QuadrantCounts(quadrants.value, ImDesc)), MinSimilarQuads(nx, ny)))
  }

  /** get_similar_candidates(img_descriptors, tolerance, nquads_x, nquads_y, pool) */
  method GetSimilarCandidates(descs: seq<ImageDescr>, tolerance: real, nx: int, ny: int)
    returns (r: Result<set<set<ImageDescr>>, Failure>)
    ensures r == SimilarCandidatesSpec(descs, tolerance, nx, ny)
  {
    var quadrants := GetGroupedQuadrants(descs, tolerance, nx, ny);
    if quadrants.Err? {
      return Err(quadrants.error);
    }
    var similarCounts := GetSimilarCounts(quadrants.value, ImDesc);
    var minSimilarQuads := MinSimilarQuads(nx, ny);
    var candidates := SelectCandidates(similarCounts, minSimilarQuads);
    return Ok(candidates);
  }

  /** The union of the candidate sets of a list of results, or the first error. */
  ghost function Union(results: seq<Result<set<set<ImageDescr>>, Failure>>): Result<set<set<ImageDescr>>, Failure>
    decreases |results|
  {
    if results == [] then Ok({})
    else
      var before := Union(results[..|results| - 1]);
      if before.Err? then before
      else
        var last := results[|results| - 1];
        if last.Err? then Err(last.error) else Ok(before.value + last.value)
  }

  /** get_similar_candidates of each group in turn. */
  ghost function GroupResults(groups: seq<seq<ImageDescr>>, tolerance: real, nx: int, ny: int): (rs: seq<Result<set<set<ImageDescr>>, Failure>>)
    ensures |rs| == |groups|
  {
    seq(|groups|, i requires 0 <= i < |groups| => SimilarCandidatesSpec(groups[i], tolerance, nx, ny))
  }

  ghost function RefineSpec(groups: seq<seq<ImageDescr>>, tolerance: real, nx: int, ny: int): Result<set<set<ImageDescr>>, Failure> {
    Union(GroupResults(groups, tolerance, nx, ny))
  }

  /** refine_candidates(candidates, tolerance, nquads_x, nquads_y, pool) */
  method RefineCandidates(groups: seq<seq<ImageDescr>>, tolerance: real, nx: int, ny: int)
    returns (r: Result<set<set<ImageDescr>>, Failure>)
    ensures r == RefineSpec(groups, tolerance, nx, ny)
  {
    ghost var results := GroupResults(groups, tolerance, nx, ny);
    var refined: set<set<ImageDescr>> := {};
    for i := 0 to |groups|
      invariant Union(results[..i]) == Ok(refined)
    {
      var c := GetSimilarCandidates(groups[i], tolerance, nx, ny);
      assert c == results[i];
      UnionStep(results, i);
      if c.Err? {
        UnionStopsAtError(results, i + 1);
        return Err(c.error);
      }
      refined := refined + c.value;
    }
    assert results[..|groups|] == results;
    return Ok(refined);
  }

  /** The union of one more result. */
  lemma UnionStep(results: seq<Result<set<set<ImageDescr>>, Failure>>, i: nat)
    requires i < |results| && Union(results[..i]).Ok?
    ensures Union(results[..i + 1]) ==
      if results[i].Err? then Err(results[i].error) else Ok(Union(results[..i]).value + results[i].value)
  {
    assert results[..i + 1][..i] == results[..i];
  }

  /** Once a prefix fails, the whole list fails with the same error. */
  lemma {:induction false} UnionStopsAtError(results: seq<Result<set<set<ImageDescr>>, Failure>>, n: nat)
    requires n <= |results| && Union(results[..n]).Err?
    ensures Union(results) == Union(results[..n])
    decreases |results| - n
  {
    if n == |results| {
      assert results[..n] == results;
    } else {
      assert results[..n + 1][..n] == results[..n];
      UnionStopsAtError(results, n + 1);
    }
  }

  /** With no error, the union holds exactly the members of the results. */
  lemma {:induction false} UnionAllOk(results: seq<Result<set<set<ImageDescr>>, Failure>>)
    requires forall i :: 0 <= i < |results| ==> results[i].Ok?
    ensures Union(results).Ok?
    ensures forall c :: c in Union(results).value <==> exists i :: 0 <= i < |results| && c in results[i].value
    decreases |results|
  {
    if results != [] {
      var init := results[..|results| - 1];
      assert forall i :: 0 <= i < |init| ==> init[i] == results[i];
      UnionAllOk(init);
      forall c ensures c in Union(results).value <==> exists i :: 0 <= i < |results| && c in results[i].value {
        if c in Union(init).value {
          var i :| 0 <= i < |init| && c in init[i].value;
          assert c in results[i].value;
        }
        if exists i :: 0 <= i < |results| && c in results[i].value {
          var i :| 0 <= i < |results| && c in results[i].value;
          if i < |init| {
            assert c in init[i].value;
          }
        }
      }
    }
  }

  /** One failing result makes the union fail. */
  lemma {:induction false} UnionFailsAt(results: seq<Result<set<set<ImageDescr>>, Failure>>, i: nat)
    requires i < |results| && results[i].Err?
    ensures Union(results).Err?
    decreases |results|
  {
    var init := results[..|results| - 1];
    if i < |init| {
      assert init[i] == results[i];
      UnionFailsAt(init, i);
    }
  }

  /** l lists the elements of s, each once. */
  ghost predicate Lists(s: set<ImageDescr>, l: seq<ImageDescr>) {
    (forall x :: x in l <==> x in s) && NoDuplicates(l)
  }

  /** Python's iteration over a frozenset lists each element once. */
  ghost predicate Enumerates(order: set<ImageDescr> -> seq<ImageDescr>) {
    forall s: set<ImageDescr> :: Lists(s, order(s))
  }

  /** Every candidate set f gives for a member of `first`. */
  ghost function Collected(first: set<set<ImageDescr>>, f: set<ImageDescr> -> Result<set<set<ImageDescr>>, Failure>): set<set<ImageDescr>> {
    set g, c | g in first && f(g).Ok? && c in f(g).value :: c
  }

  /** The 16 x 16 round on one cluster, its images listed in `order`. */
  ghost function SecondPass(tolerance: real, order: set<ImageDescr> -> seq<ImageDescr>): set<ImageDescr> -> Result<set<set<ImageDescr>>, Failure> {
    g => SimilarCandidatesSpec(order(g), tolerance, FineGrid, FineGrid)
  }

  /** The clusters the 16 x 16 round finds in each 4 x 4 cluster. */
  ghost function SecondRound(first: set<set<ImageDescr>>, tolerance: real, order: set<ImageDescr> -> seq<ImageDescr>): set<set<ImageDescr>> {
    Collected(first, SecondPass(tolerance, order))
  }

  ghost function FindSimilarSpec(descs: seq<ImageDescr>, tolerance: real, order: set<ImageDescr> -> seq<ImageDescr>): Result<set<set<ImageDescr>>, Failure> {
    var first := SimilarCandidatesSpec(descs, tolerance, CoarseGrid, CoarseGrid);
    if first.Err? then first else Ok(SecondRound(first.value, tolerance, order))
  }

  /**
   * findsimilar on descriptors already made from the file names: all images
   * as one group refined on a 4 x 4 grid, then each cluster refined on a
   * 16 x 16 grid.
   */
  method FindSimilar(descs: seq<ImageDescr>, tolerance: real, order: set<ImageDescr> -> seq<ImageDescr>)
    returns (r: Result<set<set<ImageDescr>>, Failure>)
    requires Enumerates(order)
    ensures r == FindSimilarSpec(descs, tolerance, order)
  {
    var first := RefineCandidates([descs], tolerance, CoarseGrid, CoarseGrid);
    RefineSingle(descs, tolerance, CoarseGrid, CoarseGrid);
    if first.Err? {
      return first;
    }
    FirstRoundValid(descs, tolerance, order);
    var second := RefineClusters(first.value, tolerance, order);
    return Ok(second);
  }

  /**
   * The second refine_candidates call of findsimilar: the 4 x 4 clusters,
   * each listed in `order`, refined on a 16 x 16 grid.
   */
  method RefineClusters(first: set<set<ImageDescr>>, tolerance: real, order: set<ImageDescr> -> seq<ImageDescr>)
    returns (second: set<set<ImageDescr>>)
    requires forall g :: g in first ==> SecondPass(tolerance, order)(g).Ok?
    ensures second == SecondRound(first, tolerance, order)
  {
    var clusters := SetToSeq(first);
    var groups := seq(|clusters|, i requires 0 <= i < |clusters| => order(clusters[i]));
    SecondRoundIsRefine(first, clusters, groups, tolerance, order);
    var r := RefineCandidates(groups, tolerance, FineGrid, FineGrid);
    second := r.value;
  }

  /** Refining the clusters listed in any order gives the second round. */
  lemma SecondRoundIsRefine(first: set<set<ImageDescr>>, clusters: seq<set<ImageDescr>>, groups: seq<seq<ImageDescr>>,
                            tolerance: real, order: set<ImageDescr> -> seq<ImageDescr>)
    requires forall g :: g in clusters <==> g in first
    requires |groups| == |clusters| && forall i :: 0 <= i < |clusters| ==> groups[i] == order(clusters[i])
    requires forall g :: g in first ==> SecondPass(tolerance, order)(g).Ok?
    ensures RefineSpec(groups, tolerance, FineGrid, FineGrid) == Ok(SecondRound(first, tolerance, order))
  {
    var results := GroupResults(groups, tolerance, FineGrid, FineGrid);
    var f := SecondPass(tolerance, order);
    forall i | 0 <= i < |results| ensures results[i] == f(clusters[i]) {
      assert groups[i] == order(clusters[i]);
    }
    UnionCollects(first, clusters, results, f);
  }

  /** The union of the results for an enumeration of `first`. */
  lemma UnionCollects(first: set<set<ImageDescr>>, clusters: seq<set<ImageDescr>>, results: seq<Result<set<set<ImageDescr>>, Failure>>,
                      f: set<ImageDescr> -> Result<set<set<ImageDescr>>, Failure>)
    requires forall g :: g in clusters <==> g in first
    requires |results| == |clusters| && forall i :: 0 <= i < |clusters| ==> results[i] == f(clusters[i])
    requires forall g :: g in first ==> f(g).Ok?
    ensures Union(results) == Ok(Collected(first, f))
  {
    forall i | 0 <= i < |results| ensures results[i].Ok? {
      assert clusters[i] in first;
    }
    UnionAllOk(results);
    var refined := Union(results).value;
    forall c ensures c in refined <==> c in Collected(first, f) {
      if c in refined {
        var i :| 0 <= i < |results| && c in results[i].value;
        assert clusters[i] in first;
      }
      if c in Collected(first, f) {
        var g :| g in first && f(g).Ok? && c in f(g).value;
        var i :| 0 <= i < |clusters| && clusters[i] == g;
        assert c in results[i].value;
      }
    }
    assert refined == Collected(first, f);
  }

  // ---------------------------------------------------------------------------
  // Properties
  // ---------------------------------------------------------------------------

  /**
   * On a grid that divides the 16 x 48 bytes, a descriptor's averages are
   * there exactly when its fingerprint has the 768 bytes, and then there are
   * n_x * n_y of them.
   */
  lemma ExactGrid(d: ImageDescr, nx: int, ny: int)
    requires nx > 0 && ny > 0 && Rows % nx == 0 && Cols % ny == 0
    ensures CalcQuadrants(d, nx, ny).Ok? <==> |d.fingerprint| == FingerprintLength
    ensures CalcQuadrants(d, nx, ny).Ok? ==> |CalcQuadrants(d, nx, ny).value.quadrants| == nx * ny
  {
    if |d.fingerprint| == FingerprintLength {
      CalcQuadrantsShape(d, nx, ny);
    }
  }

  /**
   * On such a grid get_similar_candidates fails exactly when some
   * fingerprint is malformed.
   */
  lemma CandidatesSucceed(descs: seq<ImageDescr>, tolerance: real, nx: int, ny: int)
    requires nx > 0 && ny > 0 && Rows % nx == 0 && Cols % ny == 0
    ensures SimilarCandidatesSpec(descs, tolerance, nx, ny).Ok? <==>
      forall i :: 0 <= i < |descs| ==> |descs[i].fingerprint| == FingerprintLength
  {
    forall i | 0 <= i < |descs| {
      ExactGrid(descs[i], nx, ny);
    }
    var all := AllQuadrants(descs, nx, ny);
    if all.Ok? {
      forall q | q in all.value ensures |q.quadrants| == nx * ny {
        var i :| 0 <= i < |all.value| && all.value[i] == q;
      }
      assert HasCells(all.value, nx * ny);
    }
  }

  /**
   * How many averages calc_quadrants yields: n_x * n_y when both counts are
   * positive, none when either is negative (Python's range with a negative
   * step is empty).
   */
  lemma CellCount(d: ImageDescr, nx: int, ny: int)
    requires CalcQuadrants(d, nx, ny).Ok?
    ensures |CalcQuadrants(d, nx, ny).value.quadrants| == if nx > 0 && ny > 0 then nx * ny else 0
  {
    if nx > 0 && ny > 0 {
      ExactGrid(d, nx, ny);
    }
  }

  /** HasCells over all averages, by the cell count of each. */
  lemma AllHaveCells(descs: seq<ImageDescr>, nx: int, ny: int)
    requires AllQuadrants(descs, nx, ny).Ok?
    ensures HasCells(AllQuadrants(descs, nx, ny).value, nx * ny) <==> descs == [] || !(nx < 0 && ny < 0)
  {
    var quads := AllQuadrants(descs, nx, ny).value;
    var cells := if nx > 0 && ny > 0 then nx * ny else 0;
    forall q | q in quads ensures |q.quadrants| == cells {
      var i :| 0 <= i < |quads| && quads[i] == q;
      CellCount(descs[i], nx, ny);
    }
    SameCells(quads, nx * ny, cells);
    ProductSign(nx, ny);
  }

  lemma ProductSign(a: int, b: int)
    ensures a < 0 && b < 0 ==> a * b > 0
    ensures !(a > 0 && b > 0) && !(a < 0 && b < 0) ==> a * b <= 0
  {
    if a < 0 && b < 0 {
      assert a * b == (-a) * (-b);
    } else if a < 0 && b >= 0 {
      assert a * b == -((-a) * b);
    } else if a >= 0 && b < 0 {
      assert a * b == -(a * (-b));
    }
  }

  /** When every image has the same number of cells, HasCells compares the count with it. */
  lemma SameCells(quads: seq<QuadrantAverages>, count: int, cells: nat)
    requires forall q :: q in quads ==> |q.quadrants| == cells
    ensures HasCells(quads, count) <==> quads == [] || count <= cells
  {
    if quads != [] {
      assert quads[0] in quads;
    }
  }


  /**
   * The IndexError of the grouping key happens exactly when every
   * calc_quadrants succeeds, there is an image and both cell counts are
   * negative: the averages are then empty, yet the product of the counts is
   * positive.
   */
  lemma IndexErrorOnlyWhenBothNegative(descs: seq<ImageDescr>, tolerance: real, nx: int, ny: int)
    ensures GroupedQuadrantsSpec(descs, tolerance, nx, ny) == Err(QuadrantIndex) <==>
      AllQuadrants(descs, nx, ny).Ok? && descs != [] && nx < 0 && ny < 0
  {
    if AllQuadrants(descs, nx, ny).Ok? {
      AllHaveCells(descs, nx, ny);
    }
  }

  /** The images of the averages are the input descriptors. */
  lemma AveragesOfInputs(descs: seq<ImageDescr>, nx: int, ny: int, q: QuadrantAverages)
    requires AllQuadrants(descs, nx, ny).Ok? && q in AllQuadrants(descs, nx, ny).value
    ensures q.imdesc in descs
  {
    var quads := AllQuadrants(descs, nx, ny).value;
    var i :| 0 <= i < |quads| && quads[i] == q;
  }

  /**
   * Every candidate get_similar_candidates returns holds at least two of the
   * input images, one of which matches each of the others in at least
   * int(0.6 * n_x * n_y) cells.
   */
  lemma CandidatesOfInputs(descs: seq<ImageDescr>, tolerance: real, nx: int, ny: int, c: set<ImageDescr>)
    requires SimilarCandidatesSpec(descs, tolerance, nx, ny).Ok?
    requires c in SimilarCandidatesSpec(descs, tolerance, nx, ny).value
    ensures |c| >= 2
    ensures forall d :: d in c ==> d in descs
    ensures exists a :: a in c && forall b :: b in c && b != a ==>
      Get(MergeSpec(QuadrantCounts(GroupedQuadrantsSpec(descs, tolerance, nx, ny).value, ImDesc)), a, b) >= MinSimilarQuads(nx, ny)
  {
    var quadrants := GroupedQuadrantsSpec(descs, tolerance, nx, ny).value;
    var counts := MergeSpec(QuadrantCounts(quadrants, ImDesc));
    var quads := AllQuadrants(descs, nx, ny).value;
    forall d | d in counts ensures d in descs {
      SimilarCountsContents(quadrants, ImDesc, d, d);
      var k, i :| 0 <= k < |quadrants| && 0 <= i < |quadrants[k]| && d in ImagesOf(quadrants[k][i], ImDesc);
      GroupedImagesAreInputs(quads, tolerance, k, quadrants[k][i], d);
      var q :| q in quads && q.imdesc == d;
      AveragesOfInputs(descs, nx, ny, q);
    }
    var someImage := ImageDescr([], []);
    SimilarCountsContents(quadrants, ImDesc, someImage, someImage);
    CandidatesSound(counts, MinSimilarQuads(nx, ny), c);
  }

  /** An image shown in a grouping is the image of one of the averages grouped. */
  lemma GroupedImagesAreInputs(quads: seq<QuadrantAverages>, tolerance: real, n: nat, g: seq<QuadrantAverages>, d: ImageDescr)
    requires g in Grouping(quads, tolerance, n) && d in ImagesOf(g, ImDesc)
    ensures exists q :: q in quads && q.imdesc == d
  {
    var j :| 0 <= j < |g| && ImagesOf(g, ImDesc)[j] == d;
    var q := g[j];
    assert q in g;
    SetOps.GroupsFromInput(quads, tolerance, false, QuadrantKey(n));
    assert q in quads;
  }

  /**
   * refine_candidates succeeds exactly when each group does, and then every
   * refined cluster lies within the group that produced it and holds at
   * least two images. No groups give no clusters.
   */
  lemma RefinedWithinGroups(groups: seq<seq<ImageDescr>>, tolerance: real, nx: int, ny: int)
    ensures RefineSpec(groups, tolerance, nx, ny).Ok? <==>
      forall i :: 0 <= i < |groups| ==> SimilarCandidatesSpec(groups[i], tolerance, nx, ny).Ok?
    ensures RefineSpec(groups, tolerance, nx, ny).Ok? ==>
      forall c :: c in RefineSpec(groups, tolerance, nx, ny).value ==>
        |c| >= 2 && exists i :: 0 <= i < |groups| && forall d :: d in c ==> d in groups[i]
    ensures groups == [] ==> RefineSpec(groups, tolerance, nx, ny) == Ok({})
  {
    var results := GroupResults(groups, tolerance, nx, ny);
    if forall i :: 0 <= i < |groups| ==> SimilarCandidatesSpec(groups[i], tolerance, nx, ny).Ok? {
      UnionAllOk(results);
      forall c | c in Union(results).value
        ensures |c| >= 2 && exists i :: 0 <= i < |groups| && forall d :: d in c ==> d in groups[i]
      {
        var i :| 0 <= i < |results| && c in results[i].value;
        CandidatesOfInputs(groups[i], tolerance, nx, ny, c);
      }
    } else {
      var i :| 0 <= i < |groups| && !SimilarCandidatesSpec(groups[i], tolerance, nx, ny).Ok?;
      UnionFailsAt(results, i);
    }
  }

  /** refine_candidates on a single group is get_similar_candidates of it. */
  lemma RefineSingle(g: seq<ImageDescr>, tolerance: real, nx: int, ny: int)
    ensures RefineSpec([g], tolerance, nx, ny) == SimilarCandidatesSpec(g, tolerance, nx, ny)
  {
    var results := GroupResults([g], tolerance, nx, ny);
    assert results == [SimilarCandidatesSpec(g, tolerance, nx, ny)];
    UnionSingle(SimilarCandidatesSpec(g, tolerance, nx, ny));
  }

  lemma UnionSingle(r: Result<set<set<ImageDescr>>, Failure>)
    ensures Union([r]) == r
  {
    assert [r][..0] == [];
    if r.Ok? {
      assert {} + r.value == r.value;
    }
  }

  /** After a successful 4 x 4 round every cluster passes the 16 x 16 round. */
  lemma FirstRoundValid(descs: seq<ImageDescr>, tolerance: real, order: set<ImageDescr> -> seq<ImageDescr>)
    requires Enumerates(order)
    requires SimilarCandidatesSpec(descs, tolerance, CoarseGrid, CoarseGrid).Ok?
    ensures forall g :: g in SimilarCandidatesSpec(descs, tolerance, CoarseGrid, CoarseGrid).value ==>
      SimilarCandidatesSpec(order(g), tolerance, FineGrid, FineGrid).Ok?
  {
    CandidatesSucceed(descs, tolerance, CoarseGrid, CoarseGrid);
    forall g | g in SimilarCandidatesSpec(descs, tolerance, CoarseGrid, CoarseGrid).value
      ensures SimilarCandidatesSpec(order(g), tolerance, FineGrid, FineGrid).Ok?
    {
      CandidatesOfInputs(descs, tolerance, CoarseGrid, CoarseGrid, g);
      ClusterValid(descs, g, tolerance, order);
    }
  }

  /** A cluster of well-formed descriptors passes the 16 x 16 round. */
  lemma ClusterValid(descs: seq<ImageDescr>, g: set<ImageDescr>, tolerance: real, order: set<ImageDescr> -> seq<ImageDescr>)
    requires Enumerates(order)
    requires forall i :: 0 <= i < |descs| ==> |descs[i].fingerprint| == FingerprintLength
    requires forall d :: d in g ==> d in descs
    ensures SimilarCandidatesSpec(order(g), tolerance, FineGrid, FineGrid).Ok?
  {
    CandidatesSucceed(order(g), tolerance, FineGrid, FineGrid);
    forall k | 0 <= k < |order(g)| ensures |order(g)[k].fingerprint| == FingerprintLength {
      assert order(g)[k] in g;
      var i :| 0 <= i < |descs| && descs[i] == order(g)[k];
    }
  }

  /**
   * findsimilar succeeds exactly when every fingerprint is well formed, and
   * each cluster it returns holds at least two of the input images.
   */
  lemma FindSimilarSound(descs: seq<ImageDescr>, tolerance: real, order: set<ImageDescr> -> seq<ImageDescr>)
    requires Enumerates(order)
    ensures FindSimilarSpec(descs, tolerance, order).Ok? <==>
      forall i :: 0 <= i < |descs| ==> |descs[i].fingerprint| == FingerprintLength
    ensures FindSimilarSpec(descs, tolerance, order).Ok? ==>
      forall c :: c in FindSimilarSpec(descs, tolerance, order).value ==> |c| >= 2 && forall d :: d in c ==> d in descs
  {
    CandidatesSucceed(descs, tolerance, CoarseGrid, CoarseGrid);
    var first := SimilarCandidatesSpec(descs, tolerance, CoarseGrid, CoarseGrid);
    if first.Ok? {
      FirstRoundValid(descs, tolerance, order);
      forall c | c in SecondRound(first.value, tolerance, order) ensures |c| >= 2 && forall d :: d in c ==> d in descs {
        var g :| g in first.value && SecondPass(tolerance, order)(g).Ok? && c in SecondPass(tolerance, order)(g).value;
        CandidatesOfInputs(order(g), tolerance, FineGrid, FineGrid, c);
        CandidatesOfInputs(descs, tolerance, CoarseGrid, CoarseGrid, g);
        forall d | d in c ensures d in descs {
          assert d in order(g);
          assert d in g;
        }
      }
    }
  }

  /** No images, no clusters. */
  lemma FindSimilarEmpty(tolerance: real, order: set<ImageDescr> -> seq<ImageDescr>)
    requires Enumerates(order)
    ensures FindSimilarSpec([], tolerance, order) == Ok({})
  {
    FindSimilarSound([], tolerance, order);
    assert FindSimilarSpec([], tolerance, order).value == {};
  }
}
