# imagecmp similarity clustering in Dafny

ImageCmp finds groups of similar images. It reduces every image to a
fingerprint: a 16 x 16 RGB thumbnail, stored as 768 bytes. It averages the
fingerprint over the cells of a grid. For each cell it groups the images
whose averages lie within a tolerance of one another. It then counts, for
every pair of images, in how many cells they were grouped together. Pairs
that agree in enough cells become candidate clusters. The current version
refines the clusters twice: first on a 4 x 4 grid over all images, then on
a 16 x 16 grid within each cluster.

The repository holds two versions of this pipeline.
- The current package is `imagecmp/`.
- An earlier version sits at the top level and uses four fixed quadrants
  (NW, NE, SW, SE).

This project models both versions, one Dafny module per Python file:

| module | models |
|---|---|
| `SetOps` | imagecmp/setops.py: `has_supersets`, `without_subsets`, `without_pair_subsets`, `group_by` |
| `OldSetOps` | setops.py: the interval `without_subsets` and the `group_by` with `unique` / `greedy` |
| `ImageDescriptors` | imagecmp/imagedescr.py: `ImageDescr` and `QuadrantAverages` equality and hash, and `calc_quadrants(imdesc, n_x, n_y)` |
| `OldImageDescriptors` | imagedescr.py: the four-field `QuadrantAverages` and the 2 x 2 `calc_quadrants` |
| `Counting` | `count_quadrant`, `get_similar_counts` and the candidate loop of `get_similar_candidates`, which both compare.py files share line for line (imagecmp/compare.py:103-165 and 185-197, compare.py:92-154 and 177-189) |
| `Compare` | imagecmp/compare.py: `group_quadrant_n`, `get_grouped_quadrants`, `get_similar_candidates`, `refine_candidates` and the grid schedule of `findsimilar` |
| `OldCompare` | compare.py: the four-quadrant `get_grouped_quadrants`, `get_similar_candidates` with threshold 3, and `findsimilar` |
| `Sorting`, `Collections`, `Wrappers` | the stable sort Python's `sorted` performs, listing a set as a sequence, and a `Result` type |

## How the model treats the source

- **Loops and specifications.** Every Python loop is a Dafny method with
  loop invariants. Each method is proved equal to a specification function
  (`GroupBy` to `GroupBySpec`, `CountQuadrant` to `CountSpec`,
  `GetSimilarCounts` to `MergeSpec`, `SelectCandidates` to
  `CandidatesSpec`, and so on). The properties the code and its tests
  promise are lemmas about those functions.
- **In-place updates.** `without_pair_subsets` deletes slices from its list.
  The count loops update nested dicts. In the model these become a `seq`
  and a `map<ImageDescr, map<ImageDescr, nat>>` that the loop reassigns.
- **Parallelism.** `pool.map` and `apply_async` are ordinary maps over a
  sequence, in input order.
- **Exceptions.** An exception becomes a `Result` error. `calc_quadrants`
  can fail in four ways:
  - the asserted fingerprint size;
  - `ZeroDivisionError` from `divmod`;
  - the two `ValueError`s.

  These are `GridError`. The `IndexError` that `q.quadrants[n]` raises
  when an image has fewer cells is `Failure.QuadrantIndex`. When several
  images fail, `pool.map` re-raises the failure that reaches it first, and
  worker chunks finish in any order. So `Compare.AllQuadrants` promises only
  that the error is that of some failing image; its body picks the first
  in input order, which is one permitted outcome.
- **Averages and thresholds.** Cell averages are exact rationals (`real`).
  `int(n * 0.6)` is integer arithmetic: six tenths of `n`, truncated
  toward zero.
- **Set iteration order.** Where the code iterates a Python set (the
  frozensets of candidates, the `unique` set of old `group_by`), the order
  is a parameter (`order`) or is left open (a ghost out-parameter). The
  results are then stated as sets.
- **Descriptor identity.** An `ImageDescr` is the pair (path, fingerprint).
  Its `__eq__` and `__hash__` use the path alone, and it defines no
  `__ne__`. Python 3 then reads `!=` as the negated `__eq__`, so
  `other_im != im` in `count_quadrant` means "the paths differ". Python 2
  reads `!=` as an identity test instead (see `Counting.CountMember` under
  "Left out"). The model uses value equality. `ImageDescriptors.SameImageIsEquality` shows the two coincide
  for descriptors that one fingerprint function built from their paths,
  which is how `findsimilar` builds them.

Where the documentation and the code disagree, the model follows the code:
- **Quadrant order.** The old `calc_quadrants` docstring lists the result
  as (nw, ne, se, sw), but the code builds (nw, ne, sw, se).
- **Grid errors.** A grid error is raised inside `calc_quadrants`, per
  image, during `pool.map`. It is not a configuration check made before
  any work starts.
- **Grid counts.** `calc_quadrants` accepts any divisor of 16 and 48, not
  only even ones. A negative divisor gives no cells at all.
- **Tolerance.** The tolerance is never checked to be non-negative. The
  lemmas that need `t >= 0` say so.
- **Threshold.** The threshold is truncated with `int(...)`; it is neither
  a ceiling nor a floor of the product.

## Model

| member | source | states |
|---|---|---|
| SetOps.HasSupersets | imagecmp/setops.py:31-37 | the answer is true exactly when some set of the sequence contains x (so false on an empty sequence) |
| SetOps.WithoutSubsets | imagecmp/setops.py:40-44 | every member of the result is one of the input sets |
| SetOps.WithoutSubsetsCovers | imagecmp/setops.py:40-44 | every input set is a subset of some member of the result |
| SetOps.WithoutSubsetsIsMaximal | imagecmp/setops.py:40-44 | the result is exactly the set of input sets that are not a proper subset of another input set: identical inputs collapse and no member is a proper subset of another |
| SetOps.KeptSetIsMaximal | imagecmp/setops.py:42-44 | a set with no superset after it in the length-sorted list is not a proper subset of any input set |
| SetOps.MaximalKept | imagecmp/setops.py:42-44 | every maximal input set has an occurrence in the length-sorted list with no superset after it |
| Sorting.SortBy | imagecmp/setops.py:59-60 | the sort returns a permutation of its input, ordered by the given total preorder |
| Sorting.SortBySorted | imagecmp/setops.py:119 | sorting a sequence that is already sorted leaves it unchanged |
| Sorting.SortByStable | imagecmp/setops.py:119 | the sort is stable, as Python's sorted is: for every c, the elements that tie with c appear in the result in their input order |
| Sorting.FilterMembers | imagecmp/setops.py:119 | the elements kept by a filter are exactly the elements of the sequence that satisfy the predicate |
| SetOps.PrunedSpec | imagecmp/setops.py:47-56 | the intervals no other input interval contains: each once, strictly increasing in both bounds |
| SetOps.StrictlyIncreasingUnique | imagecmp/setops.py:62-70 | two strictly increasing interval lists with the same members are equal, so the result's order is fixed by its members |
| SetOps.CoverOfMaximal | imagecmp/setops.py:62-70 | a strictly increasing list of input intervals that covers the input holds exactly the maximal intervals |
| SetOps.PrunedCovers | imagecmp/setops.py:47-52 | the maximal intervals cover every input interval |
| SetOps.WithoutPairSubsets | imagecmp/setops.py:47-91 | the result holds only input intervals, covers every input interval, is strictly increasing in a and in b, has no two entries equal or nested, and is `PrunedSpec` of the input |
| SetOps.FindTransition | imagecmp/setops.py:79-82 | the index found is the first after i whose b exceeds pair i's b (or the length); every pair in between has b at most pair i's b |
| SetOps.DeleteRunCovers | imagecmp/setops.py:84-86 | deleting the pairs between i and the transition leaves every input interval covered |
| SetOps.DeleteRunStrict | imagecmp/setops.py:84-89 | after the deletion the list up to position i + 1 is strictly increasing in both bounds |
| SetOps.DeleteRunMembers | imagecmp/setops.py:86 | the shortened list holds only input intervals |
| SetOps.SkipLow | imagecmp/setops.py:131-132 | the low cursor never moves back and never passes i; it stops at i or at a key not below minval |
| SetOps.SkipHigh | imagecmp/setops.py:136-137 | the high cursor never moves back; it stops at the end or at a key above maxval |
| SetOps.SkipLowPassesBelow | imagecmp/setops.py:131-132 | every key the low cursor passes is below minval |
| SetOps.SkipHighPassesAtMost | imagecmp/setops.py:136-137 | every key the high cursor passes is at most maxval |
| SetOps.SkipBelow | imagecmp/setops.py:131-132 | the low-cursor loop computes `SkipLow` |
| SetOps.SkipUpTo | imagecmp/setops.py:136-137 | the high-cursor loop computes `SkipHigh` |
| SetOps.CursorsAtWindow | imagecmp/setops.py:126-137 | cursors with every key before lo below key_i - t, and every key before hi at most key_i + t, each stopping where that first fails, are element i's window |
| SetOps.CursorStep | imagecmp/setops.py:121-137 | on sorted keys, moving the cursors on from the previous element's window lands exactly on the current element's window |
| SetOps.WindowWithinTolerance | imagecmp/setops.py:126-137 | every position in element i's window has its key in [key_i - t, key_i + t] |
| SetOps.WindowHoldsInRange | imagecmp/setops.py:126-137 | conversely, with t >= 0 every position whose key lies in [key_i - t, key_i + t] is in element i's window |
| SetOps.WindowHoldsAnchor | imagecmp/setops.py:126-137 | with t >= 0, lo <= i < hi for every element i |
| SetOps.ScanWindows | imagecmp/setops.py:116-141 | on sorted keys the loop collects exactly the windows of the elements in order, skipping one-element windows when no_singles is set |
| SetOps.WindowsUpToMembers | imagecmp/setops.py:139-141 | a pair is collected exactly when it is the kept window of some element |
| SetOps.AllWindowsKept | imagecmp/setops.py:139-141 | without no_singles there is one window per element, the i-th being element i's window |
| SetOps.PySliceMembers | imagecmp/setops.py:145 | an element is in s[a:b] exactly when it sits at some index from a up to both b and the length |
| SetOps.SortedInput | imagecmp/setops.py:119 | the sorted input is a permutation of the input with non-decreasing keys |
| SetOps.GroupBy | imagecmp/setops.py:94-145 | the groups are `GroupBySpec`: the sorted input cut at the maximal windows, in increasing order |
| SetOps.GroupsAnchored | imagecmp/setops.py:95-100 | every group has an anchor element of the input whose key is within t of every key in the group |
| SetOps.GroupsWithinTolerance | imagecmp/setops.py:119-145 | within every group, keys differ by at most 2 * tolerance |
| SetOps.CutWithinTolerance | imagecmp/setops.py:143-145 | the same bound for a sorted sequence cut at its maximal windows |
| SetOps.GroupsFromInput | imagecmp/setops.py:143-145 | every element of every group is an input element |
| SetOps.GroupsLossless | imagecmp/setops.py:139-145 | with t >= 0 and no_singles false, every input element is in some group |
| SetOps.NoSingleGroups | imagecmp/setops.py:139-141 | with no_singles every group has at least two elements |
| SetOps.GroupByEmpty | imagecmp/setops.py:119-145 | an empty sequence has no groups |
| SetOps.TenKeysWindow | imagecmp/setops.py:126-137 | on keys 0..9 with tolerance 3, element i's window is [max(0, i - 3), min(10, i + 4)) |
| SetOps.TenKeysPruned | imagecmp/setops.py:139-143 | on those keys the maximal windows are exactly [0,7), [1,8), [2,9), [3,10) |
| SetOps.TenKeysGroups | imagecmp/setops.py:119-145 | ten elements with keys 0..9 and tolerance 3 give exactly the groups s[0:7], s[1:8], s[2:9], s[3:10], the vector of imagecmp/tests/test_group_by.py:73-91 |
| SetOps.PrunedIs | imagecmp/setops.py:47-91 | a strictly increasing list holding exactly the maximal intervals is the result of without_pair_subsets |
| SetOps.OverlapVector | imagecmp/tests/test_setops.py:69-109 | [(4, 50), (45, 51), (45, 50)] gives [(4, 50), (45, 51)], as the tests expect |
| SetOps.UnsortedVector | imagecmp/tests/test_setops.py:69-109 | [(99, 101), (10, 100), (20, 21)] gives [(10, 100), (99, 101)], as the tests expect |
| SetOps.RepeatsVector | imagecmp/tests/test_setops.py:69-109 | [(3, 3), (2, 10), (2, 10), (-5, 10), (10, 10), (300, 304), (-5, 10)] gives [(-5, 10), (300, 304)], as the tests expect |
| SetOps.NestedPairOfSets | imagecmp/setops.py:40-44 | of two sets, one a proper subset of the other, only the larger is kept |
| SetOps.RepeatedSetVector | imagecmp/tests/test_setops.py:47-66 | three copies of {1} give {{1}}, as the tests expect |
| SetOps.EvenDigitsVector | imagecmp/tests/test_setops.py:47-66 | {range(10), range(0, 10, 2)} gives {range(10)}, as the tests expect |
| OldSetOps.ScanFrom | setops.py:107-125 | the rest of the scan emits one pair per remaining element |
| OldSetOps.CursorScan | setops.py:104-125 | the scan over the keys as given emits exactly one index pair per element, each within the bounds of the sequence |
| OldSetOps.ScanStep | setops.py:112-125 | one loop iteration emits the pair its two cursor loops reach and continues from it |
| OldSetOps.CollectScan | setops.py:91-125 | without unique the list is the scan; with unique the set holds exactly the scanned pairs |
| OldSetOps.GroupBy | setops.py:76-130 | greedy: slices at the maximal scanned pairs; neither flag: one slice per scanned pair in scan order; unique only: slices at each distinct scanned pair once, in an unspecified order |
| OldSetOps.WithoutSubsets | setops.py:29-73 | the result holds exactly the maximal intervals, strictly increasing in both bounds, which is `PrunedSpec` of the input |
| OldSetOps.PrunedSpecOfSameElements | setops.py:92-97 | collecting the pairs in a set rather than a list does not change the greedy result |
| OldSetOps.ScanHoldsAnchor | setops.py:104-125 | with t >= 0, pair i contains position i, even on keys that are not sorted |
| OldSetOps.ScanFromAnchored | setops.py:117-123 | with t >= 0 and the high cursor not behind element i, each later pair contains its own position |
| OldSetOps.SortedScanIsWindows | setops.py:104-125 | on sorted keys the scan equals the later version's windows, none dropped |
| OldSetOps.UnsortedScanMixesKeys | setops.py:76-82 | on the unsorted keys 10, 0, 10 with tolerance 1 every pair is (0, 3), the whole list |
| OldSetOps.ScanGroupsWithinTolerance | setops.py:107-130 | on sorted input, groups cut at scanned pairs (any unique and greedy setting) keep their keys within 2 * tolerance |
| OldSetOps.SortedGreedyAgrees | setops.py:127-130 | on sorted input the greedy groups are the later group_by's groups without no_singles, within 2 * tolerance |
| ImageDescriptors.SameImageIsConsistent | imagecmp/imagedescr.py:37-48 | descriptors with the same path hash alike, and path equality is an equivalence |
| ImageDescriptors.SameImageIsEquality | imagecmp/imagedescr.py:23-44 | descriptors built from paths by one fingerprint function are the same image exactly when they are equal values |
| ImageDescriptors.QuadEqAsWrittenBreaksHash | imagecmp/imagedescr.py:91-98 | the equality as written holds between two averages of one image with different values, whose hashes differ |
| ImageDescriptors.QuadEqIsConsistent | imagecmp/imagedescr.py:91-98 | the intended equality (same image and same averages) implies equal hashes and implies the equality as written |
| ImageDescriptors.FloorDiv | imagecmp/imagedescr.py:122-123 | Python's floor quotient: for a positive divisor b * q <= a < b * q + b (and q is Dafny's a / b), for a negative divisor b * q >= a > b * q + b |
| ImageDescriptors.FloorMod | imagecmp/imagedescr.py:122-123 | Python's remainder takes the divisor's sign: 0 <= r < b for a positive divisor (and r is Dafny's a % b), b < r <= 0 for a negative one |
| ImageDescriptors.DivModUnique | imagecmp/imagedescr.py:122-123 | any q, r with a == b * q + r and r between 0 and b on the divisor's side are divmod(a, b), so the two functions pin Python's divmod down |
| ImageDescriptors.NegativeDivisorRoundsDown | imagecmp/imagedescr.py:122-123 | divmod(16, -5) is (-4, -4), where Dafny's Euclidean division gives (-3, 1) |
| ImageDescriptors.ExactQuotient | imagecmp/imagedescr.py:122-130 | when the remainder is 0, a positive divisor gives a positive exact quotient and a negative divisor a negative one |
| ImageDescriptors.RangeFromAt | imagecmp/imagedescr.py:136-137 | the k-th value of range(start, stop, step) is start + k * step |
| ImageDescriptors.RangeLength | imagecmp/imagedescr.py:136-137 | range(m * step, n * step, step) has n - m values |
| ImageDescriptors.RowCells | imagecmp/imagedescr.py:137 | the inner generator gives one cell per column start, in order |
| ImageDescriptors.CellsLength | imagecmp/imagedescr.py:135-137 | the nested generator yields (row starts) * (column starts) values |
| ImageDescriptors.CellsAt | imagecmp/imagedescr.py:135-137 | value a * (column starts) + b is the cell at row start a and column start b (row-major order) |
| ImageDescriptors.CellSumBound | imagecmp/imagedescr.py:135 | a cell of h by w bytes sums to at most 255 * h * w |
| ImageDescriptors.CellMeanBounds | imagecmp/imagedescr.py:135 | a cell mean lies in [0, 255] |
| ImageDescriptors.CalcQuadrants | imagecmp/imagedescr.py:115-139 | errors in Python's order: wrong fingerprint size, then a zero count, then rows not divisible, then columns not divisible; on success the descriptor is kept, and cells exist only when both counts are positive |
| ImageDescriptors.CalcQuadrantsShape | imagecmp/imagedescr.py:122-137 | for positive exact divisors the result succeeds with n_x * n_y values |
| ImageDescriptors.QuadrantsAreCells | imagecmp/imagedescr.py:133-137 | on success the values are the means of the cells at the row starts and column starts of the two ranges |
| ImageDescriptors.GridCellAt | imagecmp/imagedescr.py:133-137 | value row * n_y + col is the mean of rows row * quad_x up to (row + 1) * quad_x and byte columns col * quad_y up to (col + 1) * quad_y, and that cell fits the grid |
| ImageDescriptors.CalcQuadrantsBounds | imagecmp/imagedescr.py:135-137 | every average lies in [0, 255] |
| OldImageDescriptors.QuadEqIsConsistent | imagedescr.py:103-113 | equal averages hash alike, and the equality is an equivalence |
| OldImageDescriptors.Quadrant | imagedescr.py:138-149 | a quadrant mean lies in [0, 255] |
| OldImageDescriptors.CalcQuadrants | imagedescr.py:126-151 | succeeds exactly when the fingerprint has 768 bytes; nw, ne, sw, se are the means of the north-west, north-east, south-west and south-east halves, in that field order |
| OldImageDescriptors.QuadrantIsGridCell | imagedescr.py:138-149 | each quadrant equals cell row * 2 + col of the later calc_quadrants on a 2 x 2 grid |
| OldImageDescriptors.SameAsTwoByTwo | imagedescr.py:117-151 | the old calc_quadrants succeeds exactly when the later one on 2 x 2 does, and then gives [nw, ne, sw, se] as its values |
| Counting.CountMember | imagecmp/compare.py:116-126 | one member's pass adds its image as a key and counts every other image of the group once per occurrence, reading `!=` as Python 3's negated path equality; nothing else changes and no zero entry appears |
| Counting.CountGroup | imagecmp/compare.py:115-126 | one group adds occ(a) * occ(b) to the count of every pair of distinct images a, b, and registers the group's images as keys |
| Counting.CountQuadrant | imagecmp/compare.py:103-128 | the loops build `CountSpec` of the groups' images |
| Counting.CountKeys | imagecmp/compare.py:114-119 | the keys are exactly the images in some group, and no image counts itself |
| Counting.CountSpecGet | imagecmp/compare.py:121-126 | the count of b for a is, for a != b, the sum over groups of occ(a) * occ(b), and 0 for a == b |
| Counting.CountIsSharedGroups | imagecmp/compare.py:106-111 | for groups of distinct images, the count of b for a is the number of groups holding both |
| Counting.CountSymmetric | imagecmp/compare.py:109-111 | the counts are symmetric: counts[a][b] == counts[b][a] |
| Counting.AddCounts | imagecmp/compare.py:161-163 | merging one image's counts unions the keys and adds the values |
| Counting.MergeQuadrant | imagecmp/compare.py:155-163 | merging one quadrant's dict unions the keys and each key's entries, and adds the counts |
| Counting.GetSimilarCounts | imagecmp/compare.py:131-165 | the loops build `MergeSpec` of the per-quadrant counts |
| Counting.MergeContents | imagecmp/compare.py:154-163 | an image is a key, or an entry of a key, of the merged dict exactly when it is one in some quadrant; each value is the sum over quadrants |
| Counting.MergePreservesSymmetry | imagecmp/compare.py:154-165 | merging symmetric dicts without self-counts gives a symmetric dict without self-counts |
| Counting.SimilarCountsContents | imagecmp/compare.py:131-165 | end to end: the keys are the images grouped in some quadrant; the result is symmetric with no self-counts, and each value is the sum over quadrants of that quadrant's pair count |
| Counting.SelectCandidates | imagecmp/compare.py:185-195 | the loop builds `CandidatesSpec` |
| Counting.CandidatesFromStep | imagecmp/compare.py:186-195 | one more image adds its candidate (its similar images plus itself) exactly when it has similar images |
| Counting.CandidatesSound | imagecmp/compare.py:185-197 | every candidate has at least two images, all keys of the counts, one of which reaches the threshold with each of the others |
| Counting.CandidatesComplete | imagecmp/compare.py:188-195 | every pair whose count reaches the threshold lies together in some candidate |
| Compare.MinSimilarQuads | imagecmp/compare.py:183 | the threshold is 6/10 of n_x * n_y truncated toward zero, bounded on both sides, for negative products too |
| Compare.ScheduleThresholds | imagecmp/compare.py:225-229 | the two grids of findsimilar need 9 of 16 and 153 of 256 matching cells |
| Compare.AllQuadrants | imagecmp/compare.py:85-88 | succeeds exactly when every descriptor's calc_quadrants does, element by element; an error is that of some failing descriptor |
| Compare.GroupQuadrantN | imagecmp/compare.py:51-64 | an IndexError when some image lacks cell n, otherwise group_by keyed on cell n |
| Compare.GroupAllCells | imagecmp/compare.py:97-98 | one grouping per cell index 0 .. n_x * n_y - 1 in order, or the IndexError |
| Compare.MissingCellFails | imagecmp/compare.py:97-98 | an image missing a cell below the count makes the whole grouping fail |
| Compare.GetGroupedQuadrants | imagecmp/compare.py:67-100 | the method computes `GroupedQuadrantsSpec`: averages for every image, then the groupings of every cell |
| Compare.CellCount | imagecmp/imagedescr.py:135-137 | on success an image has n_x * n_y averages when both counts are positive and none otherwise |
| Compare.AllHaveCells | imagecmp/compare.py:97-98 | every image has all n_x * n_y cells exactly when there are no images or the counts are not both negative |
| Compare.IndexErrorOnlyWhenBothNegative | imagecmp/compare.py:97-98 | the grouping raises IndexError exactly when the averages succeeded, some image exists and both counts are negative |
| Compare.ExactGrid | imagecmp/imagedescr.py:120-137 | on a grid that divides 16 by 48, averaging succeeds exactly for 768-byte fingerprints and gives n_x * n_y values |
| Compare.GetSimilarCandidates | imagecmp/compare.py:168-197 | the method computes `SimilarCandidatesSpec`: the candidates of the merged counts at the grid's threshold |
| Compare.CandidatesSucceed | imagecmp/compare.py:179-183 | on a dividing grid the search succeeds exactly when every fingerprint has 768 bytes |
| Compare.AveragesOfInputs | imagecmp/compare.py:88 | every averages record belongs to an input descriptor |
| Compare.GroupedImagesAreInputs | imagecmp/compare.py:62-64 | every image in a grouping is the image of some averages record |
| Compare.CandidatesOfInputs | imagecmp/compare.py:179-197 | every candidate has at least two images, all inputs, one of which matches each of the others in at least the threshold number of cells |
| Compare.RefineCandidates | imagecmp/compare.py:200-215 | the method computes `RefineSpec`: the union of each group's candidates, or the first error |
| Compare.UnionAllOk | imagecmp/compare.py:210-215 | when no group fails, the union holds exactly the candidates of the groups |
| Compare.UnionFailsAt | imagecmp/compare.py:212-213 | one failing group makes the refinement fail |
| Compare.RefinedWithinGroups | imagecmp/compare.py:200-215 | the refinement succeeds exactly when every group does; each refined cluster has at least two images, all from one group; no groups give the empty set |
| Compare.RefineSingle | imagecmp/compare.py:225 | refining the single group of all images is get_similar_candidates on them |
| Compare.FindSimilar | imagecmp/compare.py:218-235 | the method computes `FindSimilarSpec`: the 4 x 4 round over all images, then the 16 x 16 round inside each cluster |
| Compare.RefineClusters | imagecmp/compare.py:229 | the second round gives `SecondRound` of the first round's clusters, whatever order they are listed in |
| Compare.SecondRoundIsRefine | imagecmp/compare.py:210-215 | refining any listing of the clusters gives the same set of clusters |
| Compare.FirstRoundValid | imagecmp/compare.py:225-229 | every 4 x 4 cluster passes the 16 x 16 round without error |
| Compare.FindSimilarSound | imagecmp/compare.py:218-235 | findsimilar succeeds exactly when every fingerprint has 768 bytes, and each cluster has at least two images, all inputs |
| Compare.FindSimilarEmpty | imagecmp/compare.py:218-235 | no images give no clusters |
| OldCompare.AllQuadrants | compare.py:70 | succeeds exactly when every fingerprint has 768 bytes, element by element, and fails with the size error otherwise |
| OldCompare.GroupQuadrantsAsWritten | compare.py:79-89 | the four groupings as written: the earlier group_by on the averages in input order, keyed by NW, NE, SW, SE |
| OldCompare.AsWrittenMixesQuadrants | compare.py:79-82 | averages whose NW values are 10, 0, 10 in input order form one NW group at tolerance 1, although two of them differ by 10 |
| OldCompare.GroupQuadrant | compare.py:79-82 | with the averages sorted by the quadrant first, the earlier group_by gives the later group_by's groups |
| OldCompare.GetGroupedQuadrants | compare.py:58-89 | corrected (sorted by each quadrant first, see Findings): the method computes `GroupedQuadrantsSpec`: exactly four groupings, NW, NE, SW, SE in that order, each keyed by its getter |
| OldCompare.GroupingsWithinTolerance | compare.py:58-89 | corrected grouping only (the code as written breaks the bound, see AsWrittenMixesQuadrants): each of the four groupings keeps its quadrant's values within 2 * tolerance in a group, and groups only input images |
| OldCompare.GroupedImageIsInput | compare.py:70-89 | corrected grouping: every grouped averages record belongs to an input descriptor |
| OldCompare.GetSimilarCandidates | compare.py:172-189 | corrected (on the sorted grouping): the method computes `SimilarCandidatesSpec` with the threshold 3 |
| OldCompare.CandidatesSucceed | compare.py:172-189 | corrected search: the search succeeds exactly when every fingerprint has 768 bytes |
| OldCompare.CandidatesOfInputs | compare.py:177-189 | corrected search: every candidate has at least two input images, one of which matches each of the others in at least 3 of the 4 quadrants |
| OldCompare.GetSimilarCandidatesAsWritten | compare.py:172-189 | as written: the method computes the candidates, at threshold 3, of the counts over the four groupings of the unsorted averages |
| OldCompare.ScanGroupsFromInput | compare.py:79-82 | as written: every average in a group of the unsorted grouping is one of the averages grouped |
| OldCompare.AsWrittenImageIsInput | compare.py:79-89 | as written: every grouped averages record belongs to an input descriptor |
| OldCompare.CandidatesAsWrittenSucceed | compare.py:172-189 | as written: the search succeeds exactly when every fingerprint has 768 bytes |
| OldCompare.CandidatesAsWrittenOfInputs | compare.py:177-189 | as written: every candidate has at least two input images, one of which shares at least 3 of the 4 unsorted quadrant groupings with each of the others |
| Collections.SetToSeq | setops.py:127-130 | listing a set gives each member once, and nothing else |

## Left out

- `ImageDescr._calc_fingerprint`: image decoding, autocontrast, resizing and numpy are I/O and foreign code. The fingerprint is a given field of the descriptor, and building descriptors from file names (`pool.map(imagedescr.ImageDescr, filenames)`, `get_images_by_quadrants`) happens before the model starts.
- `create_worker_pool`, `pool.terminate()` and `pool.join()`: process management; the pool's maps are sequence maps.
- Floating point: numpy's `.mean()` is an exact rational mean here, and `x * 0.6` is integer arithmetic. Rounding at a threshold boundary is not modelled.
- `half_x = x/2` in the old `calc_quadrants` relies on Python 2 integer division; the model takes the integer half.
- The FIXME about results under Python 3.4 (imagecmp/compare.py:219-220), which comes from set iteration order. The order is a parameter of `FindSimilar`, and the result is proved equal to a set that depends on `order` only through the sequences handed to the 16 x 16 grouping.
- Compare.FindSimilar: that the final clusters do not depend on how each cluster is listed is not proved; group_by sorts by key, but equal keys keep their listed order.
- OldCompare.GetGroupedQuadrants, OldCompare.GetSimilarCandidates: these model the sorted grouping that the Findings row proposes, not compare.py:79-82 as written. The search as written is GetSimilarCandidatesAsWritten over GroupQuadrantsAsWritten. For it the model proves only that the candidates are input images sharing enough groupings; AsWrittenMixesQuadrants shows that its groups break the tolerance bound.
- Counting.CountMember: the model reads `other_im != im` (compare.py:114, imagecmp/compare.py:125) with Python 3's meaning, the negated path `__eq__`. Under Python 2, which setup.py also lists and which the old code's `x/2` needs, `ImageDescr` has no `__ne__`, so `!=` compares object identity. `pool.map(ImageDescr, filenames)` builds one object per listed name. So when a path is listed twice, the two objects differ under `!=` but share one dictionary key, and the image counts itself (`{a: {a: 2}}` in every quadrant for the list `[a, a]`). `get_similar_candidates` and `findsimilar` can then report the one-image cluster `{a}`. The model agrees with Python 2 only when no path is listed twice. The two-or-more-images results (`Counting.CandidatesSound`, `Compare.CandidatesOfInputs`, `Compare.FindSimilarSound`, `OldCompare.CandidatesOfInputs`) therefore hold under Python 2 only for lists without repeated paths.
- The `__main__` block of imagecmp/compare.py (timing and printing).
- walk.py, cli.py, imagecmp.py, imagearray.py and setup.py are not part of this model: they traverse directories, parse arguments, do image I/O and package the program.
- `QuadrantAverages.__hash__` is the tuple being hashed (`QuadHashKey`), not Python's hash function.

## Findings

| source | as written | input that shows it | evidently intended | confidence | as-written member | corrected member |
|---|---|---|---|---|---|---|
| compare.py:79-82 | get_grouped_quadrants hands the averages, in input order, to the earlier group_by, whose docstring (setops.py:79) demands input sorted by the key | three images whose NW averages are 10, 0, 10 at tolerance 1: the NW grouping is one group of all three, although two NW averages differ by 10 | sort the averages by each quadrant before grouping, as the later group_by does itself (imagecmp/setops.py:119) | not executed | OldCompare.AsWrittenMixesQuadrants | OldCompare.GetGroupedQuadrants |
| imagecmp/imagedescr.py:91-94 | QuadrantAverages.__eq__ compares self._quadrants with itself, so any two averages of one image are equal | two averages of the image a.png with values (1.0) and (2.0): equal under __eq__, but their hashes differ | compare self._quadrants with other._quadrants | not executed | ImageDescriptors.QuadEqAsWrittenBreaksHash | ImageDescriptors.QuadEqIsConsistent |

The rest of the model uses the corrected behaviour in both cases:
- `OldCompare.GetGroupedQuadrants` sorts by each quadrant before grouping.
- QuadrantAverages are compared as values, which is `QuadEq` for
  descriptors that are values.
