/**
 * The counting steps that the earlier compare.py and the later
 * imagecmp/compare.py share word for word: count_quadrant,
 * get_similar_counts, and the candidate selection at the end of
 * get_similar_candidates.
 *
 * Python's nested dicts become nested maps that the methods rebuild entry by
 * entry; a loop over the keys of a dict, whose order Python leaves to the
 * hash table, becomes a loop that picks any key not yet visited.
 */
module Counting {
  import opened Collections
  import opened ImageDescriptors

  /** image -> (image -> count), the nested dict both functions return. */
  type Counts = map<ImageDescr, map<ImageDescr, nat>>

  /** d.get(b, 0) */
  function Val(m: map<ImageDescr, nat>, b: ImageDescr): nat {
    if b in m then m[b] else 0
  }

  /** The count of b for a, or 0 where either dict has no entry. */
  function Get(c: Counts, a: ImageDescr, b: ImageDescr): nat {
    if a in c then Val(c[a], b) else 0
  }

  /** The images that a has an entry for. */
  function Partners(c: Counts, a: ImageDescr): set<ImageDescr> {
    if a in c then c[a].Keys else {}
  }

  /** Entries are only ever created by adding a positive amount. */
  predicate NoZeros(c: Counts) {
    forall a, b :: a in c && b in c[a] ==> c[a][b] > 0
  }

  /** No image has an entry for itself. */
  predicate NoSelfCounts(c: Counts) {
    forall a :: a in c ==> a !in c[a]
  }

  /** The counts of a for b and of b for a agree, entries included. */
  ghost predicate Symmetric(c: Counts) {
    && (forall a, b :: Get(c, a, b) == Get(c, b, a))
    && (forall a, b :: a in c && b in c[a] ==> b in c && a in c[b])
  }

  // ---------------------------------------------------------------------------
  // count_quadrant
  // ---------------------------------------------------------------------------

  /** The images of the members of a group (quadavg.imdesc for each). */
  function ImagesOf<Q>(group: seq<Q>, imOf: Q -> ImageDescr): (r: seq<ImageDescr>)
    ensures |r| == |group| && forall k :: 0 <= k < |group| ==> r[k] == imOf(group[k])
  {
    seq(|group|, k requires 0 <= k < |group| => imOf(group[k]))
  }

  function ImageGroups<Q>(groups: seq<seq<Q>>, imOf: Q -> ImageDescr): (r: seq<seq<ImageDescr>>)
    ensures |r| == |groups| && forall i :: 0 <= i < |groups| ==> r[i] == ImagesOf(groups[i], imOf)
  {
    seq(|groups|, i requires 0 <= i < |groups| => ImagesOf(groups[i], imOf))
  }

  /** How often a occurs among the first k images of g. */
  function Occ(g: seq<ImageDescr>, a: ImageDescr, k: nat): nat
    requires k <= |g|
  {
    if k == 0 then 0 else Occ(g, a, k - 1) + (if g[k - 1] == a then 1 else 0)
  }

  function Occurrences(g: seq<ImageDescr>, a: ImageDescr): nat {
    Occ(g, a, |g|)
  }

  /**
   * What the first n groups contribute to the count of b for a: each group
   * adds one for every (member showing a, member showing b) pair.
   */
  function PairCount(gs: seq<seq<ImageDescr>>, n: nat, a: ImageDescr, b: ImageDescr): nat
    requires n <= |gs|
  {
    if n == 0 then 0
    else PairCount(gs, n - 1, a, b) + Occurrences(gs[n - 1], a) * Occurrences(gs[n - 1], b)
  }

  function Elems(g: seq<ImageDescr>): set<ImageDescr> {
    set x | x in g
  }

  /** The images shown in the first n groups. */
  function Grouped(gs: seq<seq<ImageDescr>>, n: nat): set<ImageDescr>
    requires n <= |gs|
  {
    if n == 0 then {} else Grouped(gs, n - 1) + Elems(gs[n - 1])
  }

  /**
   * The dict count_quadrant builds: a key for every grouped image, and for
   * each other image an entry holding the pair count, present when positive.
   */
  function CountSpec(gs: seq<seq<ImageDescr>>): Counts {
    var ims := Grouped(gs, |gs|);
    map a | a in ims :: map b | b in ims && b != a && PairCount(gs, |gs|, a, b) > 0 :: PairCount(gs, |gs|, a, b)
  }

  /** The innermost loop: image im counts every other member of the group once. */
  method CountMember<Q>(counts: Counts, group: seq<Q>, imOf: Q -> ImageDescr, im: ImageDescr) returns (out: Counts)
    requires NoZeros(counts)
    ensures out.Keys == counts.Keys + {im}
    ensures NoZeros(out)
    ensures forall a, b :: Get(out, a, b) ==
                           Get(counts, a, b) + (if a == im && b != im then Occurrences(ImagesOf(group, imOf), b) else 0)
  {
    ghost var ims := ImagesOf(group, imOf);
    out := counts;
    if im !in out {
      out := out[im := map[]];
    }
    var d: map<ImageDescr, nat> := out[im];
    for k := 0 to |group|
      invariant forall b :: b in d ==> d[b] > 0
      invariant forall b :: Val(d, b) == Get(counts, im, b) + (if b != im then Occ(ims, b, k) else 0)
    {
      var otherIm := imOf(group[k]);
      if otherIm != im {
        d := d[otherIm := Val(d, otherIm) + 1];
      }
    }
    out := out[im := d];
  }

  /** The loop over one group's members. */
  method CountGroup<Q>(counts: Counts, group: seq<Q>, imOf: Q -> ImageDescr) returns (out: Counts)
    requires NoZeros(counts)
    ensures forall x :: x in out <==> x in counts || Occurrences(ImagesOf(group, imOf), x) > 0
    ensures NoZeros(out)
    ensures forall a, b :: Get(out, a, b) == Get(counts, a, b) +
                           (if a != b then Occurrences(ImagesOf(group, imOf), a) * Occurrences(ImagesOf(group, imOf), b) else 0)
  {
    ghost var ims := ImagesOf(group, imOf);
    out := counts;
    for j := 0 to |group|
      invariant forall x :: x in out <==> x in counts || Occ(ims, x, j) > 0
      invariant NoZeros(out)
      invariant forall a, b :: Get(out, a, b) == Get(counts, a, b) +
                               (if a != b then Occ(ims, a, j) * Occurrences(ims, b) else 0)
    {
      var im := imOf(group[j]);
      ghost var before := out;
      out := CountMember(out, group, imOf, im);
      forall a, b ensures Get(out, a, b) == Get(counts, a, b) +
        (if a != b then Occ(ims, a, j + 1) * Occurrences(ims, b) else 0)
      {
        PairStep(ims, j, a, b);
      }
    }
  }

  /** Member j of the group adds the occurrences of b to the count of b for a when it shows a. */
  lemma PairStep(ims: seq<ImageDescr>, j: nat, a: ImageDescr, b: ImageDescr)
    requires j < |ims|
    ensures Occ(ims, a, j + 1) * Occurrences(ims, b) ==
      Occ(ims, a, j) * Occurrences(ims, b) + (if ims[j] == a then Occurrences(ims, b) else 0)
  {
    if ims[j] == a {
      AddOneTimes(Occ(ims, a, j), Occurrences(ims, b));
    }
  }

  lemma OccurrencesPositive(g: seq<ImageDescr>, x: ImageDescr)
    ensures Occurrences(g, x) > 0 <==> x in g
  {
    OccPositive(g, x, |g|);
    assert g[..|g|] == g;
  }

  /** count_quadrant(image_groups) */
  method CountQuadrant<Q>(groups: seq<seq<Q>>, imOf: Q -> ImageDescr) returns (counts: Counts)
    ensures counts == CountSpec(ImageGroups(groups, imOf))
  {
    ghost var gs := ImageGroups(groups, imOf);
    counts := map[];
    for i := 0 to |groups|
      invariant forall x :: x in counts <==> x in Grouped(gs, i)
      invariant NoZeros(counts)
      invariant forall a, b :: Get(counts, a, b) == if a != b then PairCount(gs, i, a, b) else 0
    {
      counts := CountGroup(counts, groups[i], imOf);
      assert gs[i] == ImagesOf(groups[i], imOf);
      forall x ensures Occurrences(gs[i], x) > 0 <==> x in Elems(gs[i]) {
        OccurrencesPositive(gs[i], x);
      }
    }
    CountSpecUnique(counts, gs);
  }

  lemma AddOneTimes(x: nat, n: nat)
    ensures (x + 1) * n == x * n + n
  {
  }

  lemma ProductPositive(x: nat, y: nat)
    requires x * y > 0
    ensures x > 0 && y > 0
  {
  }

  /** Only a grouped image can have a positive pair count. */
  lemma {:induction false} PairCountPositive(gs: seq<seq<ImageDescr>>, n: nat, a: ImageDescr, b: ImageDescr)
    requires n <= |gs| && PairCount(gs, n, a, b) > 0
    ensures a in Grouped(gs, n) && b in Grouped(gs, n)
  {
    var g := gs[n - 1];
    if PairCount(gs, n - 1, a, b) > 0 {
      PairCountPositive(gs, n - 1, a, b);
    } else {
      ProductPositive(Occurrences(g, a), Occurrences(g, b));
      OccurrencesPositive(g, a);
      OccurrencesPositive(g, b);
    }
  }

  lemma {:induction false} OccPositive(g: seq<ImageDescr>, a: ImageDescr, k: nat)
    requires k <= |g|
    ensures Occ(g, a, k) > 0 <==> a in g[..k]
  {
    if k > 0 {
      OccPositive(g, a, k - 1);
      assert g[..k] == g[..k - 1] + [g[k - 1]];
    }
  }

  /** Dicts that agree entry by entry with the pair counts are CountSpec. */
  lemma CountSpecUnique(c: Counts, gs: seq<seq<ImageDescr>>)
    requires forall x :: x in c <==> x in Grouped(gs, |gs|)
    requires NoZeros(c)
    requires forall a, b :: Get(c, a, b) == if a != b then PairCount(gs, |gs|, a, b) else 0
    ensures c == CountSpec(gs)
  {
    assert c.Keys == CountSpec(gs).Keys;
    forall a | a in c ensures c[a] == CountSpec(gs)[a] {
      EntriesAgree(c, gs, a);
    }
  }

  lemma EntriesAgree(c: Counts, gs: seq<seq<ImageDescr>>, a: ImageDescr)
    requires a in c && a in Grouped(gs, |gs|)
    requires NoZeros(c)
    requires forall b :: Get(c, a, b) == if a != b then PairCount(gs, |gs|, a, b) else 0
    ensures c[a] == CountSpec(gs)[a]
  {
    var d := c[a];
    var spec := CountSpec(gs)[a];
    forall b ensures b in d <==> b in spec {
      if b in d {
        assert Get(c, a, b) > 0;
        PairCountPositive(gs, |gs|, a, b);
      }
      if b in spec {
        assert Get(c, a, b) > 0;
      }
    }
    forall b | b in d ensures d[b] == spec[b] {
      assert Get(c, a, b) == d[b];
    }
  }

  // Properties of count_quadrant

  /** The images in the first n groups, as an index search. */
  lemma {:induction false} GroupedMembers(gs: seq<seq<ImageDescr>>, n: nat, x: ImageDescr)
    requires n <= |gs|
    ensures x in Grouped(gs, n) <==> exists i :: 0 <= i < n && x in gs[i]
  {
    if n > 0 {
      GroupedMembers(gs, n - 1, x);
      if x in gs[n - 1] {
        assert x in Elems(gs[n - 1]);
      }
    }
  }

  /**
   * Every image of every group becomes a key, possibly with an empty dict,
   * nothing else does, and no image is counted against itself.
   */
  lemma CountKeys(gs: seq<seq<ImageDescr>>)
    ensures forall x :: x in CountSpec(gs) <==> exists i :: 0 <= i < |gs| && x in gs[i]
    ensures NoSelfCounts(CountSpec(gs))
  {
    forall x ensures x in CountSpec(gs) <==> exists i :: 0 <= i < |gs| && x in gs[i] {
      GroupedMembers(gs, |gs|, x);
    }
  }

  /** The count of b for a is their pair count, and 0 for a itself. */
  lemma CountSpecGet(gs: seq<seq<ImageDescr>>, a: ImageDescr, b: ImageDescr)
    ensures Get(CountSpec(gs), a, b) == if a != b then PairCount(gs, |gs|, a, b) else 0
  {
    if a != b && PairCount(gs, |gs|, a, b) > 0 {
      PairCountPositive(gs, |gs|, a, b);
    }
  }

  lemma {:induction false} PairCountSymmetric(gs: seq<seq<ImageDescr>>, n: nat, a: ImageDescr, b: ImageDescr)
    requires n <= |gs|
    ensures PairCount(gs, n, a, b) == PairCount(gs, n, b, a)
  {
    if n > 0 {
      PairCountSymmetric(gs, n - 1, a, b);
    }
  }

  /** count_quadrant's counts are symmetric: a counts b as often as b counts a. */
  lemma CountSymmetric(gs: seq<seq<ImageDescr>>)
    ensures Symmetric(CountSpec(gs))
  {
    var c := CountSpec(gs);
    forall a, b ensures Get(c, a, b) == Get(c, b, a) {
      PairCountSymmetric(gs, |gs|, a, b);
      CountSpecGet(gs, a, b);
      CountSpecGet(gs, b, a);
    }
    forall a, b | a in c && b in c[a] ensures b in c && a in c[b] {
      PairCountSymmetric(gs, |gs|, a, b);
    }
  }

  /** The groups among the first n that hold both a and b. */
  function SharedGroups(gs: seq<seq<ImageDescr>>, n: nat, a: ImageDescr, b: ImageDescr): set<nat>
    requires n <= |gs|
  {
    set i: nat | i < n && a in gs[i] && b in gs[i]
  }

  lemma {:induction false} OccAtMostOnce(g: seq<ImageDescr>, a: ImageDescr, k: nat)
    requires k <= |g| && NoDuplicates(g)
    ensures Occ(g, a, k) == if a in g[..k] then 1 else 0
  {
    if k > 0 {
      OccAtMostOnce(g, a, k - 1);
      assert g[..k] == g[..k - 1] + [g[k - 1]];
    }
  }

  lemma {:induction false} PairCountShared(gs: seq<seq<ImageDescr>>, n: nat, a: ImageDescr, b: ImageDescr)
    requires n <= |gs| && forall i :: 0 <= i < |gs| ==> NoDuplicates(gs[i])
    ensures PairCount(gs, n, a, b) == |SharedGroups(gs, n, a, b)|
  {
    if n > 0 {
      PairCountShared(gs, n - 1, a, b);
      var g := gs[n - 1];
      OccAtMostOnce(g, a, |g|);
      OccAtMostOnce(g, b, |g|);
      assert g[..|g|] == g;
      SharedGroupsStep(gs, n, a, b);
      if a in g && b in g {
        assert Occurrences(g, a) * Occurrences(g, b) == 1;
      } else {
        assert Occurrences(g, a) * Occurrences(g, b) == 0;
      }
    }
  }

  /** Group n - 1 is shared exactly when it holds both images. */
  lemma SharedGroupsStep(gs: seq<seq<ImageDescr>>, n: nat, a: ImageDescr, b: ImageDescr)
    requires 0 < n <= |gs|
    ensures |SharedGroups(gs, n, a, b)| ==
      |SharedGroups(gs, n - 1, a, b)| + if a in gs[n - 1] && b in gs[n - 1] then 1 else 0
  {
    var prev := SharedGroups(gs, n - 1, a, b);
    var cur := SharedGroups(gs, n, a, b);
    if a in gs[n - 1] && b in gs[n - 1] {
      assert n - 1 !in prev;
      assert cur == prev + {n - 1};
      assert |cur| == |prev| + 1;
    } else {
      assert cur == prev;
    }
  }

  /**
   * For groups without repeated images, the count of b for a is the number
   * of groups that hold both, as the docstring of count_quadrant says.
   */
  lemma CountIsSharedGroups(gs: seq<seq<ImageDescr>>, a: ImageDescr, b: ImageDescr)
    requires forall i :: 0 <= i < |gs| ==> NoDuplicates(gs[i])
    requires a != b
    ensures Get(CountSpec(gs), a, b) == |SharedGroups(gs, |gs|, a, b)|
  {
    PairCountShared(gs, |gs|, a, b);
    CountSpecGet(gs, a, b);
  }

  // ---------------------------------------------------------------------------
  // get_similar_counts
  // ---------------------------------------------------------------------------

  /** The keys of the first n dicts. */
  function KeyUnion(cs: seq<Counts>, n: nat): set<ImageDescr>
    requires n <= |cs|
  {
    if n == 0 then {} else KeyUnion(cs, n - 1) + cs[n - 1].Keys
  }

  /** The images that a has an entry for in any of the first n dicts. */
  function PartnerUnion(cs: seq<Counts>, n: nat, a: ImageDescr): set<ImageDescr>
    requires n <= |cs|
  {
    if n == 0 then {} else PartnerUnion(cs, n - 1, a) + Partners(cs[n - 1], a)
  }

  /** The counts of b for a in the first n dicts, added up. */
  function SumGet(cs: seq<Counts>, n: nat, a: ImageDescr, b: ImageDescr): nat
    requires n <= |cs|
  {
    if n == 0 then 0 else SumGet(cs, n - 1, a, b) + Get(cs[n - 1], a, b)
  }

  /**
   * The merged dict: the union of the keys, for each key the union of its
   * entries, and each entry the sum of the per-quadrant counts.
   */
  function MergeSpec(cs: seq<Counts>): Counts {
    map a | a in KeyUnion(cs, |cs|) :: map b | b in PartnerUnion(cs, |cs|, a) :: SumGet(cs, |cs|, a, b)
  }

  /** The per-quadrant dicts that get_similar_counts merges. */
  function QuadrantCounts<Q>(quadrants: seq<seq<seq<Q>>>, imOf: Q -> ImageDescr): (cs: seq<Counts>)
    ensures |cs| == |quadrants|
  {
    seq(|quadrants|, k requires 0 <= k < |quadrants| => CountSpec(ImageGroups(quadrants[k], imOf)))
  }

  /** for im in counts: d[im] = d.get(im, 0) + counts[im] */
  method AddCounts(d: map<ImageDescr, nat>, counts: map<ImageDescr, nat>) returns (out: map<ImageDescr, nat>)
    ensures forall b :: b in out <==> b in d || b in counts
    ensures forall b :: Val(out, b) == Val(d, b) + Val(counts, b)
  {
    out := d;
    var rest := counts.Keys;
    while rest != {}
      invariant forall b :: b in rest ==> b in counts
      invariant forall b :: b in out <==> b in d || (b in counts && b !in rest)
      invariant forall b :: Val(out, b) == Val(d, b) + (if b in rest then 0 else Val(counts, b))
      decreases |rest|
    {
      var im :| im in rest;
      out := out[im := Val(out, im) + counts[im]];
      rest := rest - {im};
    }
  }

  /** The loop over the keys of one quadrant's dict. */
  method MergeQuadrant(acc: Counts, c: Counts) returns (out: Counts)
    ensures forall a :: a in out <==> a in acc || a in c
    ensures forall a, b :: b in Partners(out, a) <==> b in Partners(acc, a) || b in Partners(c, a)
    ensures forall a, b :: Get(out, a, b) == Get(acc, a, b) + Get(c, a, b)
  {
    out := acc;
    var rest := c.Keys;
    while rest != {}
      invariant forall a :: a in rest ==> a in c
      invariant forall a :: a in out <==> a in acc || (a in c && a !in rest)
      invariant forall a, b :: b in Partners(out, a) <==> b in Partners(acc, a) || (a !in rest && b in Partners(c, a))
      invariant forall a, b :: Get(out, a, b) == Get(acc, a, b) + (if a in rest then 0 else Get(c, a, b))
      decreases |rest|
    {
      var keyIm :| keyIm in rest;
      if keyIm !in out {
        out := out[keyIm := map[]];
      }
      var d := AddCounts(out[keyIm], c[keyIm]);
      out := out[keyIm := d];
      rest := rest - {keyIm};
    }
  }

  /** get_similar_counts(quadrants): count each quadrant, then merge. */
  method GetSimilarCounts<Q>(quadrants: seq<seq<seq<Q>>>, imOf: Q -> ImageDescr) returns (similar: Counts)
    ensures similar == MergeSpec(QuadrantCounts(quadrants, imOf))
  {
    ghost var cs := QuadrantCounts(quadrants, imOf);
    var quadrantCounts: seq<Counts> := [];
    for i := 0 to |quadrants|
      invariant |quadrantCounts| == i
      invariant forall k :: 0 <= k < i ==> quadrantCounts[k] == cs[k]
    {
      var c := CountQuadrant(quadrants[i], imOf);
      quadrantCounts := quadrantCounts + [c];
    }
    similar := map[];
    for i := 0 to |quadrantCounts|
      invariant forall a :: a in similar <==> a in KeyUnion(cs, i)
      invariant forall a, b :: b in Partners(similar, a) <==> b in PartnerUnion(cs, i, a)
      invariant forall a, b :: Get(similar, a, b) == SumGet(cs, i, a, b)
    {
      similar := MergeQuadrant(similar, quadrantCounts[i]);
    }
    MergeSpecUnique(similar, cs);
  }

  lemma MergeSpecUnique(c: Counts, cs: seq<Counts>)
    requires forall a :: a in c <==> a in KeyUnion(cs, |cs|)
    requires forall a, b :: b in Partners(c, a) <==> b in PartnerUnion(cs, |cs|, a)
    requires forall a, b :: Get(c, a, b) == SumGet(cs, |cs|, a, b)
    ensures c == MergeSpec(cs)
  {
    var spec := MergeSpec(cs);
    forall a | a in c ensures c[a] == spec[a] {
      forall b | b in c[a] ensures c[a][b] == spec[a][b] {
        assert Get(c, a, b) == c[a][b];
      }
    }
  }

  // Properties of get_similar_counts

  lemma {:induction false} KeyUnionMembers(cs: seq<Counts>, n: nat, x: ImageDescr)
    requires n <= |cs|
    ensures x in KeyUnion(cs, n) <==> exists k :: 0 <= k < n && x in cs[k]
  {
    if n > 0 {
      KeyUnionMembers(cs, n - 1, x);
    }
  }

  lemma {:induction false} PartnerUnionMembers(cs: seq<Counts>, n: nat, a: ImageDescr, b: ImageDescr)
    requires n <= |cs|
    ensures b in PartnerUnion(cs, n, a) <==> exists k :: 0 <= k < n && a in cs[k] && b in cs[k][a]
  {
    if n > 0 {
      PartnerUnionMembers(cs, n - 1, a, b);
    }
  }

  /**
   * The merged dict has a key for every image keyed in some quadrant, an
   * entry wherever some quadrant has one, and the summed counts.
   */
  lemma MergeContents(cs: seq<Counts>, a: ImageDescr, b: ImageDescr)
    ensures a in MergeSpec(cs) <==> exists k :: 0 <= k < |cs| && a in cs[k]
    ensures b in Partners(MergeSpec(cs), a) <==> exists k :: 0 <= k < |cs| && a in cs[k] && b in cs[k][a]
    ensures Get(MergeSpec(cs), a, b) == SumGet(cs, |cs|, a, b)
  {
    var m := MergeSpec(cs);
    KeyUnionMembers(cs, |cs|, a);
    PartnerUnionMembers(cs, |cs|, a, b);
    if a !in m || b !in m[a] {
      SumGetAbsent(cs, |cs|, a, b);
    }
  }

  /** Where no quadrant has an entry, the sum is 0. */
  lemma {:induction false} SumGetAbsent(cs: seq<Counts>, n: nat, a: ImageDescr, b: ImageDescr)
    requires n <= |cs|
    requires a !in KeyUnion(cs, n) || b !in PartnerUnion(cs, n, a)
    ensures SumGet(cs, n, a, b) == 0
  {
    if n > 0 {
      SumGetAbsent(cs, n - 1, a, b);
    }
  }

  lemma {:induction false} SumGetSymmetric(cs: seq<Counts>, n: nat, a: ImageDescr, b: ImageDescr)
    requires n <= |cs| && forall k :: 0 <= k < |cs| ==> Symmetric(cs[k])
    ensures SumGet(cs, n, a, b) == SumGet(cs, n, b, a)
  {
    if n > 0 {
      SumGetSymmetric(cs, n - 1, a, b);
    }
  }

  /** Merging symmetric dicts without self entries keeps both properties. */
  lemma MergePreservesSymmetry(cs: seq<Counts>)
    requires forall k :: 0 <= k < |cs| ==> Symmetric(cs[k]) && NoSelfCounts(cs[k])
    ensures Symmetric(MergeSpec(cs))
    ensures NoSelfCounts(MergeSpec(cs))
  {
    var m := MergeSpec(cs);
    forall a, b ensures Get(m, a, b) == Get(m, b, a) {
      MergeContents(cs, a, b);
      MergeContents(cs, b, a);
      SumGetSymmetric(cs, |cs|, a, b);
    }
    forall a, b | a in m && b in m[a] ensures b in m && a in m[b] {
      MergeEntrySymmetric(cs, a, b);
    }
    forall a | a in m ensures a !in m[a] {
      MergeContents(cs, a, a);
      forall k | 0 <= k < |cs| ensures !(a in cs[k] && a in cs[k][a]) {
      }
    }
  }

  lemma MergeEntrySymmetric(cs: seq<Counts>, a: ImageDescr, b: ImageDescr)
    requires forall k :: 0 <= k < |cs| ==> Symmetric(cs[k])
    requires a in MergeSpec(cs) && b in MergeSpec(cs)[a]
    ensures b in MergeSpec(cs) && a in MergeSpec(cs)[b]
  {
    MergeContents(cs, a, b);
    MergeContents(cs, b, a);
    var k :| 0 <= k < |cs| && a in cs[k] && b in cs[k][a];
    assert b in cs[k] && a in cs[k][b];
  }

  /**
   * get_similar_counts' result: keys are the images grouped in some
   * quadrant, counts are symmetric with no self entries, and the count of b
   * for a is the sum over quadrants of their pair counts.
   */
  lemma SimilarCountsContents<Q>(quadrants: seq<seq<seq<Q>>>, imOf: Q -> ImageDescr, a: ImageDescr, b: ImageDescr)
    ensures var m := MergeSpec(QuadrantCounts(quadrants, imOf));
      && (a in m <==> exists k, i :: 0 <= k < |quadrants| && 0 <= i < |quadrants[k]| && a in ImagesOf(quadrants[k][i], imOf))
      && Symmetric(m) && NoSelfCounts(m)
      && Get(m, a, b) == if a == b then 0 else SumPairCounts(quadrants, imOf, |quadrants|, a, b)
  {
    var cs := QuadrantCounts(quadrants, imOf);
    forall k | 0 <= k < |cs| ensures Symmetric(cs[k]) && NoSelfCounts(cs[k]) {
      CountSymmetric(ImageGroups(quadrants[k], imOf));
      CountKeys(ImageGroups(quadrants[k], imOf));
    }
    MergePreservesSymmetry(cs);
    MergeContents(cs, a, b);
    forall k | 0 <= k < |cs| ensures a in cs[k] <==> exists i :: 0 <= i < |quadrants[k]| && a in ImagesOf(quadrants[k][i], imOf) {
      CountKeys(ImageGroups(quadrants[k], imOf));
    }
    SumOfPairCounts(quadrants, imOf, |quadrants|, a, b);
  }

  /** The pair counts of b for a in the first n quadrants, added up. */
  function SumPairCounts<Q>(quadrants: seq<seq<seq<Q>>>, imOf: Q -> ImageDescr, n: nat, a: ImageDescr, b: ImageDescr): nat
    requires n <= |quadrants|
  {
    if n == 0 then 0
    else
      var gs := ImageGroups(quadrants[n - 1], imOf);
      SumPairCounts(quadrants, imOf, n - 1, a, b) + PairCount(gs, |gs|, a, b)
  }

  lemma SumOfPairCounts<Q>(quadrants: seq<seq<seq<Q>>>, imOf: Q -> ImageDescr, n: nat, a: ImageDescr, b: ImageDescr)
    requires n <= |quadrants|
    ensures a != b ==> SumGet(QuadrantCounts(quadrants, imOf), n, a, b) == SumPairCounts(quadrants, imOf, n, a, b)
    ensures a == b ==> SumGet(QuadrantCounts(quadrants, imOf), n, a, b) == 0
  {
    var cs := QuadrantCounts(quadrants, imOf);
    forall k | 0 <= k < n
      ensures Get(cs[k], a, b) == if a != b then PairCount(ImageGroups(quadrants[k], imOf), |quadrants[k]|, a, b) else 0
    {
      CountSpecGet(ImageGroups(quadrants[k], imOf), a, b);
    }
    SumGetOfPairCounts(cs, quadrants, imOf, n, a, b);
  }

  /** SumOfPairCounts over any dicts whose entries are the pair counts. */
  lemma {:induction false} SumGetOfPairCounts<Q>(cs: seq<Counts>, quadrants: seq<seq<seq<Q>>>, imOf: Q -> ImageDescr, n: nat, a: ImageDescr, b: ImageDescr)
    requires n <= |cs| && n <= |quadrants|
    requires forall k :: 0 <= k < n ==>
      Get(cs[k], a, b) == if a != b then PairCount(ImageGroups(quadrants[k], imOf), |quadrants[k]|, a, b) else 0
    ensures a != b ==> SumGet(cs, n, a, b) == SumPairCounts(quadrants, imOf, n, a, b)
    ensures a == b ==> SumGet(cs, n, a, b) == 0
  {
    if n > 0 {
      SumGetOfPairCounts(cs, quadrants, imOf, n - 1, a, b);
    }
  }

  // ---------------------------------------------------------------------------
  // Candidate selection in get_similar_candidates
  // ---------------------------------------------------------------------------

  /** {other_im for other_im in im_counts if im_counts[other_im] >= threshold} */
  function Similar(m: map<ImageDescr, nat>, threshold: int): set<ImageDescr> {
    set b | b in m && m[b] >= threshold
  }

  /** The candidates contributed by the keys in ks. */
  function CandidatesFrom(counts: Counts, ks: set<ImageDescr>, threshold: int): set<set<ImageDescr>> {
    set a | a in ks && a in counts && Similar(counts[a], threshold) != {} :: Similar(counts[a], threshold) + {a}
  }

  /** The set get_similar_candidates returns for the merged counts. */
  function CandidatesSpec(counts: Counts, threshold: int): set<set<ImageDescr>> {
    CandidatesFrom(counts, counts.Keys, threshold)
  }

  /** The loop over the merged dict that collects frozensets into a set. */
  method SelectCandidates(counts: Counts, threshold: int) returns (candidates: set<set<ImageDescr>>)
    ensures candidates == CandidatesSpec(counts, threshold)
  {
    candidates := {};
    var rest := counts.Keys;
    while rest != {}
      invariant rest <= counts.Keys
      invariant candidates == CandidatesFrom(counts, counts.Keys - rest, threshold)
      decreases |rest|
    {
      var im :| im in rest;
      var similarToIm := Similar(counts[im], threshold);
      if similarToIm != {} {
        candidates := candidates + {similarToIm + {im}};
      }
      CandidatesFromStep(counts, counts.Keys - rest, im, threshold);
      assert counts.Keys - (rest - {im}) == (counts.Keys - rest) + {im};
      rest := rest - {im};
    }
  }

  lemma CandidatesFromStep(counts: Counts, ks: set<ImageDescr>, im: ImageDescr, threshold: int)
    requires im in counts
    ensures CandidatesFrom(counts, ks + {im}, threshold) ==
      CandidatesFrom(counts, ks, threshold) +
      (if Similar(counts[im], threshold) != {} then {Similar(counts[im], threshold) + {im}} else {})
  {
  }

  // Properties of the candidates

  lemma TwoElements(c: set<ImageDescr>, a: ImageDescr, b: ImageDescr)
    requires a in c && b in c && a != b
    ensures |c| >= 2
  {
    assert {a, b} <= c;
    assert |c - {a, b}| + |{a, b}| == |c|;
  }

  /**
   * Every candidate holds at least two images, all keys of the counts, and
   * one of them reaches the threshold with all the others.
   */
  lemma CandidatesSound(counts: Counts, threshold: int, c: set<ImageDescr>)
    requires Symmetric(counts) && NoSelfCounts(counts)
    requires c in CandidatesSpec(counts, threshold)
    ensures |c| >= 2
    ensures c <= counts.Keys
    ensures exists a :: a in c && forall b :: b in c && b != a ==> Get(counts, a, b) >= threshold
  {
    var a :| a in counts && Similar(counts[a], threshold) != {} && c == Similar(counts[a], threshold) + {a};
    var b :| b in Similar(counts[a], threshold);
    TwoElements(c, a, b);
    forall x | x in c ensures x in counts {
      if x != a {
        assert x in counts[a];
      }
    }
    forall x | x in c && x != a ensures Get(counts, a, x) >= threshold {
      assert x in Similar(counts[a], threshold);
    }
    assert a in c;
  }

  /**
   * Every pair reaching the threshold ends up together in some candidate:
   * the one of the first image.
   */
  lemma CandidatesComplete(counts: Counts, threshold: int, a: ImageDescr, b: ImageDescr)
    requires a in counts && b in counts[a] && counts[a][b] >= threshold
    ensures exists c :: c in CandidatesSpec(counts, threshold) && a in c && b in c
  {
    var c := Similar(counts[a], threshold) + {a};
    assert b in Similar(counts[a], threshold);
    assert c in CandidatesSpec(counts, threshold);
  }
}
