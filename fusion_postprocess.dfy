/** Post-processing of fusion candidates (fusion/postprocess.go): the
    read-through test, the in-place subsetting of the candidate slice, the
    discarding of fusions whose genes have too many partners, and the
    minimum-span filter with UMI collapsing. */
module FusionPostprocess {
  import opened Wrappers
  import opened Ints
  import opened FusionFragment
  import opened FusionInfer
  import opened KeyedSort

  /** A candidate: a fragment and the fusions detected for it. */
  datatype Candidate = Candidate(frag: Fragment, fusions: seq<FusionInfo>)

  /** The fields of a gene's info that CloseProximity reads. */
  datatype GeneInfo = GeneInfo(chrom: seq<char>, index: int, start: int, end: int)

  function Abs(x: int): nat
  {
    if x < 0 then -x else x
  }

  /** CloseProximity, with the two genes' infos already looked up. */
  predicate CloseProximity(gi1: GeneInfo, gi2: GeneInfo, maxProximityDistance: int, maxProximityGenes: int)
  {
    if gi1.chrom != gi2.chrom then false
    else if maxProximityGenes > 0 && Abs(gi1.index - gi2.index) <= maxProximityGenes then true
    else if maxProximityDistance > 0 then
      if gi1.start <= gi2.start then
        gi2.end < gi1.end || gi2.start - gi1.end <= maxProximityDistance
      else
        gi1.end < gi2.end || gi1.start - gi2.end <= maxProximityDistance
    else false
  }

  /** The number of bases between two genes; zero or negative when they
      overlap. */
  function BaseGap(a: GeneInfo, b: GeneInfo): int
  {
    (if a.start >= b.start then a.start else b.start) - (if a.end <= b.end then a.end else b.end)
  }

  /** For genes whose start does not exceed their end, the genes are in
      close proximity exactly when they share a chromosome and either lie
      within maxProximityGenes of each other in gene order or at most
      maxProximityDistance bases apart (each limit applying only when
      positive). */
  lemma CloseProximityIff(a: GeneInfo, b: GeneInfo, maxProximityDistance: int, maxProximityGenes: int)
    requires a.start <= a.end && b.start <= b.end
    ensures CloseProximity(a, b, maxProximityDistance, maxProximityGenes) <==>
            a.chrom == b.chrom
            && ((maxProximityGenes > 0 && Abs(a.index - b.index) <= maxProximityGenes)
                || (maxProximityDistance > 0 && BaseGap(a, b) <= maxProximityDistance))
  {
  }

  /** Different chromosomes are never in close proximity. */
  lemma CloseProximityNeedsChrom(a: GeneInfo, b: GeneInfo, maxProximityDistance: int, maxProximityGenes: int)
    requires a.chrom != b.chrom
    ensures !CloseProximity(a, b, maxProximityDistance, maxProximityGenes)
  {
  }

  /** Genes on one chromosome within the positive gene-count limit are in
      close proximity whatever their distance. */
  lemma CloseProximityByIndex(a: GeneInfo, b: GeneInfo, maxProximityDistance: int, maxProximityGenes: int)
    requires a.chrom == b.chrom && maxProximityGenes > 0 && Abs(a.index - b.index) <= maxProximityGenes
    ensures CloseProximity(a, b, maxProximityDistance, maxProximityGenes)
  {
  }

  /** For well-formed genes the test does not depend on the order of the
      two genes. */
  lemma CloseProximitySymmetric(a: GeneInfo, b: GeneInfo, maxProximityDistance: int, maxProximityGenes: int)
    requires a.start <= a.end && b.start <= b.end
    ensures CloseProximity(a, b, maxProximityDistance, maxProximityGenes)
            == CloseProximity(b, a, maxProximityDistance, maxProximityGenes)
  {
    CloseProximityIff(a, b, maxProximityDistance, maxProximityGenes);
    CloseProximityIff(b, a, maxProximityDistance, maxProximityGenes);
  }

  // Index sequences.

  predicate Distinct(xs: seq<int>)
  {
    forall i, j :: 0 <= i < j < |xs| ==> xs[i] != xs[j]
  }

  predicate InRange(xs: seq<int>, n: int)
  {
    forall i :: 0 <= i < |xs| ==> 0 <= xs[i] < n
  }

  predicate StrictlyIncreasing(xs: seq<int>)
  {
    forall i, j :: 0 <= i < j < |xs| ==> xs[i] < xs[j]
  }

  /** The elements of s at the positions idx, in the order of idx. */
  function Select<T>(s: seq<T>, idx: seq<int>): (r: seq<T>)
    requires InRange(idx, |s|)
    ensures |r| == |idx| && forall k :: 0 <= k < |idx| ==> r[k] == s[idx[k]]
  {
    seq(|idx|, k requires 0 <= k < |idx| => s[idx[k]])
  }

  function Neg(i: int): int
  {
    -i
  }

  /** The sort.Slice of subsetCandidates: the indices in increasing order. */
  function SortAscending(xs: seq<int>): seq<int>
  {
    StableSortDesc(xs, Neg)
  }

  lemma {:induction false} CountAtMostOne(xs: seq<int>, v: int)
    requires Distinct(xs)
    ensures multiset(xs)[v] <= 1
  {
    if xs != [] {
      var init, last := xs[..|xs| - 1], xs[|xs| - 1];
      assert xs == init + [last];
      CountAtMostOne(init, v);
      if v == last {
        assert last !in init;
      }
    }
  }

  lemma CountOfRepeat(xs: seq<int>, i: int, j: int)
    requires 0 <= i < j < |xs| && xs[i] == xs[j]
    ensures multiset(xs)[xs[i]] >= 2
  {
    assert xs == xs[..i] + [xs[i]] + xs[i + 1..j] + [xs[j]] + xs[j + 1..];
  }

  /** A permutation of a sequence without repeats has none either. */
  lemma DistinctPermutation(xs: seq<int>, ys: seq<int>)
    requires Distinct(xs) && multiset(xs) == multiset(ys)
    ensures Distinct(ys)
  {
    forall i, j | 0 <= i < j < |ys|
      ensures ys[i] != ys[j]
    {
      if ys[i] == ys[j] {
        CountOfRepeat(ys, i, j);
        CountAtMostOne(xs, ys[i]);
      }
    }
  }

  /** Sorting distinct indices gives them in strictly increasing order, each
      once. */
  lemma SortAscendingCorrect(xs: seq<int>, n: int)
    requires Distinct(xs) && InRange(xs, n)
    ensures multiset(SortAscending(xs)) == multiset(xs) && |SortAscending(xs)| == |xs|
    ensures StrictlyIncreasing(SortAscending(xs)) && InRange(SortAscending(xs), n)
  {
    var ys := SortAscending(xs);
    StableSortDescCorrect(xs, Neg);
    assert |ys| == |multiset(ys)| == |multiset(xs)| == |xs|;
    DistinctPermutation(xs, ys);
    forall i | 0 <= i < |ys|
      ensures 0 <= ys[i] < n
    {
      assert ys[i] in multiset(ys);
      var k :| 0 <= k < |xs| && xs[k] == ys[i];
    }
  }

  /** The k-th of increasing non-negative indices is at least k, so the
      in-place copy of subsetCandidates never reads a slot it has written. */
  lemma {:induction false} IncreasingAtLeastPosition(xs: seq<int>, k: nat)
    requires StrictlyIncreasing(xs) && k < |xs| && forall i :: 0 <= i < |xs| ==> xs[i] >= 0
    ensures xs[k] >= k
  {
    if k > 0 {
      IncreasingAtLeastPosition(xs, k - 1);
    }
  }

  /** Two strictly increasing sequences with the same elements are equal. */
  lemma {:induction false} IncreasingUnique(xs: seq<int>, ys: seq<int>)
    requires StrictlyIncreasing(xs) && StrictlyIncreasing(ys)
    requires forall v :: v in xs <==> v in ys
    ensures xs == ys
    decreases |xs|
  {
    if xs != [] {
      assert xs[0] in xs;
    }
    if ys != [] {
      assert ys[0] in ys;
    }
    if xs != [] && ys != [] {
      assert xs[0] in ys && ys[0] in xs;
      var i :| 0 <= i < |ys| && ys[i] == xs[0];
      var j :| 0 <= j < |xs| && xs[j] == ys[0];
      assert ys[0] <= ys[i] && xs[0] <= xs[j];
      forall v
        ensures v in xs[1..] <==> v in ys[1..]
      {
        if v in xs[1..] {
          var p :| 1 <= p < |xs| && xs[p] == v;
          assert v in xs;
          var q :| 0 <= q < |ys| && ys[q] == v;
          assert q != 0;
          assert ys[1..][q - 1] == v;
        }
        if v in ys[1..] {
          var p :| 1 <= p < |ys| && ys[p] == v;
          assert v in ys;
          var q :| 0 <= q < |xs| && xs[q] == v;
          assert q != 0;
          assert xs[1..][q - 1] == v;
        }
      }
      IncreasingUnique(xs[1..], ys[1..]);
      assert xs == [xs[0]] + xs[1..];
      assert ys == [ys[0]] + ys[1..];
    }
  }

  /** subsetCandidates: the indices are sorted in place and the candidates
      they name are moved, in increasing index order, to the front of the
      candidate slice, whose new length is returned; None where the source
      panics (an index repeated or out of range). */
  method SubsetCandidates(candidates: array<Candidate>, indices: array<int>) returns (r: Option<nat>)
    modifies candidates, indices
    ensures r.Some? <==> Distinct(old(indices[..])) && InRange(old(indices[..]), candidates.Length)
    ensures r.Some? ==> r.value == indices.Length <= candidates.Length
                        && indices[..] == SortAscending(old(indices[..]))
                        && StrictlyIncreasing(indices[..]) && InRange(indices[..], candidates.Length)
                        && candidates[..r.value] == Select(old(candidates[..]), indices[..])
                        && candidates[r.value..] == old(candidates[r.value..])
  {
    var xs := indices[..];
    if !(Distinct(xs) && InRange(xs, candidates.Length)) {
      return None;
    }
    var sorted := SortAscending(xs);
    SortAscendingCorrect(xs, candidates.Length);
    WriteIndices(indices, sorted);
    if |sorted| > 0 {
      IncreasingAtLeastPosition(sorted, |sorted| - 1);
    }
    MoveToFront(candidates, sorted);
    return Some(|sorted|);
  }

  /** Stores xs, as long as the array, in the array. */
  method WriteIndices(indices: array<int>, xs: seq<int>)
    requires |xs| == indices.Length
    modifies indices
    ensures indices[..] == xs
  {
    var k := 0;
    while k < indices.Length
      invariant 0 <= k <= indices.Length && indices[..k] == xs[..k]
    {
      indices[k] := xs[k];
      k := k + 1;
    }
  }

  /** The copy loop of subsetCandidates: slot i receives the candidate at
      idx[i], for increasing idx. */
  method MoveToFront(candidates: array<Candidate>, idx: seq<int>)
    requires StrictlyIncreasing(idx) && InRange(idx, candidates.Length)
    modifies candidates
    ensures |idx| <= candidates.Length
    ensures candidates[..|idx|] == Select(old(candidates[..]), idx)
    ensures candidates[|idx|..] == old(candidates[|idx|..])
  {
    if |idx| > 0 {
      IncreasingAtLeastPosition(idx, |idx| - 1);
    }
    var i := 0;
    while i < |idx|
      invariant 0 <= i <= |idx|
      invariant forall m :: 0 <= m < i ==> candidates[m] == old(candidates[idx[m]])
      invariant forall m :: i <= m < candidates.Length ==> candidates[m] == old(candidates[m])
    {
      IncreasingAtLeastPosition(idx, i);
      candidates[i] := candidates[idx[i]];
      i := i + 1;
    }
    assert candidates[..i] == Select(old(candidates[..]), idx);
    assert candidates[i..] == old(candidates[i..]);
  }

  // Filtering, as the compaction loops of the source do it.

  /** The positions below n that satisfy p, in increasing order. */
  function IndicesWhere(n: nat, p: int -> bool): seq<int>
  {
    if n == 0 then [] else IndicesWhere(n - 1, p) + (if p(n - 1) then [n - 1] else [])
  }

  lemma {:induction false} IndicesWhereCorrect(n: nat, p: int -> bool)
    ensures StrictlyIncreasing(IndicesWhere(n, p)) && InRange(IndicesWhere(n, p), n)
    ensures forall i :: i in IndicesWhere(n, p) <==> 0 <= i < n && p(i)
  {
    if n > 0 {
      IndicesWhereCorrect(n - 1, p);
    }
  }

  lemma {:induction false} IndicesWhereAgree(n: nat, p: int -> bool, q: int -> bool)
    requires forall i :: 0 <= i < n ==> p(i) == q(i)
    ensures IndicesWhere(n, p) == IndicesWhere(n, q)
  {
    if n > 0 {
      IndicesWhereAgree(n - 1, p, q);
    }
  }

  /** The elements of s that satisfy p, in their order in s. */
  function Filter<T>(s: seq<T>, p: T -> bool): seq<T>
  {
    if s == [] then [] else Filter(s[..|s| - 1], p) + (if p(s[|s| - 1]) then [s[|s| - 1]] else [])
  }

  /** Whether i is a position of s whose element satisfies p. */
  function Holds<T>(s: seq<T>, p: T -> bool): int -> bool
  {
    i => 0 <= i < |s| && p(s[i])
  }

  /** Filtering keeps exactly the elements at the positions whose elements
      satisfy p, in increasing order of position. */
  lemma {:induction false} FilterSelects<T>(s: seq<T>, p: T -> bool)
    ensures StrictlyIncreasing(IndicesWhere(|s|, Holds(s, p))) && InRange(IndicesWhere(|s|, Holds(s, p)), |s|)
    ensures forall i :: i in IndicesWhere(|s|, Holds(s, p)) <==> 0 <= i < |s| && p(s[i])
    ensures Filter(s, p) == Select(s, IndicesWhere(|s|, Holds(s, p)))
  {
    IndicesWhereCorrect(|s|, Holds(s, p));
    if s != [] {
      var init := s[..|s| - 1];
      FilterSelects(init, p);
      IndicesWhereAgree(|init|, Holds(init, p), Holds(s, p));
      var last := |s| - 1;
      var idx0 := IndicesWhere(|init|, Holds(init, p));
      assert IndicesWhere(|s|, Holds(s, p)) == idx0 + (if p(s[last]) then [last] else []);
      assert Select(s, idx0) == Select(init, idx0);
    }
  }

  lemma {:induction false} FilterMembers<T>(s: seq<T>, p: T -> bool, x: T)
    ensures x in Filter(s, p) <==> x in s && p(x)
  {
    if s != [] {
      var init := s[..|s| - 1];
      FilterMembers(init, p, x);
      assert s == init + [s[|s| - 1]];
    }
  }

  lemma FilterPrefix<T>(s: seq<T>, p: T -> bool, i: nat)
    requires i < |s|
    ensures Filter(s[..i + 1], p) == Filter(s[..i], p) + (if p(s[i]) then [s[i]] else [])
  {
    assert s[..i + 1][..i] == s[..i];
  }

  // The partner map of DiscardAbundantPartners.

  /** The partners recorded for g; none when g is not a key. */
  function Lookup(partners: map<int, set<int>>, g: int): set<int>
  {
    if g in partners then partners[g] else {}
  }

  /** The addGenePair closure. */
  function AddPair(partners: map<int, set<int>>, g1: int, g2: int): map<int, set<int>>
  {
    partners[g1 := Lookup(partners, g1) + {g2}]
  }

  /** Each gene of a fusion recorded as a partner of the other. */
  function AddFusion(partners: map<int, set<int>>, f: FusionInfo): map<int, set<int>>
  {
    AddPair(AddPair(partners, f.g1ID, f.g2ID), f.g2ID, f.g1ID)
  }

  function AddFusions(partners: map<int, set<int>>, fs: seq<FusionInfo>): map<int, set<int>>
  {
    if fs == [] then partners else AddFusion(AddFusions(partners, fs[..|fs| - 1]), fs[|fs| - 1])
  }

  /** The fusions of all candidates, in order. */
  function AllFusions(cands: seq<Candidate>): seq<FusionInfo>
  {
    if cands == [] then [] else AllFusions(cands[..|cands| - 1]) + cands[|cands| - 1].fusions
  }

  /** The partner map the first pass of DiscardAbundantPartners builds. */
  function Partners(cands: seq<Candidate>): map<int, set<int>>
  {
    AddFusions(map[], AllFusions(cands))
  }

  /** Fusion f joins g and h, in either order. */
  predicate Linked(f: FusionInfo, g: int, h: int)
  {
    (f.g1ID == g && f.g2ID == h) || (f.g2ID == g && f.g1ID == h)
  }

  lemma {:induction false} AddFusionsAppend(partners: map<int, set<int>>, a: seq<FusionInfo>, b: seq<FusionInfo>)
    ensures AddFusions(partners, a + b) == AddFusions(AddFusions(partners, a), b)
    decreases |b|
  {
    if b == [] {
      assert a + b == a;
    } else {
      assert (a + b)[..|a + b| - 1] == a + b[..|b| - 1];
      AddFusionsAppend(partners, a, b[..|b| - 1]);
    }
  }

  lemma AddFusionLookup(partners: map<int, set<int>>, f: FusionInfo, g: int, h: int)
    ensures h in Lookup(AddFusion(partners, f), g) <==> h in Lookup(partners, g) || Linked(f, g, h)
  {
  }

  lemma {:induction false} AddFusionsIff(partners: map<int, set<int>>, fs: seq<FusionInfo>, g: int, h: int)
    ensures h in Lookup(AddFusions(partners, fs), g) <==> h in Lookup(partners, g) || exists f :: f in fs && Linked(f, g, h)
  {
    if fs != [] {
      var init, last := fs[..|fs| - 1], fs[|fs| - 1];
      AddFusionsIff(partners, init, g, h);
      AddFusionLookup(AddFusions(partners, init), last, g, h);
      assert fs == init + [last];
      if exists f :: f in fs && Linked(f, g, h) {
        var f :| f in fs && Linked(f, g, h);
        if f != last {
          assert f in init;
        }
      }
    }
  }

  lemma {:induction false} AllFusionsIff(cands: seq<Candidate>, f: FusionInfo)
    ensures f in AllFusions(cands) <==> exists i :: 0 <= i < |cands| && f in cands[i].fusions
  {
    if cands != [] {
      var init := cands[..|cands| - 1];
      AllFusionsIff(init, f);
      if exists i :: 0 <= i < |cands| && f in cands[i].fusions {
        var i :| 0 <= i < |cands| && f in cands[i].fusions;
        if i < |init| {
          assert init[i] == cands[i];
        }
      }
      if exists i :: 0 <= i < |init| && f in init[i].fusions {
        var i :| 0 <= i < |init| && f in init[i].fusions;
        assert cands[i] == init[i];
      }
    }
  }

  /** h is recorded as a partner of g exactly when some candidate has a
      fusion joining g and h. */
  lemma PartnersIff(cands: seq<Candidate>, g: int, h: int)
    ensures h in Lookup(Partners(cands), g) <==>
            exists i, f :: 0 <= i < |cands| && f in cands[i].fusions && Linked(f, g, h)
  {
    AddFusionsIff(map[], AllFusions(cands), g, h);
    if exists f :: f in AllFusions(cands) && Linked(f, g, h) {
      var f :| f in AllFusions(cands) && Linked(f, g, h);
      AllFusionsIff(cands, f);
    }
    if exists i, f :: 0 <= i < |cands| && f in cands[i].fusions && Linked(f, g, h) {
      var i, f :| 0 <= i < |cands| && f in cands[i].fusions && Linked(f, g, h);
      AllFusionsIff(cands, f);
    }
  }

  /** The inner loop of BuildPartners, over one candidate's fusions. */
  method AddCandidateFusions(partners: map<int, set<int>>, fs: seq<FusionInfo>) returns (r: map<int, set<int>>)
    ensures r == AddFusions(partners, fs)
  {
    r := partners;
    var k := 0;
    while k < |fs|
      invariant 0 <= k <= |fs|
      invariant r == AddFusions(partners, fs[..k])
    {
      assert fs[..k + 1][..k] == fs[..k];
      r := AddPair(r, fs[k].g1ID, fs[k].g2ID);
      r := AddPair(r, fs[k].g2ID, fs[k].g1ID);
      k := k + 1;
    }
    assert fs[..k] == fs;
  }

  /** The first pass of DiscardAbundantPartners: every fusion of every
      candidate records each of its genes as a partner of the other. */
  method BuildPartners(cands: seq<Candidate>) returns (partners: map<int, set<int>>)
    ensures partners == Partners(cands)
  {
    partners := map[];
    var i := 0;
    while i < |cands|
      invariant 0 <= i <= |cands|
      invariant partners == AddFusions(map[], AllFusions(cands[..i]))
    {
      partners := AddCandidateFusions(partners, cands[i].fusions);
      assert cands[..i + 1][..i] == cands[..i];
      AddFusionsAppend(map[], AllFusions(cands[..i]), cands[i].fusions);
      i := i + 1;
    }
    assert cands[..i] == cands;
  }

  /** Gene g has more than maxGenePartners partners. */
  predicate Abundant(partners: map<int, set<int>>, maxGenePartners: int, g: int)
  {
    |Lookup(partners, g)| > maxGenePartners
  }

  /** A fusion survives when neither of its genes has too many partners. */
  function KeepFusion(partners: map<int, set<int>>, maxGenePartners: int): FusionInfo -> bool
  {
    (f: FusionInfo) => !Abundant(partners, maxGenePartners, f.g1ID) && !Abundant(partners, maxGenePartners, f.g2ID)
  }

  /** A candidate with its fusions involving abundant genes removed. */
  function Trim(partners: map<int, set<int>>, maxGenePartners: int, c: Candidate): Candidate
  {
    Candidate(c.frag, Filter(c.fusions, KeepFusion(partners, maxGenePartners)))
  }

  function Trims(partners: map<int, set<int>>, maxGenePartners: int, cands: seq<Candidate>): (r: seq<Candidate>)
    ensures |r| == |cands| && forall i :: 0 <= i < |cands| ==> r[i] == Trim(partners, maxGenePartners, cands[i])
  {
    seq(|cands|, i requires 0 <= i < |cands| => Trim(partners, maxGenePartners, cands[i]))
  }

  function HasFusions(c: Candidate): bool
  {
    c.fusions != []
  }

  /** What DiscardAbundantPartners leaves of the candidates. */
  function Discarded(cands: seq<Candidate>, maxGenePartners: int): seq<Candidate>
  {
    Compacted(Partners(cands), maxGenePartners, cands)
  }

  /** The positions of the candidates DiscardAbundantPartners keeps. */
  function KeptPositions(cands: seq<Candidate>, maxGenePartners: int): seq<int>
  {
    IndicesWhere(|cands|, Holds(Trims(Partners(cands), maxGenePartners, cands), HasFusions))
  }

  /** DiscardAbundantPartners keeps, in their order, the candidates left
      with a fusion once the fusions involving a gene with more than
      maxGenePartners partners are dropped; each keeps, in order, exactly
      those of its fusions. */
  lemma DiscardedCorrect(cands: seq<Candidate>, maxGenePartners: int)
    ensures StrictlyIncreasing(KeptPositions(cands, maxGenePartners))
    ensures forall i :: i in KeptPositions(cands, maxGenePartners) <==>
                        0 <= i < |cands| && Trim(Partners(cands), maxGenePartners, cands[i]).fusions != []
    ensures |Discarded(cands, maxGenePartners)| == |KeptPositions(cands, maxGenePartners)|
    ensures forall k :: 0 <= k < |Discarded(cands, maxGenePartners)| ==>
                        0 <= KeptPositions(cands, maxGenePartners)[k] < |cands|
                        && Discarded(cands, maxGenePartners)[k]
                           == Trim(Partners(cands), maxGenePartners, cands[KeptPositions(cands, maxGenePartners)[k]])
  {
    CompactedIsFilter(Partners(cands), maxGenePartners, cands);
    FilterSelects(Trims(Partners(cands), maxGenePartners, cands), HasFusions);
  }

  /** A fusion survives trimming exactly when it was there and neither of
      its genes has more than maxGenePartners partners. */
  lemma TrimIff(partners: map<int, set<int>>, maxGenePartners: int, c: Candidate, f: FusionInfo)
    ensures f in Trim(partners, maxGenePartners, c).fusions <==>
            f in c.fusions && !Abundant(partners, maxGenePartners, f.g1ID) && !Abundant(partners, maxGenePartners, f.g2ID)
  {
    FilterMembers(c.fusions, KeepFusion(partners, maxGenePartners), f);
  }

  /** The inner loop of DiscardAbundantPartners: the fusions kept, in order. */
  method KeepFusions(fs: seq<FusionInfo>, partners: map<int, set<int>>, maxGenePartners: int) returns (kept: seq<FusionInfo>)
    ensures kept == Filter(fs, KeepFusion(partners, maxGenePartners))
  {
    kept := [];
    var k := 0;
    while k < |fs|
      invariant 0 <= k <= |fs|
      invariant kept == Filter(fs[..k], KeepFusion(partners, maxGenePartners))
    {
      FilterPrefix(fs, KeepFusion(partners, maxGenePartners), k);
      var f := fs[k];
      if !(Abundant(partners, maxGenePartners, f.g1ID) || Abundant(partners, maxGenePartners, f.g2ID)) {
        kept := kept + [f];
      }
      k := k + 1;
    }
    assert fs[..k] == fs;
  }

  /** DiscardAbundantPartners: the candidates are compacted in place and
      their new number returned. */
  method DiscardAbundantPartners(candidates: array<Candidate>, maxGenePartners: int) returns (j: nat)
    modifies candidates
    ensures j <= candidates.Length
    ensures candidates[..j] == Discarded(old(candidates[..]), maxGenePartners)
  {
    var partners := BuildPartners(candidates[..]);
    j := CompactTrimmed(candidates, partners, maxGenePartners);
  }

  /** The candidates of cands left with a fusion once trimmed, trimmed,
      in order. */
  function Compacted(partners: map<int, set<int>>, maxGenePartners: int, cands: seq<Candidate>): seq<Candidate>
  {
    if cands == [] then []
    else
      var c := Trim(partners, maxGenePartners, cands[|cands| - 1]);
      Compacted(partners, maxGenePartners, cands[..|cands| - 1]) + (if c.fusions != [] then [c] else [])
  }

  lemma CompactedStep(partners: map<int, set<int>>, maxGenePartners: int, cands: seq<Candidate>, i: nat)
    requires i < |cands|
    ensures Compacted(partners, maxGenePartners, cands[..i + 1])
            == Compacted(partners, maxGenePartners, cands[..i])
               + (if Trim(partners, maxGenePartners, cands[i]).fusions != [] then [Trim(partners, maxGenePartners, cands[i])] else [])
  {
    assert cands[..i + 1][..i] == cands[..i];
  }

  /** Compacting is filtering the trimmed candidates. */
  lemma {:induction false} CompactedIsFilter(partners: map<int, set<int>>, maxGenePartners: int, cands: seq<Candidate>)
    ensures Compacted(partners, maxGenePartners, cands) == Filter(Trims(partners, maxGenePartners, cands), HasFusions)
  {
    if cands != [] {
      var init := cands[..|cands| - 1];
      CompactedIsFilter(partners, maxGenePartners, init);
      assert Trims(partners, maxGenePartners, cands)[..|cands| - 1] == Trims(partners, maxGenePartners, init);
    }
  }

  /** The second pass of DiscardAbundantPartners: each candidate's fusions
      are trimmed and the candidates left with a fusion are moved, in
      order, to the front. */
  method CompactTrimmed(candidates: array<Candidate>, partners: map<int, set<int>>, maxGenePartners: int) returns (j: nat)
    modifies candidates
    ensures j <= candidates.Length
    ensures candidates[..j] == Compacted(partners, maxGenePartners, old(candidates[..]))
  {
    ghost var orig := candidates[..];
    j := 0;
    var i := 0;
    while i < candidates.Length
      invariant 0 <= j <= i <= candidates.Length
      invariant candidates[..j] == Compacted(partners, maxGenePartners, orig[..i])
      invariant forall m :: i <= m < candidates.Length ==> candidates[m] == orig[m]
    {
      CompactedStep(partners, maxGenePartners, orig, i);
      var c := candidates[i];
      var kept := KeepFusions(c.fusions, partners, maxGenePartners);
      if |kept| > 0 {
        ghost var prefix := candidates[..j];
        candidates[j] := Candidate(c.frag, kept);
        assert candidates[..j + 1] == candidates[..j] + [candidates[j]];
        assert candidates[..j] == prefix;
        j := j + 1;
      }
      i := i + 1;
    }
    assert orig[..i] == orig;
    assert candidates[..j] == Compacted(partners, maxGenePartners, orig);
  }


  // Grouping by gene pair and FilterByMinSpan.

  /** A fusion's two genes, smaller ID first. */
  function GenePair(f: FusionInfo): (int, int)
  {
    if f.g1ID > f.g2ID then (f.g2ID, f.g1ID) else (f.g1ID, f.g2ID)
  }

  /** The gene pairs of a candidate's fusions, in order: what
      groupCandidatesByGenePair hashes. */
  function GenePairKey(c: Candidate): seq<(int, int)>
  {
    seq(|c.fusions|, k requires 0 <= k < |c.fusions| => GenePair(c.fusions[k]))
  }

  /** The key does not depend on which gene of a fusion is named first. */
  lemma GenePairKeySwap(frag: Fragment, fs: seq<FusionInfo>, gs: seq<FusionInfo>)
    requires |fs| == |gs|
    requires forall k :: 0 <= k < |fs| ==>
               (gs[k].g1ID == fs[k].g1ID && gs[k].g2ID == fs[k].g2ID)
               || (gs[k].g1ID == fs[k].g2ID && gs[k].g2ID == fs[k].g1ID)
    ensures GenePairKey(Candidate(frag, fs)) == GenePairKey(Candidate(frag, gs))
  {
  }

  function KeyIs(h: seq<(int, int)>): Candidate -> bool
  {
    (c: Candidate) => GenePairKey(c) == h
  }

  /** The positions of the candidates among the first n whose key is h, in
      increasing order: a group of groupCandidatesByGenePair. */
  function GroupUpTo(cands: seq<Candidate>, n: nat, h: seq<(int, int)>): seq<int>
  {
    IndicesWhere(n, Holds(cands, KeyIs(h)))
  }

  function Group(cands: seq<Candidate>, h: seq<(int, int)>): seq<int>
  {
    GroupUpTo(cands, |cands|, h)
  }

  /** A group holds, in increasing order, exactly the positions of the
      candidates with its key. */
  lemma GroupCorrect(cands: seq<Candidate>, h: seq<(int, int)>)
    ensures StrictlyIncreasing(Group(cands, h)) && InRange(Group(cands, h), |cands|)
    ensures forall i :: i in Group(cands, h) <==> 0 <= i < |cands| && GenePairKey(cands[i]) == h
  {
    IndicesWhereCorrect(|cands|, Holds(cands, KeyIs(h)));
  }

  lemma GroupInRange(cands: seq<Candidate>, h: seq<(int, int)>)
    ensures InRange(Group(cands, h), |cands|)
  {
    GroupCorrect(cands, h);
  }

  lemma GroupUpToStep(cands: seq<Candidate>, i: nat, h: seq<(int, int)>)
    requires i < |cands|
    ensures GroupUpTo(cands, i + 1, h) == GroupUpTo(cands, i, h) + (if GenePairKey(cands[i]) == h then [i] else [])
  {
  }

  /** groups maps each key among the first n candidates to its group. */
  ghost predicate GroupsUpTo(cands: seq<Candidate>, n: nat, groups: map<seq<(int, int)>, seq<int>>)
  {
    && (forall h :: h in groups <==> GroupUpTo(cands, n, h) != [])
    && (forall h :: h in groups ==> groups[h] == GroupUpTo(cands, n, h))
  }

  /** One candidate of groupCandidatesByGenePair: appending position i to
      its key's group turns the groups of the first i candidates into those
      of the first i + 1. */
  lemma GroupsStep(cands: seq<Candidate>, i: nat, groups: map<seq<(int, int)>, seq<int>>, next: map<seq<(int, int)>, seq<int>>)
    requires i < |cands| && GroupsUpTo(cands, i, groups)
    requires next == groups[GenePairKey(cands[i]) := (if GenePairKey(cands[i]) in groups then groups[GenePairKey(cands[i])] else []) + [i]]
    ensures GroupsUpTo(cands, i + 1, next)
  {
    forall h
      ensures h in next <==> GroupUpTo(cands, i + 1, h) != []
      ensures h in next ==> next[h] == GroupUpTo(cands, i + 1, h)
    {
      GroupUpToStep(cands, i, h);
    }
  }

  /** The body of groupCandidatesByGenePair's loop: candidate i joins the
      group of its key, which is created when the key is new. */
  method AddToGroup(cands: seq<Candidate>, i: nat, groups: map<seq<(int, int)>, seq<int>>)
    returns (next: map<seq<(int, int)>, seq<int>>)
    requires i < |cands| && GroupsUpTo(cands, i, groups)
    ensures GroupsUpTo(cands, i + 1, next)
  {
    var h := GenePairKey(cands[i]);
    var g := if h in groups then groups[h] else [];
    next := groups[h := g + [i]];
    GroupsStep(cands, i, groups, next);
  }

  /** The groups of all the candidates are the groups of cands. */
  lemma GroupsDone(cands: seq<Candidate>, groups: map<seq<(int, int)>, seq<int>>)
    requires GroupsUpTo(cands, |cands|, groups)
    ensures forall h :: h in groups <==> Group(cands, h) != []
    ensures forall h :: h in groups ==> groups[h] == Group(cands, h)
  {
  }

  /** groupCandidatesByGenePair, without the hashing: each key present
      among the candidates maps to its group. */
  method GroupCandidatesByGenePair(cands: seq<Candidate>) returns (groups: map<seq<(int, int)>, seq<int>>)
    ensures forall h :: h in groups <==> Group(cands, h) != []
    ensures forall h :: h in groups ==> groups[h] == Group(cands, h)
  {
    groups := map[];
    var i := 0;
    while i < |cands|
      invariant 0 <= i <= |cands|
      invariant GroupsUpTo(cands, i, groups)
    {
      groups := AddToGroup(cands, i, groups);
      i := i + 1;
    }
    GroupsDone(cands, groups);
  }

  /** Both spans of every fusion reach minSpan. */
  predicate GoodSpan(fusions: seq<FusionInfo>, minSpan: int)
  {
    forall k :: 0 <= k < |fusions| ==> fusions[k].g1Span >= minSpan && fusions[k].g2Span >= minSpan
  }

  /** The hasGoodSpan closure. */
  method HasGoodSpan(fusions: seq<FusionInfo>, minSpan: int) returns (b: bool)
    ensures b == GoodSpan(fusions, minSpan)
  {
    var k := 0;
    while k < |fusions|
      invariant 0 <= k <= |fusions|
      invariant forall m :: 0 <= m < k ==> fusions[m].g1Span >= minSpan && fusions[m].g2Span >= minSpan
    {
      if fusions[k].g1Span < minSpan || fusions[k].g2Span < minSpan {
        return false;
      }
      k := k + 1;
    }
    return true;
  }

  /** How many of the candidates at the positions idx have good spans. */
  function CountGood(cands: seq<Candidate>, idx: seq<int>, minSpan: int): nat
    requires InRange(idx, |cands|)
  {
    if idx == [] then 0
    else CountGood(cands, idx[..|idx| - 1], minSpan) + (if GoodSpan(cands[idx[|idx| - 1]].fusions, minSpan) then 1 else 0)
  }

  lemma CountGoodAppend(cands: seq<Candidate>, idx: seq<int>, x: int, minSpan: int)
    requires InRange(idx, |cands|) && 0 <= x < |cands|
    ensures InRange(idx + [x], |cands|)
    ensures CountGood(cands, idx + [x], minSpan) == CountGood(cands, idx, minSpan) + (if GoodSpan(cands[x].fusions, minSpan) then 1 else 0)
  {
    assert (idx + [x])[..|idx|] == idx;
  }

  /** How a candidate's UMI is read: FilterByMinSpan passes Fragment.UMI
      (FusionFragment.Umi), which is None where reading it panics. The
      helpers below take the reader as a parameter. */
  type UmiReader = Fragment -> Option<seq<byte>>

  /** A UMI as collapsing compares it; empty where reading it panics. */
  function UmiText(u: Option<seq<byte>>): seq<byte>
  {
    if u.Some? then u.value else []
  }

  /** The UMIs of the candidates, by position. */
  function Umis(cands: seq<Candidate>, readUmi: UmiReader): (r: seq<seq<byte>>)
    ensures |r| == |cands|
  {
    seq(|cands|, i requires 0 <= i < |cands| => UmiText(readUmi(cands[i].frag)))
  }

  /** The UMIs at idx[..n]. */
  function UmisBefore(umis: seq<seq<byte>>, idx: seq<int>, n: nat): set<seq<byte>>
    requires InRange(idx, |umis|) && n <= |idx|
  {
    if n == 0 then {} else UmisBefore(umis, idx, n - 1) + {umis[idx[n - 1]]}
  }

  /** The positions among idx[..n] whose UMI no earlier position has: the
      candidates UMI collapsing keeps. */
  function FirstOfUmi(umis: seq<seq<byte>>, idx: seq<int>, n: nat): seq<int>
    requires InRange(idx, |umis|) && n <= |idx|
  {
    if n == 0 then []
    else FirstOfUmi(umis, idx, n - 1) + (if umis[idx[n - 1]] in UmisBefore(umis, idx, n - 1) then [] else [idx[n - 1]])
  }

  lemma {:induction false} FirstOfUmiInRange(umis: seq<seq<byte>>, idx: seq<int>, n: nat)
    requires InRange(idx, |umis|) && n <= |idx|
    ensures InRange(FirstOfUmi(umis, idx, n), |umis|)
  {
    if n > 0 {
      FirstOfUmiInRange(umis, idx, n - 1);
    }
  }

  /** UMI collapsing keeps positions of idx[..n], in their order. */
  lemma {:induction false} FirstOfUmiOrder(umis: seq<seq<byte>>, idx: seq<int>, n: nat)
    requires InRange(idx, |umis|) && n <= |idx| && StrictlyIncreasing(idx)
    ensures StrictlyIncreasing(FirstOfUmi(umis, idx, n)) && InRange(FirstOfUmi(umis, idx, n), |umis|)
    ensures forall x :: x in FirstOfUmi(umis, idx, n) ==> x in idx[..n]
  {
    FirstOfUmiInRange(umis, idx, n);
    if n > 0 {
      FirstOfUmiOrder(umis, idx, n - 1);
      var prev := FirstOfUmi(umis, idx, n - 1);
      forall x | x in prev
        ensures x < idx[n - 1]
      {
        var m :| 0 <= m < n - 1 && idx[m] == x;
      }
      assert idx[..n] == idx[..n - 1] + [idx[n - 1]];
      var cur := prev + [idx[n - 1]];
      forall a, b | 0 <= a < b < |cur|
        ensures cur[a] < cur[b]
      {
        if b == |cur| - 1 {
          assert cur[a] in prev;
        } else {
          assert cur[a] == prev[a] && cur[b] == prev[b];
        }
      }
    }
  }

  /** Every UMI of idx[..n] is the UMI of a kept position. */
  lemma {:induction false} FirstOfUmiCovers(umis: seq<seq<byte>>, idx: seq<int>, n: nat)
    requires InRange(idx, |umis|) && n <= |idx|
    ensures InRange(FirstOfUmi(umis, idx, n), |umis|)
    ensures UmisBefore(umis, idx, n) == set x | x in FirstOfUmi(umis, idx, n) :: umis[x]
  {
    FirstOfUmiInRange(umis, idx, n);
    if n > 0 {
      FirstOfUmiCovers(umis, idx, n - 1);
    }
  }

  /** The kept positions have pairwise different UMIs. */
  lemma {:induction false} FirstOfUmiDistinct(umis: seq<seq<byte>>, idx: seq<int>, n: nat)
    requires InRange(idx, |umis|) && n <= |idx|
    ensures InRange(FirstOfUmi(umis, idx, n), |umis|)
    ensures forall a, b :: 0 <= a < b < |FirstOfUmi(umis, idx, n)| ==>
              umis[FirstOfUmi(umis, idx, n)[a]] != umis[FirstOfUmi(umis, idx, n)[b]]
  {
    FirstOfUmiInRange(umis, idx, n);
    if n > 0 {
      FirstOfUmiDistinct(umis, idx, n - 1);
      FirstOfUmiCovers(umis, idx, n - 1);
      var prev := FirstOfUmi(umis, idx, n - 1);
      var u := umis[idx[n - 1]];
      if u !in UmisBefore(umis, idx, n - 1) {
        var cur := prev + [idx[n - 1]];
        forall a, b | 0 <= a < b < |cur|
          ensures umis[cur[a]] != umis[cur[b]]
        {
          if b == |cur| - 1 {
            assert cur[a] in prev;
          } else {
            assert cur[a] == prev[a] && cur[b] == prev[b];
          }
        }
      }
    }
  }

  /** The candidates a group contributes to the valid indices. */
  function GroupKept(cands: seq<Candidate>, idx: seq<int>, hasUMI: bool, minSpan: int, minReadSupport: int, readUmi: UmiReader): seq<int>
    requires InRange(idx, |cands|)
  {
    var chosen := if hasUMI then FirstOfUmi(Umis(cands, readUmi), idx, |idx|) else idx;
    assert InRange(chosen, |cands|) by {
      if hasUMI {
        FirstOfUmiInRange(Umis(cands, readUmi), idx, |idx|);
      }
    }
    if CountGood(cands, chosen, minSpan) >= minReadSupport then chosen else []
  }

  /** Candidate i is kept by FilterByMinSpan. */
  predicate Survives(cands: seq<Candidate>, hasUMI: bool, minSpan: int, minReadSupport: int, readUmi: UmiReader, i: int)
  {
    0 <= i < |cands|
    && (GroupCorrect(cands, GenePairKey(cands[i]));
        i in GroupKept(cands, Group(cands, GenePairKey(cands[i])), hasUMI, minSpan, minReadSupport, readUmi))
  }

  function SurvivorTest(cands: seq<Candidate>, hasUMI: bool, minSpan: int, minReadSupport: int, readUmi: UmiReader): int -> bool
  {
    i => Survives(cands, hasUMI, minSpan, minReadSupport, readUmi, i)
  }

  /** The positions of the candidates FilterByMinSpan keeps, in increasing
      order. */
  function Survivors(cands: seq<Candidate>, hasUMI: bool, minSpan: int, minReadSupport: int, readUmi: UmiReader): seq<int>
  {
    IndicesWhere(|cands|, SurvivorTest(cands, hasUMI, minSpan, minReadSupport, readUmi))
  }

  /** FilterByMinSpan's result: the candidates that survive, in their
      order. */
  function MinSpanFiltered(cands: seq<Candidate>, hasUMI: bool, minSpan: int, minReadSupport: int, readUmi: UmiReader): seq<Candidate>
  {
    IndicesWhereCorrect(|cands|, SurvivorTest(cands, hasUMI, minSpan, minReadSupport, readUmi));
    Select(cands, Survivors(cands, hasUMI, minSpan, minReadSupport, readUmi))
  }

  /** What a group contributes: positions of the group, without repeats; and
      a candidate of the group survives exactly when the group contributes
      it. */
  lemma GroupKeptCorrect(cands: seq<Candidate>, h: seq<(int, int)>, hasUMI: bool, minSpan: int, minReadSupport: int, readUmi: UmiReader)
    ensures InRange(Group(cands, h), |cands|)
    ensures Distinct(GroupKept(cands, Group(cands, h), hasUMI, minSpan, minReadSupport, readUmi))
    ensures forall i :: i in GroupKept(cands, Group(cands, h), hasUMI, minSpan, minReadSupport, readUmi) ==>
                        0 <= i < |cands| && GenePairKey(cands[i]) == h
    ensures forall i :: 0 <= i < |cands| && GenePairKey(cands[i]) == h ==>
                        (Survives(cands, hasUMI, minSpan, minReadSupport, readUmi, i)
                         <==> i in GroupKept(cands, Group(cands, h), hasUMI, minSpan, minReadSupport, readUmi))
  {
    var g := Group(cands, h);
    GroupCorrect(cands, h);
    if hasUMI {
      FirstOfUmiOrder(Umis(cands, readUmi), g, |g|);
      assert g[..|g|] == g;
    }
  }

  lemma DistinctAppend(a: seq<int>, b: seq<int>)
    requires Distinct(a) && Distinct(b) && forall x :: x in a ==> x !in b
    ensures Distinct(a + b)
  {
    forall i, j | 0 <= i < j < |a + b|
      ensures (a + b)[i] != (a + b)[j]
    {
      if j >= |a| && i < |a| {
        assert (a + b)[i] in a && (a + b)[j] in b;
      }
    }
  }

  /** One group of FilterByMinSpan: the candidates it keeps; None where
      reading a UMI panics. */
  method ScanGroup(cands: seq<Candidate>, idx: seq<int>, hasUMI: bool, minSpan: int, minReadSupport: int, readUmi: UmiReader)
    returns (kept: Option<seq<int>>)
    requires InRange(idx, |cands|)
    ensures kept.None? <==> hasUMI && exists k :: 0 <= k < |idx| && readUmi(cands[idx[k]].frag).None?
    ensures kept.Some? ==> kept.value == GroupKept(cands, idx, hasUMI, minSpan, minReadSupport, readUmi)
  {
    if hasUMI {
      var r := CollapseUmis(cands, idx, minSpan, readUmi);
      if r.None? {
        return None;
      }
      var (cur, numSpanSupport) := r.value;
      kept := if numSpanSupport >= minReadSupport then Some(cur) else Some([]);
    } else {
      var numSpanSupport := CountSpanSupport(cands, idx, minSpan);
      kept := if numSpanSupport >= minReadSupport then Some(idx) else Some([]);
    }
  }

  /** One step of UMI collapsing: the UMIs seen and the kept positions after
      idx[k]. */
  lemma CollapseStep(umis: seq<seq<byte>>, idx: seq<int>, k: nat)
    requires InRange(idx, |umis|) && k < |idx|
    ensures UmisBefore(umis, idx, k + 1) == UmisBefore(umis, idx, k) + {umis[idx[k]]}
    ensures umis[idx[k]] in UmisBefore(umis, idx, k) ==>
              UmisBefore(umis, idx, k + 1) == UmisBefore(umis, idx, k)
              && FirstOfUmi(umis, idx, k + 1) == FirstOfUmi(umis, idx, k)
    ensures umis[idx[k]] !in UmisBefore(umis, idx, k) ==> FirstOfUmi(umis, idx, k + 1) == FirstOfUmi(umis, idx, k) + [idx[k]]
  {
    var seen := UmisBefore(umis, idx, k);
    if umis[idx[k]] in seen {
      assert seen + {umis[idx[k]]} == seen;
    }
  }

  /** One candidate of the UMI branch: the UMIs seen, the positions kept
      and their good-span count after idx[k]; None where reading the UMI
      panics. */
  method CollapseOne(cands: seq<Candidate>, idx: seq<int>, minSpan: int, k: nat, ghost umis: seq<seq<byte>>,
                     umisSeen: set<seq<byte>>, cur: seq<int>, numSpanSupport: nat, readUmi: UmiReader)
    returns (r: Option<(set<seq<byte>>, seq<int>, nat)>)
    requires InRange(idx, |cands|) && k < |idx| && umis == Umis(cands, readUmi)
    requires umisSeen == UmisBefore(umis, idx, k)
    requires cur == FirstOfUmi(umis, idx, k) && InRange(cur, |cands|)
    requires numSpanSupport == CountGood(cands, cur, minSpan)
    ensures r.None? <==> readUmi(cands[idx[k]].frag).None?
    ensures r.Some? ==> r.value.0 == UmisBefore(umis, idx, k + 1)
                        && r.value.1 == FirstOfUmi(umis, idx, k + 1) && InRange(r.value.1, |cands|)
                        && r.value.2 == CountGood(cands, r.value.1, minSpan)
  {
    var c := cands[idx[k]];
    var umi := readUmi(c.frag);
    if umi.None? {
      return None;
    }
    assert umis[idx[k]] == umi.value;
    CollapseStep(umis, idx, k);
    if umi.value !in umisSeen {
      CountGoodAppend(cands, cur, idx[k], minSpan);
      var good := HasGoodSpan(c.fusions, minSpan);
      r := Some((umisSeen + {umi.value}, cur + [idx[k]], if good then numSpanSupport + 1 else numSpanSupport));
    } else {
      r := Some((umisSeen, cur, numSpanSupport));
    }
  }

  /** The UMIs at idx[..n] can all be read. */
  predicate ReadableBefore(cands: seq<Candidate>, idx: seq<int>, readUmi: UmiReader, n: nat)
    requires InRange(idx, |cands|) && n <= |idx|
  {
    n == 0 || (ReadableBefore(cands, idx, readUmi, n - 1) && readUmi(cands[idx[n - 1]].frag).Some?)
  }

  lemma {:induction false} ReadableBeforeIff(cands: seq<Candidate>, idx: seq<int>, readUmi: UmiReader, n: nat)
    requires InRange(idx, |cands|) && n <= |idx|
    ensures ReadableBefore(cands, idx, readUmi, n) <==> forall m :: 0 <= m < n ==> readUmi(cands[idx[m]].frag).Some?
  {
    if n > 0 {
      ReadableBeforeIff(cands, idx, readUmi, n - 1);
    }
  }

  /** The UMI branch of FilterByMinSpan's group loop: the first candidate of
      each UMI, and how many of those have good spans; None where reading a
      UMI panics. */
  method CollapseUmis(cands: seq<Candidate>, idx: seq<int>, minSpan: int, readUmi: UmiReader) returns (r: Option<(seq<int>, nat)>)
    requires InRange(idx, |cands|)
    ensures r.None? <==> exists k :: 0 <= k < |idx| && readUmi(cands[idx[k]].frag).None?
    ensures r.Some? ==> r.value.0 == FirstOfUmi(Umis(cands, readUmi), idx, |idx|) && InRange(r.value.0, |cands|)
                        && r.value.1 == CountGood(cands, r.value.0, minSpan)
  {
    ghost var umis := Umis(cands, readUmi);
    var numSpanSupport := 0;
    var umisSeen: set<seq<byte>> := {};
    var cur: seq<int> := [];
    var k := 0;
    while k < |idx|
      invariant 0 <= k <= |idx|
      invariant ReadableBefore(cands, idx, readUmi, k)
      invariant umisSeen == UmisBefore(umis, idx, k)
      invariant cur == FirstOfUmi(umis, idx, k) && InRange(cur, |cands|)
      invariant numSpanSupport == CountGood(cands, cur, minSpan)
    {
      var step := CollapseOne(cands, idx, minSpan, k, umis, umisSeen, cur, numSpanSupport, readUmi);
      if step.None? {
        return None;
      }
      umisSeen, cur, numSpanSupport := step.value.0, step.value.1, step.value.2;
      k := k + 1;
    }
    ReadableBeforeIff(cands, idx, readUmi, k);
    return Some((cur, numSpanSupport));
  }

  /** The other branch: how many candidates of the group have good spans. */
  method CountSpanSupport(cands: seq<Candidate>, idx: seq<int>, minSpan: int) returns (n: nat)
    requires InRange(idx, |cands|)
    ensures n == CountGood(cands, idx, minSpan)
  {
    n := 0;
    var k := 0;
    while k < |idx|
      invariant 0 <= k <= |idx|
      invariant n == CountGood(cands, idx[..k], minSpan)
    {
      assert idx[..k + 1] == idx[..k] + [idx[k]];
      CountGoodAppend(cands, idx[..k], idx[k], minSpan);
      var good := HasGoodSpan(cands[idx[k]].fusions, minSpan);
      if good {
        n := n + 1;
      }
      k := k + 1;
    }
    assert idx[..k] == idx;
  }

  /** One group of the loop of FilterByMinSpan: appending what the group
      with key h keeps to the indices gathered so far keeps them distinct
      and makes them the survivors of the groups done, h now among them. */
  lemma ValidStep(cands: seq<Candidate>, hasUMI: bool, minSpan: int, minReadSupport: int, readUmi: UmiReader,
                  keys: set<seq<(int, int)>>, h: seq<(int, int)>, acc: seq<int>, kept: seq<int>)
    requires h in keys
    requires Distinct(acc) && InRange(acc, |cands|)
    requires forall i :: i in acc <==> Survives(cands, hasUMI, minSpan, minReadSupport, readUmi, i) && GenePairKey(cands[i]) !in keys
    requires InRange(Group(cands, h), |cands|)
    requires kept == GroupKept(cands, Group(cands, h), hasUMI, minSpan, minReadSupport, readUmi)
    ensures Distinct(acc + kept) && InRange(acc + kept, |cands|)
    ensures forall i :: i in acc + kept <==> Survives(cands, hasUMI, minSpan, minReadSupport, readUmi, i) && GenePairKey(cands[i]) !in keys - {h}
  {
    GroupKeptCorrect(cands, h, hasUMI, minSpan, minReadSupport, readUmi);
    DistinctAppend(acc, kept);
    forall j | 0 <= j < |acc + kept|
      ensures 0 <= (acc + kept)[j] < |cands|
    {
      if j >= |acc| {
        assert (acc + kept)[j] in kept;
      }
    }
    forall i
      ensures i in acc + kept <==> Survives(cands, hasUMI, minSpan, minReadSupport, readUmi, i) && GenePairKey(cands[i]) !in keys - {h}
    {
      if Survives(cands, hasUMI, minSpan, minReadSupport, readUmi, i) && GenePairKey(cands[i]) == h {
        assert i in kept;
      }
    }
  }

  /** After the group with key h, every candidate of a group done has a
      readable UMI. */
  lemma ReadableStep(cands: seq<Candidate>, readUmi: UmiReader, keys: set<seq<(int, int)>>, h: seq<(int, int)>)
    requires forall i :: 0 <= i < |cands| && GenePairKey(cands[i]) !in keys ==> readUmi(cands[i].frag).Some?
    requires InRange(Group(cands, h), |cands|)
    requires forall k :: 0 <= k < |Group(cands, h)| ==> readUmi(cands[Group(cands, h)[k]].frag).Some?
    ensures forall i :: 0 <= i < |cands| && GenePairKey(cands[i]) !in keys - {h} ==> readUmi(cands[i].frag).Some?
  {
    GroupCorrect(cands, h);
    forall i | 0 <= i < |cands| && GenePairKey(cands[i]) == h
      ensures readUmi(cands[i].frag).Some?
    {
      var k :| 0 <= k < |Group(cands, h)| && Group(cands, h)[k] == i;
    }
  }

  /** What the outer loop of FilterByMinSpan has gathered once the groups
      whose keys are still in keys remain: the survivors of every other group,
      each once, and (with UMIs) a readable UMI for every candidate outside
      the remaining groups. */
  ghost predicate Gathered(cands: seq<Candidate>, hasUMI: bool, minSpan: int, minReadSupport: int, readUmi: UmiReader,
                     keys: set<seq<(int, int)>>, acc: seq<int>)
  {
    && Distinct(acc) && InRange(acc, |cands|)
    && (forall i :: i in acc <==> Survives(cands, hasUMI, minSpan, minReadSupport, readUmi, i) && GenePairKey(cands[i]) !in keys)
    && (hasUMI ==> forall i :: 0 <= i < |cands| && GenePairKey(cands[i]) !in keys ==> readUmi(cands[i].frag).Some?)
  }

  /** The body of FilterByMinSpan's loop over the groups, for the group idx
      with key h: the indices gathered so far followed by those the group
      keeps; None where reading a UMI of the group panics. */
  method GatherGroup(cands: seq<Candidate>, hasUMI: bool, minSpan: int, minReadSupport: int, readUmi: UmiReader,
                     keys: set<seq<(int, int)>>, h: seq<(int, int)>, idx: seq<int>, acc: seq<int>)
    returns (next: Option<seq<int>>)
    requires h in keys && idx == Group(cands, h)
    requires Gathered(cands, hasUMI, minSpan, minReadSupport, readUmi, keys, acc)
    ensures next.None? ==> hasUMI && exists i :: 0 <= i < |cands| && readUmi(cands[i].frag).None?
    ensures next.Some? ==> Gathered(cands, hasUMI, minSpan, minReadSupport, readUmi, keys - {h}, next.value)
  {
    GroupInRange(cands, h);
    var kept := ScanGroup(cands, idx, hasUMI, minSpan, minReadSupport, readUmi);
    if kept.None? {
      var k :| 0 <= k < |idx| && readUmi(cands[idx[k]].frag).None?;
      assert 0 <= idx[k] < |cands|;
      return None;
    }
    ValidStep(cands, hasUMI, minSpan, minReadSupport, readUmi, keys, h, acc, kept.value);
    if hasUMI {
      ReadableStep(cands, readUmi, keys, h);
    }
    next := Some(acc + kept.value);
  }

  /** Every candidate's key is a key of the groups. */
  lemma KeysCover(cands: seq<Candidate>, groups: map<seq<(int, int)>, seq<int>>)
    requires forall h :: h in groups <==> Group(cands, h) != []
    ensures forall i :: 0 <= i < |cands| ==> GenePairKey(cands[i]) in groups
  {
    forall i | 0 <= i < |cands|
      ensures GenePairKey(cands[i]) in groups
    {
      GroupCorrect(cands, GenePairKey(cands[i]));
      assert i in Group(cands, GenePairKey(cands[i]));
    }
  }

  /** The loop of FilterByMinSpan over the groups, in whatever order the map
      yields them: the valid indices, each once; None where reading a UMI
      panics. */
  method ValidIndices(hasUMI: bool, minSpan: int, cands: seq<Candidate>, minReadSupport: int, readUmi: UmiReader)
    returns (valid: Option<seq<int>>)
    ensures valid.None? <==> hasUMI && exists i :: 0 <= i < |cands| && readUmi(cands[i].frag).None?
    ensures valid.Some? ==> Distinct(valid.value) && InRange(valid.value, |cands|)
                            && forall i :: i in valid.value <==> Survives(cands, hasUMI, minSpan, minReadSupport, readUmi, i)
  {
    var groups := GroupCandidatesByGenePair(cands);
    KeysCover(cands, groups);
    var keys := groups.Keys;
    var acc: seq<int> := [];
    while keys != {}
      invariant keys <= groups.Keys
      invariant Gathered(cands, hasUMI, minSpan, minReadSupport, readUmi, keys, acc)
      decreases |keys|
    {
      var h :| h in keys;
      var next := GatherGroup(cands, hasUMI, minSpan, minReadSupport, readUmi, keys, h, groups[h], acc);
      if next.None? {
        return None;
      }
      acc := next.value;
      keys := keys - {h};
    }
    return Some(acc);
  }

  /** Sorting the valid indices gives the survivors in increasing order. */
  lemma SortedValidIndices(cands: seq<Candidate>, hasUMI: bool, minSpan: int, minReadSupport: int, readUmi: UmiReader, valid: seq<int>)
    requires Distinct(valid) && InRange(valid, |cands|)
    requires forall i :: i in valid <==> Survives(cands, hasUMI, minSpan, minReadSupport, readUmi, i)
    ensures SortAscending(valid) == Survivors(cands, hasUMI, minSpan, minReadSupport, readUmi)
  {
    var sorted := SortAscending(valid);
    SortAscendingCorrect(valid, |cands|);
    IndicesWhereCorrect(|cands|, SurvivorTest(cands, hasUMI, minSpan, minReadSupport, readUmi));
    forall v
      ensures v in sorted <==> v in Survivors(cands, hasUMI, minSpan, minReadSupport, readUmi)
    {
      assert v in sorted <==> v in multiset(sorted);
      assert v in valid <==> v in multiset(valid);
    }
    IncreasingUnique(sorted, Survivors(cands, hasUMI, minSpan, minReadSupport, readUmi));
  }

  /** FilterByMinSpan: the surviving candidates are moved, in order, to the
      front of the slice, whose new length is returned; None where reading
      a UMI panics. */
  method FilterByMinSpan(hasUMI: bool, minSpan: int, candidates: array<Candidate>, minReadSupport: int)
    returns (r: Option<nat>)
    modifies candidates
    ensures r.None? <==> hasUMI && exists i :: 0 <= i < candidates.Length && Umi(old(candidates[i]).frag).None?
    ensures r.Some? ==> r.value <= candidates.Length
                        && candidates[..r.value] == MinSpanFiltered(old(candidates[..]), hasUMI, minSpan, minReadSupport, Umi)
  {
    var orig := candidates[..];
    var valid := ValidIndices(hasUMI, minSpan, orig, minReadSupport, Umi);
    if valid.None? {
      return None;
    }
    SortedValidIndices(orig, hasUMI, minSpan, minReadSupport, Umi, valid.value);
    var indices := new int[|valid.value|];
    WriteIndices(indices, valid.value);
    r := SubsetCandidates(candidates, indices);
  }
}
