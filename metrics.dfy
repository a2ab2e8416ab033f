/** Mark-duplicates metrics (markduplicates/metrics.go): the per-library
    counters, their field-wise sum, and the collection that keeps one set of
    counters per library and a histogram of optical distances per bag-size
    bucket. */
module DuplicateMetrics {

  /** The seven counters of a Metrics, as a value. */
  datatype Counts = Counts(
    unpairedReads: int, readPairsExamined: int, secondarySupplementary: int,
    unmappedReads: int, unpairedDups: int, readPairDups: int, readPairOpticalDups: int)

  const Zero := Counts(0, 0, 0, 0, 0, 0, 0)

  /** Field-wise sum of two sets of counters. */
  function Sum(a: Counts, b: Counts): Counts
  {
    Counts(a.unpairedReads + b.unpairedReads, a.readPairsExamined + b.readPairsExamined,
           a.secondarySupplementary + b.secondarySupplementary, a.unmappedReads + b.unmappedReads,
           a.unpairedDups + b.unpairedDups, a.readPairDups + b.readPairDups,
           a.readPairOpticalDups + b.readPairOpticalDups)
  }

  /** Counters add up in any order and grouping, and zero changes nothing. */
  lemma SumLaws(a: Counts, b: Counts, c: Counts)
    ensures Sum(a, b) == Sum(b, a)
    ensures Sum(Sum(a, b), c) == Sum(a, Sum(b, c))
    ensures Sum(a, Zero) == a
  {
  }

  /** Metrics: one library's counters, updated in place. */
  class Metrics {
    var unpairedReads: int
    var readPairsExamined: int
    var secondarySupplementary: int
    var unmappedReads: int
    var unpairedDups: int
    var readPairDups: int
    var readPairOpticalDups: int

    function Value(): Counts
      reads this
    {
      Counts(unpairedReads, readPairsExamined, secondarySupplementary, unmappedReads,
             unpairedDups, readPairDups, readPairOpticalDups)
    }

    constructor ()
      ensures Value() == Zero
    {
      unpairedReads, readPairsExamined, secondarySupplementary := 0, 0, 0;
      unmappedReads, unpairedDups, readPairDups, readPairOpticalDups := 0, 0, 0, 0;
    }

    /** A copy of other's counters (Go's `new := *otherMetrics`). */
    constructor Copy(other: Metrics)
      ensures Value() == other.Value()
    {
      unpairedReads, readPairsExamined, secondarySupplementary := other.unpairedReads, other.readPairsExamined, other.secondarySupplementary;
      unmappedReads, unpairedDups, readPairDups, readPairOpticalDups := other.unmappedReads, other.unpairedDups, other.readPairDups, other.readPairOpticalDups;
    }

    /** Add: adds other's counters to this one's (other may be this). */
    method Add(other: Metrics)
      modifies this
      ensures Value() == Sum(old(Value()), old(other.Value()))
    {
      unpairedReads := unpairedReads + other.unpairedReads;
      readPairsExamined := readPairsExamined + other.readPairsExamined;
      secondarySupplementary := secondarySupplementary + other.secondarySupplementary;
      unmappedReads := unmappedReads + other.unmappedReads;
      unpairedDups := unpairedDups + other.unpairedDups;
      readPairDups := readPairDups + other.readPairDups;
      readPairOpticalDups := readPairOpticalDups + other.readPairOpticalDups;
    }
  }

  /** Library-wise merge: a library in both maps gets the sum of its
      counters, one in a single map keeps its own. */
  function MergeLibraries(a: map<string, Counts>, b: map<string, Counts>): (r: map<string, Counts>)
    ensures r.Keys == a.Keys + b.Keys
  {
    map l | l in a.Keys + b.Keys ::
      if l in a && l in b then Sum(a[l], b[l]) else if l in a then a[l] else b[l]
  }

  /** Merging libraries does not depend on the order of the two
      collections, and merging nothing changes nothing. */
  lemma MergeLibrariesLaws(a: map<string, Counts>, b: map<string, Counts>)
    ensures MergeLibraries(a, b) == MergeLibraries(b, a)
    ensures MergeLibraries(a, map[]) == a
  {
    forall l | l in a && l in b
      ensures Sum(a[l], b[l]) == Sum(b[l], a[l])
    {
      SumLaws(a[l], b[l], Zero);
    }
  }

  /** Merging one more library of the second map into a merge. */
  lemma MergeLibrariesStep(a: map<string, Counts>, b: map<string, Counts>, l: string, c: Counts)
    requires l !in b
    ensures MergeLibraries(a, b[l := c]) ==
            MergeLibraries(a, b)[l := if l in a then Sum(a[l], c) else c]
  {
  }

  /** The count at distance d, zero past the end of the histogram. */
  function At(h: seq<int>, d: int): int
  {
    if 0 <= d < |h| then h[d] else 0
  }

  /** Two histograms added bin by bin, as long as the longer one. */
  function AddHistograms(a: seq<int>, b: seq<int>): (r: seq<int>)
    ensures |r| == if |a| < |b| then |b| else |a|
    ensures forall d :: 0 <= d < |r| ==> r[d] == At(a, d) + At(b, d)
  {
    seq(if |a| < |b| then |b| else |a|, d => At(a, d) + At(b, d))
  }

  /** The number of pairs a histogram records. */
  function Total(h: seq<int>): int
  {
    if h == [] then 0 else h[0] + Total(h[1..])
  }

  /** Adding histograms adds their totals. */
  lemma {:induction false} TotalOfAddHistograms(a: seq<int>, b: seq<int>)
    ensures Total(AddHistograms(a, b)) == Total(a) + Total(b)
    decreases |a| + |b|
  {
    var r := AddHistograms(a, b);
    if a == [] {
      assert r == b;
    } else if b == [] {
      assert r == a;
    } else {
      TotalOfAddHistograms(a[1..], b[1..]);
      assert r[1..] == AddHistograms(a[1..], b[1..]);
    }
  }

  /** The histogram h extended with zero bins to length n (unchanged when it
      is already that long). */
  function Grow(h: seq<int>, n: nat): (r: seq<int>)
    ensures |r| == if |h| < n then n else |h|
    ensures forall d :: 0 <= d < |r| ==> r[d] == At(h, d)
  {
    if |h| < n then h + seq(n - |h|, _ => 0) else h
  }

  /** Bag sizes to histogram buckets: up to 2, 3 to 4, 5 to 7, and 8 or
      more. */
  function Bucket(bagSize: int): (b: nat)
    ensures b < 4
    ensures b == 0 <==> bagSize <= 2
    ensures b == 3 <==> bagSize >= 8
  {
    if bagSize <= 2 then 0
    else if 3 <= bagSize <= 4 then 1
    else if 5 <= bagSize <= 7 then 2
    else 3
  }

  /** Adds b's bins to a in place, growing a first when it is shorter. */
  method MergeHistogram(a: seq<int>, b: seq<int>) returns (r: seq<int>)
    ensures r == AddHistograms(a, b)
  {
    r := a;
    if |r| < |b| {
      var temp := seq(|b|, _ => 0);
      r := r + temp[|r|..];
    }
    for j := 0 to |b|
      invariant |r| == if |a| < |b| then |b| else |a|
      invariant forall d :: 0 <= d < j ==> r[d] == At(a, d) + At(b, d)
      invariant forall d :: j <= d < |r| ==> r[d] == At(a, d)
    {
      r := r[j := r[j] + b[j]];
    }
  }

  /** The counters of each library of a library map, read from its Metrics
      objects. */
  ghost function CountersOf(lm: map<string, Metrics>): (r: map<string, Counts>)
    reads lm.Values
    ensures r.Keys == lm.Keys
  {
    map l | l in lm :: lm[l].Value()
  }

  /** No library of lm shares a Metrics object with one of tm. */
  ghost predicate Disjoint(lm: map<string, Metrics>, tm: map<string, Metrics>)
  {
    forall l, k :: l in lm && k in tm ==> lm[l] != tm[k]
  }

  /** Every library of lm0 keeps its object in lm. */
  ghost predicate Kept(lm0: map<string, Metrics>, lm: map<string, Metrics>)
  {
    forall l :: l in lm0 ==> l in lm && lm[l] == lm0[l]
  }

  /** A library given an object that neither collection holds keeps both
      collections apart. */
  lemma AddApart(lm: map<string, Metrics>, tm: map<string, Metrics>, l: string, m: Metrics)
    requires Unshared(lm) && Disjoint(lm, tm) && l !in lm
    requires forall k :: k in lm ==> lm[k] != m
    requires forall k :: k in tm ==> tm[k] != m
    ensures Unshared(lm[l := m]) && Disjoint(lm[l := m], tm)
  {
  }

  lemma KeptAdd(lm: map<string, Metrics>, l: string, m: Metrics)
    requires l !in lm
    ensures Kept(lm, lm[l := m])
  {
  }

  lemma KeptTrans(lm0: map<string, Metrics>, lm1: map<string, Metrics>, lm2: map<string, Metrics>)
    requires Kept(lm0, lm1) && Kept(lm1, lm2)
    ensures Kept(lm0, lm2)
  {
  }

  /** A library added with object m adds m's counters. */
  lemma CountersOfAdd(lm: map<string, Metrics>, c: map<string, Counts>, l: string, m: Metrics, v: Counts)
    requires l !in lm && c.Keys == lm.Keys && m.Value() == v
    requires forall k :: k in lm ==> lm[k].Value() == c[k]
    ensures CountersOf(lm[l := m]) == c[l := v]
  {
  }

  /** A map of counters that agrees with every library's object is the
      map of their counters. */
  lemma CountersOfPointwise(lm: map<string, Metrics>, c: map<string, Counts>)
    requires c.Keys == lm.Keys
    requires forall k :: k in lm ==> lm[k].Value() == c[k]
    ensures CountersOf(lm) == c
  {
  }

  /** No two libraries share a Metrics object. */
  ghost predicate Unshared(lm: map<string, Metrics>)
  {
    forall l, k :: l in lm && k in lm && l != k ==> lm[l] != lm[k]
  }

  /** The library loop's invariant: no object shared within the first
      collection or with the second, the first holding the merge of its
      original counters with those done, and the second unchanged. */
  ghost predicate Merging(lm: map<string, Metrics>, theirMetrics: map<string, Metrics>,
                          mine: map<string, Counts>, done: map<string, Counts>, theirs: map<string, Counts>)
    reads lm.Values, theirMetrics.Values
  {
    Unshared(lm) && Disjoint(lm, theirMetrics)
    && CountersOf(lm) == MergeLibraries(mine, done) && CountersOf(theirMetrics) == theirs
  }

  /** The library loop's bookkeeping: the libraries still pending and the
      counters of those done partition the second collection. */
  ghost predicate Progress(pending: set<string>, done: map<string, Counts>, theirs: map<string, Counts>)
  {
    pending !! done.Keys && pending + done.Keys == theirs.Keys
    && forall l :: l in done ==> done[l] == theirs[l]
  }

  lemma ProgressStep(pending: set<string>, done: map<string, Counts>, theirs: map<string, Counts>, l: string)
    requires Progress(pending, done, theirs) && l in pending
    ensures l in theirs && l !in done
    ensures Progress(pending - {l}, done[l := theirs[l]], theirs)
  {
    assert done[l := theirs[l]].Keys == done.Keys + {l};
  }

  lemma ProgressDone(done: map<string, Counts>, theirs: map<string, Counts>)
    requires Progress({}, done, theirs)
    ensures done == theirs
  {
  }

  /** MetricsCollection: a Metrics object per library and four
      optical-distance histograms, one per bag-size bucket. */
  class MetricsCollection {
    var libraryMetrics: map<string, Metrics>
    var opticalDistance: seq<seq<int>>

    /** Four histograms of one length, as newMetricsCollection makes them and
      AddDistance keeps them, and one object per library, as Get and Merge
      create them. */
    ghost predicate Valid()
      reads this
    {
      |opticalDistance| == 4
      && (forall i :: 0 <= i < 4 ==> |opticalDistance[i]| == |opticalDistance[0]|)
      && Unshared(libraryMetrics)
    }

    /** The counters of each library. */
    ghost function Counters(): map<string, Counts>
      reads this, libraryMetrics.Values
    {
      CountersOf(libraryMetrics)
    }

    /** newMetricsCollection: no libraries, four histograms of 60000 bins. */
    constructor ()
      ensures Valid() && libraryMetrics == map[]
      ensures opticalDistance == seq(4, _ => seq(60000, _ => 0))
    {
      libraryMetrics := map[];
      opticalDistance := seq(4, _ => seq(60000, _ => 0));
    }

    /** Get: the library's Metrics object, which the caller updates in
      place; a library seen for the first time gets a new object with zero
      counters. */
    method Get(library: string) returns (m: Metrics)
      requires Valid()
      modifies this
      ensures Valid() && library in libraryMetrics && libraryMetrics[library] == m
      ensures library in old(libraryMetrics) ==> m == old(libraryMetrics[library]) && libraryMetrics == old(libraryMetrics)
      ensures library !in old(libraryMetrics) ==>
                fresh(m) && m.Value() == Zero && libraryMetrics == old(libraryMetrics)[library := m]
                && Counters() == old(Counters())[library := Zero]
      ensures opticalDistance == old(opticalDistance)
    {
      if library in libraryMetrics {
        return libraryMetrics[library];
      }
      m := new Metrics();
      libraryMetrics := libraryMetrics[library := m];
    }

    /** Merge: adds other's libraries and histograms into this collection.
      A library already present has other's counters added to its object;
      a new one gets a copy of other's object, so the two collections still
      share nothing afterwards. */
    method Merge(other: MetricsCollection)
      requires Valid() && other.Valid() && other != this
      requires Disjoint(libraryMetrics, other.libraryMetrics)
      modifies this, libraryMetrics.Values
      ensures Valid() && Disjoint(libraryMetrics, other.libraryMetrics)
      ensures libraryMetrics.Keys == old(libraryMetrics.Keys) + other.libraryMetrics.Keys
      ensures Counters() == MergeLibraries(old(Counters()), old(other.Counters()))
      ensures other.Counters() == old(other.Counters())
      ensures forall i :: 0 <= i < 4 ==> opticalDistance[i] == AddHistograms(old(opticalDistance[i]), other.opticalDistance[i])
    {
      AddLibraries(other);
      MergeHistograms(other);
    }

    /** The histogram loop of Merge. */
    method MergeHistograms(other: MetricsCollection)
      requires |opticalDistance| == 4 && |other.opticalDistance| == 4 && other != this
      requires forall i :: 0 <= i < 4 ==> |opticalDistance[i]| == |opticalDistance[0]|
      requires forall i :: 0 <= i < 4 ==> |other.opticalDistance[i]| == |other.opticalDistance[0]|
      modifies this`opticalDistance
      ensures |opticalDistance| == 4
      ensures forall i :: 0 <= i < 4 ==> |opticalDistance[i]| == |opticalDistance[0]|
      ensures forall i :: 0 <= i < 4 ==> opticalDistance[i] == AddHistograms(old(opticalDistance[i]), other.opticalDistance[i])
    {
      ghost var n := |AddHistograms(opticalDistance[0], other.opticalDistance[0])|;
      for i := 0 to 4
        invariant |opticalDistance| == 4
        invariant forall k :: 0 <= k < i ==> |opticalDistance[k]| == n
        invariant forall k :: 0 <= k < i ==> opticalDistance[k] == AddHistograms(old(opticalDistance[k]), other.opticalDistance[k])
        invariant forall k :: i <= k < 4 ==> opticalDistance[k] == old(opticalDistance[k])
      {
        var merged := MergeHistogram(opticalDistance[i], other.opticalDistance[i]);
        opticalDistance := opticalDistance[i := merged];
      }
    }

    /** The library loop of Merge. */
    method AddLibraries(other: MetricsCollection)
      requires Unshared(libraryMetrics) && other != this
      requires Disjoint(libraryMetrics, other.libraryMetrics)
      modifies this`libraryMetrics, libraryMetrics.Values
      ensures Unshared(libraryMetrics) && Disjoint(libraryMetrics, other.libraryMetrics)
      ensures libraryMetrics.Keys == old(libraryMetrics.Keys) + other.libraryMetrics.Keys
      ensures CountersOf(libraryMetrics) == MergeLibraries(old(CountersOf(libraryMetrics)), old(CountersOf(other.libraryMetrics)))
      ensures CountersOf(other.libraryMetrics) == old(CountersOf(other.libraryMetrics))
    {
      ghost var lm0 := libraryMetrics;
      ghost var mine := CountersOf(libraryMetrics);
      var theirMetrics := other.libraryMetrics;
      ghost var theirs := CountersOf(theirMetrics);
      var pending := theirMetrics.Keys;
      ghost var done: map<string, Counts> := map[];
      while pending != {}
        invariant Progress(pending, done, theirs)
        invariant Merging(libraryMetrics, theirMetrics, mine, done, theirs)
        invariant Kept(lm0, libraryMetrics)
        decreases pending
      {
        var library :| library in pending;
        ProgressStep(pending, done, theirs, library);
        if library in libraryMetrics {
          AddToExisting(library, theirMetrics[library], theirMetrics, mine, done, theirs);
        } else {
          ghost var prev := libraryMetrics;
          AddCopy(library, theirMetrics[library], theirMetrics, mine, done, theirs);
          KeptTrans(lm0, prev, libraryMetrics);
        }
        done := done[library := theirs[library]];
        pending := pending - {library};
      }
      ProgressDone(done, theirs);
    }

    /** The library loop on a library already present: other's counters
      are added to its object, and the merge so far then covers the
      library too. */
    method AddToExisting(library: string, otherMetrics: Metrics, ghost theirMetrics: map<string, Metrics>,
                         ghost mine: map<string, Counts>, ghost done: map<string, Counts>, ghost theirs: map<string, Counts>)
      requires Merging(libraryMetrics, theirMetrics, mine, done, theirs)
      requires library in libraryMetrics && library in theirMetrics && library !in done && otherMetrics == theirMetrics[library]
      modifies libraryMetrics[library]
      ensures libraryMetrics == old(libraryMetrics)
      ensures Merging(libraryMetrics, theirMetrics, mine, done[library := theirs[library]], theirs)
    {
      MergeLibrariesStep(mine, done, library, theirs[library]);
      ghost var before := CountersOf(libraryMetrics);
      var existing := libraryMetrics[library];
      assert existing != otherMetrics;
      existing.Add(otherMetrics);
      forall k | k in theirMetrics
        ensures theirMetrics[k].Value() == theirs[k]
      {
        assert theirMetrics[k] != existing;
      }
      CountersOfPointwise(theirMetrics, theirs);
      ghost var after := before[library := Sum(before[library], theirs[library])];
      forall k | k in libraryMetrics
        ensures libraryMetrics[k].Value() == after[k]
      {
        if k != library {
          assert libraryMetrics[k] != existing;
        }
      }
      CountersOfPointwise(libraryMetrics, after);
    }

    /** The library loop on a new library: it gets a copy of other's
      object, and the merge so far then covers the library too. */
    method AddCopy(library: string, otherMetrics: Metrics, ghost theirMetrics: map<string, Metrics>,
                   ghost mine: map<string, Counts>, ghost done: map<string, Counts>, ghost theirs: map<string, Counts>)
      requires Merging(libraryMetrics, theirMetrics, mine, done, theirs)
      requires library !in libraryMetrics && library in theirMetrics && library !in done && otherMetrics == theirMetrics[library]
      modifies this`libraryMetrics
      ensures Merging(libraryMetrics, theirMetrics, mine, done[library := theirs[library]], theirs)
      ensures Kept(old(libraryMetrics), libraryMetrics)
      ensures libraryMetrics == old(libraryMetrics)[library := libraryMetrics[library]] && fresh(libraryMetrics[library])
    {
      MergeLibrariesStep(mine, done, library, theirs[library]);
      ghost var lm := libraryMetrics;
      ghost var before := CountersOf(lm);
      assert library !in mine;
      var copy := new Metrics.Copy(otherMetrics);
      libraryMetrics := libraryMetrics[library := copy];
      forall k | k in lm
        ensures lm[k] != copy && lm[k].Value() == before[k]
      {
      }
      forall k | k in theirMetrics
        ensures theirMetrics[k] != copy && theirMetrics[k].Value() == theirs[k]
      {
      }
      CountersOfPointwise(theirMetrics, theirs);
      AddApart(lm, theirMetrics, library, copy);
      CountersOfAdd(lm, before, library, copy, theirs[library]);
      KeptAdd(lm, library, copy);
    }

    /** AddDistance: counts one pair at the given distance in the bucket of
      its bag size, first growing every histogram to distance + 1 bins when
      the distance is past the end. */
    method AddDistance(bagSize: int, distance: nat)
      requires Valid()
      modifies this
      ensures Valid() && libraryMetrics == old(libraryMetrics)
      ensures |opticalDistance[0]| == if distance < |old(opticalDistance[0])| then |old(opticalDistance[0])| else distance + 1
      ensures forall i :: 0 <= i < 4 ==>
                opticalDistance[i] == Grow(old(opticalDistance[i]), distance + 1)[distance := At(old(opticalDistance[i]), distance) + (if i == Bucket(bagSize) then 1 else 0)]
    {
      if distance >= |opticalDistance[0]| {
        for i := 0 to 4
          invariant |opticalDistance| == 4 && libraryMetrics == old(libraryMetrics)
          invariant forall k :: 0 <= k < i ==> opticalDistance[k] == Grow(old(opticalDistance[k]), distance + 1)
          invariant forall k :: i <= k < 4 ==> opticalDistance[k] == old(opticalDistance[k])
        {
          var temp := seq(distance + 1, _ => 0);
          opticalDistance := opticalDistance[i := opticalDistance[i] + temp[|opticalDistance[i]|..]];
        }
      }
      assert forall k :: 0 <= k < 4 ==> opticalDistance[k] == Grow(old(opticalDistance[k]), distance + 1);
      assert forall k :: 0 <= k < 4 ==> distance < |opticalDistance[k]| && opticalDistance[k][distance] == At(old(opticalDistance[k]), distance);
      var b := Bucket(bagSize);
      opticalDistance := opticalDistance[b := opticalDistance[b][distance := opticalDistance[b][distance] + 1]];
    }
  }

  /** AddDistance records exactly one more pair, in the bag size's bucket. */
  lemma AddDistanceCountsOne(h: seq<int>, distance: nat)
    ensures Total(Grow(h, distance + 1)[distance := At(h, distance) + 1]) == Total(h) + 1
  {
    var g := Grow(h, distance + 1);
    TotalOfUpdate(g, distance, At(h, distance) + 1);
    TotalOfGrow(h, distance + 1);
  }

  /** Changing one bin changes the total by the difference. */
  lemma {:induction false} TotalOfUpdate(h: seq<int>, d: nat, v: int)
    requires d < |h|
    ensures Total(h[d := v]) == Total(h) - h[d] + v
  {
    if d > 0 {
      TotalOfUpdate(h[1..], d - 1, v);
      assert h[d := v][1..] == h[1..][d - 1 := v];
    }
  }

  /** Zero bins add nothing. */
  lemma TotalOfGrow(h: seq<int>, n: nat)
    ensures Total(Grow(h, n)) == Total(h)
  {
    TotalOfAddHistograms(h, seq(n, _ => 0));
    assert Grow(h, n) == AddHistograms(h, seq(n, _ => 0));
    TotalOfZeros(n);
  }

  lemma {:induction false} TotalOfZeros(n: nat)
    ensures Total(seq(n, _ => 0)) == 0
  {
    if n > 0 {
      assert seq(n, _ => 0)[1..] == seq(n - 1, _ => 0);
      TotalOfZeros(n - 1);
    }
  }
}
