/** The read-pair stitcher of the fusion caller (fusion/stitcher.go): R1 and
    the reverse-complemented R2 are aligned on a shared kmer and, when their
    overlap is similar enough, joined into one sequence running from the
    start of R1 to the end of R2. A small free pool recycles fragments. */
module FusionStitcher {
  import opened Wrappers
  import opened Ints
  import opened FusionPos
  import opened FusionFragment
  import opened FusionKmer
  import opened FusionUtil
  import opened BiosimdGeneric

  /** hammingDistance: the number of positions at which s1 and s2 differ;
      None where the source panics on unequal lengths. */
  method HammingDistanceOf(s1: seq<byte>, s2: seq<byte>) returns (r: Option<nat>)
    ensures r.Some? <==> |s1| == |s2|
    ensures r.Some? ==> r.value == Mismatches(s1, s2)
  {
    if |s1| != |s2| {
      return None;
    }
    var d := 0;
    var i := 0;
    while i < |s1|
      invariant 0 <= i <= |s1|
      invariant d == Mismatches(s1[..i], s2[..i])
    {
      assert s1[..i + 1][..i] == s1[..i] && s2[..i + 1][..i] == s2[..i];
      if s1[i] != s2[i] {
        d := d + 1;
      }
      i := i + 1;
    }
    assert s1[..i] == s1 && s2[..i] == s2;
    return Some(d);
  }

  /** Reads short enough that every coordinate of the stitcher is an R1
      position. */
  predicate ShortReads(r1: seq<byte>, r2: seq<byte>)
  {
    |r1| < R2_POS_OFFSET && |r2| < R2_POS_OFFSET
  }

  /** Positions of a shared kmer: a window of length k at r1Pos in R1 and at
      r2Pos in R2. */
  predicate KmerPositions(r1: seq<byte>, r2: seq<byte>, r1Pos: int, r2Pos: int, k: int)
  {
    1 <= k && 0 <= r1Pos && r1Pos + k <= |r1| && 0 <= r2Pos && r2Pos + k <= |r2|
  }

  /** With the kmer at coordinate 0, the overlap of the reads starts at the
      later of their starts and ends at the earlier of their ends. */
  function OverlapStart(r1Pos: int, r2Pos: int): int
  {
    MaxPos(0 - r1Pos, 0 - r2Pos)
  }

  function OverlapEnd(r1: seq<byte>, r2: seq<byte>, r1Pos: int, r2Pos: int): int
  {
    MinPos(|r1| - r1Pos, |r2| - r2Pos)
  }

  /** The reads overlap in at least the shared kmer, so the source's
      posSpan never panics and its "impossible" panic (overlap < kmerLength)
      is never reached; the overlap lies inside both reads. */
  lemma OverlapHoldsKmer(r1: seq<byte>, r2: seq<byte>, r1Pos: int, r2Pos: int, k: int)
    requires KmerPositions(r1, r2, r1Pos, r2Pos, k) && ShortReads(r1, r2)
    ensures var os, oe := OverlapStart(r1Pos, r2Pos), OverlapEnd(r1, r2, r1Pos, r2Pos);
            PosSpan(oe, os) == Some(oe - os) && oe - os >= k
            && 0 <= os + r1Pos && os + r1Pos + (oe - os) <= |r1|
            && 0 <= os + r2Pos && os + r2Pos + (oe - os) <= |r2|
  {
  }

  /** The mismatches between the overlapping parts of the reads. */
  function OverlapMismatches(r1: seq<byte>, r2: seq<byte>, r1Pos: int, r2Pos: int, k: int): nat
    requires KmerPositions(r1, r2, r1Pos, r2Pos, k) && ShortReads(r1, r2)
  {
    OverlapHoldsKmer(r1, r2, r1Pos, r2Pos, k);
    var os, oe := OverlapStart(r1Pos, r2Pos), OverlapEnd(r1, r2, r1Pos, r2Pos);
    Mismatches(r1[os + r1Pos..oe + r1Pos], r2[os + r2Pos..oe + r2Pos])
  }

  /** One candidate of tryStitch: the reads aligned on a shared kmer. None
      when more than a tenth of the overlap mismatches (float64(hd) /
      float64(overlap) > 0.1 decides the same as 10 hd > overlap for reads of
      these lengths). Otherwise the four cases of the source, each cutting
      the span from the start of R1 to the end of R2. */
  function StitchAt(r1: seq<byte>, r2: seq<byte>, r1Pos: int, r2Pos: int, k: int): Option<seq<byte>>
    requires KmerPositions(r1, r2, r1Pos, r2Pos, k) && ShortReads(r1, r2)
  {
    var r1Start, r1End := 0 - r1Pos, |r1| - r1Pos;
    var r2Start, r2End := 0 - r2Pos, |r2| - r2Pos;
    var overlap := OverlapEnd(r1, r2, r1Pos, r2Pos) - OverlapStart(r1Pos, r2Pos);
    if OverlapMismatches(r1, r2, r1Pos, r2Pos, k) * 10 > overlap then None
    else
      var stitchStart, stitchEnd := MinPos(r1Start, r2Start), MaxPos(r1End, r2End);
      if stitchStart == r1Start && stitchEnd == r1End then
        Some(r1[r1Start + r1Pos..r2End + r1Pos])
      else if stitchStart == r2Start && stitchEnd == r2End then
        Some(r2[r1Start + r2Pos..r2End + r2Pos])
      else if stitchStart == r1Start then
        Some(r1 + r2[r1End + r2Pos..r2End + r2Pos])
      else
        Some(r1[..r2End + r1Pos])
  }

  /** A candidate is rejected exactly when more than a tenth of its overlap
      mismatches. */
  lemma StitchAtRejects(r1: seq<byte>, r2: seq<byte>, r1Pos: int, r2Pos: int, k: int)
    requires KmerPositions(r1, r2, r1Pos, r2Pos, k) && ShortReads(r1, r2)
    ensures StitchAt(r1, r2, r1Pos, r2Pos, k).None? <==>
              OverlapMismatches(r1, r2, r1Pos, r2Pos, k) * 10
              > OverlapEnd(r1, r2, r1Pos, r2Pos) - OverlapStart(r1Pos, r2Pos)
  {
  }

  /** R2 reaches past both ends of R1 (and R1 does not cover R2). */
  predicate R2CoversR1(r1: seq<byte>, r2: seq<byte>, r1Pos: int, r2Pos: int)
  {
    !(r1Pos >= r2Pos && |r1| - r1Pos >= |r2| - r2Pos) && r2Pos >= r1Pos && |r2| - r2Pos >= |r1| - r1Pos
  }

  /** The stitched sequence runs from the start of R1 to the end of R2: its
      length is r1Pos + len(R2) - r2Pos. When R2 covers R1 it is the tail of
      R2 from R1's start; otherwise it takes R1's bases as far as R1 reaches
      and R2's bases after that. */
  lemma {:induction false} StitchAtLayout(r1: seq<byte>, r2: seq<byte>, r1Pos: int, r2Pos: int, k: int)
    requires KmerPositions(r1, r2, r1Pos, r2Pos, k) && ShortReads(r1, r2)
    requires StitchAt(r1, r2, r1Pos, r2Pos, k).Some?
    ensures var s := StitchAt(r1, r2, r1Pos, r2Pos, k).value;
            |s| == r1Pos + |r2| - r2Pos
            && (R2CoversR1(r1, r2, r1Pos, r2Pos) ==> s == r2[r2Pos - r1Pos..])
            && (!R2CoversR1(r1, r2, r1Pos, r2Pos) && |s| <= |r1| ==> s == r1[..|s|])
            && (!R2CoversR1(r1, r2, r1Pos, r2Pos) && |s| > |r1| ==>
                  s == r1 + r2[|r1| - r1Pos + r2Pos..])
  {
  }

  /** One iteration of tryStitch's loop over R1's kmers: the stitched
      sequence of the candidate, or None when its overlap is rejected. */
  method StitchCandidate(r1: seq<byte>, r2: seq<byte>, r1Pos: int, r2Pos: int, k: int)
    returns (r: Option<seq<byte>>)
    requires KmerPositions(r1, r2, r1Pos, r2Pos, k) && ShortReads(r1, r2)
    ensures r == StitchAt(r1, r2, r1Pos, r2Pos, k)
  {
    var r1Start, r1End := 0 - r1Pos, |r1| - r1Pos;
    var r2Start, r2End := 0 - r2Pos, |r2| - r2Pos;
    var overlapStart := MaxPos(r1Start, r2Start);
    var overlapEnd := MinPos(r1End, r2End);
    OverlapHoldsKmer(r1, r2, r1Pos, r2Pos, k);
    var overlap := PosSpan(overlapEnd, overlapStart).value;
    var r1Off, r2Off := overlapStart + r1Pos, overlapStart + r2Pos;
    var hd := HammingDistanceOf(r1[r1Off..r1Off + overlap], r2[r2Off..r2Off + overlap]);
    if hd.value * 10 > overlap {
      return None;
    }
    var stitchStart := MinPos(r1Start, r2Start);
    var stitchEnd := MaxPos(r1End, r2End);
    if stitchStart == r1Start && stitchEnd == r1End {
      r := Some(r1[r1Start + r1Pos..r2End + r1Pos]);
    } else if stitchStart == r2Start && stitchEnd == r2End {
      r := Some(r2[r1Start + r2Pos..r2End + r2Pos]);
    } else if stitchStart == r1Start {
      r := Some(r1 + r2[r1End + r2Pos..r2End + r2Pos]);
    } else {
      r := Some(r1[..r2End + r1Pos]);
    }
  }

  /** r2KmerMap after scanning the windows of s that start before n: each
      forward kmer maps to the last such window holding it. */
  function KmerMapUpTo(s: seq<byte>, k: nat, n: nat): map<int, int>
  {
    if n == 0 then map[]
    else
      var m := KmerMapUpTo(s, k, n - 1);
      if WindowOk(s, n - 1, k) then m[KmerValue(s[n - 1..n - 1 + k]) := n - 1] else m
  }

  /** r2KmerMap once every window of s has been scanned. */
  function KmerMap(s: seq<byte>, k: nat): map<int, int>
  {
    KmerMapUpTo(s, k, |s|)
  }

  /** Every entry of the map names a window before n holding that kmer, and
      no later window before n holds it. */
  predicate MapEntry(s: seq<byte>, k: nat, n: nat, m: map<int, int>, v: int)
    requires v in m
  {
    0 <= m[v] < n && WindowOk(s, m[v], k) && KmerValue(s[m[v]..m[v] + k]) == v
    && forall p :: m[v] < p < n && WindowOk(s, p, k) ==> KmerValue(s[p..p + k]) != v
  }

  lemma {:induction false} KmerMapEntries(s: seq<byte>, k: nat, n: nat)
    ensures forall v | v in KmerMapUpTo(s, k, n) :: MapEntry(s, k, n, KmerMapUpTo(s, k, n), v)
  {
    if n > 0 {
      KmerMapEntries(s, k, n - 1);
    }
  }

  /** Every window before n that holds only bases has its kmer in the map. */
  lemma {:induction false} KmerMapComplete(s: seq<byte>, k: nat, n: nat, p: nat)
    requires p < n && WindowOk(s, p, k)
    ensures KmerValue(s[p..p + k]) in KmerMapUpTo(s, k, n)
  {
    if p < n - 1 {
      KmerMapComplete(s, k, n - 1, p);
    }
  }

  /** Windows that do not hold only bases leave the map as it is. */
  lemma {:induction false} KmerMapSkip(s: seq<byte>, k: nat, lo: nat, hi: nat)
    requires lo <= hi
    requires forall p :: lo <= p < hi ==> !WindowOk(s, p, k)
    ensures KmerMapUpTo(s, k, hi) == KmerMapUpTo(s, k, lo)
    decreases hi
  {
    if lo < hi {
      assert !WindowOk(s, hi - 1, k);
      KmerMapSkip(s, k, lo, hi - 1);
    }
  }

  /** Every position in the map is the start of a window of length k in s. */
  predicate MapInRange(m: map<int, int>, k: nat, n: nat)
  {
    forall v | v in m :: 0 <= m[v] && m[v] + k <= n
  }

  lemma KmerMapInRange(s: seq<byte>, k: nat)
    ensures MapInRange(KmerMap(s, k), k, |s|)
  {
    KmerMapEntries(s, k, |s|);
  }

  /** tryStitch's loop over R1's kmers from window start `from` on, with the
      finished map m of R2's kmers: the first window that holds only bases,
      whose kmer is in m, and whose candidate is accepted gives the result. */
  /** What the window of R1 at p yields: nothing when its kmer is not in
      the map, else the stitch at the map's window of R2, if accepted. */
  function CandidateAt(r1: seq<byte>, r2: seq<byte>, k: nat, m: map<int, int>, p: nat): Option<seq<byte>>
    requires 1 <= k && ShortReads(r1, r2) && MapInRange(m, k, |r2|) && WindowOk(r1, p, k)
  {
    var v := KmerValue(r1[p..p + k]);
    if v in m then StitchAt(r1, r2, p, m[v], k) else None
  }

  function TryStitchFrom(r1: seq<byte>, r2: seq<byte>, k: nat, m: map<int, int>, from: nat): Option<seq<byte>>
    requires 1 <= k && ShortReads(r1, r2) && MapInRange(m, k, |r2|)
    decreases |r1| - from
  {
    if from + k > |r1| then None
    else if WindowOk(r1, from, k) && CandidateAt(r1, r2, k, m, from).Some? then CandidateAt(r1, r2, k, m, from)
    else TryStitchFrom(r1, r2, k, m, from + 1)
  }

  /** tryStitch: no result when either read is empty; otherwise the first
      accepted candidate along R1, each R1 kmer paired with the last window
      of R2 holding the same kmer. */
  function TryStitchSpec(r1: seq<byte>, r2: seq<byte>, k: nat): Option<seq<byte>>
    requires 1 <= k && ShortReads(r1, r2)
  {
    if r1 == [] || r2 == [] then None
    else
      KmerMapInRange(r2, k);
      TryStitchFrom(r1, r2, k, KmerMap(r2, k), 0)
  }

  /** Windows that do not hold only bases do not change the outcome. */
  lemma {:induction false} TryStitchFromSkip(r1: seq<byte>, r2: seq<byte>, k: nat, m: map<int, int>,
                                             lo: nat, hi: nat)
    requires 1 <= k && ShortReads(r1, r2) && MapInRange(m, k, |r2|)
    requires lo <= hi && forall p :: lo <= p < hi ==> !WindowOk(r1, p, k)
    ensures TryStitchFrom(r1, r2, k, m, lo) == TryStitchFrom(r1, r2, k, m, hi)
    decreases hi - lo
  {
    if lo < hi {
      assert !WindowOk(r1, lo, k);
      TryStitchFromSkip(r1, r2, k, m, lo + 1, hi);
    }
  }

  /** Without a window holding only bases there is no result. */
  lemma {:induction false} TryStitchFromNone(r1: seq<byte>, r2: seq<byte>, k: nat, m: map<int, int>, lo: nat)
    requires 1 <= k && ShortReads(r1, r2) && MapInRange(m, k, |r2|)
    requires forall p :: lo <= p ==> !WindowOk(r1, p, k)
    ensures TryStitchFrom(r1, r2, k, m, lo) == None
    decreases |r1| - lo
  {
    if lo + k <= |r1| {
      assert !WindowOk(r1, lo, k);
      TryStitchFromNone(r1, r2, k, m, lo + 1);
    }
  }

  /** A result of the search from `from` is the candidate of a window at or
      after from, and every earlier window from there on yields none; and a
      window at or after from that yields a candidate means a result. */
  lemma {:induction false} TryStitchFromFirst(r1: seq<byte>, r2: seq<byte>, k: nat, m: map<int, int>, from: nat)
    requires 1 <= k && ShortReads(r1, r2) && MapInRange(m, k, |r2|)
    ensures TryStitchFrom(r1, r2, k, m, from).Some? ==>
              exists p :: from <= p && WindowOk(r1, p, k)
                          && CandidateAt(r1, r2, k, m, p) == TryStitchFrom(r1, r2, k, m, from)
                          && forall q :: from <= q < p && WindowOk(r1, q, k) ==> CandidateAt(r1, r2, k, m, q).None?
    ensures forall p :: from <= p && WindowOk(r1, p, k) && CandidateAt(r1, r2, k, m, p).Some? ==>
              TryStitchFrom(r1, r2, k, m, from).Some?
    decreases |r1| - from
  {
    if from + k <= |r1| {
      TryStitchFromFirst(r1, r2, k, m, from + 1);
      if WindowOk(r1, from, k) && CandidateAt(r1, r2, k, m, from).Some? {
        assert from <= from && WindowOk(r1, from, k)
               && CandidateAt(r1, r2, k, m, from) == TryStitchFrom(r1, r2, k, m, from);
      } else if TryStitchFrom(r1, r2, k, m, from).Some? {
        var p :| from + 1 <= p && WindowOk(r1, p, k)
                 && CandidateAt(r1, r2, k, m, p) == TryStitchFrom(r1, r2, k, m, from + 1)
                 && forall q :: from + 1 <= q < p && WindowOk(r1, q, k) ==> CandidateAt(r1, r2, k, m, q).None?;
        assert from <= p && WindowOk(r1, p, k)
               && CandidateAt(r1, r2, k, m, p) == TryStitchFrom(r1, r2, k, m, from)
               && forall q :: from <= q < p && WindowOk(r1, q, k) ==> CandidateAt(r1, r2, k, m, q).None?;
      }
    }
  }

  /** The windows at p in R1 and at q in R2 hold the same kmer, and no
      later window of R2 holds it: q is the window r2KmerMap keeps for it. */
  ghost predicate LastShared(r1: seq<byte>, r2: seq<byte>, k: nat, p: nat, q: nat)
  {
    WindowOk(r1, p, k) && WindowOk(r2, q, k) && KmerValue(r2[q..q + k]) == KmerValue(r1[p..p + k])
    && forall q' :: q < q' && WindowOk(r2, q', k) ==> KmerValue(r2[q'..q' + k]) != KmerValue(r1[p..p + k])
  }

  /** The map's entry for the kmer of a window of R1 is the last window of
      R2 holding it. */
  lemma KmerMapIsLastShared(r1: seq<byte>, r2: seq<byte>, k: nat, p: nat, q: nat)
    requires 1 <= k && WindowOk(r1, p, k) && WindowOk(r2, q, k)
    ensures LastShared(r1, r2, k, p, q) <==>
              KmerValue(r1[p..p + k]) in KmerMap(r2, k) && KmerMap(r2, k)[KmerValue(r1[p..p + k])] == q
  {
    if LastShared(r1, r2, k, p, q) {
      LastSharedInMap(r1, r2, k, p, q);
    }
    var v := KmerValue(r1[p..p + k]);
    if v in KmerMap(r2, k) && KmerMap(r2, k)[v] == q {
      InMapLastShared(r1, r2, k, p, q);
    }
  }

  lemma LastSharedInMap(r1: seq<byte>, r2: seq<byte>, k: nat, p: nat, q: nat)
    requires 1 <= k && LastShared(r1, r2, k, p, q)
    ensures KmerValue(r1[p..p + k]) in KmerMap(r2, k) && KmerMap(r2, k)[KmerValue(r1[p..p + k])] == q
  {
    var v, m := KmerValue(r1[p..p + k]), KmerMap(r2, k);
    KmerMapEntries(r2, k, |r2|);
    KmerMapComplete(r2, k, |r2|, q);
    assert MapEntry(r2, k, |r2|, m, v);
    var e := m[v];
    assert e >= q by {
      assert KmerValue(r2[q..q + k]) == v;
    }
    assert e <= q by {
      assert KmerValue(r2[e..e + k]) == v;
    }
  }

  lemma InMapLastShared(r1: seq<byte>, r2: seq<byte>, k: nat, p: nat, q: nat)
    requires 1 <= k && WindowOk(r1, p, k) && WindowOk(r2, q, k)
    requires KmerValue(r1[p..p + k]) in KmerMap(r2, k) && KmerMap(r2, k)[KmerValue(r1[p..p + k])] == q
    ensures LastShared(r1, r2, k, p, q)
  {
    var v, m := KmerValue(r1[p..p + k]), KmerMap(r2, k);
    KmerMapEntries(r2, k, |r2|);
    assert MapEntry(r2, k, |r2|, m, v);
    forall q' | q < q' && WindowOk(r2, q', k)
      ensures KmerValue(r2[q'..q' + k]) != v
    {
      assert q' < |r2|;
    }
  }

  /** The map's entry for a kmer is a window of R2. */
  lemma KmerMapHit(r2: seq<byte>, k: nat, v: int)
    requires v in KmerMap(r2, k)
    ensures 0 <= KmerMap(r2, k)[v] && WindowOk(r2, KmerMap(r2, k)[v], k)
  {
    KmerMapEntries(r2, k, |r2|);
    assert MapEntry(r2, k, |r2|, KmerMap(r2, k), v);
  }

  /** The candidate of a window of R1 is the stitch at the last window of R2
      sharing its kmer. */
  lemma CandidateOfLastShared(r1: seq<byte>, r2: seq<byte>, k: nat, p: nat, q: nat)
    requires 1 <= k && ShortReads(r1, r2) && MapInRange(KmerMap(r2, k), k, |r2|)
    requires LastShared(r1, r2, k, p, q)
    ensures CandidateAt(r1, r2, k, KmerMap(r2, k), p) == StitchAt(r1, r2, p, q, k)
  {
    KmerMapIsLastShared(r1, r2, k, p, q);
  }

  /** tryStitch yields a stitch only as the accepted stitch at a window of
      R1 and the last window of R2 sharing its kmer, with no earlier window
      of R1 accepted. */
  lemma TryStitchSound(r1: seq<byte>, r2: seq<byte>, k: nat)
    requires 1 <= k && ShortReads(r1, r2)
    ensures TryStitchSpec(r1, r2, k).Some? ==>
              exists p: nat, q: nat :: LastShared(r1, r2, k, p, q) && StitchAt(r1, r2, p, q, k) == TryStitchSpec(r1, r2, k)
                             && forall p': nat, q': nat :: p' < p && LastShared(r1, r2, k, p', q') ==>
                                                 StitchAt(r1, r2, p', q', k).None?
  {
    if TryStitchSpec(r1, r2, k).Some? {
      var m := KmerMap(r2, k);
      KmerMapInRange(r2, k);
      TryStitchFromFirst(r1, r2, k, m, 0);
      var p :| 0 <= p && WindowOk(r1, p, k)
               && CandidateAt(r1, r2, k, m, p) == TryStitchFrom(r1, r2, k, m, 0)
               && forall q :: 0 <= q < p && WindowOk(r1, q, k) ==> CandidateAt(r1, r2, k, m, q).None?;
      var v := KmerValue(r1[p..p + k]);
      KmerMapHit(r2, k, v);
      var q := m[v];
      KmerMapIsLastShared(r1, r2, k, p, q);
      CandidateOfLastShared(r1, r2, k, p, q);
      forall p': nat, q': nat | p' < p && LastShared(r1, r2, k, p', q')
        ensures StitchAt(r1, r2, p', q', k).None?
      {
        CandidateOfLastShared(r1, r2, k, p', q');
      }
      assert LastShared(r1, r2, k, p, q) && StitchAt(r1, r2, p, q, k) == TryStitchSpec(r1, r2, k);
    }
  }

  /** An accepted stitch at a window of R1 and the last window of R2
      sharing its kmer means tryStitch yields a stitch. */
  lemma TryStitchComplete(r1: seq<byte>, r2: seq<byte>, k: nat, p: nat, q: nat)
    requires 1 <= k && ShortReads(r1, r2)
    requires LastShared(r1, r2, k, p, q) && StitchAt(r1, r2, p, q, k).Some?
    ensures TryStitchSpec(r1, r2, k).Some?
  {
    KmerMapInRange(r2, k);
    CandidateOfLastShared(r1, r2, k, p, q);
    TryStitchFromFirst(r1, r2, k, KmerMap(r2, k), 0);
  }

  /** The state of tryStitch's loop over R2: while Scan returns true, cur
      holds the window at si - 1, not yet entered, and m the windows before
      it; once Scan returns false, m is the whole map. */
  ghost predicate MapScanInv(s: seq<byte>, k: nat, more: bool, si: int, cur: KmersAtPos, m: map<int, int>)
  {
    (more ==> si >= 1 && WindowOk(s, si - 1, k) && cur == KmersAt(s, si - 1, k)
              && m == KmerMapUpTo(s, k, si - 1))
    && (!more ==> m == KmerMap(s, k))
  }

  /** After a Scan from `from`, with the windows before `from` entered. */
  lemma MapAfterScan(s: seq<byte>, k: nat, from: nat, more: bool, si: int, cur: KmersAtPos, m: map<int, int>)
    requires from <= |s| && m == KmerMapUpTo(s, k, from)
    requires ScanOutcome(s, from, k, more, si, cur)
    ensures MapScanInv(s, k, more, si, cur, m)
  {
    FirstWindowIsFirst(s, from, k);
    if more {
      KmerMapSkip(s, k, from, si - 1);
    } else {
      KmerMapSkip(s, k, from, |s|);
    }
  }

  /** Entering the current window and scanning on keeps MapScanInv. */
  lemma MapScanStep(s: seq<byte>, k: nat, si: int, cur: KmersAtPos, m: map<int, int>,
                    more': bool, si': int, cur': KmersAtPos)
    requires 1 <= k && MapScanInv(s, k, true, si, cur, m)
    requires ScanOutcome(s, si, k, more', si', cur')
    ensures MapScanInv(s, k, more', si', cur', m[cur.forward := cur.pos])
    ensures more' ==> si' > si
  {
    KmerMapNext(s, k, si - 1);
    FirstWindowIsFirst(s, si, k);
    MapAfterScan(s, k, si, more', si', cur', m[cur.forward := cur.pos]);
  }

  /** Entering the window at p. */
  lemma KmerMapNext(s: seq<byte>, k: nat, p: nat)
    requires WindowOk(s, p, k)
    ensures KmerMapUpTo(s, k, p + 1) == KmerMapUpTo(s, k, p)[KmersAt(s, p, k).forward := p]
  {
  }

  /** The state of tryStitch's loop over R1: while Scan returns true, cur
      holds the window at si - 1 and the outcome from there on is the
      outcome from the start; once it returns false, there is none. */
  ghost predicate StitchScanInv(r1: seq<byte>, r2: seq<byte>, k: nat, m: map<int, int>,
                                more: bool, si: int, cur: KmersAtPos)
    requires 1 <= k && ShortReads(r1, r2) && MapInRange(m, k, |r2|)
  {
    (more ==> si >= 1 && WindowOk(r1, si - 1, k) && cur == KmersAt(r1, si - 1, k)
              && TryStitchFrom(r1, r2, k, m, si - 1) == TryStitchFrom(r1, r2, k, m, 0))
    && (!more ==> TryStitchFrom(r1, r2, k, m, 0) == None)
  }

  lemma StitchAfterScan(r1: seq<byte>, r2: seq<byte>, k: nat, m: map<int, int>, from: nat,
                        more: bool, si: int, cur: KmersAtPos)
    requires 1 <= k && ShortReads(r1, r2) && MapInRange(m, k, |r2|)
    requires TryStitchFrom(r1, r2, k, m, from) == TryStitchFrom(r1, r2, k, m, 0)
    requires ScanOutcome(r1, from, k, more, si, cur)
    ensures StitchScanInv(r1, r2, k, m, more, si, cur)
  {
    FirstWindowIsFirst(r1, from, k);
    if more {
      TryStitchFromSkip(r1, r2, k, m, from, si - 1);
    } else {
      TryStitchFromNone(r1, r2, k, m, from);
    }
  }

  /** The window Scan stopped at is the one CandidateAt looks at. */
  lemma StitchScanWindow(r1: seq<byte>, r2: seq<byte>, k: nat, m: map<int, int>, si: int, cur: KmersAtPos)
    requires 1 <= k && ShortReads(r1, r2) && MapInRange(m, k, |r2|)
    requires StitchScanInv(r1, r2, k, m, true, si, cur)
    ensures cur.pos == si - 1 && si - 1 + k <= |r1|
    ensures cur.forward in m ==> KmerPositions(r1, r2, cur.pos, m[cur.forward], k)
                                 && CandidateAt(r1, r2, k, m, si - 1) == StitchAt(r1, r2, cur.pos, m[cur.forward], k)
    ensures cur.forward !in m ==> CandidateAt(r1, r2, k, m, si - 1) == None
  {
  }

  /** A rejected or unmatched window passes the search on to the next one. */
  lemma StitchScanStep(r1: seq<byte>, r2: seq<byte>, k: nat, m: map<int, int>, si: int, cur: KmersAtPos,
                       more': bool, si': int, cur': KmersAtPos)
    requires 1 <= k && ShortReads(r1, r2) && MapInRange(m, k, |r2|)
    requires StitchScanInv(r1, r2, k, m, true, si, cur)
    requires CandidateAt(r1, r2, k, m, si - 1).None?
    requires ScanOutcome(r1, si, k, more', si', cur')
    ensures StitchScanInv(r1, r2, k, m, more', si', cur')
    ensures more' ==> si' > si
  {
    FirstWindowIsFirst(r1, si, k);
    StitchAfterScan(r1, r2, k, m, si, more', si', cur');
  }

  /** An accepted window ends the search. */
  lemma StitchScanFound(r1: seq<byte>, r2: seq<byte>, k: nat, m: map<int, int>, si: int, cur: KmersAtPos)
    requires 1 <= k && ShortReads(r1, r2) && MapInRange(m, k, |r2|)
    requires StitchScanInv(r1, r2, k, m, true, si, cur)
    requires CandidateAt(r1, r2, k, m, si - 1).Some?
    ensures TryStitchFrom(r1, r2, k, m, 0) == CandidateAt(r1, r2, k, m, si - 1)
  {
  }

  const MAX_FREE_POOL: nat := 5
  const EMPTY_FRAGMENT: Fragment := Fragment([], [], [])

  /** The two Stats counters Stitch updates. */
  datatype StitchStats = StitchStats(lowComplexityReadsStitched: nat, stitched: nat)

  class Stitcher {
    const kmerLength: int
    /** lowComplexityFraction, as the exact ratio lcNum / lcDen. */
    const lcNum: int
    const lcDen: int
    const kmerizer: Kmerizer
    var r2KmerMap: map<int, int>
    var freePool: seq<Fragment>

    /** The kmerizer matches the kmer length, and the free pool holds at
        most MAX_FREE_POOL fragments, all emptied. */
    ghost predicate Valid()
      reads this, kmerizer
    {
      1 <= kmerLength <= MAX_KMER_LENGTH && lcDen > 0
      && kmerizer.Valid() && kmerizer.kmerLength == kmerLength
      && |freePool| <= MAX_FREE_POOL
      && forall i :: 0 <= i < |freePool| ==> freePool[i] == EMPTY_FRAGMENT
    }

    /** NewStitcher. */
    constructor (k: int, num: int, den: int)
      requires 1 <= k <= MAX_KMER_LENGTH && den > 0
      ensures Valid() && kmerLength == k && lcNum == num && lcDen == den
      ensures r2KmerMap == map[] && freePool == [] && fresh(kmerizer)
    {
      kmerLength, lcNum, lcDen := k, num, den;
      kmerizer := new Kmerizer(k);
      r2KmerMap := map[];
      freePool := [];
    }

    /** FreeFragment: an emptied fragment joins the pool unless it already
        holds five. */
    method FreeFragment(f: Fragment)
      requires Valid()
      modifies this
      ensures Valid()
      ensures r2KmerMap == old(r2KmerMap)
      ensures freePool == if |old(freePool)| > 4 then old(freePool) else old(freePool) + [EMPTY_FRAGMENT]
    {
      if |freePool| > 4 {
        return;
      }
      freePool := freePool + [EMPTY_FRAGMENT];
    }

    /** allocFragment: the last pooled fragment, or a new one; either way an
        empty fragment. */
    method AllocFragment() returns (f: Fragment)
      requires Valid()
      modifies this
      ensures Valid()
      ensures r2KmerMap == old(r2KmerMap)
      ensures freePool == if old(freePool) == [] then [] else old(freePool)[..|old(freePool)| - 1]
      ensures f == EMPTY_FRAGMENT
    {
      var l := |freePool|;
      if l > 0 {
        f := freePool[l - 1];
        freePool := freePool[..l - 1];
        return;
      }
      return EMPTY_FRAGMENT;
    }

    /** Stitch, without the fragment's kmer list: the name is kept; an
        unstitched pair keeps both reads; a stitched sequence becomes R1 with
        an empty R2, or ("N", "") when it is low complexity. */
    method Stitch(name: seq<byte>, r1Seq: seq<byte>, r2Seq: seq<byte>, stats: StitchStats)
      returns (frag: Fragment, newStats: StitchStats)
      requires Valid() && ShortReads(r1Seq, r2Seq)
      modifies this, kmerizer
      ensures Valid()
      ensures freePool == if old(freePool) == [] then [] else old(freePool)[..|old(freePool)| - 1]
      ensures var st := TryStitchSpec(r1Seq, r2Seq, kmerLength);
              && (st.None? ==> frag == Fragment(name, r1Seq, r2Seq) && newStats == stats)
              && (st.Some? && LowComplexity(st.value, lcNum, lcDen) ==>
                    frag == Fragment(name, [ASCII_N], [])
                    && newStats == StitchStats(stats.lowComplexityReadsStitched + 1, stats.stitched + 1))
              && (st.Some? && !LowComplexity(st.value, lcNum, lcDen) ==>
                    frag == Fragment(name, st.value, []) && newStats == stats.(stitched := stats.stitched + 1))
    {
      frag := AllocFragment();
      frag := frag.(name := name);
      var stitchedSeq, ok := TryStitch(r1Seq, r2Seq);
      newStats := stats;
      if !ok {
        frag := frag.(r1Seq := r1Seq, r2Seq := r2Seq);
        return;
      }
      var low := IsLowComplexity(stitchedSeq, lcNum, lcDen);
      if low {
        newStats := StitchStats(stats.lowComplexityReadsStitched + 1, stats.stitched + 1);
        frag := frag.(r1Seq := [ASCII_N]);
      } else {
        newStats := stats.(stitched := stats.stitched + 1);
        frag := frag.(r1Seq := stitchedSeq);
      }
    }

    /** The first half of tryStitch: R2's kmers go into r2KmerMap, the last
        window holding a kmer winning. */
    method BuildR2KmerMap(r2Seq: seq<byte>)
      requires Valid()
      modifies this, kmerizer
      ensures Valid()
      ensures freePool == old(freePool)
      ensures r2KmerMap == KmerMap(r2Seq, kmerLength)
    {
      var k, kz := kmerLength, kmerizer;
      r2KmerMap := map[];
      kz.Reset(r2Seq);
      var more := kz.Scan();
      MapAfterScan(r2Seq, k, 0, more, kz.si, kz.cur, r2KmerMap);
      while more
        invariant kz == kmerizer && k == kmerLength && freePool == old(freePool)
        invariant kz.Valid() && kz.kmerLength == k && kz.s == r2Seq
        invariant MapScanInv(r2Seq, k, more, kz.si, kz.cur, r2KmerMap)
        decreases if more then |r2Seq| + 1 - kz.si else 0
      {
        var km := kz.cur;
        ghost var m, si := r2KmerMap, kz.si;
        r2KmerMap := r2KmerMap[km.forward := km.pos];
        more := kz.Scan();
        MapScanStep(r2Seq, k, si, km, m, more, kz.si, kz.cur);
      }
    }

    /** The second half of tryStitch: R1's kmers are looked up in r2KmerMap
        in order, and the first accepted candidate is the result. */
    method StitchFromR1(r1Seq: seq<byte>, r2Seq: seq<byte>) returns (stitched: seq<byte>, ok: bool)
      requires Valid() && ShortReads(r1Seq, r2Seq) && r2KmerMap == KmerMap(r2Seq, kmerLength)
      modifies kmerizer
      ensures Valid()
      ensures MapInRange(r2KmerMap, kmerLength, |r2Seq|)
      ensures ok <==> TryStitchFrom(r1Seq, r2Seq, kmerLength, r2KmerMap, 0).Some?
      ensures ok ==> stitched == TryStitchFrom(r1Seq, r2Seq, kmerLength, r2KmerMap, 0).value
      ensures !ok ==> stitched == []
    {
      var k, kz := kmerLength, kmerizer;
      KmerMapInRange(r2Seq, k);
      kz.Reset(r1Seq);
      var more := kz.Scan();
      StitchAfterScan(r1Seq, r2Seq, k, r2KmerMap, 0, more, kz.si, kz.cur);
      while more
        invariant kz.Valid() && kz.kmerLength == k && kz.s == r1Seq
        invariant StitchScanInv(r1Seq, r2Seq, k, r2KmerMap, more, kz.si, kz.cur)
        decreases if more then |r1Seq| + 1 - kz.si else 0
      {
        var k1 := kz.cur;
        ghost var si := kz.si;
        StitchScanWindow(r1Seq, r2Seq, k, r2KmerMap, si, k1);
        var cand := None;
        if k1.forward in r2KmerMap {
          cand := StitchCandidate(r1Seq, r2Seq, k1.pos, r2KmerMap[k1.forward], k);
        }
        if cand.Some? {
          StitchScanFound(r1Seq, r2Seq, k, r2KmerMap, si, k1);
          return cand.value, true;
        }
        more := kz.Scan();
        StitchScanStep(r1Seq, r2Seq, k, r2KmerMap, si, k1, more, kz.si, kz.cur);
      }
      return [], false;
    }

    /** tryStitch: no stitch when either read is empty; otherwise R2's kmer
        map is built and R1's windows are tried against it in order. */
    method TryStitch(r1Seq: seq<byte>, r2Seq: seq<byte>) returns (stitched: seq<byte>, ok: bool)
      requires Valid() && ShortReads(r1Seq, r2Seq)
      modifies this, kmerizer
      ensures Valid()
      ensures freePool == old(freePool)
      ensures ok <==> TryStitchSpec(r1Seq, r2Seq, kmerLength).Some?
      ensures ok ==> stitched == TryStitchSpec(r1Seq, r2Seq, kmerLength).value
      ensures !ok ==> stitched == []
    {
      if r1Seq == [] || r2Seq == [] {
        return [], false;
      }
      BuildR2KmerMap(r2Seq);
      stitched, ok := StitchFromR1(r1Seq, r2Seq);
    }
  }
}
