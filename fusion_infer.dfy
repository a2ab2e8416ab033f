/** Pieces of the fusion detector (fusion/fusion.go): the prefix and suffix
    span sums of a gene's fragment ranges, the per-read span totals of a
    gene, the order of gene range infos, and the order of fusion
    candidates. */
module FusionInfer {
  import opened Wrappers
  import opened FusionPos
  import opened KeyedSort

  /** PosRange.span does not panic on r. */
  predicate SpanOk(r: PosRange)
  {
    PosSpan(r.end, r.start).Some?
  }

  function Span(r: PosRange): int
    requires SpanOk(r)
  {
    PosSpan(r.end, r.start).value
  }

  predicate SpansOkBelow(rs: seq<PosRange>, n: int)
  {
    forall i :: 0 <= i < n && i < |rs| ==> SpanOk(rs[i])
  }

  predicate SpansOkFrom(rs: seq<PosRange>, n: int)
  {
    forall i :: n <= i < |rs| && 0 <= i ==> SpanOk(rs[i])
  }

  /** The spans of rs[0], ..., rs[n - 1] summed. */
  function SpanSumTo(rs: seq<PosRange>, n: nat): int
    requires n <= |rs| && SpansOkBelow(rs, n)
  {
    if n == 0 then 0 else SpanSumTo(rs, n - 1) + Span(rs[n - 1])
  }

  /** The spans of rs[n], ..., rs[|rs| - 1] summed. */
  function SpanSumFrom(rs: seq<PosRange>, n: nat): int
    requires n <= |rs| && SpansOkFrom(rs, n)
    decreases |rs| - n
  {
    if n == |rs| then 0 else Span(rs[n]) + SpanSumFrom(rs, n + 1)
  }

  /** The sum up to n and the sum from n make up the whole. */
  lemma {:induction false} SpanSumSplit(rs: seq<PosRange>, n: nat)
    requires n <= |rs| && SpansOkBelow(rs, |rs|)
    ensures SpanSumTo(rs, n) + SpanSumFrom(rs, n) == SpanSumTo(rs, |rs|)
    decreases |rs| - n
  {
    if n < |rs| {
      SpanSumSplit(rs, n + 1);
    }
  }

  /** Spans are never negative, so the prefix sums never decrease. */
  lemma {:induction false} SpanSumToMonotone(rs: seq<PosRange>, m: nat, n: nat)
    requires m <= n <= |rs| && SpansOkBelow(rs, n)
    ensures SpanSumTo(rs, m) <= SpanSumTo(rs, n)
    decreases n
  {
    if m < n {
      SpanSumToMonotone(rs, m, n - 1);
    }
  }

  /** prefixLength: ll[i] is the sum of the spans of ranges[0..i]; None
      where a span panics. */
  method PrefixLength(ranges: seq<PosRange>) returns (ll: Option<seq<int>>)
    ensures ll.Some? <==> SpansOkBelow(ranges, |ranges|)
    ensures ll.Some? ==> |ll.value| == |ranges|
                         && forall i :: 0 <= i < |ranges| ==> ll.value[i] == SpanSumTo(ranges, i + 1)
  {
    if |ranges| == 0 {
      return Some([]);
    }
    var a := new int[|ranges|];
    var s := PosSpan(ranges[0].end, ranges[0].start);
    if s.None? {
      return None;
    }
    a[0] := s.value;
    var i := 1;
    while i < |ranges|
      invariant 1 <= i <= |ranges|
      invariant SpansOkBelow(ranges, i)
      invariant forall j :: 0 <= j < i ==> a[j] == SpanSumTo(ranges, j + 1)
    {
      s := PosSpan(ranges[i].end, ranges[i].start);
      if s.None? {
        return None;
      }
      a[i] := a[i - 1] + s.value;
      i := i + 1;
    }
    return Some(a[..]);
  }

  /** suffixLength: ll[i] is the sum of the spans of ranges[i..]; None
      where a span panics. */
  method SuffixLength(ranges: seq<PosRange>) returns (ll: Option<seq<int>>)
    ensures ll.Some? <==> SpansOkBelow(ranges, |ranges|)
    ensures ll.Some? ==> |ll.value| == |ranges|
                         && forall i :: 0 <= i < |ranges| ==> ll.value[i] == SpanSumFrom(ranges, i)
  {
    var n := |ranges|;
    if n == 0 {
      return Some([]);
    }
    var a := new int[n];
    var s := PosSpan(ranges[n - 1].end, ranges[n - 1].start);
    if s.None? {
      return None;
    }
    a[n - 1] := s.value;
    var i := n - 2;
    while i >= 0
      invariant -1 <= i <= n - 2
      invariant SpansOkFrom(ranges, i + 1)
      invariant forall j :: i + 1 <= j < n ==> a[j] == SpanSumFrom(ranges, j)
    {
      s := PosSpan(ranges[i].end, ranges[i].start);
      if s.None? {
        return None;
      }
      a[i] := a[i + 1] + s.value;
      i := i - 1;
    }
    return Some(a[..]);
  }

  /** The last prefix sum and the first suffix sum are both the total span,
      and a prefix sum plus the following suffix sum is the total too. */
  lemma PrefixMeetsSuffix(rs: seq<PosRange>, i: nat)
    requires SpansOkBelow(rs, |rs|) && i < |rs|
    ensures SpanSumFrom(rs, 0) == SpanSumTo(rs, |rs|)
    ensures SpanSumTo(rs, i + 1) + SpanSumFrom(rs, i + 1) == SpanSumTo(rs, |rs|)
  {
    SpanSumSplit(rs, 0);
    SpanSumSplit(rs, i + 1);
  }

  /** geneRangeInfo: a gene, its R1 and R2 span totals, and its ranges. */
  datatype GeneRangeInfo = GeneRangeInfo(geneID: int, r1Span: int, r2Span: int, ranges: seq<PosRange>)

  /** The spans of the ranges among the first n that lie in read t. */
  function ReadSpanSum(rs: seq<PosRange>, n: nat, t: ReadType): int
    requires n <= |rs| && SpansOkBelow(rs, n)
  {
    if n == 0 then 0
    else ReadSpanSum(rs, n - 1, t) + (if ReadTypeOf(rs[n - 1].start) == t then Span(rs[n - 1]) else 0)
  }

  /** Every range lies in R1 or R2, so the two totals add up to the whole. */
  lemma {:induction false} ReadSpansTotal(rs: seq<PosRange>, n: nat)
    requires n <= |rs| && SpansOkBelow(rs, n)
    ensures ReadSpanSum(rs, n, R1) + ReadSpanSum(rs, n, R2) == SpanSumTo(rs, n)
  {
    if n > 0 {
      ReadSpansTotal(rs, n - 1);
    }
  }

  /** The loop of inferGeneRangeInfo building one gene's info: each range's
      span goes to the total of its read; None where readType or span
      panics. */
  method NewGeneRangeInfo(geneID: int, ranges: seq<PosRange>) returns (ri: Option<GeneRangeInfo>)
    ensures ri.Some? <==> SpansOkBelow(ranges, |ranges|)
    ensures ri.Some? ==> ri.value.geneID == geneID && ri.value.ranges == ranges
                         && ri.value.r1Span == ReadSpanSum(ranges, |ranges|, R1)
                         && ri.value.r2Span == ReadSpanSum(ranges, |ranges|, R2)
  {
    var r1Span, r2Span := 0, 0;
    var i := 0;
    while i < |ranges|
      invariant 0 <= i <= |ranges| && SpansOkBelow(ranges, i)
      invariant r1Span == ReadSpanSum(ranges, i, R1) && r2Span == ReadSpanSum(ranges, i, R2)
    {
      var rr := ranges[i];
      var t := RangeReadType(rr);
      if t.None? {
        return None;
      }
      var s := PosSpan(rr.end, rr.start);
      if s.None? {
        return None;
      }
      if t.value == R1 {
        r1Span := r1Span + s.value;
      } else {
        r2Span := r2Span + s.value;
      }
      i := i + 1;
    }
    return Some(GeneRangeInfo(geneID, r1Span, r2Span, ranges));
  }

  function TotalSpan(g: GeneRangeInfo): int
  {
    g.r1Span + g.r2Span
  }

  /** The comparator of inferGeneRangeInfo's sort: larger total span first,
      then smaller gene ID. */
  predicate GeneRangeBefore(a: GeneRangeInfo, b: GeneRangeInfo)
  {
    if TotalSpan(a) != TotalSpan(b) then TotalSpan(a) > TotalSpan(b) else a.geneID < b.geneID
  }

  /** The comparator is a strict order, total between infos of different
      genes. */
  lemma GeneRangeBeforeOrder(a: GeneRangeInfo, b: GeneRangeInfo, c: GeneRangeInfo)
    ensures !GeneRangeBefore(a, a)
    ensures GeneRangeBefore(a, b) ==> !GeneRangeBefore(b, a)
    ensures GeneRangeBefore(a, b) && GeneRangeBefore(b, c) ==> GeneRangeBefore(a, c)
    ensures a.geneID != b.geneID ==> GeneRangeBefore(a, b) || GeneRangeBefore(b, a)
  {
  }

  predicate SortedGeneRanges(s: seq<GeneRangeInfo>)
  {
    forall i, j :: 0 <= i < j < |s| ==> GeneRangeBefore(s[i], s[j])
  }

  /** Two sorted vectors of the same infos are equal: the order in which
      the gene map is iterated does not show in the sorted vector. */
  lemma {:induction false} SortedGeneRangesUnique(a: seq<GeneRangeInfo>, b: seq<GeneRangeInfo>)
    requires SortedGeneRanges(a) && SortedGeneRanges(b) && multiset(a) == multiset(b)
    ensures a == b
    decreases |a|
  {
    if a != [] {
      assert |b| == |multiset(b)| == |a|;
      assert a[0] in multiset(b) && b[0] in multiset(a);
      var i :| 0 <= i < |a| && a[i] == b[0];
      var j :| 0 <= j < |b| && b[j] == a[0];
      assert i == 0 || GeneRangeBefore(a[0], b[0]);
      assert j == 0 || GeneRangeBefore(b[0], a[0]);
      GeneRangeBeforeOrder(a[0], b[0], a[0]);
      assert a[0] == b[0];
      assert a == [a[0]] + a[1..];
      assert b == [b[0]] + b[1..];
      assert multiset(a) == multiset{a[0]} + multiset(a[1..]);
      assert multiset(b) == multiset{a[0]} + multiset(b[1..]);
      assert multiset(a[1..]) == multiset(a) - multiset{a[0]};
      assert multiset(b[1..]) == multiset(b) - multiset{a[0]};
      SortedGeneRangesUnique(a[1..], b[1..]);
    }
  }

  /** FusionInfo, without the ranges and the order flag. */
  datatype FusionInfo = FusionInfo(g1ID: int, g2ID: int, g1Span: int, g2Span: int, jointSpan: int)

  function JointSpanKey(f: FusionInfo): int
  {
    f.jointSpan
  }

  /** The sort.SliceStable of inferCandidatePair: larger joint span first,
      ties in their original order. */
  function SortByJointSpan(v: seq<FusionInfo>): seq<FusionInfo>
  {
    StableSortDesc(v, JointSpanKey)
  }

  /** The sorted candidates are the same candidates, by non-increasing
      joint span, and those with equal joint spans keep their order; and no
      other sequence has these three properties. */
  lemma SortByJointSpanCorrect(v: seq<FusionInfo>, w: seq<FusionInfo>)
    ensures SortedDesc(SortByJointSpan(v), JointSpanKey)
    ensures multiset(SortByJointSpan(v)) == multiset(v)
    ensures forall k :: WithKey(SortByJointSpan(v), JointSpanKey, k) == WithKey(v, JointSpanKey, k)
    ensures SortedDesc(w, JointSpanKey) && (forall k :: WithKey(w, JointSpanKey, k) == WithKey(v, JointSpanKey, k))
            ==> w == SortByJointSpan(v)
  {
    StableSortDescCorrect(v, JointSpanKey);
    if SortedDesc(w, JointSpanKey) && (forall k :: WithKey(w, JointSpanKey, k) == WithKey(v, JointSpanKey, k)) {
      SortedDescUnique(w, SortByJointSpan(v), JointSpanKey);
    }
  }
}
