/** The range lists and the reverse complement of
    fusion/parsegencode/parsegencode.go: closed genomic ranges collected
    into a list that merges a new range into the last one when they touch,
    collapsing and reversing such lists in place, and the reverse
    complement of a transcript sequence. */
module GencodeRanges {
  import opened Wrappers
  import opened Ints

  /** genomicRange: both ends closed. */
  datatype GenomicRange = GenomicRange(start: int, stop: int)
  {
    predicate Valid() { start <= stop }
    predicate Contains(x: int) { start <= x <= stop }
  }

  /** a and b overlap or are adjacent: no position lies between them. */
  predicate Touches(a: GenomicRange, b: GenomicRange)
  {
    a.start <= b.stop + 1 && b.start <= a.stop + 1
  }

  /** The smallest range holding a and b. */
  function Hull(a: GenomicRange, b: GenomicRange): GenomicRange
  {
    GenomicRange(Min(a.start, b.start), Max(a.stop, b.stop))
  }

  /** The positions of a range list. */
  predicate Covers(g: seq<GenomicRange>, x: int)
  {
    exists i :: 0 <= i < |g| && g[i].Contains(x)
  }

  /** overlaps: the union of the last range of g with r when the two touch;
      None otherwise, and for an empty list. */
  function Overlaps(g: seq<GenomicRange>, r: GenomicRange): (u: Option<GenomicRange>)
    ensures |g| == 0 ==> u.None?
    ensures |g| > 0 && g[|g| - 1].Valid() && r.Valid() ==> (u.Some? <==> Touches(g[|g| - 1], r))
    ensures u.Some? ==> u.value == Hull(g[|g| - 1], r)
  {
    if |g| == 0 then None
    else
      var last := g[|g| - 1];
      if last.start <= r.start then
        if r.start <= last.stop + 1 then Some(GenomicRange(last.start, Max(last.stop, r.stop))) else None
      else if last.start - 1 <= r.stop then Some(GenomicRange(r.start, Max(last.stop, r.stop)))
      else None
  }

  /** The hull of two touching ranges holds exactly their positions. */
  lemma HullIsUnion(a: GenomicRange, b: GenomicRange)
    requires a.Valid() && b.Valid() && Touches(a, b)
    ensures forall x :: Hull(a, b).Contains(x) <==> a.Contains(x) || b.Contains(x)
  {
  }

  /** merge's new list. */
  function MergeInto(g: seq<GenomicRange>, r: GenomicRange): seq<GenomicRange>
  {
    match Overlaps(g, r)
    case Some(u) => g[..|g| - 1] + [u]
    case None => g + [r]
  }

  /** Merging adds r's positions and no others. */
  lemma MergeCovers(g: seq<GenomicRange>, r: GenomicRange, x: int)
    requires forall i :: 0 <= i < |g| ==> g[i].Valid()
    requires r.Valid()
    ensures Covers(MergeInto(g, r), x) <==> Covers(g, x) || r.Contains(x)
  {
    var m := MergeInto(g, r);
    match Overlaps(g, r)
    case None =>
      if Covers(g, x) {
        var i :| 0 <= i < |g| && g[i].Contains(x);
        assert m[i] == g[i];
      }
      if r.Contains(x) {
        assert m[|g|] == r;
      }
    case Some(u) =>
      var last := |g| - 1;
      HullIsUnion(g[last], r);
      if Covers(g, x) {
        var i :| 0 <= i < |g| && g[i].Contains(x);
        if i < last {
          assert m[i] == g[i];
        } else {
          assert m[last] == u;
        }
      }
      if r.Contains(x) {
        assert m[last] == u;
      }
      if Covers(m, x) {
        var i :| 0 <= i < |m| && m[i].Contains(x);
        if i < last {
          assert m[i] == g[i];
        }
      }
  }

  /** The list collapse builds from the first n ranges of rs. */
  function CollapseUpTo(rs: seq<GenomicRange>, n: nat): seq<GenomicRange>
    requires n <= |rs|
  {
    if n == 0 then [] else MergeInto(CollapseUpTo(rs, n - 1), rs[n - 1])
  }

  /** Collapsing keeps exactly the positions of the ranges. */
  lemma {:induction false} CollapseCovers(rs: seq<GenomicRange>, n: nat, x: int)
    requires n <= |rs| && forall i :: 0 <= i < |rs| ==> rs[i].Valid()
    ensures Covers(CollapseUpTo(rs, n), x) <==> Covers(rs[..n], x)
    ensures forall i :: 0 <= i < |CollapseUpTo(rs, n)| ==> CollapseUpTo(rs, n)[i].Valid()
  {
    if n > 0 {
      CollapseCovers(rs, n - 1, x);
      var g := CollapseUpTo(rs, n - 1);
      MergeCovers(g, rs[n - 1], x);
      assert rs[..n] == rs[..n - 1] + [rs[n - 1]];
      if Covers(rs[..n], x) && !rs[n - 1].Contains(x) {
        var i :| 0 <= i < n && rs[..n][i].Contains(x);
        assert rs[..n - 1][i] == rs[i];
      }
      if Covers(rs[..n - 1], x) {
        var i :| 0 <= i < n - 1 && rs[..n - 1][i].Contains(x);
        assert rs[..n][i] == rs[i];
      }
      var m := CollapseUpTo(rs, n);
      forall i | 0 <= i < |m|
        ensures m[i].Valid()
      {
        if Overlaps(g, rs[n - 1]).None? && i == |g| {
          assert m[i] == rs[n - 1];
        } else if i < |g| - 1 || (Overlaps(g, rs[n - 1]).None? && i < |g|) {
          assert m[i] == g[i];
        }
      }
    }
  }

  /** Ascending start positions. */
  predicate SortedByStart(rs: seq<GenomicRange>)
  {
    forall i, j :: 0 <= i < j < |rs| ==> rs[i].start <= rs[j].start
  }

  /** Ascending ranges with at least one position between neighbours. */
  predicate Separated(g: seq<GenomicRange>)
  {
    forall i :: 0 <= i < |g| - 1 ==> g[i].stop + 1 < g[i + 1].start
  }

  /** Appending a range that starts more than one past the last stop keeps
      a list separated. */
  lemma SeparatedAppend(g: seq<GenomicRange>, r: GenomicRange)
    requires Separated(g) && (|g| > 0 ==> g[|g| - 1].stop + 1 < r.start)
    ensures Separated(g + [r])
  {
    var m := g + [r];
    forall i | 0 <= i < |m| - 1
      ensures m[i].stop + 1 < m[i + 1].start
    {
      if i < |g| - 1 {
        assert m[i] == g[i] && m[i + 1] == g[i + 1];
      }
    }
  }

  /** Replacing the last range by one with the same start keeps a list
      separated. */
  lemma SeparatedReplaceLast(g: seq<GenomicRange>, u: GenomicRange)
    requires Separated(g) && |g| > 0 && u.start == g[|g| - 1].start
    ensures Separated(g[..|g| - 1] + [u])
  {
    var m := g[..|g| - 1] + [u];
    forall i | 0 <= i < |m| - 1
      ensures m[i].stop + 1 < m[i + 1].start
    {
      assert m[i] == g[i];
      assert m[i + 1].start == g[i + 1].start;
    }
  }

  /** Collapsing ranges sorted by start leaves ranges that neither overlap
      nor touch, the last starting no later than the last range read. */
  lemma {:induction false} CollapseSeparates(rs: seq<GenomicRange>, n: nat)
    requires n <= |rs| && SortedByStart(rs) && forall i :: 0 <= i < |rs| ==> rs[i].Valid()
    ensures Separated(CollapseUpTo(rs, n))
    ensures n > 0 ==> |CollapseUpTo(rs, n)| > 0 && CollapseUpTo(rs, n)[|CollapseUpTo(rs, n)| - 1].start <= rs[n - 1].start
  {
    if n > 0 {
      CollapseSeparates(rs, n - 1);
      CollapseCovers(rs, n - 1, 0);
      var g := CollapseUpTo(rs, n - 1);
      var r := rs[n - 1];
      if n > 1 {
        assert rs[n - 2].start <= r.start;
      }
      match Overlaps(g, r)
      case None =>
        SeparatedAppend(g, r);
      case Some(u) =>
        SeparatedReplaceLast(g, u);
    }
  }

  /** The reverse of a list. */
  function Reversed(g: seq<GenomicRange>): (r: seq<GenomicRange>)
    ensures |r| == |g|
  {
    seq(|g|, i requires 0 <= i < |g| => g[|g| - 1 - i])
  }

  /** Reversing twice gives the list back. */
  lemma ReversedTwice(g: seq<GenomicRange>)
    ensures Reversed(Reversed(g)) == g
  {
    var r := Reversed(g);
    forall i | 0 <= i < |g|
      ensures Reversed(r)[i] == g[i]
    {
      assert Reversed(r)[i] == r[|g| - 1 - i];
    }
  }

  /** genomicRanges, a slice its methods update in place. */
  class GenomicRanges {
    var ranges: seq<GenomicRange>

    constructor(ranges: seq<GenomicRange>)
      ensures this.ranges == ranges
    {
      this.ranges := ranges;
    }

    /** merge: r replaces the last range by their union when the two
        touch, and is appended otherwise. */
    method Merge(r: GenomicRange)
      modifies this
      ensures ranges == MergeInto(old(ranges), r)
      ensures Overlaps(old(ranges), r).None? ==> ranges == old(ranges) + [r]
      ensures Overlaps(old(ranges), r).Some? ==>
                |ranges| == |old(ranges)| && ranges[..|ranges| - 1] == old(ranges)[..|ranges| - 1]
                && ranges[|ranges| - 1] == Hull(old(ranges)[|ranges| - 1], r)
    {
      var o := Overlaps(ranges, r);
      if o.Some? {
        ranges := ranges[|ranges| - 1 := o.value];
        return;
      }
      ranges := ranges + [r];
    }

    /** collapse: the ranges merged one by one into a new list. */
    method Collapse()
      modifies this
      ensures ranges == CollapseUpTo(old(ranges), |old(ranges)|)
    {
      var newGR := new GenomicRanges([]);
      for i := 0 to |ranges|
        invariant ranges == old(ranges)
        invariant newGR.ranges == CollapseUpTo(ranges, i)
      {
        newGR.Merge(ranges[i]);
      }
      ranges := newGR.ranges;
    }

    /** reverse: swaps from both ends towards the middle. */
    method Reverse()
      modifies this
      ensures ranges == Reversed(old(ranges))
    {
      var n := |ranges|;
      var i, j := 0, n - 1;
      while i < j
        invariant 0 <= i <= n && j == n - 1 - i && |ranges| == n
        invariant forall k :: 0 <= k < n && (k < i || k > j) ==> ranges[k] == old(ranges)[n - 1 - k]
        invariant forall k :: i <= k <= j ==> ranges[k] == old(ranges)[k]
      {
        ranges := ranges[i := ranges[j]][j := ranges[i]];
        i, j := i + 1, j - 1;
      }
    }
  }

  // ---------------------------------------------------------------------
  // reverseComplement

  /** The complement of one base, either case, as an upper-case base;
      None for any other character. */
  function Complement(c: char): (r: Option<char>)
    ensures r.Some? <==> c in "ACGTNacgtn"
  {
    match c
    case 'A' => Some('T') case 'a' => Some('T')
    case 'C' => Some('G') case 'c' => Some('G')
    case 'T' => Some('A') case 't' => Some('A')
    case 'G' => Some('C') case 'g' => Some('C')
    case 'N' => Some('N') case 'n' => Some('N')
    case _ => None
  }

  predicate IsBases(s: string)
  {
    forall i :: 0 <= i < |s| ==> Complement(s[i]).Some?
  }

  /** The reverse complement, None (the log.Fatalf) when s holds any
      character outside ACGTN in either case. */
  function ReverseComplementOf(s: string): (r: Option<string>)
    ensures r.Some? <==> IsBases(s)
    ensures r.Some? ==> |r.value| == |s| && IsBases(r.value)
  {
    if IsBases(s) then
      var r := seq(|s|, i requires 0 <= i < |s| => Complement(s[|s| - 1 - i]).value);
      assert forall i :: 0 <= i < |r| ==> r[i] in "ACGTN";
      Some(r)
    else None
  }

  /** ASCII upper-casing of the bases. */
  function UpperBase(c: char): char
  {
    if 'a' <= c <= 'z' then (c as int - 32) as char else c
  }

  lemma ComplementTwice(c: char)
    requires Complement(c).Some?
    ensures Complement(Complement(c).value) == Some(UpperBase(c))
  {
  }

  lemma ReverseComplementAt(s: string, j: nat)
    requires IsBases(s) && j < |s|
    ensures ReverseComplementOf(s).value[j] == Complement(s[|s| - 1 - j]).value
  {
  }

  /** Taking the reverse complement twice gives the sequence back, in upper
      case. */
  lemma ReverseComplementTwice(s: string)
    requires IsBases(s)
    ensures ReverseComplementOf(ReverseComplementOf(s).value) == Some(seq(|s|, i requires 0 <= i < |s| => UpperBase(s[i])))
  {
    var r := ReverseComplementOf(s).value;
    var rr := ReverseComplementOf(r).value;
    forall i | 0 <= i < |s|
      ensures rr[i] == UpperBase(s[i])
    {
      var j := |s| - 1 - i;
      ReverseComplementAt(r, i);
      ReverseComplementAt(s, j);
      assert |s| - 1 - j == i;
      ComplementTwice(s[i]);
    }
    assert rr == seq(|s|, i requires 0 <= i < |s| => UpperBase(s[i]));
  }

  /** reverseComplement: the bases read from the end, complemented one at
      a time into a builder. */
  method ReverseComplement(s: string) returns (r: Option<string>)
    ensures r == ReverseComplementOf(s)
  {
    var revcomp := "";
    var seqSize := |s|;
    for i := 0 to seqSize
      invariant |revcomp| == i
      invariant forall k :: 0 <= k < i ==> Complement(s[seqSize - 1 - k]) == Some(revcomp[k])
    {
      var x := s[seqSize - i - 1];
      var c := Complement(x);
      if c.None? {
        assert !IsBases(s) by {
          assert Complement(s[seqSize - 1 - i]).None?;
        }
        return None;
      }
      revcomp := revcomp + [c.value];
    }
    r := Some(revcomp);
    assert forall k :: 0 <= k < seqSize ==> Complement(s[k]).Some? by {
      forall k | 0 <= k < seqSize
        ensures Complement(s[k]).Some?
      {
        assert Complement(s[seqSize - 1 - (seqSize - 1 - k)]) == Some(revcomp[seqSize - 1 - k]);
      }
    }
    assert revcomp == ReverseComplementOf(s).value;
  }
}
