/** AllOffsets of the .bai index (encoding/bam/index.go): for every
    reference, the non-zero chunk begins and interval offsets, sorted and
    without repeats. */
module BamIndexOffsets {
  import opened BamIndexes
  import GIndexes

  /** The zero offset, which AllOffsets leaves out. */
  predicate IsZero(o: Offset)
  {
    o.file == 0 && o.block == 0
  }

  /** The comparator given to sort.SliceStable: file offset first, then
      block offset. */
  predicate Less(a: Offset, b: Offset)
  {
    a.file < b.file || (a.file == b.file && a.block < b.block)
  }

  /** The value of `previous` before the uniq loop starts. */
  const START: Offset := GIndexes.Offset(-1, 0)

  // ---------------------------------------------------------------------
  // What is collected

  /** The non-zero offsets of os, in order. */
  function NonzeroOf(os: seq<Offset>): (r: seq<Offset>)
  {
    if os == [] then []
    else NonzeroOf(os[..|os| - 1]) + (if IsZero(os[|os| - 1]) then [] else [os[|os| - 1]])
  }

  /** The non-zero chunk begins, in order. */
  function ChunkBegins(cs: seq<Chunk>): seq<Offset>
  {
    if cs == [] then []
    else ChunkBegins(cs[..|cs| - 1]) + (if IsZero(cs[|cs| - 1].begin) then [] else [cs[|cs| - 1].begin])
  }

  /** The non-zero chunk begins of every bin, bin after bin. */
  function BinBegins(bins: seq<Bin>): seq<Offset>
  {
    if bins == [] then [] else BinBegins(bins[..|bins| - 1]) + ChunkBegins(bins[|bins| - 1].chunks)
  }

  /** What the collection loops of AllOffsets append for one reference. */
  function Candidates(r: Reference): seq<Offset>
  {
    BinBegins(r.bins) + NonzeroOf(r.intervals)
  }

  /** The offsets AllOffsets is meant to gather from a reference. */
  predicate IsCandidate(r: Reference, o: Offset)
  {
    !IsZero(o) && (o in r.intervals || exists b, c :: b in r.bins && c in b.chunks && c.begin == o)
  }

  lemma {:induction false} NonzeroOfMembers(os: seq<Offset>)
    ensures forall o :: o in NonzeroOf(os) <==> o in os && !IsZero(o)
  {
    if os != [] {
      var init := os[..|os| - 1];
      NonzeroOfMembers(init);
      assert os == init + [os[|os| - 1]];
    }
  }

  lemma {:induction false} ChunkBeginsMembers(cs: seq<Chunk>)
    ensures forall o :: o in ChunkBegins(cs) <==> !IsZero(o) && exists c :: c in cs && c.begin == o
  {
    if cs != [] {
      var init := cs[..|cs| - 1];
      ChunkBeginsMembers(init);
      assert cs == init + [cs[|cs| - 1]];
    }
  }

  lemma {:induction false} BinBeginsMembers(bins: seq<Bin>)
    ensures forall o :: o in BinBegins(bins) <==> !IsZero(o) && exists b, c :: b in bins && c in b.chunks && c.begin == o
  {
    if bins != [] {
      var init := bins[..|bins| - 1];
      var last := bins[|bins| - 1];
      BinBeginsMembers(init);
      ChunkBeginsMembers(last.chunks);
      assert bins == init + [last];
    }
  }

  /** The collection loops gather exactly the non-zero chunk begins and
      interval offsets. */
  lemma CandidatesMembers(r: Reference)
    ensures forall o :: o in Candidates(r) <==> IsCandidate(r, o)
  {
    BinBeginsMembers(r.bins);
    NonzeroOfMembers(r.intervals);
  }

  // ---------------------------------------------------------------------
  // The sort

  predicate Sorted(s: seq<Offset>)
  {
    forall i, j :: 0 <= i < j < |s| ==> !Less(s[j], s[i])
  }

  predicate StrictlyIncreasing(s: seq<Offset>)
  {
    forall i, j :: 0 <= i < j < |s| ==> Less(s[i], s[j])
  }

  /** x inserted after every element that is not greater than it. */
  function Insert(s: seq<Offset>, x: Offset): (r: seq<Offset>)
    ensures multiset(r) == multiset(s) + multiset{x}
  {
    if s == [] then [x]
    else if Less(x, s[0]) then [x] + s
    else
      assert s == [s[0]] + s[1..];
      [s[0]] + Insert(s[1..], x)
  }

  lemma {:induction false} InsertSorted(s: seq<Offset>, x: Offset)
    requires Sorted(s)
    ensures Sorted(Insert(s, x))
  {
    if s != [] && !Less(x, s[0]) {
      InsertSorted(s[1..], x);
      var t := Insert(s[1..], x);
      var r := [s[0]] + t;
      forall i, j | 0 <= i < j < |r|
        ensures !Less(r[j], r[i])
      {
        if i == 0 {
          assert r[j] == t[j - 1] && t[j - 1] in multiset(t);
          assert r[j] == x || r[j] in s[1..];
        } else {
          assert r[i] == t[i - 1] && r[j] == t[j - 1];
        }
      }
    }
  }

  /** sort.SliceStable with Less. The comparator is a total order on
      distinct offsets, so every stable sort yields this sequence. */
  function Sort(xs: seq<Offset>): (s: seq<Offset>)
    ensures multiset(s) == multiset(xs)
  {
    if xs == [] then []
    else
      assert xs == xs[..|xs| - 1] + [xs[|xs| - 1]];
      Insert(Sort(xs[..|xs| - 1]), xs[|xs| - 1])
  }

  lemma {:induction false} SortSorted(xs: seq<Offset>)
    ensures Sorted(Sort(xs))
  {
    if xs != [] {
      SortSorted(xs[..|xs| - 1]);
      InsertSorted(Sort(xs[..|xs| - 1]), xs[|xs| - 1]);
    }
  }

  // ---------------------------------------------------------------------
  // AllOffsets

  predicate StartsWithStart(s: seq<Offset>)
  {
    |s| > 0 && s[0] == START
  }

  /** The uniq loop of AllOffsets over a sorted slice: an offset is kept
      unless it equals the one before it. The first offset is compared with
      START, so START itself is dropped when it comes first. */
  method Unique(xs: seq<Offset>) returns (u: seq<Offset>)
    requires Sorted(xs)
    ensures StrictlyIncreasing(u)
    ensures forall o :: o in u <==> o in xs && (o != START || !StartsWithStart(xs))
  {
    u := [];
    var previous := START;
    for i := 0 to |xs|
      invariant StrictlyIncreasing(u)
      invariant i == 0 ==> previous == START && u == []
      invariant i > 0 ==> previous == xs[i - 1]
      invariant u != [] ==> u[|u| - 1] == previous
      invariant forall o :: o in u <==> o in xs[..i] && (o != START || !StartsWithStart(xs))
    {
      var offset := xs[i];
      assert xs[..i + 1] == xs[..i] + [offset];
      if offset != previous {
        if i > 0 {
          assert !Less(offset, previous);
          assert forall k :: 0 <= k < |u| ==> Less(u[k], offset);
        }
        u := u + [offset];
        previous := offset;
      } else if i == 0 {
        assert StartsWithStart(xs);
      }
    }
    assert xs[..|xs|] == xs;
  }

  /** What AllOffsets keeps of a reference's candidates. */
  predicate Kept(r: Reference, o: Offset)
  {
    o in Candidates(r) && (o != START || !StartsWithStart(Sort(Candidates(r))))
  }

  /** The offsets of one reference: the collection loops, the sort and
      the uniq loop. */
  method RefOffsets(r: Reference) returns (u: seq<Offset>)
    ensures StrictlyIncreasing(u)
    ensures forall o :: o in u <==> Kept(r, o)
  {
    var offsets := Collect(r);
    var sorted := Sort(offsets);
    SortSorted(offsets);
    assert forall o :: o in sorted <==> o in offsets by {
      assert forall o :: o in sorted <==> o in multiset(sorted);
    }
    u := Unique(sorted);
  }

  /** The collection loops of AllOffsets for one reference. */
  method Collect(r: Reference) returns (offsets: seq<Offset>)
    ensures offsets == Candidates(r)
  {
    offsets := [];
    for b := 0 to |r.bins|
      invariant offsets == BinBegins(r.bins[..b])
    {
      assert r.bins[..b + 1][..b] == r.bins[..b];
      offsets := AppendBegins(offsets, r.bins[b].chunks);
    }
    assert r.bins[..|r.bins|] == r.bins;
    offsets := AppendNonzero(offsets, r.intervals);
  }

  /** The chunk loop: appends the non-zero chunk begins. */
  method AppendBegins(offsets: seq<Offset>, cs: seq<Chunk>) returns (r: seq<Offset>)
    ensures r == offsets + ChunkBegins(cs)
  {
    r := offsets;
    for c := 0 to |cs|
      invariant r == offsets + ChunkBegins(cs[..c])
    {
      var chunk := cs[c];
      assert cs[..c + 1][..c] == cs[..c];
      if chunk.begin.file != 0 || chunk.begin.block != 0 {
        r := r + [chunk.begin];
      }
    }
    assert cs[..|cs|] == cs;
  }

  /** The interval loop: appends the non-zero interval offsets. */
  method AppendNonzero(offsets: seq<Offset>, os: seq<Offset>) returns (r: seq<Offset>)
    ensures r == offsets + NonzeroOf(os)
  {
    r := offsets;
    for k := 0 to |os|
      invariant r == offsets + NonzeroOf(os[..k])
    {
      var interval := os[k];
      assert os[..k + 1][..k] == os[..k];
      if interval.file != 0 || interval.block != 0 {
        r := r + [interval];
      }
    }
    assert os[..|os|] == os;
  }

  /** AllOffsets: an entry for every reference ID, even an empty one. */
  method AllOffsets(idx: Index) returns (m: map<int, seq<Offset>>)
    ensures forall i :: i in m <==> 0 <= i < |idx.refs|
    ensures forall i :: 0 <= i < |idx.refs| ==>
      StrictlyIncreasing(m[i]) && forall o :: o in m[i] <==> Kept(idx.refs[i], o)
  {
    m := map[];
    for refId := 0 to |idx.refs|
      invariant forall i :: i in m <==> 0 <= i < refId
      invariant forall i :: 0 <= i < refId ==>
        StrictlyIncreasing(m[i]) && forall o :: o in m[i] <==> Kept(idx.refs[i], o)
    {
      var u := RefOffsets(idx.refs[refId]);
      m := m[refId := u];
    }
  }

  /** For the references of a parsed index no file offset is negative, so
      START is never among the candidates and AllOffsets keeps exactly the
      non-zero chunk begins and interval offsets. */
  lemma KeptOfParsed(r: Reference)
    requires RefShape(r)
    ensures forall o :: Kept(r, o) <==> IsCandidate(r, o)
  {
    CandidatesMembers(r);
  }
}
