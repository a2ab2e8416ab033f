/** The serialized form of a pileup row (pileup/snp/row.go): a 16-byte
    header, the 40-byte count table when it is present, and for each base
    whose per-read features are present a 4-byte length and 6 bytes per
    read. All numbers are little-endian. A slice-bounds panic is the None
    outcome. */
module PileupRows {
  import opened Wrappers
  import opened Ints
  import LittleEndian

  type uint8 = LittleEndian.uint8
  type uint16 = LittleEndian.uint16
  type uint32 = LittleEndian.uint32

  /** PerReadFeatures. */
  datatype PerReadFeatures = PerReadFeatures(dist5p: uint16, fraglen: uint16, qual: uint8, strand: uint8)

  /** PileupRow with its PileupPayload: counts is indexed by the five base
      values A, C, G, T, X and holds a pair of strand counts; perRead is
      indexed by A, C, G, T. */
  datatype PileupRow = PileupRow(fieldsPresent: uint32, refId: uint32, pos: uint32, depth: uint32,
                                 counts: seq<(uint32, uint32)>, perRead: seq<seq<PerReadFeatures>>)

  /** The array shapes: five count pairs and four per-read slices. */
  predicate ValidCounts(counts: seq<(uint32, uint32)>)
  {
    |counts| == 5
  }

  predicate ValidRow(pr: PileupRow)
  {
    ValidCounts(pr.counts) && |pr.perRead| == 4
  }

  /** FieldCounts, and FieldPerReadA << b for the per-read features of base
      b. */
  predicate HasCounts(fieldsPresent: nat)
  {
    fieldsPresent % 2 == 1
  }

  predicate HasPerRead(fieldsPresent: nat, b: nat)
    requires b < 4
  {
    match b
    case 0 => (fieldsPresent / 2) % 2 == 1
    case 1 => (fieldsPresent / 4) % 2 == 1
    case 2 => (fieldsPresent / 8) % 2 == 1
    case _ => (fieldsPresent / 16) % 2 == 1
  }

  /** fieldsPresent & FieldPerReadAny != 0. */
  predicate AnyPerRead(fieldsPresent: nat)
  {
    HasPerRead(fieldsPresent, 0) || HasPerRead(fieldsPresent, 1) || HasPerRead(fieldsPresent, 2) || HasPerRead(fieldsPresent, 3)
  }

  // ---------------------------------------------------------------------
  // the encoding

  /** PutUint32: least significant byte first. */
  function U32(x: uint32): (bs: seq<uint8>)
    ensures |bs| == 4
  {
    LittleEndian.Pow256Values();
    LittleEndian.Encode(x, 4)
  }

  /** PutUint16. */
  function U16(x: uint16): (bs: seq<uint8>)
    ensures |bs| == 2
  {
    LittleEndian.Pow256Values();
    LittleEndian.Encode(x, 2)
  }

  function HeaderBytes(pr: PileupRow): (bs: seq<uint8>)
    requires ValidRow(pr)
    ensures |bs| == 16
  {
    U32(pr.fieldsPresent) + U32(pr.refId) + U32(pr.pos) + U32(pr.depth)
  }

  /** The two strand counts of one base. */
  function PairBytes(pair: (uint32, uint32)): (bs: seq<uint8>)
    ensures |bs| == 8
  {
    U32(pair.0) + U32(pair.1)
  }

  /** The count table of the bases before b. */
  function CountsUpTo(counts: seq<(uint32, uint32)>, b: nat): (bs: seq<uint8>)
    requires b <= |counts|
    ensures |bs| == 8 * b
  {
    if b == 0 then [] else CountsUpTo(counts, b - 1) + PairBytes(counts[b - 1])
  }

  function CountsBytes(counts: seq<(uint32, uint32)>): (bs: seq<uint8>)
    requires ValidCounts(counts)
    ensures |bs| == 40
  {
    CountsUpTo(counts, 5)
  }

  function FeatureBytes(f: PerReadFeatures): (bs: seq<uint8>)
    ensures |bs| == 6
  {
    U16(f.dist5p) + U16(f.fraglen) + [f.qual, f.strand]
  }

  /** The features of the first n reads, 6 bytes each. */
  function FeaturesUpTo(fs: seq<PerReadFeatures>, n: nat): (bs: seq<uint8>)
    requires n <= |fs|
    ensures |bs| == 6 * n
  {
    if n == 0 then [] else FeaturesUpTo(fs, n - 1) + FeatureBytes(fs[n - 1])
  }

  function FeaturesBytes(fs: seq<PerReadFeatures>): (bs: seq<uint8>)
    ensures |bs| == 6 * |fs|
  {
    FeaturesUpTo(fs, |fs|)
  }

  /** The per-read block of base b: its length, truncated to 32 bits as
      uint32(len(...)) does, and its features. */
  function PerReadBytes(pr: PileupRow, b: nat): (bs: seq<uint8>)
    requires ValidRow(pr) && b < 4
    ensures |bs| == if HasPerRead(pr.fieldsPresent, b) then 4 + 6 * |pr.perRead[b]| else 0
  {
    if HasPerRead(pr.fieldsPresent, b) then U32(|pr.perRead[b]| % TWO_32) + FeaturesBytes(pr.perRead[b]) else []
  }

  /** The per-read blocks of the bases before b. */
  function PerReadUpTo(pr: PileupRow, b: nat): seq<uint8>
    requires ValidRow(pr) && b <= 4
  {
    if b == 0 then [] else PerReadUpTo(pr, b - 1) + PerReadBytes(pr, b - 1)
  }

  /** The serialized row. */
  function Encode(pr: PileupRow): seq<uint8>
    requires ValidRow(pr)
  {
    HeaderBytes(pr) + (if HasCounts(pr.fieldsPresent) then CountsBytes(pr.counts) else [])
    + (if AnyPerRead(pr.fieldsPresent) then PerReadUpTo(pr, 4) else [])
  }

  /** The size of the per-read blocks of the bases before b. */
  function PerReadSize(pr: PileupRow, b: nat): nat
    requires b <= 4 && |pr.perRead| == 4
  {
    if b == 0 then 0
    else PerReadSize(pr, b - 1) + (if HasPerRead(pr.fieldsPresent, b - 1) then 4 + 6 * |pr.perRead[b - 1]| else 0)
  }

  /** bytesReq: 16, plus 40 with counts, plus 4 + 6n for each present
      per-read block of n reads. */
  function Size(pr: PileupRow): nat
    requires |pr.perRead| == 4
  {
    16 + (if HasCounts(pr.fieldsPresent) then 40 else 0) + (if AnyPerRead(pr.fieldsPresent) then PerReadSize(pr, 4) else 0)
  }

  lemma {:induction false} PerReadSizeIsLength(pr: PileupRow, b: nat)
    requires ValidRow(pr) && b <= 4
    ensures |PerReadUpTo(pr, b)| == PerReadSize(pr, b)
  {
    if b > 0 {
      PerReadSizeIsLength(pr, b - 1);
    }
  }

  /** The computed size is the length of the encoding. */
  lemma SizeIsLength(pr: PileupRow)
    requires ValidRow(pr)
    ensures |Encode(pr)| == Size(pr)
  {
    PerReadSizeIsLength(pr, 4);
  }

  // ---------------------------------------------------------------------
  // the decoding

  /** cutAndAdvance on a byte slice: s[offset:offset+pieceLen] and the
      advanced offset; None for the out-of-range panic. */
  function CutAndAdvance(offset: nat, s: seq<uint8>, pieceLen: nat): (r: Option<(seq<uint8>, nat)>)
    ensures r.Some? <==> offset + pieceLen <= |s|
    ensures r.Some? ==> r.value.0 == s[offset..offset + pieceLen] && r.value.1 == offset + pieceLen
  {
    if offset + pieceLen <= |s| then Some((s[offset..offset + pieceLen], offset + pieceLen)) else None
  }

  /** The features of one read, at off. */
  function FeatureAt(s: seq<uint8>, off: nat): PerReadFeatures
    requires off + 6 <= |s|
  {
    PerReadFeatures(LittleEndian.Uint16At(s, off), LittleEndian.Uint16At(s, off + 2), s[off + 4], s[off + 5])
  }

  /** One per-read block at off: its length, then its features; the block
      and the offset after it, or None when it runs past the end. */
  function DecodeBlock(s: seq<uint8>, off: nat): (r: Option<(seq<PerReadFeatures>, nat)>)
    ensures r.Some? ==> r.value.1 == off + 4 + 6 * |r.value.0| <= |s|
  {
    if off + 4 > |s| then None
    else
      var n := LittleEndian.Uint32At(s, off);
      if off + 4 + 6 * n > |s| then None
      else Some((FeaturesAt(s, off + 4, n), off + 4 + 6 * n))
  }

  /** n reads' features, 6 bytes each, from off. */
  function FeaturesAt(s: seq<uint8>, off: nat, n: nat): (fs: seq<PerReadFeatures>)
    requires off + 6 * n <= |s|
    ensures |fs| == n
  {
    seq(n, i requires 0 <= i < n => FeatureAt(s, off + 6 * i))
  }

  /** The per-read blocks of bases b.., from off; None when one runs past
      the end. */
  function DecodePerRead(s: seq<uint8>, fieldsPresent: nat, off: nat, b: nat): (r: Option<seq<seq<PerReadFeatures>>>)
    requires b <= 4
    ensures r.Some? ==> |r.value| == 4 - b
    decreases 4 - b
  {
    if b == 4 then Some([])
    else if !HasPerRead(fieldsPresent, b) then
      match DecodePerRead(s, fieldsPresent, off, b + 1)
      case None => None
      case Some(rest) => Some([[]] + rest)
    else
      match DecodeBlock(s, off)
      case None => None
      case Some((fs, next)) =>
        match DecodePerRead(s, fieldsPresent, next, b + 1)
        case None => None
        case Some(rest) => Some([fs] + rest)
  }

  function ZeroCounts(): seq<(uint32, uint32)>
  {
    seq(5, _ => (0, 0))
  }

  /** The count table at off. */
  /** One base's two strand counts, at off. */
  function PairAt(s: seq<uint8>, off: nat): (uint32, uint32)
    requires off + 8 <= |s|
  {
    (LittleEndian.Uint32At(s, off), LittleEndian.Uint32At(s, off + 4))
  }

  /** A count table of n bases at off. */
  function CountsAt(s: seq<uint8>, off: nat, n: nat): (counts: seq<(uint32, uint32)>)
    requires off + 8 * n <= |s|
    ensures |counts| == n
  {
    seq(n, b requires 0 <= b < n => PairAt(s, off + 8 * b))
  }

  /** The count table after the header when it is flagged, zero otherwise. */
  function DecodeCounts(s: seq<uint8>, fieldsPresent: nat): Option<seq<(uint32, uint32)>>
  {
    if !HasCounts(fieldsPresent) then Some(ZeroCounts())
    else if |s| < 56 then None
    else Some(CountsAt(s, 16, 5))
  }

  /** The flagged per-read blocks after the header and count table, empty
      for the others. */
  function DecodeAllPerRead(s: seq<uint8>, fieldsPresent: nat): Option<seq<seq<PerReadFeatures>>>
  {
    if AnyPerRead(fieldsPresent) then DecodePerRead(s, fieldsPresent, if HasCounts(fieldsPresent) then 56 else 16, 0)
    else Some(seq(4, _ => []))
  }

  /** What unmarshalPileupRow reads: the header, the count table when
      flagged (zero otherwise), the flagged per-read blocks (empty
      otherwise); None when the input ends early. Bytes after the row are
      ignored. */
  function Decode(s: seq<uint8>): Option<PileupRow>
  {
    if |s| < 16 then None
    else
      var f := LittleEndian.Uint32At(s, 0);
      var counts, perRead := DecodeCounts(s, f), DecodeAllPerRead(s, f);
      if counts.None? || perRead.None? then None
      else Some(PileupRow(f, LittleEndian.Uint32At(s, 4), LittleEndian.Uint32At(s, 8), LittleEndian.Uint32At(s, 12),
                          counts.value, perRead.value))
  }

  /** The row as it comes back: absent counts are zero and absent per-read
      blocks empty. */
  function Present(pr: PileupRow): PileupRow
    requires |pr.perRead| == 4
  {
    pr.(counts := if HasCounts(pr.fieldsPresent) then pr.counts else ZeroCounts(),
        perRead := seq(4, b requires 0 <= b < 4 => if HasPerRead(pr.fieldsPresent, b) then pr.perRead[b] else []))
  }

  // ---------------------------------------------------------------------
  // the round trip

  /** s holds bs at off. */
  predicate At(s: seq<uint8>, off: nat, bs: seq<uint8>)
  {
    off + |bs| <= |s| && forall i :: 0 <= i < |bs| ==> s[off + i] == bs[i]
  }

  lemma AtSplit(s: seq<uint8>, off: nat, a: seq<uint8>, b: seq<uint8>)
    requires At(s, off, a + b)
    ensures At(s, off, a) && At(s, off + |a|, b)
  {
    forall i | 0 <= i < |a|
      ensures s[off + i] == a[i]
    {
      assert (a + b)[i] == a[i];
    }
    forall i | 0 <= i < |b|
      ensures s[off + |a| + i] == b[i]
    {
      assert (a + b)[|a| + i] == b[i];
    }
  }

  lemma AtIndex(s: seq<uint8>, off: nat, bs: seq<uint8>, i: nat)
    requires At(s, off, bs) && i < |bs|
    ensures s[off + i] == bs[i]
  {
  }

  lemma AtSlice(s: seq<uint8>, off: nat, bs: seq<uint8>)
    requires At(s, off, bs)
    ensures s[off..off + |bs|] == bs
  {
    forall i | 0 <= i < |bs|
      ensures s[off..off + |bs|][i] == bs[i]
    {
      assert s[off..off + |bs|][i] == s[off + i];
    }
  }

  lemma Uint32Of(s: seq<uint8>, off: nat, x: uint32)
    requires At(s, off, U32(x))
    ensures LittleEndian.Uint32At(s, off) == x
  {
    AtSlice(s, off, U32(x));
    LittleEndian.Pow256Values();
    LittleEndian.Uint32AtDecodes(s, off);
    LittleEndian.DecodeEncode(x, 4);
  }

  lemma Uint16Of(s: seq<uint8>, off: nat, x: uint16)
    requires At(s, off, U16(x))
    ensures LittleEndian.Uint16At(s, off) == x
  {
    AtSlice(s, off, U16(x));
    LittleEndian.Pow256Values();
    LittleEndian.Uint16AtDecodes(s, off);
    LittleEndian.DecodeEncode(x, 2);
  }

  /** One read's features come back from their 6 bytes. */
  lemma FeatureRoundTrip(s: seq<uint8>, off: nat, f: PerReadFeatures)
    requires At(s, off, FeatureBytes(f))
    ensures FeatureAt(s, off) == f
  {
    AtSplit(s, off, U16(f.dist5p) + U16(f.fraglen), [f.qual, f.strand]);
    AtSplit(s, off, U16(f.dist5p), U16(f.fraglen));
    Uint16Of(s, off, f.dist5p);
    Uint16Of(s, off + 2, f.fraglen);
    AtIndex(s, off + 4, [f.qual, f.strand], 0);
    AtIndex(s, off + 4, [f.qual, f.strand], 1);
  }

  /** The features come back from their bytes. */
  lemma {:induction false} FeaturesRoundTrip(s: seq<uint8>, off: nat, fs: seq<PerReadFeatures>, n: nat)
    requires n <= |fs| && At(s, off, FeaturesUpTo(fs, n))
    ensures forall i :: 0 <= i < n ==> FeatureAt(s, off + 6 * i) == fs[i]
  {
    if n > 0 {
      AtSplit(s, off, FeaturesUpTo(fs, n - 1), FeatureBytes(fs[n - 1]));
      FeaturesRoundTrip(s, off, fs, n - 1);
      FeatureRoundTrip(s, off + 6 * (n - 1), fs[n - 1]);
    }
  }


  /** The count table comes back from its bytes, from base b on. */
  /** One base's strand counts come back from their 8 bytes. */
  lemma PairRoundTrip(s: seq<uint8>, off: nat, pair: (uint32, uint32))
    requires At(s, off, PairBytes(pair))
    ensures PairAt(s, off) == pair
  {
    AtSplit(s, off, U32(pair.0), U32(pair.1));
    Uint32Of(s, off, pair.0);
    Uint32Of(s, off + 4, pair.1);
  }

  lemma {:induction false} CountsRoundTrip(counts: seq<(uint32, uint32)>, s: seq<uint8>, off: nat, b: nat)
    requires b <= |counts| && At(s, off, CountsUpTo(counts, b))
    ensures forall c :: 0 <= c < b ==> PairAt(s, off + 8 * c) == counts[c]
  {
    if b > 0 {
      AtSplit(s, off, CountsUpTo(counts, b - 1), PairBytes(counts[b - 1]));
      PairRoundTrip(s, off + 8 * (b - 1), counts[b - 1]);
      CountsRoundTrip(counts, s, off, b - 1);
    }
  }

  /** A whole count table comes back from its bytes. */
  lemma CountsAtRoundTrip(counts: seq<(uint32, uint32)>, s: seq<uint8>, off: nat, n: nat)
    requires n == |counts| && At(s, off, CountsUpTo(counts, n))
    ensures CountsAt(s, off, n) == counts
  {
    CountsRoundTrip(counts, s, off, |counts|);
    assert off + 8 * |counts| <= |s|;
    CountsAtPointwise(s, off, counts);
  }

  lemma CountsAtPointwise(s: seq<uint8>, off: nat, counts: seq<(uint32, uint32)>)
    requires off + 8 * |counts| <= |s|
    requires forall c :: 0 <= c < |counts| ==> PairAt(s, off + 8 * c) == counts[c]
    ensures CountsAt(s, off, |counts|) == counts
  {
    var d := CountsAt(s, off, |counts|);
    forall c | 0 <= c < |counts|
      ensures d[c] == counts[c]
    {
      assert d[c] == PairAt(s, off + 8 * c);
    }
  }



  /** The per-read blocks of bases b.. . */
  function PerReadFrom(pr: PileupRow, b: nat): seq<uint8>
    requires ValidRow(pr) && b <= 4
    decreases 4 - b
  {
    if b == 4 then [] else PerReadBytes(pr, b) + PerReadFrom(pr, b + 1)
  }

  /** The blocks before b and from b make up all four. */
  lemma {:induction false} PerReadSplit(pr: PileupRow, b: nat)
    requires ValidRow(pr) && b <= 4
    ensures PerReadUpTo(pr, 4) == PerReadUpTo(pr, b) + PerReadFrom(pr, b)
    decreases 4 - b
  {
    if b < 4 {
      PerReadSplit(pr, b + 1);
    }
  }

  /** One per-read block comes back from its bytes. */
  lemma BlockRoundTrip(fs: seq<PerReadFeatures>, s: seq<uint8>, off: nat)
    requires |fs| < TWO_32 && At(s, off, U32(|fs|)) && At(s, off + 4, FeaturesBytes(fs))
    ensures DecodeBlock(s, off) == Some((fs, (off + 4 + 6 * |fs|) as nat))
  {
    Uint32Of(s, off, |fs|);
    FeaturesAtRoundTrip(s, off + 4, fs);
  }

  lemma FeaturesAtRoundTrip(s: seq<uint8>, off: nat, fs: seq<PerReadFeatures>)
    requires At(s, off, FeaturesBytes(fs))
    ensures FeaturesAt(s, off, |fs|) == fs
  {
    FeaturesRoundTrip(s, off, fs, |fs|);
    FeaturesAtPointwise(s, off, fs);
  }

  lemma FeaturesAtPointwise(s: seq<uint8>, off: nat, fs: seq<PerReadFeatures>)
    requires off + 6 * |fs| <= |s|
    requires forall i :: 0 <= i < |fs| ==> FeatureAt(s, off + 6 * i) == fs[i]
    ensures FeaturesAt(s, off, |fs|) == fs
  {
    var d := FeaturesAt(s, off, |fs|);
    forall i | 0 <= i < |fs|
      ensures d[i] == fs[i]
    {
      assert d[i] == FeatureAt(s, off + 6 * i);
    }
  }

  /** The per-read block of base b as it comes back. */
  function PresentBlock(pr: PileupRow, b: nat): seq<PerReadFeatures>
    requires b < 4 && |pr.perRead| == 4
  {
    if HasPerRead(pr.fieldsPresent, b) then pr.perRead[b] else []
  }

  function PresentFrom(pr: PileupRow, b: nat): (r: seq<seq<PerReadFeatures>>)
    requires b <= 4 && |pr.perRead| == 4
    ensures |r| == 4 - b && forall c :: b <= c < 4 ==> r[c - b] == PresentBlock(pr, c)
    decreases 4 - b
  {
    if b == 4 then [] else [PresentBlock(pr, b)] + PresentFrom(pr, b + 1)
  }

  /** The per-read blocks from base b on come back, given their bytes at
      off. */
  /** The block of a flagged base comes back from its bytes. */
  lemma BlockOfRow(pr: PileupRow, s: seq<uint8>, off: nat, b: nat)
    requires ValidRow(pr) && b < 4 && HasPerRead(pr.fieldsPresent, b) && |pr.perRead[b]| < TWO_32
    requires At(s, off, PerReadBytes(pr, b))
    ensures DecodeBlock(s, off) == Some((pr.perRead[b], (off + |PerReadBytes(pr, b)|) as nat))
  {
    var fs := pr.perRead[b];
    assert |fs| % TWO_32 == |fs|;
    assert PerReadBytes(pr, b) == U32(|fs|) + FeaturesBytes(fs);
    AtSplit(s, off, U32(|fs|), FeaturesBytes(fs));
    BlockRoundTrip(fs, s, off);
  }

  lemma {:induction false} PerReadRoundTrip(pr: PileupRow, s: seq<uint8>, off: nat, b: nat)
    requires ValidRow(pr) && b <= 4 && forall c :: 0 <= c < 4 ==> |pr.perRead[c]| < TWO_32
    requires At(s, off, PerReadFrom(pr, b))
    ensures DecodePerRead(s, pr.fieldsPresent, off, b) == Some(PresentFrom(pr, b))
    decreases 4 - b
  {
    if b < 4 {
      var head := PerReadBytes(pr, b);
      AtSplit(s, off, head, PerReadFrom(pr, b + 1));
      PerReadRoundTrip(pr, s, off + |head|, b + 1);
      var rest := PresentFrom(pr, b + 1);
      if HasPerRead(pr.fieldsPresent, b) {
        BlockOfRow(pr, s, off, b);
        assert PresentFrom(pr, b) == [pr.perRead[b]] + rest;
      } else {
        assert |head| == 0;
        assert DecodePerRead(s, pr.fieldsPresent, off, b) == Some([[]] + rest);
      }
    }
  }

  lemma PresentFromIsPresent(pr: PileupRow)
    requires |pr.perRead| == 4
    ensures PresentFrom(pr, 0) == Present(pr).perRead
  {
  }

  /** The header's four numbers come back from its 16 bytes. */
  lemma HeaderRoundTrip(pr: PileupRow, s: seq<uint8>)
    requires ValidRow(pr) && At(s, 0, HeaderBytes(pr))
    ensures LittleEndian.Uint32At(s, 0) == pr.fieldsPresent && LittleEndian.Uint32At(s, 4) == pr.refId
    ensures LittleEndian.Uint32At(s, 8) == pr.pos && LittleEndian.Uint32At(s, 12) == pr.depth
  {
    AtSplit(s, 0, U32(pr.fieldsPresent) + U32(pr.refId) + U32(pr.pos), U32(pr.depth));
    AtSplit(s, 0, U32(pr.fieldsPresent) + U32(pr.refId), U32(pr.pos));
    AtSplit(s, 0, U32(pr.fieldsPresent), U32(pr.refId));
    Uint32Of(s, 0, pr.fieldsPresent);
    Uint32Of(s, 4, pr.refId);
    Uint32Of(s, 8, pr.pos);
    Uint32Of(s, 12, pr.depth);
  }

  /** The count table comes back, or zero when it is absent. */
  lemma DecodeCountsRoundTrip(pr: PileupRow, s: seq<uint8>)
    requires ValidRow(pr) && |s| >= 16
    requires HasCounts(pr.fieldsPresent) ==> At(s, 16, CountsBytes(pr.counts))
    ensures DecodeCounts(s, pr.fieldsPresent) == Some(Present(pr).counts)
  {
    if HasCounts(pr.fieldsPresent) {
      CountsAtRoundTrip(pr.counts, s, 16, 5);
    }
  }

  /** The per-read blocks come back, or empty when they are absent. */
  lemma DecodeAllPerReadRoundTrip(pr: PileupRow, s: seq<uint8>)
    requires ValidRow(pr) && forall b :: 0 <= b < 4 ==> |pr.perRead[b]| < TWO_32
    requires AnyPerRead(pr.fieldsPresent) ==> At(s, if HasCounts(pr.fieldsPresent) then 56 else 16, PerReadUpTo(pr, 4))
    ensures DecodeAllPerRead(s, pr.fieldsPresent) == Some(Present(pr).perRead)
  {
    PresentFromIsPresent(pr);
    if AnyPerRead(pr.fieldsPresent) {
      var off: nat := if HasCounts(pr.fieldsPresent) then 56 else 16;
      PerReadSplit(pr, 0);
      assert PerReadUpTo(pr, 4) == PerReadFrom(pr, 0) by {
        assert PerReadUpTo(pr, 0) == [];
      }
      PerReadRoundTrip(pr, s, off, 0);
      assert DecodeAllPerRead(s, pr.fieldsPresent) == DecodePerRead(s, pr.fieldsPresent, off, 0);
    } else {
      assert seq(4, _ => []) == Present(pr).perRead;
    }
  }

  /** unmarshalPileupRow(MarshalPileupRow(r)) restores every present field,
      and absent fields come back zero or empty, whatever bytes follow the
      row. */
  lemma RoundTrip(pr: PileupRow, rest: seq<uint8>)
    requires ValidRow(pr) && forall b :: 0 <= b < 4 ==> |pr.perRead[b]| < TWO_32
    ensures Decode(Encode(pr) + rest) == Some(Present(pr))
  {
    var s := Encode(pr) + rest;
    var f := pr.fieldsPresent;
    var h := HeaderBytes(pr);
    var c := if HasCounts(f) then CountsBytes(pr.counts) else [];
    var p := if AnyPerRead(f) then PerReadUpTo(pr, 4) else [];
    assert Encode(pr) == h + c + p;
    AtFront(Encode(pr), rest);
    AtSplit(s, 0, h + c, p);
    AtSplit(s, 0, h, c);
    HeaderRoundTrip(pr, s);
    DecodeCountsRoundTrip(pr, s);
    DecodeAllPerReadRoundTrip(pr, s);
    var counts, perRead := DecodeCounts(s, f), DecodeAllPerRead(s, f);
    assert counts == Some(Present(pr).counts) && perRead == Some(Present(pr).perRead);
    assert Decode(s) == Some(PileupRow(f, pr.refId, pr.pos, pr.depth, counts.value, perRead.value));
  }

  /** A sequence holds its own front at offset 0. */
  lemma AtFront(x: seq<uint8>, rest: seq<uint8>)
    ensures At(x + rest, 0, x)
  {
    forall i | 0 <= i < |x|
      ensures (x + rest)[0 + i] == x[i]
    {
    }
  }

  // ---------------------------------------------------------------------
  // MarshalPileupRow: filling a byte buffer through a moving offset

  /** Prepend(acc, r): the blocks read so far ahead of the rest. */
  function Prepend(acc: seq<seq<PerReadFeatures>>, r: Option<seq<seq<PerReadFeatures>>>): Option<seq<seq<PerReadFeatures>>>
  {
    if r.None? then None else Some(acc + r.value)
  }

  /** a with bs written over it from off. */
  function Splice(a: seq<uint8>, off: nat, bs: seq<uint8>): (r: seq<uint8>)
    requires off + |bs| <= |a|
    ensures |r| == |a|
  {
    a[..off] + bs + a[off + |bs|..]
  }

  /** Writing x and then y right after it writes x + y. */
  lemma SpliceTwice(a: seq<uint8>, off: nat, x: seq<uint8>, y: seq<uint8>)
    requires off + |x| + |y| <= |a|
    ensures Splice(Splice(a, off, x), off + |x|, y) == Splice(a, off, x + y)
  {
    var l, r := Splice(Splice(a, off, x), off + |x|, y), Splice(a, off, x + y);
    forall i | 0 <= i < |a|
      ensures l[i] == r[i]
    {
      if i < off {
      } else if i < off + |x| {
        assert l[i] == x[i - off] == (x + y)[i - off];
      } else if i < off + |x| + |y| {
        assert l[i] == y[i - off - |x|] == (x + y)[i - off];
      }
    }
  }

  /** A splice holds a before off, bs from off and a after bs. */
  lemma SpliceParts(a: seq<uint8>, off: nat, bs: seq<uint8>)
    requires off + |bs| <= |a|
    ensures Splice(a, off, bs)[..off + |bs|] == a[..off] + bs
    ensures Splice(a, off, bs)[off + |bs|..] == a[off + |bs|..]
  {
    assert Splice(a, off, bs) == (a[..off] + bs) + a[off + |bs|..];
  }

  /** Writes bs at off (PutUint32, PutUint16 or a byte store), leaving the
      rest of t as it was. */
  method Put(t: array<uint8>, off: nat, bs: seq<uint8>)
    requires off + |bs| <= t.Length
    modifies t
    ensures t[..] == Splice(old(t[..]), off, bs)
  {
    for i := 0 to |bs|
      invariant forall j :: 0 <= j < t.Length && !(off <= j < off + i) ==> t[j] == old(t[j])
      invariant forall j :: 0 <= j < i ==> t[off + j] == bs[j]
    {
      t[off + i] := bs[i];
    }
    ghost var r := Splice(old(t[..]), off, bs);
    forall j | 0 <= j < t.Length
      ensures t[j] == r[j]
    {
      if off <= j < off + |bs| {
        assert t[off + (j - off)] == bs[j - off];
      }
    }
  }

  /** The 6 bytes of one read's features. */
  method PutFeature(t: array<uint8>, off: nat, src: PerReadFeatures)
    requires off + 6 <= t.Length
    modifies t
    ensures t[..] == Splice(old(t[..]), off, FeatureBytes(src))
  {
    Put(t, off, U16(src.dist5p));
    Put(t, off + 2, U16(src.fraglen));
    SpliceTwice(old(t[..]), off, U16(src.dist5p), U16(src.fraglen));
    Put(t, off + 4, [src.qual, src.strand]);
    SpliceTwice(old(t[..]), off, U16(src.dist5p) + U16(src.fraglen), [src.qual, src.strand]);
  }

  /** The features of one base, 6 bytes each. */
  method PutFeatures(t: array<uint8>, off: nat, fs: seq<PerReadFeatures>)
    requires off + 6 * |fs| <= t.Length
    modifies t
    ensures t[..] == Splice(old(t[..]), off, FeaturesBytes(fs))
  {
    var offset := off;
    for i := 0 to |fs|
      invariant offset == off + 6 * i
      invariant t[..] == Splice(old(t[..]), off, FeaturesUpTo(fs, i))
    {
      PutFeature(t, offset, fs[i]);
      SpliceTwice(old(t[..]), off, FeaturesUpTo(fs, i), FeatureBytes(fs[i]));
      offset := offset + 6;
    }
  }

  /** The two strand counts of one base. */
  method PutCountPair(t: array<uint8>, off: nat, pair: (uint32, uint32))
    requires off + 8 <= t.Length
    modifies t
    ensures t[..] == Splice(old(t[..]), off, PairBytes(pair))
  {
    Put(t, off, U32(pair.0));
    Put(t, off + 4, U32(pair.1));
    SpliceTwice(old(t[..]), off, U32(pair.0), U32(pair.1));
  }

  /** A count table, two 32-bit counts per base (the source writes the
      numbers one by one). */
  method PutCounts(t: array<uint8>, off: nat, counts: seq<(uint32, uint32)>, n: nat)
    requires n <= |counts| && off + 8 * n <= t.Length
    modifies t
    ensures t[..] == Splice(old(t[..]), off, CountsUpTo(counts, n))
  {
    ghost var orig := t[..];
    for b := 0 to n
      invariant t[..] == Splice(orig, off, CountsUpTo(counts, b))
    {
      PutCountPair(t, off + 8 * b, counts[b]);
      PutCountsStep(orig, off, counts, b);
    }
  }

  /** Writing base b's pair right after the pairs before it writes the
      pairs up to b + 1. */
  lemma PutCountsStep(orig: seq<uint8>, off: nat, counts: seq<(uint32, uint32)>, b: nat)
    requires b < |counts| && off + 8 * (b + 1) <= |orig|
    ensures Splice(Splice(orig, off, CountsUpTo(counts, b)), off + 8 * b, PairBytes(counts[b]))
            == Splice(orig, off, CountsUpTo(counts, b + 1))
  {
    SpliceTwice(orig, off, CountsUpTo(counts, b), PairBytes(counts[b]));
  }

  lemma {:induction false} PerReadSizeMono(pr: PileupRow, b: nat)
    requires |pr.perRead| == 4 && b <= 4
    ensures PerReadSize(pr, b) <= PerReadSize(pr, 4)
    decreases 4 - b
  {
    if b < 4 {
      PerReadSizeMono(pr, b + 1);
    }
  }

  /** The block of base b: its length and its features. */
  method PutBlock(t: array<uint8>, off: nat, pr: PileupRow, b: nat)
    requires ValidRow(pr) && b < 4 && HasPerRead(pr.fieldsPresent, b)
    requires off + 4 + 6 * |pr.perRead[b]| <= t.Length
    modifies t
    ensures t[..] == Splice(old(t[..]), off, PerReadBytes(pr, b))
  {
    var fs := pr.perRead[b];
    Put(t, off, U32(|fs| % TWO_32));
    PutFeatures(t, off + 4, fs);
    SpliceTwice(old(t[..]), off, U32(|fs| % TWO_32), FeaturesBytes(fs));
  }

  /** One step of the per-read loop: base b's block when it is flagged. */
  method PutPerReadStep(t: array<uint8>, offset: nat, pr: PileupRow, b: nat, ghost off: nat, ghost orig: seq<uint8>)
    returns (next: nat)
    requires ValidRow(pr) && b < 4 && |orig| == t.Length
    requires offset == off + PerReadSize(pr, b) <= off + PerReadSize(pr, 4) <= t.Length
    requires |PerReadUpTo(pr, b)| == PerReadSize(pr, b) && t[..] == Splice(orig, off, PerReadUpTo(pr, b))
    modifies t
    ensures next == off + PerReadSize(pr, b + 1) <= off + PerReadSize(pr, 4)
    ensures |PerReadUpTo(pr, b + 1)| == PerReadSize(pr, b + 1) && t[..] == Splice(orig, off, PerReadUpTo(pr, b + 1))
  {
    PerReadSizeMono(pr, b + 1);
    next := offset;
    assert PerReadUpTo(pr, b + 1) == PerReadUpTo(pr, b) + PerReadBytes(pr, b);
    if HasPerRead(pr.fieldsPresent, b) {
      assert |PerReadBytes(pr, b)| == 4 + 6 * |pr.perRead[b]|;
      PutBlock(t, offset, pr, b);
      SpliceTwice(orig, off, PerReadUpTo(pr, b), PerReadBytes(pr, b));
      next := offset + 4 + 6 * |pr.perRead[b]|;
    } else {
      assert PerReadUpTo(pr, b + 1) == PerReadUpTo(pr, b) + [];
    }
  }

  /** The per-read blocks of the flagged bases. */
  method PutPerRead(t: array<uint8>, off: nat, pr: PileupRow)
    requires ValidRow(pr) && off + PerReadSize(pr, 4) <= t.Length
    modifies t
    ensures |PerReadUpTo(pr, 4)| == PerReadSize(pr, 4)
    ensures t[..] == Splice(old(t[..]), off, PerReadUpTo(pr, 4))
  {
    ghost var orig := t[..];
    var offset := off;
    for b := 0 to 4
      invariant offset == off + PerReadSize(pr, b) <= off + PerReadSize(pr, 4)
      invariant |PerReadUpTo(pr, b)| == PerReadSize(pr, b) && t[..] == Splice(orig, off, PerReadUpTo(pr, b))
    {
      offset := PutPerReadStep(t, offset, pr, b, off, orig);
    }
  }

  /** The size computation at the start of MarshalPileupRow. */
  method BytesRequired(pr: PileupRow) returns (bytesReq: nat)
    requires |pr.perRead| == 4
    ensures bytesReq == Size(pr)
  {
    var fieldsPresent := pr.fieldsPresent;
    bytesReq := 16;
    if HasCounts(fieldsPresent) {
      bytesReq := bytesReq + 40;
    }
    if AnyPerRead(fieldsPresent) {
      ghost var base := bytesReq;
      for b := 0 to 4
        invariant bytesReq == base + PerReadSize(pr, b)
      {
        if HasPerRead(fieldsPresent, b) {
          bytesReq := bytesReq + 4 + 6 * |pr.perRead[b]|;
        }
      }
    }
  }

  /** MarshalPileupRow: the row is written at the start of scratch when it
      fits there, the rest of scratch being left as it was and returned
      with it; otherwise into a new buffer of exactly the row's size. */
  method MarshalPileupRow(scratch: array<uint8>, pr: PileupRow) returns (t: array<uint8>)
    requires ValidRow(pr)
    modifies scratch
    ensures t.Length >= Size(pr) && t[..Size(pr)] == Encode(pr)
    ensures scratch.Length >= Size(pr) ==> t == scratch && t[Size(pr)..] == old(scratch[Size(pr)..])
    ensures scratch.Length < Size(pr) ==> fresh(t) && t.Length == Size(pr) && scratch[..] == old(scratch[..])
  {
    var bytesReq := BytesRequired(pr);
    SizeIsLength(pr);
    t := scratch;
    if t.Length < bytesReq {
      t := new uint8[bytesReq](_ => 0);
    }
    ghost var before := t[..];
    FillRow(t, pr);
    SpliceParts(before, 0, Encode(pr));
  }

  /** The writes of MarshalPileupRow into a buffer large enough for the
      row. */
  method FillRow(t: array<uint8>, pr: PileupRow)
    requires ValidRow(pr) && Size(pr) <= t.Length
    modifies t
    ensures |Encode(pr)| == Size(pr)
    ensures t[..] == Splice(old(t[..]), 0, Encode(pr))
  {
    SizeIsLength(pr);
    var f := pr.fieldsPresent;
    var header := HeaderBytes(pr);
    Put(t, 0, header);
    ghost var c: seq<uint8> := [];
    var offset := 16;
    if HasCounts(f) {
      PutCounts(t, offset, pr.counts, 5);
      SpliceTwice(old(t[..]), 0, header, CountsBytes(pr.counts));
      c := CountsBytes(pr.counts);
      offset := offset + 40;
    } else {
      assert header + c == header;
    }
    if AnyPerRead(f) {
      PutPerRead(t, offset, pr);
      SpliceTwice(old(t[..]), 0, header + c, PerReadUpTo(pr, 4));
    } else {
      assert header + c + [] == header + c;
    }
  }

  // ---------------------------------------------------------------------
  // UnmarshalPileupRow: reading through a moving offset

  /** One per-read block read as the source does: the 32-bit length, a
      features slice of that length made up front, then one 6-byte feature
      at a time; None where a cutAndAdvance would run past the end. */
  method UnmarshalBlock(data: seq<uint8>, offset: nat) returns (r: Option<(seq<PerReadFeatures>, nat)>)
    ensures r == DecodeBlock(data, offset)
  {
    if offset + 4 > |data| {
      return None;
    }
    var curLen := LittleEndian.Uint32At(data, offset);
    var newFeatures := new PerReadFeatures[curLen](_ => PerReadFeatures(0, 0, 0, 0));
    var o := offset + 4;
    for i := 0 to curLen
      invariant o == offset + 4 + 6 * i <= |data|
      invariant forall j :: 0 <= j < i ==> newFeatures[j] == FeatureAt(data, offset + 4 + 6 * j)
    {
      if o + 6 > |data| {
        return None;
      }
      newFeatures[i] := FeatureAt(data, o);
      o := o + 6;
    }
    assert newFeatures[..] == FeaturesAt(data, offset + 4, curLen);
    r := Some((newFeatures[..], o));
  }

  lemma PrependEmpty(r: Option<seq<seq<PerReadFeatures>>>)
    ensures Prepend([], r) == r
  {
    if r.Some? {
      assert [] + r.value == r.value;
    }
  }

  /** Moving one block from the rest to the blocks read so far. */
  lemma PrependOne(acc: seq<seq<PerReadFeatures>>, fs: seq<PerReadFeatures>, rest: Option<seq<seq<PerReadFeatures>>>)
    ensures Prepend(acc + [fs], rest) == Prepend(acc, if rest.None? then None else Some([fs] + rest.value))
  {
    if rest.Some? {
      assert acc + [fs] + rest.value == acc + ([fs] + rest.value);
    }
  }

  /** The per-read loop of unmarshalPileupRow: base by base, a block for
      each flagged base and an empty slice for the others. */
  method UnmarshalPerRead(data: seq<uint8>, f: nat, start: nat) returns (r: Option<seq<seq<PerReadFeatures>>>)
    ensures r == DecodePerRead(data, f, start, 0)
  {
    var offset := start;
    var acc := [];
    PrependEmpty(DecodePerRead(data, f, start, 0));
    for b := 0 to 4
      invariant |acc| == b
      invariant Prepend(acc, DecodePerRead(data, f, offset, b)) == DecodePerRead(data, f, start, 0)
    {
      if HasPerRead(f, b) {
        var block := UnmarshalBlock(data, offset);
        if block.None? {
          assert DecodePerRead(data, f, offset, b).None?;
          return None;
        }
        PrependOne(acc, block.value.0, DecodePerRead(data, f, block.value.1, b + 1));
        acc := acc + [block.value.0];
        offset := block.value.1;
      } else {
        PrependOne(acc, [], DecodePerRead(data, f, offset, b + 1));
        acc := acc + [[]];
      }
    }
    assert acc + [] == acc;
    r := Some(acc);
  }

  /** unmarshalPileupRow: the header, the count table when flagged, then
      the flagged per-read blocks in base order; None for the panic of a
      cutAndAdvance past the end of the input. */
  method UnmarshalPileupRow(data: seq<uint8>) returns (out: Option<PileupRow>)
    ensures out == Decode(data)
  {
    if |data| < 16 {
      return None;
    }
    var f := LittleEndian.Uint32At(data, 0);
    var offset := 16;
    var counts := ZeroCounts();
    if HasCounts(f) {
      if |data| < 56 {
        return None;
      }
      counts := CountsAt(data, 16, 5);
      offset := 56;
    }
    var perRead := seq(4, _ => []);
    if AnyPerRead(f) {
      var blocks := UnmarshalPerRead(data, f, offset);
      if blocks.None? {
        return None;
      }
      perRead := blocks.value;
    }
    out := Some(PileupRow(f, LittleEndian.Uint32At(data, 4), LittleEndian.Uint32At(data, 8), LittleEndian.Uint32At(data, 12),
                          counts, perRead));
  }
}
