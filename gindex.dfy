/** The .gbai index (encoding/bam/gindex.go): entries mapping a genomic
    position (refID, pos, seq) to the BGZF virtual offset of the record, the
    lookup RecordOffset, the virtual-offset conversions and the reader's
    checks. The gzip layer around the entries is not modelled: the reader
    takes the decompressed bytes. */
module GIndexes {
  import opened Ints
  import opened Wrappers
  import opened LittleEndian

  /** RefID int32, Pos int32, Seq uint32, VOffset uint64. */
  datatype Entry = Entry(refId: int, pos: int, seqNo: int, vOffset: int)
  {
    predicate Valid()
    {
      IsInt32(refId) && IsInt32(pos) && IsUint32(seqNo) && IsUint64(vOffset)
    }
  }

  /** A BGZF offset: the compressed block's file offset and the offset
      within the uncompressed block. */
  datatype Offset = Offset(file: int, block: int)


  const MAGIC_SIZE: nat := 16

  const GBAI_MAGIC: seq<uint8> := [0x47, 0x42, 0x41, 0x49, 0x01, 0xf1, 0x78, 0x5c,
                                   0x7b, 0xcb, 0xc1, 0xba, 0x08, 0x23, 0xb1, 0x19]

  // ---------------------------------------------------------------------
  // Positions

  /** comparePos: entries with a negative RefID (unmapped) sort after those
      with a nonnegative one, then by RefID, Pos and Seq. */
  function ComparePos(x: Entry, y: Entry): int
  {
    if x.refId != y.refId then
      if x.refId < 0 && y.refId >= 0 then 1
      else if x.refId >= 0 && y.refId < 0 then -1
      else x.refId - y.refId
    else if x.pos > y.pos then 1
    else if x.pos < y.pos then -1
    else if x.seqNo > y.seqNo then 1
    else if x.seqNo < y.seqNo then -1
    else 0
  }

  /** The order comparePos implements, written as a lexicographic order on
      (unmapped?, RefID, Pos, Seq). */
  predicate PosLess(x: Entry, y: Entry)
  {
    var ux, uy := if x.refId < 0 then 1 else 0, if y.refId < 0 then 1 else 0;
    ux < uy || (ux == uy && (x.refId < y.refId || (x.refId == y.refId &&
      (x.pos < y.pos || (x.pos == y.pos && x.seqNo < y.seqNo)))))
  }

  predicate SamePos(x: Entry, y: Entry)
  {
    x.refId == y.refId && x.pos == y.pos && x.seqNo == y.seqNo
  }

  lemma ComparePosIsPosOrder(x: Entry, y: Entry)
    ensures ComparePos(x, y) < 0 <==> PosLess(x, y)
    ensures ComparePos(x, y) == 0 <==> SamePos(x, y)
    ensures ComparePos(x, y) > 0 <==> PosLess(y, x)
  {
  }

  lemma ComparePosTransitive(x: Entry, y: Entry, z: Entry)
    requires ComparePos(x, y) < 0 && ComparePos(y, z) < 0
    ensures ComparePos(x, z) < 0
  {
    ComparePosIsPosOrder(x, y);
    ComparePosIsPosOrder(y, z);
    ComparePosIsPosOrder(x, z);
  }

  /** compareFilePos: the difference of the voffsets read as int64, taken
      in int64. */
  function CompareFilePos(x: Entry, y: Entry): int
  {
    WrapInt64(WrapInt64(x.vOffset) - WrapInt64(y.vOffset))
  }

  /** For voffsets below 2^63 (files below 2^47 bytes) compareFilePos
      orders by voffset. */
  lemma CompareFilePosOrders(x: Entry, y: Entry)
    requires 0 <= x.vOffset <= MAX_INT64 && 0 <= y.vOffset <= MAX_INT64
    ensures CompareFilePos(x, y) < 0 <==> x.vOffset < y.vOffset
    ensures CompareFilePos(x, y) == 0 <==> x.vOffset == y.vOffset
  {
  }

  // ---------------------------------------------------------------------
  // Virtual offsets

  /** ToBGZFOffset: the high 48 bits are the file offset, the low 16 bits
      the block offset. */
  function ToBGZFOffset(voffset: int): (o: Offset)
    requires IsUint64(voffset)
    ensures 0 <= o.file < 0x1_0000_0000_0000 && 0 <= o.block < 0x1_0000
  {
    Offset(voffset / 0x1_0000, voffset % 0x1_0000)
  }

  /** toVOffset: uint64(File) << 16 | uint64(Block); the shifted file
      offset has its low 16 bits clear, so the OR adds the block offset. */
  function ToVOffset(o: Offset): (v: int)
    requires 0 <= o.block < 0x1_0000
    ensures IsUint64(v)
  {
    (WrapUint64(o.file) * 0x1_0000) % TWO_64 + o.block
  }

  lemma ShiftedBelow(f: int)
    ensures 0 <= (WrapUint64(f) * 0x1_0000) % TWO_64 <= TWO_64 - 0x1_0000
    ensures ((WrapUint64(f) * 0x1_0000) % TWO_64) % 0x1_0000 == 0
  {
    var s := WrapUint64(f) * 0x1_0000;
    var m := s % TWO_64;
    DivModUnique(s, TWO_64, s / TWO_64, m);
    assert m == s - (s / TWO_64) * TWO_64;
    assert m == (WrapUint64(f) - (s / TWO_64) * 0x1_0000_0000_0000) * 0x1_0000;
    DivModUnique(m, 0x1_0000, WrapUint64(f) - (s / TWO_64) * 0x1_0000_0000_0000, 0);
  }

  /** toVOffset(ToBGZFOffset(v)) == v. */
  lemma VOffsetRoundTrip(v: int)
    requires IsUint64(v)
    ensures ToVOffset(ToBGZFOffset(v)) == v
  {
    var o := ToBGZFOffset(v);
    assert WrapUint64(o.file) == o.file;
    assert o.file * 0x1_0000 + o.block == v;
    assert o.file * 0x1_0000 < TWO_64;
  }

  /** ToBGZFOffset(toVOffset(o)) == o for the offsets BGZF produces (file
      offsets below 2^48). */
  lemma OffsetRoundTrip(o: Offset)
    requires 0 <= o.file < 0x1_0000_0000_0000 && 0 <= o.block < 0x1_0000
    ensures ToBGZFOffset(ToVOffset(o)) == o
  {
    assert WrapUint64(o.file) == o.file;
    assert o.file * 0x1_0000 < TWO_64;
    DivModUnique(ToVOffset(o), 0x1_0000, o.file, o.block);
  }

  /** Virtual offsets order like (file, block) pairs. */
  lemma ToVOffsetMonotonic(a: Offset, b: Offset)
    requires 0 <= a.file < 0x1_0000_0000_0000 && 0 <= a.block < 0x1_0000
    requires 0 <= b.file < 0x1_0000_0000_0000 && 0 <= b.block < 0x1_0000
    ensures ToVOffset(a) < ToVOffset(b) <==> a.file < b.file || (a.file == b.file && a.block < b.block)
  {
    assert WrapUint64(a.file) == a.file && WrapUint64(b.file) == b.file;
    assert a.file * 0x1_0000 < TWO_64 && b.file * 0x1_0000 < TWO_64;
    if a.file < b.file {
      assert a.file * 0x1_0000 + 0x1_0000 <= b.file * 0x1_0000;
    } else if a.file > b.file {
      assert b.file * 0x1_0000 + 0x1_0000 <= a.file * 0x1_0000;
    }
  }

  // ---------------------------------------------------------------------
  // RecordOffset

  /** sort.Search: the first index whose entry is at or after target, or
      |idx| when there is none. */
  function SearchGE(idx: seq<Entry>, target: Entry): (x: nat)
    ensures x <= |idx|
    ensures forall i :: 0 <= i < x ==> ComparePos(idx[i], target) < 0
    ensures x < |idx| ==> ComparePos(idx[x], target) >= 0
  {
    if idx == [] then 0
    else if ComparePos(idx[0], target) >= 0 then 0
    else 1 + SearchGE(idx[1..], target)
  }

  /** RecordOffset: None where the source panics (an empty index). */
  function RecordOffset(idx: seq<Entry>, refId: int, pos: int, seqNo: int): (r: Option<Offset>)
    requires forall i :: 0 <= i < |idx| ==> idx[i].Valid()
    ensures r.None? <==> idx == []
  {
    if |idx| < 1 then None
    else
      var target := Entry(refId, pos, seqNo, 0);
      var x := SearchGE(idx, target);
      if x == |idx| then assert idx[x - 1].Valid(); Some(ToBGZFOffset(idx[x - 1].vOffset))
      else
        var y := if ComparePos(idx[x], target) > 0 && x > 0 then x - 1 else x;
        assert idx[y].Valid();
        Some(ToBGZFOffset(idx[y].vOffset))
  }

  /** Strictly increasing positions, as ReadGIndex enforces. */
  predicate PosSorted(idx: seq<Entry>)
  {
    forall i, j :: 0 <= i < j < |idx| ==> ComparePos(idx[i], idx[j]) < 0
  }

  /** On a sorted index RecordOffset returns the voffset of the last entry
      at or before the target, or of the first entry when none is. */
  lemma RecordOffsetIsFloor(idx: seq<Entry>, refId: int, pos: int, seqNo: int)
    requires forall i :: 0 <= i < |idx| ==> idx[i].Valid()
    requires PosSorted(idx) && idx != []
    ensures var target := Entry(refId, pos, seqNo, 0);
      exists k :: 0 <= k < |idx| && RecordOffset(idx, refId, pos, seqNo) == Some(ToBGZFOffset(idx[k].vOffset)) &&
        ((ComparePos(idx[k], target) <= 0 && forall j :: k < j < |idx| ==> ComparePos(idx[j], target) > 0) ||
         (k == 0 && forall j :: 0 <= j < |idx| ==> ComparePos(idx[j], target) > 0))
  {
    var target := Entry(refId, pos, seqNo, 0);
    var x := SearchGE(idx, target);
    var k := if x == |idx| then x - 1 else if ComparePos(idx[x], target) > 0 && x > 0 then x - 1 else x;
    forall j | k < j < |idx|
      ensures ComparePos(idx[j], target) > 0
    {
      if x < |idx| && ComparePos(idx[x], target) > 0 {
        if j > x {
          ComparePosIsPosOrder(idx[x], idx[j]);
          ComparePosIsPosOrder(idx[x], target);
          ComparePosIsPosOrder(idx[j], target);
        }
      } else {
        ComparePosIsPosOrder(idx[x], idx[j]);
        ComparePosIsPosOrder(idx[x], target);
        ComparePosIsPosOrder(idx[j], target);
      }
    }
    if k == 0 && x == 0 && ComparePos(idx[0], target) > 0 {
      assert forall j :: 0 <= j < |idx| ==> ComparePos(idx[j], target) > 0;
    }
    assert RecordOffset(idx, refId, pos, seqNo) == Some(ToBGZFOffset(idx[k].vOffset));
  }

  /** UnmappedOffset: the offset for the unmapped section. */
  function UnmappedOffset(idx: seq<Entry>): (r: Option<Offset>)
    requires forall i :: 0 <= i < |idx| ==> idx[i].Valid()
    ensures r.None? <==> idx == []
  {
    RecordOffset(idx, -1, 0, 0)
  }

  // ---------------------------------------------------------------------
  // ReadGIndex

  /** One 20-byte little-endian entry. */
  function DecodeEntry(b: seq<uint8>): (e: Entry)
    requires |b| == 20
    ensures e.Valid()
  {
    Entry(Int32At(b, 0), Int32At(b, 4), Uint32At(b, 8), Uint64At(b, 12))
  }

  /** What gIndexWriter.append writes for an entry. */
  function EncodeEntry(e: Entry): (b: seq<uint8>)
    requires e.Valid()
    ensures |b| == 20
  {
    Pow256Values();
    EncodeInt32(e.refId) + EncodeInt32(e.pos) + Encode(e.seqNo, 4) + Encode(e.vOffset, 8)
  }

  lemma EntryRoundTrip(e: Entry)
    requires e.Valid()
    ensures DecodeEntry(EncodeEntry(e)) == e
  {
    Pow256Values();
    var b := EncodeEntry(e);
    assert b[0..4] == EncodeInt32(e.refId);
    assert b[4..8] == EncodeInt32(e.pos);
    assert b[8..12] == Encode(e.seqNo, 4);
    assert b[12..20] == Encode(e.vOffset, 8);
    Int32RoundTrip(e.refId);
    Int32RoundTrip(e.pos);
    Uint32RoundTrip(e.seqNo);
    Uint64RoundTrip(e.vOffset);
    assert EncodeInt32(e.refId)[0..4] == EncodeInt32(e.refId);
    assert EncodeInt32(e.pos)[0..4] == EncodeInt32(e.pos);
    assert Encode(e.seqNo, 4)[0..4] == Encode(e.seqNo, 4);
    assert Encode(e.vOffset, 8)[0..8] == Encode(e.vOffset, 8);
  }

  /** The entries of a body whose length is a multiple of 20: entry k is
      decoded from bytes [20k, 20k + 20). */
  function DecodeAll(body: seq<uint8>): seq<Entry>
    requires |body| % 20 == 0
  {
    seq(|body| / 20, k requires 0 <= k < |body| / 20 =>
      DecodeEntry(body[20 * k..20 * k + 20]))
  }

  function EncodeAll(es: seq<Entry>): (b: seq<uint8>)
    requires forall i :: 0 <= i < |es| ==> es[i].Valid()
    ensures |b| == 20 * |es|
  {
    if es == [] then [] else EncodeEntry(es[0]) + EncodeAll(es[1..])
  }

  /** Entry k of the written bytes is the encoding of es[k]. */
  lemma {:induction false} EncodeAllChunk(es: seq<Entry>, k: nat)
    requires forall i :: 0 <= i < |es| ==> es[i].Valid()
    requires k < |es|
    ensures EncodeAll(es)[20 * k..20 * k + 20] == EncodeEntry(es[k])
  {
    var b := EncodeAll(es);
    assert b == EncodeEntry(es[0]) + EncodeAll(es[1..]);
    if k > 0 {
      EncodeAllChunk(es[1..], k - 1);
      assert b[20 * k..20 * k + 20] ==
        EncodeAll(es[1..])[20 * (k - 1)..20 * (k - 1) + 20];
    }
  }

  /** Decoding the written entries gives them back. */
  lemma DecodeAllEncodeAll(es: seq<Entry>)
    requires forall i :: 0 <= i < |es| ==> es[i].Valid()
    ensures |EncodeAll(es)| % 20 == 0 && DecodeAll(EncodeAll(es)) == es
  {
    var b := EncodeAll(es);
    assert |b| / 20 == |es|;
    forall k | 0 <= k < |es|
      ensures DecodeAll(b)[k] == es[k]
    {
      EncodeAllChunk(es, k);
      EntryRoundTrip(es[k]);
    }
  }

  /** The reader's two checks between consecutive entries. */
  predicate InOrder(es: seq<Entry>)
  {
    forall i :: 0 < i < |es| ==> ComparePos(es[i - 1], es[i]) < 0 && CompareFilePos(es[i - 1], es[i]) < 0
  }

  lemma InOrderSnoc(es: seq<Entry>, e: Entry)
    requires InOrder(es)
    requires es != [] ==> ComparePos(es[|es| - 1], e) < 0 && CompareFilePos(es[|es| - 1], e) < 0
    ensures InOrder(es + [e])
  {
    var t := es + [e];
    forall i | 0 < i < |t|
      ensures ComparePos(t[i - 1], t[i]) < 0 && CompareFilePos(t[i - 1], t[i]) < 0
    {
      if i < |es| {
        assert t[i - 1] == es[i - 1] && t[i] == es[i];
      }
    }
  }

  lemma InOrderPrefix(es: seq<Entry>, m: nat)
    requires InOrder(es) && m <= |es|
    ensures InOrder(es[..m])
  {
    forall i | 0 < i < m
      ensures ComparePos(es[..m][i - 1], es[..m][i]) < 0 && CompareFilePos(es[..m][i - 1], es[..m][i]) < 0
    {
      assert es[..m][i - 1] == es[i - 1] && es[..m][i] == es[i];
    }
  }

  /** The adjacent checks make the whole index sorted by position. */
  lemma InOrderSorted(es: seq<Entry>)
    requires InOrder(es)
    ensures PosSorted(es)
  {
    forall i, j | 0 <= i < j < |es|
      ensures ComparePos(es[i], es[j]) < 0
    {
      var m := i + 1;
      while m < j
        invariant i < m <= j && ComparePos(es[i], es[m]) < 0
      {
        ComparePosTransitive(es[i], es[m], es[m + 1]);
        m := m + 1;
      }
    }
  }

  /** What ReadGIndex accepts: the magic, then whole entries in order. */
  predicate Accepts(data: seq<uint8>)
  {
    |data| >= MAGIC_SIZE && data[..MAGIC_SIZE] == GBAI_MAGIC && BodyOk(data[MAGIC_SIZE..])
  }

  /** Whole entries, each after its predecessor. */
  predicate BodyOk(body: seq<uint8>)
  {
    |body| % 20 == 0 && InOrder(DecodeAll(body))
  }

  /** ReadGIndex over the decompressed stream. */
  method ReadGIndex(data: seq<uint8>) returns (r: Result<seq<Entry>>)
    ensures r.Ok? <==> Accepts(data)
    ensures r.Ok? ==> r.value == DecodeAll(data[MAGIC_SIZE..])
  {
    if |data| < MAGIC_SIZE {
      return Err("unexpected EOF");
    }
    if data[..MAGIC_SIZE] != GBAI_MAGIC {
      return Err("Unexpected gbai magic");
    }
    r := ReadEntries(data[MAGIC_SIZE..]);
  }

  /** The entry loop of ReadGIndex, over the bytes after the magic. */
  method ReadEntries(body: seq<uint8>) returns (r: Result<seq<Entry>>)
    ensures r.Ok? <==> BodyOk(body)
    ensures r.Ok? ==> r.value == DecodeAll(body)
  {
    var index: seq<Entry> := [];
    var off := 0;
    var i := 0;
    while true
      invariant off <= |body| && off == 20 * i && |index| == i && off % 20 == 0
      invariant index == DecodeAll(body[..off]) && InOrder(index)
      decreases |body| - off
    {
      if off == |body| {
        assert body[..off] == body;
        break;
      }
      if |body| - off < 20 {
        TruncatedRefused(body, off);
        return Err("unexpected EOF");
      }
      var entry := DecodeEntry(body[off..off + 20]);
      DecodeStep(body, off);
      if i > 0 {
        var prev := index[i - 1];
        assert (index + [entry])[i - 1] == prev && (index + [entry])[i] == entry;
        if ComparePos(prev, entry) >= 0 {
          PrefixOutOfOrder(body, off + 20);
          return Err("Index positions are out of order");
        }
        if CompareFilePos(prev, entry) >= 0 {
          PrefixOutOfOrder(body, off + 20);
          return Err("Voffsets are out of order");
        }
      }
      InOrderSnoc(index, entry);
      index := index + [entry];
      off := off + 20;
      i := i + 1;
    }
    return Ok(index);
  }

  /** Decoding a whole-entry prefix gives a prefix of the entries. */
  lemma DecodeAllPrefix(body: seq<uint8>, n: nat)
    requires |body| % 20 == 0 && n % 20 == 0 && n <= |body|
    ensures DecodeAll(body[..n]) == DecodeAll(body)[..n / 20]
  {
    forall k | 0 <= k < n / 20
      ensures body[..n][20 * k..20 * k + 20] == body[20 * k..20 * k + 20]
    {
    }
  }

  lemma DecodeStep(body: seq<uint8>, off: nat)
    requires off + 20 <= |body| && off % 20 == 0
    ensures (off + 20) % 20 == 0
    ensures DecodeAll(body[..off + 20]) == DecodeAll(body[..off]) + [DecodeEntry(body[off..off + 20])]
  {
    var b := body[..off + 20];
    assert b[..off] == body[..off];
    DecodeAllPrefix(b, off);
    var es := DecodeAll(b);
    assert |es| == off / 20 + 1;
    assert b[20 * (off / 20)..20 * (off / 20) + 20] == body[off..off + 20];
    assert es == es[..off / 20] + [es[off / 20]];
  }

  lemma TruncatedRefused(body: seq<uint8>, off: nat)
    requires off < |body| < off + 20 && off % 20 == 0
    ensures !BodyOk(body)
  {
    var k := off / 20;
    assert |body| == (|body| - off) + 20 * k;
    ModOfShift(|body| - off, k, 20);
  }

  /** An entry out of order with its predecessor spoils the whole body. */
  lemma PrefixOutOfOrder(body: seq<uint8>, n: nat)
    requires n <= |body| && n % 20 == 0
    requires !InOrder(DecodeAll(body[..n]))
    ensures !BodyOk(body)
  {
    if BodyOk(body) {
      DecodeAllPrefix(body, n);
      InOrderPrefix(DecodeAll(body), n / 20);
      assert false;
    }
  }

  /** A written index of valid, increasing entries is read back intact. */
  lemma ReadWrittenIndex(es: seq<Entry>)
    requires forall i :: 0 <= i < |es| ==> es[i].Valid()
    requires InOrder(es)
    ensures Accepts(GBAI_MAGIC + EncodeAll(es))
    ensures DecodeAll((GBAI_MAGIC + EncodeAll(es))[MAGIC_SIZE..]) == es
  {
    DecodeAllEncodeAll(es);
    SplitConcat(GBAI_MAGIC, EncodeAll(es));
  }

  lemma SplitConcat(a: seq<uint8>, b: seq<uint8>)
    ensures (a + b)[..|a|] == a && (a + b)[|a|..] == b
  {
  }
}
