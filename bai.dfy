/** The .bai index reader (encoding/bam/index.go): ReadIndex over the bytes
    of the file, the metadata pseudo-bin, the offset conversions and
    AllOffsets. */
module BamIndexes {
  import opened Ints
  import opened Wrappers
  import opened LittleEndian
  import GIndexes

  type Offset = GIndexes.Offset

  datatype Chunk = Chunk(begin: Offset, end: Offset)

  datatype Bin = Bin(binNum: int, chunks: seq<Chunk>)

  datatype Metadata = Metadata(unmappedBegin: int, unmappedEnd: int, mappedCount: int, unmappedCount: int)

  datatype Reference = Reference(bins: seq<Bin>, intervals: seq<Offset>, meta: Metadata)

  /** Index without its Magic field, which is always "BAI\1" once read. */
  datatype Index = Index(refs: seq<Reference>, unmappedCount: Option<int>)

  /** A value read at a position, and the position after it. */
  datatype Parsed<T> = Parsed(value: T, next: nat)

  const BAI_MAGIC: seq<uint8> := [0x42, 0x41, 0x49, 0x01]

  /** The bin number of the metadata pseudo-bin. */
  const META_BIN: int := 37450


  const NO_META: Metadata := Metadata(0, 0, 0, 0)

  // ---------------------------------------------------------------------
  // Offsets

  /** toOffset: the high 48 bits are the file offset, the low 16 bits the
      block offset (the same computation as ToBGZFOffset of the .gbai
      index). */
  function ToOffset(v: int): (o: Offset)
    requires IsUint64(v)
    ensures 0 <= o.file < 0x1_0000_0000_0000 && 0 <= o.block < 0x1_0000
  {
    GIndexes.ToBGZFOffset(v)
  }

  /** fromOffset: uint64(File << 16) | uint64(Block), the shift taken in
      int64. The shifted value has its low 16 bits clear, so the OR adds the
      block offset. */
  function FromOffset(o: Offset): int
  {
    WrapUint64(WrapInt64(o.file * 0x1_0000)) + o.block
  }

  /** fromOffset(toOffset(v)) == v for every uint64 v. */
  lemma FromToOffset(v: int)
    requires IsUint64(v)
    ensures FromOffset(ToOffset(v)) == v
  {
    var o := ToOffset(v);
    assert o.file * 0x1_0000 + o.block == v;
    ShiftWraps(o.file);
  }

  /** toOffset(fromOffset(o)) == o for file offsets below 2^48. */
  lemma ToFromOffset(o: Offset)
    requires 0 <= o.file < 0x1_0000_0000_0000 && 0 <= o.block < 0x1_0000
    ensures IsUint64(FromOffset(o)) && ToOffset(FromOffset(o)) == o
  {
    ShiftWraps(o.file);
    DivModUnique(FromOffset(o), 0x1_0000, o.file, o.block);
  }

  /** For a 48-bit file offset the int64 shift and the uint64 conversion
      cancel out. */
  lemma ShiftWraps(f: int)
    requires 0 <= f < 0x1_0000_0000_0000
    ensures WrapUint64(WrapInt64(f * 0x1_0000)) == f * 0x1_0000
  {
    var x := f * 0x1_0000;
    assert 0 <= x < TWO_64;
    if x <= MAX_INT64 {
      assert WrapInt64(x) == x;
    } else {
      DivModUnique(x, TWO_64, 0, x);
      assert WrapInt64(x) == x - TWO_64;
      DivModUnique(x - TWO_64, TWO_64, -1, x);
    }
  }

  // ---------------------------------------------------------------------
  // What ReadIndex reads

  function ChunkAt(data: seq<uint8>, pos: nat): Chunk
    requires pos + 16 <= |data|
  {
    Chunk(ToOffset(Uint64At(data, pos)), ToOffset(Uint64At(data, pos + 8)))
  }

  /** n chunks (two uint64 voffsets each) from pos, or None when the data
      ends first. */
  function ParseChunks(data: seq<uint8>, pos: nat, n: nat): (r: Option<seq<Chunk>>)
    ensures r.Some? <==> pos + 16 * n <= |data|
    ensures r.Some? ==> |r.value| == n
  {
    if pos + 16 * n <= |data| then
      Some(seq(n, k requires 0 <= k < n => ChunkAt(data, pos + 16 * k)))
    else None
  }

  /** n interval voffsets from pos. */
  function ParseIntervals(data: seq<uint8>, pos: nat, n: nat): (r: Option<seq<Offset>>)
    ensures r.Some? <==> pos + 8 * n <= |data|
    ensures r.Some? ==> |r.value| == n
  {
    if pos + 8 * n <= |data| then
      Some(seq(n, k requires 0 <= k < n => ToOffset(Uint64At(data, pos + 8 * k))))
    else None
  }

  /** A bin: its uint32 number, an int32 chunk count and the chunks. A
      negative count is None: make panics on a negative length. */
  function ParseBin(data: seq<uint8>, pos: nat): (r: Option<Parsed<Bin>>)
    ensures r.Some? ==> pos + 8 <= r.value.next <= |data|
  {
    if pos + 8 > |data| then None
    else
      var count := Int32At(data, pos + 4);
      if count < 0 then None
      else match ParseChunks(data, pos + 8, count)
        case None => None
        case Some(cs) => Some(Parsed(Bin(Uint32At(data, pos), cs), pos + 8 + 16 * count))
  }

  /** The metadata of the pseudo-bin's two chunks. */
  function MetaOf(b: Bin): Metadata
    requires |b.chunks| == 2
  {
    Metadata(FromOffset(b.chunks[0].begin), FromOffset(b.chunks[0].end),
             FromOffset(b.chunks[1].begin), FromOffset(b.chunks[1].end))
  }

  /** The first k bins of the bin loop of ReadIndex, read from pos: the
      metadata pseudo-bin must have exactly two chunks and goes to Meta,
      every other bin is appended to Bins. */
  function ParseBins(data: seq<uint8>, pos: nat, k: nat): (r: Option<Parsed<(seq<Bin>, Metadata)>>)
    ensures r.Some? ==> pos <= r.value.next && (k > 0 ==> r.value.next <= |data|)
  {
    if k == 0 then Some(Parsed(([], NO_META), pos))
    else match ParseBins(data, pos, k - 1)
      case None => None
      case Some(prev) =>
        match ParseBin(data, prev.next)
        case None => None
        case Some(q) =>
          if q.value.binNum == META_BIN then
            if |q.value.chunks| != 2 then None
            else Some(Parsed((prev.value.0, MetaOf(q.value)), q.next))
          else Some(Parsed((prev.value.0 + [q.value], prev.value.1), q.next))
  }

  /** Once a bin fails to parse, so do all longer runs. */
  lemma {:induction false} BinsNoneStays(data: seq<uint8>, pos: nat, k: nat, n: nat)
    requires k <= n && ParseBins(data, pos, k).None?
    ensures ParseBins(data, pos, n).None?
    decreases n - k
  {
    if k < n {
      BinsNoneStays(data, pos, k + 1, n);
    }
  }

  /** One reference: an int32 bin count, the bins, an int32 interval count
      and the intervals. */
  function ParseRef(data: seq<uint8>, pos: nat): (r: Option<Parsed<Reference>>)
    ensures r.Some? ==> pos < r.value.next <= |data|
  {
    if pos + 4 > |data| then None
    else
      var binCount := Int32At(data, pos);
      if binCount < 0 then None
      else match ParseBins(data, pos + 4, binCount)
        case None => None
        case Some(pb) =>
          var q := pb.next;
          if q + 4 > |data| then None
          else
            var count := Int32At(data, q);
            if count < 0 then None
            else match ParseIntervals(data, q + 4, count)
              case None => None
              case Some(ivs) => Some(Parsed(Reference(pb.value.0, ivs, pb.value.1), q + 4 + 8 * count))
  }

  /** The first k references of the reference loop of ReadIndex, read from pos. */
  function ParseRefs(data: seq<uint8>, pos: nat, k: nat): (r: Option<Parsed<seq<Reference>>>)
    ensures r.Some? ==> |r.value.value| == k && pos <= r.value.next && (k > 0 ==> r.value.next <= |data|)
  {
    if k == 0 then Some(Parsed([], pos))
    else match ParseRefs(data, pos, k - 1)
      case None => None
      case Some(prev) =>
        match ParseRef(data, prev.next)
        case None => None
        case Some(q) => Some(Parsed(prev.value + [q.value], q.next))
  }

  /** ReadIndex: the magic, an int32 reference count, the references, and
      an optional uint64 count of unmapped reads. No bytes at all there
      (io.EOF) leaves the count unset; one to seven bytes are an error. */
  function ParseIndex(data: seq<uint8>): Option<Index>
  {
    if |data| < 4 || data[..4] != BAI_MAGIC || |data| < 8 then None
    else
      var refCount := Int32At(data, 4);
      if refCount < 0 then None
      else match ParseRefs(data, 8, refCount)
        case None => None
        case Some(p) =>
          if p.next == |data| then Some(Index(p.value, None))
          else if p.next + 8 > |data| then None
          else Some(Index(p.value, Some(Uint64At(data, p.next))))
  }

  // ---------------------------------------------------------------------
  // What a parsed index looks like

  /** An offset toOffset can produce: a 48-bit file offset and a 16-bit
      block offset. */
  predicate FromVOffset(o: Offset)
  {
    0 <= o.file < 0x1_0000_0000_0000 && 0 <= o.block < 0x1_0000
  }

  predicate BinShape(b: Bin)
  {
    b.binNum != META_BIN && forall c :: c in b.chunks ==> FromVOffset(c.begin) && FromVOffset(c.end)
  }

  /** The metadata pseudo-bin has gone to Meta, and every offset came from
      toOffset. */
  predicate RefShape(r: Reference)
  {
    (forall b :: b in r.bins ==> BinShape(b)) && forall o :: o in r.intervals ==> FromVOffset(o)
  }

  lemma {:induction false} ParsedBinsShape(data: seq<uint8>, pos: nat, k: nat)
    requires ParseBins(data, pos, k).Some?
    ensures forall b :: b in ParseBins(data, pos, k).value.value.0 ==> BinShape(b)
  {
    if k > 0 {
      ParsedBinsShape(data, pos, k - 1);
      ParsedBinOffsets(data, ParseBins(data, pos, k - 1).value.next);
    }
  }

  lemma ParsedBinOffsets(data: seq<uint8>, pos: nat)
    requires ParseBin(data, pos).Some?
    ensures forall c :: c in ParseBin(data, pos).value.value.chunks ==> FromVOffset(c.begin) && FromVOffset(c.end)
  {
  }

  lemma ParsedRefShape(data: seq<uint8>, pos: nat)
    requires ParseRef(data, pos).Some?
    ensures RefShape(ParseRef(data, pos).value.value)
  {
    var binCount := Int32At(data, pos);
    ParsedBinsShape(data, pos + 4, binCount);
  }

  lemma {:induction false} ParsedRefsShape(data: seq<uint8>, pos: nat, k: nat)
    requires ParseRefs(data, pos, k).Some?
    ensures forall r :: r in ParseRefs(data, pos, k).value.value ==> RefShape(r)
  {
    if k > 0 {
      ParsedRefsShape(data, pos, k - 1);
      ParsedRefShape(data, ParseRefs(data, pos, k - 1).value.next);
    }
  }

  /** A parsed index has as many references as its header announces, none
      of them holds the metadata pseudo-bin among its bins, and every offset
      in it is a split voffset. */
  lemma ParsedIndexShape(data: seq<uint8>)
    requires ParseIndex(data).Some?
    ensures |ParseIndex(data).value.refs| == Int32At(data, 4)
    ensures forall r :: r in ParseIndex(data).value.refs ==> RefShape(r)
  {
    ParsedRefsShape(data, 8, Int32At(data, 4));
  }

  // ---------------------------------------------------------------------
  // ReadIndex

  method ReadChunks(data: seq<uint8>, pos: nat, n: nat) returns (r: Result<seq<Chunk>>)
    requires pos <= |data|
    ensures r.Ok? <==> ParseChunks(data, pos, n).Some?
    ensures r.Ok? ==> r.value == ParseChunks(data, pos, n).value
  {
    var chunks: seq<Chunk> := [];
    var p := pos;
    for c := 0 to n
      invariant p == pos + 16 * c <= |data| && |chunks| == c
      invariant forall k :: 0 <= k < c ==> chunks[k] == ChunkAt(data, pos + 16 * k)
    {
      if p + 8 > |data| {
        return Err("unexpected EOF");
      }
      var beginOffset := Uint64At(data, p);
      if p + 16 > |data| {
        return Err("unexpected EOF");
      }
      var endOffset := Uint64At(data, p + 8);
      chunks := chunks + [Chunk(ToOffset(beginOffset), ToOffset(endOffset))];
      p := p + 16;
    }
    return Ok(chunks);
  }

  method ReadIntervals(data: seq<uint8>, pos: nat, n: nat) returns (r: Result<seq<Offset>>)
    requires pos <= |data|
    ensures r.Ok? <==> ParseIntervals(data, pos, n).Some?
    ensures r.Ok? ==> r.value == ParseIntervals(data, pos, n).value
  {
    var ivs: seq<Offset> := [];
    var p := pos;
    for k := 0 to n
      invariant p == pos + 8 * k <= |data| && |ivs| == k
      invariant forall j :: 0 <= j < k ==> ivs[j] == ToOffset(Uint64At(data, pos + 8 * j))
    {
      if p + 8 > |data| {
        return Err("unexpected EOF");
      }
      ivs := ivs + [ToOffset(Uint64At(data, p))];
      p := p + 8;
    }
    return Ok(ivs);
  }

  method ReadBin(data: seq<uint8>, pos: nat) returns (r: Result<Parsed<Bin>>)
    ensures r.Ok? <==> ParseBin(data, pos).Some?
    ensures r.Ok? ==> r.value == ParseBin(data, pos).value
  {
    if pos + 4 > |data| {
      return Err("unexpected EOF");
    }
    var binNum := Uint32At(data, pos);
    if pos + 8 > |data| {
      return Err("unexpected EOF");
    }
    var chunkCount := Int32At(data, pos + 4);
    if chunkCount < 0 {
      return Err("makeslice: len out of range");
    }
    var chunks := ReadChunks(data, pos + 8, chunkCount);
    if chunks.Err? {
      return Err(chunks.msg);
    }
    return Ok(Parsed(Bin(binNum, chunks.value), pos + 8 + 16 * chunkCount));
  }

  /** The bin loop of ReadIndex: n bins from pos. */
  method ReadBins(data: seq<uint8>, pos: nat, n: nat) returns (r: Result<Parsed<(seq<Bin>, Metadata)>>)
    requires pos <= |data|
    ensures r.Ok? <==> ParseBins(data, pos, n).Some?
    ensures r.Ok? ==> r.value == ParseBins(data, pos, n).value
  {
    var bins: seq<Bin> := [];
    var meta := NO_META;
    var p: nat := pos;
    for b := 0 to n
      invariant p <= |data|
      invariant ParseBins(data, pos, b) == Some(Parsed((bins, meta), p))
    {
      var bin := ReadBin(data, p);
      if bin.Err? {
        BinsNoneStays(data, pos, b + 1, n);
        return Err(bin.msg);
      }
      if bin.value.value.binNum == META_BIN {
        if |bin.value.value.chunks| != 2 {
          BinsNoneStays(data, pos, b + 1, n);
          return Err("Invalid metadata chunk, should have 2");
        }
        meta := MetaOf(bin.value.value);
      } else {
        bins := bins + [bin.value.value];
      }
      p := bin.value.next;
    }
    return Ok(Parsed((bins, meta), p));
  }

  method ReadReference(data: seq<uint8>, pos: nat) returns (r: Result<Parsed<Reference>>)
    ensures r.Ok? <==> ParseRef(data, pos).Some?
    ensures r.Ok? ==> r.value == ParseRef(data, pos).value
  {
    if pos + 4 > |data| {
      return Err("unexpected EOF");
    }
    var binCount := Int32At(data, pos);
    if binCount < 0 {
      return Err("makeslice: cap out of range");
    }
    var bins := ReadBins(data, pos + 4, binCount);
    if bins.Err? {
      return Err(bins.msg);
    }
    var p := bins.value.next;
    if p + 4 > |data| {
      return Err("unexpected EOF");
    }
    var intervalCount := Int32At(data, p);
    if intervalCount < 0 {
      return Err("makeslice: len out of range");
    }
    var ivs := ReadIntervals(data, p + 4, intervalCount);
    if ivs.Err? {
      return Err(ivs.msg);
    }
    return Ok(Parsed(Reference(bins.value.value.0, ivs.value, bins.value.value.1), p + 4 + 8 * intervalCount));
  }

  /** The reference loop of ReadIndex: n references from pos. */
  method ReadRefs(data: seq<uint8>, pos: nat, n: nat) returns (r: Result<Parsed<seq<Reference>>>)
    requires pos <= |data|
    ensures r.Ok? <==> ParseRefs(data, pos, n).Some?
    ensures r.Ok? ==> r.value == ParseRefs(data, pos, n).value
  {
    var refs: seq<Reference> := [];
    var p: nat := pos;
    for refId := 0 to n
      invariant p <= |data|
      invariant ParseRefs(data, pos, refId) == Some(Parsed(refs, p))
    {
      var ref := ReadReference(data, p);
      if ref.Err? {
        NoneStays(data, pos, refId + 1, n);
        return Err(ref.msg);
      }
      refs := refs + [ref.value.value];
      p := ref.value.next;
    }
    return Ok(Parsed(refs, p));
  }

  /** Once a reference fails to parse, so do all longer runs. */
  lemma {:induction false} NoneStays(data: seq<uint8>, pos: nat, k: nat, n: nat)
    requires k <= n && ParseRefs(data, pos, k).None?
    ensures ParseRefs(data, pos, n).None?
    decreases n - k
  {
    if k < n {
      NoneStays(data, pos, k + 1, n);
    }
  }

  /** ReadIndex over the bytes of a .bai file. */
  method ReadIndex(data: seq<uint8>) returns (r: Result<Index>)
    ensures r.Ok? <==> ParseIndex(data).Some?
    ensures r.Ok? ==> r.value == ParseIndex(data).value
  {
    if |data| < 4 {
      return Err("unexpected EOF");
    }
    if data[..4] != BAI_MAGIC {
      return Err("bam index invalid magic");
    }
    if |data| < 8 {
      return Err("unexpected EOF");
    }
    var refCount := Int32At(data, 4);
    if refCount < 0 {
      return Err("makeslice: len out of range");
    }
    var refs := ReadRefs(data, 8, refCount);
    if refs.Err? {
      return Err(refs.msg);
    }
    var p := refs.value.next;
    if p == |data| {
      return Ok(Index(refs.value.value, None));
    }
    if p + 8 > |data| {
      return Err("unexpected EOF");
    }
    return Ok(Index(refs.value.value, Some(Uint64At(data, p))));
  }
}
