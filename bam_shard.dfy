/** BAM shards (encoding/bam/shard.go): genomic intervals with padding, the
    per-shard coordinate generator, and the position-based sharding of a
    header's references. */
module BamShard {
  import opened Ints
  import opened Wrappers
  import opened Coords

  /** A reference of the BAM header: its id (its index in the header) and
      its length. */
  datatype Ref = Ref(id: int, len: int)

  /** sam.Reference's ID() and Len() answer -1 for a nil reference. */
  function RefID(r: Option<Ref>): int { if r.Some? then r.value.id else -1 }
  function RefLen(r: Option<Ref>): int { if r.Some? then r.value.len else -1 }

  /** [<startRef,start,startSeq>, <endRef,end,endSeq>) plus padding. */
  datatype Shard = Shard(startRef: Option<Ref>, endRef: Option<Ref>,
                         start: int, end: int, startSeq: int, endSeq: int,
                         padding: int, shardIdx: int)
  {
    /** max(0, start - padding). */
    function PadStart(padding: int): (r: int)
      ensures r >= 0 && r >= start - padding
      ensures r == 0 || r == start - padding
    {
      if start - padding > 0 then start - padding else 0
    }

    /** min(end + padding, length of endRef), except that a shard ending at
        <endRef, 0, 0> keeps its end at 0; the unmapped end reference is
        bounded by MaxInt32. */
    function PadEnd(padding: int): (r: int)
      ensures end == 0 && endSeq == 0 ==> r == 0
      ensures !(end == 0 && endSeq == 0) ==>
        r <= end + padding && (r == end + padding || r == (if endRef.None? then MAX_INT32 else RefLen(endRef)))
      ensures !(end == 0 && endSeq == 0) && endRef.None? ==> r <= MAX_INT32
      ensures !(end == 0 && endSeq == 0) && endRef.Some? ==> r <= RefLen(endRef)
    {
      if end == 0 && endSeq == 0 then 0
      else if endRef.None? then Min(MAX_INT32, end + padding)
      else Min(RefLen(endRef), end + padding)
    }

    /** Whether coord lies in [<startRef, PadStart>, <endRef, PadEnd>). */
    function CoordInShard(padding: int, coord: Coord): bool
    {
      var startCoord := NewCoord(startRef, PadStart(padding), 0);
      if LT(coord, startCoord) then false
      else
        var endCoord := NewCoord(endRef, PadEnd(padding), 0);
        LT(coord, endCoord)
    }

    /** The int32 fields of the shard, as the references and positions of
        real BAM files are. */
    predicate WellFormed()
    {
      -1 <= RefID(startRef) <= MAX_INT32 && -1 <= RefID(endRef) <= MAX_INT32 &&
      0 <= start <= MAX_INT32 && 0 <= end <= MAX_INT32 &&
      (endRef.Some? ==> 0 <= RefLen(endRef) <= MAX_INT32)
    }
  }

  /** biopb.Coord of (ref, pos, seq); an unmapped reference with a negative
      position gets position 0. */
  function NewCoord(ref: Option<Ref>, pos: int, seqNo: int): (c: Coord)
    requires IsInt32(seqNo)
    ensures c.Valid() && c.seqNo == seqNo
    ensures IsInt32(RefID(ref)) ==> c.refId == RefID(ref)
    ensures c.refId == INFINITY_REF_ID && pos < 0 ==> c.pos == 0
    ensures !(c.refId == INFINITY_REF_ID && pos < 0) ==> c.pos == WrapInt32(pos)
  {
    var a := Coord(WrapInt32(RefID(ref)), WrapInt32(pos), seqNo);
    if a.refId == INFINITY_REF_ID && pos < 0 then a.(pos := 0) else a
  }

  /** For a fixed reference NewCoord is monotonic in the position. */
  lemma NewCoordMonotonic(ref: Option<Ref>, p: int, q: int)
    requires IsInt32(RefID(ref)) && IsInt32(p) && IsInt32(q) && p <= q
    ensures LE(NewCoord(ref, p, 0), NewCoord(ref, q, 0))
  {
  }

  /** More padding never drops a coordinate: the padded shard contains the
      unpadded one. */
  lemma PaddingWidens(s: Shard, p: int, q: int, c: Coord)
    requires s.WellFormed() && 0 <= p <= q
    requires s.CoordInShard(p, c)
    ensures s.CoordInShard(q, c)
  {
    var pe, qe := s.PadEnd(p), s.PadEnd(q);
    assert 0 <= pe <= qe <= MAX_INT32;
    NewCoordMonotonic(s.startRef, s.PadStart(q), s.PadStart(p));
    CompareTransitive(NewCoord(s.startRef, s.PadStart(q), 0), NewCoord(s.startRef, s.PadStart(p), 0), c);
    NewCoordMonotonic(s.endRef, pe, qe);
    CompareTransitive(c, NewCoord(s.endRef, pe, 0), NewCoord(s.endRef, qe, 0));
  }

  /** CoordInShard is membership in the half-open coordinate range between
      the padded start and the padded end. */
  lemma CoordInShardIsRangeMembership(s: Shard, padding: int, c: Coord)
    ensures s.CoordInShard(padding, c) <==>
      Contains(CoordRange(NewCoord(s.startRef, s.PadStart(padding), 0), NewCoord(s.endRef, s.PadEnd(padding), 0)), c)
  {
  }

  /** A shard that ends at <ref, 0, 0> contains nothing of ref itself. */
  lemma ZeroEndExcludesEndRef(s: Shard, padding: int, pos: int)
    requires s.WellFormed() && s.endRef.Some? && s.end == 0 && s.endSeq == 0
    requires 0 <= pos <= MAX_INT32 && s.endRef.value.id >= 0
    ensures !s.CoordInShard(padding, Coord(s.endRef.value.id, pos, 0))
  {
  }

  // ---------------------------------------------------------------------
  // CoordGenerator

  /** The coordinate Generate hands out after last for a record at
      (refId, pos); None where the source panics (an illegal address or a
      decreasing coordinate). */
  function GenerateNext(last: Coord, refId: int, pos: int): (r: Option<Coord>)
  {
    var p := if refId == INFINITY_REF_ID then 0 else pos;
    if refId < UNMAPPED_REF_ID || p < 0 then None
    else
      var a := Coord(refId, p, 0);
      var cmp := Compare(a, Coord(last.refId, last.pos, 0));
      if cmp < 0 then None
      else if cmp == 0 then Some(last.(seqNo := last.seqNo + 1))
      else Some(a)
  }

  /** Every generated coordinate is strictly greater than the previous one,
      so (refId, pos, seq) identifies a record within a shard. */
  lemma GenerateIncreases(last: Coord, refId: int, pos: int)
    requires GenerateNext(last, refId, pos).Some?
    ensures LT(last, GenerateNext(last, refId, pos).value)
  {
  }

  /** A repeated (refId, pos) bumps the sequence number. */
  lemma GenerateRepeatBumpsSeq(last: Coord, seqNo: int)
    requires last.refId >= 0 && last.pos >= 0
    ensures GenerateNext(last, last.refId, last.pos) == Some(last.(seqNo := last.seqNo + 1))
  {
  }

  /** A new, larger (refId, pos) restarts the sequence at 0; a smaller one,
      or an illegal address, panics. */
  lemma GenerateNewOrPanic(last: Coord, refId: int, pos: int)
    requires refId >= 0 && pos >= 0
    ensures Compare(Coord(refId, pos, 0), Coord(last.refId, last.pos, 0)) > 0 ==>
      GenerateNext(last, refId, pos) == Some(Coord(refId, pos, 0))
    ensures Compare(Coord(refId, pos, 0), Coord(last.refId, last.pos, 0)) < 0 ==>
      GenerateNext(last, refId, pos).None?
    ensures GenerateNext(last, refId - refId - 2, pos).None?
    ensures GenerateNext(last, refId, -1 - pos).None?
  {
  }

  /** Unmapped reads all get position 0. */
  lemma GenerateUnmappedAtZero(last: Coord, pos: int)
    requires GenerateNext(last, INFINITY_REF_ID, pos).Some?
    ensures GenerateNext(last, INFINITY_REF_ID, pos).value.pos == 0
      || GenerateNext(last, INFINITY_REF_ID, pos).value == last.(seqNo := last.seqNo + 1)
  {
  }

  class CoordGenerator {
    var lastRec: Coord

    /** NewCoordGenerator: position -1 so that the first record at (0, 0)
        counts as new. */
    constructor()
      ensures lastRec == Coord(0, -1, 0)
    {
      lastRec := Coord(0, -1, 0);
    }

    /** Generate: None where the source panics; the state then does not
        matter. */
    method Generate(refId: int, pos: int) returns (r: Option<Coord>)
      modifies this
      ensures r == GenerateNext(old(lastRec), refId, pos)
      ensures r.Some? ==> lastRec == r.value && LT(old(lastRec), lastRec)
    {
      var p := pos;
      if refId == INFINITY_REF_ID {
        p := 0;
      }
      if refId < UNMAPPED_REF_ID || p < 0 {
        return None;
      }
      var a := Coord(refId, p, 0);
      var prev := Coord(lastRec.refId, lastRec.pos, 0);
      var cmp := Compare(a, prev);
      if cmp < 0 {
        return None;
      }
      if cmp == 0 {
        lastRec := lastRec.(seqNo := lastRec.seqNo + 1);
      } else {
        lastRec := a;
      }
      GenerateIncreases(old(lastRec), refId, pos);
      r := Some(lastRec);
    }
  }

  // ---------------------------------------------------------------------
  // Position-based sharding

  /** The shards GetPositionBasedShards cuts from one reference, starting at
      start and numbered from idx. */
  function RefTiles(ref: Ref, start: int, size: int, padding: int, idx: int): seq<Shard>
    requires size > 0 || start >= ref.len
    decreases if start < ref.len then ref.len - start else 0
  {
    if start >= ref.len then []
    else [Shard(Some(ref), Some(ref), start, Min(start + size, ref.len), 0, 0, padding, idx)]
         + RefTiles(ref, start + size, size, padding, idx + 1)
  }

  predicate SizeFits(refs: seq<Ref>, size: int)
  {
    size > 0 || forall i :: 0 <= i < |refs| ==> refs[i].len <= 0
  }

  /** The shards of every reference in header order, numbered from idx. */
  function AllTiles(refs: seq<Ref>, size: int, padding: int, idx: int): seq<Shard>
    requires SizeFits(refs, size)
  {
    if refs == [] then []
    else
      var t := RefTiles(refs[0], 0, size, padding, idx);
      t + AllTiles(refs[1..], size, padding, idx + |t|)
  }

  /** The full list, with the unmapped shard (no padding) when asked for. */
  function PositionShards(refs: seq<Ref>, size: int, padding: int, includeUnmapped: bool): seq<Shard>
    requires SizeFits(refs, size)
  {
    var t := AllTiles(refs, size, padding, 0);
    if includeUnmapped then t + [Shard(None, None, 0, MAX_INT32, 0, 0, 0, |t|)] else t
  }

  /** The tiles of one reference are nonempty, at most size long, start at
      start, abut one another, end at the reference's end and are numbered
      consecutively. */
  lemma {:induction false} RefTilesShape(ref: Ref, start: int, size: int, padding: int, idx: int)
    requires size > 0 || start >= ref.len
    ensures TileShape(RefTiles(ref, start, size, padding, idx), ref, start, size, padding, idx)
    decreases if start < ref.len then ref.len - start else 0
  {
    if start < ref.len {
      RefTilesShape(ref, start + size, size, padding, idx + 1);
    }
  }

  predicate TileShape(t: seq<Shard>, ref: Ref, start: int, size: int, padding: int, idx: int)
  {
    (t == [] <==> start >= ref.len) &&
    (t != [] ==> t[0].start == start && t[|t| - 1].end == ref.len) &&
    (forall j :: 0 <= j < |t| ==>
      t[j].startRef == t[j].endRef == Some(ref) && t[j].start < t[j].end <= t[j].start + size &&
      t[j].start >= start && t[j].end <= ref.len && t[j].startSeq == t[j].endSeq == 0 &&
      t[j].padding == padding && t[j].shardIdx == idx + j) &&
    (forall j :: 0 <= j < |t| - 1 ==> t[j].end == t[j + 1].start)
  }

  /** Every position of the reference from start on lies in some tile, and
      the tiles do not overlap. */
  lemma RefTilesCover(ref: Ref, start: int, size: int, padding: int, idx: int, p: int)
    requires size > 0 && start <= p < ref.len
    ensures exists j :: (0 <= j < |RefTiles(ref, start, size, padding, idx)| &&
      RefTiles(ref, start, size, padding, idx)[j].start <= p < RefTiles(ref, start, size, padding, idx)[j].end)
    ensures forall j, k :: 0 <= j < k < |RefTiles(ref, start, size, padding, idx)| ==>
      RefTiles(ref, start, size, padding, idx)[j].end <= RefTiles(ref, start, size, padding, idx)[k].start
  {
    var t := RefTiles(ref, start, size, padding, idx);
    RefTilesShape(ref, start, size, padding, idx);
    RefTilesOrdered(t, ref.len);
    var j := FindTile(t, start, ref.len, p);
    assert t[j].start <= p < t[j].end;
  }

  /** In a list of abutting nonempty tiles, a later tile starts at or after
      an earlier one's end. */
  lemma RefTilesOrdered(t: seq<Shard>, len: int)
    requires forall j :: 0 <= j < |t| ==> t[j].start < t[j].end
    requires forall j :: 0 <= j < |t| - 1 ==> t[j].end == t[j + 1].start
    ensures forall j, k :: 0 <= j < k < |t| ==> t[j].end <= t[k].start
  {
    forall j, k | 0 <= j < k < |t|
      ensures t[j].end <= t[k].start
    {
      var m := j + 1;
      while m < k
        invariant j < m <= k && t[j].end <= t[m].start
      {
        m := m + 1;
      }
    }
  }

  /** The tile that holds p, found by walking the abutting tiles. */
  lemma FindTile(t: seq<Shard>, start: int, len: int, p: int) returns (j: int)
    requires t != [] && t[0].start == start && t[|t| - 1].end == len && start <= p < len
    requires forall j :: 0 <= j < |t| ==> t[j].start < t[j].end
    requires forall j :: 0 <= j < |t| - 1 ==> t[j].end == t[j + 1].start
    ensures 0 <= j < |t| && t[j].start <= p < t[j].end
  {
    j := 0;
    while t[j].end <= p
      invariant 0 <= j < |t| && t[j].start <= p
      decreases |t| - j
    {
      j := j + 1;
    }
  }

  /** The header of a BAM file: reference ids strictly increase within the
      valid int32 range and lengths are int32. */
  predicate HeaderWellFormed(refs: seq<Ref>)
  {
    (forall i :: 0 <= i < |refs| ==> 0 <= refs[i].id <= LIMIT_VALID_REF_ID && 0 <= refs[i].len <= MAX_INT32) &&
    (forall i :: 0 < i < |refs| ==> refs[i - 1].id < refs[i].id)
  }

  /** ShardToCoordRange's start and limit (int32 conversions of each field). */
  function StartCoord(s: Shard): (c: Coord)
    ensures c.Valid()
  {
    Coord(WrapInt32(RefID(s.startRef)), WrapInt32(s.start), WrapInt32(s.startSeq))
  }

  function LimitCoord(s: Shard): (c: Coord)
    ensures c.Valid()
  {
    Coord(WrapInt32(RefID(s.endRef)), WrapInt32(s.end), WrapInt32(s.endSeq))
  }

  /** ValidateShardList's condition on shard i: not inverted, starting after
      the previous shard's start, and a nonnegative padding. */
  predicate ShardOk(shards: seq<Shard>, i: int)
    requires 0 <= i < |shards|
  {
    LT(StartCoord(shards[i]), LimitCoord(shards[i])) &&
    (i > 0 ==> LT(StartCoord(shards[i - 1]), StartCoord(shards[i]))) &&
    shards[i].padding >= 0
  }

  predicate ShardListValid(shards: seq<Shard>)
  {
    forall i :: 0 <= i < |shards| ==> ShardOk(shards, i)
  }

  /** ValidateShardList: false where the source panics. */
  method ValidateShardList(shards: seq<Shard>) returns (ok: bool)
    ensures ok <==> ShardListValid(shards)
  {
    var i := 0;
    while i < |shards|
      invariant 0 <= i <= |shards|
      invariant forall k :: 0 <= k < i ==> ShardOk(shards, k)
    {
      var coord := CoordRange(StartCoord(shards[i]), LimitCoord(shards[i]));
      if GE(coord.start, coord.limit) {
        assert !ShardOk(shards, i);
        return false;
      }
      if i > 0 {
        var prevCoord := CoordRange(StartCoord(shards[i - 1]), LimitCoord(shards[i - 1]));
        if LE(coord.start, prevCoord.start) {
          assert !ShardOk(shards, i);
          return false;
        }
      }
      if shards[i].padding < 0 {
        assert !ShardOk(shards, i);
        return false;
      }
      i := i + 1;
    }
    return true;
  }

  /** GetPositionBasedShards: None where ValidateShardList panics. */
  method GetPositionBasedShards(refs: seq<Ref>, shardSize: int, padding: int, includeUnmapped: bool)
    returns (r: Option<seq<Shard>>)
    requires SizeFits(refs, shardSize)
    ensures ShardListValid(PositionShards(refs, shardSize, padding, includeUnmapped)) ==>
      r == Some(PositionShards(refs, shardSize, padding, includeUnmapped))
    ensures !ShardListValid(PositionShards(refs, shardSize, padding, includeUnmapped)) ==> r.None?
  {
    var shards: seq<Shard> := [];
    var i := 0;
    while i < |refs|
      invariant 0 <= i <= |refs|
      invariant shards + AllTiles(refs[i..], shardSize, padding, |shards|) == AllTiles(refs, shardSize, padding, 0)
    {
      assert refs[i..][1..] == refs[i + 1..];
      assert SizeFits(refs[i..], shardSize);
      shards := TileReference(shards, refs[i], shardSize, padding);
      i := i + 1;
    }
    assert refs[|refs|..] == [];
    assert shards == AllTiles(refs, shardSize, padding, 0);
    if includeUnmapped {
      shards := shards + [Shard(None, None, 0, MAX_INT32, 0, 0, 0, |shards|)];
    }
    var ok := ValidateShardList(shards);
    if !ok {
      return None;
    }
    return Some(shards);
  }

  /** The inner loop of GetPositionBasedShards: appends the shards of one
      reference, numbered on from the shards already listed. */
  method TileReference(shards0: seq<Shard>, ref: Ref, shardSize: int, padding: int) returns (shards: seq<Shard>)
    requires shardSize > 0 || ref.len <= 0
    ensures shards == shards0 + RefTiles(ref, 0, shardSize, padding, |shards0|)
  {
    shards := shards0;
    var shardIdx := |shards0|;
    var start := 0;
    while start < ref.len
      invariant shardIdx == |shards| && (shardSize > 0 || start >= ref.len)
      invariant shards + RefTiles(ref, start, shardSize, padding, shardIdx) ==
        shards0 + RefTiles(ref, 0, shardSize, padding, |shards0|)
      decreases if start < ref.len then ref.len - start else 0
    {
      var end := Min(start + shardSize, ref.len);
      shards := shards + [Shard(Some(ref), Some(ref), start, end, 0, 0, padding, shardIdx)];
      start := start + shardSize;
      shardIdx := shardIdx + 1;
    }
  }

  /** Shard numbers are the positions in the list. */
  lemma {:induction false} AllTilesNumbered(refs: seq<Ref>, size: int, padding: int, idx: int)
    requires SizeFits(refs, size)
    ensures forall j :: 0 <= j < |AllTiles(refs, size, padding, idx)| ==>
      AllTiles(refs, size, padding, idx)[j].shardIdx == idx + j
  {
    if refs != [] {
      AllTilesUnfold(refs, size, padding, idx);
      var t := RefTiles(refs[0], 0, size, padding, idx);
      RefTilesShape(refs[0], 0, size, padding, idx);
      var rest := AllTiles(refs[1..], size, padding, idx + |t|);
      AllTilesNumbered(refs[1..], size, padding, idx + |t|);
      var all := t + rest;
      forall j | 0 <= j < |all|
        ensures all[j].shardIdx == idx + j
      {
        if j >= |t| {
          assert all[j] == rest[j - |t|];
        } else {
          assert all[j] == t[j];
        }
      }
    }
  }

  /** All tiles are mapped tiles on references with ids at least minId. */
  predicate AllMapped(t: seq<Shard>, padding: int, minId: int)
  {
    forall j :: 0 <= j < |t| ==> MappedTile(t[j], padding) && t[j].startRef.value.id >= minId
  }

  /** Facts about one tile that the validity proof needs. */
  predicate MappedTile(s: Shard, padding: int)
  {
    s.startRef.Some? && s.startRef == s.endRef &&
    0 <= s.startRef.value.id <= LIMIT_VALID_REF_ID && 0 <= s.start < s.end <= MAX_INT32 &&
    s.startSeq == 0 && s.endSeq == 0 && s.padding == padding
  }

  /** Tile a starts before tile b: by reference id, then start. */
  predicate TileBefore(a: Shard, b: Shard)
  {
    RefID(a.startRef) < RefID(b.startRef) || (RefID(a.startRef) == RefID(b.startRef) && a.start < b.start)
  }

  predicate StartsIncrease(t: seq<Shard>)
  {
    forall j :: 0 < j < |t| ==> TileBefore(t[j - 1], t[j])
  }

  lemma StartsIncreaseAppend(a: seq<Shard>, b: seq<Shard>)
    requires StartsIncrease(a) && StartsIncrease(b)
    requires a != [] && b != [] ==> TileBefore(a[|a| - 1], b[0])
    ensures StartsIncrease(a + b)
  {
    var c := a + b;
    forall j | 0 < j < |c|
      ensures TileBefore(c[j - 1], c[j])
    {
      if j < |a| {
      } else if j == |a| {
      } else {
        assert c[j - 1] == b[j - 1 - |a|] && c[j] == b[j - |a|];
      }
    }
  }

  lemma RefTilesValid(ref: Ref, size: int, padding: int, idx: int)
    requires size > 0 || 0 >= ref.len
    requires 0 <= ref.id <= LIMIT_VALID_REF_ID && 0 <= ref.len <= MAX_INT32
    ensures StartsIncrease(RefTiles(ref, 0, size, padding, idx))
    ensures AllMapped(RefTiles(ref, 0, size, padding, idx), padding, ref.id)
    ensures forall j :: 0 <= j < |RefTiles(ref, 0, size, padding, idx)| ==>
      RefTiles(ref, 0, size, padding, idx)[j].startRef == Some(ref)
  {
    RefTilesShape(ref, 0, size, padding, idx);
    var t := RefTiles(ref, 0, size, padding, idx);
    forall j | 0 <= j < |t|
      ensures MappedTile(t[j], padding) && t[j].startRef.value.id >= ref.id && t[j].startRef == Some(ref)
    {
    }
  }

  /** Tile starts compare by (reference id, start). */
  lemma TileLT(a: Shard, b: Shard, padding: int)
    requires MappedTile(a, padding) && MappedTile(b, padding)
    requires TileBefore(a, b)
    ensures LT(StartCoord(a), StartCoord(b))
  {
    assert StartCoord(a) == Coord(a.startRef.value.id, a.start, 0);
    assert StartCoord(b) == Coord(b.startRef.value.id, b.start, 0);
  }

  /** A mapped tile is not inverted, and starts before the unmapped shard. */
  lemma TileBounds(a: Shard, padding: int)
    requires MappedTile(a, padding)
    ensures LT(StartCoord(a), LimitCoord(a))
    ensures LT(StartCoord(a), StartCoord(Shard(None, None, 0, MAX_INT32, 0, 0, 0, 0)))
  {
    assert StartCoord(a) == Coord(a.startRef.value.id, a.start, 0);
    assert LimitCoord(a) == Coord(a.startRef.value.id, a.end, 0);
  }

  /** Every mapped tile is on a reference at or after the first one. */
  lemma {:induction false} AllTilesMapped(refs: seq<Ref>, size: int, padding: int, idx: int)
    requires SizeFits(refs, size) && HeaderWellFormed(refs)
    ensures refs != [] ==> AllMapped(AllTiles(refs, size, padding, idx), padding, refs[0].id)
    ensures refs == [] ==> AllTiles(refs, size, padding, idx) == []
  {
    if refs != [] {
      AllTilesUnfold(refs, size, padding, idx);
      RefTilesValid(refs[0], size, padding, idx);
      HeaderTail(refs, size);
      var n := |RefTiles(refs[0], 0, size, padding, idx)|;
      AllTilesMapped(refs[1..], size, padding, idx + n);
      if |refs| > 1 {
        AllMappedRaise(AllTiles(refs[1..], size, padding, idx + n), padding, refs[1].id, refs[0].id);
      }
      if |refs| == 1 {
        assert AllTiles(refs[1..], size, padding, idx + n) == [];
      }
      AllMappedAppend(RefTiles(refs[0], 0, size, padding, idx), AllTiles(refs[1..], size, padding, idx + n), padding, refs[0].id);
    }
  }

  lemma AllTilesUnfold(refs: seq<Ref>, size: int, padding: int, idx: int)
    requires refs != [] && SizeFits(refs, size)
    ensures SizeFits(refs[1..], size) && (size > 0 || refs[0].len <= 0)
    ensures AllTiles(refs, size, padding, idx) == RefTiles(refs[0], 0, size, padding, idx) +
      AllTiles(refs[1..], size, padding, idx + |RefTiles(refs[0], 0, size, padding, idx)|)
  {
  }

  lemma AllMappedRaise(b: seq<Shard>, padding: int, m1: int, m0: int)
    requires AllMapped(b, padding, m1) && m0 < m1
    ensures forall j :: 0 <= j < |b| ==> MappedTile(b[j], padding) && b[j].startRef.value.id > m0
  {
  }

  lemma AllMappedAppend(a: seq<Shard>, b: seq<Shard>, padding: int, minId: int)
    requires AllMapped(a, padding, minId)
    requires forall j :: 0 <= j < |b| ==> MappedTile(b[j], padding) && b[j].startRef.value.id > minId
    ensures AllMapped(a + b, padding, minId)
  {
  }

  lemma HeaderTail(refs: seq<Ref>, size: int)
    requires refs != [] && SizeFits(refs, size) && HeaderWellFormed(refs)
    ensures SizeFits(refs[1..], size) && HeaderWellFormed(refs[1..])
    ensures |refs| > 1 ==> refs[1..][0] == refs[1] && refs[0].id < refs[1].id
  {
  }

  /** The mapped tiles start in strictly increasing coordinate order. */
  lemma {:induction false} AllTilesIncrease(refs: seq<Ref>, size: int, padding: int, idx: int)
    requires SizeFits(refs, size) && HeaderWellFormed(refs)
    ensures StartsIncrease(AllTiles(refs, size, padding, idx))
  {
    if refs != [] {
      AllTilesUnfold(refs, size, padding, idx);
      RefTilesValid(refs[0], size, padding, idx);
      HeaderTail(refs, size);
      var n := |RefTiles(refs[0], 0, size, padding, idx)|;
      AllTilesIncrease(refs[1..], size, padding, idx + n);
      if n > 0 && AllTiles(refs[1..], size, padding, idx + n) != [] {
        TilesJunction(refs, size, padding, idx);
      }
      StartsIncreaseAppend(RefTiles(refs[0], 0, size, padding, idx), AllTiles(refs[1..], size, padding, idx + n));
    }
  }

  /** The last tile of the first reference starts before the first tile of
      the later references. */
  lemma TilesJunction(refs: seq<Ref>, size: int, padding: int, idx: int)
    requires |refs| > 1 && SizeFits(refs, size) && HeaderWellFormed(refs)
    requires RefTiles(refs[0], 0, size, padding, idx) != []
    requires AllTiles(refs[1..], size, padding, idx + |RefTiles(refs[0], 0, size, padding, idx)|) != []
    ensures TileBefore(RefTiles(refs[0], 0, size, padding, idx)[|RefTiles(refs[0], 0, size, padding, idx)| - 1],
                       AllTiles(refs[1..], size, padding, idx + |RefTiles(refs[0], 0, size, padding, idx)|)[0])
  {
    var t := RefTiles(refs[0], 0, size, padding, idx);
    RefTilesValid(refs[0], size, padding, idx);
    HeaderTail(refs, size);
    AllTilesMapped(refs[1..], size, padding, idx + |t|);
    var rest := AllTiles(refs[1..], size, padding, idx + |t|);
    assert MappedTile(rest[0], padding);
    assert rest[0].startRef.value.id >= refs[1].id > refs[0].id;
    assert t[|t| - 1].startRef == Some(refs[0]);
  }

  /** For a well-formed header and a nonnegative padding the shard list
      passes ValidateShardList, so GetPositionBasedShards never panics. */
  lemma PositionShardsValid(refs: seq<Ref>, size: int, padding: int, includeUnmapped: bool)
    requires SizeFits(refs, size) && HeaderWellFormed(refs) && padding >= 0
    ensures ShardListValid(PositionShards(refs, size, padding, includeUnmapped))
  {
    AllTilesMapped(refs, size, padding, 0);
    AllTilesIncrease(refs, size, padding, 0);
    var t := AllTiles(refs, size, padding, 0);
    var all := PositionShards(refs, size, padding, includeUnmapped);
    forall i | 0 <= i < |all|
      ensures ShardOk(all, i)
    {
      if i < |t| {
        assert all[i] == t[i];
        TileBounds(t[i], padding);
        if i > 0 {
          TileLT(t[i - 1], t[i], padding);
        }
      } else if i > 0 {
        TileBounds(t[i - 1], padding);
        assert StartCoord(all[i]) == StartCoord(Shard(None, None, 0, MAX_INT32, 0, 0, 0, 0));
      }
    }
  }

  /** A negative padding is refused as soon as any reference is nonempty. */
  lemma NegativePaddingRefused(refs: seq<Ref>, size: int, padding: int, includeUnmapped: bool)
    requires size > 0 && padding < 0 && refs != [] && refs[0].len > 0
    ensures !ShardListValid(PositionShards(refs, size, padding, includeUnmapped))
  {
    RefTilesShape(refs[0], 0, size, padding, 0);
    var all := PositionShards(refs, size, padding, includeUnmapped);
    assert all[0].padding == padding;
    assert !ShardOk(all, 0);
  }
}
