/** Positions inside a read pair (fusion/position.go): a position below
    R2_POS_OFFSET indexes R1, one at or above it indexes R2. A result of None
    stands for the source's panic. */
module FusionPos {
  import opened Wrappers
  import opened Ints

  const R2_POS_OFFSET: int := 1000000000

  datatype ReadType = R1 | R2

  /** A half-open range [start, end) that stays inside one read. */
  datatype PosRange = PosRange(start: int, end: int)

  /** Pos.ReadType. */
  function ReadTypeOf(pos: int): (r: ReadType)
    ensures r == R2 <==> pos >= R2_POS_OFFSET
    ensures r == R1 <==> pos < R2_POS_OFFSET
  {
    if pos >= R2_POS_OFFSET then R2 else R1
  }

  /** newR2Pos: the idx'th base of R2; panics when idx already refers to R2. */
  function NewR2Pos(idx: int): (r: Option<int>)
    ensures r.Some? <==> ReadTypeOf(idx) == R1
    ensures r.Some? ==> ReadTypeOf(r.value) == R2 || idx < 0
  {
    if ReadTypeOf(idx) != R1 then None else Some(idx + R2_POS_OFFSET)
  }

  /** R2Off: the offset from the start of R2; panics on an R1 position. */
  function R2Off(pos: int): (r: Option<int>)
    ensures r.Some? <==> ReadTypeOf(pos) == R2
    ensures r.Some? ==> r.value >= 0
  {
    if pos < R2_POS_OFFSET then None else Some(pos - R2_POS_OFFSET)
  }

  /** Every non-negative index into R2 comes back from its R2 position. */
  lemma R2OffOfNewR2Pos(idx: int)
    requires 0 <= idx < R2_POS_OFFSET
    ensures NewR2Pos(idx).Some?
    ensures R2Off(NewR2Pos(idx).value) == Some(idx)
  {
  }

  /** And an R2 position is rebuilt from its offset. */
  lemma NewR2PosOfR2Off(pos: int)
    requires ReadTypeOf(pos) == R2 && pos < 2 * R2_POS_OFFSET
    ensures R2Off(pos).Some?
    ensures NewR2Pos(R2Off(pos).value) == Some(pos)
  {
  }

  /** Int64 arithmetic in newR2Pos never overflows: an R1 index that is a
      valid int64 stays one after adding the offset. */
  lemma NewR2PosNoOverflow(idx: int)
    requires IsInt64(idx) && ReadTypeOf(idx) == R1
    ensures IsInt64(NewR2Pos(idx).value)
  {
  }

  /** newPosRange: panics when the ends lie in different reads or when the
      range is inverted. */
  function NewPosRange(start: int, end: int): (r: Option<PosRange>)
    ensures r.Some? <==> ReadTypeOf(start) == ReadTypeOf(end) && start <= end
    ensures r.Some? ==> r.value.start == start && r.value.end == end
  {
    if ReadTypeOf(start) != ReadTypeOf(end) then None
    else if end < start then None
    else Some(PosRange(start, end))
  }

  /** posSpan(end, start): end - start, with the same panics as newPosRange. */
  function PosSpan(end: int, start: int): (r: Option<int>)
    ensures r.Some? <==> NewPosRange(start, end).Some?
    ensures r.Some? ==> r.value >= 0 && start + r.value == end
  {
    if ReadTypeOf(start) != ReadTypeOf(end) then None
    else if end < start then None
    else Some(end - start)
  }

  /** PosRange.readType: the read both ends lie in; panics on a cross-read
      range. */
  function RangeReadType(r: PosRange): (t: Option<ReadType>)
    ensures t.Some? <==> ReadTypeOf(r.start) == ReadTypeOf(r.end)
    ensures t.Some? ==> t.value == ReadTypeOf(r.start) && t.value == ReadTypeOf(r.end)
  {
    var typ := ReadTypeOf(r.start);
    if typ != ReadTypeOf(r.end) then None else Some(typ)
  }

  /** PosRange.span on a range built by newPosRange never panics and gives its
      length. */
  lemma SpanOfNewPosRange(start: int, end: int)
    requires NewPosRange(start, end).Some?
    ensures PosSpan(NewPosRange(start, end).value.end, NewPosRange(start, end).value.start)
            == Some(end - start)
    ensures RangeReadType(NewPosRange(start, end).value) == Some(ReadTypeOf(start))
  {
  }

  /** A range inside one read is still inside it after shrinking. */
  lemma SubRangeSameRead(r: PosRange, s: int, e: int)
    requires NewPosRange(r.start, r.end).Some?
    requires r.start <= s <= e <= r.end
    ensures NewPosRange(s, e).Some?
  {
  }

  /** newCrossReadPosRange: only an inverted range panics. */
  function NewCrossReadPosRange(start: int, end: int): (r: Option<PosRange>)
    ensures r.Some? <==> start <= end
    ensures r.Some? ==> r.value == PosRange(start, end)
  {
    if end < start then None else Some(PosRange(start, end))
  }

  /** Every range newPosRange accepts is also a valid cross-read range. */
  lemma PosRangeIsCrossRead(start: int, end: int)
    requires NewPosRange(start, end).Some?
    ensures NewCrossReadPosRange(start, end) == NewPosRange(start, end)
  {
  }

  function MaxPos(p1: int, p2: int): (r: int)
    ensures r >= p1 && r >= p2
    ensures r == p1 || r == p2
  {
    if p1 > p2 then p1 else p2
  }

  function MinPos(p1: int, p2: int): (r: int)
    ensures r <= p1 && r <= p2
    ensures r == p1 || r == p2
  {
    if p1 < p2 then p1 else p2
  }

  /** minPos and maxPos split a pair between them. */
  lemma MinMaxPos(p1: int, p2: int)
    ensures MinPos(p1, p2) + MaxPos(p1, p2) == p1 + p2
    ensures MinPos(p1, p2) <= MaxPos(p1, p2)
  {
  }
}
