/** Alignment coordinates (biopb.Coord) and half-open coordinate ranges:
    unmapped reads (RefId -1) sort after every mapped reference. */
module Coords {
  import opened Ints

  const INFINITY_POS: int := MAX_INT32
  const LIMIT_VALID_REF_ID: int := MAX_INT32 - 1
  const INFINITY_REF_ID: int := -1
  const UNMAPPED_REF_ID: int := INFINITY_REF_ID
  const INVALID_REF_ID: int := -2
  const INVALID_POS: int := -2

  /** A read's (reference, position, sequence number); all three are int32. */
  datatype Coord = Coord(refId: int, pos: int, seqNo: int)
  {
    predicate Valid() { IsInt32(refId) && IsInt32(pos) && IsInt32(seqNo) }
  }

  datatype CoordRange = CoordRange(start: Coord, limit: Coord)

  /** sortableRefID: unmapped reads take the largest int32. */
  function SortableRefId(id: int): (r: int)
    ensures id == INFINITY_REF_ID ==> r == MAX_INT32
    ensures id != INFINITY_REF_ID ==> r == id
  {
    if id == INFINITY_REF_ID then MAX_INT32 else id
  }

  /** Compare exactly as written: each difference is taken in int32 and so
      wraps around when the operands are far apart. */
  function CompareAsWritten(r: Coord, r1: Coord): int
    requires r.Valid() && r1.Valid()
  {
    var refid0 := SortableRefId(r.refId);
    var refid1 := SortableRefId(r1.refId);
    if refid0 != refid1 then WrapInt32(refid0 - refid1)
    else if r.pos != r1.pos then WrapInt32(r.pos - r1.pos)
    else WrapInt32(r.seqNo - r1.seqNo)
  }

  /** Compare as its comment promises (negative, zero, positive for <, =, >):
      the differences taken without wrap-around. */
  function Compare(r: Coord, r1: Coord): int
  {
    var refid0 := SortableRefId(r.refId);
    var refid1 := SortableRefId(r1.refId);
    if refid0 != refid1 then refid0 - refid1
    else if r.pos != r1.pos then r.pos - r1.pos
    else r.seqNo - r1.seqNo
  }

  /** The reference order: lexicographic on (sortable ref id, pos, seq). */
  predicate KeyLess(r: Coord, r1: Coord)
  {
    var a, b := SortableRefId(r.refId), SortableRefId(r1.refId);
    a < b || (a == b && (r.pos < r1.pos || (r.pos == r1.pos && r.seqNo < r1.seqNo)))
  }

  predicate SameKey(r: Coord, r1: Coord)
  {
    SortableRefId(r.refId) == SortableRefId(r1.refId) && r.pos == r1.pos && r.seqNo == r1.seqNo
  }

  /** Compare's sign is the lexicographic order of the keys. */
  lemma CompareIsKeyOrder(r: Coord, r1: Coord)
    ensures Compare(r, r1) < 0 <==> KeyLess(r, r1)
    ensures Compare(r, r1) == 0 <==> SameKey(r, r1)
    ensures Compare(r, r1) > 0 <==> KeyLess(r1, r)
  {
  }

  /** Compare is antisymmetric. */
  lemma CompareAntisymmetric(r: Coord, r1: Coord)
    ensures Compare(r, r1) < 0 <==> Compare(r1, r) > 0
    ensures Compare(r, r1) == 0 <==> Compare(r1, r) == 0
  {
  }

  /** Compare is transitive. */
  lemma CompareTransitive(a: Coord, b: Coord, c: Coord)
    requires Compare(a, b) <= 0 && Compare(b, c) <= 0
    ensures Compare(a, c) <= 0
    ensures Compare(a, b) < 0 || Compare(b, c) < 0 ==> Compare(a, c) < 0
  {
    CompareIsKeyOrder(a, b);
    CompareIsKeyOrder(b, c);
    CompareIsKeyOrder(a, c);
  }

  /** Unmapped reads sort after every mapped reference. */
  lemma UnmappedSortsLast(mapped: Coord, unmapped: Coord)
    requires 0 <= mapped.refId <= LIMIT_VALID_REF_ID && unmapped.refId == UNMAPPED_REF_ID
    ensures Compare(mapped, unmapped) < 0
  {
  }

  /** For valid reference ids (never MaxInt32, which would collide with the
      unmapped key) Compare is zero exactly when the coordinates are equal. */
  lemma CompareZeroIffEqual(r: Coord, r1: Coord)
    requires r.refId != MAX_INT32 && r1.refId != MAX_INT32
    ensures Compare(r, r1) == 0 <==> EQ(r, r1)
  {
  }

  /** The wrap-around: InfinityPos against position -1 (the position of some
      unmapped reads) on the same reference compares as smaller. */
  lemma CompareAsWrittenWraps()
    ensures CompareAsWritten(Coord(0, INFINITY_POS, 0), Coord(0, -1, 0)) < 0
    ensures Compare(Coord(0, INFINITY_POS, 0), Coord(0, -1, 0)) > 0
  {
  }

  /** When no difference leaves the int32 range, the source's Compare is the
      intended one. */
  lemma CompareAsWrittenAgrees(r: Coord, r1: Coord)
    requires r.Valid() && r1.Valid()
    requires IsInt32(SortableRefId(r.refId) - SortableRefId(r1.refId))
    requires IsInt32(r.pos - r1.pos) && IsInt32(r.seqNo - r1.seqNo)
    ensures CompareAsWritten(r, r1) == Compare(r, r1)
  {
  }

  function LT(r: Coord, r1: Coord): bool { Compare(r, r1) < 0 }
  function LE(r: Coord, r1: Coord): bool { Compare(r, r1) <= 0 }
  function GE(r: Coord, r1: Coord): bool { Compare(r, r1) >= 0 }
  function GT(r: Coord, r1: Coord): bool { Compare(r, r1) > 0 }

  /** EQ compares the raw fields. */
  function EQ(r: Coord, r1: Coord): bool
  {
    r.refId == r1.refId && r.pos == r1.pos && r.seqNo == r1.seqNo
  }

  /** The four comparisons are the two orders and their converses. */
  lemma ComparisonsConsistent(r: Coord, r1: Coord)
    ensures LT(r, r1) <==> GT(r1, r)
    ensures LE(r, r1) <==> GE(r1, r)
    ensures LE(r, r1) <==> !GT(r, r1)
    ensures LT(r, r1) <==> !GE(r, r1)
    ensures EQ(r, r1) ==> LE(r, r1) && GE(r, r1)
  {
  }

  /** Min returns whichever argument is not greater than the other. */
  function MinCoord(r: Coord, r1: Coord): (m: Coord)
    ensures m == r || m == r1
    ensures LE(m, r) && LE(m, r1)
  {
    if LT(r, r1) then r else r1
  }

  function RangeEQ(r: CoordRange, r1: CoordRange): bool
  {
    EQ(r.start, r1.start) && EQ(r.limit, r1.limit)
  }

  /** (a ∩ r) != ∅ for half-open ranges. */
  function Intersects(r: CoordRange, r1: CoordRange): bool
  {
    LT(r.start, r1.limit) && LT(r1.start, r.limit)
  }

  function Contains(r: CoordRange, a: Coord): bool
  {
    LE(r.start, a) && LT(a, r.limit)
  }

  function ContainsRange(r: CoordRange, a: CoordRange): bool
  {
    LE(r.start, a.start) && GE(r.limit, a.limit)
  }

  /** Intersects is symmetric. */
  lemma IntersectsSymmetric(r: CoordRange, r1: CoordRange)
    ensures Intersects(r, r1) == Intersects(r1, r)
  {
  }

  /** Two nonempty ranges intersect exactly when some coordinate lies in
      both (the later of the two starts, when they do). */
  lemma IntersectsIffCommonCoord(r: CoordRange, r1: CoordRange)
    requires LT(r.start, r.limit) && LT(r1.start, r1.limit)
    ensures Intersects(r, r1) <==> exists c :: Contains(r, c) && Contains(r1, c)
  {
    if Intersects(r, r1) {
      CompareAntisymmetric(r.start, r1.start);
      var c := if LT(r.start, r1.start) then r1.start else r.start;
      assert Contains(r, c) && Contains(r1, c);
    }
    if exists c :: Contains(r, c) && Contains(r1, c) {
      var c :| Contains(r, c) && Contains(r1, c);
      CompareTransitive(r.start, c, r1.limit);
      CompareTransitive(r1.start, c, r.limit);
    }
  }

  /** An empty range [s, s) holds no coordinate, yet it "intersects" every
      range with s strictly inside: Intersects looks only at the endpoints. */
  lemma IntersectsEmptyRange(s: Coord, r: CoordRange)
    ensures !exists c :: Contains(CoordRange(s, s), c)
    ensures Intersects(CoordRange(s, s), r) <==> LT(r.start, s) && LT(s, r.limit)
  {
    forall c
      ensures !Contains(CoordRange(s, s), c)
    {
      if Contains(CoordRange(s, s), c) {
        CompareTransitive(s, c, s);
        assert false;
      }
    }
  }

  /** A range contains every coordinate of the ranges it contains. */
  lemma ContainsRangeTransfers(r: CoordRange, a: CoordRange, c: Coord)
    requires ContainsRange(r, a) && Contains(a, c)
    ensures Contains(r, c)
  {
    CompareTransitive(r.start, a.start, c);
    CompareAntisymmetric(r.limit, a.limit);
    CompareTransitive(c, a.limit, r.limit);
  }

  /** Containment of ranges is reflexive and transitive. */
  lemma ContainsRangePreorder(r: CoordRange, a: CoordRange, b: CoordRange)
    ensures ContainsRange(r, r)
    ensures ContainsRange(r, a) && ContainsRange(a, b) ==> ContainsRange(r, b)
  {
    if ContainsRange(r, a) && ContainsRange(a, b) {
      CompareTransitive(r.start, a.start, b.start);
      CompareAntisymmetric(r.limit, a.limit);
      CompareAntisymmetric(a.limit, b.limit);
      CompareAntisymmetric(r.limit, b.limit);
      CompareTransitive(b.limit, a.limit, r.limit);
    }
  }
}
