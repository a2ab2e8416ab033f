/** PAM path strings and coordinate-range checks
    (encoding/pam/pamutil/pamutil.go). */
module PamUtil {
  import opened Wrappers
  import opened Ints
  import opened Coords
  import opened Decimals

  /** gbam.UniversalRange: from (0, 0, 0) up to the unmapped reads'
      infinity coordinate. */
  const UNIVERSAL_RANGE := CoordRange(Coord(0, 0, 0), Coord(INFINITY_REF_ID, INFINITY_POS, 0))

  // ---------------------------------------------------------------------
  // Path strings

  /** "-" for an infinite reference or position, else the %d text. */
  function RefText(refId: int): string
  {
    if refId == INFINITY_REF_ID then "-" else IntStr(refId)
  }

  function PosText(pos: int): string
  {
    if pos == INFINITY_POS then "-" else IntStr(pos)
  }

  /** CoordPathString: "ref:pos", with ":seq" appended only when seq != 0. */
  function CoordPathString(r: Coord): string
  {
    var head := RefText(r.refId) + ":" + PosText(r.pos);
    if r.seqNo == 0 then head else head + ":" + IntStr(r.seqNo)
  }

  function CoordRangePathString(r: CoordRange): string
  {
    CoordPathString(r.start) + "," + CoordPathString(r.limit)
  }

  /** The data file of a field: "dir/<range>.<field>". */
  function FieldDataPath(dir: string, recRange: CoordRange, field: string): string
  {
    dir + "/" + CoordRangePathString(recRange) + "." + field
  }

  /** The shard index file: "dir/<range>.index". */
  function ShardIndexPath(dir: string, recRange: CoordRange): string
  {
    dir + "/" + CoordRangePathString(recRange) + ".index"
  }

  /** The shard index path is the field data path of the field "index". */
  lemma ShardIndexIsFieldPath(dir: string, recRange: CoordRange)
    ensures ShardIndexPath(dir, recRange) == FieldDataPath(dir, recRange, "index")
  {
  }

  // ---------------------------------------------------------------------
  // BlockIntersectsRange

  /** Whether the closed block [startAddr, endAddr] meets the half-open
      userRange. */
  function BlockIntersectsRange(startAddr: Coord, endAddr: Coord, userRange: CoordRange): bool
  {
    LT(startAddr, userRange.limit) && LE(userRange.start, endAddr)
  }

  /** For a nonempty block and range this is exactly "some coordinate lies
      in both": the block is closed at both ends, the range only at its
      start. */
  lemma BlockIntersectsRangeIffCommon(startAddr: Coord, endAddr: Coord, userRange: CoordRange)
    requires LE(startAddr, endAddr) && LT(userRange.start, userRange.limit)
    ensures BlockIntersectsRange(startAddr, endAddr, userRange) <==>
      exists c :: LE(startAddr, c) && LE(c, endAddr) && Contains(userRange, c)
  {
    if BlockIntersectsRange(startAddr, endAddr, userRange) {
      CompareAntisymmetric(startAddr, userRange.start);
      var c := if LT(startAddr, userRange.start) then userRange.start else startAddr;
      assert LE(startAddr, c) && LE(c, endAddr) && Contains(userRange, c);
    }
    if exists c :: LE(startAddr, c) && LE(c, endAddr) && Contains(userRange, c) {
      var c :| LE(startAddr, c) && LE(c, endAddr) && Contains(userRange, c);
      CompareTransitive(startAddr, c, userRange.limit);
      CompareTransitive(userRange.start, c, endAddr);
    }
  }

  /** A block ending exactly at the range's start meets it; one starting at
      its limit does not. */
  lemma BlockEndpointsClosed(start: Coord, limit: Coord)
    requires LT(start, limit)
    ensures BlockIntersectsRange(Coord(0, 0, 0), start, CoordRange(start, limit))
            <==> LT(Coord(0, 0, 0), limit)
    ensures !BlockIntersectsRange(limit, limit, CoordRange(start, limit))
  {
  }

  // ---------------------------------------------------------------------
  // ValidateCoordRange

  /** validateRecAddr: a reference ID below -1, or a negative position or
      sequence number, is invalid. */
  predicate ValidRecAddr(r: Coord)
  {
    !(r.refId < -1 || r.pos < 0 || r.seqNo < 0)
  }

  predicate AllZero(r: CoordRange)
  {
    r.start == Coord(0, 0, 0) && r.limit == Coord(0, 0, 0)
  }

  /** ValidateCoordRange: the range as it is left in *r, or the error. An
      all-zero range becomes the universal range. */
  function ValidateCoordRange(r: CoordRange): (res: Result<CoordRange>)
  {
    if AllZero(r) then Ok(UNIVERSAL_RANGE)
    else if !ValidRecAddr(r.start) then Err("invalid record addr")
    else if !ValidRecAddr(r.limit) then Err("invalid record addr")
    else if LE(r.limit, r.start) then Err("limitref <= startref")
    else Ok(r)
  }

  /** The CoordRange that ValidateCoordRange is given the address of. */
  class RangeCell {
    var range: CoordRange

    constructor(r: CoordRange)
      ensures range == r
    {
      range := r;
    }
  }

  /** ValidateCoordRange on *r: the all-zero range is overwritten with the
      universal range; any other range is checked and left as it is. */
  method ValidateInPlace(cell: RangeCell) returns (err: Option<string>)
    modifies cell
    ensures err.None? <==> ValidateCoordRange(old(cell.range)).Ok?
    ensures err.None? ==> cell.range == ValidateCoordRange(old(cell.range)).value
    ensures err.Some? ==> cell.range == old(cell.range) && err.value == ValidateCoordRange(old(cell.range)).msg
  {
    var r := cell.range;
    if r.start.refId == 0 && r.start.pos == 0 && r.start.seqNo == 0
       && r.limit.refId == 0 && r.limit.pos == 0 && r.limit.seqNo == 0 {
      cell.range := UNIVERSAL_RANGE;
      return None;
    }
    if !ValidRecAddr(r.start) || !ValidRecAddr(r.limit) {
      return Some("invalid record addr");
    }
    if LE(r.limit, r.start) {
      return Some("limitref <= startref");
    }
    return None;
  }

  /** Validation accepts exactly the all-zero range and the ranges of valid
      addresses with start < limit; every range it accepts is left nonempty
      with valid addresses, and only the all-zero one is changed. */
  lemma ValidateCoordRangeOutcome(r: CoordRange)
    ensures ValidateCoordRange(r).Ok? <==>
      AllZero(r) || (ValidRecAddr(r.start) && ValidRecAddr(r.limit) && LT(r.start, r.limit))
    ensures ValidateCoordRange(r).Ok? ==>
      var v := ValidateCoordRange(r).value;
      LT(v.start, v.limit) && ValidRecAddr(v.start) && ValidRecAddr(v.limit)
      && (v == r || AllZero(r))
  {
    if !AllZero(r) {
      CompareAntisymmetric(r.limit, r.start);
    }
  }

  /** Validation is idempotent. */
  lemma ValidateCoordRangeIdempotent(r: CoordRange)
    requires ValidateCoordRange(r).Ok?
    ensures ValidateCoordRange(ValidateCoordRange(r).value) == ValidateCoordRange(r)
  {
    ValidateCoordRangeOutcome(r);
    var v := ValidateCoordRange(r).value;
    CompareAntisymmetric(v.limit, v.start);
  }
}
