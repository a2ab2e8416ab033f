/** Duplicate-marking keys (markduplicates/duplicate_key.go): the orientation
    byte of a single fragment or of a read pair, and the key a group of
    duplicates shares. A log.Fatal is the None outcome. */
module DuplicateKeys {
  import opened Wrappers

  /** The six orientation values, in the source's iota order: two for a
      single fragment, four for a pair (left read first). */
  datatype Orientation = F | R | FF | FR | RF | RR

  /** duplicateKey: one key per group of duplicates. For a single read the
      right reference and position are -1. */
  datatype DuplicateKey = DuplicateKey(
    leftRefId: int, leftPos: int, rightRefId: int, rightPos: int,
    orientation: Orientation, strand: int)

  /** isSingle */
  predicate IsSingle(k: DuplicateKey)
  {
    k.orientation == F || k.orientation == R
  }

  predicate SingleOrientation(o: Orientation)
  {
    o == F || o == R
  }

  /** orientationByteSingle */
  function OrientationByteSingle(reversed: bool): (o: Orientation)
    ensures SingleOrientation(o)
    ensures o == R <==> reversed
  {
    if reversed then R else F
  }

  /** orientationBytePair: the left read's direction, then the right read's. */
  function OrientationBytePair(leftReversed: bool, rightReversed: bool): (o: Orientation)
    ensures !SingleOrientation(o)
  {
    if leftReversed then
      if rightReversed then RR else RF
    else if rightReversed then FR
    else FF
  }

  /** leftOrientation: the left read's direction in a pair orientation; fatal
      on a single fragment's orientation. */
  function LeftOrientation(o: Orientation): (r: Option<Orientation>)
    ensures r.None? <==> SingleOrientation(o)
    ensures r.Some? ==> SingleOrientation(r.value)
  {
    if o == F || o == R then None
    else if o == FF || o == FR then Some(F)
    else Some(R)
  }

  /** rightOrientation: the right read's direction in a pair orientation;
      fatal on a single fragment's orientation. */
  function RightOrientation(o: Orientation): (r: Option<Orientation>)
    ensures r.None? <==> SingleOrientation(o)
    ensures r.Some? ==> SingleOrientation(r.value)
  {
    if o == F || o == R then None
    else if o == FF || o == RF then Some(F)
    else Some(R)
  }

  /** A key is single exactly when its orientation is F or R, and that
      happens for no pair orientation. */
  lemma IsSingleIff(k: DuplicateKey, leftReversed: bool, rightReversed: bool)
    ensures IsSingle(k) <==> SingleOrientation(k.orientation)
    ensures !IsSingle(k.(orientation := OrientationBytePair(leftReversed, rightReversed)))
    ensures IsSingle(k.(orientation := OrientationByteSingle(leftReversed)))
  {
  }

  /** leftOrientation and rightOrientation take a pair orientation apart
      into the two single orientations it was built from. */
  lemma PairOrientationSplits(leftReversed: bool, rightReversed: bool)
    ensures LeftOrientation(OrientationBytePair(leftReversed, rightReversed)) == Some(OrientationByteSingle(leftReversed))
    ensures RightOrientation(OrientationBytePair(leftReversed, rightReversed)) == Some(OrientationByteSingle(rightReversed))
  {
  }

  /** The four pair orientations are exactly the four direction pairs: every
      non-single orientation is built from one pair, and no two pairs share
      an orientation. */
  lemma PairOrientationCovers(o: Orientation)
    requires !SingleOrientation(o)
    ensures exists l: bool, r: bool :: OrientationBytePair(l, r) == o
  {
    var l := o == RF || o == RR;
    var r := o == FR || o == RR;
    assert OrientationBytePair(l, r) == o;
  }

  lemma PairOrientationInjective(l1: bool, r1: bool, l2: bool, r2: bool)
    requires OrientationBytePair(l1, r1) == OrientationBytePair(l2, r2)
    ensures l1 == l2 && r1 == r2
  {
  }
}
