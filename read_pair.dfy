/** A read pair being completed (markduplicates/read_pair.go): the first read
    to arrive sits in left; its mate is placed so that left precedes right by
    (reference id, unclipped 5' position, file index). */
module ReadPairs {
  import opened Wrappers

  /** The parts of a sam.Record the ordering looks at. The unclipped 5'
      position is bam.UnclippedFivePrimePosition, computed by the caller. */
  datatype Read = Read(name: string, refId: int, fivePrime: int)

  /** A read together with its index in the input file. */
  datatype Placed = Placed(read: Read, fileIdx: nat)

  /** The order addRead tests: a strictly before b by reference id, then 5'
      position, then file index. */
  predicate Before(a: Placed, b: Placed)
  {
    a.read.refId < b.read.refId
    || (a.read.refId == b.read.refId && a.read.fivePrime < b.read.fivePrime)
    || (a.read.refId == b.read.refId && a.read.fivePrime == b.read.fivePrime && a.fileIdx < b.fileIdx)
  }

  /** Before is a strict total order on placements with distinct file indexes. */
  lemma BeforeTotal(a: Placed, b: Placed)
    requires a.fileIdx != b.fileIdx
    ensures Before(a, b) != Before(b, a)
  {
  }

  /** The (left, right) order addRead produces for two placed reads, given
      which one was there first. */
  function Ordered(first: Placed, second: Placed): (r: (Placed, Placed))
    ensures !Before(r.1, r.0)
    ensures {r.0, r.1} == {first, second}
  {
    if Before(second, first) then (second, first) else (first, second)
  }

  /** The order does not depend on which read arrived first, as long as the
      two reads come from different places in the file. */
  lemma OrderedSymmetric(a: Placed, b: Placed)
    requires a.fileIdx != b.fileIdx
    ensures Ordered(a, b) == Ordered(b, a)
  {
    BeforeTotal(a, b);
  }

  class ReadPair {
    var left: Read
    var right: Option<Read>
    var leftFileIdx: nat
    var rightFileIdx: nat

    /** A pair holding one read: right is missing and rightFileIdx is 0. */
    constructor (read: Read, fileIdx: nat)
      ensures left == read && leftFileIdx == fileIdx
      ensures right == None && rightFileIdx == 0
    {
      left := read;
      leftFileIdx := fileIdx;
      right := None;
      rightFileIdx := 0;
    }

    /** addRead: completes the pair. A third read is fatal (ok == false, and
        nothing changes). Otherwise the new read goes left when it is Before
        the current left read, and right otherwise; each file index moves with
        its read. */
    method AddRead(newRead: Read, fileIdx: nat) returns (ok: bool)
      modifies this
      ensures ok <==> old(right).None?
      ensures !ok ==> left == old(left) && right == old(right)
                      && leftFileIdx == old(leftFileIdx) && rightFileIdx == old(rightFileIdx)
      ensures ok ==> right.Some?
                     && (Placed(left, leftFileIdx), Placed(right.value, rightFileIdx))
                        == Ordered(Placed(old(left), old(leftFileIdx)), Placed(newRead, fileIdx))
      ensures ok && !Before(Placed(newRead, fileIdx), Placed(old(left), old(leftFileIdx))) ==>
                left == old(left) && leftFileIdx == old(leftFileIdx) && right == Some(newRead) && rightFileIdx == fileIdx
    {
      if right.Some? {
        return false;
      }
      if Before(Placed(newRead, fileIdx), Placed(left, leftFileIdx)) {
        right := Some(left);
        rightFileIdx := leftFileIdx;
        left := newRead;
        leftFileIdx := fileIdx;
      } else {
        right := Some(newRead);
        rightFileIdx := fileIdx;
      }
      ok := true;
    }
  }
}
