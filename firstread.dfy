/** The table of first reads of pileup/snp/firstread.go: reads whose mate
    is still to come wait in a chained hash table indexed by position (in a
    circular window of nCirc positions) and by a hash of the read name,
    with a bitmap marking the nonempty buckets. */
module FirstReads {
  import opened Wrappers
  import PileupStrand

  /** readNameHtableSize. */
  const HTABLE_SIZE: nat := 1024

  predicate PowerOfTwo(n: nat)
    decreases n
  {
    n == 1 || (n > 1 && n % 2 == 0 && PowerOfTwo(n / 2))
  }

  /** What the table reads of a *sam.Record. */
  datatype Read = Read(name: string, pos: int, matePos: int)

  /** augSamr: a read with its cached end position. */
  datatype AugRead = AugRead(read: Read, mapEnd: int)

  /** Whether rec is the first read of the pair that r ends: the same name,
      and a mate position equal to r's position. */
  predicate IsMateOf(rec: AugRead, r: Read)
  {
    rec.read.matePos == r.pos && rec.read.name == r.name
  }

  /** The first entry of bucket that is r's mate, if any. */
  function FindMate(bucket: seq<AugRead>, r: Read): (i: Option<nat>)
    ensures i.Some? ==> i.value < |bucket| && IsMateOf(bucket[i.value], r)
                        && forall j :: 0 <= j < i.value ==> !IsMateOf(bucket[j], r)
    ensures i.None? ==> forall j :: 0 <= j < |bucket| ==> !IsMateOf(bucket[j], r)
  {
    if |bucket| == 0 then None
    else if IsMateOf(bucket[0], r) then Some(0)
    else match FindMate(bucket[1..], r)
      case None => None
      case Some(k) => Some(k + 1)
  }

  /** remove's edit of a bucket: entry i is overwritten by the last entry
      and the bucket shortened by one. */
  function SwapRemove(bucket: seq<AugRead>, i: nat): (r: seq<AugRead>)
    requires i < |bucket|
    ensures |r| == |bucket| - 1
  {
    var last := |bucket| - 1;
    (if i != last then bucket[i := bucket[last]] else bucket)[..last]
  }

  /** SwapRemove takes out exactly entry i, in some order. */
  lemma SwapRemoveMultiset(bucket: seq<AugRead>, i: nat)
    requires i < |bucket|
    ensures multiset(SwapRemove(bucket, i)) == multiset(bucket) - multiset{bucket[i]}
  {
    var last := |bucket| - 1;
    assert bucket == bucket[..last] + [bucket[last]];
    if i != last {
      var s := bucket[i := bucket[last]];
      assert s[..last] == bucket[..last][i := bucket[last]];
      assert bucket[..last][i] == bucket[i];
    }
  }

  /** firstreadSNPTable. */
  class FirstreadTable {
    /** buckets[circPos, hashrem]. */
    var buckets: array2<seq<AugRead>>
    /** The set bits of the nonempty bitmap, as (circPos, hashrem) pairs. */
    var nonempty: set<(int, int)>
    /** murmur3.Sum32 of the read name. */
    const nameHash: string -> nat

    /** A bucket's bit is set exactly when the bucket is nonempty. */
    ghost predicate Valid()
      reads this, buckets
    {
      PowerOfTwo(buckets.Length0) && buckets.Length1 == HTABLE_SIZE
      && (forall c, h :: 0 <= c < buckets.Length0 && 0 <= h < HTABLE_SIZE ==>
            ((c, h) in nonempty <==> buckets[c, h] != []))
      && (forall p :: p in nonempty ==> 0 <= p.0 < buckets.Length0 && 0 <= p.1 < HTABLE_SIZE)
    }

    function NCirc(): nat
      reads this
    {
      buckets.Length0
    }

    /** pos & (nCirc - 1) for a power-of-two nCirc: the remainder, never
        negative (two's complement). */
    function CircPos(pos: int): (c: nat)
      reads this
      requires buckets.Length0 > 0
      ensures c < buckets.Length0
    {
      pos % buckets.Length0
    }

    /** firstreadSNPTableHashName. */
    function HashName(name: string): (h: nat)
      ensures h < HTABLE_SIZE
    {
      nameHash(name) % HTABLE_SIZE
    }

    /** newFirstreadSNPTable: nCirc rows of empty buckets. */
    constructor(nCirc: nat, nameHash: string -> nat)
      requires PowerOfTwo(nCirc)
      ensures Valid() && fresh(buckets) && NCirc() == nCirc && this.nameHash == nameHash
      ensures nonempty == {}
      ensures forall c, h :: 0 <= c < nCirc && 0 <= h < HTABLE_SIZE ==> buckets[c, h] == []
    {
      buckets := new seq<AugRead>[nCirc, HTABLE_SIZE]((_, _) => []);
      nonempty := {};
      this.nameHash := nameHash;
    }

    /** add: appends rec to the bucket of its position and name, setting
        the bucket's bit when it was empty. */
    method Add(rec: AugRead)
      requires Valid()
      modifies this`nonempty, buckets
      ensures Valid()
      ensures var c, h := CircPos(rec.read.pos), HashName(rec.read.name);
              buckets[c, h] == old(buckets[c, h]) + [rec] && nonempty == old(nonempty) + {(c, h)}
              && forall i, j :: 0 <= i < NCirc() && 0 <= j < HTABLE_SIZE && (i, j) != (c, h) ==>
                   buckets[i, j] == old(buckets[i, j])
    {
      var circPos := CircPos(rec.read.pos);
      var hashrem := HashName(rec.read.name);
      if |buckets[circPos, hashrem]| == 0 {
        nonempty := nonempty + {(circPos, hashrem)};
      }
      buckets[circPos, hashrem] := buckets[circPos, hashrem] + [rec];
    }

    /** remove: entry i of the bucket at (pos, hashrem) is replaced by the
        last entry and the bucket shortened; the bit is cleared when the
        bucket becomes empty. */
    method Remove(pos: int, hashrem: nat, i: nat)
      requires Valid() && hashrem < HTABLE_SIZE && i < |buckets[CircPos(pos), hashrem]|
      modifies this`nonempty, buckets
      ensures Valid()
      ensures var c := CircPos(pos);
              buckets[c, hashrem] == SwapRemove(old(buckets[c, hashrem]), i)
              && nonempty == (if buckets[c, hashrem] == [] then old(nonempty) - {(c, hashrem)} else old(nonempty))
              && forall k, j :: 0 <= k < NCirc() && 0 <= j < HTABLE_SIZE && (k, j) != (c, hashrem) ==>
                   buckets[k, j] == old(buckets[k, j])
    {
      var circPos := CircPos(pos);
      var bucket := buckets[circPos, hashrem];
      var lenMinus1 := |bucket| - 1;
      if i != lenMinus1 {
        bucket := bucket[i := bucket[lenMinus1]];
      }
      buckets[circPos, hashrem] := bucket[..lenMinus1];
      if lenMinus1 == 0 {
        nonempty := nonempty - {(circPos, hashrem)};
      }
    }

    /** tryRemove: takes out and returns the first entry of the bucket at
        r's mate position and r's name hash that is r's mate; None, and the
        table untouched, when there is none. */
    method TryRemove(r: Read) returns (found: Option<AugRead>)
      requires Valid()
      modifies this`nonempty, buckets
      ensures Valid()
      ensures var c, h := CircPos(r.matePos), HashName(r.name);
              var idx := FindMate(old(buckets[c, h]), r);
              (idx.None? ==> found.None? && nonempty == old(nonempty)
                             && forall k, j :: 0 <= k < NCirc() && 0 <= j < HTABLE_SIZE ==> buckets[k, j] == old(buckets[k, j]))
              && (idx.Some? ==> found == Some(old(buckets[c, h])[idx.value])
                                && buckets[c, h] == SwapRemove(old(buckets[c, h]), idx.value)
                                && nonempty == (if buckets[c, h] == [] then old(nonempty) - {(c, h)} else old(nonempty))
                                && forall k, j :: 0 <= k < NCirc() && 0 <= j < HTABLE_SIZE && (k, j) != (c, h) ==>
                                     buckets[k, j] == old(buckets[k, j]))
    {
      var pos := r.matePos;
      var circPos := CircPos(pos);
      var hashrem := HashName(r.name);
      var bucket := buckets[circPos, hashrem];
      for i := 0 to |bucket|
        invariant FindMate(bucket, r).None? || i <= FindMate(bucket, r).value
      {
        if bucket[i].read.matePos == r.pos && bucket[i].read.name == r.name {
          Remove(pos, hashrem, i);
          return Some(bucket[i]);
        }
      }
      return None;
    }

    /** addOrRemove, with readPair[0] given as the read and its mapEnd and
        the filled part of readPair returned as pair:
        - a read with no strand, or whose mate cannot overlap it, is
          processed alone (1);
        - a read at or after its mate's position whose mate is in the
          table is processed with it (2);
        - a read after its mate's position whose mate is missing is
          processed alone (1);
        - otherwise the read is stored (0). */
    method AddOrRemove(r: Read, mapEnd: int, strand: PileupStrand.Strand, maxReadSpan: int)
      returns (n: nat, pair: seq<AugRead>)
      requires Valid()
      modifies this`nonempty, buckets
      ensures Valid()
      ensures |pair| == n
      ensures n >= 1 ==> pair[0] == AugRead(r, mapEnd)
      ensures var c, h := CircPos(r.matePos), HashName(r.name);
              var separate := strand == PileupStrand.StrandNone || r.matePos >= mapEnd || r.matePos + maxReadSpan <= r.pos;
              var mate := FindMate(old(buckets[c, h]), r);
              (separate ==> n == 1 && nonempty == old(nonempty)
                            && forall k, j :: 0 <= k < NCirc() && 0 <= j < HTABLE_SIZE ==> buckets[k, j] == old(buckets[k, j]))
              && (!separate && r.pos >= r.matePos && mate.Some? ==>
                    n == 2 && pair[1] == old(buckets[c, h])[mate.value]
                    && buckets[c, h] == SwapRemove(old(buckets[c, h]), mate.value)
                    && nonempty == (if buckets[c, h] == [] then old(nonempty) - {(c, h)} else old(nonempty))
                    && forall k, j :: 0 <= k < NCirc() && 0 <= j < HTABLE_SIZE && (k, j) != (c, h) ==>
                         buckets[k, j] == old(buckets[k, j]))
              && (!separate && r.pos > r.matePos && mate.None? ==>
                    n == 1 && nonempty == old(nonempty)
                    && forall k, j :: 0 <= k < NCirc() && 0 <= j < HTABLE_SIZE ==> buckets[k, j] == old(buckets[k, j]))
              && (!separate && (r.pos < r.matePos || (r.pos == r.matePos && mate.None?)) ==>
                    n == 0 && buckets[CircPos(r.pos), h] == old(buckets[CircPos(r.pos), h]) + [AugRead(r, mapEnd)]
                    && nonempty == old(nonempty) + {(CircPos(r.pos), h)}
                    && forall k, j :: 0 <= k < NCirc() && 0 <= j < HTABLE_SIZE && (k, j) != (CircPos(r.pos), h) ==>
                         buckets[k, j] == old(buckets[k, j]))
    {
      var matePos := r.matePos;
      var pos := r.pos;
      if strand == PileupStrand.StrandNone || matePos >= mapEnd || matePos + maxReadSpan <= pos {
        return 1, [AugRead(r, mapEnd)];
      }
      if pos >= matePos {
        var mate := TryRemove(r);
        if mate.Some? {
          return 2, [AugRead(r, mapEnd), mate.value];
        }
        if pos != matePos {
          return 1, [AugRead(r, mapEnd)];
        }
      }
      Add(AugRead(r, mapEnd));
      return 0, [];
    }
  }
}
