/** Per-shard bookkeeping of the paired-read pass (bampair/shard_info.go):
    an entry per shard, reachable both by the shard's start key and by its
    index, holding the read counts of the shard and of its start padding and,
    once computed, the file index of the first read of each. */
module BamPairShardInfo {
  import opened Ints
  import opened BamShard

  /** A shard's start, as the ordered tree keys it. */
  datatype Key = Key(refID: int, start: int)

  predicate KeyOk(k: Key) { IsInt64(k.refID) && IsInt64(k.start) }

  /** The reference ids and positions of BAM records are int32. */
  predicate KeyInt32(k: Key) { IsInt32(k.refID) && IsInt32(k.start) }

  /** Lexicographic order on (refID, start). */
  predicate KeyLess(a: Key, b: Key) {
    a.refID < b.refID || (a.refID == b.refID && a.start < b.start)
  }

  /** key.Compare: the difference of the reference ids, or else of the
      starts, as Go's int subtraction computes them. */
  function Compare(k: Key, k2: Key): (r: int)
    requires KeyOk(k) && KeyOk(k2)
    ensures IsInt64(r)
    ensures KeyInt32(k) && KeyInt32(k2) ==>
      (r < 0 <==> KeyLess(k, k2)) && (r == 0 <==> k == k2) && (r > 0 <==> KeyLess(k2, k))
  {
    var d := WrapInt64(k.refID - k2.refID);
    if d != 0 then d else WrapInt64(k.start - k2.start)
  }

  /** The tree key of a shard: its start reference's id and its start. */
  function ShardKey(s: Shard): Key {
    Key(RefID(s.startRef), s.start)
  }

  class ShardInfoEntry {
    const shard: Shard
    var numStartPadding: int
    var numReads: int
    var paddingStartFileIdx: int
    var shardStartFileIdx: int

    constructor (shard: Shard)
      ensures this.shard == shard
      ensures numStartPadding == 0 && numReads == 0 && paddingStartFileIdx == 0 && shardStartFileIdx == 0
    {
      this.shard := shard;
      numStartPadding := 0;
      numReads := 0;
      paddingStartFileIdx := 0;
      shardStartFileIdx := 0;
    }
  }

  /** The entry's first read has file index `start`, and its padding's
      first read comes numStartPadding reads earlier (uint64 arithmetic). */
  ghost predicate Indexed(e: ShardInfoEntry, start: int)
    reads e
  {
    e.shardStartFileIdx == start && e.paddingStartFileIdx == WrapUint64(start - e.numStartPadding)
  }

  /** The loop body of computeFileIndexes on one entry. */
  method SetFileIndexes(info: ShardInfoEntry, start: int)
    modifies info
    ensures Indexed(info, start)
    ensures info.numReads == old(info.numReads) && info.numStartPadding == old(info.numStartPadding)
  {
    info.shardStartFileIdx := start;
    info.paddingStartFileIdx := WrapUint64(info.shardStartFileIdx - info.numStartPadding);
  }

  /** The sum of the counts. */
  function Sum(s: seq<int>): int {
    if s == [] then 0 else Sum(s[..|s| - 1]) + s[|s| - 1]
  }

  /** The uint64 running sums before each count: the file index of the
      first read of each shard. */
  function Starts(counts: seq<int>): (r: seq<int>)
    ensures |r| == |counts|
  {
    if counts == [] then []
    else
      var c := counts[..|counts| - 1];
      Starts(c) + [WrapUint64(Sum(c))]
  }

  /** Start x is the sum of the counts before x, modulo 2^64. */
  lemma {:induction false} StartsAt(counts: seq<int>, x: nat)
    requires x < |counts|
    ensures Starts(counts)[x] == WrapUint64(Sum(counts[..x]))
  {
    var c := counts[..|counts| - 1];
    if x < |counts| - 1 {
      StartsAt(c, x);
      assert c[..x] == counts[..x];
    } else {
      assert c == counts[..x];
    }
  }

  /** Adding to a uint64 counter wraps like adding to the exact sum. */
  lemma AddWraps(a: int, c: int)
    ensures WrapUint64(WrapUint64(a) + c) == WrapUint64(a + c)
  {
    ModOfShift(a + c, -(a / TWO_64), TWO_64);
    assert a % TWO_64 + c == (a + c) + TWO_64 * -(a / TWO_64);
  }

  /** With nonnegative counts a prefix sums to no more than the whole. */
  lemma {:induction false} PrefixSumBounded(s: seq<int>, x: nat)
    requires forall i :: 0 <= i < |s| ==> s[i] >= 0
    requires x <= |s|
    ensures 0 <= Sum(s[..x]) <= Sum(s)
  {
    if x < |s| {
      assert s[..|s|][..x] == s[..x];
      PrefixSumBounded(s[..|s| - 1], x);
      assert s[..|s| - 1][..x] == s[..x];
    } else {
      assert s[..x] == s;
      if s != [] {
        PrefixSumBounded(s[..|s| - 1], |s| - 1);
        assert s[..|s| - 1][..|s| - 1] == s[..|s| - 1];
      }
    }
  }

  class ShardInfo {
    var byKey: map<Key, ShardInfoEntry>
    var byIndex: map<int, ShardInfoEntry>

    /** Each add creates its own entry, so no two indexes share one. */
    ghost predicate Valid()
      reads this
    {
      forall i, j :: i in byIndex && j in byIndex && i != j ==> byIndex[i] != byIndex[j]
    }

    /** newShardInfo. */
    constructor ()
      ensures Valid() && byKey == map[] && byIndex == map[]
    {
      byKey := map[];
      byIndex := map[];
    }

    /** add: a new entry with zero counts, under the shard's key and its index
        (replacing an entry already there). */
    method Add(shard: Shard)
      requires Valid()
      modifies this
      ensures Valid()
      ensures ShardKey(shard) in byKey && fresh(byKey[ShardKey(shard)])
      ensures var e := byKey[ShardKey(shard)];
        byKey == old(byKey)[ShardKey(shard) := e] && byIndex == old(byIndex)[shard.shardIdx := e]
        && e.shard == shard && e.numStartPadding == 0 && e.numReads == 0
        && e.paddingStartFileIdx == 0 && e.shardStartFileIdx == 0
    {
      var info := new ShardInfoEntry(shard);
      byKey := byKey[ShardKey(shard) := info];
      byIndex := byIndex[shard.shardIdx := info];
    }

    /** GetInfoByShard: the entry under the shard's key, or nil. */
    function GetInfoByShard(shard: Shard): (r: ShardInfoEntry?)
      reads this
      ensures r != null <==> ShardKey(shard) in byKey
      ensures r != null ==> r in byKey.Values && r == byKey[ShardKey(shard)]
    {
      if ShardKey(shard) in byKey then byKey[ShardKey(shard)] else null
    }

    /** GetInfoByIdx: the entry under the index, or nil. */
    function GetInfoByIdx(shardIdx: int): (r: ShardInfoEntry?)
      reads this
      ensures r != null <==> shardIdx in byIndex
      ensures r != null ==> r == byIndex[shardIdx]
    {
      if shardIdx in byIndex then byIndex[shardIdx] else null
    }

    function Len(): (n: nat)
      reads this
      ensures n == |byIndex.Keys|
    {
      |byIndex|
    }

    /** updateInfoByShard: false where Go panics (no entry under the shard's
        key); otherwise the entry's two counts are set and nothing else
        changes. */
    method UpdateInfoByShard(shard: Shard, numStartPadding: int, numReads: int) returns (found: bool)
      modifies byKey.Values
      ensures found <==> ShardKey(shard) in byKey
      ensures found ==> var e := byKey[ShardKey(shard)];
        e.numStartPadding == numStartPadding && e.numReads == numReads
        && e.paddingStartFileIdx == old(e.paddingStartFileIdx) && e.shardStartFileIdx == old(e.shardStartFileIdx)
      ensures forall e :: e in byKey.Values && (!found || e != byKey[ShardKey(shard)]) ==> unchanged(e)
    {
      var info := GetInfoByShard(shard);
      if info == null {
        return false;
      }
      info.numStartPadding := numStartPadding;
      info.numReads := numReads;
      return true;
    }

    /** computeFileIndexes: walking the indexes 0, 1, ... below the number of
        shards, each shard's first read follows the reads of the shards
        before it (a uint64 sum), and its padding's first read comes
        numStartPadding reads earlier. False where Go panics on an index with
        no entry; `counts` are the read counts of the shards walked. */
    method ComputeFileIndexes() returns (ok: bool, ghost counts: seq<int>)
      requires Valid()
      modifies byIndex.Values
      ensures ok <==> forall x :: 0 <= x < |byIndex| ==> x in byIndex
      ensures |counts| <= |byIndex| && (ok ==> |counts| == |byIndex|) && (!ok ==> |counts| !in byIndex)
      ensures forall x :: 0 <= x < |counts| ==> x in byIndex
      ensures forall x :: 0 <= x < |counts| ==> byIndex[x].numReads == counts[x] && Indexed(byIndex[x], Starts(counts)[x])
      ensures forall e :: e in byIndex.Values ==>
        e.numReads == old(e.numReads) && e.numStartPadding == old(e.numStartPadding)
    {
      var readCount := 0;
      counts := [];
      var x := 0;
      while x < |byIndex|
        invariant 0 <= x <= |byIndex| && |counts| == x
        invariant forall y :: 0 <= y < x ==> y in byIndex
        invariant readCount == WrapUint64(Sum(counts))
        invariant forall y :: 0 <= y < x ==> byIndex[y].numReads == counts[y] && Indexed(byIndex[y], Starts(counts)[y])
        invariant forall e :: e in byIndex.Values ==>
          e.numReads == old(e.numReads) && e.numStartPadding == old(e.numStartPadding)
      {
        if x !in byIndex {
          return false, counts;
        }
        var info := byIndex[x];
        SetFileIndexes(info, readCount);
        forall y | 0 <= y < x
          ensures byIndex[y].numReads == counts[y] && Indexed(byIndex[y], Starts(counts)[y])
        {
          assert byIndex[y] != info;
        }
        ghost var next := counts + [info.numReads];
        assert next[..x] == counts;
        assert Sum(next) == Sum(counts) + info.numReads;
        assert Starts(next) == Starts(counts) + [readCount];
        AddWraps(Sum(counts), info.numReads);
        readCount := WrapUint64(readCount + info.numReads);
        counts := next;
        x := x + 1;
      }
      return true, counts;
    }
  }

  /** The file indexes computed: each shard's first read comes right after
      the previous shard's reads (modulo 2^64), and when the counts are
      nonnegative and their total fits in a uint64 every index is the exact
      number of reads in the shards before it. */
  lemma FileIndexesFollow(counts: seq<int>, x: nat)
    requires x < |counts|
    ensures Sum(counts[..x + 1]) % TWO_64 == WrapUint64(Sum(counts[..x]) % TWO_64 + counts[x])
    ensures (forall i :: 0 <= i < |counts| ==> counts[i] >= 0) && Sum(counts) < TWO_64 ==>
      Sum(counts[..x]) % TWO_64 == Sum(counts[..x]) && Sum(counts[..x]) <= Sum(counts[..x + 1])
  {
    assert counts[..x + 1][..x] == counts[..x];
    AddWraps(Sum(counts[..x]), counts[x]);
    if (forall i :: 0 <= i < |counts| ==> counts[i] >= 0) && Sum(counts) < TWO_64 {
      PrefixSumBounded(counts, x);
    }
  }
}
