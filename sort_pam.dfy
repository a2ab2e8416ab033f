/** The sorter's PAM output planning (bio-bam-sort/sorter/pam.go): the row
    shard boundaries chosen from the index blocks of the sorted shard files,
    the file offsets a reader of a key range seeks to, and the conversion of
    a sort key to a PAM coordinate. */
module SortPam {
  import opened Wrappers
  import opened Ints
  import opened SortCoords
  import Coords

  // ---------------------------------------------------------------------
  // Sort keys and index blocks

  /** sortKey: a record's key and its sequence number among the records with
      that key. */
  datatype SortKey = SortKey(coord: RecCoord, seqNum: int)

  /** The order of sort keys: by key, then by sequence number. */
  predicate KeyLe(a: SortKey, b: SortKey) {
    a.coord < b.coord || (a.coord == b.coord && a.seqNum <= b.seqNum)
  }

  /** sortKey.compare: -1, 0 or 1 along KeyLe. */
  function KeyCompare(a: SortKey, b: SortKey): (r: int)
    ensures r == -1 || r == 0 || r == 1
    ensures r == 0 <==> a == b
    ensures r <= 0 <==> KeyLe(a, b)
  {
    if a.coord < b.coord then -1
    else if a.coord > b.coord then 1
    else if a.seqNum < b.seqNum then -1
    else if a.seqNum > b.seqNum then 1
    else 0
  }

  /** biopb.SortShardBlockIndex: the first key of a block of a sorted shard
      file, the block's record count and its offset in the file. */
  datatype BlockIndex = BlockIndex(startKey: RecCoord, startSeq: nat, numRecords: nat, fileOffset: nat)

  function BlockKey(b: BlockIndex): SortKey {
    SortKey(b.startKey, b.startSeq)
  }

  predicate SortedKeys(keys: seq<SortKey>) {
    forall i, j :: 0 <= i < j < |keys| ==> KeyLe(keys[i], keys[j])
  }

  /** The blocks of a shard file are in key order. */
  predicate SortedBlocks(blocks: seq<BlockIndex>) {
    forall i, j :: 0 <= i < j < |blocks| ==> KeyLe(BlockKey(blocks[i]), BlockKey(blocks[j]))
  }

  // ---------------------------------------------------------------------
  // Sorting the block keys

  /** Insert a key after the keys not above it. */
  function Insert(k: SortKey, keys: seq<SortKey>): (r: seq<SortKey>)
    ensures multiset(r) == multiset(keys) + multiset{k}
  {
    if keys == [] then [k]
    else if KeyLe(keys[0], k) then
      assert keys == [keys[0]] + keys[1..];
      [keys[0]] + Insert(k, keys[1..])
    else
      [k] + keys
  }

  /** Inserting into sorted keys keeps them sorted. */
  lemma {:induction false} InsertSorted(k: SortKey, keys: seq<SortKey>)
    requires SortedKeys(keys)
    ensures SortedKeys(Insert(k, keys))
  {
    if keys != [] && KeyLe(keys[0], k) {
      var rest := Insert(k, keys[1..]);
      InsertSorted(k, keys[1..]);
      assert keys == [keys[0]] + keys[1..];
      forall j | 0 <= j < |rest|
        ensures KeyLe(keys[0], rest[j])
      {
        assert rest[j] in multiset(rest);
        assert rest[j] == k || rest[j] in multiset(keys[1..]);
        if rest[j] != k {
          var i :| 0 <= i < |keys[1..]| && keys[1..][i] == rest[j];
          assert keys[i + 1] == rest[j];
        }
      }
      assert Insert(k, keys) == [keys[0]] + rest;
    }
  }

  /** sort.SliceStable of the keys by sortKey.compare. Keys that compare
      equal are equal, so stability does not change the result. */
  function SortKeys(keys: seq<SortKey>): (r: seq<SortKey>)
    ensures SortedKeys(r)
    ensures multiset(r) == multiset(keys)
  {
    if keys == [] then []
    else
      var front := SortKeys(keys[..|keys| - 1]);
      assert keys == keys[..|keys| - 1] + [keys[|keys| - 1]];
      InsertSorted(keys[|keys| - 1], front);
      Insert(keys[|keys| - 1], front)
  }

  // ---------------------------------------------------------------------
  // computePAMShardBounds

  /** The keys of a shard file's blocks, in the file's order. */
  function ShardKeys(shard: seq<BlockIndex>): (r: seq<SortKey>)
    ensures |r| == |shard|
  {
    if shard == [] then [] else ShardKeys(shard[..|shard| - 1]) + [BlockKey(shard[|shard| - 1])]
  }

  /** The keys of all the blocks, shard file after shard file. */
  function AllKeys(shards: seq<seq<BlockIndex>>): seq<SortKey> {
    if shards == [] then [] else AllKeys(shards[..|shards| - 1]) + ShardKeys(shards[|shards| - 1])
  }

  function ShardRecords(shard: seq<BlockIndex>): nat {
    if shard == [] then 0 else ShardRecords(shard[..|shard| - 1]) + shard[|shard| - 1].numRecords
  }

  function TotalRecords(shards: seq<seq<BlockIndex>>): nat {
    if shards == [] then 0 else TotalRecords(shards[..|shards| - 1]) + ShardRecords(shards[|shards| - 1])
  }

  /** The number of blocks is the number of keys. */
  lemma {:induction false} AllKeysCount(shards: seq<seq<BlockIndex>>)
    ensures |AllKeys(shards)| == TotalBlocks(shards)
  {
    if shards != [] {
      AllKeysCount(shards[..|shards| - 1]);
    }
  }

  function TotalBlocks(shards: seq<seq<BlockIndex>>): nat {
    if shards == [] then 0 else TotalBlocks(shards[..|shards| - 1]) + |shards[|shards| - 1]|
  }

  /** Some block holds a record whenever the total is not zero. */
  lemma {:induction false} RecordsNeedBlocks(shards: seq<seq<BlockIndex>>)
    ensures TotalRecords(shards) > 0 ==> TotalBlocks(shards) > 0
  {
    if shards != [] {
      RecordsNeedBlocks(shards[..|shards| - 1]);
      ShardRecordsNeedBlocks(shards[|shards| - 1]);
    }
  }

  lemma ShardRecordsNeedBlocks(shard: seq<BlockIndex>)
    ensures ShardRecords(shard) > 0 ==> |shard| > 0
  {
  }

  /** clearReverseFlag: the key of the same position on the forward strand. */
  function ClearReverseFlag(coord: RecCoord): (r: RecCoord)
    ensures r % 2 == 0
  {
    var p := ParseCoord(coord);
    ForwardKeyEven(p.refid, p.pos);
    MakeCoord(p.refid, p.pos, false)
  }

  /** The bounds chosen so far and the next goal, both as the loop of
      computePAMShardBounds keeps them. Record counts are scaled by the
      number of blocks, so that the running estimate k * records / blocks is
      the exact k * records. */
  datatype Walk = Walk(bounds: seq<RecCoord>, goal: int)

  /** The state after walking `keys` (the sorted keys from the second one on):
      after the k-th key the estimated record count is k * records; a key
      whose estimate reaches the goal becomes a bound, its reverse flag
      cleared, unless the last bound is the same, and the next goal is the
      estimate plus a shard's worth of records. */
  function WalkKeys(keys: seq<SortKey>, records: int, blocks: int, perShard: int): Walk {
    if keys == [] then Walk([], perShard * blocks)
    else
      var w := WalkKeys(keys[..|keys| - 1], records, blocks, perShard);
      var cur := |keys| * records;
      var coord := ClearReverseFlag(keys[|keys| - 1].coord);
      if cur < w.goal then w
      else if |w.bounds| > 0 && w.bounds[|w.bounds| - 1] == coord then w
      else Walk(w.bounds + [coord], cur + perShard * blocks)
  }

  /** computePAMShardBounds's result: none when there are no records,
      otherwise the walk over the sorted keys after the first. */
  function ShardBounds(shards: seq<seq<BlockIndex>>, perShard: int): seq<RecCoord> {
    var keys := SortKeys(AllKeys(shards));
    if TotalRecords(shards) == 0 || keys == [] then []
    else WalkKeys(keys[1..], TotalRecords(shards), TotalBlocks(shards), perShard).bounds
  }

  /** The two loops collecting the keys and the totals. */
  method CollectKeys(shards: seq<seq<BlockIndex>>) returns (allKeys: seq<SortKey>, totalRecords: int, totalBlocks: int)
    ensures allKeys == AllKeys(shards) && totalRecords == TotalRecords(shards) && totalBlocks == TotalBlocks(shards)
  {
    allKeys := [];
    totalRecords := 0;
    totalBlocks := 0;
    var i := 0;
    while i < |shards|
      invariant 0 <= i <= |shards|
      invariant allKeys == AllKeys(shards[..i])
      invariant totalRecords == TotalRecords(shards[..i]) && totalBlocks == TotalBlocks(shards[..i])
    {
      var shard := shards[i];
      var j := 0;
      while j < |shard|
        invariant 0 <= j <= |shard|
        invariant allKeys == AllKeys(shards[..i]) + ShardKeys(shard[..j])
        invariant totalRecords == TotalRecords(shards[..i]) + ShardRecords(shard[..j])
      {
        assert shard[..j + 1][..j] == shard[..j];
        allKeys := allKeys + [BlockKey(shard[j])];
        totalRecords := totalRecords + shard[j].numRecords;
        j := j + 1;
      }
      assert shard[..j] == shard;
      assert shards[..i + 1][..i] == shards[..i];
      totalBlocks := totalBlocks + |shard|;
      i := i + 1;
    }
    assert shards[..i] == shards;
  }

  /** The loop choosing the bounds over the sorted keys after the first. */
  method WalkBounds(keys: seq<SortKey>, records: int, blocks: int, perShard: int) returns (bounds: seq<RecCoord>)
    ensures bounds == WalkKeys(keys, records, blocks, perShard).bounds
  {
    bounds := [];
    var nextGoal := perShard * blocks;
    var cur := 0;
    var k := 0;
    while k < |keys|
      invariant 0 <= k <= |keys| && cur == k * records
      invariant Walk(bounds, nextGoal) == WalkKeys(keys[..k], records, blocks, perShard)
    {
      assert keys[..k + 1][..k] == keys[..k];
      cur := cur + records;
      var coord := ClearReverseFlag(keys[k].coord);
      k := k + 1;
      if cur < nextGoal {
        continue;
      }
      if |bounds| > 0 && bounds[|bounds| - 1] == coord {
        continue;
      }
      bounds := bounds + [coord];
      nextGoal := cur + perShard * blocks;
    }
    assert keys[..k] == keys;
  }

  /** computePAMShardBounds. */
  method ComputePAMShardBounds(shards: seq<seq<BlockIndex>>, recordsPerShard: int) returns (bounds: seq<RecCoord>)
    ensures bounds == ShardBounds(shards, recordsPerShard)
    ensures TotalRecords(shards) == 0 ==> bounds == []
  {
    var allKeys, totalRecords, totalBlocks := CollectKeys(shards);
    if totalRecords == 0 {
      return [];
    }
    RecordsNeedBlocks(shards);
    AllKeysCount(shards);
    allKeys := SortKeys(allKeys);
    assert |allKeys| == |multiset(allKeys)| == TotalBlocks(shards);
    bounds := WalkBounds(allKeys[1..], totalRecords, totalBlocks, recordsPerShard);
  }

  /** Each bound is a walked key with its reverse flag cleared. */
  predicate ClearedKeys(b: seq<RecCoord>, keys: seq<SortKey>) {
    forall i :: 0 <= i < |b| ==> b[i] % 2 == 0 && exists j :: 0 <= j < |keys| && b[i] == ClearReverseFlag(keys[j].coord)
  }

  predicate NoConsecutiveRepeats(b: seq<RecCoord>) {
    forall i :: 0 < i < |b| ==> b[i - 1] != b[i]
  }

  /** There are no more bounds than walked keys, and each is a walked key
      with its reverse flag cleared. */
  lemma {:induction false} BoundsFromKeys(keys: seq<SortKey>, records: int, blocks: int, perShard: int)
    ensures |WalkKeys(keys, records, blocks, perShard).bounds| <= |keys|
    ensures ClearedKeys(WalkKeys(keys, records, blocks, perShard).bounds, keys)
  {
    if keys != [] {
      var front := keys[..|keys| - 1];
      BoundsFromKeys(front, records, blocks, perShard);
      var b0 := WalkKeys(front, records, blocks, perShard).bounds;
      forall i | 0 <= i < |b0|
        ensures exists j :: 0 <= j < |keys| && b0[i] == ClearReverseFlag(keys[j].coord)
      {
        var j :| 0 <= j < |front| && b0[i] == ClearReverseFlag(front[j].coord);
        assert keys[j] == front[j];
      }
    }
  }

  /** No two consecutive bounds are equal. */
  lemma {:induction false} BoundsNoRepeats(keys: seq<SortKey>, records: int, blocks: int, perShard: int)
    ensures NoConsecutiveRepeats(WalkKeys(keys, records, blocks, perShard).bounds)
  {
    if keys != [] {
      BoundsNoRepeats(keys[..|keys| - 1], records, blocks, perShard);
    }
  }

  /** While the estimated record count stays below one shard's worth, no
      bound is chosen. */
  lemma {:induction false} FewRecordsNoBounds(keys: seq<SortKey>, records: int, blocks: int, perShard: int)
    requires records >= 0 && |keys| * records < perShard * blocks
    ensures WalkKeys(keys, records, blocks, perShard) == Walk([], perShard * blocks)
  {
    if keys != [] {
      var front := keys[..|keys| - 1];
      assert |front| * records <= |keys| * records;
      FewRecordsNoBounds(front, records, blocks, perShard);
    }
  }

  // ---------------------------------------------------------------------
  // Keys of real records

  /** A key makeCoord gives to a real record: a mapped position, or the
      unmapped key on either strand. */
  predicate RecordKey(c: RecCoord) {
    c / 2 == UNMAPPED_COORD / 2 || (c / TWO_33 <= MAX_INT32 && (c % TWO_33) / 2 <= MAX_INT32)
  }

  /** makeCoord gives record keys. */
  lemma MakeCoordIsRecordKey(refid: int, pos: int, reverse: bool)
    requires refid < 0 || Mapped(refid, pos)
    ensures RecordKey(MakeCoord(refid, pos, reverse))
  {
    if refid >= 0 {
      MappedKey(refid, pos, reverse);
      var low := 2 * pos + (if reverse then 1 else 0);
      DivModUnique(MakeCoord(refid, pos, reverse), TWO_33, refid, low);
    }
  }

  /** On record keys clearReverseFlag clears bit 0 and nothing else. */
  lemma ClearOfRecordKey(c: RecCoord)
    requires RecordKey(c)
    ensures ClearReverseFlag(c) == c - c % 2
  {
    if c / 2 == UNMAPPED_COORD / 2 {
      DivModUnique(c, 2, 0x3fff_ffff_ffff_ffff, c % 2);
      UnmappedParses(-1, -1, c % 2 == 1);
    } else {
      var refid, pos := c / TWO_33, (c % TWO_33) / 2;
      var reverse := c % 2 == 1;
      DivModUnique(c % TWO_33, 2, pos, c % 2);
      assert c == refid * TWO_33 + 2 * pos + (if reverse then 1 else 0);
      MappedKey(refid, pos, reverse);
      MappedKey(refid, pos, false);
      ParseMakeCoord(refid, pos, reverse);
    }
  }

  predicate Increasing(b: seq<RecCoord>) {
    forall i, j :: 0 <= i < j < |b| ==> b[i] < b[j]
  }

  /** The last bound is at most the last walked key, cleared. */
  predicate LastAtMost(b: seq<RecCoord>, keys: seq<SortKey>) {
    |b| > 0 ==> |keys| > 0 && b[|b| - 1] <= ClearReverseFlag(keys[|keys| - 1].coord)
  }

  /** The keys' cleared coordinates do not decrease. */
  predicate ClearedNondecreasing(keys: seq<SortKey>) {
    forall i, j :: 0 <= i < j < |keys| ==> ClearReverseFlag(keys[i].coord) <= ClearReverseFlag(keys[j].coord)
  }

  /** Sorted record keys stay in order once their reverse flags are cleared. */
  lemma SortedRecordKeysCleared(keys: seq<SortKey>)
    requires SortedKeys(keys)
    requires forall j :: 0 <= j < |keys| ==> RecordKey(keys[j].coord)
    ensures ClearedNondecreasing(keys)
  {
    forall i, j | 0 <= i < j < |keys|
      ensures ClearReverseFlag(keys[i].coord) <= ClearReverseFlag(keys[j].coord)
    {
      ClearOfRecordKey(keys[i].coord);
      ClearOfRecordKey(keys[j].coord);
      assert KeyLe(keys[i], keys[j]);
    }
  }

  /** When the keys' cleared coordinates do not decrease (as for sorted
      record keys), the bounds increase strictly. */
  lemma {:induction false} BoundsIncrease(keys: seq<SortKey>, records: int, blocks: int, perShard: int)
    requires ClearedNondecreasing(keys)
    ensures Increasing(WalkKeys(keys, records, blocks, perShard).bounds)
    ensures LastAtMost(WalkKeys(keys, records, blocks, perShard).bounds, keys)
  {
    if keys != [] {
      var front := keys[..|keys| - 1];
      assert ClearedNondecreasing(front);
      BoundsIncrease(front, records, blocks, perShard);
      var w := WalkKeys(front, records, blocks, perShard);
      var c := ClearReverseFlag(keys[|keys| - 1].coord);
      if |w.bounds| > 0 {
        assert w.bounds[|w.bounds| - 1] <= c;
        AppendIncreasing(w.bounds, c);
      }
    }
  }

  lemma AppendIncreasing(b: seq<RecCoord>, c: RecCoord)
    requires Increasing(b) && |b| > 0 && b[|b| - 1] <= c
    ensures b[|b| - 1] != c ==> Increasing(b + [c])
  {
  }

  predicate AllRecordKeys(keys: seq<SortKey>) {
    forall j :: 0 <= j < |keys| ==> RecordKey(keys[j].coord)
  }

  /** A permutation of record keys holds only record keys. */
  lemma PermutedRecordKeys(keys: seq<SortKey>, all: seq<SortKey>)
    requires multiset(keys) == multiset(all) && AllRecordKeys(all)
    ensures AllRecordKeys(keys)
  {
    forall j | 0 <= j < |keys|
      ensures RecordKey(keys[j].coord)
    {
      assert keys[j] in multiset(all);
    }
  }

  /** The walk's bounds have their reverse flags cleared and no consecutive
      repeats, and increase strictly over sorted record keys. */
  lemma WalkShape(keys: seq<SortKey>, records: int, blocks: int, perShard: int)
    ensures NoConsecutiveRepeats(WalkKeys(keys, records, blocks, perShard).bounds)
    ensures ClearedKeys(WalkKeys(keys, records, blocks, perShard).bounds, keys)
    ensures SortedKeys(keys) && AllRecordKeys(keys) ==> Increasing(WalkKeys(keys, records, blocks, perShard).bounds)
  {
    BoundsNoRepeats(keys, records, blocks, perShard);
    BoundsFromKeys(keys, records, blocks, perShard);
    if SortedKeys(keys) && AllRecordKeys(keys) {
      SortedRecordKeysCleared(keys);
      BoundsIncrease(keys, records, blocks, perShard);
    }
  }

  /** computePAMShardBounds's bounds have their reverse flags cleared and no
      consecutive repeats; when every block starts at a record key they are
      in strictly increasing order, as its comment promises. */
  lemma ShardBoundsShape(shards: seq<seq<BlockIndex>>, perShard: int)
    ensures NoConsecutiveRepeats(ShardBounds(shards, perShard))
    ensures forall i :: 0 <= i < |ShardBounds(shards, perShard)| ==> ShardBounds(shards, perShard)[i] % 2 == 0
    ensures AllRecordKeys(AllKeys(shards)) ==> Increasing(ShardBounds(shards, perShard))
  {
    var keys := SortKeys(AllKeys(shards));
    if TotalRecords(shards) != 0 && keys != [] {
      if AllRecordKeys(AllKeys(shards)) {
        PermutedRecordKeys(keys, AllKeys(shards));
      }
      assert SortedKeys(keys[1..]);
      WalkShape(keys[1..], TotalRecords(shards), TotalBlocks(shards), perShard);
    }
  }

  // ---------------------------------------------------------------------
  // startFileOffset and limitFileOffset

  /** The block starts at or after the key. */
  predicate AtLeast(b: BlockIndex, key: SortKey) {
    KeyCompare(BlockKey(b), key) >= 0
  }

  /** sort.Search's binary search between lo and hi for the predicate
      AtLeast: Go keeps the predicate true at hi (or hi past the end). */
  function Search(blocks: seq<BlockIndex>, key: SortKey, lo: int, hi: int): (n: int)
    requires 0 <= lo <= hi <= |blocks|
    requires hi < |blocks| ==> AtLeast(blocks[hi], key)
    ensures lo <= n <= hi
    ensures n < |blocks| ==> AtLeast(blocks[n], key)
    decreases hi - lo
  {
    if lo >= hi then lo
    else
      var h := (lo + hi) / 2;
      if !AtLeast(blocks[h], key) then Search(blocks, key, h + 1, hi)
      else Search(blocks, key, lo, h)
  }

  /** On sorted blocks the search finds the first block at or after the key. */
  lemma {:induction false} SearchFindsFirst(blocks: seq<BlockIndex>, key: SortKey, lo: int, hi: int)
    requires SortedBlocks(blocks)
    requires 0 <= lo <= hi <= |blocks|
    requires hi < |blocks| ==> AtLeast(blocks[hi], key)
    requires forall k :: 0 <= k < lo ==> !AtLeast(blocks[k], key)
    ensures forall k :: 0 <= k < Search(blocks, key, lo, hi) ==> !AtLeast(blocks[k], key)
    decreases hi - lo
  {
    if lo < hi {
      var h := (lo + hi) / 2;
      if !AtLeast(blocks[h], key) {
        forall k | 0 <= k < h + 1
          ensures !AtLeast(blocks[k], key)
        {
          if k < h {
            assert KeyLe(BlockKey(blocks[k]), BlockKey(blocks[h]));
          }
        }
        SearchFindsFirst(blocks, key, h + 1, hi);
      } else {
        SearchFindsFirst(blocks, key, lo, h);
      }
    }
  }

  /** The index of the first block at or after the key, as both offset
      functions compute it. */
  function FirstAtLeast(blocks: seq<BlockIndex>, coord: RecCoord): (n: int)
    ensures 0 <= n <= |blocks|
    ensures n < |blocks| ==> AtLeast(blocks[n], SortKey(coord, 0))
    ensures SortedBlocks(blocks) ==> forall k :: 0 <= k < n ==> !AtLeast(blocks[k], SortKey(coord, 0))
  {
    var n := Search(blocks, SortKey(coord, 0), 0, |blocks|);
    if SortedBlocks(blocks) then
      SearchFindsFirst(blocks, SortKey(coord, 0), 0, |blocks|);
      n
    else n
  }

  /** startFileOffset's outcomes: an offset, the index panic on an empty
      block list, and the fatal error on a block found below the key. */
  datatype StartOffset = Offset(value: int) | IndexPanic | Fatal

  /** startFileOffset. */
  function StartFileOffset(blocks: seq<BlockIndex>, coord: RecCoord): (r: StartOffset)
    ensures r == IndexPanic <==> blocks == []
    ensures r != Fatal
  {
    var key := SortKey(coord, 0);
    var n := FirstAtLeast(blocks, coord);
    if n >= |blocks| then
      if blocks == [] then IndexPanic else Offset(WrapInt64(blocks[|blocks| - 1].fileOffset))
    else
      var comp := KeyCompare(BlockKey(blocks[n]), key);
      if comp == 0 then Offset(WrapInt64(blocks[n].fileOffset))
      else if comp < 0 then Fatal
      else if n >= 1 then Offset(WrapInt64(blocks[n - 1].fileOffset))
      else Offset(0)
  }

  /** A block starting exactly at the key, with none before it, is where
      reading starts. */
  lemma StartAtKey(blocks: seq<BlockIndex>, coord: RecCoord, m: int)
    requires SortedBlocks(blocks) && 0 <= m < |blocks|
    requires BlockKey(blocks[m]) == SortKey(coord, 0)
    requires forall k :: 0 <= k < m ==> BlockKey(blocks[k]) != SortKey(coord, 0)
    ensures StartFileOffset(blocks, coord) == Offset(WrapInt64(blocks[m].fileOffset))
  {
    var n := FirstAtLeast(blocks, coord);
  }

  /** Otherwise reading starts at the last block before the key, since the
      key's records may begin inside it. */
  lemma StartBeforeKey(blocks: seq<BlockIndex>, coord: RecCoord, m: int)
    requires SortedBlocks(blocks) && 0 <= m < |blocks|
    requires KeyCompare(BlockKey(blocks[m]), SortKey(coord, 0)) < 0
    requires m + 1 < |blocks| ==> KeyCompare(BlockKey(blocks[m + 1]), SortKey(coord, 0)) > 0
    ensures StartFileOffset(blocks, coord) == Offset(WrapInt64(blocks[m].fileOffset))
  {
    var n := FirstAtLeast(blocks, coord);
  }

  /** When every block starts after the key, reading starts at offset 0. */
  lemma StartAllAfter(blocks: seq<BlockIndex>, coord: RecCoord)
    requires SortedBlocks(blocks) && blocks != []
    requires KeyCompare(BlockKey(blocks[0]), SortKey(coord, 0)) > 0
    ensures StartFileOffset(blocks, coord) == Offset(0)
  {
  }

  /** limitFileOffset. */
  function LimitFileOffset(blocks: seq<BlockIndex>, coord: RecCoord): (r: int)
    ensures r == MAX_INT64 || exists k :: 0 <= k < |blocks| && r == WrapInt64(blocks[k].fileOffset)
  {
    var n := FirstAtLeast(blocks, coord);
    if n >= |blocks| then MAX_INT64 else WrapInt64(blocks[n].fileOffset)
  }

  /** On sorted blocks the limit is the first block at or after the key, or
      MaxInt64 when every block starts before it. */
  lemma LimitIsFirstAtLeast(blocks: seq<BlockIndex>, coord: RecCoord, m: int)
    requires SortedBlocks(blocks) && 0 <= m <= |blocks|
    requires m < |blocks| ==> KeyCompare(BlockKey(blocks[m]), SortKey(coord, 0)) >= 0
    requires forall k :: 0 <= k < m ==> KeyCompare(BlockKey(blocks[k]), SortKey(coord, 0)) < 0
    ensures LimitFileOffset(blocks, coord) == (if m == |blocks| then MAX_INT64 else WrapInt64(blocks[m].fileOffset))
  {
    var n := FirstAtLeast(blocks, coord);
  }

  /** Five sorted blocks starting at keys 1, 2, 2, 2 and 8. */
  function ExampleBlocks(): seq<BlockIndex> {
    [BlockIndex(1, 0, 99, 10), BlockIndex(2, 0, 99, 11), BlockIndex(2, 0, 99, 12),
     BlockIndex(2, 0, 99, 13), BlockIndex(8, 0, 99, 14)]
  }

  /** Their offsets for keys no block starts at. */
  lemma FileOffsetExamples()
    ensures StartFileOffset(ExampleBlocks(), 0) == Offset(0)
    ensures StartFileOffset(ExampleBlocks(), 5) == Offset(13)
    ensures StartFileOffset(ExampleBlocks(), 1000) == Offset(14)
    ensures LimitFileOffset(ExampleBlocks(), 1) == 10
    ensures LimitFileOffset(ExampleBlocks(), 2) == 11
    ensures LimitFileOffset(ExampleBlocks(), 5) == 14
  {
    var blocks := ExampleBlocks();
    assert SortedBlocks(blocks);
    StartAllAfter(blocks, 0);
    StartBeforeKey(blocks, 5, 3);
    StartBeforeKey(blocks, 1000, 4);
    LimitIsFirstAtLeast(blocks, 1, 0);
    LimitIsFirstAtLeast(blocks, 2, 1);
    LimitIsFirstAtLeast(blocks, 5, 4);
  }

  // ---------------------------------------------------------------------
  // recCoordToRecAddr

  /** recCoordToRecAddr: the zero key, the unmapped key and the invalid key
      have fixed coordinates; any other key is parsed. */
  function RecCoordToRecAddr(coord: RecCoord): Coords.Coord {
    if coord == 0 then Coords.Coord(0, 0, 0)
    else if coord == UNMAPPED_COORD then Coords.Coord(Coords.INFINITY_REF_ID, 0, 0)
    else if coord == INVALID_COORD then Coords.Coord(Coords.INFINITY_REF_ID, Coords.INFINITY_POS, 0)
    else
      var p := ParseCoord(coord);
      if p.refid < 0 then Coords.Coord(Coords.UNMAPPED_REF_ID, 0, 0)
      else Coords.Coord(WrapInt32(p.refid), WrapInt32(p.pos), 0)
  }

  /** A mapped key converts to its own reference id and position. */
  lemma RecAddrOfMapped(refid: int, pos: int, reverse: bool)
    requires Mapped(refid, pos)
    ensures RecCoordToRecAddr(MakeCoord(refid, pos, reverse)) == Coords.Coord(refid, pos, 0)
  {
    MappedNotUnmapped(refid, pos, reverse);
    ParseMakeCoord(refid, pos, reverse);
    if MakeCoord(refid, pos, reverse) == 0 {
      MappedKey(refid, pos, reverse);
    }
    assert UnmappedBits(UNMAPPED_COORD) && UnmappedBits(INVALID_COORD);
  }

  /** The unmapped key, on either strand, converts to the start of the
      unmapped reads. */
  lemma RecAddrOfUnmapped(refid: int, pos: int, reverse: bool)
    requires refid < 0
    ensures RecCoordToRecAddr(MakeCoord(refid, pos, reverse)) == Coords.Coord(Coords.UNMAPPED_REF_ID, 0, 0)
  {
    UnmappedParses(refid, pos, reverse);
  }

  /** The invalid key converts to the largest coordinate. */
  lemma InvalidIsLargest(c: RecCoord)
    ensures Coords.Compare(RecCoordToRecAddr(c), RecCoordToRecAddr(INVALID_COORD)) <= 0
  {
  }

  /** For positions whose reference ids are below 2^30 (or unmapped), the key
      order is kept by the conversion to PAM coordinates. */
  lemma RecAddrKeepsOrder(r1: int, p1: int, v1: bool, r2: int, p2: int, v2: bool)
    requires r1 < 0 || (Mapped(r1, p1) && r1 < 0x4000_0000)
    requires r2 < 0 || (Mapped(r2, p2) && r2 < 0x4000_0000)
    requires MakeCoord(r1, p1, v1) <= MakeCoord(r2, p2, v2)
    ensures Coords.Compare(RecCoordToRecAddr(MakeCoord(r1, p1, v1)), RecCoordToRecAddr(MakeCoord(r2, p2, v2))) <= 0
  {
    if r1 < 0 {
      RecAddrOfUnmapped(r1, p1, v1);
      if r2 < 0 {
        RecAddrOfUnmapped(r2, p2, v2);
      } else {
        UnmappedLast(r2, p2, v2, v1);
      }
    } else {
      RecAddrOfMapped(r1, p1, v1);
      if r2 < 0 {
        RecAddrOfUnmapped(r2, p2, v2);
      } else {
        RecAddrOfMapped(r2, p2, v2);
        KeyOrder(r1, p1, v1, r2, p2, v2);
      }
    }
  }
}
