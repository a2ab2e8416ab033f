/** Counting .bam base codes of a packed 4-bit sequence that belong to a set
    given as a 0/1 nibble table (PackedSeqCount, PackedSeqCountTwo). */
module CountGeneric {
  import opened Ints
  import opened BiosimdGeneric

  /** The set representation the source demands: every entry is 0 or 1. */
  predicate IsSetTable(table: NibbleTable) { forall x :: 0 <= x < 16 ==> table[x] <= 1 }

  /** Reference: the number of positions p in [lo, hi) whose nibble is in the
      set. */
  function CountIn(seq4: seq<byte>, table: NibbleTable, lo: int, hi: int): int
    requires 0 <= lo && hi <= 2 * |seq4|
    decreases hi - lo
  {
    if hi <= lo then 0 else CountIn(seq4, table, lo, hi - 1) + table[Nibble(seq4, hi - 1)] as int
  }

  /** With a 0/1 table the count is between 0 and the number of positions. */
  lemma {:induction false} CountInBounds(seq4: seq<byte>, table: NibbleTable, lo: int, hi: int)
    requires 0 <= lo && hi <= 2 * |seq4| && IsSetTable(table)
    ensures 0 <= CountIn(seq4, table, lo, hi)
    ensures lo <= hi ==> CountIn(seq4, table, lo, hi) <= hi - lo
    decreases hi - lo
  {
    if hi > lo {
      CountInBounds(seq4, table, lo, hi - 1);
    }
  }

  /** Counts over adjacent ranges add up. */
  lemma {:induction false} CountInSplit(seq4: seq<byte>, table: NibbleTable, lo: int, mid: int, hi: int)
    requires 0 <= lo <= mid <= hi <= 2 * |seq4|
    ensures CountIn(seq4, table, lo, hi) == CountIn(seq4, table, lo, mid) + CountIn(seq4, table, mid, hi)
    decreases hi - mid
  {
    if hi > mid {
      CountInSplit(seq4, table, lo, mid, hi - 1);
    }
  }

  /** One loop step of the source adds the two nibbles of a whole byte. */
  lemma CountByteStep(seq4: seq<byte>, table: NibbleTable, lo: int, pos: nat)
    requires 0 <= lo <= 2 * pos && pos < |seq4|
    ensures CountIn(seq4, table, lo, 2 * pos + 2) ==
      CountIn(seq4, table, lo, 2 * pos) + table[seq4[pos] & 15] as int + table[seq4[pos] >> 4] as int
  {
    assert Nibble(seq4, 2 * pos + 1) == seq4[pos] & 15;
    assert Nibble(seq4, 2 * pos) == seq4[pos] >> 4;
  }

  /** An odd start position counts the low nibble of byte startPos/2. */
  lemma CountFirstLow(seq4: seq<byte>, table: NibbleTable, lo: int)
    requires 0 <= lo < 2 * |seq4| && lo % 2 == 1
    ensures CountIn(seq4, table, lo, lo + 1) == table[seq4[lo / 2] & 15] as int
  {
    assert CountIn(seq4, table, lo, lo) == 0;
  }

  /** An odd end position adds the high nibble of byte endPos/2. */
  lemma CountLastHigh(seq4: seq<byte>, table: NibbleTable, lo: int, hi: int)
    requires 0 <= lo < hi <= 2 * |seq4| && hi % 2 == 1
    ensures CountIn(seq4, table, lo, hi) == CountIn(seq4, table, lo, 2 * (hi / 2)) + table[seq4[hi / 2] >> 4] as int
  {
    assert hi - 1 == 2 * (hi / 2);
  }

  /** The source's per-byte increment `int(table[lo] + table[hi])`: a byte
      addition, which cannot wrap for a 0/1 table. */
  function ByteCount(table: NibbleTable, b: byte): (r: int)
    requires IsSetTable(table)
    ensures r == table[b & 15] as int + table[b >> 4] as int
  {
    (table[b & 15] + table[b >> 4]) as int
  }

  /** x / 2 and x % 2 for a non-negative x. */
  lemma Halves(x: int)
    requires 0 <= x
    ensures x == 2 * (x / 2) + x % 2 && (x % 2 == 0 || x % 2 == 1)
  {
  }

  /** PackedSeqCount: the number of positions in [startPos, endPos) whose code
      is in the set, 0 when endPos <= startPos. The positions must lie inside
      seq4 (the source does not validate them). */
  method PackedSeqCount(seq4: seq<byte>, table: NibbleTable, startPos: int, endPos: int) returns (cnt: int)
    requires IsSetTable(table)
    requires startPos < endPos ==> 0 <= startPos && endPos <= 2 * |seq4|
    ensures endPos <= startPos ==> cnt == 0
    ensures startPos < endPos ==> cnt == CountIn(seq4, table, startPos, endPos)
  {
    if endPos <= startPos {
      return 0;
    }
    var startOffset := startPos / 2;
    cnt := 0;
    if startPos % 2 == 1 {
      CountFirstLow(seq4, table, startPos);
      cnt := table[seq4[startOffset] & 15] as int;
      startOffset := startOffset + 1;
    }
    var endOffset := endPos / 2;
    assert startPos <= 2 * startOffset <= endPos && startOffset <= endOffset;
    assert cnt == CountIn(seq4, table, startPos, 2 * startOffset);
    var pos := startOffset;
    while pos < endOffset
      invariant startOffset <= pos <= endOffset
      invariant cnt == CountIn(seq4, table, startPos, 2 * pos)
    {
      var seq4Byte := seq4[pos];
      CountByteStep(seq4, table, startPos, pos);
      cnt := cnt + ByteCount(table, seq4Byte);
      pos := pos + 1;
    }
    if endPos % 2 == 1 {
      CountLastHigh(seq4, table, startPos, endPos);
      cnt := cnt + table[seq4[endOffset] >> 4] as int;
    } else {
      assert 2 * pos == endPos;
    }
  }

  /** PackedSeqCountTwo returns the same pair as two PackedSeqCount calls. */
  method PackedSeqCountTwo(seq4: seq<byte>, table1: NibbleTable, table2: NibbleTable,
                           startPos: int, endPos: int) returns (cnt1: int, cnt2: int)
    requires IsSetTable(table1) && IsSetTable(table2)
    requires startPos < endPos ==> 0 <= startPos && endPos <= 2 * |seq4|
    ensures endPos <= startPos ==> cnt1 == 0 && cnt2 == 0
    ensures startPos < endPos ==>
      cnt1 == CountIn(seq4, table1, startPos, endPos) && cnt2 == CountIn(seq4, table2, startPos, endPos)
  {
    if endPos <= startPos {
      return 0, 0;
    }
    Halves(startPos);
    Halves(endPos);
    var startOffset := startPos / 2;
    cnt1, cnt2 := 0, 0;
    if startPos % 2 == 1 {
      var lowBits := seq4[startOffset] & 15;
      cnt1 := table1[lowBits] as int;
      cnt2 := table2[lowBits] as int;
      assert cnt1 == CountIn(seq4, table1, startPos, startPos + 1) && cnt2 == CountIn(seq4, table2, startPos, startPos + 1) by {
        CountFirstLow(seq4, table1, startPos);
        CountFirstLow(seq4, table2, startPos);
      }
      startOffset := startOffset + 1;
    }
    var endOffset := endPos / 2;
    assert startPos <= 2 * startOffset <= endPos && startOffset <= endOffset;
    assert cnt1 == CountIn(seq4, table1, startPos, 2 * startOffset);
    assert cnt2 == CountIn(seq4, table2, startPos, 2 * startOffset);
    var pos := startOffset;
    while pos < endOffset
      invariant startOffset <= pos <= endOffset
      invariant cnt1 == CountIn(seq4, table1, startPos, 2 * pos)
      invariant cnt2 == CountIn(seq4, table2, startPos, 2 * pos)
    {
      var seq4Byte := seq4[pos];
      assert CountIn(seq4, table1, startPos, 2 * pos + 2) == cnt1 + ByteCount(table1, seq4Byte)
          && CountIn(seq4, table2, startPos, 2 * pos + 2) == cnt2 + ByteCount(table2, seq4Byte) by {
        CountByteStep(seq4, table1, startPos, pos);
        CountByteStep(seq4, table2, startPos, pos);
      }
      cnt1 := cnt1 + ByteCount(table1, seq4Byte);
      cnt2 := cnt2 + ByteCount(table2, seq4Byte);
      pos := pos + 1;
    }
    if endPos % 2 == 1 {
      var highBits := seq4[endOffset] >> 4;
      assert CountIn(seq4, table1, startPos, endPos) == cnt1 + table1[highBits] as int
          && CountIn(seq4, table2, startPos, endPos) == cnt2 + table2[highBits] as int by {
        CountLastHigh(seq4, table1, startPos, endPos);
        CountLastHigh(seq4, table2, startPos, endPos);
      }
      cnt1 := cnt1 + table1[highBits] as int;
      cnt2 := cnt2 + table2[highBits] as int;
    } else {
      assert 2 * pos == endPos;
    }
  }
}
