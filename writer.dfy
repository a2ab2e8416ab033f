/** The per-block write buffer of a PAM field file (fieldWriteBuf): the
    values of one field for the records of one block, with the address
    range they cover and the previous values that deltas are taken from. */
module FieldWriters {
  import opened Wrappers
  import opened Ints
  import opened LittleEndian
  import opened Varints
  import opened Coords
  import opened FieldBuffers

  /** biopb.Coord{InvalidRefID, InvalidPos, 0}: the bounds of an empty block. */
  const INVALID_COORD := Coord(INVALID_REF_ID, INVALID_POS, 0)

  /** Each address is strictly greater than the one before it. */
  predicate Increasing(addrs: seq<Coord>)
  {
    forall k :: 0 < k < |addrs| ==> LT(addrs[k - 1], addrs[k])
  }

  /** In an increasing sequence every address is below every later one. */
  lemma {:induction false} IncreasingPairwise(addrs: seq<Coord>, j: nat, k: nat)
    requires Increasing(addrs) && j < k < |addrs|
    ensures LT(addrs[j], addrs[k])
    decreases k - j
  {
    if j + 1 < k {
      IncreasingPairwise(addrs, j + 1, k);
      CompareTransitive(addrs[j], addrs[j + 1], addrs[k]);
    }
  }

  // ---------------------------------------------------------------------
  // Deltas

  /** The reader adds a delta back with int64 wrap-around; that restores
      the value whatever the previous value was. */
  lemma DeltaRestores(prev: int, v: int)
    requires IsInt64(prev) && IsInt64(v)
    ensures WrapInt64(prev + WrapInt64(v - prev)) == v
  {
    var d := v - prev;
    var c := if d % TWO_64 <= MAX_INT64 then d / TWO_64 else d / TWO_64 + 1;
    assert d == TWO_64 * (d / TWO_64) + d % TWO_64;
    assert prev + WrapInt64(d) == v + TWO_64 * (-c);
    ModOfShift(v, -c, TWO_64);
    if v < 0 {
      DivModUnique(v, TWO_64, -1, v + TWO_64);
    } else {
      DivModUnique(v, TWO_64, 0, v);
    }
  }

  /** The length of the longest common prefix of a and b. */
  function CommonPrefixLen(a: seq<uint8>, b: seq<uint8>): (k: nat)
    ensures k <= |a| && k <= |b|
  {
    if |a| == 0 || |b| == 0 || a[0] != b[0] then 0 else 1 + CommonPrefixLen(a[1..], b[1..])
  }

  /** CommonPrefixLen is a common prefix that cannot be extended. */
  lemma {:induction false} CommonPrefixLenSpec(a: seq<uint8>, b: seq<uint8>)
    ensures CommonPrefixLen(a, b) <= |a| && CommonPrefixLen(a, b) <= |b|
    ensures a[..CommonPrefixLen(a, b)] == b[..CommonPrefixLen(a, b)]
    ensures CommonPrefixLen(a, b) < |a| && CommonPrefixLen(a, b) < |b| ==>
      a[CommonPrefixLen(a, b)] != b[CommonPrefixLen(a, b)]
  {
    if |a| > 0 && |b| > 0 && a[0] == b[0] {
      CommonPrefixLenSpec(a[1..], b[1..]);
      var k := CommonPrefixLen(a[1..], b[1..]);
      assert a[..k + 1] == [a[0]] + a[1..][..k];
      assert b[..k + 1] == [b[0]] + b[1..][..k];
    }
  }

  /** Any common prefix that cannot be extended is CommonPrefixLen. */
  lemma {:induction false} CommonPrefixLenUnique(a: seq<uint8>, b: seq<uint8>, i: nat)
    requires i <= |a| && i <= |b| && a[..i] == b[..i]
    requires i < |a| && i < |b| ==> a[i] != b[i]
    ensures i == CommonPrefixLen(a, b)
  {
    if i > 0 {
      assert a[0] == a[..i][0] && b[0] == b[..i][0];
      assert a[1..][..i - 1] == a[..i][1..] && b[1..][..i - 1] == b[..i][1..];
      CommonPrefixLenUnique(a[1..], b[1..], i - 1);
    } else if |a| > 0 && |b| > 0 {
      assert a[0] != b[0];
    }
  }

  /** computeDiff: the length of the longest common prefix of prev and cur,
      and what follows it in cur; the prefix of prev and the delta rebuild
      cur. */
  method ComputeDiff(prev: seq<uint8>, cur: seq<uint8>) returns (i: nat, delta: seq<uint8>)
    ensures i == CommonPrefixLen(prev, cur) && delta == cur[i..]
    ensures prev[..i] + delta == cur
  {
    var minLen := |prev|;
    if |cur| < minLen {
      minLen := |cur|;
    }
    i := 0;
    while i < minLen
      invariant i <= minLen && minLen <= |prev| && minLen <= |cur|
      invariant prev[..i] == cur[..i]
    {
      if prev[i] != cur[i] {
        break;
      }
      i := i + 1;
    }
    CommonPrefixLenUnique(prev, cur, i);
    if i >= |cur| {
      delta := [];
    } else {
      delta := cur[i..];
    }
    assert cur == cur[..i] + cur[i..];
  }

  // ---------------------------------------------------------------------
  // The buffer

  class FieldWriteBuf {
    var logLabel: string
    /** The block's sequence number, 0, 1, 2, ... */
    var seqNum: int
    var numRecords: int
    var startAddr: Coord
    var endAddr: Coord
    /** Numeric values. */
    var defaultBuf: ByteBuffer
    /** Strings and bytes. */
    var blobBuf: ByteBuffer
    /** A copy of the previous string, for prefix-delta encoding. */
    var prevString: ByteSlice
    /** The previous values for delta encoding of ref ids and positions. */
    var prevInt64Value0: int
    var prevInt64Value1: int
    /** The addresses of the records written to this block, in order. */
    ghost var addrs: seq<Coord>

    ghost predicate Valid()
      reads this, defaultBuf, blobBuf, prevString
    {
      BuffersValid() && RecordsValid()
    }

    /** The two buffers and the previous string are each valid, and no two
        of them share an array. */
    ghost predicate BuffersValid()
      reads this, defaultBuf, blobBuf, prevString
    {
      defaultBuf.Valid() && blobBuf.Valid() && prevString.Valid()
      && defaultBuf != blobBuf && defaultBuf.buf != blobBuf.buf
      && prevString.arr != defaultBuf.buf && prevString.arr != blobBuf.buf
    }

    /** The previous values are int64s; one address per record, strictly
        increasing, the first and last of them being the bounds. */
    ghost predicate RecordsValid()
      reads this
    {
      IsInt64(prevInt64Value0) && IsInt64(prevInt64Value1)
      && numRecords == |addrs| && Increasing(addrs)
      && (numRecords > 0 ==> startAddr == addrs[0] && endAddr == addrs[numRecords - 1])
    }

    /** A new buffer, as reset leaves it. */
    constructor (seqNum: int, logLabel: string)
      ensures Valid() && this.seqNum == seqNum && this.logLabel == logLabel
      ensures defaultBuf.Bytes() == [] && blobBuf.Bytes() == [] && prevString.Contents() == []
      ensures prevInt64Value0 == 0 && prevInt64Value1 == 0
      ensures startAddr == INVALID_COORD && endAddr == INVALID_COORD
      ensures numRecords == 0 && addrs == []
    {
      this.seqNum := seqNum;
      this.logLabel := logLabel;
      defaultBuf := new ByteBuffer();
      blobBuf := new ByteBuffer();
      prevString := new ByteSlice();
      prevInt64Value0 := 0;
      prevInt64Value1 := 0;
      startAddr := INVALID_COORD;
      endAddr := INVALID_COORD;
      numRecords := 0;
      addrs := [];
    }

    /** totalLen: the bytes stored in both buffers. */
    function TotalLen(): (k: int)
      reads this, defaultBuf, defaultBuf.buf, blobBuf, blobBuf.buf
      requires defaultBuf.Valid() && blobBuf.Valid()
      ensures k == |defaultBuf.Bytes()| + |blobBuf.Bytes()|
    {
      defaultBuf.Len() + blobBuf.Len()
    }

    /** reset: empty the buffers (keeping their arrays), forget the previous
        values and the records, and set both bounds to the invalid address. */
    method Reset(seqNum: int, logLabel: string)
      requires Valid()
      modifies this, defaultBuf, blobBuf, prevString
      ensures Valid() && this.seqNum == seqNum && this.logLabel == logLabel
      ensures defaultBuf == old(defaultBuf) && blobBuf == old(blobBuf) && prevString == old(prevString)
      ensures defaultBuf.Bytes() == [] && blobBuf.Bytes() == [] && prevString.Contents() == []
      ensures prevInt64Value0 == 0 && prevInt64Value1 == 0
      ensures startAddr == INVALID_COORD && endAddr == INVALID_COORD
      ensures numRecords == 0 && addrs == []
    {
      this.seqNum := seqNum;
      this.logLabel := logLabel;
      prevInt64Value0 := 0;
      prevInt64Value1 := 0;
      startAddr := INVALID_COORD;
      endAddr := INVALID_COORD;
      numRecords := 0;
      addrs := [];
      ResetBuffers();
    }

    /** The buffer updates of reset: each emptied, keeping its array. */
    method ResetBuffers()
      requires BuffersValid()
      modifies defaultBuf, blobBuf, prevString
      ensures BuffersValid()
      ensures defaultBuf.Bytes() == [] && blobBuf.Bytes() == [] && prevString.Contents() == []
    {
      defaultBuf.Reset();
      blobBuf.Reset();
      prevString.len := 0;
    }

    /** updateAddrBounds: record addr as the block's latest address (and its
        first when the block is empty); an error, with nothing changed, when
        addr is not above the previous one. */
    method UpdateAddrBounds(addr: Coord) returns (err: Option<string>)
      requires Valid()
      modifies this
      ensures Valid()
      ensures err.Some? <==> old(numRecords) > 0 && !LT(old(endAddr), addr)
      ensures err.Some? ==> (numRecords == old(numRecords) && addrs == old(addrs)
        && startAddr == old(startAddr) && endAddr == old(endAddr))
      ensures err.None? ==> (numRecords == old(numRecords) + 1 && addrs == old(addrs) + [addr] && endAddr == addr
        && startAddr == (if old(numRecords) == 0 then addr else old(startAddr)))
      ensures defaultBuf == old(defaultBuf) && blobBuf == old(blobBuf) && prevString == old(prevString)
      ensures prevInt64Value0 == old(prevInt64Value0) && prevInt64Value1 == old(prevInt64Value1)
      ensures seqNum == old(seqNum) && logLabel == old(logLabel)
    {
      if numRecords == 0 {
        startAddr := addr;
      } else if !LT(endAddr, addr) {
        return Some("Record addr decreased");
      }
      endAddr := addr;
      numRecords := numRecords + 1;
      addrs := addrs + [addr];
      err := None;
    }

    /** PutCoordField: the ref id as a delta against the previous ref id in
        the numeric buffer, the position as a delta against the previous
        position in the blob buffer, each a signed varint of the int64
        difference. */
    method PutCoordField(addr: Coord, refId: int, pos: int) returns (err: Option<string>)
      requires Valid() && IsInt64(refId) && IsInt64(pos)
      modifies this, defaultBuf, defaultBuf.buf, blobBuf, blobBuf.buf
      ensures Valid()
      ensures defaultBuf == old(defaultBuf) && blobBuf == old(blobBuf) && prevString == old(prevString)
      ensures err.Some? <==> old(numRecords) > 0 && !LT(old(endAddr), addr)
      ensures err.Some? ==> (addrs == old(addrs) && defaultBuf.Bytes() == old(defaultBuf.Bytes())
        && blobBuf.Bytes() == old(blobBuf.Bytes()))
      ensures err.None? ==> (addrs == old(addrs) + [addr]
        && defaultBuf.Bytes() == old(defaultBuf.Bytes()) + VarintBytes(WrapInt64(refId - old(prevInt64Value0)))
        && blobBuf.Bytes() == old(blobBuf.Bytes()) + VarintBytes(WrapInt64(pos - old(prevInt64Value1)))
        && prevInt64Value0 == refId && prevInt64Value1 == pos)
    {
      err := UpdateAddrBounds(addr);
      if err.Some? {
        return;
      }
      var delta := WrapInt64(refId - prevInt64Value0);
      defaultBuf.PutVarint(delta);
      prevInt64Value0 := refId;
      delta := WrapInt64(pos - prevInt64Value1);
      blobBuf.PutVarint(delta);
      prevInt64Value1 := pos;
    }

    /** PutStringDeltaField: the length of the prefix shared with the
        previous string and the length of the rest as unsigned varints in
        the numeric buffer, the rest in the blob buffer; the string becomes
        the previous string. */
    method PutStringDeltaField(addr: Coord, data: seq<uint8>) returns (err: Option<string>)
      requires Valid() && |data| <= MAX_INT64
      modifies this, defaultBuf, defaultBuf.buf, blobBuf, blobBuf.buf, prevString, prevString.arr
      ensures Valid()
      ensures defaultBuf == old(defaultBuf) && blobBuf == old(blobBuf) && prevString == old(prevString)
      ensures err.Some? <==> old(numRecords) > 0 && !LT(old(endAddr), addr)
      ensures err.Some? ==> (addrs == old(addrs) && defaultBuf.Bytes() == old(defaultBuf.Bytes())
        && blobBuf.Bytes() == old(blobBuf.Bytes()) && prevString.Contents() == old(prevString.Contents()))
      ensures err.None? ==>
        var k := CommonPrefixLen(old(prevString.Contents()), data);
        addrs == old(addrs) + [addr]
        && defaultBuf.Bytes() == old(defaultBuf.Bytes()) + UvarintBytes(k) + UvarintBytes(|data| - k)
        && blobBuf.Bytes() == old(blobBuf.Bytes()) + data[k..]
        && prevString.Contents() == data
    {
      err := UpdateAddrBounds(addr);
      if err.Some? {
        return;
      }
      AppendStringDelta(data);
    }

    /** The buffer updates of PutStringDeltaField. */
    method AppendStringDelta(data: seq<uint8>)
      requires BuffersValid() && |data| <= MAX_INT64
      modifies defaultBuf, defaultBuf.buf, blobBuf, blobBuf.buf, prevString, prevString.arr
      ensures BuffersValid()
      ensures
        var k := CommonPrefixLen(old(prevString.Contents()), data);
        defaultBuf.Bytes() == old(defaultBuf.Bytes()) + UvarintBytes(k) + UvarintBytes(|data| - k)
        && blobBuf.Bytes() == old(blobBuf.Bytes()) + data[k..]
        && prevString.Contents() == data
    {
      var prefix, delta := ComputeDiff(prevString.arr[..prevString.len], data);
      defaultBuf.PutUvarint(prefix);
      defaultBuf.PutUvarint(|delta|);
      blobBuf.PutBytes(delta);
      ResizeBuf(prevString, |data|);
      CopyInto(prevString, data);
    }
  }

  /** copy(s, data) when s has exactly data's length. */
  method CopyInto(s: ByteSlice, data: seq<uint8>)
    requires s.Valid() && s.len == |data|
    modifies s.arr
    ensures s.Valid() && s.Contents() == data
  {
    var i := 0;
    while i < |data|
      invariant 0 <= i <= |data|
      invariant s.arr[..i] == data[..i]
    {
      s.arr[i] := data[i];
      i := i + 1;
    }
  }
}
