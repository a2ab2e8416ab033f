/** Byte-level sequence codecs of biosimd: 4-bit nibble packing, ASCII
    cleaning and the seq8 / 2-bit encodings. Every operation is an index loop
    over byte arrays, checked against a reference function on `seq<byte>`. */
module BiosimdGeneric {
  import opened Ints

  const ASCII_A: byte := 65
  const ASCII_C: byte := 67
  const ASCII_G: byte := 71
  const ASCII_N: byte := 78
  const ASCII_T: byte := 84
  const ASCII_LOWER_A: byte := 97
  const ASCII_LOWER_C: byte := 99
  const ASCII_LOWER_G: byte := 103
  const ASCII_LOWER_T: byte := 116

  predicate IsCapitalACGT(b: byte) { b == ASCII_A || b == ASCII_C || b == ASCII_G || b == ASCII_T }
  predicate IsLowerACGT(b: byte) {
    b == ASCII_LOWER_A || b == ASCII_LOWER_C || b == ASCII_LOWER_G || b == ASCII_LOWER_T
  }

  // ---------------------------------------------------------------------
  // Nibble packing

  /** The 4-bit value at position p of a packed sequence: the high nibble of
      byte p/2 when p is even, the low nibble when p is odd. */
  function Nibble(src: seq<byte>, p: nat): (r: byte)
    requires p / 2 < |src|
    ensures r < 16
  {
    if p % 2 == 0 then src[p / 2] >> 4 else src[p / 2] & 15
  }

  /** Reference unpacking of n nibbles. */
  function Unpacked(src: seq<byte>, n: nat): seq<byte>
    requires |src| == (n + 1) / 2
  {
    seq(n, p requires 0 <= p < n => Nibble(src, p))
  }

  /** The packed byte for positions 2j and 2j+1 of src; a missing odd
      position leaves the low nibble zero. */
  function PackedByte(src: seq<byte>, j: nat): byte
    requires 2 * j < |src|
  {
    if 2 * j + 1 < |src| then (src[2 * j] << 4) | src[2 * j + 1] else src[2 * j] << 4
  }

  /** Reference packing. */
  function Packed(src: seq<byte>): seq<byte>
  {
    seq((|src| + 1) / 2, j requires 0 <= j < (|src| + 1) / 2 => PackedByte(src, j))
  }

  predicate AllNibbles(s: seq<byte>) { forall i :: 0 <= i < |s| ==> s[i] < 16 }

  /** Packing then unpacking is the identity on sequences of 4-bit values. */
  lemma UnpackAfterPack(src: seq<byte>)
    requires AllNibbles(src)
    ensures |Packed(src)| == (|src| + 1) / 2
    ensures Unpacked(Packed(src), |src|) == src
  {
    var p := Packed(src);
    forall i | 0 <= i < |src| ensures Nibble(p, i) == src[i] {
      var j := i / 2;
      assert src[2 * j] < 16;
      if 2 * j + 1 < |src| {
        assert src[2 * j + 1] < 16;
        NibblePair(src[2 * j], src[2 * j + 1]);
      } else {
        NibblePair(src[2 * j], 0);
        assert (src[2 * j] << 4) | 0 == src[2 * j] << 4;
      }
    }
  }

  lemma NibblePair(hi: byte, lo: byte)
    requires hi < 16 && lo < 16
    ensures ((hi << 4) | lo) >> 4 == hi
    ensures ((hi << 4) | lo) & 15 == lo
  {
  }

  /** On an odd-length input the low nibble of the last packed byte is zero. */
  lemma PackedOddLowNibbleZero(src: seq<byte>)
    requires |src| % 2 == 1
    ensures |Packed(src)| == |src| / 2 + 1
    ensures Packed(src)[|src| / 2] & 15 == 0
  {
    var j := |src| / 2;
    assert Packed(src)[j] == src[2 * j] << 4;
  }

  /** Unpacking then packing gives back the packed bytes, provided an odd
      count leaves the unused low nibble of the last byte zero. */
  lemma PackAfterUnpack(src: seq<byte>, n: nat)
    requires |src| == (n + 1) / 2
    requires n % 2 == 1 ==> src[n / 2] & 15 == 0
    ensures Packed(Unpacked(src, n)) == src
  {
    var u := Unpacked(src, n);
    forall j | 0 <= j < |src| ensures PackedByte(u, j) == src[j] {
      if 2 * j + 1 < n {
        assert u[2 * j] == src[j] >> 4 && u[2 * j + 1] == src[j] & 15;
        SplitJoin(src[j]);
      } else {
        assert u[2 * j] == src[j] >> 4;
        SplitJoinOdd(src[j]);
      }
    }
  }

  lemma SplitJoin(b: byte)
    ensures ((b >> 4) << 4) | (b & 15) == b
  {
  }

  lemma SplitJoinOdd(b: byte)
    requires b & 15 == 0
    ensures (b >> 4) << 4 == b
  {
  }

  /** UnpackSeq: panics (ok == false, nothing written) unless
      len(src) == len(dst)/2 + len(dst)&1. */
  method UnpackSeq(dst: array<byte>, src: seq<byte>) returns (ok: bool)
    modifies dst
    ensures ok <==> |src| == (dst.Length + 1) / 2
    ensures ok ==> dst[..] == Unpacked(src, dst.Length)
    ensures !ok ==> dst[..] == old(dst[..])
  {
    var dstLen := dst.Length;
    var nSrcFullByte := dstLen / 2;
    var srcOdd := dstLen % 2;
    if |src| != nSrcFullByte + srcOdd {
      return false;
    }
    var srcPos := 0;
    while srcPos != nSrcFullByte
      invariant 0 <= srcPos <= nSrcFullByte
      invariant forall p :: 0 <= p < 2 * srcPos ==> dst[p] == Nibble(src, p)
    {
      var srcByte := src[srcPos];
      dst[2 * srcPos] := srcByte >> 4;
      dst[2 * srcPos + 1] := srcByte & 15;
      srcPos := srcPos + 1;
    }
    if srcOdd == 1 {
      var srcByte := src[nSrcFullByte];
      dst[2 * nSrcFullByte] := srcByte >> 4;
    }
    ok := true;
  }

  /** PackSeq: panics (ok == false) unless len(dst) == (len(src)+1)/2. */
  method PackSeq(dst: array<byte>, src: seq<byte>) returns (ok: bool)
    modifies dst
    ensures ok <==> dst.Length == (|src| + 1) / 2
    ensures ok ==> dst[..] == Packed(src)
    ensures !ok ==> dst[..] == old(dst[..])
  {
    var srcLen := |src|;
    var nDstFullByte := srcLen / 2;
    var dstOdd := srcLen % 2;
    if dst.Length != nDstFullByte + dstOdd {
      return false;
    }
    var dstPos := 0;
    while dstPos < nDstFullByte
      invariant 0 <= dstPos <= nDstFullByte
      invariant forall j :: 0 <= j < dstPos ==> dst[j] == PackedByte(src, j)
    {
      dst[dstPos] := (src[2 * dstPos] << 4) | src[2 * dstPos + 1];
      dstPos := dstPos + 1;
    }
    if dstOdd == 1 {
      dst[nDstFullByte] := src[nDstFullByte * 2] << 4;
    }
    ok := true;
  }

  /** A nibble lookup table: 16 entries indexed by a 4-bit value. */
  type NibbleTable = t: seq<byte> | |t| == 16 witness seq(16, _ => 0)

  /** UnpackAndReplaceSeq: UnpackSeq followed by a table lookup. */
  method UnpackAndReplaceSeq(dst: array<byte>, src: seq<byte>, table: NibbleTable) returns (ok: bool)
    modifies dst
    ensures ok <==> |src| == (dst.Length + 1) / 2
    ensures ok ==> forall p :: 0 <= p < dst.Length ==> dst[p] == table[Nibble(src, p)]
    ensures !ok ==> dst[..] == old(dst[..])
  {
    var dstLen := dst.Length;
    var nSrcFullByte := dstLen / 2;
    var srcOdd := dstLen % 2;
    if |src| != nSrcFullByte + srcOdd {
      return false;
    }
    var srcPos := 0;
    while srcPos != nSrcFullByte
      invariant 0 <= srcPos <= nSrcFullByte
      invariant forall p :: 0 <= p < 2 * srcPos ==> dst[p] == table[Nibble(src, p)]
    {
      var srcByte := src[srcPos];
      dst[2 * srcPos] := table[srcByte >> 4];
      dst[2 * srcPos + 1] := table[srcByte & 15];
      srcPos := srcPos + 1;
    }
    if srcOdd == 1 {
      var srcByte := src[nSrcFullByte];
      dst[2 * nSrcFullByte] := table[srcByte >> 4];
    }
    ok := true;
  }

  /** The argument check of UnpackAndReplaceSeqSubset. */
  predicate SubsetArgsOk(dstLen: nat, srcLen: nat, startPos: int, endPos: int)
  {
    0 <= startPos && endPos <= 2 * srcLen && dstLen == endPos - startPos
  }

  /** The two nibbles of byte q sit at positions 2q (high) and 2q + 1 (low). */
  lemma NibblesOfByte(src: seq<byte>, q: nat)
    requires q < |src|
    ensures Nibble(src, 2 * q) == src[q] >> 4 && Nibble(src, 2 * q + 1) == src[q] & 15
  {
    assert (2 * q + 1) / 2 == q && (2 * q) / 2 == q;
  }

  /** The loop of UnpackAndReplaceSeqSubset over the whole source bytes: the
      two nibbles of byte startOffset + i land at 2i + startPosOdd and the
      position after it. */
  method UnpackFullBytes(dst: array<byte>, src: seq<byte>, table: NibbleTable,
                         startPos: nat, startOffset: nat, startPosOdd: nat, nSrcFullByte: nat)
    requires startPos + startPosOdd == 2 * startOffset && startPosOdd <= 1
    requires startOffset + nSrcFullByte <= |src| && 2 * nSrcFullByte + startPosOdd <= dst.Length
    requires forall k :: 0 <= k < startPosOdd ==> dst[k] == table[Nibble(src, startPos + k)]
    modifies dst
    ensures forall k :: 0 <= k < 2 * nSrcFullByte + startPosOdd ==> dst[k] == table[Nibble(src, startPos + k)]
  {
    var srcPos := 0;
    while srcPos != nSrcFullByte
      invariant 0 <= srcPos <= nSrcFullByte
      invariant forall k :: 0 <= k < 2 * srcPos + startPosOdd ==> dst[k] == table[Nibble(src, startPos + k)]
    {
      var srcByte := src[srcPos + startOffset];
      NibblesOfByte(src, srcPos + startOffset);
      dst[2 * srcPos + startPosOdd] := table[srcByte >> 4];
      dst[2 * srcPos + 1 + startPosOdd] := table[srcByte & 15];
      srcPos := srcPos + 1;
    }
  }

  /** UnpackAndReplaceSeqSubset: unpacks the nibbles [startPos, endPos) of src
      through the table; panics (ok == false) unless 0 <= startPos,
      endPos <= 2*len(src) and len(dst) == endPos - startPos. */
  method UnpackAndReplaceSeqSubset(dst: array<byte>, src: seq<byte>, table: NibbleTable,
                                   startPos: int, endPos: int) returns (ok: bool)
    modifies dst
    ensures ok <==> SubsetArgsOk(dst.Length, |src|, startPos, endPos)
    ensures ok ==> forall k :: 0 <= k < dst.Length ==> dst[k] == table[Nibble(src, startPos + k)]
    ensures !ok ==> dst[..] == old(dst[..])
  {
    if startPos < 0 || |src| * 2 < endPos {
      return false;
    }
    var dstLen := dst.Length;
    if dstLen != endPos - startPos {
      return false;
    }
    ok := true;
    if dstLen == 0 {
      return;
    }
    var startOffset := startPos / 2;
    var startPosOdd := startPos % 2;
    if startPosOdd == 1 {
      NibblesOfByte(src, startOffset);
      dst[0] := table[src[startOffset] & 15];
      startOffset := startOffset + 1;
    }
    var nSrcFullByte := (dstLen - startPosOdd) / 2;
    assert endPos == 2 * (startOffset + nSrcFullByte) + endPos % 2;
    UnpackFullBytes(dst, src, table, startPos, startOffset, startPosOdd, nSrcFullByte);
    if endPos % 2 == 1 {
      var srcByte := src[nSrcFullByte + startOffset];
      NibblesOfByte(src, nSrcFullByte + startOffset);
      dst[dstLen - 1] := table[srcByte >> 4];
    }
  }

  // ---------------------------------------------------------------------
  // ASCII cleaning and classification

  /** cleanASCIISeqTable: ACGT in either case becomes the capital letter,
      every other byte becomes 'N'. */
  function CleanByte(b: byte): (r: byte)
    ensures IsCapitalACGT(r) || r == ASCII_N
    ensures IsCapitalACGT(b) ==> r == b
    ensures r == ASCII_N <==> !(IsCapitalACGT(b) || IsLowerACGT(b))
  {
    if b == ASCII_A || b == ASCII_LOWER_A then ASCII_A
    else if b == ASCII_C || b == ASCII_LOWER_C then ASCII_C
    else if b == ASCII_G || b == ASCII_LOWER_G then ASCII_G
    else if b == ASCII_T || b == ASCII_LOWER_T then ASCII_T
    else ASCII_N
  }

  /** cleanASCIISeqNoCapitalizeTable: ACGT keep their case, everything else
      becomes 'N'. */
  function CleanByteNoCapitalize(b: byte): (r: byte)
    ensures IsCapitalACGT(b) || IsLowerACGT(b) ==> r == b
    ensures !(IsCapitalACGT(b) || IsLowerACGT(b)) ==> r == ASCII_N
  {
    if IsCapitalACGT(b) || IsLowerACGT(b) then b else ASCII_N
  }

  /** The two cleaning tables agree once the result is capitalised. */
  lemma CleanAgreesUpToCase(b: byte)
    ensures CleanByte(b) == CleanByte(CleanByteNoCapitalize(b))
    ensures CleanByte(CleanByte(b)) == CleanByte(b)
  {
  }

  method CleanASCIISeqInplace(ascii8: array<byte>)
    modifies ascii8
    ensures forall i :: 0 <= i < ascii8.Length ==> ascii8[i] == CleanByte(old(ascii8[i]))
  {
    var pos := 0;
    while pos < ascii8.Length
      invariant 0 <= pos <= ascii8.Length
      invariant forall i :: 0 <= i < pos ==> ascii8[i] == CleanByte(old(ascii8[i]))
      invariant forall i :: pos <= i < ascii8.Length ==> ascii8[i] == old(ascii8[i])
    {
      ascii8[pos] := CleanByte(ascii8[pos]);
      pos := pos + 1;
    }
  }

  method CleanASCIISeqNoCapitalizeInplace(ascii8: array<byte>)
    modifies ascii8
    ensures forall i :: 0 <= i < ascii8.Length ==> ascii8[i] == CleanByteNoCapitalize(old(ascii8[i]))
  {
    var pos := 0;
    while pos < ascii8.Length
      invariant 0 <= pos <= ascii8.Length
      invariant forall i :: 0 <= i < pos ==> ascii8[i] == CleanByteNoCapitalize(old(ascii8[i]))
      invariant forall i :: pos <= i < ascii8.Length ==> ascii8[i] == old(ascii8[i])
    {
      ascii8[pos] := CleanByteNoCapitalize(ascii8[pos]);
      pos := pos + 1;
    }
  }

  /** IsNonACGTPresent: true iff some byte is not a capital A, C, G or T. */
  method IsNonACGTPresent(ascii8: seq<byte>) returns (r: bool)
    ensures r <==> exists i :: 0 <= i < |ascii8| && !IsCapitalACGT(ascii8[i])
  {
    var pos := 0;
    while pos < |ascii8|
      invariant 0 <= pos <= |ascii8|
      invariant forall i :: 0 <= i < pos ==> IsCapitalACGT(ascii8[i])
    {
      if !IsCapitalACGT(ascii8[pos]) {
        return true;
      }
      pos := pos + 1;
    }
    return false;
  }

  /** IsNonACGTNPresent: true iff some byte is not a capital A, C, G, T or N. */
  method IsNonACGTNPresent(ascii8: seq<byte>) returns (r: bool)
    ensures r <==> exists i :: 0 <= i < |ascii8| && !(IsCapitalACGT(ascii8[i]) || ascii8[i] == ASCII_N)
  {
    var pos := 0;
    while pos < |ascii8|
      invariant 0 <= pos <= |ascii8|
      invariant forall i :: 0 <= i < pos ==> IsCapitalACGT(ascii8[i]) || ascii8[i] == ASCII_N
    {
      if !(IsCapitalACGT(ascii8[pos]) || ascii8[pos] == ASCII_N) {
        return true;
      }
      pos := pos + 1;
    }
    return false;
  }

  /** A cleaned sequence never has a byte outside ACGTN. */
  lemma CleanedHasOnlyACGTN(s: seq<byte>)
    ensures forall i :: 0 <= i < |s| ==> IsCapitalACGT(CleanByte(s[i])) || CleanByte(s[i]) == ASCII_N
  {
  }

  // ---------------------------------------------------------------------
  // seq8 and 2-bit encodings

  /** asciiToSeq8Table: A/a -> 1, C/c -> 2, G/g -> 4, T/t -> 8, else 15. */
  function Seq8Code(b: byte): (r: byte)
    ensures r == 1 || r == 2 || r == 4 || r == 8 || r == 15
    ensures r == 15 <==> !(IsCapitalACGT(b) || IsLowerACGT(b))
  {
    if b == ASCII_A || b == ASCII_LOWER_A then 1
    else if b == ASCII_C || b == ASCII_LOWER_C then 2
    else if b == ASCII_G || b == ASCII_LOWER_G then 4
    else if b == ASCII_T || b == ASCII_LOWER_T then 8
    else 15
  }

  /** Cleaning before the seq8 conversion changes nothing. */
  lemma Seq8IgnoresCleaning(b: byte)
    ensures Seq8Code(CleanByte(b)) == Seq8Code(b)
  {
  }

  method ASCIIToSeq8Inplace(main: array<byte>)
    modifies main
    ensures forall i :: 0 <= i < main.Length ==> main[i] == Seq8Code(old(main[i]))
  {
    var pos := 0;
    while pos < main.Length
      invariant 0 <= pos <= main.Length
      invariant forall i :: 0 <= i < pos ==> main[i] == Seq8Code(old(main[i]))
      invariant forall i :: pos <= i < main.Length ==> main[i] == old(main[i])
    {
      main[pos] := Seq8Code(main[pos]);
      pos := pos + 1;
    }
  }

  /** ASCIIToSeq8: panics (ok == false) when the lengths differ. */
  method ASCIIToSeq8(dst: array<byte>, src: seq<byte>) returns (ok: bool)
    modifies dst
    ensures ok <==> dst.Length == |src|
    ensures ok ==> forall i :: 0 <= i < |src| ==> dst[i] == Seq8Code(src[i])
    ensures !ok ==> dst[..] == old(dst[..])
  {
    if dst.Length != |src| {
      return false;
    }
    var pos := 0;
    while pos < |src|
      invariant 0 <= pos <= |src|
      invariant forall i :: 0 <= i < pos ==> dst[i] == Seq8Code(src[i])
    {
      dst[pos] := Seq8Code(src[pos]);
      pos := pos + 1;
    }
    ok := true;
  }

  /** asciiTo2bitTable: for bytes below 128 the entry depends on the low four
      bits only (3 -> 1, 4 -> 3, 7 -> 2, otherwise 0); bytes from 128 on map
      to 0. */
  function TwoBitCode(b: byte): (r: byte)
    ensures r < 4
  {
    if b < 128 then
      (var low := b & 15; if low == 3 then 1 else if low == 4 then 3 else if low == 7 then 2 else 0)
    else 0
  }

  /** A, C, G, T in either case encode as 0, 1, 2, 3. */
  lemma TwoBitCodeOfBases()
    ensures TwoBitCode(ASCII_A) == 0 && TwoBitCode(ASCII_LOWER_A) == 0
    ensures TwoBitCode(ASCII_C) == 1 && TwoBitCode(ASCII_LOWER_C) == 1
    ensures TwoBitCode(ASCII_G) == 2 && TwoBitCode(ASCII_LOWER_G) == 2
    ensures TwoBitCode(ASCII_T) == 3 && TwoBitCode(ASCII_LOWER_T) == 3
  {
  }

  /** The 2-bit code at position p, zero past the end of src. */
  function Code2At(src: seq<byte>, p: nat): (r: byte)
    ensures r < 4
  {
    if p < |src| then TwoBitCode(src[p]) else 0
  }

  /** Output byte j holds positions 4j..4j+3, lowest bits first. */
  function TwoBitByte(src: seq<byte>, j: nat): byte
  {
    Code2At(src, 4 * j) | (Code2At(src, 4 * j + 1) << 2) | (Code2At(src, 4 * j + 2) << 4) | (Code2At(src, 4 * j + 3) << 6)
  }

  /** Bits 2k, 2k+1 of a byte. */
  function Field2(b: byte, k: nat): (r: byte)
    requires k < 4
  {
    if k == 0 then b & 3 else if k == 1 then (b >> 2) & 3 else if k == 2 then (b >> 4) & 3 else b >> 6
  }

  lemma FieldsOfFour(c0: byte, c1: byte, c2: byte, c3: byte)
    requires c0 < 4 && c1 < 4 && c2 < 4 && c3 < 4
    ensures Field2(c0 | (c1 << 2) | (c2 << 4) | (c3 << 6), 0) == c0
    ensures Field2(c0 | (c1 << 2) | (c2 << 4) | (c3 << 6), 1) == c1
    ensures Field2(c0 | (c1 << 2) | (c2 << 4) | (c3 << 6), 2) == c2
    ensures Field2(c0 | (c1 << 2) | (c2 << 4) | (c3 << 6), 3) == c3
  {
  }

  /** Every position of the input can be read back from its output byte, and
      the bit pairs past the end of the input are zero. */
  lemma TwoBitDecode(src: seq<byte>, p: nat)
    ensures Field2(TwoBitByte(src, p / 4), p % 4) == Code2At(src, p)
    ensures p >= |src| ==> Field2(TwoBitByte(src, p / 4), p % 4) == 0
  {
    var j := p / 4;
    FieldsOfFour(Code2At(src, 4 * j), Code2At(src, 4 * j + 1), Code2At(src, 4 * j + 2), Code2At(src, 4 * j + 3));
    assert p == 4 * j + p % 4;
  }

  /** ASCIITo2bit: panics (ok == false) unless len(dst) == (len(src)+3)/4;
      the high bits of a final partial byte are zero. */
  method ASCIITo2bit(dst: array<byte>, src: seq<byte>) returns (ok: bool)
    modifies dst
    ensures ok <==> dst.Length == (|src| + 3) / 4
    ensures ok ==> forall j :: 0 <= j < dst.Length ==> dst[j] == TwoBitByte(src, j)
    ensures !ok ==> dst[..] == old(dst[..])
  {
    var srcLen := |src|;
    if dst.Length != (srcLen + 3) / 4 {
      return false;
    }
    var nDstFullByte := srcLen / 4;
    var dstRem := srcLen % 4;
    var dstPos := 0;
    while dstPos < nDstFullByte
      invariant 0 <= dstPos <= nDstFullByte
      invariant forall j :: 0 <= j < dstPos ==> dst[j] == TwoBitByte(src, j)
    {
      dst[dstPos] := TwoBitCode(src[4 * dstPos]) | (TwoBitCode(src[4 * dstPos + 1]) << 2) |
        (TwoBitCode(src[4 * dstPos + 2]) << 4) | (TwoBitCode(src[4 * dstPos + 3]) << 6);
      dstPos := dstPos + 1;
    }
    if dstRem != 0 {
      var lastByte := TwoBitCode(src[nDstFullByte * 4]);
      if dstRem != 1 {
        lastByte := lastByte | (TwoBitCode(src[nDstFullByte * 4 + 1]) << 2);
        if dstRem != 2 {
          lastByte := lastByte | (TwoBitCode(src[nDstFullByte * 4 + 2]) << 4);
        }
      }
      dst[nDstFullByte] := lastByte;
    }
    ok := true;
  }
}
