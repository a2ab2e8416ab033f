/** Reverse complement of ASCII sequences (revComp8Table) and of 4-bit seq8
    codes (revComp4Table), in place and into a separate buffer. */
module RevcompGeneric {
  import opened Ints
  import opened BiosimdGeneric

  /** revComp8Table: A/a -> T, C/c -> G, G/g -> C, T/t -> A, else 'N'. */
  function RevComp8(b: byte): (r: byte)
    ensures IsCapitalACGT(r) || r == ASCII_N
    ensures r == ASCII_N <==> !(IsCapitalACGT(b) || IsLowerACGT(b))
  {
    if b == ASCII_A || b == ASCII_LOWER_A then ASCII_T
    else if b == ASCII_C || b == ASCII_LOWER_C then ASCII_G
    else if b == ASCII_G || b == ASCII_LOWER_G then ASCII_C
    else if b == ASCII_T || b == ASCII_LOWER_T then ASCII_A
    else ASCII_N
  }

  /** revComp4Table = {0, 8, 4, 12, 2, 10, 6, 14, 1, 9, 5, 13, 3, 11, 7, 15}. */
  const RevComp4Table: seq<byte> := [0, 8, 4, 12, 2, 10, 6, 14, 1, 9, 5, 13, 3, 11, 7, 15]

  function RevComp4(b: byte): (r: byte)
    requires b < 16
    ensures r < 16
  {
    RevComp4Table[b]
  }

  /** revComp4Table reverses the four bits of a seq8 code (A=1 <-> T=8,
      C=2 <-> G=4), so it is an involution. */
  lemma RevComp4IsBitReversal(b: byte)
    requires b < 16
    ensures RevComp4(b) == ((b & 1) << 3) | ((b & 2) << 1) | ((b & 4) >> 1) | ((b & 8) >> 3)
    ensures RevComp4(RevComp4(b)) == b
  {
  }

  /** Reference: out[i] = comp(in[n-1-i]). */
  function ReverseComp8Of(s: seq<byte>): seq<byte>
  {
    seq(|s|, i requires 0 <= i < |s| => RevComp8(s[|s| - 1 - i]))
  }

  predicate AllNibbles4(s: seq<byte>) { forall i :: 0 <= i < |s| ==> s[i] < 16 }

  function ReverseComp4Of(s: seq<byte>): (r: seq<byte>)
    requires AllNibbles4(s)
    ensures |r| == |s| && AllNibbles4(r)
  {
    seq(|s|, i requires 0 <= i < |s| => RevComp4(s[|s| - 1 - i]))
  }

  /** Applying the ASCII reverse complement twice is the same as cleaning:
      ACGT in either case become capitals, everything else 'N'. */
  lemma ReverseComp8Twice(s: seq<byte>)
    ensures ReverseComp8Of(ReverseComp8Of(s)) == seq(|s|, i requires 0 <= i < |s| => CleanByte(s[i]))
  {
    var once := ReverseComp8Of(s);
    forall i | 0 <= i < |s| ensures RevComp8(once[|s| - 1 - i]) == CleanByte(s[i]) {
      assert once[|s| - 1 - i] == RevComp8(s[i]);
    }
  }

  /** ReverseComp4 is an involution on sequences of 4-bit codes. */
  lemma ReverseComp4Twice(s: seq<byte>)
    requires AllNibbles4(s)
    ensures AllNibbles4(ReverseComp4Of(s))
    ensures ReverseComp4Of(ReverseComp4Of(s)) == s
  {
    var once := ReverseComp4Of(s);
    forall i | 0 <= i < |s| ensures RevComp4(once[|s| - 1 - i]) == s[i] {
      assert once[|s| - 1 - i] == RevComp4(s[i]);
      RevComp4IsBitReversal(s[i]);
    }
  }

  /** ReverseComp8Inplace (and its identical NoValidate twin): a two-index
      swap that complements both ends, then the middle byte of an odd-length
      slice. */
  method ReverseComp8Inplace(ascii8: array<byte>)
    modifies ascii8
    ensures ascii8[..] == ReverseComp8Of(old(ascii8[..]))
  {
    var nByte := ascii8.Length;
    var nByteDiv2 := nByte / 2;
    var idx, invIdx := 0, nByte - 1;
    while idx != nByteDiv2
      invariant 0 <= idx <= nByteDiv2 && invIdx == nByte - 1 - idx
      invariant forall k :: 0 <= k < idx ==>
        ascii8[k] == RevComp8(old(ascii8[nByte - 1 - k])) && ascii8[nByte - 1 - k] == RevComp8(old(ascii8[k]))
      invariant forall k :: idx <= k < nByte - idx ==> ascii8[k] == old(ascii8[k])
    {
      ascii8[idx], ascii8[invIdx] := RevComp8(ascii8[invIdx]), RevComp8(ascii8[idx]);
      idx, invIdx := idx + 1, invIdx - 1;
    }
    if nByte % 2 == 1 {
      ascii8[nByteDiv2] := RevComp8(ascii8[nByteDiv2]);
    }
  }

  /** ReverseComp8NoValidate: panics (ok == false) when the lengths differ. */
  method ReverseComp8NoValidate(dst: array<byte>, src: seq<byte>) returns (ok: bool)
    modifies dst
    ensures ok <==> dst.Length == |src|
    ensures ok ==> dst[..] == ReverseComp8Of(src)
    ensures !ok ==> dst[..] == old(dst[..])
  {
    var nByte := |src|;
    if dst.Length != nByte {
      return false;
    }
    var idx, invIdx := 0, nByte - 1;
    while idx != nByte
      invariant 0 <= idx <= nByte && invIdx == nByte - 1 - idx
      invariant forall k :: 0 <= k < idx ==> dst[k] == RevComp8(src[nByte - 1 - k])
    {
      dst[idx] := RevComp8(src[invIdx]);
      idx, invIdx := idx + 1, invIdx - 1;
    }
    ok := true;
  }

  /** ReverseComp4Inplace (and its identical Unsafe twin); every byte must be
      a 4-bit code, since the table has 16 entries. */
  method ReverseComp4Inplace(seq8: array<byte>)
    requires AllNibbles4(seq8[..])
    modifies seq8
    ensures AllNibbles4(old(seq8[..]))
    ensures seq8[..] == ReverseComp4Of(old(seq8[..]))
  {
    var nByte := seq8.Length;
    var nByteDiv2 := nByte / 2;
    var idx, invIdx := 0, nByte - 1;
    while idx != nByteDiv2
      invariant 0 <= idx <= nByteDiv2 && invIdx == nByte - 1 - idx
      invariant forall k :: 0 <= k < nByte ==> old(seq8[k]) < 16
      invariant forall k :: 0 <= k < idx ==>
        seq8[k] == RevComp4(old(seq8[nByte - 1 - k])) && seq8[nByte - 1 - k] == RevComp4(old(seq8[k]))
      invariant forall k :: idx <= k < nByte - idx ==> seq8[k] == old(seq8[k])
    {
      SwapRevComp4(seq8, idx, invIdx);
      idx, invIdx := idx + 1, invIdx - 1;
    }
    if nByte % 2 == 1 {
      seq8[nByteDiv2] := RevComp4(seq8[nByteDiv2]);
    }
  }

  /** One step of ReverseComp4Inplace's loop: the bytes at i and j swapped
      and complemented. */
  method SwapRevComp4(a: array<byte>, i: int, j: int)
    requires 0 <= i < j < a.Length && a[i] < 16 && a[j] < 16
    modifies a
    ensures a[i] == RevComp4(old(a[j])) && a[j] == RevComp4(old(a[i]))
    ensures forall k :: 0 <= k < a.Length && k != i && k != j ==> a[k] == old(a[k])
  {
    a[i], a[j] := RevComp4(a[j]), RevComp4(a[i]);
  }

  /** ReverseComp4Unsafe: no length check; dst must be at least as long as
      src (a shorter dst is an index panic in the source). */
  method ReverseComp4Unsafe(dst: array<byte>, src: seq<byte>)
    requires AllNibbles4(src) && dst.Length >= |src|
    modifies dst
    ensures dst[..|src|] == ReverseComp4Of(src)
    ensures dst[|src|..] == old(dst[|src|..])
  {
    var nByte := |src|;
    var idx, invIdx := 0, nByte - 1;
    while idx != nByte
      invariant 0 <= idx <= nByte && invIdx == nByte - 1 - idx
      invariant forall k :: 0 <= k < idx ==> dst[k] == RevComp4(src[nByte - 1 - k])
      invariant dst[nByte..] == old(dst[nByte..])
    {
      dst[idx] := RevComp4(src[invIdx]);
      idx, invIdx := idx + 1, invIdx - 1;
    }
  }

  /** ReverseComp4: panics (ok == false) when the lengths differ. */
  method ReverseComp4(dst: array<byte>, src: seq<byte>) returns (ok: bool)
    requires AllNibbles4(src)
    modifies dst
    ensures ok <==> dst.Length == |src|
    ensures ok ==> dst[..] == ReverseComp4Of(src)
    ensures !ok ==> dst[..] == old(dst[..])
  {
    if dst.Length != |src| {
      return false;
    }
    ReverseComp4Unsafe(dst, src);
    ok := true;
  }

  /** ReverseComp4Inplace agrees with ReverseComp4 into a fresh buffer. */
  method InplaceAgreesWithCopy(src: seq<byte>) returns (same: bool)
    requires AllNibbles4(src)
    ensures same
  {
    var a := new byte[|src|](i requires 0 <= i < |src| => src[i]);
    var b := new byte[|src|];
    assert a[..] == src;
    ReverseComp4Inplace(a);
    var ok := ReverseComp4(b, src);
    same := ok && a[..] == b[..];
  }
}
