/** Decoding of one serialized BAM record (encoding/bam/unmarshal.go):
    the walk over the optional (aux) fields that counts them, the rounding
    of buffer offsets, and Unmarshal's length checks and shadow buffer. */
module BamRecords {
  import opened Ints
  import opened Wrappers
  import opened LittleEndian

  const ERR_CORRUPT_AUX := "Corrupt aux field"
  const ERR_TOO_SHORT := "Record too short"
  const ERR_CORRUPT_RECORD := "Corrupt BAM aux record"
  const ERR_REF_RANGE := "bam: reference id out of range"
  const ERR_MATE_RANGE := "bam: mate reference id out of range"
  const ERR_NO_NAME := "bam: read name length 0"

  /** The fixed-size part of a BAM record, before the variable data. */
  const FIXED_BYTES := 32

  /** The size of a Go slice header on a 64-bit machine. */
  const SLICE_HEADER_BYTES := 24

  // ---------------------------------------------------------------------
  // alignOffset

  /** ((off-1)/8 + 1) * 8 with Go's truncating division. */
  function AlignOffset(off: int): int
  {
    (GoDiv(off - 1, 8) + 1) * 8
  }

  /** A positive offset is rounded up to the nearest multiple of 8; zero
      goes to 8, because (0 - 1) / 8 truncates to 0. */
  lemma AlignOffsetRoundsUp(off: int)
    requires off >= 0
    ensures AlignOffset(off) % 8 == 0 && AlignOffset(off) >= off
    ensures off > 0 ==> AlignOffset(off) < off + 8
    ensures off == 0 ==> AlignOffset(off) == 8
  {
    if off > 0 {
      assert GoDiv(off - 1, 8) == (off - 1) / 8;
    } else {
      assert GoDiv(-1, 8) == 0;
    }
  }

  // ---------------------------------------------------------------------
  // The aux field walk

  /** The jumps table: the value size of each fixed-size aux type, -1 for
      the variable-size types Z, H and B, and 0 for every other byte. */
  function Jumps(t: uint8): int
  {
    var c := t as char;
    if c == 'A' || c == 'c' || c == 'C' then 1
    else if c == 's' || c == 'S' then 2
    else if c == 'i' || c == 'I' || c == 'f' then 4
    else if c == 'Z' || c == 'H' || c == 'B' then -1
    else 0
  }

  /** The range loop over rest looking for the NUL: the index of the first
      zero byte from k on, or the last index when there is none. */
  function ScanNul(rest: seq<uint8>, k: nat): (j: nat)
    requires k < |rest|
    ensures k <= j < |rest|
    ensures rest[j] == 0 || j == |rest| - 1
    decreases |rest| - k
  {
    if rest[k] == 0 || k == |rest| - 1 then k else ScanNul(rest, k + 1)
  }

  /** No zero byte comes before the one ScanNul stops at. */
  lemma {:induction false} ScanNulFirst(rest: seq<uint8>, k: nat)
    requires k < |rest|
    ensures forall m :: k <= m < ScanNul(rest, k) ==> rest[m] != 0
    decreases |rest| - k
  {
    if !(rest[k] == 0 || k == |rest| - 1) {
      ScanNulFirst(rest, k + 1);
    }
  }

  /** How far the loop index moves over the field at the start of rest, as
      written: for a B array the element size is looked up in the same
      table, so a Z, H or B element type gives a size of -1. */
  function AdvanceAsWritten(rest: seq<uint8>): Option<int>
    requires |rest| > 2
  {
    var j := Jumps(rest[2]);
    if j > 0 then Some(j + 3)
    else if j < 0 then
      if rest[2] as char == 'Z' || rest[2] as char == 'H' then Some(ScanNul(rest, 0) + 1)
      else if |rest| < 8 then None
      else Some(Uint32At(rest, 4) * Jumps(rest[3]) + 4 + 4)
    else None
  }

  /** How far the loop index moves over the field at the start of rest,
      with a B array whose element type is a Z, H or B (size -1 in the
      table) refused as a corrupt field; an element type outside the table
      has size 0, and the array then takes its 8 header bytes. None is
      errCorruptAuxField. */
  function Advance(rest: seq<uint8>): (r: Option<nat>)
    requires |rest| > 2
    ensures r.Some? ==> r.value >= 1
  {
    var j := Jumps(rest[2]);
    if j > 0 then Some(j + 3)
    else if j < 0 then
      if rest[2] as char == 'Z' || rest[2] as char == 'H' then Some(ScanNul(rest, 0) + 1)
      else if |rest| < 8 || Jumps(rest[3]) < 0 then None
      else Some(Uint32At(rest, 4) * Jumps(rest[3]) + 4 + 4)
    else None
  }

  /** The two agree on every field except a B array whose element type is
      a Z, H or B. */
  lemma AdvanceAgrees(rest: seq<uint8>)
    requires |rest| > 2
    requires rest[2] as char == 'B' && |rest| >= 8 ==> Jumps(rest[3]) >= 0
    ensures AdvanceAsWritten(rest) == if Advance(rest).Some? then Some(Advance(rest).value as int) else None
  {
  }

  /** A B array of Z elements with count 8: the index advances by
      8 * -1 + 8 = 0, so countAuxFields loops forever on these 8 bytes. */
  lemma AsWrittenStalls()
    ensures AdvanceAsWritten([0x58, 0x58, 0x42, 0x5A, 8, 0, 0, 0]) == Some(0)
    ensures Advance([0x58, 0x58, 0x42, 0x5A, 8, 0, 0, 0]) == None
  {
    var aux: seq<uint8> := [0x58, 0x58, 0x42, 0x5A, 8, 0, 0, 0];
    assert Uint32At(aux, 4) == 8;
  }

  /** A B array of an element type outside the table ('x', size 0) with
      count 5 takes its 8 header bytes, as written and corrected alike. */
  lemma ZeroSizeArrayAdvances()
    ensures AdvanceAsWritten([0x58, 0x58, 0x42, 0x78, 5, 0, 0, 0]) == Some(8)
    ensures Advance([0x58, 0x58, 0x42, 0x78, 5, 0, 0, 0]) == Some(8)
  {
    var aux: seq<uint8> := [0x58, 0x58, 0x42, 0x78, 5, 0, 0, 0];
    assert Uint32At(aux, 4) == 5;
  }

  function AddCount(r: Result<nat>, k: nat): Result<nat>
  {
    if r.Ok? then Ok(r.value + k) else r
  }

  /** countAuxFields: the number of fields walked until fewer than three
      bytes remain, or errCorruptAuxField. */
  function CountAux(aux: seq<uint8>): Result<nat>
    decreases |aux|
  {
    if |aux| <= 2 then Ok(0)
    else match Advance(aux)
      case None => Err(ERR_CORRUPT_AUX)
      case Some(j) => if j >= |aux| then Ok(1) else AddCount(CountAux(aux[j..]), 1)
  }

  lemma CountStep(rest: seq<uint8>, j: nat)
    requires |rest| > 2 && Advance(rest) == Some(j)
    ensures j >= |rest| ==> CountAux(rest) == Ok(1)
    ensures j < |rest| ==> CountAux(rest) == AddCount(CountAux(rest[j..]), 1)
  {
  }

  lemma CountStop(rest: seq<uint8>)
    requires |rest| > 2 && Advance(rest) == None
    ensures CountAux(rest) == Err(ERR_CORRUPT_AUX)
  {
  }

  /** One field walked: the count so far grows by one. */
  lemma AddCountStep(total: Result<nat>, c: Result<nat>, d: Result<nat>, naux: nat)
    requires total == AddCount(c, naux) && c == AddCount(d, 1)
    ensures total == AddCount(d, naux + 1)
  {
  }

  /** The NUL scan of the Z and H case. */
  method FindNul(aux: seq<uint8>, i: nat) returns (j: nat)
    requires i < |aux|
    ensures j == ScanNul(aux[i..], 0)
  {
    ghost var rest := aux[i..];
    j := 0;
    while aux[i + j] != 0 && i + j < |aux| - 1
      invariant i + j < |aux|
      invariant ScanNul(rest, j) == ScanNul(rest, 0)
      decreases |aux| - j
    {
      j := j + 1;
    }
  }

  /** One turn of the countAuxFields loop: how far i moves, or None for
      errCorruptAuxField. */
  method AuxStep(aux: seq<uint8>, i: nat) returns (r: Option<nat>)
    requires i + 2 < |aux|
    ensures r == Advance(aux[i..])
  {
    ghost var rest := aux[i..];
    var t := aux[i + 2];
    var j := Jumps(t);
    if j > 0 {
      return Some(j + 3);
    } else if j < 0 {
      if t as char == 'Z' || t as char == 'H' {
        j := FindNul(aux, i);
        return Some(j + 1);
      }
      if |aux| < i + 8 {
        return None;
      }
      var length := Uint32At(aux, i + 4);
      var elem := Jumps(aux[i + 3]);
      if elem < 0 {
        return None;
      }
      assert Uint32At(rest, 4) == length;
      return Some(length * elem + 4 + 4);
    }
    return None;
  }

  method CountAuxFields(aux: seq<uint8>) returns (r: Result<nat>)
    ensures r == CountAux(aux)
  {
    var naux := 0;
    var i := 0;
    while i + 2 < |aux|
      invariant i <= |aux| ==> CountAux(aux) == AddCount(CountAux(aux[i..]), naux)
      invariant i > |aux| ==> CountAux(aux) == Ok(naux)
      decreases |aux| - i
    {
      var step := AuxStep(aux, i);
      if step.None? {
        CountStop(aux[i..]);
        return Err(ERR_CORRUPT_AUX);
      }
      var j := step.value;
      CountStep(aux[i..], j);
      if i + j < |aux| {
        assert aux[i + j..] == aux[i..][j..];
        AddCountStep(CountAux(aux), CountAux(aux[i..]), CountAux(aux[i + j..]), naux);
      } else if i + j == |aux| {
        assert CountAux(aux[i + j..]) == Ok(0);
      }
      i := i + j;
      naux := naux + 1;
    }
    if i <= |aux| {
      assert |aux[i..]| <= 2;
    }
    return Ok(naux);
  }

  // ---------------------------------------------------------------------
  // Unmarshal

  /** A decoded record. ref and mateRef index the header's references;
      None is reference ID -1. The cigar operations are the raw uint32
      words, the sequence the packed 4-bit doublets. */
  datatype Record = Record(
    ref: Option<nat>, pos: int, name: seq<uint8>, mapQ: uint8, flags: nat,
    cigar: seq<nat>, seqLength: nat, doublets: seq<uint8>, qual: seq<uint8>,
    mateRef: Option<nat>, matePos: int, tempLen: int,
    auxCount: nat, aux: seq<uint8>)

  /** The n little-endian uint32 words starting at off. */
  function Words(bs: seq<uint8>, off: nat, n: nat): (ws: seq<nat>)
    requires off + 4 * n <= |bs|
    ensures |ws| == n
  {
    seq(n, i requires 0 <= i < n => Uint32At(bs, off + 4 * i))
  }

  /** Where the aux data starts: the fixed part, the name with its NUL,
      the cigar words, the doublets and the qualities. */
  function AuxOffset(b: seq<uint8>): (off: nat)
    requires |b| >= FIXED_BYTES
    ensures off >= FIXED_BYTES + b[8]
  {
    FIXED_BYTES + b[8] + 4 * Uint16At(b, 12) + (Uint32At(b, 16) + 1) / 2 + Uint32At(b, 16)
  }

  /** The record described by the fixed part of b, given its variable
      data v (the bytes after the fixed part) and its cigar words. */
  function Layout(b: seq<uint8>, v: seq<uint8>, cigar: seq<nat>, ref: Option<nat>, mateRef: Option<nat>, auxCount: nat): Record
    requires |b| >= FIXED_BYTES && |b| >= AuxOffset(b) && b[8] > 0 && |v| == |b| - FIXED_BYTES
  {
    var nLen := b[8];
    var lSeq := Uint32At(b, 16);
    var seqAt := nLen + 4 * Uint16At(b, 12);
    var qualAt := seqAt + (lSeq + 1) / 2;
    var auxAt := qualAt + lSeq;
    Record(ref, Int32At(b, 4), v[..nLen - 1], b[9], Uint16At(b, 14),
           cigar, lSeq, v[seqAt..qualAt], v[qualAt..auxAt],
           mateRef, Int32At(b, 24), Int32At(b, 28), auxCount, v[auxAt..])
  }

  /** The record laid out in b once every check has passed. */
  function Assemble(b: seq<uint8>, ref: Option<nat>, mateRef: Option<nat>, auxCount: nat): (rec: Record)
    requires |b| >= FIXED_BYTES && |b| >= AuxOffset(b) && b[8] > 0
    ensures |b| == FIXED_BYTES + |rec.name| + 1 + 4 * |rec.cigar| + |rec.doublets| + |rec.qual| + |rec.aux|
    ensures |rec.doublets| == (rec.seqLength + 1) / 2 && |rec.qual| == rec.seqLength
    ensures rec.ref == ref && rec.mateRef == mateRef && rec.auxCount == auxCount
    ensures |rec.name| == b[8] - 1 && rec.aux == b[AuxOffset(b)..]
  {
    Layout(b, b[FIXED_BYTES..], Words(b, FIXED_BYTES + b[8], Uint16At(b, 12)), ref, mateRef, auxCount)
  }

  /** The reference of reference ID id: None for -1, an error outside
      [-1, nRefs). */
  function RefOf(id: int, nRefs: nat, err: string): (r: Result<Option<nat>>)
    ensures r.Ok? <==> id == -1 || 0 <= id < nRefs
    ensures r.Ok? && r.value.Some? ==> r.value.value == id && id < nRefs
    ensures r.Ok? && r.value.None? ==> id == -1
  {
    if id == -1 then Ok(None)
    else if id < -1 || id >= nRefs then Err(err)
    else Ok(Some(id))
  }

  /** The reference and mate reference of reference IDs refID and
      nextRefID. A mate ID equal to the read's takes the read's reference
      without a range check of its own. */
  function RefPair(refID: int, nextRefID: int, nRefs: nat): (r: Result<(Option<nat>, Option<nat>)>)
    ensures r.Ok? <==> (refID == -1 || 0 <= refID < nRefs)
                       && (nextRefID == -1 || nextRefID == refID || 0 <= nextRefID < nRefs)
    ensures r.Ok? ==> (r.value.0.Some? ==> r.value.0.value == refID < nRefs)
                      && (r.value.1.Some? ==> r.value.1.value == nextRefID < nRefs)
                      && (r.value.0.None? <==> refID == -1) && (r.value.1.None? <==> nextRefID == -1)
  {
    var ref := RefOf(refID, nRefs, ERR_REF_RANGE);
    if ref.Err? then Err(ref.msg)
    else
      var mateRef := if refID == nextRefID then ref else RefOf(nextRefID, nRefs, ERR_MATE_RANGE);
      if mateRef.Err? then Err(mateRef.msg)
      else Ok((ref.value, mateRef.value))
  }

  /** What Unmarshal returns for b, given the number of references in the
      header. The errors come in the order the source checks them; a name
      length of 0 is refused. */
  function DecodeRecord(b: seq<uint8>, nRefs: nat): (r: Result<Record>)
  {
    if |b| < FIXED_BYTES then Err(ERR_TOO_SHORT)
    else if |b| < AuxOffset(b) then Err(ERR_CORRUPT_RECORD)
    else
      var count := CountAux(b[AuxOffset(b)..]);
      if count.Err? then Err(count.msg)
      else if b[8] == 0 then Err(ERR_NO_NAME)
      else
        var refs := RefPair(Int32At(b, 0), Int32At(b, 20), nRefs);
        if refs.Err? then Err(refs.msg)
        else Ok(Assemble(b, refs.value.0, refs.value.1, count.value))
  }

  /** The name as Unmarshal sets it up: the nLen - 1 bytes before the NUL,
      with no check that nLen is positive. */
  function NameLengthAsWritten(b: seq<uint8>): int
    requires |b| >= FIXED_BYTES
  {
    b[8] as int - 1
  }

  function EmptyNameRecord(): (b: seq<uint8>)
    ensures |b| == FIXED_BYTES
  {
    seq(32, i => 0 as uint8)
  }

  /** A 32-byte record with l_read_name = 0 and no variable data passes
      every length check, and its name gets length -1. */
  lemma NameLengthAsWrittenNegative()
    ensures NameLengthAsWritten(EmptyNameRecord()) == -1
    ensures DecodeRecord(EmptyNameRecord(), 0) == Err(ERR_NO_NAME)
  {
    var b := EmptyNameRecord();
    assert AuxOffset(b) == 32;
    assert b[32..] == [];
  }

  /** Unmarshal succeeds exactly when the record is long enough for its
      fixed part and for the lengths it declares, its aux fields walk
      cleanly, its name is not empty and both reference IDs are -1 or a
      header reference (the mate's is not checked when it equals the
      read's). */
  lemma DecodeRecordOk(b: seq<uint8>, nRefs: nat)
    ensures DecodeRecord(b, nRefs).Ok? <==>
      |b| >= FIXED_BYTES && |b| >= AuxOffset(b) && CountAux(b[AuxOffset(b)..]).Ok? && b[8] > 0
      && (Int32At(b, 0) == -1 || 0 <= Int32At(b, 0) < nRefs)
      && (Int32At(b, 20) == -1 || Int32At(b, 20) == Int32At(b, 0) || 0 <= Int32At(b, 20) < nRefs)
  {
  }

  /** A decoded record's parts tile the input, its references are in
      range, and its aux count is the count of its aux data. */
  lemma DecodeRecordShape(b: seq<uint8>, nRefs: nat)
    requires DecodeRecord(b, nRefs).Ok?
    ensures
      var rec := DecodeRecord(b, nRefs).value;
      |b| == FIXED_BYTES + |rec.name| + 1 + 4 * |rec.cigar| + |rec.doublets| + |rec.qual| + |rec.aux|
      && |rec.name| == b[8] - 1 && |rec.qual| == rec.seqLength
      && (rec.ref.Some? ==> rec.ref.value < nRefs)
      && (rec.mateRef.Some? ==> rec.mateRef.value < nRefs)
      && rec.auxCount == CountAux(rec.aux).value
  {
  }

  /** The copy of b[32:] into the shadow buffer. */
  method CopyVariable(shadow: array<uint8>, b: seq<uint8>)
    requires |b| >= FIXED_BYTES && shadow.Length >= |b| - FIXED_BYTES
    modifies shadow
    ensures forall m :: 0 <= m < |b| - FIXED_BYTES ==> shadow[m] == b[FIXED_BYTES + m]
  {
    for k := 0 to |b| - FIXED_BYTES
      invariant forall m :: 0 <= m < k ==> shadow[m] == b[FIXED_BYTES + m]
    {
      shadow[k] := b[FIXED_BYTES + k];
    }
  }

  /** The cigar loop: each word at src + 4i is stored at dst + 4i. On a
      little-endian machine the stored uint32 has the same four bytes. */
  method MoveCigar(shadow: array<uint8>, src: nat, dst: nat, nCigar: nat)
    requires src + 4 * nCigar <= dst && dst + 4 * nCigar <= shadow.Length
    modifies shadow
    ensures forall m :: dst <= m < dst + 4 * nCigar ==> shadow[m] == old(shadow[m - dst + src])
    ensures forall m :: 0 <= m < dst ==> shadow[m] == old(shadow[m])
  {
    for i := 0 to nCigar
      invariant forall m :: dst <= m < dst + 4 * i ==> shadow[m] == old(shadow[m - dst + src])
      invariant forall m :: 0 <= m < dst ==> shadow[m] == old(shadow[m])
    {
      var at := dst + 4 * i;
      shadow[at] := shadow[src + 4 * i];
      shadow[at + 1] := shadow[src + 4 * i + 1];
      shadow[at + 2] := shadow[src + 4 * i + 2];
      shadow[at + 3] := shadow[src + 4 * i + 3];
    }
  }

  /** Clearing the aux slice headers before they are filled in. */
  method ZeroRange(shadow: array<uint8>, from: nat, to: nat)
    requires from <= to <= shadow.Length
    modifies shadow
    ensures forall k :: from <= k < to ==> shadow[k] == 0
    ensures shadow[..from] == old(shadow[..from])
  {
    for k := from to to
      invariant forall m :: from <= m < k ==> shadow[m] == 0
      invariant shadow[..from] == old(shadow[..from])
    {
      shadow[k] := 0;
    }
  }

  /** The shadow buffer of Unmarshal: the variable data of b, the cigar
      words moved to the first multiple of 8 past it, and nAux cleared
      slice headers at the next multiple of 8. */
  method BuildShadow(b: seq<uint8>, nLen: nat, nCigar: nat, nAux: nat) returns (buf: seq<uint8>, cigarAt: nat)
    requires |b| >= FIXED_BYTES + nLen + 4 * nCigar
    ensures cigarAt % 8 == 0 && cigarAt >= |b| - FIXED_BYTES && |buf| >= cigarAt + 4 * nCigar
    ensures forall m :: 0 <= m < |b| - FIXED_BYTES ==> buf[m] == b[FIXED_BYTES + m]
    ensures forall m :: cigarAt <= m < cigarAt + 4 * nCigar ==> buf[m] == b[FIXED_BYTES + nLen + m - cigarAt]
  {
    var srcVariableBytes := |b| - FIXED_BYTES;
    var shadowCigarOffset := AlignOffset(srcVariableBytes);
    AlignOffsetRoundsUp(srcVariableBytes);
    var shadowAuxOffset := AlignOffset(shadowCigarOffset + nCigar * 4);
    AlignOffsetRoundsUp(shadowCigarOffset + nCigar * 4);
    var shadowSize := shadowAuxOffset + nAux * SLICE_HEADER_BYTES;
    var shadow := new uint8[shadowSize];
    CopyVariable(shadow, b);
    MoveCigar(shadow, nLen, shadowCigarOffset, nCigar);
    ZeroRange(shadow, shadowAuxOffset, shadowSize);
    buf := shadow[..];
    cigarAt := shadowCigarOffset;
  }

  /** The reference lookups at the end of Unmarshal. */
  method ResolveRefs(refID: int, nextRefID: int, nRefs: nat) returns (r: Result<(Option<nat>, Option<nat>)>)
    ensures r == RefPair(refID, nextRefID, nRefs)
  {
    var ref: Option<nat> := None;
    if refID != -1 {
      if refID < -1 || refID >= nRefs {
        return Err(ERR_REF_RANGE);
      }
      ref := Some(refID);
    }
    var mateRef: Option<nat> := None;
    if nextRefID != -1 {
      if refID == nextRefID {
        mateRef := ref;
      } else {
        if nextRefID < -1 || nextRefID >= nRefs {
          return Err(ERR_MATE_RANGE);
        }
        mateRef := Some(nextRefID);
      }
    }
    return Ok((ref, mateRef));
  }

  /** Unmarshal: the length checks, the aux count, the shadow buffer and
      the reference lookups. */
  method Unmarshal(b: seq<uint8>, nRefs: nat) returns (r: Result<Record>)
    ensures r == DecodeRecord(b, nRefs)
  {
    if |b| < FIXED_BYTES {
      return Err(ERR_TOO_SHORT);
    }
    var nLen := b[8];
    var nCigar := Uint16At(b, 12);
    var lSeq := Uint32At(b, 16);
    var nDoubletBytes := (lSeq + 1) / 2;
    var srcAuxOffset := FIXED_BYTES + nLen + nCigar * 4 + nDoubletBytes + lSeq;
    assert srcAuxOffset == AuxOffset(b);
    if |b| < srcAuxOffset {
      return Err(ERR_CORRUPT_RECORD);
    }
    var nAuxFields := CountAuxFields(b[srcAuxOffset..]);
    if nAuxFields.Err? {
      return Err(nAuxFields.msg);
    }
    if nLen == 0 {
      return Err(ERR_NO_NAME);
    }
    var buf, cigarAt := BuildShadow(b, nLen, nCigar, nAuxFields.value);
    var refs := ResolveRefs(Int32At(b, 0), Int32At(b, 20), nRefs);
    if refs.Err? {
      return Err(refs.msg);
    }
    ShadowRecord(b, buf, cigarAt, refs.value, nAuxFields.value);
    var variable := buf[..|b| - FIXED_BYTES];
    var cigar := Words(buf, cigarAt, nCigar);
    return Ok(Layout(b, variable, cigar, refs.value.0, refs.value.1, nAuxFields.value));
  }

  /** The variable data and cigar words read from the shadow buffer are
      the ones laid out in b. */
  lemma ShadowRecord(b: seq<uint8>, buf: seq<uint8>, cigarAt: nat, refs: (Option<nat>, Option<nat>), nAux: nat)
    requires |b| >= FIXED_BYTES && |b| >= AuxOffset(b) && b[8] > 0
    requires |buf| >= cigarAt + 4 * Uint16At(b, 12) && cigarAt >= |b| - FIXED_BYTES
    requires forall m :: 0 <= m < |b| - FIXED_BYTES ==> buf[m] == b[FIXED_BYTES + m]
    requires forall m :: cigarAt <= m < cigarAt + 4 * Uint16At(b, 12) ==> buf[m] == b[FIXED_BYTES + b[8] + m - cigarAt]
    ensures Assemble(b, refs.0, refs.1, nAux)
         == Layout(b, buf[..|b| - FIXED_BYTES], Words(buf, cigarAt, Uint16At(b, 12)), refs.0, refs.1, nAux)
  {
    var nLen := b[8];
    var nCigar := Uint16At(b, 12);
    assert buf[cigarAt..cigarAt + 4 * nCigar] == b[FIXED_BYTES + nLen..FIXED_BYTES + nLen + 4 * nCigar];
    SameWords(buf, cigarAt, b, FIXED_BYTES + nLen, nCigar);
    assert buf[..|b| - FIXED_BYTES] == b[FIXED_BYTES..];
  }

  /** Equal bytes give equal words. */
  lemma SameWords(a: seq<uint8>, i: nat, b: seq<uint8>, j: nat, n: nat)
    requires i + 4 * n <= |a| && j + 4 * n <= |b|
    requires a[i..i + 4 * n] == b[j..j + 4 * n]
    ensures Words(a, i, n) == Words(b, j, n)
  {
    forall k | 0 <= k < n
      ensures Uint32At(a, i + 4 * k) == Uint32At(b, j + 4 * k)
    {
      assert a[i + 4 * k] == a[i..i + 4 * n][4 * k] == b[j..j + 4 * n][4 * k];
      assert a[i + 4 * k + 1] == a[i..i + 4 * n][4 * k + 1] == b[j..j + 4 * n][4 * k + 1];
      assert a[i + 4 * k + 2] == a[i..i + 4 * n][4 * k + 2] == b[j..j + 4 * n][4 * k + 2];
      assert a[i + 4 * k + 3] == a[i..i + 4 * n][4 * k + 3] == b[j..j + 4 * n][4 * k + 3];
    }
  }
}
