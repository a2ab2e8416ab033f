/** The base-strand pileup file of pileup/snp/basestrand.go: one 40-byte
    little-endian record per position (reference id, position, and a
    forward and a reverse count for each of A, C, G and T), the 16-byte
    recordio trailer holding a version and the number of records, the
    unmarshaller that fills a preallocated slice of piles, and the
    chromosome-name parser ChrId. */
module BaseStrands {
  import opened Wrappers
  import opened Ints
  import LittleEndian
  import Decimals
  import PileupRows

  type uint8 = LittleEndian.uint8
  type uint32 = LittleEndian.uint32

  /** pileup.NBase: the regular bases A, C, G and T. */
  const NBASE: nat := 4
  /** The bytes of one marshalled pile. */
  const RECORD_SIZE: nat := 40
  const TRAILER_VERSION: int := 1

  /** BaseStrandPile; counts[b] is the (forward, reverse) pair of base b. */
  datatype BaseStrandPile = BaseStrandPile(refId: uint32, pos: uint32, counts: seq<(uint32, uint32)>)
  {
    /** The Go array type [NBase][2]uint32. */
    predicate Valid() { |counts| == NBASE }
  }

  function ZeroPile(): (p: BaseStrandPile)
    ensures p.Valid()
  {
    BaseStrandPile(0, 0, seq(NBASE, _ => (0, 0)))
  }

  // ---------------------------------------------------------------------
  // the 40-byte record

  /** marshalBaseStrand's bytes: RefID, Pos, then the counts base-major,
      forward before reverse. */
  function Encode(p: BaseStrandPile): (bs: seq<uint8>)
    requires p.Valid()
    ensures |bs| == RECORD_SIZE
  {
    PileupRows.U32(p.refId) + PileupRows.U32(p.pos) + PileupRows.CountsUpTo(p.counts, NBASE)
  }

  /** The pile UnmarshalBaseStrand reads from the first 40 bytes. */
  function Decode(s: seq<uint8>): (p: BaseStrandPile)
    requires |s| >= RECORD_SIZE
    ensures p.Valid()
  {
    BaseStrandPile(LittleEndian.Uint32At(s, 0), LittleEndian.Uint32At(s, 4), PileupRows.CountsAt(s, 8, NBASE))
  }

  /** Unmarshalling a marshalled pile gives it back, whatever follows it. */
  lemma RoundTrip(p: BaseStrandPile, rest: seq<uint8>)
    requires p.Valid()
    ensures Decode(Encode(p) + rest) == p
  {
    var s := Encode(p) + rest;
    var head := PileupRows.U32(p.refId) + PileupRows.U32(p.pos);
    PileupRows.AtSplit(s, 0, Encode(p), rest);
    PileupRows.AtSplit(s, 0, head, PileupRows.CountsUpTo(p.counts, NBASE));
    PileupRows.AtSplit(s, 0, PileupRows.U32(p.refId), PileupRows.U32(p.pos));
    PileupRows.Uint32Of(s, 0, p.refId);
    PileupRows.Uint32Of(s, 4, p.pos);
    PileupRows.CountsAtRoundTrip(p.counts, s, 8, NBASE);
  }

  /** Two piles with the same record are the same pile. */
  lemma EncodeInjective(p: BaseStrandPile, q: BaseStrandPile)
    requires p.Valid() && q.Valid() && Encode(p) == Encode(q)
    ensures p == q
  {
    RoundTrip(p, []);
    RoundTrip(q, []);
    assert Encode(p) + [] == Encode(q) + [];
  }

  /** marshalBaseStrand: scratch when it holds 40 bytes, otherwise a new
      40-byte buffer; the record is written over its first 40 bytes and
      the rest of scratch is left as it was. The returned slice is the
      buffer t cut to its first n bytes. */
  method MarshalBaseStrand(scratch: array<uint8>, p: BaseStrandPile) returns (t: array<uint8>, n: nat)
    requires p.Valid()
    modifies scratch
    ensures n == RECORD_SIZE <= t.Length && t[..n] == Encode(p)
    ensures scratch.Length >= RECORD_SIZE ==> t == scratch && t[RECORD_SIZE..] == old(scratch[RECORD_SIZE..])
    ensures scratch.Length < RECORD_SIZE ==> fresh(t) && t.Length == RECORD_SIZE && scratch[..] == old(scratch[..])
  {
    t := scratch;
    if t.Length < RECORD_SIZE {
      t := new uint8[RECORD_SIZE](_ => 0);
    }
    ghost var before := t[..];
    PileupRows.Put(t, 0, PileupRows.U32(p.refId));
    PileupRows.Put(t, 4, PileupRows.U32(p.pos));
    PileupRows.SpliceTwice(before, 0, PileupRows.U32(p.refId), PileupRows.U32(p.pos));
    PileupRows.PutCounts(t, 8, p.counts, NBASE);
    PileupRows.SpliceTwice(before, 0, PileupRows.U32(p.refId) + PileupRows.U32(p.pos), PileupRows.CountsUpTo(p.counts, NBASE));
    PileupRows.SpliceParts(before, 0, Encode(p));
    n := RECORD_SIZE;
  }

  // ---------------------------------------------------------------------
  // the trailer: two little-endian int64s

  /** binary.Write of an int64: its two's-complement bit pattern. */
  function Int64Bytes(x: int): (bs: seq<uint8>)
    requires IsInt64(x)
    ensures |bs| == 8
  {
    LittleEndian.Pow256Values();
    LittleEndian.Encode(if x < 0 then x + TWO_64 else x, 8)
  }

  /** binary.Read of an int64 at off. */
  function Int64At(s: seq<uint8>, off: nat): (v: int)
    requires off + 8 <= |s|
    ensures IsInt64(v)
  {
    WrapInt64(LittleEndian.Uint64At(s, off))
  }

  lemma Int64Of(s: seq<uint8>, off: nat, x: int)
    requires IsInt64(x) && PileupRows.At(s, off, Int64Bytes(x))
    ensures Int64At(s, off) == x
  {
    var u := if x < 0 then x + TWO_64 else x;
    PileupRows.AtSlice(s, off, Int64Bytes(x));
    LittleEndian.Pow256Values();
    LittleEndian.Uint64AtDecodes(s, off);
    LittleEndian.DecodeEncode(u, 8);
  }

  /** baseStrandsRioTrailer: the version, then the number of piles. */
  function Trailer(numPiles: int): (bs: seq<uint8>)
    requires IsInt64(numPiles)
    ensures |bs| == 16
  {
    Int64Bytes(TRAILER_VERSION) + Int64Bytes(numPiles)
  }

  /** parseBaseStrandsTrailer: io.EOF when a number has no bytes left,
      io.ErrUnexpectedEOF when it has fewer than 8, and an error for any
      version but 1; bytes after the second number are ignored. */
  function ParseTrailer(trailer: seq<uint8>): (r: Result<int>)
    ensures r.Ok? <==> |trailer| >= 16 && Int64At(trailer, 0) == TRAILER_VERSION
    ensures r.Ok? ==> r.value == Int64At(trailer, 8)
  {
    if |trailer| == 0 then Err("EOF")
    else if |trailer| < 8 then Err("unexpected EOF")
    else if Int64At(trailer, 0) != TRAILER_VERSION then Err("unrecognized trailer version")
    else if |trailer| == 8 then Err("EOF")
    else if |trailer| < 16 then Err("unexpected EOF")
    else Ok(Int64At(trailer, 8))
  }

  /** The trailer written for n piles parses back to n. */
  lemma TrailerRoundTrip(numPiles: int, rest: seq<uint8>)
    requires IsInt64(numPiles)
    ensures ParseTrailer(Trailer(numPiles) + rest) == Ok(numPiles)
  {
    var s := Trailer(numPiles) + rest;
    PileupRows.AtSplit(s, 0, Trailer(numPiles), rest);
    PileupRows.AtSplit(s, 0, Int64Bytes(TRAILER_VERSION), Int64Bytes(numPiles));
    Int64Of(s, 0, TRAILER_VERSION);
    Int64Of(s, 8, numPiles);
  }

  // ---------------------------------------------------------------------
  // BaseStrandUnmarshaller

  /** Fills a slice of piles made up front from the trailer's count, and
      appends when more records arrive than were announced. */
  class BaseStrandUnmarshaller {
    var piles: seq<BaseStrandPile>
    var offset: nat
    /** Whether piles is a non-nil slice: true after init or an append. */
    var nonNil: bool
    /** The piles unmarshalled so far, in order. */
    ghost var done: seq<BaseStrandPile>

    /** The first offset slots hold the piles read so far, in order; a nil
        slice is empty; every slot holds a pile of the Go type. */
    ghost predicate Valid()
      reads this
    {
      offset <= |piles| && done == piles[..offset] && (!nonNil ==> piles == [])
      && (forall i :: 0 <= i < |piles| ==> piles[i].Valid())
    }

    /** The zero value: a nil slice. */
    constructor()
      ensures Valid() && piles == [] && offset == 0 && !nonNil && done == []
    {
      piles, offset, nonNil, done := [], 0, false, [];
    }

    /** init: size zero piles; a second init panics, and so does make of a
        negative size. */
    method Init(size: int)
      requires Valid() && !nonNil && size >= 0
      modifies this
      ensures Valid() && nonNil
      ensures piles == seq(size, _ => ZeroPile()) && offset == 0 && done == []
    {
      piles := seq(size, _ => ZeroPile());
      nonNil := true;
    }

    /** UnmarshalBaseStrand: the next slot, appended when the slots made by
        init are used up, receives the pile read from the first 40 bytes. */
    method UnmarshalBaseStrand(data: seq<uint8>) returns (out: BaseStrandPile)
      requires Valid() && |data| >= RECORD_SIZE
      modifies this
      ensures Valid() && nonNil
      ensures out == Decode(data)
      ensures done == old(done) + [out] && offset == old(offset) + 1
      ensures old(offset) == |old(piles)| ==> piles == old(piles) + [out]
      ensures old(offset) < |old(piles)| ==> piles == old(piles)[old(offset) := out]
    {
      if offset == |piles| {
        piles := piles + [ZeroPile()];
        nonNil := true;
      }
      out := Decode(data);
      piles := piles[offset := out];
      offset := offset + 1;
      done := done + [out];
      assert piles[..offset] == old(piles[..offset]) + [out];
    }
  }

  /** The scan loop of ReadBaseStrandsRio: the unmarshaller, initialised
      with the trailer's count k, reads the records of ps back in order,
      whether k is short of, equal to or beyond their number. */
  method ReadPiles(ps: seq<BaseStrandPile>, k: nat) returns (got: seq<BaseStrandPile>)
    requires forall i :: 0 <= i < |ps| ==> ps[i].Valid()
    ensures got == ps
  {
    var u := new BaseStrandUnmarshaller();
    u.Init(k);
    for i := 0 to |ps|
      invariant u.Valid() && u.done == ps[..i]
    {
      RoundTrip(ps[i], []);
      var p := u.UnmarshalBaseStrand(Encode(ps[i]) + []);
      assert ps[..i + 1] == ps[..i] + [ps[i]];
    }
    got := u.piles[..u.offset];
    assert ps[..|ps|] == ps;
  }

  // ---------------------------------------------------------------------
  // ChrId

  /** ChrId: the name with its first three characters (the "chr" prefix)
      dropped must be X, Y or M (23, 24, 25) or a decimal in 1..22. */
  function ChrId(chr: string): (r: Result<int>)
    requires |chr| >= 3
    ensures r.Ok? <==> chr[3..] == "X" || chr[3..] == "Y" || chr[3..] == "M"
                       || (Decimals.Atoi(chr[3..]).Some? && 1 <= Decimals.Atoi(chr[3..]).value <= 22)
    ensures r.Ok? ==> 1 <= r.value <= 25
    ensures r.Ok? && r.value <= 22 ==> Decimals.Atoi(chr[3..]) == Some(r.value)
  {
    var id := chr[3..];
    if id == "X" then Ok(23)
    else if id == "Y" then Ok(24)
    else if id == "M" then Ok(25)
    else match Decimals.Atoi(id)
      case None => Err("invalid syntax")
      case Some(i) => if i <= 0 || i >= 23 then Err("not a valid chromosome id") else Ok(i)
  }

  /** The reference name of chromosome id i, in 1..25. */
  function ChrName(i: int): (name: string)
    requires 1 <= i <= 25
    ensures |name| >= 3 && name[..3] == "chr"
  {
    "chr" + (if i == 23 then "X" else if i == 24 then "Y" else if i == 25 then "M" else Decimals.NatStr(i))
  }

  /** ChrId inverts ChrName: every id in 1..25 has its name. */
  lemma ChrIdOfName(i: int)
    requires 1 <= i <= 25
    ensures ChrId(ChrName(i)) == Ok(i)
  {
    var suffix := ChrName(i)[3..];
    if i <= 22 {
      assert suffix == Decimals.NatStr(i);
      Decimals.ParseDecimalOfNatStr(i);
      assert Decimals.IsDigit(suffix[0]);
    } else {
      assert |suffix| == 1 && !Decimals.IsDigit(suffix[0]);
    }
  }
}
