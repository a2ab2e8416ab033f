/** The strand a read pair is aligned to, from its SAM flags
    (pileup/common.go). */
module PileupStrand {
  /** SAM flag bits (section 1.4 of the SAM format specification). */
  const MATE_UNMAPPED: bv16 := 0x8
  const REVERSE: bv16 := 0x10
  const MATE_REVERSE: bv16 := 0x20
  const READ1: bv16 := 0x40
  const READ2: bv16 := 0x80

  /** StrandType. */
  datatype Strand = StrandNone | StrandFwd | StrandRev

  /** What GetStrand reads of a record: the identities of its reference and
      of its mate's reference, and its flags. */
  datatype SamRecord = SamRecord(ref: int, mateRef: int, flags: bv16)

  predicate Has(flags: bv16, bit: bv16)
  {
    flags & bit == bit
  }

  /** GetStrand: none across references; forward when read 1 is forward and
      read 2 reverse, reverse for the opposite; and, when the mate is
      flagged unmapped, the alternate encoding of collapsed pairs in which
      both reverse bits clear mean forward and both set mean reverse. */
  function GetStrand(r: SamRecord): (s: Strand)
    ensures r.ref != r.mateRef ==> s == StrandNone
  {
    if r.ref != r.mateRef then StrandNone
    else
      var flagStrand := r.flags & (REVERSE | MATE_REVERSE | READ1 | READ2);
      if flagStrand == MATE_REVERSE | READ1 || flagStrand == REVERSE | READ2 then StrandFwd
      else if flagStrand == REVERSE | READ1 || flagStrand == MATE_REVERSE | READ2 then StrandRev
      else if Has(r.flags, MATE_UNMAPPED) then
        var reverseBits := flagStrand & (REVERSE | MATE_REVERSE);
        if reverseBits == 0 then StrandFwd
        else if reverseBits == REVERSE | MATE_REVERSE then StrandRev
        else StrandNone
      else StrandNone
  }

  /** Whether read 1 and read 2 of the pair are reversed, seen from a record
      that is one of the two reads. */
  predicate Read1Reversed(flags: bv16)
  {
    if Has(flags, READ1) then Has(flags, REVERSE) else Has(flags, MATE_REVERSE)
  }

  predicate Read2Reversed(flags: bv16)
  {
    if Has(flags, READ1) then Has(flags, MATE_REVERSE) else Has(flags, REVERSE)
  }

  /** For a read of a pair (exactly one of READ1 and READ2) whose mate is
      mapped to the same reference, the strand is forward when read 1 is
      forward and read 2 reversed, reverse for the opposite, and none when
      both point the same way. */
  lemma GetStrandOfPair(r: SamRecord)
    requires r.ref == r.mateRef && Has(r.flags, READ1) != Has(r.flags, READ2) && !Has(r.flags, MATE_UNMAPPED)
    ensures GetStrand(r) == StrandFwd <==> !Read1Reversed(r.flags) && Read2Reversed(r.flags)
    ensures GetStrand(r) == StrandRev <==> Read1Reversed(r.flags) && !Read2Reversed(r.flags)
  {
  }

  /** The record of r's mate, as its aligner writes it: the references
      swapped, the two reverse bits swapped and the two read bits swapped. */
  function MateOf(r: SamRecord): SamRecord
  {
    var f := r.flags;
    var kept := f & !(REVERSE | MATE_REVERSE | READ1 | READ2);
    var swapped := (if Has(f, REVERSE) then MATE_REVERSE else 0) | (if Has(f, MATE_REVERSE) then REVERSE else 0)
                   | (if Has(f, READ1) then READ2 else 0) | (if Has(f, READ2) then READ1 else 0);
    SamRecord(r.mateRef, r.ref, kept | swapped)
  }

  /** The mate of the mate is the record itself. */
  lemma MateOfMate(r: SamRecord)
    ensures MateOf(MateOf(r)) == r
  {
  }

  /** Both reads of a pair whose mates are mapped get the same strand. */
  lemma GetStrandOfMate(r: SamRecord)
    requires !Has(r.flags, MATE_UNMAPPED) && !Has(MateOf(r).flags, MATE_UNMAPPED)
    ensures GetStrand(MateOf(r)) == GetStrand(r)
  {
  }

  /** The collapsed encoding: a record of the same reference, flagged mate
      unmapped and with neither read bit, is forward when neither reverse
      bit is set, reverse when both are, and none otherwise. */
  lemma GetStrandCollapsed(r: SamRecord)
    requires r.ref == r.mateRef && Has(r.flags, MATE_UNMAPPED) && !Has(r.flags, READ1) && !Has(r.flags, READ2)
    ensures GetStrand(r) == StrandFwd <==> !Has(r.flags, REVERSE) && !Has(r.flags, MATE_REVERSE)
    ensures GetStrand(r) == StrandRev <==> Has(r.flags, REVERSE) && Has(r.flags, MATE_REVERSE)
  {
  }

}

/** Parsing of a pileup column-set descriptor such as "+dpref,-highq" into a
    64-bit column bitset (pileup/common.go). */
module PileupColumns {
  import PyStrings

  /** A 64-bit column bitset, as the set of the positions of its set bits:
      x | v is the union, x &^ v the difference and 0 the empty set. */
  type Bits = s: set<nat> | forall b :: b in s ==> b < 64

  // ---------------------------------------------------------------------
  // ParseCols

  /** Why a column-set descriptor is refused. EmptyTerm is the index-out-of-
      range panic on an empty term. */
  datatype ColsError = MixedPrefix | NotFound(name: string) | EmptyTerm

  datatype ColsOutcome = Parsed(bitset: Bits) | Failed(error: ColsError)

  /** colNameMap[name], with Go's zero for a missing name. */
  function Lookup(colNameMap: map<string, Bits>, name: string): Bits
  {
    if name in colNameMap then colNameMap[name] else {}
  }

  predicate Prefixed(part: string)
    requires part != []
  {
    part[0] == '+' || part[0] == '-'
  }

  /** The patching loop over terms that all carry +/-: a '+' term sets its
      columns, a '-' term clears them. */
  function Patch(acc: Bits, parts: seq<string>, colNameMap: map<string, Bits>): ColsOutcome
    decreases |parts|
  {
    if parts == [] then Parsed(acc)
    else
      var part := parts[0];
      if part == [] then Failed(EmptyTerm)
      else if !Prefixed(part) then Failed(MixedPrefix)
      else
        var v := Lookup(colNameMap, part[1..]);
        if v == {} then Failed(NotFound(part[1..]))
        else Patch(if part[0] == '+' then acc + v else acc - v, parts[1..], colNameMap)
  }

  /** The loop over terms without +/-: the union of their columns. */
  function Union(acc: Bits, parts: seq<string>, colNameMap: map<string, Bits>): ColsOutcome
    decreases |parts|
  {
    if parts == [] then Parsed(acc)
    else
      var part := parts[0];
      if part == [] then Failed(EmptyTerm)
      else if Prefixed(part) then Failed(MixedPrefix)
      else
        var v := Lookup(colNameMap, part);
        if v == {} then Failed(NotFound(part))
        else Union(acc + v, parts[1..], colNameMap)
  }

  /** What ParseCols returns: the default for an empty parameter; otherwise
      the comma-separated terms patch the default when the first one starts
      with + or -, and replace it by their union when it does not. */
  function ParseColsOf(colsParam: string, colNameMap: map<string, Bits>, defaultColBitset: Bits): (r: ColsOutcome)
    ensures colsParam == [] ==> r == Parsed(defaultColBitset)
  {
    if colsParam == [] then Parsed(defaultColBitset)
    else
      var parts := PyStrings.Split(colsParam, ",");
      if parts[0] == [] then Failed(EmptyTerm)
      else if Prefixed(parts[0]) then Patch(defaultColBitset, parts, colNameMap)
      else Union({}, parts, colNameMap)
  }

  /** The loop over terms that carry +/-. */
  method PatchLoop(defaultColBitset: Bits, parts: seq<string>, colNameMap: map<string, Bits>) returns (r: ColsOutcome)
    ensures r == Patch(defaultColBitset, parts, colNameMap)
  {
    var colBitset := defaultColBitset;
    for i := 0 to |parts|
      invariant Patch(defaultColBitset, parts, colNameMap) == Patch(colBitset, parts[i..], colNameMap)
    {
      var part := parts[i];
      assert parts[i..][1..] == parts[i + 1..];
      if part == [] {
        return Failed(EmptyTerm);
      }
      if !Prefixed(part) {
        return Failed(MixedPrefix);
      }
      var v := Lookup(colNameMap, part[1..]);
      if v == {} {
        return Failed(NotFound(part[1..]));
      }
      if part[0] == '+' {
        colBitset := colBitset + v;
      } else {
        colBitset := colBitset - v;
      }
    }
    return Parsed(colBitset);
  }

  /** The loop over terms without +/-. */
  method UnionLoop(parts: seq<string>, colNameMap: map<string, Bits>) returns (r: ColsOutcome)
    ensures r == Union({}, parts, colNameMap)
  {
    var colBitset: Bits := {};
    for i := 0 to |parts|
      invariant Union({}, parts, colNameMap) == Union(colBitset, parts[i..], colNameMap)
    {
      var part := parts[i];
      assert parts[i..][1..] == parts[i + 1..];
      if part == [] {
        return Failed(EmptyTerm);
      }
      if Prefixed(part) {
        return Failed(MixedPrefix);
      }
      var v := Lookup(colNameMap, part);
      if v == {} {
        return Failed(NotFound(part));
      }
      colBitset := colBitset + v;
    }
    return Parsed(colBitset);
  }

  /** ParseCols. */
  method ParseCols(colsParam: string, colNameMap: map<string, Bits>, defaultColBitset: Bits) returns (r: ColsOutcome)
    ensures r == ParseColsOf(colsParam, colNameMap, defaultColBitset)
  {
    if colsParam == [] {
      return Parsed(defaultColBitset);
    }
    var parts := PyStrings.Split(colsParam, ",");
    if parts[0] == [] {
      return Failed(EmptyTerm);
    }
    if Prefixed(parts[0]) {
      r := PatchLoop(defaultColBitset, parts, colNameMap);
    } else {
      r := UnionLoop(parts, colNameMap);
    }
  }

  /** The name a term refers to. */
  function Name(part: string): string
  {
    if part != [] && Prefixed(part) then part[1..] else part
  }

  /** A term of a patching descriptor: +/- and a known name. */
  predicate PatchTerm(part: string, colNameMap: map<string, Bits>)
  {
    part != [] && Prefixed(part) && Lookup(colNameMap, part[1..]) != {}
  }

  /** A term of a replacing descriptor: a known name without +/-. */
  predicate UnionTerm(part: string, colNameMap: map<string, Bits>)
  {
    part != [] && !Prefixed(part) && Lookup(colNameMap, part) != {}
  }

  /** Patching fails exactly when some term is empty, lacks +/- or names no
      column. */
  lemma {:induction false} PatchSucceeds(acc: Bits, parts: seq<string>, colNameMap: map<string, Bits>)
    ensures Patch(acc, parts, colNameMap).Parsed? <==> forall j :: 0 <= j < |parts| ==> PatchTerm(parts[j], colNameMap)
    decreases |parts|
  {
    if parts != [] && PatchTerm(parts[0], colNameMap) {
      var v := Lookup(colNameMap, parts[0][1..]);
      PatchSucceeds(if parts[0][0] == '+' then acc + v else acc - v, parts[1..], colNameMap);
      assert forall j :: 1 <= j < |parts| ==> parts[j] == parts[1..][j - 1];
    }
  }

  /** The union fails exactly when some term is empty, carries +/- or names
      no column. */
  lemma {:induction false} UnionSucceeds(acc: Bits, parts: seq<string>, colNameMap: map<string, Bits>)
    ensures Union(acc, parts, colNameMap).Parsed? <==> forall j :: 0 <= j < |parts| ==> UnionTerm(parts[j], colNameMap)
    decreases |parts|
  {
    if parts != [] && UnionTerm(parts[0], colNameMap) {
      UnionSucceeds(acc + Lookup(colNameMap, parts[0]), parts[1..], colNameMap);
      assert forall j :: 1 <= j < |parts| ==> parts[j] == parts[1..][j - 1];
    }
  }

  /** The last term whose columns include bit b, or -1. */
  function LastTouching(parts: seq<string>, colNameMap: map<string, Bits>, b: nat): (i: int)
    ensures -1 <= i < |parts|
    ensures i >= 0 ==> b in Lookup(colNameMap, Name(parts[i]))
    ensures forall j :: i < j < |parts| ==> b !in Lookup(colNameMap, Name(parts[j]))
    decreases |parts|
  {
    if parts == [] then -1
    else if b in Lookup(colNameMap, Name(parts[|parts| - 1])) then |parts| - 1
    else LastTouching(parts[..|parts| - 1], colNameMap, b)
  }

  /** LastTouching of a sequence, from LastTouching of its tail. */
  lemma {:induction false} LastTouchingCons(parts: seq<string>, colNameMap: map<string, Bits>, b: nat)
    requires parts != []
    ensures var i, t := LastTouching(parts, colNameMap, b), LastTouching(parts[1..], colNameMap, b);
            if t >= 0 then i == t + 1
            else i == (if b in Lookup(colNameMap, Name(parts[0])) then 0 else -1)
    decreases |parts|
  {
    if |parts| > 1 {
      var init := parts[..|parts| - 1];
      LastTouchingCons(init, colNameMap, b);
      assert init[1..] == parts[1..][..|parts| - 2];
    }
  }

  /** Patching decides each bit by the last term that names it: set by a
      '+' term, cleared by a '-' term, and left as in the default when no
      term names it. */
  lemma {:induction false} PatchBit(acc: Bits, parts: seq<string>, colNameMap: map<string, Bits>, b: nat)
    requires Patch(acc, parts, colNameMap).Parsed?
    ensures var i := LastTouching(parts, colNameMap, b);
            b in Patch(acc, parts, colNameMap).bitset <==> if i < 0 then b in acc else PyStrings.StartsWith(parts[i], "+")
    decreases |parts|
  {
    if parts != [] {
      var part := parts[0];
      assert part != [] && Prefixed(part);
      var v := Lookup(colNameMap, part[1..]);
      PatchBit(if part[0] == '+' then acc + v else acc - v, parts[1..], colNameMap, b);
      LastTouchingCons(parts, colNameMap, b);
    }
  }

  /** The union has a bit exactly when some term's columns have it. */
  lemma {:induction false} UnionBit(acc: Bits, parts: seq<string>, colNameMap: map<string, Bits>, b: nat)
    requires Union(acc, parts, colNameMap).Parsed?
    ensures b in Union(acc, parts, colNameMap).bitset
            <==> b in acc || exists i :: 0 <= i < |parts| && b in Lookup(colNameMap, parts[i])
    decreases |parts|
  {
    if parts != [] {
      var v := Lookup(colNameMap, parts[0]);
      UnionBit(acc + v, parts[1..], colNameMap, b);
      assert forall i :: 1 <= i < |parts| ==> parts[i] == parts[1..][i - 1];
    }
  }
}
