/** BED interval unions: tokenising BED lines, parsing region strings,
    merging sorted entries into per-chromosome endpoint lists, and the
    containment and intersection queries over them. */
module BedUnions {
  import opened Wrappers
  import opened Ints
  import opened EndpointIndexes
  import opened Decimals

  // ---------------------------------------------------------------------
  // getTokens

  /** Any byte <= ' ' separates tokens. */
  predicate IsDelim(b: byte) { b <= 32 }

  predicate IsToken(t: seq<byte>)
  {
    |t| > 0 && forall j :: 0 <= j < |t| ==> !IsDelim(t[j])
  }

  /** Length of the run of non-delimiter bytes at the front of s. */
  function TokenLen(s: seq<byte>): (r: nat)
    ensures r <= |s|
    ensures forall j :: 0 <= j < r ==> !IsDelim(s[j])
    ensures r < |s| ==> IsDelim(s[r])
  {
    if |s| == 0 || IsDelim(s[0]) then 0 else 1 + TokenLen(s[1..])
  }

  lemma {:induction false} TokenLenUnique(s: seq<byte>, n: nat)
    requires n <= |s|
    requires forall j :: 0 <= j < n ==> !IsDelim(s[j])
    requires n < |s| ==> IsDelim(s[n])
    ensures TokenLen(s) == n
  {
    if n > 0 {
      TokenLenUnique(s[1..], n - 1);
    }
  }

  /** The reference split: the maximal runs of non-delimiter bytes, in
      order. */
  function Fields(s: seq<byte>): (r: seq<seq<byte>>)
    ensures forall k :: 0 <= k < |r| ==> IsToken(r[k])
    decreases |s|
  {
    if |s| == 0 then []
    else if IsDelim(s[0]) then Fields(s[1..])
    else
      var n := TokenLen(s);
      [s[..n]] + Fields(s[n..])
  }

  /** Tokens joined by single spaces. */
  function JoinSpace(toks: seq<seq<byte>>): seq<byte>
  {
    if |toks| == 0 then []
    else if |toks| == 1 then toks[0]
    else toks[0] + [32] + JoinSpace(toks[1..])
  }

  /** Splitting inverts joining with single spaces. */
  lemma {:induction false} FieldsOfJoin(toks: seq<seq<byte>>)
    requires forall k :: 0 <= k < |toks| ==> IsToken(toks[k])
    ensures Fields(JoinSpace(toks)) == toks
  {
    if |toks| == 0 {
    } else {
      var t := toks[0];
      var s := JoinSpace(toks);
      var rest: seq<byte> := if |toks| == 1 then [] else [32] + JoinSpace(toks[1..]);
      assert s == t + rest;
      TokenLenUnique(s, |t|);
      assert s[..|t|] == t;
      assert s[|t|..] == rest;
      if |toks| > 1 {
        FieldsOfJoin(toks[1..]);
        assert rest[1..] == JoinSpace(toks[1..]);
        assert Fields(rest) == Fields(rest[1..]);
        assert toks == [t] + toks[1..];
      }
    }
  }

  /** A delimiter at i is skipped. */
  lemma SkipDelimStep(s: seq<byte>, i: nat)
    requires i < |s| && IsDelim(s[i])
    ensures Fields(s[i..]) == Fields(s[i + 1..])
  {
    assert s[i..][1..] == s[i + 1..];
  }

  /** A maximal run [pos, posEnd) of non-delimiters is the next field. */
  lemma TokenStep(s: seq<byte>, pos: nat, posEnd: nat)
    requires pos < posEnd <= |s|
    requires forall j :: pos <= j < posEnd ==> !IsDelim(s[j])
    requires posEnd < |s| ==> IsDelim(s[posEnd])
    ensures Fields(s[pos..]) == [s[pos..posEnd]] + Fields(s[posEnd..])
  {
    var rest := s[pos..];
    TokenLenUnique(rest, posEnd - pos);
    assert rest[..posEnd - pos] == s[pos..posEnd];
    assert rest[posEnd - pos..] == s[posEnd..];
  }

  /** The first loop of getTokens: the first non-delimiter at or after i. */
  method SkipDelims(curLine: seq<byte>, i: nat) returns (pos: nat)
    requires i <= |curLine|
    ensures i <= pos <= |curLine|
    ensures Fields(curLine[pos..]) == Fields(curLine[i..])
    ensures pos < |curLine| ==> !IsDelim(curLine[pos])
  {
    pos := i;
    while pos != |curLine|
      invariant i <= pos <= |curLine|
      invariant Fields(curLine[pos..]) == Fields(curLine[i..])
    {
      if !IsDelim(curLine[pos]) {
        break;
      }
      SkipDelimStep(curLine, pos);
      pos := pos + 1;
    }
  }

  /** The second loop of getTokens: the end of the token starting at pos,
      which is the next field. */
  method TokenEnd(curLine: seq<byte>, pos: nat) returns (posEnd: nat)
    requires pos < |curLine| && !IsDelim(curLine[pos])
    ensures pos < posEnd <= |curLine|
    ensures Fields(curLine[pos..]) == [curLine[pos..posEnd]] + Fields(curLine[posEnd..])
  {
    posEnd := pos;
    while posEnd != |curLine|
      invariant pos <= posEnd <= |curLine|
      invariant forall j :: pos <= j < posEnd ==> !IsDelim(curLine[j])
    {
      if IsDelim(curLine[posEnd]) {
        break;
      }
      posEnd := posEnd + 1;
    }
    TokenStep(curLine, pos, posEnd);
  }

  /** getTokens: fills tokens[0..n) with the first n fields of the line, n
      being the smaller of the capacity and the number of fields, and leaves
      the other slots alone. */
  method GetTokens(tokens: array<seq<byte>>, curLine: seq<byte>) returns (n: nat)
    modifies tokens
    ensures n == Min(tokens.Length, |Fields(curLine)|)
    ensures tokens[..n] == Fields(curLine)[..n]
    ensures tokens[n..] == old(tokens[n..])
  {
    ghost var fields := Fields(curLine);
    var posEnd := 0;
    var lineLen := |curLine|;
    var tokenIdx := 0;
    assert curLine[0..] == curLine;
    while tokenIdx < tokens.Length
      invariant 0 <= posEnd <= lineLen && tokenIdx <= tokens.Length && tokenIdx <= |fields|
      invariant forall j :: 0 <= j < tokenIdx ==> tokens[j] == fields[j]
      invariant Fields(curLine[posEnd..]) == fields[tokenIdx..]
      invariant forall j :: tokenIdx <= j < tokens.Length ==> tokens[j] == old(tokens[j])
    {
      var pos := SkipDelims(curLine, posEnd);
      if pos == lineLen {
        assert curLine[pos..] == [];
        SameUpTo(tokens[..], fields, tokenIdx);
        return tokenIdx;
      }
      posEnd := TokenEnd(curLine, pos);
      var tok := curLine[pos..posEnd];
      SuffixHead(fields, tokenIdx, tok, Fields(curLine[posEnd..]));
      tokens[tokenIdx] := tok;
      tokenIdx := tokenIdx + 1;
    }
    SameUpTo(tokens[..], fields, tokenIdx);
    return tokens.Length;
  }

  lemma SuffixHead<T>(a: seq<T>, i: nat, t: T, b: seq<T>)
    requires i <= |a| && a[i..] == [t] + b
    ensures i < |a| && a[i] == t && a[i + 1..] == b
  {
    assert a[i..][0] == t;
    assert a[i + 1..] == a[i..][1..];
  }

  lemma SameUpTo<T>(a: seq<T>, b: seq<T>, n: nat)
    requires n <= |a| && n <= |b|
    requires forall j :: 0 <= j < n ==> a[j] == b[j]
    ensures a[..n] == b[..n]
  {
  }

  // ---------------------------------------------------------------------
  // ParseRegionString

  /** A BED interval with 0-based half-open coordinates. */
  datatype Entry = Entry(chrName: string, start0: int, end: int)

  /** strings.IndexByte: the first index of c, or -1. */
  function IndexByte(s: string, c: char): (r: int)
    ensures -1 <= r < |s|
    ensures r >= 0 ==> s[r] == c
    ensures forall j :: 0 <= j < |s| && (r == -1 || j < r) ==> s[j] != c
  {
    if |s| == 0 then -1
    else if s[0] == c then 0
    else
      var r := IndexByte(s[1..], c);
      if r == -1 then -1 else r + 1
  }

  /** The positional part after the colon: "pos" or "first-last" (1-based,
      inclusive). rejectSingleBase keeps the source's `end0 <= start1`
      test, which also refuses a range naming one base. */
  function ParseRange(chr: string, rangeStr: string, rejectSingleBase: bool): (r: Result<Entry>)
    ensures r.Ok? ==> r.value.chrName == chr && 0 <= r.value.start0 < r.value.end <= POS_TYPE_MAX
  {
    var dashPos := IndexByte(rangeStr, '-');
    if dashPos == -1 then ParsePos(chr, rangeStr)
    else ParseFirstLast(chr, rangeStr[..dashPos], rangeStr[dashPos + 1..], rejectSingleBase)
  }

  /** "pos": a 1-based int32 position, at least 1. */
  function ParsePos(chr: string, rangeStr: string): (r: Result<Entry>)
    ensures r.Ok? ==> r.value.chrName == chr && 0 <= r.value.start0 && r.value.end == r.value.start0 + 1 <= POS_TYPE_MAX
  {
    match ParseInt32(rangeStr)
    case None => Err("invalid position")
    case Some(pos1) =>
      if pos1 <= 0 then Err("position out of range") else Ok(Entry(chr, pos1 - 1, pos1))
  }

  /** "first-last": first at least 1, last beyond first and below
      PosTypeMax. */
  function ParseFirstLast(chr: string, start1Str: string, endStr: string, rejectSingleBase: bool): (r: Result<Entry>)
    ensures r.Ok? ==> r.value.chrName == chr && 0 <= r.value.start0 < r.value.end < POS_TYPE_MAX
    ensures r.Ok? && rejectSingleBase ==> r.value.end - r.value.start0 >= 2
  {
    match Atoi(start1Str)
    case None => Err("invalid start")
    case Some(start1) =>
      if start1 <= 0 then Err("position out of range")
      else
        match Atoi(endStr)
        case None => Err("invalid end")
        case Some(end0) =>
          if (if rejectSingleBase then end0 <= start1 else end0 < start1) || end0 >= POS_TYPE_MAX then
            Err("invalid range string")
          else Ok(Entry(chr, start1 - 1, end0))
  }

  function ParseRegionWith(region: string, rejectSingleBase: bool): (r: Result<Entry>)
    ensures r.Ok? ==> r.value.chrName != [] && ':' !in r.value.chrName
    ensures r.Ok? ==> 0 <= r.value.start0 < r.value.end <= POS_TYPE_MAX
  {
    if |region| == 0 then Err("empty region string")
    else
      var colonPos := IndexByte(region, ':');
      if colonPos == -1 then Ok(Entry(region, 0, POS_TYPE_MAX - 1))
      else if colonPos == 0 then Err("empty contig ID")
      else ParseRange(region[..colonPos], region[colonPos + 1..], rejectSingleBase)
  }

  /** ParseRegionString exactly as written. */
  function ParseRegionStringAsWritten(region: string): Result<Entry>
  {
    ParseRegionWith(region, true)
  }

  /** ParseRegionString as documented: "contig:first-last" names the 1-based
      bases first..last inclusive, so first == last is one base. */
  function ParseRegionString(region: string): (r: Result<Entry>)
    ensures r.Ok? ==> r.value.chrName != [] && ':' !in r.value.chrName
    ensures r.Ok? ==> 0 <= r.value.start0 < r.value.end <= POS_TYPE_MAX
  {
    ParseRegionWith(region, false)
  }

  /** The first c of a + [c] + b is at |a| when a holds none. */
  lemma {:induction false} IndexByteConcat(a: string, c: char, b: string)
    requires c !in a
    ensures IndexByte(a + [c] + b, c) == |a|
  {
    if |a| > 0 {
      IndexByteConcat(a[1..], c, b);
      assert (a + [c] + b)[1..] == a[1..] + [c] + b;
    }
  }

  /** A contig name without a colon is split off at the first colon. */
  lemma RegionSplit(chr: string, rest: string, rejectSingleBase: bool)
    requires chr != [] && ':' !in chr
    ensures ParseRegionWith(chr + ":" + rest, rejectSingleBase) == ParseRange(chr, rest, rejectSingleBase)
  {
    var region := chr + ":" + rest;
    IndexByteConcat(chr, ':', rest);
    assert region[..|chr|] == chr;
    assert region[|chr| + 1..] == rest;
  }

  lemma NoSignNoDash(n: nat)
    ensures '-' !in NatStr(n) && NatStr(n)[0] != '+'
  {
    var a := NatStr(n);
    assert forall i :: 0 <= i < |a| ==> IsDigit(a[i]);
  }

  lemma AtoiOfNatStr(n: nat)
    requires n <= MAX_INT32
    ensures Atoi(NatStr(n)) == Some(n) && ParseInt32(NatStr(n)) == Some(n)
  {
    ParseDecimalOfNatStr(n);
  }

  /** "pos" gives [pos-1, pos). */
  lemma RangeOfPos(chr: string, pos: nat, rejectSingleBase: bool)
    requires 1 <= pos <= MAX_INT32
    ensures ParseRange(chr, NatStr(pos), rejectSingleBase) == Ok(Entry(chr, pos - 1, pos))
  {
    NoSignNoDash(pos);
    AtoiOfNatStr(pos);
  }

  lemma FirstLastOfNats(chr: string, first: nat, last: nat, rejectSingleBase: bool)
    requires 1 <= first <= last < POS_TYPE_MAX
    ensures rejectSingleBase && first == last ==> ParseFirstLast(chr, NatStr(first), NatStr(last), rejectSingleBase).Err?
    ensures !rejectSingleBase || first < last ==>
      ParseFirstLast(chr, NatStr(first), NatStr(last), rejectSingleBase) == Ok(Entry(chr, first - 1, last))
  {
    AtoiOfNatStr(first);
    AtoiOfNatStr(last);
  }

  /** "first-last" gives [first-1, last); as written, only when first < last. */
  lemma RangeOfFirstLast(chr: string, first: nat, last: nat, rejectSingleBase: bool)
    requires 1 <= first <= last < POS_TYPE_MAX
    ensures ParseRange(chr, NatStr(first) + "-" + NatStr(last), rejectSingleBase)
         == ParseFirstLast(chr, NatStr(first), NatStr(last), rejectSingleBase)
  {
    var a := NatStr(first);
    var rangeStr := a + "-" + NatStr(last);
    NoSignNoDash(first);
    IndexByteConcat(a, '-', NatStr(last));
    assert rangeStr[..|a|] == a && rangeStr[|a| + 1..] == NatStr(last);
  }

  lemma NatStrExamples()
    ensures NatStr(1) == "1" && NatStr(5) == "5" && NatStr(1000) == "1000"
  {
    assert NatStr(10) == "10";
    assert NatStr(100) == "100";
  }

  /** The documented examples: "chr1:1000" is the single base [999, 1000). */
  lemma ParseRegionStringExamplePos()
    ensures ParseRegionStringAsWritten("chr1:1000") == Ok(Entry("chr1", 999, 1000))
  {
    NatStrExamples();
    assert "chr1:1000" == "chr1" + ":" + NatStr(1000);
    RegionSplit("chr1", NatStr(1000), true);
    RangeOfPos("chr1", 1000, true);
  }

  /** "chr1:1-1000" is [0, 1000). */
  lemma ParseRegionStringExampleRange()
    ensures ParseRegionStringAsWritten("chr1:1-1000") == Ok(Entry("chr1", 0, 1000))
  {
    NatStrExamples();
    var rest := NatStr(1) + "-" + NatStr(1000);
    assert rest == "1-1000";
    assert "chr1:1-1000" == "chr1" + ":" + rest;
    RangeOfFirstLast("chr1", 1, 1000, true);
    FirstLastOfNats("chr1", 1, 1000, true);
    RegionSplit("chr1", rest, true);
  }

  /** A bare contig is [0, PosTypeMax - 1); the empty string is an error. */
  lemma ParseRegionStringExampleContig()
    ensures ParseRegionStringAsWritten("chr1") == Ok(Entry("chr1", 0, POS_TYPE_MAX - 1))
    ensures ParseRegionStringAsWritten("").Err? && ParseRegionStringAsWritten(":5").Err?
  {
    assert IndexByte("chr1", ':') == -1;
  }

  /** A leading colon (an empty contig name) is an error. */
  lemma EmptyContigIsError(region: string)
    requires |region| > 0 && region[0] == ':'
    ensures ParseRegionStringAsWritten(region).Err? && ParseRegionString(region).Err?
  {
  }

  /** Round trip: "contig:first-last" gives [first-1, last). */
  lemma ParseRegionStringRange(chr: string, first: nat, last: nat)
    requires chr != [] && ':' !in chr
    requires 1 <= first <= last < POS_TYPE_MAX
    ensures ParseRegionString(chr + ":" + NatStr(first) + "-" + NatStr(last)) == Ok(Entry(chr, first - 1, last))
  {
    var a, b := NatStr(first), NatStr(last);
    var rest := a + "-" + b;
    assert ParseRange(chr, rest, false) == Ok(Entry(chr, first - 1, last)) by {
      RangeOfFirstLast(chr, first, last, false);
      FirstLastOfNats(chr, first, last, false);
    }
    assert ParseRegionWith(chr + ":" + rest, false) == ParseRange(chr, rest, false) by {
      RegionSplit(chr, rest, false);
    }
    Concat4(chr + ":", a, "-", b);
  }

  lemma Concat4(a: string, b: string, c: string, d: string)
    ensures a + b + c + d == a + (b + c + d)
  {
  }

  /** Round trip: "contig:pos" gives [pos-1, pos). */
  lemma ParseRegionStringPos(chr: string, pos: nat)
    requires chr != [] && ':' !in chr
    requires 1 <= pos <= MAX_INT32
    ensures ParseRegionString(chr + ":" + NatStr(pos)) == Ok(Entry(chr, pos - 1, pos))
  {
    RegionSplit(chr, NatStr(pos), false);
    RangeOfPos(chr, pos, false);
  }

  /** The discrepancy: a range naming a single base is refused as written,
      while "chr1:5" for the same base is accepted. */
  lemma ParseRegionStringAsWrittenRejectsSingleBase()
    ensures ParseRegionStringAsWritten("chr1:5-5").Err?
    ensures ParseRegionStringAsWritten("chr1:5") == Ok(Entry("chr1", 4, 5))
    ensures ParseRegionString("chr1:5-5") == Ok(Entry("chr1", 4, 5))
  {
    SingleBaseRange(true);
    SingleBaseRange(false);
    assert ParseRegionStringAsWritten("chr1:5") == Ok(Entry("chr1", 4, 5)) by {
      NatStrExamples();
      assert "chr1:5" == "chr1" + ":" + NatStr(5);
      RegionSplit("chr1", NatStr(5), true);
      RangeOfPos("chr1", 5, true);
    }
  }

  /** "chr1:5-5" with and without the single-base rejection. */
  lemma SingleBaseRange(rejectSingleBase: bool)
    ensures rejectSingleBase ==> ParseRegionWith("chr1:5-5", rejectSingleBase).Err?
    ensures !rejectSingleBase ==> ParseRegionWith("chr1:5-5", rejectSingleBase) == Ok(Entry("chr1", 4, 5))
  {
    NatStrExamples();
    var rest := NatStr(5) + "-" + NatStr(5);
    assert rest == "5-5";
    assert "chr1:5-5" == "chr1" + ":" + rest;
    RegionSplit("chr1", rest, rejectSingleBase);
    RangeOfFirstLast("chr1", 5, 5, rejectSingleBase);
    FirstLastOfNats("chr1", 5, 5, rejectSingleBase);
  }

  /** Wherever the source accepts a region, the corrected parser agrees. */
  lemma ParseRegionStringExtendsAsWritten(region: string)
    requires ParseRegionStringAsWritten(region).Ok?
    ensures ParseRegionString(region) == ParseRegionStringAsWritten(region)
  {
  }

  // ---------------------------------------------------------------------
  // NewBEDUnionFromEntries

  /** The per-entry checks: a nonnegative start, end not before start, end
      below PosTypeMax. */
  predicate ValidEntry(e: Entry)
  {
    0 <= e.start0 <= e.end < POS_TYPE_MAX
  }

  ghost predicate Seen(entries: seq<Entry>, k: nat, c: string)
    requires k <= |entries|
  {
    exists i :: 0 <= i < k && entries[i].chrName == c
  }

  /** p is covered by one of the first k entries on chromosome c. */
  ghost predicate Covered(entries: seq<Entry>, k: nat, c: string, p: int)
    requires k <= |entries|
  {
    exists i :: 0 <= i < k && entries[i].chrName == c && entries[i].start0 <= p < entries[i].end
  }

  /** ivs covers exactly what the first k entries cover on c. */
  ghost predicate Exact(ivs: seq<int>, entries: seq<Entry>, k: nat, c: string)
    requires k <= |entries|
  {
    forall p :: InUnion(ivs, p) <==> Covered(entries, k, c, p)
  }

  /** A merged endpoint list: a union with every endpoint in [0, PosTypeMax). */
  predicate MergedList(a: seq<int>)
  {
    IsUnion(a) && forall i :: 0 <= i < |a| ==> 0 <= a[i] < POS_TYPE_MAX
  }

  /** The list for one chromosome, bracketed by -1 and PosTypeMax under
      Invert. */
  function Wrap(invert: bool, body: seq<int>): seq<int>
  {
    if invert then [-1] + body + [POS_TYPE_MAX] else body
  }

  function Unwrap(invert: bool, ivs: seq<int>): seq<int>
  {
    if invert && |ivs| >= 2 then ivs[1..|ivs| - 1] else ivs
  }

  /** The saved intervals plus the pending one [prevStart, prevEnd), which is
      absent while prevEnd is -1 (only empty entries so far). */
  function Pending(body: seq<int>, ps: int, pe: int): seq<int>
  {
    if pe == -1 then body else body + [ps, pe]
  }

  predicate RunOk(body: seq<int>, ps: int, pe: int)
  {
    MergedList(body)
    && (pe == -1 ==> ps == -1 && body == [])
    && (pe != -1 ==> 0 <= ps < pe < POS_TYPE_MAX && (|body| > 0 ==> body[|body| - 1] < ps))
  }

  /** The list being built for the current chromosome: a leading -1 under
      Invert, then the saved intervals. */
  function Opened(invert: bool, body: seq<int>): seq<int>
  {
    (if invert then [-1] else []) + body
  }

  /** What the result promises for chromosome c after k entries: the
      (unwrapped) list is merged and covers exactly the positions of c's
      entries. */
  ghost predicate MergedUpTo(ivs: seq<int>, invert: bool, entries: seq<Entry>, k: nat, c: string)
    requires k <= |entries|
  {
    ivs == Wrap(invert, Unwrap(invert, ivs))
    && MergedList(Unwrap(invert, ivs))
    && Exact(Unwrap(invert, ivs), entries, k, c)
  }

  /** Input the source is documented to accept: valid named entries, each
      chromosome in one run, starts nondecreasing within a chromosome. */
  ghost predicate WellFormedInput(entries: seq<Entry>)
  {
    (forall i :: 0 <= i < |entries| ==> ValidEntry(entries[i]) && entries[i].chrName != "")
    && (forall i, j, l :: 0 <= i < j < l < |entries| && entries[i].chrName == entries[l].chrName ==>
          entries[j].chrName == entries[i].chrName)
    && (forall i, j :: 0 <= i < j < |entries| && entries[i].chrName == entries[j].chrName ==>
          entries[i].start0 <= entries[j].start0)
  }

  lemma {:induction false} InUnionAppend(a: seq<int>, s: int, e: int, p: int)
    requires |a| % 2 == 0
    ensures InUnion(a + [s, e], p) <==> InUnion(a, p) || s <= p < e
  {
    var b := a + [s, e];
    if InUnion(b, p) {
      var k :| 0 <= k && 2 * k + 1 < |b| && b[2 * k] <= p < b[2 * k + 1];
      if 2 * k + 1 < |a| {
        assert a[2 * k] <= p < a[2 * k + 1];
      }
    }
    if InUnion(a, p) {
      var k :| 0 <= k && 2 * k + 1 < |a| && a[2 * k] <= p < a[2 * k + 1];
      assert b[2 * k] <= p < b[2 * k + 1];
    }
    if s <= p < e {
      var k := |a| / 2;
      assert b[2 * k] <= p < b[2 * k + 1];
    }
  }

  lemma RunOkMerged(body: seq<int>, ps: int, pe: int)
    requires RunOk(body, ps, pe)
    ensures MergedList(Pending(body, ps, pe))
  {
  }

  /** An entry on another chromosome changes nothing for c. */
  lemma ExactOther(ivs: seq<int>, entries: seq<Entry>, k: nat, c: string)
    requires k < |entries| && entries[k].chrName != c
    requires Exact(ivs, entries, k, c)
    ensures Exact(ivs, entries, k + 1, c)
  {
    forall p ensures Covered(entries, k + 1, c, p) <==> Covered(entries, k, c, p) {
      if Covered(entries, k + 1, c, p) {
        var i :| 0 <= i < k + 1 && entries[i].chrName == c && entries[i].start0 <= p < entries[i].end;
      }
    }
  }

  /** An entry on c adds exactly its own positions. */
  lemma ExactAdd(ivs: seq<int>, ivs': seq<int>, entries: seq<Entry>, k: nat, c: string)
    requires k < |entries| && entries[k].chrName == c
    requires Exact(ivs, entries, k, c)
    requires forall p :: InUnion(ivs', p) <==> InUnion(ivs, p) || entries[k].start0 <= p < entries[k].end
    ensures Exact(ivs', entries, k + 1, c)
  {
    forall p ensures InUnion(ivs', p) <==> Covered(entries, k + 1, c, p) {
      if Covered(entries, k + 1, c, p) {
        var i :| 0 <= i < k + 1 && entries[i].chrName == c && entries[i].start0 <= p < entries[i].end;
      }
      if entries[k].start0 <= p < entries[k].end {
        assert Covered(entries, k + 1, c, p);
      }
      if Covered(entries, k, c, p) {
        var i :| 0 <= i < k && entries[i].chrName == c && entries[i].start0 <= p < entries[i].end;
        assert Covered(entries, k + 1, c, p);
      }
    }
  }

  /** The first entry of a new chromosome. */
  lemma ExactFresh(entries: seq<Entry>, k: nat, c: string)
    requires k < |entries| && entries[k].chrName == c && !Seen(entries, k, c)
    requires ValidEntry(entries[k]) && entries[k].start0 < entries[k].end
    ensures Exact(Pending([], entries[k].start0, entries[k].end), entries, k + 1, c)
  {
    forall i | 0 <= i < k ensures entries[i].chrName != c {
    }
    assert [] + [entries[k].start0, entries[k].end] == [entries[k].start0, entries[k].end];
    forall p ensures InUnion([entries[k].start0, entries[k].end], p) <==> entries[k].start0 <= p < entries[k].end {
      InUnionAppend([], entries[k].start0, entries[k].end, p);
    }
    ExactAdd([], [entries[k].start0, entries[k].end], entries, k, c);
  }

  /** A new chromosome whose first entry is empty. */
  lemma ExactFreshEmpty(entries: seq<Entry>, k: nat, c: string)
    requires k < |entries| && entries[k].chrName == c && !Seen(entries, k, c)
    requires entries[k].start0 == entries[k].end
    ensures Exact([], entries, k + 1, c)
  {
    forall i | 0 <= i < k ensures entries[i].chrName != c {
    }
  }

  /** Appending a disjoint later interval [s, e) after the pending one. */
  lemma ExactDisjoint(body: seq<int>, ps: int, pe: int, entries: seq<Entry>, k: nat, c: string)
    requires k < |entries| && entries[k].chrName == c
    requires RunOk(body, ps, pe) && Exact(Pending(body, ps, pe), entries, k, c)
    requires ValidEntry(entries[k]) && entries[k].start0 > pe && entries[k].start0 < entries[k].end
    ensures RunOk(Pending(body, ps, pe), entries[k].start0, entries[k].end)
    ensures Exact(Pending(Pending(body, ps, pe), entries[k].start0, entries[k].end), entries, k + 1, c)
  {
    var b := Pending(body, ps, pe);
    RunOkMerged(body, ps, pe);
    forall p ensures InUnion(b + [entries[k].start0, entries[k].end], p) <==> InUnion(b, p) || entries[k].start0 <= p < entries[k].end {
      InUnionAppend(b, entries[k].start0, entries[k].end, p);
    }
    ExactAdd(b, b + [entries[k].start0, entries[k].end], entries, k, c);
  }

  /** Merging an overlapping or touching [s, e) into the pending interval. */
  lemma ExactOverlap(body: seq<int>, ps: int, pe: int, entries: seq<Entry>, k: nat, c: string)
    requires k < |entries| && entries[k].chrName == c
    requires RunOk(body, ps, pe) && Exact(Pending(body, ps, pe), entries, k, c)
    requires ValidEntry(entries[k]) && ps <= entries[k].start0 <= pe && pe != -1
    ensures RunOk(body, ps, Max(pe, entries[k].end))
    ensures Exact(Pending(body, ps, Max(pe, entries[k].end)), entries, k + 1, c)
  {
    var s, e := entries[k].start0, entries[k].end;
    forall p ensures InUnion(body + [ps, Max(pe, e)], p) <==> InUnion(body + [ps, pe], p) || s <= p < e {
      InUnionAppend(body, ps, Max(pe, e), p);
      InUnionAppend(body, ps, pe, p);
    }
    ExactAdd(body + [ps, pe], body + [ps, Max(pe, e)], entries, k, c);
  }

  lemma SeenStep(entries: seq<Entry>, k: nat, c: string)
    requires k < |entries|
    ensures Seen(entries, k + 1, c) <==> Seen(entries, k, c) || entries[k].chrName == c
  {
    if Seen(entries, k + 1, c) {
      var i :| 0 <= i < k + 1 && entries[i].chrName == c;
      if i < k {
        assert Seen(entries, k, c);
      }
    }
    if Seen(entries, k, c) {
      var i :| 0 <= i < k && entries[i].chrName == c;
      assert Seen(entries, k + 1, c);
    }
    if entries[k].chrName == c {
      assert Seen(entries, k + 1, c);
    }
  }

  /** Entry l carries a nonempty name that already appeared before some
      other name. */
  ghost predicate Reappears(entries: seq<Entry>, l: nat)
    requires l < |entries|
  {
    exists i, j :: 0 <= i < j < l && entries[i].chrName != ""
      && entries[i].chrName == entries[l].chrName && entries[j].chrName != entries[i].chrName
  }

  /** Some nonempty chromosome name among the first n entries is split: it
      reappears after another. */
  ghost predicate SplitChr(entries: seq<Entry>, n: nat)
    requires n <= |entries|
  {
    exists l :: 0 <= l < n && Reappears(entries, l)
  }

  lemma ReappearsStep(entries: seq<Entry>, k: nat)
    requires k < |entries| && !SplitChr(entries, k)
    ensures Reappears(entries, k) ==>
      k > 0 && entries[k - 1].chrName != entries[k].chrName && entries[k].chrName != "" && Seen(entries, k, entries[k].chrName)
  {
    if Reappears(entries, k) {
      var i, j :| 0 <= i < j < k && entries[i].chrName != ""
        && entries[i].chrName == entries[k].chrName && entries[j].chrName != entries[i].chrName;
      if j < k - 1 {
        assert !Reappears(entries, k - 1);
        assert entries[i].chrName != entries[k - 1].chrName;
      }
      assert Seen(entries, k, entries[k].chrName);
    }
  }

  /** Under well-formed input a chromosome switch never meets a name seen
      before. */
  lemma NoSplitFound(entries: seq<Entry>, k: nat)
    requires WellFormedInput(entries) && 0 < k < |entries|
    requires entries[k - 1].chrName != entries[k].chrName
    ensures !Seen(entries, k, entries[k].chrName)
  {
    forall i | 0 <= i < k ensures entries[i].chrName != entries[k].chrName {
      if i < k - 1 {
        assert entries[i].chrName != entries[k - 1].chrName || entries[k].chrName != entries[k - 1].chrName;
      }
    }
  }

  /** Saving the pending interval and closing the list of chromosome c. */
  lemma SaveRun(invert: bool, body: seq<int>, ps: int, pe: int, entries: seq<Entry>, k: nat, c: string)
    requires k <= |entries|
    requires RunOk(body, ps, pe) && Exact(Pending(body, ps, pe), entries, k, c)
    ensures MergedUpTo(Wrap(invert, Pending(body, ps, pe)), invert, entries, k, c)
    ensures Wrap(invert, Pending(body, ps, pe))
      == Opened(invert, body) + (if pe != -1 then [ps, pe] else []) + (if invert then [POS_TYPE_MAX] else [])
  {
    RunOkMerged(body, ps, pe);
    var b := Pending(body, ps, pe);
    if invert {
      var w := [-1] + b + [POS_TYPE_MAX];
      assert w[1..|w| - 1] == b;
    }
  }

  /** Entry k, not on any chromosome already in the map, leaves the map's
      lists exact. */
  lemma OthersStep(nameMap: map<string, seq<int>>, invert: bool, entries: seq<Entry>, k: nat)
    requires k < |entries| && entries[k].chrName !in nameMap
    requires forall c :: c in nameMap ==> MergedUpTo(nameMap[c], invert, entries, k, c)
    ensures forall c :: c in nameMap ==> MergedUpTo(nameMap[c], invert, entries, k + 1, c)
  {
    forall c | c in nameMap ensures MergedUpTo(nameMap[c], invert, entries, k + 1, c) {
      ExactOther(Unwrap(invert, nameMap[c]), entries, k, c);
    }
  }

  // The state of the entry loop after k entries, one predicate per concern:
  // nameMap holds the closed chromosomes, prevChr is the current one, body
  // the saved part of its list and [ps, pe) its pending interval.

  ghost predicate PrefixOk(entries: seq<Entry>, k: nat)
  {
    k <= |entries| && (forall i :: 0 <= i < k ==> ValidEntry(entries[i])) && !SplitChr(entries, k)
  }

  predicate ChrOk(entries: seq<Entry>, k: nat, prevChr: string)
  {
    k <= |entries| && (k == 0 ==> prevChr == "") && (k > 0 ==> prevChr == entries[k - 1].chrName)
  }

  ghost predicate CurOk(entries: seq<Entry>, invert: bool, k: nat, prevChr: string, ps: int, pe: int,
                        chrIntervals: seq<int>, body: seq<int>)
    requires k <= |entries|
  {
    prevChr != "" ==>
      chrIntervals == Opened(invert, body) && RunOk(body, ps, pe) && Exact(Pending(body, ps, pe), entries, k, prevChr)
  }

  ghost predicate KeysOk(entries: seq<Entry>, k: nat, nameMap: map<string, seq<int>>, prevChr: string)
    requires k <= |entries|
  {
    forall c :: c in nameMap <==> c != "" && c != prevChr && Seen(entries, k, c)
  }

  ghost predicate ListsOk(entries: seq<Entry>, invert: bool, k: nat, nameMap: map<string, seq<int>>)
    requires k <= |entries|
  {
    forall c :: c in nameMap ==> MergedUpTo(nameMap[c], invert, entries, k, c)
  }

  /** Under well-formed input the pending interval starts at some entry's
      start. */
  ghost predicate StartOk(entries: seq<Entry>, k: nat, prevChr: string, ps: int, pe: int)
    requires k <= |entries|
  {
    WellFormedInput(entries) && prevChr != "" && pe != -1 ==>
      exists i :: 0 <= i < k && entries[i].chrName == prevChr && entries[i].start0 == ps
  }

  /** The map after saving the current chromosome (if any). */
  function Saved(nameMap: map<string, seq<int>>, invert: bool, prevChr: string, body: seq<int>, ps: int, pe: int): map<string, seq<int>>
  {
    if prevChr != "" then nameMap[prevChr := Wrap(invert, Pending(body, ps, pe))] else nameMap
  }

  lemma PrefixStep(entries: seq<Entry>, k: nat, nameMap: map<string, seq<int>>, prevChr: string)
    requires k < |entries| && PrefixOk(entries, k) && ValidEntry(entries[k])
    requires ChrOk(entries, k, prevChr) && KeysOk(entries, k, nameMap, prevChr)
    requires entries[k].chrName !in nameMap
    ensures PrefixOk(entries, k + 1)
  {
    ReappearsStep(entries, k);
    assert !Reappears(entries, k);
    forall l | 0 <= l < k + 1 ensures !Reappears(entries, l) {
    }
  }

  lemma KeysSame(entries: seq<Entry>, k: nat, nameMap: map<string, seq<int>>, prevChr: string)
    requires k < |entries| && entries[k].chrName == prevChr && KeysOk(entries, k, nameMap, prevChr)
    ensures KeysOk(entries, k + 1, nameMap, prevChr)
  {
    forall d ensures d in nameMap <==> d != "" && d != prevChr && Seen(entries, k + 1, d) {
      SeenStep(entries, k, d);
    }
  }

  lemma KeysSwitch(entries: seq<Entry>, invert: bool, k: nat, nameMap: map<string, seq<int>>, prevChr: string,
                   body: seq<int>, ps: int, pe: int)
    requires k < |entries| && ChrOk(entries, k, prevChr) && KeysOk(entries, k, nameMap, prevChr)
    requires entries[k].chrName !in Saved(nameMap, invert, prevChr, body, ps, pe)
    ensures KeysOk(entries, k + 1, Saved(nameMap, invert, prevChr, body, ps, pe), entries[k].chrName)
  {
    if prevChr != "" {
      assert Seen(entries, k, prevChr);
    }
    forall d ensures d in Saved(nameMap, invert, prevChr, body, ps, pe) <==> d != "" && d != entries[k].chrName && Seen(entries, k + 1, d) {
      SeenStep(entries, k, d);
    }
  }

  lemma CurSwitch(entries: seq<Entry>, invert: bool, k: nat)
    requires k < |entries| && ValidEntry(entries[k]) && entries[k].chrName != ""
    requires !Seen(entries, k, entries[k].chrName)
    ensures CurOk(entries, invert, k + 1, entries[k].chrName,
                  if entries[k].start0 == entries[k].end then -1 else entries[k].start0,
                  if entries[k].start0 == entries[k].end then -1 else entries[k].end,
                  Opened(invert, []), [])
  {
    if entries[k].start0 == entries[k].end {
      ExactFreshEmpty(entries, k, entries[k].chrName);
    } else {
      ExactFresh(entries, k, entries[k].chrName);
    }
  }

  /** After the last entry, saving the current chromosome completes the map. */
  lemma FinishBuild(entries: seq<Entry>, invert: bool, nameMap: map<string, seq<int>>,
                    prevChr: string, ps: int, pe: int, chrIntervals: seq<int>, body: seq<int>)
    requires ChrOk(entries, |entries|, prevChr)
    requires CurOk(entries, invert, |entries|, prevChr, ps, pe, chrIntervals, body)
    requires KeysOk(entries, |entries|, nameMap, prevChr) && ListsOk(entries, invert, |entries|, nameMap)
    ensures forall c :: c in Saved(nameMap, invert, prevChr, body, ps, pe) <==> c != "" && Seen(entries, |entries|, c)
    ensures ListsOk(entries, invert, |entries|, Saved(nameMap, invert, prevChr, body, ps, pe))
  {
    if prevChr != "" {
      SaveRun(invert, body, ps, pe, entries, |entries|, prevChr);
      assert Seen(entries, |entries|, prevChr);
    }
  }

  /** Closing a chromosome's list: the pending interval (unless there is
      none) and, under Invert, the closing PosTypeMax. */
  method CloseList(chrIntervals: seq<int>, ps: int, pe: int, invert: bool) returns (r: seq<int>)
    ensures r == chrIntervals + (if pe != -1 then [ps, pe] else []) + (if invert then [POS_TYPE_MAX] else [])
  {
    r := chrIntervals;
    if pe != -1 {
      r := r + [ps, pe];
    }
    if invert {
      r := r + [POS_TYPE_MAX];
    }
  }

  /** The promise of NewBEDUnionFromEntries on success: every entry passed
      the checks, no chromosome is split, the keys are exactly the nonempty
      chromosome names that occur, and each list is merged and covers
      exactly the positions of that chromosome's entries. */
  ghost predicate BuiltFrom(nameMap: map<string, seq<int>>, invert: bool, entries: seq<Entry>)
  {
    (forall i :: 0 <= i < |entries| ==> ValidEntry(entries[i]))
    && !SplitChr(entries, |entries|)
    && (forall c :: c in nameMap <==> c != "" && Seen(entries, |entries|, c))
    && (forall c :: c in nameMap ==> MergedUpTo(nameMap[c], invert, entries, |entries|, c))
  }

  /** The loop state after k entries (see the predicates above). */
  ghost predicate LoopOk(entries: seq<Entry>, invert: bool, k: nat, nameMap: map<string, seq<int>>, prevChr: string,
                         ps: int, pe: int, chrIntervals: seq<int>, body: seq<int>)
  {
    PrefixOk(entries, k) && ChrOk(entries, k, prevChr)
    && CurOk(entries, invert, k, prevChr, ps, pe, chrIntervals, body)
    && KeysOk(entries, k, nameMap, prevChr) && ListsOk(entries, invert, k, nameMap)
    && StartOk(entries, k, prevChr, ps, pe)
  }

  /** Saving the current chromosome (if any): its pending interval and,
      under Invert, the closing PosTypeMax are appended to its list, which
      goes into the map. */
  method SaveChr(entries: seq<Entry>, invert: bool, k: nat, nameMap: map<string, seq<int>>, prevChr: string,
                 ps: int, pe: int, chrIntervals: seq<int>, ghost body: seq<int>)
    returns (nameMap': map<string, seq<int>>)
    requires k <= |entries|
    requires CurOk(entries, invert, k, prevChr, ps, pe, chrIntervals, body) && ListsOk(entries, invert, k, nameMap)
    ensures nameMap' == Saved(nameMap, invert, prevChr, body, ps, pe)
    ensures ListsOk(entries, invert, k, nameMap')
  {
    nameMap' := nameMap;
    if prevChr != "" {
      SaveRun(invert, body, ps, pe, entries, k, prevChr);
      var closed := CloseList(chrIntervals, ps, pe, invert);
      nameMap' := nameMap'[prevChr := closed];
    }
  }

  /** Opening the list of a chromosome first met at entry k (already
      checked). */
  method OpenChr(entries: seq<Entry>, invert: bool, k: nat) returns (ps': int, pe': int, chrIntervals': seq<int>)
    requires k < |entries| && ValidEntry(entries[k])
    requires entries[k].chrName != "" ==> !Seen(entries, k, entries[k].chrName)
    ensures CurOk(entries, invert, k + 1, entries[k].chrName, ps', pe', chrIntervals', [])
    ensures StartOk(entries, k + 1, entries[k].chrName, ps', pe')
  {
    var entry := entries[k];
    chrIntervals' := [];
    if invert {
      chrIntervals' := chrIntervals' + [-1];
    }
    if entry.end == entry.start0 {
      ps', pe' := -1, -1;
    } else {
      ps', pe' := entry.start0, entry.end;
    }
    if entry.chrName != "" {
      CurSwitch(entries, invert, k);
    }
  }

  /** At a chromosome switch, the new name is already saved exactly when it
      is a nonempty name met before. */
  lemma SwitchMeetsSaved(entries: seq<Entry>, invert: bool, k: nat, nameMap: map<string, seq<int>>, prevChr: string,
                         ps: int, pe: int, body: seq<int>)
    requires k < |entries| && entries[k].chrName != prevChr
    requires ChrOk(entries, k, prevChr) && KeysOk(entries, k, nameMap, prevChr)
    ensures entries[k].chrName in Saved(nameMap, invert, prevChr, body, ps, pe)
      <==> entries[k].chrName != "" && Seen(entries, k, entries[k].chrName)
  {
  }

  /** The loop state after a chromosome switch at entry k. */
  lemma SwitchStep(entries: seq<Entry>, invert: bool, k: nat, nameMap: map<string, seq<int>>, prevChr: string,
                   ps: int, pe: int, chrIntervals: seq<int>, body: seq<int>, ps': int, pe': int, chrIntervals': seq<int>)
    requires k < |entries| && ValidEntry(entries[k]) && entries[k].chrName != prevChr
    requires LoopOk(entries, invert, k, nameMap, prevChr, ps, pe, chrIntervals, body)
    requires entries[k].chrName !in Saved(nameMap, invert, prevChr, body, ps, pe)
    requires ListsOk(entries, invert, k, Saved(nameMap, invert, prevChr, body, ps, pe))
    requires CurOk(entries, invert, k + 1, entries[k].chrName, ps', pe', chrIntervals', [])
    requires StartOk(entries, k + 1, entries[k].chrName, ps', pe')
    ensures LoopOk(entries, invert, k + 1, Saved(nameMap, invert, prevChr, body, ps, pe), entries[k].chrName, ps', pe', chrIntervals', [])
  {
    PrefixStep(entries, k, nameMap, prevChr);
    KeysSwitch(entries, invert, k, nameMap, prevChr, body, ps, pe);
    OthersStep(Saved(nameMap, invert, prevChr, body, ps, pe), invert, entries, k);
  }

  /** Entry k (already checked) is on the current chromosome: an empty one
      is skipped, a disjoint one saves the pending interval, an overlapping
      or touching one is merged into it, and one starting before it is an
      error. */
  method ExtendChr(entries: seq<Entry>, invert: bool, k: nat, nameMap: map<string, seq<int>>, prevChr: string,
                   ps: int, pe: int, chrIntervals: seq<int>, ghost body: seq<int>)
    returns (ok: bool, ps': int, pe': int, chrIntervals': seq<int>, ghost body': seq<int>)
    requires k < |entries| && ValidEntry(entries[k]) && entries[k].chrName == prevChr
    requires LoopOk(entries, invert, k, nameMap, prevChr, ps, pe, chrIntervals, body)
    ensures ok <==> !(entries[k].start0 != entries[k].end && entries[k].start0 <= pe && entries[k].start0 < ps)
    ensures WellFormedInput(entries) ==> ok
    ensures ok ==> LoopOk(entries, invert, k + 1, nameMap, prevChr, ps', pe', chrIntervals', body')
  {
    var entry := entries[k];
    PrefixStep(entries, k, nameMap, prevChr);
    KeysSame(entries, k, nameMap, prevChr);
    OthersStep(nameMap, invert, entries, k);
    ok, ps', pe', chrIntervals', body' := true, ps, pe, chrIntervals, body;
    if entry.end == entry.start0 {
      if prevChr != "" {
        ExactAdd(Pending(body, ps, pe), Pending(body, ps, pe), entries, k, prevChr);
      }
    } else if entry.start0 > pe {
      // The new interval does not touch the pending one, which is saved.
      if prevChr != "" {
        ExactDisjoint(body, ps, pe, entries, k, prevChr);
      }
      if pe != -1 {
        chrIntervals' := chrIntervals + [ps, pe];
      }
      body' := Pending(body, ps, pe);
      ps', pe' := entry.start0, entry.end;
    } else {
      if entry.start0 < ps {
        return false, ps, pe, chrIntervals, body;
      }
      if prevChr != "" {
        ExactOverlap(body, ps, pe, entries, k, prevChr);
      }
      // The intervals overlap or touch: merge them.
      if entry.end > pe {
        pe' := entry.end;
      }
    }
  }

  /** NewBEDUnionFromEntries' entry loop: builds the per-chromosome endpoint
      lists, merging overlapping or touching intervals and dropping empty
      ones. */
  method NewNameMapFromEntries(entries: seq<Entry>, invert: bool) returns (r: Result<map<string, seq<int>>>)
    ensures r.Ok? ==> BuiltFrom(r.value, invert, entries)
    ensures WellFormedInput(entries) ==> r.Ok?
  {
    var nameMap: map<string, seq<int>> := map[];
    var prevChr: string := "";
    var prevStart, prevEnd := 0, 0;
    var chrIntervals: seq<int> := [];
    ghost var body: seq<int> := [];
    var k := 0;
    while k < |entries|
      invariant k <= |entries|
      invariant LoopOk(entries, invert, k, nameMap, prevChr, prevStart, prevEnd, chrIntervals, body)
    {
      var entry := entries[k];
      if entry.start0 < 0 {
        return Err("negative start coordinate");
      }
      if entry.end < entry.start0 || entry.end >= POS_TYPE_MAX {
        return Err("invalid coordinate pair");
      }
      if prevChr != entry.chrName {
        ghost var nameMap0 := nameMap;
        nameMap := SaveChr(entries, invert, k, nameMap, prevChr, prevStart, prevEnd, chrIntervals, body);
        SwitchMeetsSaved(entries, invert, k, nameMap0, prevChr, prevStart, prevEnd, body);
        if WellFormedInput(entries) && k > 0 {
          NoSplitFound(entries, k);
        }
        if entry.chrName in nameMap {
          return Err("unsorted input (split chromosome)");
        }
        ghost var ps0, pe0, chrIntervals0, body0 := prevStart, prevEnd, chrIntervals, body;
        prevStart, prevEnd, chrIntervals := OpenChr(entries, invert, k);
        SwitchStep(entries, invert, k, nameMap0, prevChr, ps0, pe0, chrIntervals0, body0, prevStart, prevEnd, chrIntervals);
        prevChr, body := entry.chrName, [];
      } else {
        var ok;
        ok, prevStart, prevEnd, chrIntervals, body := ExtendChr(entries, invert, k, nameMap, prevChr, prevStart, prevEnd, chrIntervals, body);
        if !ok {
          return Err("unsorted input");
        }
      }
      k := k + 1;
    }
    FinishBuild(entries, invert, nameMap, prevChr, prevStart, prevEnd, chrIntervals, body);
    nameMap := SaveChr(entries, invert, k, nameMap, prevChr, prevStart, prevEnd, chrIntervals, body);
    return Ok(nameMap);
  }

  // ---------------------------------------------------------------------
  // What the built lists mean

  lemma WrapIsUnion(invert: bool, body: seq<int>)
    requires MergedList(body)
    ensures IsUnion(Wrap(invert, body))
    ensures forall i :: 0 <= i < |Wrap(invert, body)| ==> -1 <= Wrap(invert, body)[i] <= POS_TYPE_MAX
  {
  }

  /** Under Invert the search lands one slot further than in the body. */
  lemma SearchShift(body: seq<int>, x: int)
    requires MergedList(body) && 0 <= x <= POS_TYPE_MAX
    ensures SearchPosTypes(Wrap(true, body), x) == 1 + SearchPosTypes(body, x)
  {
    var w := Wrap(true, body);
    var r := SearchPosTypes(body, x);
    forall i | 0 <= i < 1 + r ensures w[i] < x {
      if i > 0 {
        assert w[i] == body[i - 1];
      }
    }
    if r < |body| {
      assert w[1 + r] == body[r];
    }
    SearchUnique(w, x, 1 + r);
  }

  /** The inverted list is the complement of the body on [-1, PosTypeMax). */
  lemma InvertComplement(body: seq<int>, p: int)
    requires MergedList(body) && -1 <= p < POS_TYPE_MAX
    ensures InUnion(Wrap(true, body), p) <==> !InUnion(body, p)
  {
    WrapIsUnion(true, body);
    ContainedIffInUnion(Wrap(true, body), p);
    ContainedIffInUnion(body, p);
    SearchShift(body, p + 1);
  }

  /** A position of a chromosome named in the entries lies in its built list
      exactly when some entry covers it, or, under Invert, when none does. */
  lemma BuiltListMembership(nameMap: map<string, seq<int>>, invert: bool, entries: seq<Entry>, c: string, p: int)
    requires BuiltFrom(nameMap, invert, entries) && c in nameMap && 0 <= p < POS_TYPE_MAX
    ensures InUnion(nameMap[c], p) <==> (Covered(entries, |entries|, c, p) != invert)
  {
    assert MergedUpTo(nameMap[c], invert, entries, |entries|, c);
    var body := Unwrap(invert, nameMap[c]);
    if invert {
      InvertComplement(body, p);
    }
  }

  /** Under Invert the list of a named chromosome also holds position -1. */
  lemma InvertedListHoldsMinusOne(nameMap: map<string, seq<int>>, entries: seq<Entry>, c: string)
    requires BuiltFrom(nameMap, true, entries) && c in nameMap
    ensures InUnion(nameMap[c], -1)
  {
    assert MergedUpTo(nameMap[c], true, entries, |entries|, c);
    var body := Unwrap(true, nameMap[c]);
    forall k | 0 <= k && 2 * k + 1 < |body| ensures !(body[2 * k] <= -1 < body[2 * k + 1]) {
    }
    InvertComplement(body, -1);
  }

  // ---------------------------------------------------------------------
  // nameToIDData

  /** The id-indexed list of a header chromosome: its list when the BED
      mentions it, else the whole chromosome under Invert, else nothing. */
  function ChrList(nameMap: map<string, seq<int>>, invert: bool, name: string): Option<seq<int>>
  {
    if name in nameMap then Some(nameMap[name])
    else if invert then Some([-1, POS_TYPE_MAX])
    else None
  }

  /** nameToIDData: one list per header reference, in header order. */
  method NameToIdData(nameMap: map<string, seq<int>>, refNames: seq<string>, invert: bool)
    returns (idMap: seq<Option<seq<int>>>)
    ensures |idMap| == |refNames|
    ensures forall i :: 0 <= i < |refNames| ==> idMap[i] == ChrList(nameMap, invert, refNames[i])
  {
    idMap := [];
    var refID := 0;
    while refID < |refNames|
      invariant 0 <= refID <= |refNames| && |idMap| == refID
      invariant forall i :: 0 <= i < refID ==> idMap[i] == ChrList(nameMap, invert, refNames[i])
    {
      var refName := refNames[refID];
      if refName in nameMap {
        idMap := idMap + [Some(nameMap[refName])];
      } else if invert {
        idMap := idMap + [Some([-1, POS_TYPE_MAX])];
      } else {
        idMap := idMap + [None];
      }
      refID := refID + 1;
    }
  }

  /** A position of a header chromosome lies in its id-indexed list exactly
      when some entry covers it, or, under Invert, when none does: a header
      chromosome absent from the BED is fully included under Invert. */
  lemma IdListMembership(nameMap: map<string, seq<int>>, invert: bool, entries: seq<Entry>, name: string, p: int)
    requires BuiltFrom(nameMap, invert, entries) && name != "" && 0 <= p < POS_TYPE_MAX
    ensures (ChrList(nameMap, invert, name).Some? && InUnion(ChrList(nameMap, invert, name).value, p))
      <==> (Covered(entries, |entries|, name, p) != invert)
  {
    if name in nameMap {
      BuiltListMembership(nameMap, invert, entries, name, p);
    } else {
      assert !Seen(entries, |entries|, name);
      forall i | 0 <= i < |entries| ensures entries[i].chrName != name {
      }
      assert !Covered(entries, |entries|, name, p);
      if invert {
        assert [-1, POS_TYPE_MAX][2 * 0] <= p < [-1, POS_TYPE_MAX][2 * 0 + 1];
      }
    }
  }

  /** Every list the builder and nameToIDData produce is a union. */
  lemma BuiltListsAreUnions(nameMap: map<string, seq<int>>, invert: bool, entries: seq<Entry>, name: string)
    requires BuiltFrom(nameMap, invert, entries)
    ensures ChrList(nameMap, invert, name).Some? ==> IsUnion(ChrList(nameMap, invert, name).value)
  {
    if name in nameMap {
      assert MergedUpTo(nameMap[name], invert, entries, |entries|, name);
      WrapIsUnion(invert, Unwrap(invert, nameMap[name]));
    }
  }

  // ---------------------------------------------------------------------
  // Queries

  function Lookup(nameMap: map<string, seq<int>>, c: string): Option<seq<int>>
  {
    if c in nameMap then Some(nameMap[c]) else None
  }

  /** The answer of a spot query at pos: the list exists and the endpoint
      index of pos + 1 (int32 arithmetic) is odd. */
  function InList(ivs: Option<seq<int>>, pos: int): bool
    requires IsInt32(pos)
  {
    ivs.Some? && Contained(NewEndpointIndex(pos, ivs.value))
  }

  lemma InListIffInUnion(ivs: Option<seq<int>>, pos: int)
    requires IsInt32(pos) && (ivs.Some? ==> IsUnion(ivs.value))
    ensures pos < POS_TYPE_MAX ==> (InList(ivs, pos) <==> ivs.Some? && InUnion(ivs.value, pos))
    ensures pos == POS_TYPE_MAX ==> !InList(ivs, pos)
  {
    if ivs.Some? {
      if pos < POS_TYPE_MAX {
        ContainedIffInUnion(ivs.value, pos);
      } else {
        assert WrapInt32(pos + 1) == MIN_INT32;
        SearchUnique(ivs.value, MIN_INT32, 0);
      }
    }
  }

  /** The region query's intended meaning: some position of the half-open
      region from startRefID:startPos to limitRefID:limitPos lies in the
      union. */
  ghost predicate HitBetween(ivs: Option<seq<int>>, lo: int, hi: int)
  {
    ivs.Some? && exists p :: lo <= p < hi && InUnion(ivs.value, p)
  }

  ghost predicate HitFrom(ivs: Option<seq<int>>, lo: int)
  {
    ivs.Some? && exists p :: lo <= p && InUnion(ivs.value, p)
  }

  ghost predicate HitBelow(ivs: Option<seq<int>>, hi: int)
  {
    ivs.Some? && exists p :: p < hi && InUnion(ivs.value, p)
  }

  ghost predicate HitAny(ivs: Option<seq<int>>)
  {
    ivs.Some? && exists p :: InUnion(ivs.value, p)
  }

  ghost predicate RegionHit(idMap: seq<Option<seq<int>>>, startRefID: int, startPos: int, limitRefID: int, limitPos: int)
    requires 0 <= startRefID <= limitRefID < |idMap|
  {
    if startRefID == limitRefID then HitBetween(idMap[startRefID], startPos, limitPos)
    else (HitFrom(idMap[startRefID], startPos)
          || (exists id :: startRefID < id < limitRefID && HitAny(idMap[id]))
          || HitBelow(idMap[limitRefID], limitPos))
  }

  /** Some reference strictly between the two has a list, empty or not. */
  ghost predicate PresentBetween(idMap: seq<Option<seq<int>>>, startRefID: int, limitRefID: int)
    requires 0 <= startRefID <= limitRefID < |idMap|
  {
    exists id :: startRefID < id < limitRefID && idMap[id].Some?
  }

  /** What the search on the start chromosome tells. */
  lemma StartChrSearch(a: seq<int>, sp: int)
    requires IsUnion(a) && IsInt32(sp) && sp < POS_TYPE_MAX
    ensures var idx := SearchPosTypes(a, sp + 1);
      (idx % 2 == 1 ==> InUnion(a, sp))
      && (idx % 2 == 0 && idx < |a| ==> sp < a[idx] && InUnion(a, a[idx]))
      && (idx % 2 == 0 ==> forall p :: sp <= p && (idx < |a| ==> p < a[idx]) ==> !InUnion(a, p))
  {
    var idx := SearchPosTypes(a, sp + 1);
    assert WrapInt32(sp + 1) == sp + 1;
    ContainedIffInUnion(a, sp);
    if idx % 2 == 0 && idx < |a| {
      assert a[2 * (idx / 2)] <= a[idx] < a[2 * (idx / 2) + 1];
    }
    if idx % 2 == 0 {
      SearchIsInsertionPoint(a, sp + 1);
      forall p | sp <= p && (idx < |a| ==> p < a[idx]) ensures !InUnion(a, p) {
        if p < POS_TYPE_MAX {
          SearchUnique(a, p + 1, idx);
          assert WrapInt32(p + 1) == p + 1;
          ContainedIffInUnion(a, p);
        } else {
          forall k | 0 <= k && 2 * k + 1 < |a| ensures !(a[2 * k] <= p < a[2 * k + 1]) {
          }
        }
      }
    }
  }

  /** The first endpoint of a nonempty union is its least position. */
  lemma FirstEndpointIsLeast(a: seq<int>)
    requires IsUnion(a)
    ensures |a| > 0 ==> InUnion(a, a[0])
    ensures forall p :: InUnion(a, p) ==> a[0] <= p
  {
    if |a| > 0 {
      assert 0 <= 0 && 2 * 0 + 1 < |a| && a[2 * 0] <= a[0] < a[2 * 0 + 1];
      assert InUnion(a, a[0]);
    }
    forall p | InUnion(a, p) ensures a[0] <= p {
      var k :| 0 <= k && 2 * k + 1 < |a| && a[2 * k] <= p < a[2 * k + 1];
    }
  }

  class BEDUnion {
    /** Chromosome-keyed endpoint lists. */
    const nameMap: map<string, seq<int>>
    /** Endpoint lists indexed by header reference ID (empty without a
        header); None for a reference the BED does not mention. */
    const idMap: seq<Option<seq<int>>>
    /** The list of the most recently queried chromosome. */
    var lastChrIntervals: Option<seq<int>>
    /** The last chromosome queried by name; if nonempty, in sync with
        lastChrIntervals. */
    var lastChrName: string
    /** The last chromosome queried by ID; if nonnegative, in sync with
        lastChrIntervals. */
    var lastChrID: int
    /** 1 plus the last spot-queried position (int32 arithmetic). */
    var lastPosPlus1: int
    /** SearchPosTypes(lastChrIntervals, lastPosPlus1), for sequential
        queries. */
    var lastIdx: nat
    /** All queries since the last chromosome change were in nondecreasing
        position order. */
    var isSequential: bool

    /** Every list is a union. */
    predicate ListsValid()
    {
      (forall c :: c in nameMap ==> IsUnion(nameMap[c]))
      && (forall i :: 0 <= i < |idMap| && idMap[i].Some? ==> IsUnion(idMap[i].value))
    }

    ghost predicate Valid()
      reads this
    {
      ListsValid()
      && (lastChrName != "" ==> lastChrIntervals == Lookup(nameMap, lastChrName))
      && (lastChrID >= 0 ==> lastChrID < |idMap| && lastChrIntervals == idMap[lastChrID])
      && (lastChrIntervals.Some? ==> IsUnion(lastChrIntervals.value))
      && (lastChrIntervals.Some? && isSequential ==>
            IsInt32(lastPosPlus1) && lastIdx == SearchPosTypes(lastChrIntervals.value, lastPosPlus1))
    }

    /** initBEDUnion with the two maps filled in; Clone builds the same
        state around shared maps. */
    constructor (nameMap: map<string, seq<int>>, idMap: seq<Option<seq<int>>>)
      requires forall c :: c in nameMap ==> IsUnion(nameMap[c])
      requires forall i :: 0 <= i < |idMap| && idMap[i].Some? ==> IsUnion(idMap[i].value)
      ensures Valid() && this.nameMap == nameMap && this.idMap == idMap
      ensures lastChrIntervals == None && lastChrName == "" && lastChrID == -1
    {
      this.nameMap := nameMap;
      this.idMap := idMap;
      lastChrIntervals := None;
      lastChrName := "";
      lastChrID := -1;
      lastPosPlus1 := 0;
      lastIdx := 0;
      isSequential := false;
    }

    /** Clone: shares the lists, fresh search state. */
    method Clone() returns (u: BEDUnion)
      requires Valid()
      ensures fresh(u) && u.Valid() && u.nameMap == nameMap && u.idMap == idMap
      ensures u.lastChrIntervals == None && u.lastChrName == "" && u.lastChrID == -1
    {
      u := new BEDUnion(nameMap, idMap);
    }

    /** The part of ContainsByID/ContainsByName after the chromosome is
        known to be the cached one: a sequential query continues the
        previous search with an exponential search, any other query does a
        binary search. */
    method ContainsCached(pos: int) returns (r: bool)
      requires Valid() && IsInt32(pos)
      modifies this
      ensures Valid()
      ensures r == InList(lastChrIntervals, pos)
      ensures lastChrIntervals == old(lastChrIntervals) && lastChrName == old(lastChrName) && lastChrID == old(lastChrID)
    {
      var posPlus1 := WrapInt32(pos + 1);
      if lastChrIntervals.None? {
        return false;
      }
      if isSequential {
        if posPlus1 >= lastPosPlus1 {
          SearchMonotone(lastChrIntervals.value, lastPosPlus1, posPlus1);
          lastIdx := ExpsearchPosType(lastChrIntervals.value, posPlus1, lastIdx);
          lastPosPlus1 := posPlus1;
          return lastIdx % 2 == 1;
        }
        isSequential := false;
      }
      return SearchPosTypes(lastChrIntervals.value, posPlus1) % 2 == 1;
    }

    /** ContainsByID: is [pos, pos + 1) in the union, the chromosome given
        by header reference ID. */
    method ContainsByID(chrID: int, pos: int) returns (r: bool)
      requires Valid() && IsInt32(pos)
      requires chrID == lastChrID || 0 <= chrID < |idMap|
      modifies this
      ensures Valid() && lastChrID == chrID
      ensures r == InList(if chrID != old(lastChrID) then idMap[chrID] else old(lastChrIntervals), pos)
      ensures 0 <= chrID ==> r == InList(idMap[chrID], pos)
      ensures 0 <= chrID && pos < POS_TYPE_MAX ==> (r <==> idMap[chrID].Some? && InUnion(idMap[chrID].value, pos))
    {
      var posPlus1 := WrapInt32(pos + 1);
      if chrID != lastChrID {
        lastChrID := chrID;
        lastChrName := "";
        lastChrIntervals := idMap[chrID];
        if lastChrIntervals.None? {
          return false;
        }
        lastIdx := SearchPosTypes(lastChrIntervals.value, posPlus1);
        lastPosPlus1 := posPlus1;
        isSequential := true;
        r := lastIdx % 2 == 1;
      } else {
        r := ContainsCached(pos);
      }
      if 0 <= chrID {
        InListIffInUnion(idMap[chrID], pos);
      }
    }

    /** ContainsByName: is [pos, pos + 1) in the union, the chromosome given
        by name. */
    method ContainsByName(chrName: string, pos: int) returns (r: bool)
      requires Valid() && IsInt32(pos)
      modifies this
      ensures Valid() && lastChrName == chrName
      ensures r == InList(if chrName != old(lastChrName) then Lookup(nameMap, chrName) else old(lastChrIntervals), pos)
      ensures chrName != "" ==> r == InList(Lookup(nameMap, chrName), pos)
      ensures chrName != "" && pos < POS_TYPE_MAX ==> (r <==> chrName in nameMap && InUnion(nameMap[chrName], pos))
    {
      var posPlus1 := WrapInt32(pos + 1);
      if chrName != lastChrName {
        lastChrName := chrName;
        lastChrID := -1;
        lastChrIntervals := Lookup(nameMap, chrName);
        if lastChrIntervals.None? {
          return false;
        }
        lastIdx := SearchPosTypes(lastChrIntervals.value, posPlus1);
        lastPosPlus1 := posPlus1;
        isSequential := true;
        r := lastIdx % 2 == 1;
      } else {
        r := ContainsCached(pos);
      }
      if chrName != "" {
        InListIffInUnion(Lookup(nameMap, chrName), pos);
      }
    }
  
    /** Intersects as written: a reference strictly between the two whose
        list is present but empty counts as a hit, and such a list at the
        limit reference is indexed at 0 (a panic, None here). The explicit
        panics on a reversed region are None too. */
    method IntersectsAsWritten(startRefID: int, startPos: int, limitRefID: int, limitPos: int) returns (r: Option<bool>)
      requires ListsValid()
      requires 0 <= startRefID < |idMap| && 0 <= limitRefID < |idMap| && IsInt32(startPos) && IsInt32(limitPos)
      ensures startRefID > limitRefID ==> r.None?
      ensures startRefID == limitRefID ==> (r.None? <==> idMap[startRefID].Some? && limitPos <= startPos)
      ensures startRefID < limitRefID && startPos < POS_TYPE_MAX ==>
        (r.None? <==> !HitFrom(idMap[startRefID], startPos) && !PresentBetween(idMap, startRefID, limitRefID)
                      && idMap[limitRefID] == Some([]))
      ensures r.Some? && startPos < POS_TYPE_MAX ==>
        r.value == (if startRefID == limitRefID then HitBetween(idMap[startRefID], startPos, limitPos)
                    else (HitFrom(idMap[startRefID], startPos) || PresentBetween(idMap, startRefID, limitRefID)
                          || HitBelow(idMap[limitRefID], limitPos)))
    {
      if startRefID > limitRefID {
        return None;
      }
      var startChrIntervals := idMap[startRefID];
      if startChrIntervals.Some? {
        var a := startChrIntervals.value;
        var idxStart := SearchPosTypes(a, WrapInt32(startPos + 1));
        if startPos < POS_TYPE_MAX {
          StartChrSearch(a, startPos);
        }
        if startRefID < limitRefID {
          if idxStart < |a| {
            if startPos < POS_TYPE_MAX {
              HitFromWitness(a, startPos, idxStart);
            }
            return Some(true);
          }
        } else {
          if limitPos <= startPos {
            return None;
          }
          if idxStart % 2 == 1 {
            assert startPos <= startPos < limitPos && InUnion(a, startPos);
            return Some(true);
          }
          if idxStart != |a| && limitPos > a[idxStart] {
            assert startPos <= a[idxStart] < limitPos && InUnion(a, a[idxStart]);
          }
          return Some(idxStart != |a| && limitPos > a[idxStart]);
        }
      }
      if startRefID == limitRefID {
        return Some(false);
      }
      var refID := startRefID + 1;
      while refID < limitRefID
        invariant startRefID < refID <= limitRefID
        invariant forall id :: startRefID < id < refID ==> idMap[id].None?
      {
        if idMap[refID].Some? {
          return Some(true);
        }
        refID := refID + 1;
      }
      var limitChrIntervals := idMap[limitRefID];
      if limitChrIntervals.Some? {
        var b := limitChrIntervals.value;
        if |b| == 0 {
          return None;
        }
        FirstEndpointIsLeast(b);
        return Some(b[0] < limitPos);
      }
      return Some(false);
    }

    /** Intersects, corrected: a present but empty list holds no position,
        so it neither counts as a hit nor is indexed. Some position of the
        region lies in the union exactly when the answer is true. */
    method Intersects(startRefID: int, startPos: int, limitRefID: int, limitPos: int) returns (r: Option<bool>)
      requires ListsValid()
      requires 0 <= startRefID < |idMap| && 0 <= limitRefID < |idMap| && IsInt32(startPos) && IsInt32(limitPos)
      ensures r.None? <==> startRefID > limitRefID || (startRefID == limitRefID && idMap[startRefID].Some? && limitPos <= startPos)
      ensures r.Some? && startPos < POS_TYPE_MAX ==> r.value == RegionHit(idMap, startRefID, startPos, limitRefID, limitPos)
    {
      if startRefID > limitRefID {
        return None;
      }
      var startChrIntervals := idMap[startRefID];
      if startChrIntervals.Some? {
        var a := startChrIntervals.value;
        var idxStart := SearchPosTypes(a, WrapInt32(startPos + 1));
        if startPos < POS_TYPE_MAX {
          StartChrSearch(a, startPos);
        }
        if startRefID < limitRefID {
          if idxStart < |a| {
            if startPos < POS_TYPE_MAX {
              HitFromWitness(a, startPos, idxStart);
            }
            return Some(true);
          }
        } else {
          if limitPos <= startPos {
            return None;
          }
          if idxStart % 2 == 1 {
            assert startPos <= startPos < limitPos && InUnion(a, startPos);
            return Some(true);
          }
          if idxStart != |a| && limitPos > a[idxStart] {
            assert startPos <= a[idxStart] < limitPos && InUnion(a, a[idxStart]);
          }
          return Some(idxStart != |a| && limitPos > a[idxStart]);
        }
      }
      if startRefID == limitRefID {
        return Some(false);
      }
      var refID := startRefID + 1;
      while refID < limitRefID
        invariant startRefID < refID <= limitRefID
        invariant forall id :: startRefID < id < refID ==> !HitAny(idMap[id])
      {
        if idMap[refID].Some? && |idMap[refID].value| > 0 {
          FirstEndpointIsLeast(idMap[refID].value);
          assert InUnion(idMap[refID].value, idMap[refID].value[0]);
          return Some(true);
        }
        refID := refID + 1;
      }
      var limitChrIntervals := idMap[limitRefID];
      if limitChrIntervals.Some? && |limitChrIntervals.value| > 0 {
        var b := limitChrIntervals.value;
        FirstEndpointIsLeast(b);
        return Some(b[0] < limitPos);
      }
      return Some(false);
    }
  }

  /** The start-chromosome hit found when the search lands inside the list. */
  lemma HitFromWitness(a: seq<int>, sp: int, idx: nat)
    requires IsUnion(a) && IsInt32(sp) && sp < POS_TYPE_MAX
    requires idx == SearchPosTypes(a, sp + 1) && idx < |a|
    ensures HitFrom(Some(a), sp)
  {
    StartChrSearch(a, sp);
    if idx % 2 == 1 {
      assert sp <= sp && InUnion(a, sp);
    } else {
      assert sp <= a[idx] && InUnion(a, a[idx]);
    }
  }

  /** Every position of a merged list lies in [0, PosTypeMax). */
  lemma MergedListBounds(a: seq<int>, p: int)
    requires MergedList(a) && InUnion(a, p)
    ensures 0 <= p < POS_TYPE_MAX
  {
    var k :| 0 <= k && 2 * k + 1 < |a| && a[2 * k] <= p < a[2 * k + 1];
  }

  /** A chromosome that only empty entries mention gets a present but empty
      list (without Invert). */
  lemma OnlyEmptyEntriesGiveEmptyList(nameMap: map<string, seq<int>>, entries: seq<Entry>, c: string)
    requires BuiltFrom(nameMap, false, entries) && c in nameMap
    requires forall i :: 0 <= i < |entries| && entries[i].chrName == c ==> entries[i].start0 == entries[i].end
    ensures nameMap[c] == []
  {
    assert MergedUpTo(nameMap[c], false, entries, |entries|, c);
    var a := nameMap[c];
    forall p ensures !Covered(entries, |entries|, c, p) {
      forall i | 0 <= i < |entries| && entries[i].chrName == c ensures !(entries[i].start0 <= p < entries[i].end) {
      }
    }
    FirstEndpointIsLeast(a);
  }

  /** NewBEDUnionFromEntries: the entry loop, then (with a header) the
      id-indexed lists. */
  method NewBEDUnionFromEntries(entries: seq<Entry>, invert: bool, header: Option<seq<string>>) returns (r: Result<BEDUnion>)
    ensures WellFormedInput(entries) ==> r.Ok?
    ensures r.Ok? ==> fresh(r.value) && r.value.Valid() && BuiltFrom(r.value.nameMap, invert, entries)
    ensures r.Ok? && header.None? ==> r.value.idMap == []
    ensures r.Ok? && header.Some? ==>
      (|r.value.idMap| == |header.value|
       && forall i :: 0 <= i < |header.value| ==> r.value.idMap[i] == ChrList(r.value.nameMap, invert, header.value[i]))
  {
    var built := NewNameMapFromEntries(entries, invert);
    if built.Err? {
      return Err(built.msg);
    }
    var nameMap := built.value;
    forall c | c in nameMap ensures IsUnion(nameMap[c]) {
      BuiltListsAreUnions(nameMap, invert, entries, c);
    }
    var idMap: seq<Option<seq<int>>> := [];
    if header.Some? {
      idMap := NameToIdData(nameMap, header.value, invert);
      forall i | 0 <= i < |idMap| && idMap[i].Some? ensures IsUnion(idMap[i].value) {
        BuiltListsAreUnions(nameMap, invert, entries, header.value[i]);
      }
    }
    var u := new BEDUnion(nameMap, idMap);
    return Ok(u);
  }

  /** Three chromosomes, the middle one mentioned only by an empty entry. */
  function EmptyMiddleEntries(): seq<Entry>
  {
    [Entry("chr1", 0, 10), Entry("chr2", 5, 5), Entry("chr3", 0, 10)]
  }

  lemma EmptyMiddleWellFormed()
    ensures WellFormedInput(EmptyMiddleEntries())
  {
    var e := EmptyMiddleEntries();
    assert e[0].chrName[3] == '1' && e[1].chrName[3] == '2' && e[2].chrName[3] == '3';
    forall i, l | 0 <= i < l < |e| ensures e[i].chrName != e[l].chrName {
    }
  }

  lemma EmptyMiddleKeys(nameMap: map<string, seq<int>>)
    requires BuiltFrom(nameMap, false, EmptyMiddleEntries())
    ensures "chr1" in nameMap && "chr2" in nameMap && "chr3" in nameMap
    ensures nameMap["chr2"] == []
  {
    var entries := EmptyMiddleEntries();
    assert entries[0].chrName == "chr1" && entries[1].chrName == "chr2" && entries[2].chrName == "chr3";
    assert Seen(entries, 3, "chr1") && Seen(entries, 3, "chr2") && Seen(entries, 3, "chr3");
    OnlyEmptyEntriesGiveEmptyList(nameMap, entries, "chr2");
  }

  lemma EmptyMiddleFirst(nameMap: map<string, seq<int>>)
    requires BuiltFrom(nameMap, false, EmptyMiddleEntries()) && "chr1" in nameMap
    ensures !HitFrom(Some(nameMap["chr1"]), 20)
  {
    var entries := EmptyMiddleEntries();
    assert MergedUpTo(nameMap["chr1"], false, entries, 3, "chr1");
    forall p | 20 <= p ensures !InUnion(nameMap["chr1"], p) {
      if p < POS_TYPE_MAX {
        forall i | 0 <= i < 3 && entries[i].chrName == "chr1" ensures !(entries[i].start0 <= p < entries[i].end) {
        }
        assert !Covered(entries, 3, "chr1", p);
      } else {
        forall k | 0 <= k && 2 * k + 1 < |nameMap["chr1"]| ensures !(nameMap["chr1"][2 * k] <= p < nameMap["chr1"][2 * k + 1]) {
        }
      }
    }
  }

  lemma EmptyMiddleLast(nameMap: map<string, seq<int>>)
    requires BuiltFrom(nameMap, false, EmptyMiddleEntries()) && "chr3" in nameMap
    ensures !HitBelow(Some(nameMap["chr3"]), 0)
  {
    assert MergedUpTo(nameMap["chr3"], false, EmptyMiddleEntries(), 3, "chr3");
    forall p | p < 0 ensures !InUnion(nameMap["chr3"], p) {
      forall k | 0 <= k && 2 * k + 1 < |nameMap["chr3"]| ensures !(nameMap["chr3"][2 * k] <= p < nameMap["chr3"][2 * k + 1]) {
      }
    }
  }

  /** What the id-indexed lists of EmptyMiddleEntries hold for the region
      from chr1:20 to chr3:0. */
  lemma EmptyMiddleRegion(nameMap: map<string, seq<int>>, idMap: seq<Option<seq<int>>>)
    requires BuiltFrom(nameMap, false, EmptyMiddleEntries())
    requires |idMap| == 3 && forall i :: 0 <= i < 3 ==> idMap[i] == ChrList(nameMap, false, ["chr1", "chr2", "chr3"][i])
    ensures PresentBetween(idMap, 0, 2) && !RegionHit(idMap, 0, 20, 2, 0)
  {
    EmptyMiddleKeys(nameMap);
    EmptyMiddleFirst(nameMap);
    EmptyMiddleLast(nameMap);
    assert idMap[0] == Some(nameMap["chr1"]) && idMap[1] == Some([]) && idMap[2] == Some(nameMap["chr3"]);
    assert !HitAny(idMap[1]);
    forall id | 0 < id < 2 ensures !HitAny(idMap[id]) {
    }
  }

  /** The region from chr1:20 to chr3:0 (IDs 0 and 2) holds no position of
      the union built from EmptyMiddleEntries, yet Intersects as written
      says it intersects; the corrected Intersects says it does not. */
  method IntersectsEmptyListExample() returns (asWritten: Option<bool>, corrected: Option<bool>)
    ensures asWritten == Some(true)
    ensures corrected == Some(false)
  {
    EmptyMiddleWellFormed();
    var built := NewBEDUnionFromEntries(EmptyMiddleEntries(), false, Some(["chr1", "chr2", "chr3"]));
    var u := built.value;
    EmptyMiddleRegion(u.nameMap, u.idMap);
    asWritten := u.IntersectsAsWritten(0, 20, 2, 0);
    corrected := u.Intersects(0, 20, 2, 0);
  }
}
