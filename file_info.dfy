/** Parsing PAM file names such as "dir/0:0,46:1653469.mapq" back into
    their directory, record range and field
    (encoding/pam/pamutil/file_info.go). */
module PamFileInfo {
  import opened Wrappers
  import opened Ints
  import opened Coords
  import opened Decimals
  import opened PamUtil

  datatype FileType = FileTypeUnknown | FileTypeShardIndex | FileTypeFieldData

  /** The parts of a PAM path. field is meaningful only for field data. */
  datatype FileInfo = FileInfo(path: string, fileType: FileType, field: string, dir: string, range: CoordRange)

  /** parseExtension: "index" is the shard index, anything else names a
      field. */
  function ParseExtension(str: string): (FileType, string)
  {
    if str == "index" then (FileTypeShardIndex, "") else (FileTypeFieldData, str)
  }

  // ---------------------------------------------------------------------
  // Directory and base name

  /** The index of the last '/', or -1. */
  function LastSlash(s: string): (k: int)
    ensures -1 <= k < |s|
    ensures k >= 0 ==> s[k] == '/'
  {
    if |s| == 0 then -1
    else if s[|s| - 1] == '/' then |s| - 1
    else LastSlash(s[..|s| - 1])
  }

  /** The last element of the path. */
  function Base(path: string): string
  {
    var k := LastSlash(path);
    if k == -1 then path else path[k + 1..]
  }

  /** All but the last element of the path ("." when there is no '/'). */
  function Dir(path: string): string
  {
    var k := LastSlash(path);
    if k == -1 then "." else if k == 0 then "/" else path[..k]
  }

  lemma {:induction false} LastSlashAppend(dir: string, base: string)
    requires forall i :: 0 <= i < |base| ==> base[i] != '/'
    ensures LastSlash(dir + "/" + base) == |dir|
  {
    if base != [] {
      var s := dir + "/" + base;
      assert s[..|s| - 1] == dir + "/" + base[..|base| - 1];
      LastSlashAppend(dir, base[..|base| - 1]);
    }
  }

  // ---------------------------------------------------------------------
  // The base-name pattern ^(-|\d+):(-|\d+)(:\d+)?,(-|\d+):(-|\d+)(:\d+)?\.(.+)$

  /** The length of the run of digits at the front of s. */
  function DigitRun(s: string): (n: nat)
    ensures n <= |s|
  {
    if |s| > 0 && IsDigit(s[0]) then 1 + DigitRun(s[1..]) else 0
  }

  /** The length of a (-|\d+) field at the front of s, or 0. */
  function FieldLen(s: string): (n: nat)
    ensures n <= |s|
  {
    if |s| > 0 && s[0] == '-' then 1 else DigitRun(s)
  }

  /** The texts of one address: reference, position, and ":seq" or "". */
  datatype AddrText = AddrText(ref: string, pos: string, seqText: string)

  /** The outcome of scanning an optional (:\d+): its length (0 when
      there is no ':'), or a ':' without digits. */
  datatype SeqScan = SeqLen(n: nat) | BadSeq

  /** The outcome of scanning one address: its texts and length, or no
      match. */
  datatype AddrScan = Addr(text: AddrText, len: nat) | NoAddr

  /** The submatches of the base-name pattern, or no match. */
  datatype BaseMatch = Matched(start: AddrText, limit: AddrText, ext: string) | NoMatch

  /** An optional (:\d+) at the front of u. */
  function ScanSeq(u: string): (r: SeqScan)
    ensures r.SeqLen? ==> r.n <= |u|
  {
    if |u| > 0 && u[0] == ':' then
      var d := DigitRun(u[1..]);
      if d == 0 then BadSeq else SeqLen(1 + d)
    else SeqLen(0)
  }

  /** (-|\d+):(-|\d+)(:\d+)? at the front of s. */
  function ScanAddr(s: string): (r: AddrScan)
    ensures r.Addr? ==> r.len <= |s|
  {
    var n1 := FieldLen(s);
    if n1 == 0 || n1 >= |s| || s[n1] != ':' then NoAddr
    else
      var t := s[n1 + 1..];
      var n2 := FieldLen(t);
      if n2 == 0 then NoAddr
      else
        match ScanSeq(t[n2..])
        case BadSeq => NoAddr
        case SeqLen(m) => Addr(AddrText(s[..n1], t[..n2], t[n2..n2 + m]), n1 + 1 + n2 + m)
  }

  /** The submatches of the base-name pattern: the two addresses and the
      extension, which is nonempty and holds no newline. The second
      address is scanned after the ',' that ends the first. */
  function MatchBasename(b: string): BaseMatch
  {
    var first := ScanAddr(b);
    var t := if first.Addr? && first.len < |b| then b[first.len + 1..] else "";
    MatchWith(b, first, ScanAddr(t))
  }

  /** The rest of the pattern once the two address scans are known. */
  function MatchWith(b: string, first: AddrScan, second: AddrScan): BaseMatch
  {
    if first.NoAddr? || first.len >= |b| || b[first.len] != ',' || second.NoAddr? then NoMatch
    else
      var t := b[first.len + 1..];
      var n2 := second.len;
      if n2 >= |t| || t[n2] != '.' || n2 + 1 == |t| || '\n' in t[n2 + 1..] then NoMatch
      else Matched(first.text, second.text, t[n2 + 1..])
  }

  // ---------------------------------------------------------------------
  // parseRecAddr and ParsePath

  /** mustParseText converted to int32: strconv.Atoi, which panics (an Err
      here) beyond int64, then truncation to 32 bits. */
  function ParseNumber(s: string): (r: Result<int>)
    ensures r.Ok? ==> IsInt32(r.value)
  {
    match Atoi(s)
    case None => Err("strconv.Atoi: value out of range")
    case Some(v) => Ok(WrapInt32(v))
  }

  /** parseRecAddr: "-" is the infinite reference or position, a missing
      sequence number is 0. */
  function ParseRecAddr(a: AddrText): Result<Coord>
  {
    var ref := if a.ref == "-" then Ok(INFINITY_REF_ID) else ParseNumber(a.ref);
    var pos := if a.pos == "-" then Ok(INFINITY_POS) else ParseNumber(a.pos);
    var seqNo := if a.seqText == "" then Ok(0) else ParseNumber(a.seqText[1..]);
    if ref.Err? then Err(ref.msg)
    else if pos.Err? then Err(pos.msg)
    else if seqNo.Err? then Err(seqNo.msg)
    else Ok(Coord(ref.value, pos.value, seqNo.value))
  }

  /** ParsePath: the file type, field, directory and record range named by
      path, or an error when its base name does not match the pattern. */
  function ParsePath(path: string): Result<FileInfo>
  {
    match MatchBasename(Base(path))
    case NoMatch => Err("parsepath " + path + ": unknown file type")
    case Matched(a1, a2, ext) =>
      var kind := ParseExtension(ext);
      var start := ParseRecAddr(a1);
      var limit := ParseRecAddr(a2);
      if start.Err? then Err(start.msg)
      else if limit.Err? then Err(limit.msg)
      else Ok(FileInfo(path, kind.0, kind.1, Dir(path), CoordRange(start.value, limit.value)))
  }

  // ---------------------------------------------------------------------
  // ParsePath inverts the path strings

  /** Coordinates that CoordPathString writes in the pattern's syntax: the
      infinite or a non-negative reference, and non-negative position and
      sequence number. */
  predicate PathCoord(c: Coord)
  {
    (c.refId == INFINITY_REF_ID || 0 <= c.refId <= MAX_INT32)
    && 0 <= c.pos <= MAX_INT32 && 0 <= c.seqNo <= MAX_INT32
  }

  function SeqText(seqNo: int): string
  {
    if seqNo == 0 then "" else ":" + IntStr(seqNo)
  }

  lemma {:induction false} DigitRunOf(t: string, rest: string)
    requires forall i :: 0 <= i < |t| ==> IsDigit(t[i])
    requires |rest| == 0 || !IsDigit(rest[0])
    ensures DigitRun(t + rest) == |t|
  {
    if t != [] {
      assert (t + rest)[1..] == t[1..] + rest;
      DigitRunOf(t[1..], rest);
    }
  }

  lemma FieldLenOf(x: string, rest: string)
    requires x == "-" || IsDigits(x)
    requires |rest| > 0 && !IsDigit(rest[0])
    ensures FieldLen(x + rest) == |x|
  {
    if x != "-" {
      DigitRunOf(x, rest);
    }
  }

  /** The texts CoordPathString writes for a coordinate in the pattern's
      syntax. */
  predicate FieldText(x: string)
  {
    x == "-" || IsDigits(x)
  }

  predicate SeqTextOk(x: string)
  {
    x == "" || (|x| > 1 && x[0] == ':' && IsDigits(x[1..]))
  }

  lemma CoordTexts(c: Coord)
    requires PathCoord(c)
    ensures FieldText(RefText(c.refId)) && FieldText(PosText(c.pos)) && SeqTextOk(SeqText(c.seqNo))
    ensures CoordPathString(c) == RefText(c.refId) + ":" + PosText(c.pos) + SeqText(c.seqNo)
  {
    if c.seqNo != 0 {
      assert SeqText(c.seqNo)[1..] == IntStr(c.seqNo);
    }
  }

  /** A field followed by a non-digit: FieldLen measures exactly the
      field. */
  lemma FieldAt(x: string, y: string)
    requires FieldText(x) && |y| > 0 && !IsDigit(y[0])
    ensures |x| > 0 && FieldLen(x + y) == |x|
    ensures (x + y)[..|x|] == x && (x + y)[|x|..] == y
  {
    FieldLenOf(x, y);
  }

  /** The sequence-number part at the front of S + rest. */
  lemma ScanSeqOf(S: string, rest: string)
    requires SeqTextOk(S)
    requires |rest| > 0 && (rest[0] == ',' || rest[0] == '.')
    ensures ScanSeq(S + rest) == SeqLen(|S|)
    ensures (S + rest)[..|S|] == S && !IsDigit((S + rest)[0])
  {
    if S != "" {
      assert (S + rest)[1..] == S[1..] + rest;
      DigitRunOf(S[1..], rest);
    }
  }

  /** One address as CoordPathString writes it, from its three texts. */
  function AddrString(R: string, P: string, S: string): string
  {
    R + ":" + P + S
  }

  lemma AddrStringAssoc(R: string, P: string, S: string, rest: string)
    ensures AddrString(R, P, S) + rest == R + (":" + (P + (S + rest)))
  {
  }

  /** The address scanner splits R + ":" + P + S back into its texts,
      whatever follows as long as that starts with ',' or '.'. */
  lemma ScanAddrParts(R: string, P: string, S: string, rest: string)
    requires FieldText(R) && FieldText(P) && SeqTextOk(S)
    requires |rest| > 0 && (rest[0] == ',' || rest[0] == '.')
    ensures ScanAddr(AddrString(R, P, S) + rest) == Addr(AddrText(R, P, S), |AddrString(R, P, S)|)
  {
    FieldAt(R, ":" + (P + (S + rest)));
    ScanSeqOf(S, rest);
    FieldAt(P, S + rest);
    ScanAddrJoin(R, P, S, rest);
  }

  /** ScanAddr on R + ":" + P + S + rest once the scans of R, P and S are
      known. */
  lemma ScanAddrJoin(R: string, P: string, S: string, rest: string)
    requires |R| > 0 && FieldLen(R + (":" + (P + (S + rest)))) == |R|
    requires |P| > 0 && FieldLen(P + (S + rest)) == |P|
    requires ScanSeq(S + rest) == SeqLen(|S|) && (S + rest)[..|S|] == S
    ensures ScanAddr(AddrString(R, P, S) + rest) == Addr(AddrText(R, P, S), |AddrString(R, P, S)|)
  {
    AddrStringAssoc(R, P, S, rest);
    var Y := S + rest;
    var X := ":" + (P + Y);
    var s := R + X;
    assert s[|R|] == ':';
    var t := s[|R| + 1..];
    assert t == P + Y by {
      assert s[|R|..] == X;
      assert X[1..] == P + Y;
    }
    assert s[..|R|] == R;
    assert t[..|P|] == P && t[|P|..] == Y;
    SliceOfSlice(t, |P|, |S|);
    assert |AddrString(R, P, S)| == |R| + 1 + |P| + |S|;
    ScanAddrBy(s, |R|, t, |P|, Y, |S|, AddrText(R, P, S));
  }

  lemma SliceOfSlice<T>(t: seq<T>, a: nat, m: nat)
    requires a + m <= |t|
    ensures t[a..a + m] == t[a..][..m]
  {
  }

  /** One unfolding of ScanAddr once its three scans are known. */
  lemma ScanAddrBy(s: string, n1: nat, t: string, n2: nat, u: string, m: nat, a: AddrText)
    requires 0 < n1 < |s| && FieldLen(s) == n1 && s[n1] == ':' && t == s[n1 + 1..]
    requires 0 < n2 <= |t| && FieldLen(t) == n2 && u == t[n2..] && ScanSeq(u) == SeqLen(m)
    requires a == AddrText(s[..n1], t[..n2], u[..m])
    ensures ScanAddr(s) == Addr(a, n1 + 1 + n2 + m)
  {
    SliceOfSlice(t, n2, m);
  }

  /** One unfolding of MatchBasename once its two address scans are
      known. */
  /** MatchWith once both scans have matched. */
  lemma MatchWithBoth(b: string, a1: AddrText, n1: nat, t: string, a2: AddrText, n2: nat)
    requires n1 < |b| && b[n1] == ',' && t == b[n1 + 1..]
    requires n2 + 1 < |t| && t[n2] == '.' && '\n' !in t[n2 + 1..]
    ensures MatchWith(b, Addr(a1, n1), Addr(a2, n2)) == Matched(a1, a2, t[n2 + 1..])
  {
  }

  lemma SliceAfterSep<T>(a: seq<T>, sep: T, c: seq<T>)
    ensures (a + ([sep] + c))[|a|] == sep && (a + ([sep] + c))[|a| + 1..] == c
  {
    assert (a + ([sep] + c))[|a| + 1..] == ([sep] + c)[1..];
  }

  /** The base name of a written range and extension, and the pattern's
      submatches of it. */
  function BaseName(A1: string, A2: string, ext: string): string
  {
    A1 + ("," + (A2 + ("." + ext)))
  }

  lemma MatchBasenameOf(R1: string, P1: string, S1: string, R2: string, P2: string, S2: string, ext: string)
    requires FieldText(R1) && FieldText(P1) && SeqTextOk(S1)
    requires FieldText(R2) && FieldText(P2) && SeqTextOk(S2)
    requires |ext| > 0 && '\n' !in ext
    ensures MatchBasename(BaseName(AddrString(R1, P1, S1), AddrString(R2, P2, S2), ext))
         == Matched(AddrText(R1, P1, S1), AddrText(R2, P2, S2), ext)
  {
    var A1, A2 := AddrString(R1, P1, S1), AddrString(R2, P2, S2);
    ScanAddrParts(R1, P1, S1, "," + (A2 + ("." + ext)));
    ScanAddrParts(R2, P2, S2, "." + ext);
    MatchBasenameOfScans(A1, A2, ext, AddrText(R1, P1, S1), AddrText(R2, P2, S2));
  }

  /** MatchBasename of a base name whose two address scans are known. */
  lemma MatchBasenameOfScans(A1: string, A2: string, ext: string, a1: AddrText, a2: AddrText)
    requires ScanAddr(A1 + ("," + (A2 + ("." + ext)))) == Addr(a1, |A1|)
    requires ScanAddr(A2 + ("." + ext)) == Addr(a2, |A2|)
    requires |ext| > 0 && '\n' !in ext
    ensures MatchBasename(BaseName(A1, A2, ext)) == Matched(a1, a2, ext)
  {
    var tail := A2 + ("." + ext);
    var b := A1 + ("," + tail);
    SliceAfterSep(A1, ',', tail);
    SliceAfterSep(A2, '.', ext);
    MatchWithBoth(b, a1, |A1|, tail, a2, |A2|);
  }

  lemma ParseNumberOf(x: int)
    requires 0 <= x <= MAX_INT32
    ensures ParseNumber(IntStr(x)) == Ok(x)
  {
    ParseDecimalOfIntStr(x);
  }

  /** parseRecAddr inverts CoordPathString. */
  lemma ParseRecAddrOf(c: Coord)
    requires PathCoord(c)
    ensures ParseRecAddr(AddrText(RefText(c.refId), PosText(c.pos), SeqText(c.seqNo))) == Ok(c)
  {
    if c.refId != INFINITY_REF_ID {
      ParseNumberOf(c.refId);
      assert IsDigits(RefText(c.refId)) && RefText(c.refId)[0] != '-';
    }
    if c.pos != INFINITY_POS {
      ParseNumberOf(c.pos);
      assert IsDigits(PosText(c.pos)) && PosText(c.pos)[0] != '-';
    }
    if c.seqNo != 0 {
      ParseNumberOf(c.seqNo);
      assert SeqText(c.seqNo)[1..] == IntStr(c.seqNo);
    }
  }

  lemma SplitPath(dir: string, base: string)
    requires |dir| > 0 && '/' !in base
    ensures Base(dir + "/" + base) == base && Dir(dir + "/" + base) == dir
  {
    LastSlashAppend(dir, base);
    assert (dir + "/" + base)[|dir| + 1..] == base;
    assert (dir + "/" + base)[..|dir|] == dir;
  }

  /** The characters of the pattern's fields are not '/'. */
  lemma AddrStringNoSlash(R: string, P: string, S: string)
    requires FieldText(R) && FieldText(P) && SeqTextOk(S)
    ensures '/' !in AddrString(R, P, S)
  {
    if S != "" {
      assert S == [':'] + S[1..];
    }
  }

  lemma FieldDataPathParts(dir: string, A1: string, A2: string, ext: string)
    ensures dir + "/" + (A1 + "," + A2) + "." + ext == dir + "/" + BaseName(A1, A2, ext)
  {
  }

  /** ParsePath inverts FieldDataPath (and so ShardIndexPath, the field
      "index"): the directory, the range and the extension come back, for a
      nonempty directory, coordinates written in the pattern's syntax, and
      an extension without '/' or newline. */
  lemma ParsePathRoundTrip(dir: string, r: CoordRange, ext: string)
    requires |dir| > 0 && PathCoord(r.start) && PathCoord(r.limit)
    requires |ext| > 0 && '/' !in ext && '\n' !in ext
    ensures ParsePath(FieldDataPath(dir, r, ext)) == Ok(FileInfo(FieldDataPath(dir, r, ext),
              if ext == "index" then FileTypeShardIndex else FileTypeFieldData,
              if ext == "index" then "" else ext, dir, r))
  {
    var c1, c2 := r.start, r.limit;
    CoordTexts(c1);
    CoordTexts(c2);
    var R1, P1, S1 := RefText(c1.refId), PosText(c1.pos), SeqText(c1.seqNo);
    var R2, P2, S2 := RefText(c2.refId), PosText(c2.pos), SeqText(c2.seqNo);
    var A1, A2 := AddrString(R1, P1, S1), AddrString(R2, P2, S2);
    var base := BaseName(A1, A2, ext);
    FieldDataPathParts(dir, A1, A2, ext);
    AddrStringNoSlash(R1, P1, S1);
    AddrStringNoSlash(R2, P2, S2);
    SplitPath(dir, base);
    MatchBasenameOf(R1, P1, S1, R2, P2, S2, ext);
    ParseRecAddrOf(c1);
    ParseRecAddrOf(c2);
  }

  /** A base name without ',' does not match the pattern, and ParsePath
      reports an error. */
  lemma ParsePathNeedsComma(path: string)
    requires ',' !in Base(path)
    ensures ParsePath(path).Err?
  {
  }

  /** Nor does one without '.'. */
  lemma ParsePathNeedsDot(path: string)
    requires '.' !in Base(path)
    ensures ParsePath(path).Err?
  {
    var b := Base(path);
    var first := ScanAddr(b);
    if first.Addr? && first.len < |b| {
      var t := b[first.len + 1..];
      var second := ScanAddr(t);
      if second.Addr? && second.len < |t| {
        assert t[second.len] == b[first.len + 1 + second.len];
      }
    }
  }
}
