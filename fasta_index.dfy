/** Building a samtools-style `.fai` index from FASTA text (GenerateIndex).
    The input is the whole file; each character stands for one byte. */
module FastaIndex {
  import opened Wrappers

  const MALFORMED := "malformed FASTA file"
  const EMPTY_FILE := "empty FASTA file"

  /** One `.fai` row: name, number of bases, byte offset of the first base,
      bases per line and bytes per line (line terminator included). */
  datatype FaiRow = FaiRow(name: string, length: int, offset: int, lineBases: int, lineWidth: int)

  /** The rows written to the output and the error returned. */
  datatype IndexOutput = IndexOutput(rows: seq<FaiRow>, err: Option<string>)

  predicate IsEol(c: char) { c == '\r' || c == '\n' }

  predicate NoEol(s: string) { forall j :: 0 <= j < |s| ==> !IsEol(s[j]) }

  /** Position of the first '\n' at or after i, or |s| when there is none. */
  function LineEnd(s: string, i: nat): (k: nat)
    requires i <= |s|
    ensures i <= k <= |s|
    ensures k < |s| ==> s[k] == '\n'
    decreases |s| - i
  {
    if i == |s| || s[i] == '\n' then i else LineEnd(s, i + 1)
  }

  /** bytes.TrimRight(line, "\r\n"): drops every trailing '\r' and '\n'. */
  function TrimRight(line: string): string
    decreases |line|
  {
    if |line| > 0 && IsEol(line[|line| - 1]) then TrimRight(line[..|line| - 1]) else line
  }

  /** strings.Split(s, " ")[0]: the text before the first space. */
  function FirstField(s: string): string {
    if s == [] || s[0] == ' ' then [] else [s[0]] + FirstField(s[1..])
  }

  /** The loop variables of GenerateIndex, plus the rows written so far and
      the first error. */
  datatype Scan = Scan(seqName: string, seqStartOff: int, totalBases: int, lineBases: int,
                       lineWidth: int, cumByte: int, rows: seq<FaiRow>, err: Option<string>)
  {
    function Row(): FaiRow { FaiRow(seqName, totalBases, seqStartOff, lineBases, lineWidth) }
  }

  const START := Scan("", 0, 0, 0, 0, 0, [], None)

  /** The first error is kept. */
  function SetErr(st: Scan, e: string): Scan {
    if st.err.None? then st.(err := Some(e)) else st
  }

  /** Writes the current sequence's row. */
  function Flush(st: Scan): Scan {
    st.(rows := st.rows + [st.Row()])
  }

  /** A '>' line closes the current sequence (if it has bases) and opens a new one. */
  function OpenSeq(st: Scan, line: string, cum: int): Scan
    requires |line| > 0
  {
    var st1 := if st.lineWidth != 0 then Flush(if st.seqName == "" then SetErr(st, MALFORMED) else st) else st;
    st1.(seqName := FirstField(line[1..]), seqStartOff := cum,
         lineWidth := 0, lineBases := 0, totalBases := 0, cumByte := cum)
  }

  /** A base line; the first one of a sequence fixes its line geometry. */
  function AddBases(st: Scan, fullLine: string, line: string, cum: int): Scan {
    var st1 := if st.lineWidth == 0 then st.(lineWidth := |fullLine|, lineBases := |line|) else st;
    st1.(totalBases := st.totalBases + |line|, cumByte := cum)
  }

  /** One pass of the loop body on a line as read, terminator included. */
  function Step(st: Scan, fullLine: string): Scan {
    var cum := st.cumByte + |fullLine|;
    var line := TrimRight(fullLine);
    if |line| == 0 then st.(cumByte := cum)
    else if line[0] == '>' then OpenSeq(st, line, cum)
    else AddBases(st, fullLine, line, cum)
  }

  /** The successive results of ReadBytes('\n') on the input: every piece
      but the last ends in '\n'; the last is what follows the final '\n'
      (empty when the input ends in one). */
  function SplitLines(s: string): (ls: seq<string>)
    ensures |ls| > 0
    decreases |s|
  {
    var k := LineEnd(s, 0);
    if k == |s| then [s] else [s[..k + 1]] + SplitLines(s[k + 1..])
  }

  /** The loop over the lines read: it stops at the first error or after the last line. */
  function Run(ls: seq<string>, st: Scan): Scan {
    if ls == [] || st.err.Some? then st else Run(ls[1..], Step(st, ls[0]))
  }

  /** After the loop: the last row is written, and a file of no bytes is an error. */
  function Finish(st: Scan): IndexOutput {
    var f := Flush(st);
    var g := if f.cumByte == 0 then SetErr(f, EMPTY_FILE) else f;
    IndexOutput(g.rows, g.err)
  }

  function Index(s: string): IndexOutput {
    Finish(Run(SplitLines(s), START))
  }

  /** GenerateIndex: reads the input line by line and writes one row per sequence. */
  method GenerateIndex(input: string) returns (out: IndexOutput)
    ensures out == Index(input)
  {
    var seqName := "";
    var seqStartOff := 0;
    var totalBases := 0;
    var lineBases := 0;
    var lineWidth := 0;
    var cumByte := 0;
    var eof := false;
    var rows: seq<FaiRow> := [];
    var err: Option<string> := None;
    var unread := input;
    ghost var final := Run(SplitLines(input), START);
    ghost var cur := START;
    while !eof && err.None?
      invariant cur == Scan(seqName, seqStartOff, totalBases, lineBases, lineWidth, cumByte, rows, err)
      invariant !eof ==> Run(SplitLines(unread), cur) == final
      invariant eof ==> cur == final
      decreases |unread| + (if eof then 0 else 1)
    {
      var k := LineEnd(unread, 0);
      var fullLine;
      ghost var ls := SplitLines(unread);
      if k == |unread| {
        fullLine := unread;
        eof := true;
        unread := [];
      } else {
        fullLine := unread[..k + 1];
        unread := unread[k + 1..];
      }
      ghost var next := Step(cur, fullLine);
      assert !eof ==> Run(SplitLines(unread), next) == final by {
        if !eof {
          assert ls == [fullLine] + SplitLines(unread);
          assert ls[1..] == SplitLines(unread);
        }
      }
      assert eof ==> next == final;
      cumByte := cumByte + |fullLine|;
      var line := TrimRight(fullLine);
      if |line| == 0 {
        assert next == Scan(seqName, seqStartOff, totalBases, lineBases, lineWidth, cumByte, rows, err);
        cur := next;
        continue;
      }
      if line[0] == '>' {
        assert next == OpenSeq(cur, line, cumByte);
        if lineWidth != 0 {
          if seqName == "" && err.None? {
            err := Some(MALFORMED);
          }
          rows := rows + [FaiRow(seqName, totalBases, seqStartOff, lineBases, lineWidth)];
        }
        seqName := FirstField(line[1..]);
        seqStartOff := cumByte;
        lineWidth := 0;
        lineBases := 0;
        totalBases := 0;
        assert next == Scan(seqName, seqStartOff, totalBases, lineBases, lineWidth, cumByte, rows, err);
        cur := next;
        continue;
      }
      if lineWidth == 0 {
        lineWidth := |fullLine|;
        lineBases := |line|;
      }
      totalBases := totalBases + |line|;
      assert next == Scan(seqName, seqStartOff, totalBases, lineBases, lineWidth, cumByte, rows, err);
      cur := next;
    }
    rows := rows + [FaiRow(seqName, totalBases, seqStartOff, lineBases, lineWidth)];
    if cumByte == 0 && err.None? {
      err := Some(EMPTY_FILE);
    }
    out := IndexOutput(rows, err);
  }

  // ---------------------------------------------------------------------
  // Line-level facts

  /** TrimRight keeps a prefix of the line that does not end in a line
      terminator, and removes only line-terminator characters. */
  lemma {:induction false} TrimRightSpec(line: string)
    ensures TrimRight(line) <= line
    ensures |TrimRight(line)| > 0 ==> !IsEol(TrimRight(line)[|TrimRight(line)| - 1])
    ensures forall j :: |TrimRight(line)| <= j < |line| ==> IsEol(line[j])
    decreases |line|
  {
    if |line| > 0 && IsEol(line[|line| - 1]) {
      TrimRightSpec(line[..|line| - 1]);
    }
  }

  /** The name taken from a header is the text before its first space: a
      prefix with no space, followed by a space or the end of the text. */
  lemma {:induction false} FirstFieldSpec(s: string)
    ensures FirstField(s) <= s
    ensures ' ' !in FirstField(s)
    ensures |FirstField(s)| < |s| ==> s[|FirstField(s)|] == ' '
  {
    if s != [] && s[0] != ' ' {
      FirstFieldSpec(s[1..]);
    }
  }

  /** Those three facts determine the name. */
  lemma FirstFieldUnique(s: string, r: string)
    requires r <= s && ' ' !in r && (|r| < |s| ==> s[|r|] == ' ')
    ensures FirstField(s) == r
  {
    FirstFieldSpec(s);
  }

  lemma {:induction false} LineEndAt(s: string, i: nat, k: nat)
    requires i <= k < |s| && s[k] == '\n'
    requires forall j :: i <= j < k ==> s[j] != '\n'
    ensures LineEnd(s, i) == k
    decreases k - i
  {
    if i < k {
      LineEndAt(s, i + 1, k);
    }
  }

  predicate EolOk(eol: string) { eol == "\n" || eol == "\r\n" }

  lemma TrimRightEol(body: string, eol: string)
    requires NoEol(body) && EolOk(eol)
    ensures TrimRight(body + eol) == body
  {
    TrimRightNoEol(body);
    TrimRightEolChar(body, '\n');
    if eol == "\r\n" {
      TrimRightEolChar(body, '\r');
      assert body + eol == (body + "\r") + "\n";
      TrimRightEolChar(body + "\r", '\n');
    }
  }

  /** A body with no end-of-line character is its own trim. */
  lemma TrimRightNoEol(body: string)
    requires NoEol(body)
    ensures TrimRight(body) == body
  {
    if |body| > 0 {
      assert !IsEol(body[|body| - 1]);
    }
  }

  /** Trimming drops a trailing end-of-line character. */
  lemma TrimRightEolChar(s: string, c: char)
    requires IsEol(c)
    ensures TrimRight(s + [c]) == TrimRight(s)
  {
    assert (s + [c])[..|s|] == s;
  }

  /** A line `body + eol` at the head of the input is read whole by ReadBytes('\n'). */
  lemma SplitLinesLine(body: string, eol: string, rest: string)
    requires NoEol(body) && EolOk(eol)
    ensures SplitLines(body + eol + rest) == [body + eol] + SplitLines(rest)
  {
    var s := body + eol + rest;
    var k := |body| + |eol| - 1;
    forall j | 0 <= j < k
      ensures s[j] != '\n'
    {
      if j < |body| {
        assert s[j] == body[j];
      } else {
        assert s[j] == eol[j - |body|];
      }
    }
    assert s[k] == eol[|eol| - 1];
    LineEndAt(s, 0, k);
    assert s[..k + 1] == body + eol;
    assert s[k + 1..] == rest;
  }

  // ---------------------------------------------------------------------
  // Well-formed FASTA text and the rows it must produce

  /** A sequence as written to a FASTA file: the header text after '>'
      split into name and description, and the base lines. */
  datatype Record = Record(name: string, desc: string, lines: seq<string>)

  predicate NameOk(name: string) { |name| > 0 && NoEol(name) && ' ' !in name }
  predicate DescOk(desc: string) { NoEol(desc) && (desc == [] || desc[0] == ' ') }
  predicate LineOk(l: string) { |l| > 0 && l[0] != '>' && NoEol(l) }
  predicate LinesOk(lines: seq<string>) { forall j :: 0 <= j < |lines| ==> LineOk(lines[j]) }

  predicate RecordOk(r: Record) {
    NameOk(r.name) && DescOk(r.desc) && |r.lines| > 0 && LinesOk(r.lines)
  }

  predicate RecordsOk(rs: seq<Record>) { forall j :: 0 <= j < |rs| ==> RecordOk(rs[j]) }

  function HeaderText(r: Record, eol: string): string { ">" + r.name + r.desc + eol }

  function LinesText(lines: seq<string>, eol: string): string {
    if lines == [] then [] else lines[0] + eol + LinesText(lines[1..], eol)
  }

  function RecordText(r: Record, eol: string): string { HeaderText(r, eol) + LinesText(r.lines, eol) }

  function FastaText(rs: seq<Record>, eol: string): string {
    if rs == [] then [] else RecordText(rs[0], eol) + FastaText(rs[1..], eol)
  }

  /** The pieces ReadBytes('\n') returns for some base lines, and for whole records. */
  function LineList(lines: seq<string>, eol: string): seq<string> {
    if lines == [] then [] else [lines[0] + eol] + LineList(lines[1..], eol)
  }

  function FastaLines(rs: seq<Record>, eol: string): seq<string> {
    if rs == [] then []
    else [HeaderText(rs[0], eol)] + LineList(rs[0].lines, eol) + FastaLines(rs[1..], eol)
  }

  /** Number of bases in a sequence's lines. */
  function Bases(lines: seq<string>): nat {
    if lines == [] then 0 else |lines[0]| + Bases(lines[1..])
  }

  /** The row a record starting at byte `start` should get: its name, its
      bases, the offset just past its header line, and the first line's
      base count and byte width. */
  function RowFor(r: Record, eol: string, start: int): FaiRow {
    var first := if r.lines == [] then 0 else |r.lines[0]|;
    FaiRow(r.name, Bases(r.lines), start + |HeaderText(r, eol)|, first, first + |eol|)
  }

  function ExpectedRows(rs: seq<Record>, eol: string, start: int): seq<FaiRow> {
    if rs == [] then []
    else [RowFor(rs[0], eol, start)] + ExpectedRows(rs[1..], eol, start + |RecordText(rs[0], eol)|)
  }

  /** The state after a run of base lines. */
  function AfterLines(st: Scan, lines: seq<string>, eol: string): Scan {
    var first := st.lineWidth == 0 && lines != [];
    st.(lineWidth := if first then |lines[0]| + |eol| else st.lineWidth,
        lineBases := if first then |lines[0]| else st.lineBases,
        totalBases := st.totalBases + Bases(lines),
        cumByte := st.cumByte + |LinesText(lines, eol)|)
  }

  /** Rows written once the current sequence is closed by another header. */
  function Pending(st: Scan): seq<FaiRow> {
    if st.lineWidth != 0 then st.rows + [st.Row()] else st.rows
  }

  lemma {:induction false} SplitLinesText(lines: seq<string>, eol: string, rest: string)
    requires LinesOk(lines) && EolOk(eol)
    ensures SplitLines(LinesText(lines, eol) + rest) == LineList(lines, eol) + SplitLines(rest)
    decreases |lines|
  {
    if lines != [] {
      var l := lines[0];
      assert LineOk(l);
      LinesOkTail(lines);
      var t := LinesText(lines[1..], eol);
      assert LinesText(lines, eol) + rest == l + eol + (t + rest);
      SplitLinesLine(l, eol, t + rest);
      SplitLinesText(lines[1..], eol, rest);
      assert LineList(lines, eol) == [l + eol] + LineList(lines[1..], eol);
      Assoc3([l + eol], LineList(lines[1..], eol), SplitLines(rest));
    } else {
      assert LinesText(lines, eol) + rest == rest;
    }
  }

  lemma HeaderBody(r: Record)
    requires NameOk(r.name) && DescOk(r.desc)
    ensures NoEol(">" + r.name + r.desc)
  {
    var body := ">" + r.name + r.desc;
    forall j | 0 <= j < |body|
      ensures !IsEol(body[j])
    {
      if 1 <= j < 1 + |r.name| {
        assert body[j] == r.name[j - 1];
      } else if j >= 1 + |r.name| {
        assert body[j] == r.desc[j - 1 - |r.name|];
      }
    }
  }

  /** Well-formed FASTA text is read as its header and base lines, then an
      empty piece at the end of the input. */
  lemma {:induction false} SplitFasta(rs: seq<Record>, eol: string)
    requires RecordsOk(rs) && EolOk(eol)
    ensures SplitLines(FastaText(rs, eol)) == FastaLines(rs, eol) + [""]
    decreases |rs|
  {
    if rs == [] {
      assert SplitLines([]) == [""];
    } else {
      var r := rs[0];
      assert RecordOk(r);
      RecordsOkTail(rs);
      var body := ">" + r.name + r.desc;
      var lt := LinesText(r.lines, eol);
      var tail := FastaText(rs[1..], eol);
      assert FastaText(rs, eol) == body + eol + (lt + tail);
      HeaderBody(r);
      SplitLinesLine(body, eol, lt + tail);
      SplitLinesText(r.lines, eol, tail);
      SplitFasta(rs[1..], eol);
      var h := HeaderText(r, eol);
      assert h == body + eol;
      var ll := LineList(r.lines, eol);
      var fl := FastaLines(rs[1..], eol);
      assert SplitLines(FastaText(rs, eol)) == [h] + (ll + (fl + [""]));
      assert FastaLines(rs, eol) == [h] + ll + fl;
      Assoc4([h], ll, fl, [""]);
    }
  }

  lemma Assoc3<T>(a: seq<T>, b: seq<T>, c: seq<T>)
    ensures (a + b) + c == a + (b + c)
  {
  }

  lemma Assoc4<T>(a: seq<T>, b: seq<T>, c: seq<T>, d: seq<T>)
    ensures a + (b + (c + d)) == (a + b + c) + d
  {
  }

  lemma RecordsOkTail(rs: seq<Record>)
    requires rs != [] && RecordsOk(rs)
    ensures RecordOk(rs[0]) && RecordsOk(rs[1..])
  {
    forall j | 0 <= j < |rs[1..]|
      ensures RecordOk(rs[1..][j])
    {
      assert rs[1..][j] == rs[j + 1];
    }
  }

  lemma LinesOkTail(lines: seq<string>)
    requires lines != [] && LinesOk(lines)
    ensures LineOk(lines[0]) && LinesOk(lines[1..])
  {
    forall j | 0 <= j < |lines[1..]|
      ensures LineOk(lines[1..][j])
    {
      assert lines[1..][j] == lines[j + 1];
    }
  }

  /** Running the loop over two batches of lines is running it over their concatenation. */
  lemma {:induction false} RunAppend(a: seq<string>, b: seq<string>, st: Scan)
    ensures Run(a + b, st) == Run(b, Run(a, st))
    decreases |a|
  {
    if a == [] {
      assert a + b == b;
    } else if st.err.None? {
      assert (a + b)[0] == a[0];
      assert (a + b)[1..] == a[1..] + b;
      RunAppend(a[1..], b, Step(st, a[0]));
    }
  }

  lemma RunCons(line: string, ls: seq<string>, st: Scan)
    requires st.err.None?
    ensures Run([line] + ls, st) == Run(ls, Step(st, line))
  {
    assert ([line] + ls)[1..] == ls;
  }

  lemma RunAfterError(ls: seq<string>, st: Scan)
    requires st.err.Some?
    ensures Run(ls, st) == st
  {
  }

  lemma StepLine(st: Scan, l: string, eol: string)
    requires LineOk(l) && EolOk(eol)
    ensures Step(st, l + eol) == AfterLines(st, [l], eol)
  {
    TrimRightEol(l, eol);
    assert [l][1..] == [];
    assert LinesText([l], eol) == l + eol;
    assert Bases([l]) == |l|;
  }

  lemma AfterLinesCons(st: Scan, l: string, rest: seq<string>, eol: string)
    requires |l| > 0
    ensures AfterLines(AfterLines(st, [l], eol), rest, eol) == AfterLines(st, [l] + rest, eol)
  {
    var ls := [l] + rest;
    assert ls[0] == l && ls[1..] == rest;
    assert [l][1..] == [];
    assert Bases([l]) == |l|;
    assert Bases(ls) == |l| + Bases(rest);
    assert LinesText([l], eol) == l + eol;
    assert LinesText(ls, eol) == l + eol + LinesText(rest, eol);
  }

  /** Base lines add their bases and bytes; the first fixes the line geometry. */
  lemma {:induction false} RunLines(st: Scan, lines: seq<string>, eol: string)
    requires st.err.None? && LinesOk(lines) && EolOk(eol)
    ensures Run(LineList(lines, eol), st) == AfterLines(st, lines, eol)
    decreases |lines|
  {
    if lines != [] {
      var l := lines[0];
      assert LineOk(l);
      LinesOkTail(lines);
      StepLine(st, l, eol);
      var st1 := AfterLines(st, [l], eol);
      assert Run(LineList(lines, eol), st) == Run(LineList(lines[1..], eol), st1);
      RunLines(st1, lines[1..], eol);
      AfterLinesCons(st, l, lines[1..], eol);
      assert [l] + lines[1..] == lines;
    }
  }

  lemma StepHeader(st: Scan, r: Record, eol: string)
    requires NameOk(r.name) && DescOk(r.desc) && EolOk(eol)
    requires st.lineWidth != 0 ==> st.seqName != ""
    ensures Step(st, HeaderText(r, eol))
         == Scan(r.name, st.cumByte + |HeaderText(r, eol)|, 0, 0, 0, st.cumByte + |HeaderText(r, eol)|,
                 Pending(st), st.err)
  {
    var body := ">" + r.name + r.desc;
    HeaderBody(r);
    assert HeaderText(r, eol) == body + eol;
    TrimRightEol(body, eol);
    assert body[1..] == r.name + r.desc;
    FirstFieldUnique(r.name + r.desc, r.name);
  }

  /** A record's header and base lines, read after a state with no error. */
  lemma RunRecord(st: Scan, r: Record, eol: string)
    requires EolOk(eol) && RecordOk(r) && st.err.None?
    requires st.lineWidth != 0 ==> st.seqName != ""
    ensures Run([HeaderText(r, eol)] + LineList(r.lines, eol), st) == AfterRecord(st, r, eol)
  {
    var h := HeaderText(r, eol);
    var ll := LineList(r.lines, eol);
    RunAppend([h], ll, st);
    StepHeader(st, r, eol);
    var st1 := Step(st, h);
    assert Run([h], st) == st1 by {
      assert [h][1..] == [];
    }
    RunLines(st1, r.lines, eol);
  }

  /** The state after one whole record. */
  function AfterRecord(st: Scan, r: Record, eol: string): Scan
    requires r.lines != []
  {
    Scan(r.name, st.cumByte + |HeaderText(r, eol)|, Bases(r.lines), |r.lines[0]|,
         |r.lines[0]| + |eol|, st.cumByte + |RecordText(r, eol)|, Pending(st), None)
  }

  lemma RunRecordsSplit(st: Scan, rs: seq<Record>, eol: string)
    requires EolOk(eol) && rs != [] && RecordOk(rs[0]) && st.err.None?
    requires st.lineWidth != 0 ==> st.seqName != ""
    ensures Run(FastaLines(rs, eol), st) == Run(FastaLines(rs[1..], eol), AfterRecord(st, rs[0], eol))
  {
    var r := rs[0];
    var h := HeaderText(r, eol);
    var ll := LineList(r.lines, eol);
    assert FastaLines(rs, eol) == ([h] + ll) + FastaLines(rs[1..], eol);
    RunAppend([h] + ll, FastaLines(rs[1..], eol), st);
    RunRecord(st, r, eol);
  }

  lemma FastaTextLength(rs: seq<Record>, eol: string)
    requires rs != []
    ensures |FastaText(rs, eol)| == |RecordText(rs[0], eol)| + |FastaText(rs[1..], eol)|
  {
  }

  lemma ExpectedRowsCons(rs: seq<Record>, eol: string, start: int)
    requires rs != []
    ensures ExpectedRows(rs, eol, start) == [RowFor(rs[0], eol, start)] + ExpectedRows(rs[1..], eol, start + |RecordText(rs[0], eol)|)
  {
  }

  lemma AppendAssoc(a: seq<FaiRow>, b: seq<FaiRow>, c: seq<FaiRow>)
    ensures (a + b) + c == a + (b + c)
  {
  }

  lemma {:induction false} RunRecords(st: Scan, rs: seq<Record>, eol: string)
    requires EolOk(eol) && rs != [] && RecordsOk(rs)
    requires st.err.None?
    requires st.lineWidth != 0 ==> st.seqName != ""
    ensures Run(FastaLines(rs, eol), st).err.None?
    ensures Run(FastaLines(rs, eol), st).cumByte == st.cumByte + |FastaText(rs, eol)|
    ensures Run(FastaLines(rs, eol), st).rows + [Run(FastaLines(rs, eol), st).Row()]
         == Pending(st) + ExpectedRows(rs, eol, st.cumByte)
    decreases |rs|
  {
    RecordsOkTail(rs);
    var r := rs[0];
    RunRecordsSplit(st, rs, eol);
    var st2 := AfterRecord(st, r, eol);
    var c2 := st2.cumByte;
    var row := RowFor(r, eol, st.cumByte);
    var fin := Run(FastaLines(rs[1..], eol), st2);
    assert |eol| >= 1;
    assert st2.Row() == row;
    assert Pending(st2) == Pending(st) + [row];
    var rest := ExpectedRows(rs[1..], eol, c2);
    assert c2 == st.cumByte + |RecordText(r, eol)|;
    ExpectedRowsCons(rs, eol, st.cumByte);
    FastaTextLength(rs, eol);
    if rs[1..] == [] {
      assert rest == [] && FastaLines(rs[1..], eol) == [];
      assert fin == st2;
      assert [row] + rest == [row];
    } else {
      RunRecords(st2, rs[1..], eol);
      AppendAssoc(Pending(st), [row], rest);
    }
  }

  /** The empty piece read at the end of the input changes nothing. */
  lemma RunEmptyLast(ls: seq<string>, st: Scan)
    requires Run(ls, st).err.None?
    ensures Run(ls + [""], st) == Run(ls, st)
  {
    RunAppend(ls, [""], st);
    var r := Run(ls, st);
    assert Run([""], r) == Run([], Step(r, [])) by {
      assert [""][1..] == [];
    }
  }

  /** GenerateIndex on well-formed FASTA text writes, for every sequence in
      file order, its name, its base count, the byte offset of its first
      base, and its first line's bases and bytes; with "\r\n" terminators
      the width counts both bytes while the bases count neither. */
  lemma IndexOfFasta(rs: seq<Record>, eol: string)
    requires EolOk(eol) && rs != [] && RecordsOk(rs)
    ensures Index(FastaText(rs, eol)) == IndexOutput(ExpectedRows(rs, eol, 0), None)
  {
    var s := FastaText(rs, eol);
    SplitFasta(rs, eol);
    RunRecords(START, rs, eol);
    RunEmptyLast(FastaLines(rs, eol), START);
    assert |s| > 0 by {
      assert s == HeaderText(rs[0], eol) + LinesText(rs[0].lines, eol) + FastaText(rs[1..], eol);
    }
  }

  /** A sequence whose header is followed directly by another header gets
      no row: only sequences with at least one base line are flushed before
      the last. */
  lemma EmptySequenceDropped(r: Record, rs: seq<Record>, eol: string)
    requires EolOk(eol) && NameOk(r.name) && DescOk(r.desc) && r.lines == []
    requires rs != [] && RecordsOk(rs)
    ensures Index(HeaderText(r, eol) + FastaText(rs, eol))
         == IndexOutput(ExpectedRows(rs, eol, |HeaderText(r, eol)|), None)
  {
    var h := HeaderText(r, eol);
    var body := ">" + r.name + r.desc;
    HeaderBody(r);
    assert h + FastaText(rs, eol) == body + eol + FastaText(rs, eol);
    SplitLinesLine(body, eol, FastaText(rs, eol));
    SplitFasta(rs, eol);
    var ls := FastaLines(rs, eol);
    assert SplitLines(h + FastaText(rs, eol)) == [h] + (ls + [""]);
    StepHeader(START, r, eol);
    var st1 := Step(START, h);
    assert Run([h] + (ls + [""]), START) == Run(ls + [""], st1);
    RunRecords(st1, rs, eol);
    RunEmptyLast(ls, st1);
    var fin := Run(ls, st1);
    assert Run(SplitLines(h + FastaText(rs, eol)), START) == fin;
    assert Pending(st1) == [] && st1.cumByte == |h|;
    assert fin.cumByte > 0;
    assert Finish(fin) == IndexOutput(fin.rows + [fin.Row()], None);
    assert [] + ExpectedRows(rs, eol, |h|) == ExpectedRows(rs, eol, |h|);
  }

  // ---------------------------------------------------------------------
  // Errors

  lemma {:induction false} RunKeeps(ls: seq<string>, st: Scan)
    ensures Run(ls, st).cumByte >= st.cumByte
    ensures st.err.Some? ==> Run(ls, st).err == st.err
    ensures st.err.None? ==> Run(ls, st).err in {None, Some(MALFORMED)}
    decreases |ls|
  {
    if ls != [] && st.err.None? {
      RunKeeps(ls[1..], Step(st, ls[0]));
    }
  }

  /** An empty input, and only an empty input, is reported as an empty file. */
  lemma EmptyIffEmptyFile(s: string)
    ensures Index(s).err == Some(EMPTY_FILE) <==> s == []
  {
    var ls := SplitLines(s);
    if s == [] {
      assert ls == [""];
    } else {
      assert |ls[0]| > 0;
      var st1 := Step(START, ls[0]);
      assert st1.cumByte >= 1;
      RunKeeps(ls[1..], st1);
    }
  }

  /** A base line before the first header makes the file malformed. */
  lemma BasesBeforeHeader(l: string, r: Record, eol: string, rest: string)
    requires LineOk(l) && NameOk(r.name) && DescOk(r.desc) && EolOk(eol)
    ensures Index(l + eol + HeaderText(r, eol) + rest).err == Some(MALFORMED)
  {
    var body := ">" + r.name + r.desc;
    var h := HeaderText(r, eol);
    HeaderBody(r);
    assert l + eol + h + rest == l + eol + (body + eol + rest);
    SplitLinesLine(l, eol, body + eol + rest);
    SplitLinesLine(body, eol, rest);
    var ls := SplitLines(l + eol + h + rest);
    assert ls == [l + eol] + ([h] + SplitLines(rest));
    StepLine(START, l, eol);
    var st1 := Step(START, l + eol);
    assert st1.lineWidth != 0 && st1.seqName == "";
    assert TrimRight(h)[0] == '>' by {
      TrimRightEol(body, eol);
    }
    var st2 := Step(st1, h);
    assert st2.err == Some(MALFORMED);
    var more := [h] + SplitLines(rest);
    RunCons(l + eol, more, START);
    RunCons(h, SplitLines(rest), st1);
    RunAfterError(SplitLines(rest), st2);
    assert Run(ls, START) == st2;
    FinishKeepsError(st2);
  }

  lemma FinishKeepsError(st: Scan)
    requires st.err.Some?
    ensures Finish(st).err == st.err
  {
  }
}
