/** FASTQ scanning (fastq/scanner.go): a Scanner reads four lines per read
    from a line source, checks that the ID line starts with '@' and the third
    line with '+', keeps the first error it meets and never scans again after
    it; a PairScanner runs two scanners in step and records a discordance
    when only one of them yields a read. The line source (bufio.Scanner over
    the reader) is a sequence of lines and the error, if any, that the
    reader reported after the last of them. */
module FastqScanner {
  import opened Wrappers

  /** A FASTQ read: the ID line, the sequence line, line 3 and the quality line. */
  datatype Read = Read(id: string, sequence: string, unk: string, qual: string)

  /** Trim cuts the sequence and quality to their first n bytes; slicing a
      string past its length, or at a negative n, panics in Go, and that
      panic is None here. */
  function Trim(r: Read, n: int): (t: Option<Read>)
    ensures t.None? <==> n < 0 || n > |r.sequence| || n > |r.qual|
    ensures t.Some? ==> |t.value.sequence| == n && |t.value.qual| == n
    ensures t.Some? ==> t.value.sequence + r.sequence[n..] == r.sequence && t.value.qual + r.qual[n..] == r.qual
    ensures t.Some? ==> t.value.id == r.id && t.value.unk == r.unk
  {
    if n < 0 || n > |r.sequence| || n > |r.qual| then None
    else Some(r.(sequence := r.sequence[..n], qual := r.qual[..n]))
  }

  /** The errors a scanner keeps: the package's ErrShort, ErrInvalid and
      ErrDiscordant, the private end-of-stream marker, and the reader's own. */
  datatype ScanError = Short | Invalid | Discordant | EndOfStream | ReaderError(msg: string)

  /** The field bits of NewScanner's bitset. */
  const ID_FIELD: bv32 := 1
  const SEQ_FIELD: bv32 := 2
  const UNK_FIELD: bv32 := 4
  const QUAL_FIELD: bv32 := 8
  const ALL_FIELDS: bv32 := 15

  /** The error recorded when the line source runs out: the reader's error
      if it reported one, otherwise `dflt`. */
  function StopError(readErr: Option<string>, dflt: ScanError): ScanError {
    if readErr.Some? then ReaderError(readErr.value) else dflt
  }

  predicate IdLineOk(line: string) { |line| > 0 && line[0] == '@' }
  predicate UnkLineOk(line: string) { |line| > 0 && line[0] == '+' }

  /** The read after the four lines of a record were stored into `read`,
      each only when its field bit is set. */
  function Fill(fields: bv32, read: Read, rec: Read): (r: Read)
    ensures fields == ALL_FIELDS ==> r == rec
    ensures fields == 0 ==> r == read
  {
    Read(if fields & ID_FIELD != 0 then rec.id else read.id,
         if fields & SEQ_FIELD != 0 then rec.sequence else read.sequence,
         if fields & UNK_FIELD != 0 then rec.unk else read.unk,
         if fields & QUAL_FIELD != 0 then rec.qual else read.qual)
  }

  /** A scan's outcome: whether it yielded a read, the position in the line
      source, the recorded error and the read as left behind. */
  datatype Step = Step(ok: bool, pos: nat, err: Option<ScanError>, read: Read)

  /** Scanner.Scan from position `pos` with recorded error `err`. A scan that
      stops part-way leaves the fields it already filled in `read`. */
  function ScanOf(lines: seq<string>, readErr: Option<string>, fields: bv32,
                  pos: nat, err: Option<ScanError>, read: Read): (r: Step)
    requires pos <= |lines|
    ensures r.pos <= |lines|
    ensures err.Some? ==> r == Step(false, pos, err, read)
    ensures r.ok <==> r.err.None?
    ensures r.ok ==> (pos + 4 <= |lines| && r.pos == pos + 4
        && r.read == Fill(fields, read, Read(lines[pos], lines[pos + 1], lines[pos + 2], lines[pos + 3])))
    ensures r.err == Some(Invalid) <==> (err == Some(Invalid) ||
        (err.None? && pos < |lines| && (!IdLineOk(lines[pos]) || (pos + 2 < |lines| && !UnkLineOk(lines[pos + 2])))))
    ensures err.None? && pos == |lines| ==> r.err == Some(StopError(readErr, EndOfStream))
  {
    if err.Some? then Step(false, pos, err, read)
    else if pos == |lines| then Step(false, pos, Some(StopError(readErr, EndOfStream)), read)
    else if !IdLineOk(lines[pos]) then Step(false, pos + 1, Some(Invalid), read)
    else
      var read1 := if fields & ID_FIELD != 0 then read.(id := lines[pos]) else read;
      if pos + 1 == |lines| then Step(false, pos + 1, Some(StopError(readErr, Short)), read1)
      else
        var read2 := if fields & SEQ_FIELD != 0 then read1.(sequence := lines[pos + 1]) else read1;
        if pos + 2 == |lines| then Step(false, pos + 2, Some(StopError(readErr, Short)), read2)
        else if !UnkLineOk(lines[pos + 2]) then Step(false, pos + 3, Some(Invalid), read2)
        else
          var read3 := if fields & UNK_FIELD != 0 then read2.(unk := lines[pos + 2]) else read2;
          if pos + 3 == |lines| then Step(false, pos + 3, Some(StopError(readErr, Short)), read3)
          else
            var read4 := if fields & QUAL_FIELD != 0 then read3.(qual := lines[pos + 3]) else read3;
            Step(true, pos + 4, None, read4)
  }

  /** Err: the recorded error, with the end-of-stream marker reported as none. */
  function ErrOf(err: Option<ScanError>): (e: Option<ScanError>)
    ensures e.None? <==> err.None? || err == Some(EndOfStream)
    ensures e.Some? ==> e == err
  {
    if err == Some(EndOfStream) then None else err
  }

  class Scanner {
    const lines: seq<string>
    const readErr: Option<string>
    const fields: bv32
    var pos: nat
    var err: Option<ScanError>

    ghost predicate Valid()
      reads this
    {
      pos <= |lines|
    }

    /** NewScanner: at the first line, with no error recorded. */
    constructor (lines: seq<string>, readErr: Option<string>, fields: bv32)
      ensures Valid() && pos == 0 && err.None?
      ensures this.lines == lines && this.readErr == readErr && this.fields == fields
    {
      this.lines := lines;
      this.readErr := readErr;
      this.fields := fields;
      pos := 0;
      err := None;
    }

    /** bufio.Scanner.Scan followed by Bytes: the next line, if any. */
    method NextLine() returns (ok: bool, line: string)
      requires Valid()
      modifies this
      ensures Valid() && err == old(err)
      ensures ok <==> old(pos) < |lines|
      ensures ok ==> pos == old(pos) + 1 && line == lines[old(pos)]
      ensures !ok ==> pos == old(pos)
    {
      if pos < |lines| {
        line := lines[pos];
        pos := pos + 1;
        ok := true;
      } else {
        ok := false;
        line := "";
      }
    }

    /** The private scan: the next line, or the reader's error (ErrShort when
        there is none) recorded when the lines have run out. */
    method ScanLine() returns (ok: bool, line: string)
      requires Valid()
      modifies this
      ensures Valid()
      ensures ok <==> old(pos) < |lines|
      ensures ok ==> pos == old(pos) + 1 && line == lines[old(pos)] && err == old(err)
      ensures !ok ==> pos == old(pos) && err == Some(StopError(readErr, Short))
    {
      ok, line := NextLine();
      if !ok {
        err := Some(StopError(readErr, Short));
      }
    }

    /** Scan: the next read stored into `read` (only the fields selected at
        construction), as ScanOf describes. */
    method Scan(read: Read) returns (ok: bool, out: Read)
      requires Valid()
      modifies this
      ensures Valid()
      ensures Step(ok, pos, err, out) == ScanOf(lines, readErr, fields, old(pos), old(err), read)
    {
      out := read;
      if err.Some? {
        return false, out;
      }
      var more, id := NextLine();
      if !more {
        err := Some(StopError(readErr, EndOfStream));
        return false, out;
      }
      if |id| == 0 || id[0] != '@' {
        err := Some(Invalid);
        return false, out;
      }
      if fields & ID_FIELD != 0 {
        out := out.(id := id);
      }
      var sequence;
      ok, sequence := ScanLine();
      if !ok {
        return;
      }
      if fields & SEQ_FIELD != 0 {
        out := out.(sequence := sequence);
      }
      var unk;
      ok, unk := ScanLine();
      if !ok {
        return;
      }
      if |unk| == 0 || unk[0] != '+' {
        err := Some(Invalid);
        return false, out;
      }
      if fields & UNK_FIELD != 0 {
        out := out.(unk := unk);
      }
      var qual;
      ok, qual := ScanLine();
      if !ok {
        return;
      }
      if fields & QUAL_FIELD != 0 {
        out := out.(qual := qual);
      }
      return true, out;
    }

    function Err(): (e: Option<ScanError>)
      reads this
      ensures e == ErrOf(err)
    {
      if err == Some(EndOfStream) then None else err
    }
  }

  // ---------------------------------------------------------------------
  // The lines of a well-formed FASTQ stream

  /** A read the scanner accepts: '@' and '+' lead lines 1 and 3. */
  predicate Wellformed(r: Read) {
    IdLineOk(r.id) && UnkLineOk(r.unk)
  }

  /** The four lines of each read, in order. */
  function Lines(recs: seq<Read>): (ls: seq<string>)
    ensures |ls| == 4 * |recs|
  {
    if recs == [] then []
    else Lines(recs[..|recs| - 1])
         + [recs[|recs| - 1].id, recs[|recs| - 1].sequence, recs[|recs| - 1].unk, recs[|recs| - 1].qual]
  }

  /** Line 4k + j of the stream is field j of read k. */
  lemma {:induction false} LinesAt(recs: seq<Read>, k: nat)
    requires k < |recs|
    ensures Lines(recs)[4 * k] == recs[k].id && Lines(recs)[4 * k + 1] == recs[k].sequence
    ensures Lines(recs)[4 * k + 2] == recs[k].unk && Lines(recs)[4 * k + 3] == recs[k].qual
  {
    if k < |recs| - 1 {
      LinesAt(recs[..|recs| - 1], k);
      assert recs[..|recs| - 1][k] == recs[k];
    }
  }

  /** Scanning a stream of well-formed recs: the k-th scan yields read k
      (its selected fields) and moves to the next record; the scan after the
      last stops, and then Err reports nothing unless the reader failed. */
  lemma ScanReadsBack(recs: seq<Read>, readErr: Option<string>, fields: bv32, k: nat, read: Read)
    requires forall i :: 0 <= i < |recs| ==> Wellformed(recs[i])
    requires k <= |recs|
    ensures k < |recs| ==>
      ScanOf(Lines(recs), readErr, fields, 4 * k, None, read) == Step(true, 4 * k + 4, None, Fill(fields, read, recs[k]))
    ensures k == |recs| ==>
      var r := ScanOf(Lines(recs), readErr, fields, 4 * k, None, read);
      !r.ok && (ErrOf(r.err).None? <==> readErr.None?)
  {
    if k < |recs| {
      LinesAt(recs, k);
      assert Wellformed(recs[k]);
    }
  }

  /** Scanning stops for good: the scan after a failed one fails too and
      changes nothing. */
  lemma StopsForGood(lines: seq<string>, readErr: Option<string>, fields: bv32, pos: nat, err: Option<ScanError>,
                     read: Read, read2: Read)
    requires pos <= |lines|
    requires !ScanOf(lines, readErr, fields, pos, err, read).ok
    ensures var r := ScanOf(lines, readErr, fields, pos, err, read);
      ScanOf(lines, readErr, fields, r.pos, r.err, read2) == Step(false, r.pos, r.err, read2)
  {
  }

  /** A record cut short after its ID line, with no reader error, gives ErrShort. */
  lemma TruncatedIsShort(lines: seq<string>, fields: bv32, pos: nat, read: Read)
    requires pos < |lines| && IdLineOk(lines[pos]) && pos + 4 > |lines|
    requires pos + 2 < |lines| ==> UnkLineOk(lines[pos + 2])
    ensures ScanOf(lines, None, fields, pos, None, read).err == Some(Short)
  {
  }

  // ---------------------------------------------------------------------
  // Pairs

  /** Err of a pair: R1's error, else R2's, else the pair's own. */
  function PairErrOf(e1: Option<ScanError>, e2: Option<ScanError>, err: Option<ScanError>): Option<ScanError> {
    if ErrOf(e1).Some? then ErrOf(e1)
    else if ErrOf(e2).Some? then ErrOf(e2)
    else err
  }

  class PairScanner {
    var r1: Scanner
    var r2: Scanner
    var err: Option<ScanError>

    ghost predicate Valid()
      reads this, r1, r2
    {
      r1 != r2 && r1.Valid() && r2.Valid()
    }

    constructor (lines1: seq<string>, readErr1: Option<string>, lines2: seq<string>, readErr2: Option<string>,
                 fields: bv32)
      ensures Valid() && fresh(r1) && fresh(r2) && err.None?
      ensures r1.lines == lines1 && r1.readErr == readErr1 && r1.fields == fields && r1.pos == 0 && r1.err.None?
      ensures r2.lines == lines2 && r2.readErr == readErr2 && r2.fields == fields && r2.pos == 0 && r2.err.None?
    {
      r1 := new Scanner(lines1, readErr1, fields);
      r2 := new Scanner(lines2, readErr2, fields);
      err := None;
    }

    /** Scan: both scanners scan; a pair is yielded when both yield a read,
        and ErrDiscordant is recorded when exactly one does. */
    method Scan(read1: Read, read2: Read) returns (ok: bool, out1: Read, out2: Read)
      requires Valid()
      modifies this, r1, r2
      ensures Valid() && r1 == old(r1) && r2 == old(r2)
      ensures var s1 := ScanOf(r1.lines, r1.readErr, r1.fields, old(r1.pos), old(r1.err), read1);
        var s2 := ScanOf(r2.lines, r2.readErr, r2.fields, old(r2.pos), old(r2.err), read2);
        Step(s1.ok, r1.pos, r1.err, out1) == s1 && Step(s2.ok, r2.pos, r2.err, out2) == s2
        && ok == (s1.ok && s2.ok)
        && err == (if s1.ok != s2.ok then Some(Discordant) else old(err))
    {
      var ok1, ok2;
      ok1, out1 := r1.Scan(read1);
      ok2, out2 := r2.Scan(read2);
      if ok1 != ok2 {
        err := Some(Discordant);
      }
      ok := ok1 && ok2;
    }

    function Err(): (e: Option<ScanError>)
      reads this, r1, r2
      ensures e == PairErrOf(r1.err, r2.err, err)
    {
      if r1.Err().Some? then r1.Err()
      else if r2.Err().Some? then r2.Err()
      else err
    }
  }

  /** When one stream ends cleanly one read before the other, the pair scan
      that reaches that end yields nothing and the pair reports
      ErrDiscordant. */
  lemma DiscordantReported(recs1: seq<Read>, recs2: seq<Read>, fields: bv32, read1: Read, read2: Read)
    requires forall i :: 0 <= i < |recs1| ==> Wellformed(recs1[i])
    requires forall i :: 0 <= i < |recs2| ==> Wellformed(recs2[i])
    requires |recs1| == |recs2| + 1
    ensures var k := |recs2|;
      var s1 := ScanOf(Lines(recs1), None, fields, 4 * k, None, read1);
      var s2 := ScanOf(Lines(recs2), None, fields, 4 * k, None, read2);
      s1.ok && !s2.ok && PairErrOf(s1.err, s2.err, Some(Discordant)) == Some(Discordant)
  {
    ScanReadsBack(recs1, None, fields, |recs2|, read1);
    ScanReadsBack(recs2, None, fields, |recs2|, read2);
  }
}
