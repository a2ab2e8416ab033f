/** Random access to a FASTA file through its faidx index (fasta_indexed.go):
    the index lines become a map from sequence name to entry and a list of
    names ordered by file offset; Get turns a base range into a byte range
    of the file, reads it through a one-window cache and drops the line
    terminators. The file is the byte sequence `data`. */
module FastaIndexed {
  import opened Wrappers
  import opened Ints
  import opened LittleEndian
  import opened FieldBuffers

  /** One row of the index: the sequence's base count, the byte offset of its
      first base, and the bases and bytes of each full line (uint64 each). */
  datatype IndexEntry = IndexEntry(length: int, offset: int, lineBase: int, lineWidth: int)

  predicate EntryOk(e: IndexEntry) {
    IsUint64(e.length) && IsUint64(e.offset) && IsUint64(e.lineBase) && IsUint64(e.lineWidth)
  }

  /** An index line after the regular expression was applied to it: its name
      and entry, or the text of a line that did not match. */
  datatype IndexLine = Matched(name: string, entry: IndexEntry) | Unmatched(text: string)

  const INVALID_LINE := "Invalid index line: "
  const NOT_FOUND := "sequence not found in index: "
  const READ_BUFFER_SIZE := 8192

  // ---------------------------------------------------------------------
  // Loading the index

  /** The map after the lines: a later line with the same name replaces the entry. */
  function SeqsOf(lines: seq<IndexLine>): map<string, IndexEntry> {
    if lines == [] then map[]
    else
      var m := SeqsOf(lines[..|lines| - 1]);
      match lines[|lines| - 1]
      case Matched(name, e) => m[name := e]
      case Unmatched(_) => m
  }

  /** The names in the order of their lines, duplicates included. */
  function NamesOf(lines: seq<IndexLine>): seq<string> {
    if lines == [] then []
    else
      var ns := NamesOf(lines[..|lines| - 1]);
      match lines[|lines| - 1]
      case Matched(name, _) => ns + [name]
      case Unmatched(_) => ns
  }

  /** The key sort.SliceStable compares: a name missing from the map reads
      as the zero entry. */
  function OffsetOf(seqs: map<string, IndexEntry>, name: string): int {
    if name in seqs then seqs[name].offset else 0
  }

  /** Puts `x` after every name of `s` whose offset is not larger. */
  function Insert(x: string, s: seq<string>, seqs: map<string, IndexEntry>): seq<string> {
    if s == [] then [x]
    else if OffsetOf(seqs, x) < OffsetOf(seqs, s[0]) then [x] + s
    else [s[0]] + Insert(x, s[1..], seqs)
  }

  /** The names sorted by offset, ties kept in their original order. */
  function SortByOffset(names: seq<string>, seqs: map<string, IndexEntry>): seq<string> {
    if names == [] then []
    else Insert(names[|names| - 1], SortByOffset(names[..|names| - 1], seqs), seqs)
  }

  predicate SortedByOffset(s: seq<string>, seqs: map<string, IndexEntry>) {
    forall i, j :: 0 <= i < j < |s| ==> OffsetOf(seqs, s[i]) <= OffsetOf(seqs, s[j])
  }

  /** The names of `s` at offset `v`, in order. */
  function AtOffset(s: seq<string>, seqs: map<string, IndexEntry>, v: int): seq<string> {
    if s == [] then []
    else (if OffsetOf(seqs, s[0]) == v then [s[0]] else []) + AtOffset(s[1..], seqs, v)
  }

  // ---------------------------------------------------------------------
  // Reading the file through the cache

  datatype ReadResult = ReadOk(bytes: seq<uint8>) | ReadErr(err: FastaError) | ReadPanic

  datatype FastaError =
    | StartNotBeforeEnd
    | NotFound(name: string)
    | PastEnd(name: string, length: int)
    | SeekFailed(off: int)
    | UnexpectedEof

  /** The bytes a read can still get from offset `off` on. */
  function Avail(data: seq<uint8>, off: int): nat {
    if 0 <= off < |data| then |data| - off else 0
  }

  /** The file's bytes in [i, j); an empty range may start past the end. */
  function Span(data: seq<uint8>, i: int, j: int): seq<uint8>
    requires 0 <= i <= j && (i == j || j <= |data|)
  {
    if i == j then [] else data[i..j]
  }

  /** A cache window [bufOff, bufOff + cached) that holds file bytes. */
  predicate CacheOk(data: seq<uint8>, bufOff: int, cached: int) {
    0 <= bufOff && 0 <= cached && (cached == 0 || bufOff + cached <= |data|)
  }

  function ReadSize(n: int): int { if READ_BUFFER_SIZE < n then n else READ_BUFFER_SIZE }

  /** Go's `off + int64(n)` for two int64 operands, wrapping around. */
  function Int64Add(a: int, b: int): (r: int)
    requires IsInt64(a) && IsInt64(b)
    ensures IsInt64(r) && (r == a + b || r == a + b - TWO_64 || r == a + b + TWO_64)
  {
    if a + b > MAX_INT64 then a + b - TWO_64 else if a + b < -TWO_63 then a + b + TWO_64 else a + b
  }

  /** What read(off, n) returns when the cache holds the file's bytes at
      [bufOff, bufOff + cached): on a hit the cached bytes, on a miss a seek
      and a read of max(8192, n) bytes, failing when fewer than n arrive. */
  function ReadOf(data: seq<uint8>, bufOff: int, cached: int, off: int, n: int): ReadResult
    requires CacheOk(data, bufOff, cached) && IsInt64(off) && IsInt64(n)
  {
    var limit := Int64Add(off, n);
    if off < bufOff || limit > bufOff + cached then
      if off < 0 then ReadErr(SeekFailed(off))
      else if Min(ReadSize(n), Avail(data, off)) < n then ReadErr(UnexpectedEof)
      else if limit < off then ReadPanic
      else ReadOk(Span(data, off, limit))
    else if limit < off then ReadPanic
    else ReadOk(Span(data, off, limit))
  }

  /** A read that stays inside the file and below 2^63 returns the file's
      bytes there, or fails for lack of them, whatever the cache holds. */
  lemma ReadIgnoresCache(data: seq<uint8>, bufOff: int, cached: int, off: int, n: int)
    requires CacheOk(data, bufOff, cached) && |data| < TWO_63
    requires 0 <= off && 0 <= n && off + n < TWO_63
    ensures off + n <= |data| ==> ReadOf(data, bufOff, cached, off, n) == ReadOk(data[off..off + n])
    ensures 0 < n && off + n > |data| ==> ReadOf(data, bufOff, cached, off, n) == ReadErr(UnexpectedEof)
  {
    if 0 < n && off + n > |data| {
      assert Avail(data, off) < n;
    }
  }

  // ---------------------------------------------------------------------
  // Get's arithmetic: where base p of a sequence lies, relative to its
  // first base, when each line holds b bases in w bytes

  function Loc(p: nat, b: nat, w: nat): nat
    requires b >= 1
  {
    (p / b) * w + p % b
  }

  /** The bases stored before relative byte r. */
  function Before(r: nat, b: nat, w: nat): nat
    requires w >= 1
  {
    (r / w) * b + Min(r % w, b)
  }

  lemma LocDivMod(p: nat, b: nat, w: nat)
    requires 1 <= b <= w
    ensures Loc(p, b, w) / w == p / b && Loc(p, b, w) % w == p % b
  {
    DivModUnique(Loc(p, b, w), w, p / b, p % b);
  }

  lemma BeforeLoc(p: nat, b: nat, w: nat)
    requires 1 <= b <= w
    ensures Before(Loc(p, b, w), b, w) == p
  {
    LocDivMod(p, b, w);
  }

  lemma LocBefore(r: nat, b: nat, w: nat)
    requires 1 <= b <= w && r % w < b
    ensures Loc(Before(r, b, w), b, w) == r
  {
    var q, c := r / w, r % w;
    assert Before(r, b, w) == q * b + c;
    DivModUnique(Before(r, b, w), b, q, c);
  }

  lemma ModStep(r: nat, w: nat)
    requires w >= 1
    ensures r % w + 1 < w ==> (r + 1) / w == r / w && (r + 1) % w == r % w + 1
    ensures r % w + 1 == w ==> (r + 1) / w == r / w + 1 && (r + 1) % w == 0
  {
    var q, c := r / w, r % w;
    if c + 1 < w {
      DivModUnique(r + 1, w, q, c + 1);
    } else {
      assert r + 1 == (q + 1) * w;
      DivModUnique(r + 1, w, q + 1, 0);
    }
  }

  /** One more byte adds a base exactly when its column is below b. */
  lemma BeforeStep(r: nat, b: nat, w: nat)
    requires 1 <= b <= w
    ensures Before(r + 1, b, w) == Before(r, b, w) + (if r % w < b then 1 else 0)
  {
    ModStep(r, w);
    var q := r / w;
    if r % w + 1 == w {
      assert Before(r + 1, b, w) == (q + 1) * b;
      assert (q + 1) * b == q * b + b;
    }
  }

  lemma {:induction false} BeforeMono(r: nat, s: nat, b: nat, w: nat)
    requires 1 <= b <= w && r <= s
    ensures Before(r, b, w) <= Before(s, b, w)
    decreases s - r
  {
    if r < s {
      BeforeStep(r, b, w);
      BeforeMono(r + 1, s, b, w);
    }
  }

  lemma LocMono(p: nat, q: nat, b: nat, w: nat)
    requires 1 <= b <= w && p <= q
    ensures Loc(p, b, w) <= Loc(q, b, w)
  {
    if Loc(q, b, w) < Loc(p, b, w) {
      BeforeMono(Loc(q, b, w), Loc(p, b, w), b, w);
      BeforeLoc(p, b, w);
      BeforeLoc(q, b, w);
    }
  }

  /** The newlines Get reads between base `start` and base `end`. */
  function NewlinesToRead(start: int, end: int, b: int): int
    requires b >= 1
  {
    var first := b - start % b;
    if end - start > first then 1 + (end - start - first) / b else 0
  }

  /** Get's byte count: the bytes from base `start` to base `end` end exactly
      where the bases run out, and no further than the terminator of the
      line that holds base end - 1. */
  lemma ReadSpan(start: nat, end: nat, b: nat, w: nat)
    requires 1 <= b <= w && start < end
    ensures var cap := end - start + NewlinesToRead(start, end, b) * (w - b);
      Before(Loc(start, b, w) + cap, b, w) == end
      && Loc(start, b, w) + cap <= Loc(end - 1, b, w) + 1 + (w - b)
  {
    var s1, c := start / b, start % b;
    assert start == s1 * b + c;
    if end - start <= b - c {
      ReadSpanOneLine(start, end, b, w, s1, c);
    } else {
      var k := end - start - (b - c);
      ReadSpanLines(start, end, b, w, s1, c, k / b, k % b);
    }
  }

  lemma ReadSpanOneLine(start: nat, end: nat, b: nat, w: nat, s1: nat, c: nat)
    requires 1 <= b <= w && start < end && start == s1 * b + c && c < b
    requires end - start <= b - c
    ensures start / b == s1 && start % b == c
    ensures NewlinesToRead(start, end, b) == 0
    ensures Before(Loc(start, b, w) + (end - start), b, w) == end
    ensures Loc(start, b, w) + (end - start) == Loc(end - 1, b, w) + 1
  {
    DivModUnique(start, b, s1, c);
    var n := end - start;
    var r := s1 * w + c + n;
    assert Loc(start, b, w) + n == r;
    if c + n < w {
      DivModUnique(r, w, s1, c + n);
      assert Before(r, b, w) == s1 * b + c + n;
    } else {
      assert r == (s1 + 1) * w;
      DivModUnique(r, w, s1 + 1, 0);
      assert Before(r, b, w) == (s1 + 1) * b;
    }
    DivModUnique(end - 1, b, s1, c + n - 1);
  }

  lemma ReadSpanLines(start: nat, end: nat, b: nat, w: nat, s1: nat, c: nat, q: nat, t: nat)
    requires 1 <= b <= w && start == s1 * b + c && c < b && t < b
    requires end - start - (b - c) == q * b + t && end - start > b - c
    ensures NewlinesToRead(start, end, b) == 1 + q
    ensures var cap := end - start + (1 + q) * (w - b);
      Before(Loc(start, b, w) + cap, b, w) == end
      && Loc(start, b, w) + cap <= Loc(end - 1, b, w) + 1 + (w - b)
  {
    DivModUnique(start, b, s1, c);
    DivModUnique(q * b + t, b, q, t);
    var cap := end - start + (1 + q) * (w - b);
    var r := Loc(start, b, w) + cap;
    SpanSum(s1, c, q, t, b, w);
    assert r == (s1 + 1 + q) * w + t;
    assert end == (s1 + 1 + q) * b + t;
    DivModUnique(r, w, s1 + 1 + q, t);
    if t > 0 {
      DivModUnique(end - 1, b, s1 + 1 + q, t - 1);
    } else {
      assert end - 1 == (s1 + q) * b + (b - 1);
      DivModUnique(end - 1, b, s1 + q, b - 1);
      assert (s1 + q + 1) * w == (s1 + q) * w + w;
    }
  }

  lemma SpanSum(s1: int, c: int, q: int, t: int, b: int, w: int)
    ensures s1 * w + c + (b - c + q * b + t) + (1 + q) * (w - b) == (s1 + 1 + q) * w + t
    ensures s1 * b + c + (b - c + q * b + t) == (s1 + 1 + q) * b + t
  {
    assert (1 + q) * (w - b) == w + q * w - b - q * b;
    assert (s1 + 1 + q) * w == s1 * w + w + q * w;
    assert (s1 + 1 + q) * b == s1 * b + b + q * b;
  }

  /** Get's start offset is the byte of base `start`. */
  lemma StartOffset(start: nat, b: nat, w: nat)
    requires 1 <= b <= w
    ensures start + (w - b) * (start / b) == Loc(start, b, w)
  {
    var s1 := start / b;
    assert start == s1 * b + start % b;
    assert (w - b) * s1 == w * s1 - b * s1;
  }

  // ---------------------------------------------------------------------
  // Get's copy loop

  datatype Copy = Copied(out: seq<uint8>, resultPos: nat, linePos: int) | CopyPanicked

  /** One byte of the loop: kept when its column is below lineBase, written
      at resultPos (an index out of range panics), then the column advances
      and wraps at lineWidth. */
  function CopyStep(c: Copy, x: uint8, b: int, w: int): Copy {
    match c
    case CopyPanicked => CopyPanicked
    case Copied(out, rp, lp) =>
      if lp < b && rp >= |out| then CopyPanicked
      else
        var lp1 := if lp + 1 == w then 0 else lp + 1;
        if lp < b then Copied(out[rp := x], rp + 1, lp1) else Copied(out, rp, lp1)
  }

  /** The loop's state after the first i bytes of the buffer. */
  function CopyLines(buffer: seq<uint8>, i: nat, b: int, w: int, init: Copy): Copy
    requires i <= |buffer|
  {
    if i == 0 then init else CopyStep(CopyLines(buffer, i - 1, b, w, init), buffer[i - 1], b, w)
  }

  /** resizeBuf on the result buffer: the array's first n bytes when it is
      large enough, fresh zeros otherwise. */
  function Resized(stale: seq<uint8>, n: nat): (r: seq<uint8>)
    ensures |r| == n
  {
    if |stale| < n then seq(n, _ => 0) else stale[..n]
  }

  datatype Fetched = Got(bases: seq<uint8>) | Failed(err: FastaError) | Panicked

  /** Get's start offset in uint64 arithmetic: the entry's offset, the bases
      before `start`, and the terminator bytes of the lines before its line. */
  function StartByte(e: IndexEntry, start: int): int
    requires e.lineBase >= 1
  {
    WrapUint64(e.offset + start + WrapUint64(WrapUint64(e.lineWidth - e.lineBase) * (start / e.lineBase)))
  }

  /** Get's byte count in uint64 arithmetic: the bases and the terminators
      of the newlines to read. */
  function ByteCount(e: IndexEntry, start: int, end: int): int
    requires e.lineBase >= 1
  {
    WrapUint64(end - start + WrapUint64(NewlinesToRead(start, end, e.lineBase) * WrapUint64(e.lineWidth - e.lineBase)))
  }

  /** For a sequence that ends inside a file shorter than 2^63 bytes no
      uint64 wraps: the read starts at base `start`'s byte and ends where
      base `end` would begin. */
  lemma Geometry(e: IndexEntry, start: nat, end: nat)
    requires 1 <= e.lineBase <= e.lineWidth && start < end <= e.length && 0 <= e.offset
    requires e.offset + Loc(e.length - 1, e.lineBase, e.lineWidth) + 1 + (e.lineWidth - e.lineBase) < TWO_63
    ensures var b, w := e.lineBase, e.lineWidth;
      var cap := end - start + NewlinesToRead(start, end, b) * (w - b);
      && StartByte(e, start) == e.offset + Loc(start, b, w)
      && ByteCount(e, start, end) == cap && end - start <= cap
      && e.offset + Loc(start, b, w) + cap <= e.offset + Loc(e.length - 1, b, w) + 1 + (w - b)
      && Before(Loc(start, b, w) + cap, b, w) == end
  {
    var b, w := e.lineBase, e.lineWidth;
    var r0 := Loc(start, b, w);
    var nl := NewlinesToRead(start, end, b);
    var cap := end - start + nl * (w - b);
    ReadSpan(start, end, b, w);
    StartOffset(start, b, w);
    LocMono(end - 1, e.length - 1, b, w);
    MulNonneg(nl, w - b);
    assert e.offset + r0 + cap < TWO_63;
    var skipped := (w - b) * (start / b);
    MulNonneg(w - b, start / b);
    assert 0 <= skipped <= r0;
    assert WrapUint64(w - b) == w - b;
    assert WrapUint64(skipped) == skipped;
    assert StartByte(e, start) == WrapUint64(e.offset + start + skipped);
    assert 0 <= nl * (w - b) <= cap;
    assert WrapUint64(nl * (w - b)) == nl * (w - b);
  }

  lemma MulNonneg(x: int, y: int)
    requires 0 <= x && 0 <= y
    ensures 0 <= x * y
  {
  }

  /** Get(name, start, end) for a file `data`, an index `seqs`, a cache
      holding [bufOff, bufOff + cached) and a result buffer whose array holds
      `stale`. Divisions by a zero lineBase or lineWidth, a negative int and
      an index out of range are panics. */
  function GetOf(data: seq<uint8>, seqs: map<string, IndexEntry>, name: string, start: int, end: int,
                 bufOff: int, cached: int, stale: seq<uint8>): Fetched
    requires CacheOk(data, bufOff, cached)
  {
    if end <= start then Failed(StartNotBeforeEnd)
    else if name !in seqs then Failed(NotFound(name))
    else
      var e := seqs[name];
      if end > e.length then Failed(PastEnd(name, e.length))
      else if e.lineBase <= 0 then Panicked
      else
        var offset := StartByte(e, start);
        AfterRead(ReadOf(data, bufOff, cached, WrapInt64(offset), WrapInt64(ByteCount(e, start, end))),
                  e, start, end, offset, stale)
  }

  /** Get after the read: its error, or the copy into the resized result
      buffer with the column of the first byte read. */
  function AfterRead(res: ReadResult, e: IndexEntry, start: int, end: int, offset: int, stale: seq<uint8>): Fetched
    requires start < end
  {
    match res
    case ReadErr(err) => Failed(err)
    case ReadPanic => Panicked
    case ReadOk(buffer) =>
      if end - start >= TWO_63 || e.lineWidth <= 0 then Panicked
      else
        CopyResult(buffer, e.lineBase, e.lineWidth, Resized(stale, end - start),
                   WrapUint64(offset - e.offset) % e.lineWidth)
  }

  /** The copy loop's outcome: the result buffer it leaves, or a panic. */
  function CopyResult(buffer: seq<uint8>, b: int, w: int, fill: seq<uint8>, linePos: int): Fetched {
    match CopyLines(buffer, |buffer|, b, w, Copied(fill, 0, linePos))
    case CopyPanicked => Panicked
    case Copied(out, _, _) => Got(out)
  }

  /** The file holds `bases` where the entry says: base p at byte
      offset + Loc(p), every line full but the last, and the last line's
      terminator inside the file. */
  predicate Laid(data: seq<uint8>, e: IndexEntry, bases: seq<uint8>) {
    EntryOk(e) && 1 <= e.lineBase <= e.lineWidth && |bases| == e.length >= 1
    && e.offset + Loc(e.length - 1, e.lineBase, e.lineWidth) + 1 + (e.lineWidth - e.lineBase) <= |data|
    && forall p :: 0 <= p < e.length ==> Stored(data, e, bases, p)
  }

  /** Base p is the byte at offset + Loc(p). */
  predicate Stored(data: seq<uint8>, e: IndexEntry, bases: seq<uint8>, p: int)
    requires 1 <= e.lineBase <= e.lineWidth
  {
    0 <= p < |bases| && 0 <= e.offset && e.offset + Loc(p, e.lineBase, e.lineWidth) < |data|
    && data[e.offset + Loc(p, e.lineBase, e.lineWidth)] == bases[p]
  }

  /** The bytes the copy loop keeps from the first i bytes of the buffer,
      with the column starting at c0, and the column after them. */
  datatype Kept = Kept(bytes: seq<uint8>, col: int)

  function Keep(buffer: seq<uint8>, i: nat, b: int, w: int, c0: int): Kept
    requires i <= |buffer|
  {
    if i == 0 then Kept([], c0)
    else
      var k := Keep(buffer, i - 1, b, w, c0);
      Kept(if k.col < b then k.bytes + [buffer[i - 1]] else k.bytes, if k.col + 1 == w then 0 else k.col + 1)
  }

  /** The copy loop writes the kept bytes at the front of the result buffer
      and leaves the rest as it was, while they fit. */
  lemma {:induction false} CopyKeeps(buffer: seq<uint8>, i: nat, b: int, w: int, c0: int, fill: seq<uint8>)
    requires i <= |buffer| && |Keep(buffer, i, b, w, c0).bytes| <= |fill|
    ensures var k := Keep(buffer, i, b, w, c0);
      CopyLines(buffer, i, b, w, Copied(fill, 0, c0)) == Copied(k.bytes + fill[|k.bytes|..], |k.bytes|, k.col)
  {
    if i > 0 {
      var k := Keep(buffer, i - 1, b, w, c0);
      CopyKeeps(buffer, i - 1, b, w, c0, fill);
      if k.col < b {
        var n := |k.bytes|;
        assert |Keep(buffer, i, b, w, c0).bytes| == n + 1;
        assert (k.bytes + fill[n..])[n := buffer[i - 1]] == k.bytes + [buffer[i - 1]] + fill[n + 1..];
      }
    }
  }

  /** Over the bytes from base `start`'s byte on, the loop keeps the bases
      before relative byte r0 + i, and the column is that byte's. */
  lemma {:induction false} KeepBases(data: seq<uint8>, e: IndexEntry, bases: seq<uint8>,
                                     start: nat, buffer: seq<uint8>, i: nat, r0: nat)
    requires Laid(data, e, bases) && start < e.length && r0 == Loc(start, e.lineBase, e.lineWidth)
    requires e.offset + r0 + |buffer| <= |data| && buffer == data[e.offset + r0..e.offset + r0 + |buffer|]
    requires Before(r0 + |buffer|, e.lineBase, e.lineWidth) <= e.length
    requires i <= |buffer|
    ensures start <= Before(r0 + i, e.lineBase, e.lineWidth) <= e.length
    ensures Keep(buffer, i, e.lineBase, e.lineWidth, r0 % e.lineWidth)
            == Kept(bases[start..Before(r0 + i, e.lineBase, e.lineWidth)], (r0 + i) % e.lineWidth)
  {
    var b, w := e.lineBase, e.lineWidth;
    BeforeLoc(start, b, w);
    BeforeMono(r0, r0 + i, b, w);
    BeforeMono(r0 + i, r0 + |buffer|, b, w);
    if i > 0 {
      KeepBases(data, e, bases, start, buffer, i - 1, r0);
      var r := r0 + i - 1;
      var p := Before(r, b, w);
      BeforeStep(r, b, w);
      ModStep(r, w);
      if r % w < b {
        LocBefore(r, b, w);
        assert Stored(data, e, bases, p);
        assert buffer[i - 1] == bases[p];
        assert bases[start..p] + [bases[p]] == bases[start..p + 1];
      }
    }
  }

  /** Get returns exactly the bases [start, end) of a sequence laid out as its
      entry says, whatever the caches hold: the line terminators between them
      are skipped. */
  lemma GetReturnsBases(data: seq<uint8>, seqs: map<string, IndexEntry>, name: string, start: int, end: int,
                        bufOff: int, cached: int, stale: seq<uint8>, bases: seq<uint8>)
    requires CacheOk(data, bufOff, cached) && |data| < TWO_63
    requires name in seqs && Laid(data, seqs[name], bases)
    requires 0 <= start < end <= seqs[name].length
    ensures GetOf(data, seqs, name, start, end, bufOff, cached, stale) == Got(bases[start..end])
  {
    var e := seqs[name];
    var b, w := e.lineBase, e.lineWidth;
    var r0 := Loc(start, b, w);
    var cap := end - start + NewlinesToRead(start, end, b) * (w - b);
    Geometry(e, start, end);
    ReadIgnoresCache(data, bufOff, cached, e.offset + r0, cap);
    var buffer := data[e.offset + r0..e.offset + r0 + cap];
    assert ReadOf(data, bufOff, cached, WrapInt64(StartByte(e, start)), WrapInt64(ByteCount(e, start, end))) == ReadOk(buffer);
    LocDivMod(start, b, w);
    assert WrapUint64(StartByte(e, start) - e.offset) % w == r0 % w;
    var fill := Resized(stale, end - start);
    var init := Copied(fill, 0, WrapUint64(StartByte(e, start) - e.offset) % w);
    assert init == Copied(fill, 0, r0 % w);
    CopyAll(data, e, bases, start, end, buffer, fill, r0);
    assert CopyResult(buffer, b, w, fill, r0 % w) == Got(bases[start..end]);
    assert !(end - start >= TWO_63 || w <= 0);
  }

  lemma CopyAll(data: seq<uint8>, e: IndexEntry, bases: seq<uint8>,
                start: nat, end: nat, buffer: seq<uint8>, fill: seq<uint8>, r0: nat)
    requires Laid(data, e, bases) && start < end <= e.length && |fill| == end - start
    requires r0 == Loc(start, e.lineBase, e.lineWidth)
    requires e.offset + r0 + |buffer| <= |data| && buffer == data[e.offset + r0..e.offset + r0 + |buffer|]
    requires Before(r0 + |buffer|, e.lineBase, e.lineWidth) == end
    ensures CopyLines(buffer, |buffer|, e.lineBase, e.lineWidth, Copied(fill, 0, r0 % e.lineWidth)).Copied?
    ensures CopyLines(buffer, |buffer|, e.lineBase, e.lineWidth, Copied(fill, 0, r0 % e.lineWidth)).out
            == bases[start..end]
  {
    var b, w := e.lineBase, e.lineWidth;
    var c0 := r0 % w;
    KeepAll(data, e, bases, start, end, buffer, r0);
    var k := Keep(buffer, |buffer|, b, w, c0);
    CopyKeeps(buffer, |buffer|, b, w, c0, fill);
    assert k.bytes + fill[|k.bytes|..] == bases[start..end];
  }

  lemma KeepAll(data: seq<uint8>, e: IndexEntry, bases: seq<uint8>, start: nat, end: nat, buffer: seq<uint8>, r0: nat)
    requires Laid(data, e, bases) && start < end <= e.length && r0 == Loc(start, e.lineBase, e.lineWidth)
    requires e.offset + r0 + |buffer| <= |data| && buffer == data[e.offset + r0..e.offset + r0 + |buffer|]
    requires Before(r0 + |buffer|, e.lineBase, e.lineWidth) == end
    ensures Keep(buffer, |buffer|, e.lineBase, e.lineWidth, r0 % e.lineWidth).bytes == bases[start..end]
  {
    KeepBases(data, e, bases, start, buffer, |buffer|, r0);
  }

  /** Under the same layout Get fails exactly when the range is not a
      nonempty range of a sequence in the index. */
  lemma GetFailsIffOutOfRange(data: seq<uint8>, seqs: map<string, IndexEntry>, name: string, start: int, end: int,
                              bufOff: int, cached: int, stale: seq<uint8>)
    requires CacheOk(data, bufOff, cached) && |data| < TWO_63 && 0 <= start
    requires forall n :: n in seqs ==> exists bases :: Laid(data, seqs[n], bases)
    ensures GetOf(data, seqs, name, start, end, bufOff, cached, stale).Failed?
        <==> end <= start || name !in seqs || end > seqs[name].length
  {
    if start < end && name in seqs && end <= seqs[name].length {
      var bases :| Laid(data, seqs[name], bases);
      GetReturnsBases(data, seqs, name, start, end, bufOff, cached, stale, bases);
    }
  }

  // ---------------------------------------------------------------------
  // The read cache as written

  /** The cache as a value: the offset, the whole backing array and the
      slice's length. */
  datatype CacheState = CacheState(bufOff: int, arr: seq<uint8>, len: nat)

  /** read() as written: on a short read the array has already been resized
      and refilled from `off`, but the error returns before bufOff and the
      length are updated, so the cache claims the old window over new bytes. */
  function ReadAsWritten(data: seq<uint8>, c: CacheState, off: int, n: int): (ReadResult, CacheState)
    requires c.len <= |c.arr| && IsInt64(off) && IsInt64(n)
  {
    var limit := Int64Add(off, n);
    if off < c.bufOff || limit > c.bufOff + c.len then
      if off < 0 then (ReadErr(SeekFailed(off)), c)
      else
        var size := ReadSize(n);
        var arr := if |c.arr| < size then seq(size, _ => 0) else c.arr;
        var got := Min(size, Avail(data, off));
        var filled := Span(data, off, off + got) + arr[got..];
        if got < n then (ReadErr(UnexpectedEof), CacheState(c.bufOff, filled, size))
        else if limit < off then (ReadPanic, CacheState(off, filled, got))
        else (ReadOk(filled[..limit - off]), CacheState(off, filled, got))
    else if limit < off then (ReadPanic, c)
    else (ReadOk(c.arr[off - c.bufOff..limit - c.bufOff]), c)
  }

  /** A 100-byte file: read(0, 10) caches the whole file, read(50, 60) fails
      and overwrites the start of the cache with bytes 50..100, and the next
      read(0, 10) is a hit that returns bytes 50..60. */
  lemma ReadAsWrittenServesStaleBytes(data: seq<uint8>)
    requires |data| == 100 && data[0] != data[50]
    ensures var s1 := ReadAsWritten(data, CacheState(0, [], 0), 0, 10);
      var s2 := ReadAsWritten(data, s1.1, 50, 60);
      var s3 := ReadAsWritten(data, s2.1, 0, 10);
      s1.0 == ReadOk(data[..10]) && s2.0 == ReadErr(UnexpectedEof)
      && s3.0 == ReadOk(data[50..60]) && s3.0 != ReadOk(data[..10])
  {
    var zeros: seq<uint8> := seq(READ_BUFFER_SIZE, _ => 0);
    var a1 := data[0..100] + zeros[100..];
    var s1 := ReadAsWritten(data, CacheState(0, [], 0), 0, 10);
    assert s1 == (ReadOk(a1[..10]), CacheState(0, a1, 100));
    assert a1[..10] == data[..10];
    var a2 := data[50..100] + a1[50..];
    var s2 := ReadAsWritten(data, s1.1, 50, 60);
    assert s2 == (ReadErr(UnexpectedEof), CacheState(0, a2, READ_BUFFER_SIZE));
    var s3 := ReadAsWritten(data, s2.1, 0, 10);
    assert s3.0 == ReadOk(a2[0..10]);
    assert a2[0..10] == data[50..60];
    assert data[50..60][0] != data[..10][0];
  }

  // ---------------------------------------------------------------------
  // The indexed file

  class IndexedFasta {
    const data: seq<uint8>
    const seqs: map<string, IndexEntry>
    const seqNames: seq<string>
    var bufOff: int
    var buf: ByteSlice
    var resultBuf: ByteSlice

    /** The cache holds the file's bytes at [bufOff, bufOff + len(buf)), and
        the two buffers never share an array. */
    ghost predicate Valid()
      reads this, buf, buf.arr, resultBuf
    {
      buf.Valid() && resultBuf.Valid() && buf != resultBuf && buf.arr != resultBuf.arr
      && CacheOk(data, bufOff, buf.len)
      && forall k :: 0 <= k < buf.len ==> buf.arr[k] == data[bufOff + k]
    }

    constructor (data: seq<uint8>, seqs: map<string, IndexEntry>, seqNames: seq<string>)
      ensures Valid() && fresh(buf) && fresh(resultBuf)
      ensures this.data == data && this.seqs == seqs && this.seqNames == seqNames
      ensures bufOff == 0 && buf.len == 0
    {
      this.data := data;
      this.seqs := seqs;
      this.seqNames := seqNames;
      bufOff := 0;
      buf := new ByteSlice();
      resultBuf := new ByteSlice();
    }

    function SeqNames(): seq<string> { seqNames }

    /** Len: the entry's base count, or an error for a name not in the index. */
    function Len(name: string): (r: Result<int>)
      ensures r.Ok? <==> name in seqs
      ensures r.Ok? ==> r.value == seqs[name].length
      ensures r.Err? ==> r.msg == NOT_FOUND + name
    {
      if name in seqs then Ok(seqs[name].length) else Err(NOT_FOUND + name)
    }

    /** read(off, n), with bufOff and the length updated before the short-read
        check (see ReadAsWritten): the cache keeps holding file bytes, and the
        result is the one ReadOf gives for the cache on entry. */
    method Read(off: int, n: int) returns (r: ReadResult)
      requires Valid() && IsInt64(off) && IsInt64(n)
      modifies this, buf, buf.arr
      ensures Valid() && buf == old(buf) && resultBuf == old(resultBuf)
      ensures r == ReadOf(data, old(bufOff), old(buf.len), off, n)
    {
      var limit := Int64Add(off, n);
      if off < bufOff || limit > bufOff + buf.len {
        if off < 0 {
          return ReadErr(SeekFailed(off));
        }
        var bufSize := READ_BUFFER_SIZE;
        if bufSize < n {
          bufSize := n;
        }
        ResizeBuf(buf, bufSize);
        var bytesRead := Min(bufSize, Avail(data, off));
        forall k | 0 <= k < bytesRead {
          buf.arr[k] := data[off + k];
        }
        bufOff := off;
        buf.len := bytesRead;
        if bytesRead < n {
          return ReadErr(UnexpectedEof);
        }
      }
      if limit < off {
        return ReadPanic;
      }
      r := ReadOk(buf.arr[off - bufOff..limit - bufOff]);
      assert buf.arr[off - bufOff..limit - bufOff] == Span(data, off, limit);
    }

    /** Get(name, start, end): the result GetOf gives for the caches on entry;
        the caches keep holding file bytes. */
    method Get(name: string, start: int, end: int) returns (r: Fetched)
      requires Valid() && IsUint64(start) && IsUint64(end)
      modifies this, buf, buf.arr, resultBuf, resultBuf.arr
      ensures Valid()
      ensures r == GetOf(data, seqs, name, start, end, old(bufOff), old(buf.len), old(resultBuf.arr[..]))
    {
      if end <= start {
        return Failed(StartNotBeforeEnd);
      }
      if name !in seqs {
        return Failed(NotFound(name));
      }
      var ent := seqs[name];
      if end > ent.length {
        return Failed(PastEnd(name, ent.length));
      }
      if ent.lineBase <= 0 {
        return Panicked;
      }
      var charsPerNewline := WrapUint64(ent.lineWidth - ent.lineBase);
      var offset := WrapUint64(ent.offset + start + WrapUint64(charsPerNewline * (start / ent.lineBase)));
      var firstLineBases := ent.lineBase - start % ent.lineBase;
      var newlinesToRead := 0;
      if end - start > firstLineBases {
        newlinesToRead := 1 + (end - start - firstLineBases) / ent.lineBase;
      }
      var capacity := WrapUint64(end - start + WrapUint64(newlinesToRead * charsPerNewline));
      assert newlinesToRead == NewlinesToRead(start, end, ent.lineBase);
      assert offset == StartByte(ent, start) && capacity == ByteCount(ent, start, end);
      r := ReadAndCopy(ent, start, end, offset, capacity);
    }

    /** The second half of Get: reads the bytes of the range through the
        cache, resizes the result buffer and copies the bases into it. */
    method ReadAndCopy(ent: IndexEntry, start: int, end: int, offset: int, capacity: int) returns (r: Fetched)
      requires Valid() && start < end
      modifies this, buf, buf.arr, resultBuf, resultBuf.arr
      ensures Valid()
      ensures r == AfterRead(ReadOf(data, old(bufOff), old(buf.len), WrapInt64(offset), WrapInt64(capacity)),
                             ent, start, end, offset, old(resultBuf.arr[..]))
    {
      ghost var stale := resultBuf.arr[..];
      var res := Read(WrapInt64(offset), WrapInt64(capacity));
      if res.ReadErr? {
        return Failed(res.err);
      }
      if res.ReadPanic? {
        return Panicked;
      }
      var buffer := res.bytes;
      if end - start >= TWO_63 {
        return Panicked;
      }
      assert resultBuf.arr[..] == stale;
      ResizeBuf(resultBuf, end - start);
      assert resultBuf.Contents() == Resized(stale, end - start) by {
        if |stale| >= end - start {
          assert old(resultBuf.arr[..])[..end - start] == resultBuf.Contents();
        }
      }
      if ent.lineWidth <= 0 {
        return Panicked;
      }
      var linePos := WrapUint64(offset - ent.offset) % ent.lineWidth;
      ghost var fill := resultBuf.Contents();
      r := CopyBases(buffer, ent.lineBase, ent.lineWidth, linePos);
      assert r == CopyResult(buffer, ent.lineBase, ent.lineWidth, fill, linePos);
    }

    /** Get's copy loop: walks the bytes read and writes those whose column
        is below lineBase into the result buffer; false where Go panics on
        an index out of range. */
    method CopyBases(buffer: seq<uint8>, lineBase: int, lineWidth: int, linePos: int) returns (r: Fetched)
      requires resultBuf.Valid()
      modifies resultBuf.arr
      ensures resultBuf.Valid()
      ensures r == CopyResult(buffer, lineBase, lineWidth, old(resultBuf.Contents()), linePos)
    {
      ghost var init := Copied(resultBuf.Contents(), 0, linePos);
      var resultPos := 0;
      var linePos := linePos;
      var i := 0;
      while i < |buffer|
        invariant 0 <= i <= |buffer| && resultBuf.Valid()
        invariant CopyLines(buffer, i, lineBase, lineWidth, init) == Copied(resultBuf.Contents(), resultPos, linePos)
      {
        if linePos < lineBase {
          if resultPos >= resultBuf.len {
            PanicStays(buffer, i + 1, lineBase, lineWidth, init);
            return Panicked;
          }
          resultBuf.arr[resultPos] := buffer[i];
          resultPos := resultPos + 1;
        }
        linePos := linePos + 1;
        if linePos == lineWidth {
          linePos := 0;
        }
        i := i + 1;
      }
      r := Got(resultBuf.Contents());
    }
  }

  /** Once the copy loop has panicked it stays panicked. */
  lemma {:induction false} PanicStays(buffer: seq<uint8>, i: nat, b: int, w: int, init: Copy)
    requires i <= |buffer| && CopyLines(buffer, i, b, w, init).CopyPanicked?
    ensures CopyLines(buffer, |buffer|, b, w, init).CopyPanicked?
    decreases |buffer| - i
  {
    if i < |buffer| {
      PanicStays(buffer, i + 1, b, w, init);
    }
  }

  // ---------------------------------------------------------------------
  // Building the index

  /** NewIndexed: every line must match; the map takes each line's entry (a
      later line with the same name wins), the names are kept in line order
      and then stably sorted by offset. */
  method NewIndexed(data: seq<uint8>, lines: seq<IndexLine>) returns (f: IndexedFasta?, err: Option<string>)
    ensures err.None? <==> forall j :: 0 <= j < |lines| ==> lines[j].Matched?
    ensures err.Some? ==> f == null && exists j :: (0 <= j < |lines| && lines[j].Unmatched?
      && err.value == INVALID_LINE + lines[j].text && forall k :: 0 <= k < j ==> lines[k].Matched?)
    ensures err.None? ==> (f != null && fresh(f) && f.Valid() && f.data == data
      && f.seqs == SeqsOf(lines) && f.seqNames == SortByOffset(NamesOf(lines), SeqsOf(lines)))
  {
    var seqs := map[];
    var seqNames := [];
    var i := 0;
    while i < |lines|
      invariant 0 <= i <= |lines|
      invariant forall k :: 0 <= k < i ==> lines[k].Matched?
      invariant seqs == SeqsOf(lines[..i]) && seqNames == NamesOf(lines[..i])
    {
      assert lines[..i + 1][..i] == lines[..i];
      match lines[i]
      case Unmatched(text) =>
        return null, Some(INVALID_LINE + text);
      case Matched(name, ent) =>
        seqs := seqs[name := ent];
        seqNames := seqNames + [name];
      i := i + 1;
    }
    assert lines[..i] == lines;
    f := new IndexedFasta(data, seqs, SortByOffset(seqNames, seqs));
    err := None;
  }

  /** FaiToReferenceLengths: the base count of every sequence in the index,
      or the index's error. */
  method FaiToReferenceLengths(lines: seq<IndexLine>) returns (r: Result<map<string, int>>)
    ensures r.Ok? <==> forall j :: 0 <= j < |lines| ==> lines[j].Matched?
    ensures r.Err? ==> exists j :: 0 <= j < |lines| && lines[j].Unmatched? && r.msg == INVALID_LINE + lines[j].text
    ensures r.Ok? ==> forall n :: n in r.value <==> n in SeqsOf(lines)
    ensures r.Ok? ==> forall n :: n in r.value ==> r.value[n] == SeqsOf(lines)[n].length
  {
    var f, err := NewIndexed([], lines);
    if err.Some? {
      return Err(err.value);
    }
    SortKeepsNames(NamesOf(lines), SeqsOf(lines));
    NamesAreKeys(lines);
    var names := f.SeqNames();
    var lengths := map[];
    var i := 0;
    while i < |names|
      invariant 0 <= i <= |names|
      invariant forall n :: n in lengths <==> n in names[..i]
      invariant forall n :: n in lengths ==> n in f.seqs && lengths[n] == f.seqs[n].length
    {
      assert names[..i + 1] == names[..i] + [names[i]];
      var refLength := f.Len(names[i]);
      if refLength.Err? {
        assert false;
      }
      lengths := lengths[names[i] := refLength.value];
      i := i + 1;
    }
    assert names[..i] == names;
    r := Ok(lengths);
  }

  // ---------------------------------------------------------------------
  // Properties of the index

  /** The names are exactly the map's keys. */
  lemma {:induction false} NamesAreKeys(lines: seq<IndexLine>)
    ensures forall n :: n in NamesOf(lines) <==> n in SeqsOf(lines)
  {
    if lines != [] {
      NamesAreKeys(lines[..|lines| - 1]);
    }
  }

  /** The entry of a name is the one on its last line. */
  lemma {:induction false} LastLineWins(lines: seq<IndexLine>, j: nat)
    requires j < |lines| && lines[j].Matched?
    requires forall k :: j < k < |lines| ==> !(lines[k].Matched? && lines[k].name == lines[j].name)
    ensures lines[j].name in SeqsOf(lines) && SeqsOf(lines)[lines[j].name] == lines[j].entry
  {
    var last := |lines| - 1;
    if j < last {
      var init := lines[..last];
      assert forall k :: j < k < |init| ==> init[k] == lines[k];
      LastLineWins(init, j);
    }
  }

  lemma {:induction false} InsertPerm(x: string, s: seq<string>, seqs: map<string, IndexEntry>)
    ensures multiset(Insert(x, s, seqs)) == multiset(s) + multiset{x}
  {
    if s != [] && OffsetOf(seqs, x) >= OffsetOf(seqs, s[0]) {
      InsertPerm(x, s[1..], seqs);
      assert s == [s[0]] + s[1..];
    }
  }

  lemma {:induction false} InsertSorted(x: string, s: seq<string>, seqs: map<string, IndexEntry>)
    requires SortedByOffset(s, seqs)
    ensures SortedByOffset(Insert(x, s, seqs), seqs)
    ensures |Insert(x, s, seqs)| > 0
    ensures Insert(x, s, seqs)[0] == x || (s != [] && Insert(x, s, seqs)[0] == s[0])
  {
    if s != [] && OffsetOf(seqs, x) >= OffsetOf(seqs, s[0]) {
      InsertSorted(x, s[1..], seqs);
      var t := Insert(x, s[1..], seqs);
      assert OffsetOf(seqs, s[0]) <= OffsetOf(seqs, t[0]) by {
        if t[0] != x {
          assert t[0] == s[1];
        }
      }
      ConsSorted(s[0], t, seqs);
    }
  }

  lemma ConsSorted(x: string, t: seq<string>, seqs: map<string, IndexEntry>)
    requires SortedByOffset(t, seqs) && t != [] && OffsetOf(seqs, x) <= OffsetOf(seqs, t[0])
    ensures SortedByOffset([x] + t, seqs)
  {
    forall i, j | 0 <= i < j < |[x] + t|
      ensures OffsetOf(seqs, ([x] + t)[i]) <= OffsetOf(seqs, ([x] + t)[j])
    {
      if i == 0 {
        assert OffsetOf(seqs, t[0]) <= OffsetOf(seqs, t[j - 1]) || j == 1;
      }
    }
  }

  /** The names come out sorted by offset. */
  lemma {:induction false} SortSorted(names: seq<string>, seqs: map<string, IndexEntry>)
    ensures SortedByOffset(SortByOffset(names, seqs), seqs)
  {
    if names != [] {
      SortSorted(names[..|names| - 1], seqs);
      InsertSorted(names[|names| - 1], SortByOffset(names[..|names| - 1], seqs), seqs);
    }
  }

  /** The sort is a permutation of the names. */
  lemma {:induction false} SortPerm(names: seq<string>, seqs: map<string, IndexEntry>)
    ensures multiset(SortByOffset(names, seqs)) == multiset(names)
  {
    if names != [] {
      var init := names[..|names| - 1];
      SortPerm(init, seqs);
      InsertPerm(names[|names| - 1], SortByOffset(init, seqs), seqs);
      assert names == init + [names[|names| - 1]];
    }
  }

  lemma SortKeepsNames(names: seq<string>, seqs: map<string, IndexEntry>)
    ensures forall n :: n in SortByOffset(names, seqs) <==> n in names
  {
    SortPerm(names, seqs);
    forall n
      ensures n in SortByOffset(names, seqs) <==> n in names
    {
      assert n in SortByOffset(names, seqs) <==> n in multiset(SortByOffset(names, seqs));
      assert n in names <==> n in multiset(names);
    }
  }

  lemma {:induction false} AtOffsetAppend(s: seq<string>, t: seq<string>, seqs: map<string, IndexEntry>, v: int)
    ensures AtOffset(s + t, seqs, v) == AtOffset(s, seqs, v) + AtOffset(t, seqs, v)
  {
    if s != [] {
      AtOffsetAppend(s[1..], t, seqs, v);
      assert (s + t)[1..] == s[1..] + t;
    } else {
      assert s + t == t;
    }
  }

  /** A sorted list whose first offset is above v has no name at v. */
  lemma {:induction false} AtOffsetAbove(s: seq<string>, seqs: map<string, IndexEntry>, v: int)
    requires SortedByOffset(s, seqs) && s != [] && v < OffsetOf(seqs, s[0])
    ensures AtOffset(s, seqs, v) == []
  {
    if |s| > 1 {
      AtOffsetAbove(s[1..], seqs, v);
    }
  }

  /** Inserting into a sorted list puts x after the names at its offset. */
  lemma {:induction false} InsertStable(x: string, s: seq<string>, seqs: map<string, IndexEntry>, v: int)
    requires SortedByOffset(s, seqs)
    ensures AtOffset(Insert(x, s, seqs), seqs, v) == AtOffset(s + [x], seqs, v)
  {
    AtOffsetAppend(s, [x], seqs, v);
    if s == [] {
    } else if OffsetOf(seqs, x) < OffsetOf(seqs, s[0]) {
      AtOffsetAppend([x], s, seqs, v);
      if OffsetOf(seqs, x) == v {
        AtOffsetAbove(s, seqs, v);
      }
    } else {
      InsertStable(x, s[1..], seqs, v);
      AtOffsetAppend(s[1..], [x], seqs, v);
      assert ([s[0]] + Insert(x, s[1..], seqs))[1..] == Insert(x, s[1..], seqs);
    }
  }

  /** The sort is stable: the names at each offset keep their order. Being
      sorted and stable, it is the order sort.SliceStable produces. */
  lemma {:induction false} SortStable(names: seq<string>, seqs: map<string, IndexEntry>, v: int)
    ensures AtOffset(SortByOffset(names, seqs), seqs, v) == AtOffset(names, seqs, v)
  {
    if names != [] {
      var init, x := names[..|names| - 1], names[|names| - 1];
      SortStable(init, seqs, v);
      SortSorted(init, seqs);
      InsertStable(x, SortByOffset(init, seqs), seqs, v);
      AtOffsetAppend(SortByOffset(init, seqs), [x], seqs, v);
      AtOffsetAppend(init, [x], seqs, v);
      assert names == init + [x];
    }
  }
}
