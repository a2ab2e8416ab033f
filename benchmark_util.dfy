/** The pure helpers of the fusion benchmark scripts
    (fusion/benchmark/util.py): the log timestamp, the run statistics
    gathered from a run's INFO log, Bazel labels and the sample names used in
    the paper. A log line arrives as the regular expressions it matches and
    their captured numbers. */
module BenchmarkUtil {
  import opened Wrappers
  import opened Ints
  import opened PyStrings

  // ---------------------------------------------------------------------
  // parse_time

  /** The hour, minute, second and microsecond captured from a timestamp. */
  datatype Clock = Clock(h: nat, m: nat, s: nat, us: nat)

  predicate ClockOk(c: Clock) { c.m < 60 && c.s < 60 && c.us < 1_000_000 }

  /** Hours, then minutes, seconds and microseconds. */
  predicate ClockLess(a: Clock, b: Clock) {
    a.h < b.h
    || (a.h == b.h && (a.m < b.m
    || (a.m == b.m && (a.s < b.s
    || (a.s == b.s && a.us < b.us)))))
  }

  /** parse_time, in microseconds since midnight. */
  function ParseTime(c: Clock): nat {
    ((c.h * 60 + c.m) * 60 + c.s) * 1_000_000 + c.us
  }

  /** A time within its ranges can be read back from its microseconds. */
  lemma ParseTimeRoundTrip(c: Clock)
    requires ClockOk(c)
    ensures ParseTime(c) % 1_000_000 == c.us
    ensures ParseTime(c) / 1_000_000 % 60 == c.s
    ensures ParseTime(c) / 60_000_000 % 60 == c.m
    ensures ParseTime(c) / 3_600_000_000 == c.h
  {
    var t := ParseTime(c);
    DivModUnique(t, 1_000_000, (c.h * 60 + c.m) * 60 + c.s, c.us);
    DivModUnique(t / 1_000_000, 60, c.h * 60 + c.m, c.s);
    DivModUnique(t, 60_000_000, c.h * 60 + c.m, c.s * 1_000_000 + c.us);
    DivModUnique(t / 60_000_000, 60, c.h, c.m);
    DivModUnique(t, 3_600_000_000, c.h, (c.m * 60 + c.s) * 1_000_000 + c.us);
  }

  /** Within their ranges, later times give larger values. */
  lemma ParseTimeOrder(a: Clock, b: Clock)
    requires ClockOk(a) && ClockOk(b)
    ensures ParseTime(a) < ParseTime(b) <==> ClockLess(a, b)
  {
    if ClockLess(a, b) {
      ClockLessTime(a, b);
    } else if ClockLess(b, a) {
      ClockLessTime(b, a);
    } else {
      assert a == b;
    }
  }

  lemma ClockLessTime(a: Clock, b: Clock)
    requires ClockOk(a) && ClockOk(b) && ClockLess(a, b)
    ensures ParseTime(a) < ParseTime(b)
  {
    var x := (a.h * 60 + a.m) * 60 + a.s;
    var y := (b.h * 60 + b.m) * 60 + b.s;
    assert a.h * 60 + a.m < b.h * 60 + b.m || (a.h * 60 + a.m == b.h * 60 + b.m && a.s < b.s)
      || (x == y && a.us < b.us);
    assert x < y || (x == y && a.us < b.us);
  }

  // ---------------------------------------------------------------------
  // run_stats

  /** The three numbers of the line reporting the low-complexity and close
      proximity filters. */
  datatype Removal = Removal(remaining: nat, lowComplexity: nat, closeProximity: nat)

  /** The numbers of the line dumping fusion.Stats. */
  datatype StatsDump = StatsDump(genes: nat, fragments: nat, matches: seq<nat>)

  /** A line of the INFO log: for each pattern run_stats tries, what it
      captured, or None where the pattern does not match. */
  datatype LogLine = LogLine(
    startReading: Option<Clock>,
    allDone: Option<Clock>,
    processed: Option<nat>,
    startingFiltering: Option<nat>,
    afterStage1: Option<nat>,
    removal: Option<Removal>,
    afterDuplicates: Option<nat>,
    afterMinSpan: Option<nat>,
    wrote: Option<nat>,
    finalCandidates: Option<nat>,
    statsDump: Option<StatsDump>)

  /** The variables of run_stats's loop. Times are in microseconds. */
  datatype Acc = Acc(
    startTime: int, endTime: int, fragments: int,
    allCandidates: int, lowComplexity: int, closeProximity: int,
    afterCloseProximity: int, afterDuplicates: int, afterMinSpan: int,
    finalCandidates: int, fragments2: int, genes: int, fragmentMatches: seq<int>)

  const UNSET := -9999999
  const UNSET_SHORT := -999999

  /** The values before the first line. */
  const INITIAL := Acc(0, 0, 0, UNSET, UNSET, UNSET, UNSET, UNSET, UNSET, UNSET, UNSET_SHORT, UNSET_SHORT, [])

  /** The value a variable gets from a pattern's match, if any. */
  function Update(x: int, m: Option<int>): int {
    if m.Some? then m.value else x
  }

  /** The count of a "Processed" line, 0 on other lines. */
  function Processed(l: LogLine): nat {
    if l.processed.Some? then l.processed.value else 0
  }

  /** The loop body on one line. */
  function Step(a: Acc, l: LogLine): Acc {
    Acc(Update(a.startTime, Matched(l, StartTime)),
        Update(a.endTime, Matched(l, EndTime)),
        a.fragments + Processed(l),
        Update(a.allCandidates, Matched(l, AllCandidates)),
        Update(a.lowComplexity, Matched(l, LowComplexity)),
        Update(a.closeProximity, Matched(l, CloseProximity)),
        Update(a.afterCloseProximity, Matched(l, AfterCloseProximity)),
        Update(a.afterDuplicates, Matched(l, AfterDuplicates)),
        Update(a.afterMinSpan, Matched(l, AfterMinSpan)),
        Update(a.finalCandidates, Matched(l, FinalCandidates)),
        Update(a.fragments2, Matched(l, Fragments2)),
        Update(a.genes, Matched(l, Genes)),
        if l.statsDump.Some? then l.statsDump.value.matches else a.fragmentMatches)
  }

  /** The loop body written pattern by pattern, as the source tries them. */
  lemma StepByPattern(a: Acc, l: LogLine)
    ensures Step(a, l).startTime == if l.startReading.Some? then ParseTime(l.startReading.value) else a.startTime
    ensures Step(a, l).endTime == if l.allDone.Some? then ParseTime(l.allDone.value) else a.endTime
    ensures Step(a, l).fragments == if l.processed.Some? then a.fragments + l.processed.value else a.fragments
    ensures Step(a, l).allCandidates ==
      if l.afterStage1.Some? then l.afterStage1.value
      else if l.startingFiltering.Some? then l.startingFiltering.value else a.allCandidates
    ensures Step(a, l).afterCloseProximity == if l.removal.Some? then l.removal.value.remaining else a.afterCloseProximity
    ensures Step(a, l).lowComplexity == if l.removal.Some? then l.removal.value.lowComplexity else a.lowComplexity
    ensures Step(a, l).closeProximity == if l.removal.Some? then l.removal.value.closeProximity else a.closeProximity
    ensures Step(a, l).afterDuplicates == if l.afterDuplicates.Some? then l.afterDuplicates.value else a.afterDuplicates
    ensures Step(a, l).afterMinSpan == if l.afterMinSpan.Some? then l.afterMinSpan.value else a.afterMinSpan
    ensures Step(a, l).finalCandidates ==
      if l.finalCandidates.Some? then l.finalCandidates.value
      else if l.wrote.Some? then l.wrote.value else a.finalCandidates
    ensures Step(a, l).genes == if l.statsDump.Some? then l.statsDump.value.genes else a.genes
    ensures Step(a, l).fragments2 == if l.statsDump.Some? then l.statsDump.value.fragments else a.fragments2
    ensures Step(a, l).fragmentMatches == if l.statsDump.Some? then l.statsDump.value.matches else a.fragmentMatches
  {
  }

  /** The variables after the given lines. */
  function AccOf(lines: seq<LogLine>): Acc {
    if lines == [] then INITIAL else Step(AccOf(lines[..|lines| - 1]), lines[|lines| - 1])
  }

  /** The statistics of a run; the duration is in microseconds. */
  datatype RunStats = RunStats(
    duration: int, nFragments: int, allCandidates: int,
    lowComplexitySubstring: int, closeProximity: int, duplicates: int,
    minSpan: int, abundantPartners: int, finalCandidates: int,
    nGenes: int, nFragmentMatches: seq<int>)

  /** The record returned. The candidates removed as duplicates, by minimum
      span and for abundant partners, and the final ones, add up to those
      left after the close-proximity filter. */
  function Report(a: Acc): (r: RunStats)
    ensures r.duplicates + r.minSpan + r.abundantPartners + r.finalCandidates == a.afterCloseProximity
    ensures r.duration == a.endTime - a.startTime && r.nFragments == a.fragments
  {
    RunStats(a.endTime - a.startTime, a.fragments, a.allCandidates, a.lowComplexity, a.closeProximity,
             a.afterCloseProximity - a.afterDuplicates, a.afterDuplicates - a.afterMinSpan,
             a.afterMinSpan - a.finalCandidates, a.finalCandidates, a.genes, a.fragmentMatches)
  }

  /** run_stats over the INFO files found in the directory, each given by
      its lines: anything but exactly one is an error. */
  function RunStatsOf(infoFiles: seq<seq<LogLine>>): (r: Result<RunStats>)
    ensures r.Ok? <==> |infoFiles| == 1
  {
    if |infoFiles| != 1 then Err("No INFO file found")
    else Ok(Report(AccOf(infoFiles[0])))
  }

  /** run_stats: the loop over the lines with its variables. */
  method ReadRunStats(infoFiles: seq<seq<LogLine>>) returns (r: Result<RunStats>)
    ensures r == RunStatsOf(infoFiles)
  {
    if |infoFiles| != 1 {
      return Err("No INFO file found");
    }
    var lines := infoFiles[0];
    var startTime: int, endTime: int, nFragments: int := 0, 0, 0;
    var allCandidates: int, lowComplexity: int, closeProximity: int := UNSET, UNSET, UNSET;
    var afterCloseProximity: int, afterDuplicates: int, afterMinSpan: int := UNSET, UNSET, UNSET;
    var finalCandidates: int, nFragments2: int, nGenes: int := UNSET, UNSET_SHORT, UNSET_SHORT;
    var nFragmentMatches: seq<int> := [];
    var i := 0;
    ghost var acc := INITIAL;
    while i < |lines|
      invariant 0 <= i <= |lines|
      invariant acc == AccOf(lines[..i])
      invariant acc == Acc(startTime, endTime, nFragments, allCandidates, lowComplexity,
        closeProximity, afterCloseProximity, afterDuplicates, afterMinSpan, finalCandidates,
        nFragments2, nGenes, nFragmentMatches)
    {
      assert lines[..i + 1][..i] == lines[..i];
      var l := lines[i];
      ghost var next := Step(acc, l);
      StepByPattern(acc, l);
      if l.startReading.Some? {
        startTime := ParseTime(l.startReading.value);
      }
      assert startTime == next.startTime;
      if l.allDone.Some? {
        endTime := ParseTime(l.allDone.value);
      }
      assert endTime == next.endTime;
      if l.processed.Some? {
        nFragments := nFragments + l.processed.value;
      }
      assert nFragments == next.fragments;
      if l.startingFiltering.Some? {
        allCandidates := l.startingFiltering.value;
      }
      if l.afterStage1.Some? {
        allCandidates := l.afterStage1.value;
      }
      assert allCandidates == next.allCandidates;
      if l.removal.Some? {
        afterCloseProximity := l.removal.value.remaining;
        lowComplexity := l.removal.value.lowComplexity;
        closeProximity := l.removal.value.closeProximity;
      }
      assert afterCloseProximity == next.afterCloseProximity && lowComplexity == next.lowComplexity
        && closeProximity == next.closeProximity;
      if l.afterDuplicates.Some? {
        afterDuplicates := l.afterDuplicates.value;
      }
      assert afterDuplicates == next.afterDuplicates;
      if l.afterMinSpan.Some? {
        afterMinSpan := l.afterMinSpan.value;
      }
      assert afterMinSpan == next.afterMinSpan;
      if l.wrote.Some? {
        finalCandidates := l.wrote.value;
      }
      if l.finalCandidates.Some? {
        finalCandidates := l.finalCandidates.value;
      }
      assert finalCandidates == next.finalCandidates;
      if l.statsDump.Some? {
        nGenes := l.statsDump.value.genes;
        nFragments2 := l.statsDump.value.fragments;
        nFragmentMatches := l.statsDump.value.matches;
      }
      assert nFragments2 == next.fragments2 && nGenes == next.genes && nFragmentMatches == next.fragmentMatches;
      acc := next;
      i := i + 1;
    }
    assert lines[..i] == lines;
    assert acc == AccOf(lines);
    var stats := RunStats(endTime - startTime, nFragments, allCandidates, lowComplexity, closeProximity,
                          afterCloseProximity - afterDuplicates, afterDuplicates - afterMinSpan,
                          afterMinSpan - finalCandidates, finalCandidates, nGenes, nFragmentMatches);
    assert stats == Report(acc);
    assert RunStatsOf(infoFiles) == Ok(Report(acc));
    return Ok(stats);
  }

  /** The reads counted by the "Processed" lines, first line first. */
  function ProcessedTotal(lines: seq<LogLine>): int {
    if lines == [] then 0
    else (if lines[0].processed.Some? then lines[0].processed.value else 0) + ProcessedTotal(lines[1..])
  }

  lemma {:induction false} ProcessedTotalSnoc(lines: seq<LogLine>, l: LogLine)
    ensures ProcessedTotal(lines + [l]) == ProcessedTotal(lines) + (if l.processed.Some? then l.processed.value else 0)
  {
    if lines != [] {
      assert (lines + [l])[1..] == lines[1..] + [l];
      ProcessedTotalSnoc(lines[1..], l);
    }
  }

  /** n_fragments is the sum of the counts of every "Processed" line. */
  lemma {:induction false} FragmentsAreProcessedTotal(lines: seq<LogLine>)
    ensures AccOf(lines).fragments == ProcessedTotal(lines)
  {
    if lines != [] {
      var front := lines[..|lines| - 1];
      FragmentsAreProcessedTotal(front);
      ProcessedTotalSnoc(front, lines[|lines| - 1]);
      assert front + [lines[|lines| - 1]] == lines;
    }
  }

  /** The fields a later matching line overwrites. */
  datatype Field = StartTime | EndTime | AllCandidates | LowComplexity | CloseProximity
                 | AfterCloseProximity | AfterDuplicates | AfterMinSpan | FinalCandidates
                 | Fragments2 | Genes

  function Get(a: Acc, f: Field): int {
    match f
    case StartTime => a.startTime
    case EndTime => a.endTime
    case AllCandidates => a.allCandidates
    case LowComplexity => a.lowComplexity
    case CloseProximity => a.closeProximity
    case AfterCloseProximity => a.afterCloseProximity
    case AfterDuplicates => a.afterDuplicates
    case AfterMinSpan => a.afterMinSpan
    case FinalCandidates => a.finalCandidates
    case Fragments2 => a.fragments2
    case Genes => a.genes
  }

  /** What a line sets the field to, if it sets it. Of two patterns setting
      the same field, the one tried later wins. */
  function Matched(l: LogLine, f: Field): Option<int> {
    match f
    case StartTime => if l.startReading.Some? then Some(ParseTime(l.startReading.value)) else None
    case EndTime => if l.allDone.Some? then Some(ParseTime(l.allDone.value)) else None
    case AllCandidates =>
      if l.afterStage1.Some? then Some(l.afterStage1.value)
      else if l.startingFiltering.Some? then Some(l.startingFiltering.value) else None
    case LowComplexity => if l.removal.Some? then Some(l.removal.value.lowComplexity) else None
    case CloseProximity => if l.removal.Some? then Some(l.removal.value.closeProximity) else None
    case AfterCloseProximity => if l.removal.Some? then Some(l.removal.value.remaining) else None
    case AfterDuplicates => if l.afterDuplicates.Some? then Some(l.afterDuplicates.value) else None
    case AfterMinSpan => if l.afterMinSpan.Some? then Some(l.afterMinSpan.value) else None
    case FinalCandidates =>
      if l.finalCandidates.Some? then Some(l.finalCandidates.value)
      else if l.wrote.Some? then Some(l.wrote.value) else None
    case Fragments2 => if l.statsDump.Some? then Some(l.statsDump.value.fragments) else None
    case Genes => if l.statsDump.Some? then Some(l.statsDump.value.genes) else None
  }

  /** One line sets exactly what it matched and keeps the rest. */
  lemma StepField(a: Acc, l: LogLine, f: Field)
    ensures Get(Step(a, l), f) == (if Matched(l, f).Some? then Matched(l, f).value else Get(a, f))
  {
  }

  /** No line matches a pattern setting the field. */
  predicate NoMatch(lines: seq<LogLine>, f: Field) {
    forall i :: 0 <= i < |lines| ==> Matched(lines[i], f).None?
  }

  /** Line i is the last one matching a pattern setting the field. */
  predicate LastMatchAt(lines: seq<LogLine>, f: Field, i: int) {
    0 <= i < |lines| && Matched(lines[i], f).Some? && forall j :: i < j < |lines| ==> Matched(lines[j], f).None?
  }

  /** A variable overwritten by the matches in order. */
  function Overwritten(init: int, ms: seq<Option<int>>): int {
    if ms == [] then init else Update(Overwritten(init, ms[..|ms| - 1]), ms[|ms| - 1])
  }

  /** The last match decides, or the initial value without one. */
  lemma {:induction false} OverwrittenByLast(init: int, ms: seq<Option<int>>)
    ensures (forall i :: 0 <= i < |ms| ==> ms[i].None?) ==> Overwritten(init, ms) == init
    ensures forall i :: (0 <= i < |ms| && ms[i].Some? && forall j :: i < j < |ms| ==> ms[j].None?) ==>
      Overwritten(init, ms) == ms[i].value
  {
    if ms != [] {
      var front := ms[..|ms| - 1];
      OverwrittenByLast(init, front);
      assert forall i :: 0 <= i < |front| ==> front[i] == ms[i];
    }
  }

  /** What each line sets the field to. */
  function MatchesOf(lines: seq<LogLine>, f: Field): (ms: seq<Option<int>>)
    ensures |ms| == |lines| && forall i :: 0 <= i < |lines| ==> ms[i] == Matched(lines[i], f)
  {
    seq(|lines|, i requires 0 <= i < |lines| => Matched(lines[i], f))
  }

  /** Each overwritten field is its initial value overwritten by the lines'
      matches in order. */
  lemma {:induction false} FieldOverwritten(lines: seq<LogLine>, f: Field)
    ensures Get(AccOf(lines), f) == Overwritten(Get(INITIAL, f), MatchesOf(lines, f))
  {
    if lines != [] {
      var front := lines[..|lines| - 1];
      FieldOverwritten(front, f);
      StepField(AccOf(front), lines[|lines| - 1], f);
      assert MatchesOf(lines, f)[..|lines| - 1] == MatchesOf(front, f);
    }
  }

  /** For every overwritten field, the last line that matched decides its
      value, and with no matching line the field keeps its initial value
      (0 for the times, -9999999 or -999999 for the counts). */
  lemma LastMatchWins(lines: seq<LogLine>, f: Field)
    ensures NoMatch(lines, f) ==> Get(AccOf(lines), f) == Get(INITIAL, f)
    ensures forall i :: LastMatchAt(lines, f, i) ==> Get(AccOf(lines), f) == Matched(lines[i], f).value
  {
    FieldOverwritten(lines, f);
    OverwrittenByLast(Get(INITIAL, f), MatchesOf(lines, f));
  }

  /** No line dumps fusion.Stats. */
  predicate NoDump(lines: seq<LogLine>) {
    forall i :: 0 <= i < |lines| ==> lines[i].statsDump.None?
  }

  /** Line i is the last one dumping fusion.Stats. */
  predicate LastDumpAt(lines: seq<LogLine>, i: int) {
    0 <= i < |lines| && lines[i].statsDump.Some? && forall j :: i < j < |lines| ==> lines[j].statsDump.None?
  }

  /** The fragment-match counts are those of the last "Stats" dump, or empty
      without one. */
  lemma {:induction false} LastDumpWins(lines: seq<LogLine>)
    ensures NoDump(lines) ==> AccOf(lines).fragmentMatches == []
    ensures forall i :: LastDumpAt(lines, i) ==> AccOf(lines).fragmentMatches == lines[i].statsDump.value.matches
  {
    if lines != [] {
      var n := |lines|;
      var front := lines[..n - 1];
      LastDumpWins(front);
      if NoDump(lines) {
        assert NoDump(front) by {
          forall i | 0 <= i < n - 1 ensures front[i].statsDump.None? { assert front[i] == lines[i]; }
        }
      }
      forall i | LastDumpAt(lines, i)
        ensures AccOf(lines).fragmentMatches == lines[i].statsDump.value.matches
      {
        if i < n - 1 {
          assert front[i] == lines[i];
          assert LastDumpAt(front, i) by {
            forall j | i < j < n - 1 ensures front[j].statsDump.None? { assert front[j] == lines[j]; }
          }
        }
      }
    }
  }

  // ---------------------------------------------------------------------
  // parse_bazel_label

  /** A label's parts: the label in "package:target" form, whether the
      package is absolute, the package and the target. */
  datatype BazelLabel = BazelLabel(text: string, absolute: bool, package: string, target: string)

  /** The index of the first `c` in `s`, or |s|. */
  function IndexOf(s: string, c: char): (k: nat)
    ensures k <= |s|
    ensures forall i :: 0 <= i < k ==> s[i] != c
    ensures k < |s| ==> s[k] == c
  {
    if s == [] || s[0] == c then 0 else 1 + IndexOf(s[1..], c)
  }

  /** re.match('([^:]+):(.*)$', label): a nonempty colon-free prefix and a
      colon, then a rest whose only line break, if any, is the last
      character (`.` stops at a line break, and `$` matches at the end or
      just before a final line break). Gives the prefix and the rest up to
      the line break. */
  function ColonMatch(text: string): Option<(string, string)> {
    var k := IndexOf(text, ':');
    if k == 0 || k == |text| then None
    else
      var rest := text[k + 1..];
      var e := IndexOf(rest, '\n');
      if e == |rest| || e == |rest| - 1 then Some((text[..k], rest[..e])) else None
  }

  /** The index of the last `c` in `s`, or |s| when there is none. */
  function LastIndexOf(s: string, c: char): (k: nat)
    ensures k <= |s|
    ensures k < |s| ==> s[k] == c && forall i :: k < i < |s| ==> s[i] != c
    ensures k == |s| ==> forall i :: 0 <= i < |s| ==> s[i] != c
  {
    if s == [] then 0
    else if s[|s| - 1] == c then |s| - 1
    else
      var k := LastIndexOf(s[..|s| - 1], c);
      if k == |s| - 1 then |s| else k
  }

  /** re.match('([^:]+)/([^/]+)$', label): a nonempty colon-free prefix, a
      slash and a nonempty slash-free rest, so the slash is the last one
      (`[^/]` takes line breaks too, so `$` meets the end of the label).
      Gives the whole match and the rest. */
  function SlashMatch(text: string): Option<(string, string)> {
    var k := LastIndexOf(text, '/');
    if k == 0 || k + 1 >= |text| || IndexOf(text[..k], ':') < k then None
    else Some((text, text[k + 1..]))
  }

  /** parse_bazel_label: "package:target", or the shorthand "dir/name" for
      "dir/name:name"; any other label is an error. */
  function ParseBazelLabel(text: string): (r: Result<BazelLabel>)
    ensures r.Ok? <==> ColonMatch(text).Some? || SlashMatch(text).Some?
    ensures r.Ok? ==> r.value.absolute == StartsWith(r.value.package, "//")
  {
    match ColonMatch(text)
    case Some((package, target)) => Ok(BazelLabel(text, StartsWith(package, "//"), package, target))
    case None =>
      match SlashMatch(text)
      case None => Err("Failed to parse label " + text)
      case Some((package, target)) =>
        Ok(BazelLabel(package + ":" + target, StartsWith(package, "//"), package, target))
  }

  /** "package:target" parses to its package and target. */
  lemma ParseColonLabel(package: string, target: string)
    requires package != [] && ':' !in package && '\n' !in target
    ensures ParseBazelLabel(package + ":" + target)
      == Ok(BazelLabel(package + ":" + target, StartsWith(package, "//"), package, target))
  {
    var text := package + ":" + target;
    assert text == package + (":" + target);
    IndexOfAt(package, ":" + target, ':');
    assert text[|package| + 1..] == target;
    IndexOfAbsent(target, '\n');
    assert text[..|package|] == package && target[..|target|] == target;
  }

  /** "dir/name" parses to package "dir/name" and target "name": Bazel's
      shorthand for "dir/name:name". The directory may hold slashes of its
      own, as in "//pkg/sub/name". */
  lemma ParseShorthandLabel(dir: string, name: string)
    requires dir != [] && name != [] && ':' !in dir && ':' !in name && '/' !in name
    ensures ParseBazelLabel(dir + "/" + name)
      == Ok(BazelLabel(dir + "/" + name + ":" + name, StartsWith(dir + "/" + name, "//"), dir + "/" + name, name))
  {
    var text := dir + "/" + name;
    assert ':' !in text by {
      assert forall i :: 0 <= i < |text| ==> text[i] == (if i < |dir| then dir[i] else if i == |dir| then '/' else name[i - |dir| - 1]);
    }
    IndexOfAbsent(text, ':');
    LastIndexOfAt(dir, name, '/');
    assert text[..|dir|] == dir && text[|dir| + 1..] == name;
    IndexOfAbsent(dir, ':');
  }

  /** The shorthand's label parses to the same package and target. */
  lemma ShorthandReparses(dir: string, name: string)
    requires dir != [] && name != [] && ':' !in dir && ':' !in name && '/' !in name
    requires '\n' !in name
    ensures ParseBazelLabel(dir + "/" + name).Ok?
    ensures ParseBazelLabel(ParseBazelLabel(dir + "/" + name).value.text) == ParseBazelLabel(dir + "/" + name)
  {
    ParseShorthandLabel(dir, name);
    var package := dir + "/" + name;
    assert ':' !in package by {
      assert forall i :: 0 <= i < |package| ==> package[i] == (if i < |dir| then dir[i] else if i == |dir| then '/' else name[i - |dir| - 1]);
    }
    ParseColonLabel(package, name);
  }

  /** "//a/b" is the absolute package "//a/b" with target "b", the form
      the executables are named by. */
  lemma AbsoluteShorthandExample()
    ensures ParseBazelLabel("//a/b") == Ok(BazelLabel("//a/b:b", true, "//a/b", "b"))
  {
    ParseShorthandLabel("//a", "b");
    assert "//a" + "/" + "b" == "//a/b" && "//a/b" + ":" + "b" == "//a/b:b";
    assert StartsWith("//a/b", "//") by { assert "//a/b"[..2] == "//"; }
  }

  /** "a/b/c" is the package "a/b/c" with target "c": the split is at the
      last slash. */
  lemma NestedShorthandExample()
    ensures ParseBazelLabel("a/b/c") == Ok(BazelLabel("a/b/c:c", false, "a/b/c", "c"))
  {
    ParseShorthandLabel("a/b", "c");
    assert "a/b" + "/" + "c" == "a/b/c" && "a/b/c" + ":" + "c" == "a/b/c:c";
    assert !StartsWith("a/b/c", "//") by { assert "a/b/c"[0] == 'a'; }
  }

  /** ":a/b" is refused: the colon pattern needs a nonempty package, and
      the shorthand's package may not hold a colon. */
  lemma ColonPrefixRefused()
    ensures ParseBazelLabel(":a/b").Err?
  {
    assert IndexOf(":a/b", ':') == 0;
    assert LastIndexOf(":a/b", '/') == 2;
    assert ":a/b"[..2] == ":a" && IndexOf(":a", ':') == 0;
  }

  /** A label with a colon after a nonempty package and no line break is its
      package and target around that colon. */
  lemma ColonLabelRoundTrip(text: string)
    requires ColonMatch(text).Some? && '\n' !in text
    ensures ParseBazelLabel(text).Ok?
    ensures var p := ParseBazelLabel(text).value; p.text == text == p.package + ":" + p.target
  {
    var k := IndexOf(text, ':');
    var rest := text[k + 1..];
    assert '\n' !in rest by {
      assert forall i :: 0 <= i < |rest| ==> rest[i] == text[k + 1 + i];
    }
    IndexOfAbsent(rest, '\n');
    assert text == text[..k] + ":" + rest[..|rest|];
  }

  /** A character not in the string is not found. */
  lemma {:induction false} IndexOfAbsent(s: string, c: char)
    requires c !in s
    ensures IndexOf(s, c) == |s|
  {
    if s != [] {
      assert s[0] in s;
      assert c !in s[1..] by {
        forall i | 0 <= i < |s| - 1 ensures s[1..][i] != c { assert s[1..][i] == s[i + 1] && s[i + 1] in s; }
      }
      IndexOfAbsent(s[1..], c);
    }
  }

  /** The last `c` of `a + [c] + b`, where `b` lacks it. */
  lemma {:induction false} LastIndexOfAt(a: string, b: string, c: char)
    requires c !in b
    ensures LastIndexOf(a + [c] + b, c) == |a|
  {
    var s := a + [c] + b;
    if b != [] {
      assert b[|b| - 1] in b;
      var b' := b[..|b| - 1];
      assert c !in b' by {
        forall i | 0 <= i < |b'| ensures b'[i] != c { assert b'[i] == b[i] && b[i] in b; }
      }
      assert s[..|s| - 1] == a + [c] + b';
      LastIndexOfAt(a, b', c);
    }
  }

  /** The first `c` of `a + b`, where `a` lacks it and `b` starts with it. */
  lemma {:induction false} IndexOfAt(a: string, b: string, c: char)
    requires c !in a && b != [] && b[0] == c
    ensures IndexOf(a + b, c) == |a|
  {
    if a != [] {
      assert a[0] in a;
      assert c !in a[1..] by {
        forall i | 0 <= i < |a| - 1 ensures a[1..][i] != c { assert a[1..][i] == a[i + 1] && a[i + 1] in a; }
      }
      assert (a + b)[1..] == a[1..] + b;
      IndexOfAt(a[1..], b, c);
    }
  }

  // ---------------------------------------------------------------------
  // pretty_sample_name

  /** name_map, in its insertion order. */
  const NAME_MAP: seq<(string, string)> := [
    ("170206_ARTLoD_B1_01rerun", "T1 (0.0001)"),
    ("170206_ARTLoD_B1_02rerun", "T2 (0.0002)"),
    ("170206_ARTLoD_B1_03rerun", "T3 (0.0002)"),
    ("170206_ARTLoD_B1_04rerun", "T4 (0.0004)"),
    ("170206_ARTLoD_B1_05rerun", "T5 (0.0004)"),
    ("170206_ARTLoD_B1_06rerun", "T6 (0.0004)"),
    ("170206_ARTLoD_B1_07rerun", "T7 (0.0006)"),
    ("170206_ARTLoD_B1_08rerun", "T8 (0.0006)"),
    ("170206_ARTLoD_B1_09rerun", "T9 (0.0006)"),
    ("170206_ARTLoD_B1_10rerun", "T10 (0.0008)"),
    ("170206_ARTLoD_B1_11rerun", "T11 (0.0008)"),
    ("170206_ARTLoD_B1_12rerun", "T12 (0.0008)"),
    ("170206_ARTLoD_B1_13rerun", "T13 (0.01)"),
    ("170206_ARTLoD_B1_14rerun", "T14 (0.01)"),
    ("101CPREL277", "Prc101"),
    ("108CPREL315", "Prc108"),
    ("74HPREL332", "HC332"),
    ("118HPREL322", "HC118"),
    ("68HPREL273", "HC273"),
    ("53HPREL160", "HC160"),
    ("117HPREL321", "HC117")
  ]

  predicate KeysNonempty(m: seq<(string, string)>) {
    forall k :: 0 <= k < |m| ==> m[k].0 != []
  }

  /** The replacements in order. */
  function ReplaceAll(name: string, m: seq<(string, string)>): string
    requires KeysNonempty(m)
    decreases |m|
  {
    if m == [] then name else ReplaceAll(Replace(name, m[0].0, m[0].1), m[1..])
  }

  /** A name holding no key is left alone. */
  lemma {:induction false} ReplaceAllAbsent(name: string, m: seq<(string, string)>)
    requires KeysNonempty(m)
    requires forall k :: 0 <= k < |m| ==> !Contains(name, m[k].0)
    ensures ReplaceAll(name, m) == name
    decreases |m|
  {
    if m != [] {
      ReplaceAbsent(name, m[0].0, m[0].1);
      ReplaceAllAbsent(name, m[1..]);
    }
  }

  /** The name before the replacements: the basename, after dropping one
      trailing '/'. The last character of an empty path is Python's
      IndexError. */
  function SampleDirName(path: string): Result<string> {
    if path == [] then Err("IndexError: string index out of range")
    else if path[|path| - 1] == '/' then Ok(Basename(path[..|path| - 1]))
    else Ok(Basename(path))
  }

  /** pretty_sample_name as a value. */
  function PrettySampleNameOf(path: string): Result<string> {
    var b := SampleDirName(path);
    if b.Err? then b else Ok(ReplaceAll(b.value, NAME_MAP))
  }

  /** The loop of pretty_sample_name: the replacements one by one, in
      order. */
  method ReplaceInOrder(name: string, m: seq<(string, string)>) returns (r: string)
    requires KeysNonempty(m)
    ensures r == ReplaceAll(name, m)
  {
    r := name;
    var i := 0;
    while i < |m|
      invariant 0 <= i <= |m|
      invariant ReplaceAll(r, m[i..]) == ReplaceAll(name, m)
    {
      assert m[i..][1..] == m[i + 1..];
      r := Replace(r, m[i].0, m[i].1);
      i := i + 1;
    }
  }

  /** pretty_sample_name: the basename with the replacements made one by
      one in the map's order. */
  method PrettySampleName(path: string) returns (r: Result<string>)
    ensures r == PrettySampleNameOf(path)
  {
    if path == [] {
      return Err("IndexError: string index out of range");
    }
    var name;
    if path[|path| - 1] == '/' {
      name := Basename(path[..|path| - 1]);
    } else {
      name := Basename(path);
    }
    name := ReplaceInOrder(name, NAME_MAP);
    return Ok(name);
  }

  /** A trailing '/' does not change the name. */
  lemma PrettyTrailingSlash(path: string)
    requires path != [] && path[|path| - 1] != '/'
    ensures PrettySampleNameOf(path + "/") == PrettySampleNameOf(path)
  {
    assert (path + "/")[..|path|] == path;
  }

  /** A directory whose name holds no key keeps its name. */
  lemma PrettyKeepsOtherNames(path: string)
    requires SampleDirName(path).Ok?
    requires forall k :: 0 <= k < |NAME_MAP| ==> !Contains(SampleDirName(path).value, NAME_MAP[k].0)
    ensures PrettySampleNameOf(path) == SampleDirName(path)
  {
    ReplaceAllAbsent(SampleDirName(path).value, NAME_MAP);
  }
}
