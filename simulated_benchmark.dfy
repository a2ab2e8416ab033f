/** The scoring of a fusion caller against a simulated truth set
    (fusion/benchmark/simulated_benchmark.py): gene pairs that ignore the
    order of their genes, the truth set with its two aliases fixed, the
    caller's per-fragment calls with the multi-calls resolved, and the
    true/false positive and false negative counts. The input files arrive
    as their lines; a missing file is None. */
module SimulatedBenchmark {
  import opened Wrappers
  import opened PyStrings

  // ---------------------------------------------------------------------
  // GenePair

  /** A pair of gene names, the smaller first. */
  datatype GenePair = GenePair(g1: string, g2: string)

  /** GenePair(pair): the two names around '/' if there is one, else around
      "--", smaller first. Any other number of names is Python's ValueError
      on unpacking. */
  function NewGenePair(pair: string): (r: Result<GenePair>)
    ensures r.Ok? ==> !StrLess(r.value.g2, r.value.g1)
  {
    var parts := if Contains(pair, "/") then Split(pair, "/") else Split(pair, "--");
    if |parts| != 2 then Err("ValueError: expected two gene names")
    else if StrLess(parts[1], parts[0]) then
      StrLessTotal(parts[0], parts[1]);
      Ok(GenePair(parts[1], parts[0]))
    else Ok(GenePair(parts[0], parts[1]))
  }

  /** The pair's names are the two names written in the string, around its
      separator, in one order or the other. */
  lemma GenePairNames(pair: string)
    requires NewGenePair(pair).Ok?
    ensures var p := NewGenePair(pair).value;
      pair in {p.g1 + "/" + p.g2, p.g2 + "/" + p.g1, p.g1 + "--" + p.g2, p.g2 + "--" + p.g1}
  {
    if Contains(pair, "/") {
      JoinSplit(pair, "/");
    } else {
      JoinSplit(pair, "--");
    }
  }

  /** A gene name as the truth files write it: no '/' and no '-'. */
  predicate PlainName(g: string) {
    '/' !in g && '-' !in g
  }

  /** "A/B", "B/A" and "B--A" are the same pair. */
  lemma GenePairOrderFree(a: string, b: string)
    requires PlainName(a) && PlainName(b)
    ensures NewGenePair(a + "/" + b).Ok?
    ensures NewGenePair(a + "/" + b) == NewGenePair(b + "/" + a) == NewGenePair(b + "--" + a)
  {
    ContainsMiddle(a, "/", b);
    ContainsMiddle(b, "/", a);
    SplitTwo(a, b, "/");
    SplitTwo(b, a, "/");
    assert '/' !in b + "--" + a;
    NotContainsFirst(b + "--" + a, "/");
    SplitTwo(b, a, "--");
    StrLessTotal(a, b);
  }

  /** __hash__: the sum of the names' hashes, for a given string hash. */
  function Hash(p: GenePair, strHash: string -> int): int {
    strHash(p.g1) + strHash(p.g2)
  }

  /** The same pair written in either order hashes alike. */
  lemma HashOrderFree(a: string, b: string, strHash: string -> int)
    requires PlainName(a) && PlainName(b)
    ensures NewGenePair(a + "/" + b).Ok? && NewGenePair(b + "--" + a).Ok?
    ensures Hash(NewGenePair(a + "/" + b).value, strHash) == Hash(NewGenePair(b + "--" + a).value, strHash)
  {
    GenePairOrderFree(a, b);
  }

  // ---------------------------------------------------------------------
  // The truth set

  /** The pair named by a truth-file line: its first word. A line with no
      word is Python's IndexError. */
  function LinePair(line: string): Result<GenePair> {
    match FirstWord(Strip(line))
    case None => Err("IndexError: no gene pair on the line")
    case Some(w) => NewGenePair(w)
  }

  /** The truth set read from the target file: every line not starting
      with "Gene" names a pair; the first bad line stops the reading. */
  function TargetsOf(lines: seq<string>): Result<set<GenePair>> {
    if lines == [] then Ok({})
    else
      var prev := TargetsOf(lines[..|lines| - 1]);
      var line := lines[|lines| - 1];
      if prev.Err? || StartsWith(line, "Gene") then prev
      else
        var p := LinePair(line);
        if p.Err? then Err(p.msg) else Ok(prev.value + {p.value})
  }

  /** Read the truth set: the first loop of __init__. */
  method ReadTargets(lines: seq<string>) returns (r: Result<set<GenePair>>)
    ensures r == TargetsOf(lines)
  {
    var targets: set<GenePair> := {};
    var i := 0;
    while i < |lines|
      invariant 0 <= i <= |lines|
      invariant TargetsOf(lines[..i]) == Ok(targets)
    {
      assert lines[..i + 1][..i] == lines[..i];
      var line := lines[i];
      i := i + 1;
      if StartsWith(line, "Gene") {
        continue;
      }
      var gp := LinePair(line);
      if gp.Err? {
        assert TargetsOf(lines[..i]) == Err(gp.msg);
        ErrStays(lines, i, gp.msg);
        return Err(gp.msg);
      }
      targets := targets + {gp.value};
    }
    assert lines[..i] == lines;
    return Ok(targets);
  }

  /** An error on a prefix of the lines is the error of all of them. */
  lemma {:induction false} ErrStays(lines: seq<string>, i: nat, msg: string)
    requires i <= |lines| && TargetsOf(lines[..i]) == Err(msg)
    ensures TargetsOf(lines) == Err(msg)
    decreases |lines| - i
  {
    if i < |lines| {
      assert lines[..i + 1][..i] == lines[..i];
      ErrStays(lines, i + 1, msg);
    } else {
      assert lines[..i] == lines;
    }
  }

  /** Every line not starting with "Gene" names a pair of the truth set. */
  lemma {:induction false} TargetsHaveLines(lines: seq<string>)
    requires TargetsOf(lines).Ok?
    ensures forall i :: 0 <= i < |lines| && !StartsWith(lines[i], "Gene") ==>
      LinePair(lines[i]).Ok? && LinePair(lines[i]).value in TargetsOf(lines).value
  {
    if lines != [] {
      var front := lines[..|lines| - 1];
      TargetsHaveLines(front);
      assert forall i :: 0 <= i < |front| ==> lines[i] == front[i];
    }
  }

  /** Every pair of the truth set is named by a line not starting with
      "Gene". */
  lemma {:induction false} TargetsFromLines(lines: seq<string>)
    requires TargetsOf(lines).Ok?
    ensures forall p :: p in TargetsOf(lines).value ==>
      exists i :: 0 <= i < |lines| && !StartsWith(lines[i], "Gene") && LinePair(lines[i]) == Ok(p)
  {
    if lines != [] {
      var front := lines[..|lines| - 1];
      TargetsFromLines(front);
      forall p | p in TargetsOf(front).value
        ensures exists i :: 0 <= i < |lines| && !StartsWith(lines[i], "Gene") && LinePair(lines[i]) == Ok(p)
      {
        var i :| 0 <= i < |front| && !StartsWith(front[i], "Gene") && LinePair(front[i]) == Ok(p);
        assert lines[i] == front[i];
      }
    }
  }

  const EXOSC7_KIAA1328 := GenePair("EXOSC7", "KIAA1328")
  const CLEC3B_KIAA1328 := GenePair("CLEC3B", "KIAA1328")
  const CCDC88C_STAG3L1 := GenePair("CCDC88C", "STAG3L1")
  const CCDC88C_STAG3 := GenePair("CCDC88C", "STAG3")

  /** The four pairs the script names parse to these constants. */
  lemma ExosAlias()
    ensures NewGenePair("EXOSC7/KIAA1328") == Ok(EXOSC7_KIAA1328)
  {
    AliasPairAt("EXOSC7/KIAA1328", "EXOSC7", "KIAA1328");
  }

  lemma ClecAlias()
    ensures NewGenePair("CLEC3B/KIAA1328") == Ok(CLEC3B_KIAA1328)
  {
    AliasPairAt("CLEC3B/KIAA1328", "CLEC3B", "KIAA1328");
  }

  lemma Stag3L1Alias()
    ensures NewGenePair("CCDC88C/STAG3L1") == Ok(CCDC88C_STAG3L1)
  {
    AliasPairAt("CCDC88C/STAG3L1", "CCDC88C", "STAG3L1");
  }

  lemma Stag3Alias()
    ensures NewGenePair("CCDC88C/STAG3") == Ok(CCDC88C_STAG3)
  {
    AliasPairAt("CCDC88C/STAG3", "CCDC88C", "STAG3");
  }

  lemma AliasPairAt(s: string, a: string, b: string)
    requires s == a + "/" + b
    requires PlainName(a) && PlainName(b) && a != [] && b != [] && a[0] < b[0]
    ensures NewGenePair(s) == Ok(GenePair(a, b))
  {
    AliasPair(a, b);
  }

  lemma AliasPair(a: string, b: string)
    requires PlainName(a) && PlainName(b) && a != [] && b != [] && a[0] < b[0]
    ensures NewGenePair(a + "/" + b) == Ok(GenePair(a, b))
  {
    ContainsMiddle(a, "/", b);
    SplitTwo(a, b, "/");
  }

  /** The fixed truth set: EXOSC7/KIAA1328 shows as CLEC3B/KIAA1328, and
      CCDC88C/STAG3L1 as CCDC88C/STAG3. set.remove of an absent pair is
      Python's KeyError. */
  function FixTargets(targets: set<GenePair>): (r: Result<set<GenePair>>)
    ensures r.Ok? <==> EXOSC7_KIAA1328 in targets && CCDC88C_STAG3L1 in targets
    ensures r.Ok? ==> r.value == targets - {EXOSC7_KIAA1328, CCDC88C_STAG3L1} + {CLEC3B_KIAA1328, CCDC88C_STAG3}
  {
    if EXOSC7_KIAA1328 !in targets then Err("KeyError: EXOSC7/KIAA1328")
    else
      var t := targets - {EXOSC7_KIAA1328} + {CLEC3B_KIAA1328};
      if CCDC88C_STAG3L1 !in t then Err("KeyError: CCDC88C/STAG3L1")
      else Ok(t - {CCDC88C_STAG3L1} + {CCDC88C_STAG3})
  }

  // ---------------------------------------------------------------------
  // The caller's calls

  /** collections.Counter: a missing key counts 0. */
  function Count(m: map<GenePair, nat>, p: GenePair): nat {
    if p in m then m[p] else 0
  }

  /** `counter[p] += d`. */
  function Add(m: map<GenePair, nat>, p: GenePair, d: nat): (r: map<GenePair, nat>)
    ensures r.Keys == m.Keys + {p}
    ensures Count(r, p) == Count(m, p) + d
    ensures forall q :: q != p ==> Count(r, q) == Count(m, q)
  {
    m[p := Count(m, p) + d]
  }

  /** The fragments with one call (counted per pair) and those with several. */
  datatype Calls = Calls(unique: map<GenePair, nat>, multi: seq<seq<GenePair>>)

  /** The pairs of a list of names, the first bad name stopping it. */
  function PairsOf(names: seq<string>): (r: Result<seq<GenePair>>)
    ensures r.Ok? ==> |r.value| == |names|
    ensures r.Ok? ==> forall i :: 0 <= i < |names| ==> NewGenePair(names[i]) == Ok(r.value[i])
  {
    if names == [] then Ok([])
    else
      var prev := PairsOf(names[..|names| - 1]);
      var p := NewGenePair(names[|names| - 1]);
      if prev.Err? then prev
      else if p.Err? then Err(p.msg)
      else Ok(prev.value + [p.value])
  }

  /** One FASTA header line: the names between the first and second '|',
      separated by ','; a line without '|' is Python's IndexError. */
  function CallLine(prev: Calls, line: string): Result<Calls> {
    var fields := Split(Strip(line), "|");
    if |fields| < 2 then Err("IndexError: no '|' on the header line")
    else
      var names := Split(fields[1], ",");
      if |names| == 1 then
        var p := NewGenePair(names[0]);
        if p.Err? then Err(p.msg) else Ok(Calls(Add(prev.unique, p.value, 1), prev.multi))
      else
        var ps := PairsOf(names);
        if ps.Err? then Err(ps.msg) else Ok(Calls(prev.unique, prev.multi + [ps.value]))
  }

  /** The calls read from the caller's FASTA file: its lines starting with
      '>'. */
  function CallsOf(lines: seq<string>): Result<Calls> {
    if lines == [] then Ok(Calls(map[], []))
    else
      var prev := CallsOf(lines[..|lines| - 1]);
      var line := lines[|lines| - 1];
      if prev.Err? || !StartsWith(line, ">") then prev
      else CallLine(prev.value, line)
  }

  /** An error on a prefix of the lines is the error of all of them. */
  lemma {:induction false} CallsErrStays(lines: seq<string>, i: nat, msg: string)
    requires i <= |lines| && CallsOf(lines[..i]) == Err(msg)
    ensures CallsOf(lines) == Err(msg)
    decreases |lines| - i
  {
    if i < |lines| {
      assert lines[..i + 1][..i] == lines[..i];
      CallsErrStays(lines, i + 1, msg);
    } else {
      assert lines[..i] == lines;
    }
  }

  /** Read the calls: the second loop of __init__. */
  method ReadCalls(lines: seq<string>) returns (r: Result<Calls>)
    ensures r == CallsOf(lines)
  {
    var calls := Calls(map[], []);
    var i := 0;
    while i < |lines|
      invariant 0 <= i <= |lines|
      invariant CallsOf(lines[..i]) == Ok(calls)
    {
      assert lines[..i + 1][..i] == lines[..i];
      var line := lines[i];
      i := i + 1;
      if !StartsWith(line, ">") {
        continue;
      }
      var next := CallLine(calls, line);
      if next.Err? {
        CallsErrStays(lines, i, next.msg);
        return next;
      }
      calls := next.value;
    }
    assert lines[..i] == lines;
    return Ok(calls);
  }

  /** Every multi-call holds at least two pairs. */
  lemma {:induction false} MultiCallsHaveTwo(lines: seq<string>)
    requires CallsOf(lines).Ok?
    ensures forall k :: 0 <= k < |CallsOf(lines).value.multi| ==> |CallsOf(lines).value.multi[k]| >= 2
  {
    if lines != [] {
      MultiCallsHaveTwo(lines[..|lines| - 1]);
    }
  }

  // ---------------------------------------------------------------------
  // Resolving the multi-calls

  /** The candidate chosen so far (-1 for none) and its frozen count. */
  datatype Best = Best(index: int, count: int)

  /** The inner loop: the first candidate with the largest frozen count,
      starting from count -1 and replacing only on a strictly larger count. */
  function BestOf(frozen: map<GenePair, nat>, mc: seq<GenePair>): (b: Best)
    ensures -1 <= b.index < |mc|
  {
    if mc == [] then Best(-1, -1)
    else
      var prev := BestOf(frozen, mc[..|mc| - 1]);
      var freq := Count(frozen, mc[|mc| - 1]);
      if freq > prev.count then Best(|mc| - 1, freq) else prev
  }

  /** A nonempty multi-call always finds a candidate (so the script's
      `assert best_call` holds): the first one whose frozen count is the
      largest, and that count. */
  lemma {:induction false} BestIsFirstMax(frozen: map<GenePair, nat>, mc: seq<GenePair>)
    requires mc != []
    ensures var b := BestOf(frozen, mc);
      0 <= b.index < |mc| && b.count == Count(frozen, mc[b.index])
      && (forall j :: 0 <= j < |mc| ==> Count(frozen, mc[j]) <= b.count)
      && (forall j :: 0 <= j < b.index ==> Count(frozen, mc[j]) < b.count)
  {
    if |mc| > 1 {
      BestIsFirstMax(frozen, mc[..|mc| - 1]);
    }
  }

  /** One multi-call: its best candidate gains its frozen count. */
  function Assign(calls: map<GenePair, nat>, frozen: map<GenePair, nat>, mc: seq<GenePair>): map<GenePair, nat>
    requires mc != []
  {
    BestIsFirstMax(frozen, mc);
    var b := BestOf(frozen, mc);
    Add(calls, mc[b.index], b.count)
  }

  predicate AllNonempty(multi: seq<seq<GenePair>>) {
    forall k :: 0 <= k < |multi| ==> multi[k] != []
  }

  /** All the multi-calls, in order. */
  function AssignAll(calls: map<GenePair, nat>, frozen: map<GenePair, nat>, multi: seq<seq<GenePair>>): map<GenePair, nat>
    requires AllNonempty(multi)
  {
    if multi == [] then calls
    else Assign(AssignAll(calls, frozen, multi[..|multi| - 1]), frozen, multi[|multi| - 1])
  }

  /** The best candidate of one multi-call: the inner loop. */
  method ChooseBest(frozen: map<GenePair, nat>, mc: seq<GenePair>) returns (best: Best)
    ensures best == BestOf(frozen, mc)
  {
    best := Best(-1, -1);
    var i := 0;
    while i < |mc|
      invariant 0 <= i <= |mc| && best == BestOf(frozen, mc[..i])
    {
      assert mc[..i + 1][..i] == mc[..i];
      var freq := Count(frozen, mc[i]);
      if freq > best.count {
        best := Best(i, freq);
      }
      i := i + 1;
    }
    assert mc[..i] == mc;
  }

  /** Resolve the multi-calls against a frozen copy of the unique counts. */
  method ResolveMultiCalls(unique: map<GenePair, nat>, multi: seq<seq<GenePair>>) returns (calls: map<GenePair, nat>)
    requires AllNonempty(multi)
    ensures calls == AssignAll(unique, unique, multi)
  {
    var frozen := unique;
    calls := unique;
    var k := 0;
    while k < |multi|
      invariant 0 <= k <= |multi| && calls == AssignAll(unique, frozen, multi[..k])
    {
      assert multi[..k + 1][..k] == multi[..k];
      var mc := multi[k];
      assert AllNonempty(multi[..k + 1]);
      assert AssignAll(unique, frozen, multi[..k + 1]) == Assign(calls, frozen, mc);
      var best := ChooseBest(frozen, mc);
      BestIsFirstMax(frozen, mc);
      calls := Add(calls, mc[best.index], best.count);
      k := k + 1;
    }
    assert multi[..k] == multi;
  }

  /** Two multi-calls resolve alike in either order. */
  lemma AssignCommutes(calls: map<GenePair, nat>, frozen: map<GenePair, nat>, a: seq<GenePair>, b: seq<GenePair>)
    requires a != [] && b != []
    ensures Assign(Assign(calls, frozen, a), frozen, b) == Assign(Assign(calls, frozen, b), frozen, a)
  {
    BestIsFirstMax(frozen, a);
    BestIsFirstMax(frozen, b);
    var x, y := Assign(Assign(calls, frozen, a), frozen, b), Assign(Assign(calls, frozen, b), frozen, a);
    assert forall q :: Count(x, q) == Count(y, q);
    assert x.Keys == y.Keys;
    forall q | q in x
      ensures x[q] == y[q]
    {
      assert Count(x, q) == x[q] && Count(y, q) == y[q];
    }
  }

  /** The multi-calls with those at k and k + 1 swapped. */
  function SwapAt(multi: seq<seq<GenePair>>, k: nat): (r: seq<seq<GenePair>>)
    requires k + 1 < |multi|
    ensures |r| == |multi| && r[k] == multi[k + 1] && r[k + 1] == multi[k]
    ensures forall j :: 0 <= j < |multi| && j != k && j != k + 1 ==> r[j] == multi[j]
  {
    multi[k := multi[k + 1]][k + 1 := multi[k]]
  }

  /** Since only the frozen counts are read, swapping two neighbouring
      multi-calls anywhere in the list changes nothing: the result does not
      depend on the order of the multi-calls. */
  lemma {:induction false} AssignAllSwap(calls: map<GenePair, nat>, frozen: map<GenePair, nat>, multi: seq<seq<GenePair>>, k: nat)
    requires AllNonempty(multi) && k + 1 < |multi|
    ensures AllNonempty(SwapAt(multi, k))
    ensures AssignAll(calls, frozen, SwapAt(multi, k)) == AssignAll(calls, frozen, multi)
    decreases |multi|, 1
  {
    if k + 2 == |multi| {
      SwapLast(calls, frozen, multi);
    } else {
      SwapBeforeLast(calls, frozen, multi, k);
    }
  }

  /** The inductive case: a swap before the last multi-call is a swap in
      the prefix. */
  lemma {:induction false} SwapBeforeLast(calls: map<GenePair, nat>, frozen: map<GenePair, nat>, multi: seq<seq<GenePair>>, k: nat)
    requires AllNonempty(multi) && k + 2 < |multi|
    ensures AllNonempty(SwapAt(multi, k))
    ensures AssignAll(calls, frozen, SwapAt(multi, k)) == AssignAll(calls, frozen, multi)
    decreases |multi|, 0
  {
    assert AllNonempty(multi[..|multi| - 1]);
    AssignAllSwap(calls, frozen, multi[..|multi| - 1], k);
    SwapInPrefix(calls, frozen, multi, k);
  }

  /** A swap in the prefix that leaves the prefix's result unchanged leaves
      the whole result unchanged. */
  lemma SwapInPrefix(calls: map<GenePair, nat>, frozen: map<GenePair, nat>, multi: seq<seq<GenePair>>, k: nat)
    requires AllNonempty(multi) && k + 2 < |multi|
    requires AllNonempty(SwapAt(multi[..|multi| - 1], k))
    requires AssignAll(calls, frozen, SwapAt(multi[..|multi| - 1], k)) == AssignAll(calls, frozen, multi[..|multi| - 1])
    ensures AllNonempty(SwapAt(multi, k))
    ensures AssignAll(calls, frozen, SwapAt(multi, k)) == AssignAll(calls, frozen, multi)
  {
    var n := |multi|;
    var t := SwapAt(multi, k);
    assert SwapAt(multi[..n - 1], k) == t[..n - 1];
    assert t[n - 1] == multi[n - 1];
    AssignAllLast(calls, frozen, t);
    AssignAllLast(calls, frozen, multi);
  }

  /** AssignAll's last step. */
  lemma AssignAllLast(calls: map<GenePair, nat>, frozen: map<GenePair, nat>, multi: seq<seq<GenePair>>)
    requires AllNonempty(multi) && multi != []
    ensures AllNonempty(multi[..|multi| - 1])
    ensures AssignAll(calls, frozen, multi) == Assign(AssignAll(calls, frozen, multi[..|multi| - 1]), frozen, multi[|multi| - 1])
  {
  }

  /** The base case: the last two multi-calls swapped. */
  lemma SwapLast(calls: map<GenePair, nat>, frozen: map<GenePair, nat>, multi: seq<seq<GenePair>>)
    requires AllNonempty(multi) && |multi| >= 2
    ensures AllNonempty(SwapAt(multi, |multi| - 2))
    ensures AssignAll(calls, frozen, SwapAt(multi, |multi| - 2)) == AssignAll(calls, frozen, multi)
  {
    var n := |multi|;
    var t := SwapAt(multi, n - 2);
    var pre := multi[..n - 2];
    assert multi[..n - 1][..n - 2] == pre && t[..n - 1][..n - 2] == pre;
    AssignCommutes(AssignAll(calls, frozen, pre), frozen, multi[n - 2], multi[n - 1]);
  }

  // ---------------------------------------------------------------------
  // TargetedFusionStats

  /** Score: true positives, false positives, false negatives. */
  datatype Score = Score(tp: int, fp: int, fn: int)

  /** The pairs called at least `threshold` times. */
  function Above(calls: map<GenePair, nat>, threshold: int): set<GenePair> {
    set p | p in calls && calls[p] >= threshold
  }

  /** Splitting a set by membership in another splits its size. */
  lemma {:induction false} CardSplit(a: set<GenePair>, f: set<GenePair>)
    ensures |a * f| + |a - f| == |a|
    decreases |a|
  {
    if a != {} {
      var x :| x in a;
      CardSplit(a - {x}, f);
      if x in f {
        assert a * f == (a - {x}) * f + {x};
        assert a - f == (a - {x}) - f;
      } else {
        assert a * f == (a - {x}) * f;
        assert a - f == ((a - {x}) - f) + {x};
      }
    }
  }

  /** Counting one more element: it adds to the part inside `f` or to the
      part outside. */
  lemma CountStep(done: set<GenePair>, x: GenePair, f: set<GenePair>)
    requires x !in done
    ensures |(done + {x}) * f| == |done * f| + (if x in f then 1 else 0)
    ensures |(done + {x}) - f| == |done - f| + (if x in f then 0 else 1)
  {
    if x in f {
      assert (done + {x}) * f == done * f + {x};
      assert (done + {x}) - f == done - f;
    } else {
      assert (done + {x}) * f == done * f;
      assert (done + {x}) - f == (done - f) + {x};
    }
  }

  /** One loop of stats: the elements of `a` inside `f` and those outside. */
  method CountSplit(a: set<GenePair>, f: set<GenePair>) returns (inside: nat, outside: nat)
    ensures inside == |a * f| && outside == |a - f|
    ensures inside + outside == |a|
  {
    inside, outside := 0, 0;
    var todo, done := a, {};
    while todo != {}
      invariant done + todo == a && done !! todo
      invariant inside == |done * f| && outside == |done - f|
      decreases |todo|
    {
      var x :| x in todo;
      CountStep(done, x, f);
      if x in f {
        inside := inside + 1;
      } else {
        outside := outside + 1;
      }
      todo, done := todo - {x}, done + {x};
    }
    assert done == a;
    CardSplit(a, f);
  }

  /** The outcome of reading the two files. */
  datatype Loaded = Loaded(sortedTargets: set<GenePair>, sortedFixedTargets: set<GenePair>, calls: map<GenePair, nat>)

  /** __init__ as a whole: the files must exist (the script asserts it), the
      truth set is read and fixed, and the calls are read and resolved. */
  function LoadOf(inputTargets: Option<seq<string>>, callerFa: Option<seq<string>>): Result<Loaded> {
    if inputTargets.None? then Err("AssertionError: input_targets")
    else if callerFa.None? then Err("AssertionError: caller_fa")
    else
      var t := TargetsOf(inputTargets.value);
      if t.Err? then Err(t.msg)
      else
        var fixed := FixTargets(t.value);
        if fixed.Err? then Err(fixed.msg)
        else
          var c := CallsOf(callerFa.value);
          if c.Err? then Err(c.msg)
          else
            MultiCallsHaveTwo(callerFa.value);
            Ok(Loaded(t.value, fixed.value, AssignAll(c.value.unique, c.value.unique, c.value.multi)))
  }

  class TargetedFusionStats {
    var sortedTargets: set<GenePair>
    var sortedFixedTargets: set<GenePair>
    var calls: map<GenePair, nat>

    /** The object before __init__ runs. */
    constructor ()
      ensures sortedTargets == {} && sortedFixedTargets == {} && calls == map[]
    {
      sortedTargets := {};
      sortedFixedTargets := {};
      calls := map[];
    }

    /** __init__: on success the fields hold the truth set, the fixed truth
        set and the resolved calls; otherwise the exception's message. */
    method Init(inputTargets: Option<seq<string>>, callerFa: Option<seq<string>>) returns (err: Option<string>)
      modifies this
      ensures var r := LoadOf(inputTargets, callerFa);
        (err.None? <==> r.Ok?)
        && (r.Ok? ==> sortedTargets == r.value.sortedTargets && sortedFixedTargets == r.value.sortedFixedTargets
                      && calls == r.value.calls)
    {
      if inputTargets.None? {
        return Some("AssertionError: input_targets");
      }
      if callerFa.None? {
        return Some("AssertionError: caller_fa");
      }
      var t := ReadTargets(inputTargets.value);
      if t.Err? {
        return Some(t.msg);
      }
      sortedTargets := t.value;
      var fixed := FixTargets(t.value);
      if fixed.Err? {
        return Some(fixed.msg);
      }
      sortedFixedTargets := fixed.value;
      var c := ReadCalls(callerFa.value);
      if c.Err? {
        return Some(c.msg);
      }
      MultiCallsHaveTwo(callerFa.value);
      calls := ResolveMultiCalls(c.value.unique, c.value.multi);
      return None;
    }

    /** stats: a call at or above the threshold is a true positive when it
        is in the fixed truth set and a false positive otherwise; a fixed
        truth pair not called that often is a false negative. So tp + fp is
        the number of pairs called that often and tp + fn the size of the
        fixed truth set. */
    method Stats(threshold: int) returns (score: Score)
      ensures var above := Above(calls, threshold);
        score == Score(|above * sortedFixedTargets|, |above - sortedFixedTargets|, |sortedFixedTargets - above|)
      ensures score.tp + score.fp == |Above(calls, threshold)|
      ensures score.tp + score.fn == |sortedFixedTargets|
    {
      var above := Above(calls, threshold);
      var tp, fp := CountSplit(above, sortedFixedTargets);
      var _, fn := CountSplit(sortedFixedTargets, above);
      assert sortedFixedTargets * above == above * sortedFixedTargets;
      return Score(tp, fp, fn);
    }
  }
}
