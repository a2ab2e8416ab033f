/** Snap correction of UMIs (umi/correction.go): every k-mer over ACGTN is
    mapped to the known UMI it is strictly nearest to in edit distance, when
    there is exactly one; a UMI read later is replaced by its entry. A Go
    panic is the None outcome. */
module UmiCorrection {
  import opened Wrappers
  import Distance

  const ALPHABET_WITH_N: string := "ACGTN"

  // ---------------------------------------------------------------------
  // allKmers

  /** fn(partial, length): every extension of partial to the given length,
      the alphabet's letters tried in order at each position. */
  function Extensions(partial: string, length: nat, alphabet: string): seq<string>
    requires |partial| <= length
    decreases length - |partial|, |alphabet| + 1
  {
    if |partial| == length then [partial] else Branches(partial, length, alphabet, 0)
  }

  /** The loop of fn over alphabet[i..]: the extensions of partial + [c] for
      each remaining letter c, concatenated. */
  function Branches(partial: string, length: nat, alphabet: string, i: nat): seq<string>
    requires |partial| < length && i <= |alphabet|
    decreases length - |partial|, |alphabet| - i
  {
    if i == |alphabet| then []
    else Extensions(partial + [alphabet[i]], length, alphabet) + Branches(partial, length, alphabet, i + 1)
  }

  /** allKmers(k, alphabet). */
  function AllKmers(k: nat, alphabet: string): seq<string>
  {
    Extensions("", k, alphabet)
  }

  function Pow(b: nat, e: nat): nat
  {
    if e == 0 then 1 else b * Pow(b, e - 1)
  }

  /** Each extension adds length - |partial| letters from the alphabet. */
  ghost predicate OverAlphabet(s: string, alphabet: string)
  {
    forall i :: 0 <= i < |s| ==> s[i] in alphabet
  }

  /** No element occurs twice. */
  ghost predicate NoDup<T>(e: seq<T>)
  {
    forall a, b :: 0 <= a < b < |e| ==> e[a] != e[b]
  }

  /** s is partial extended by letters of the alphabet to the given length. */
  ghost predicate ExtendsTo(s: string, partial: string, length: nat, alphabet: string)
  {
    |s| == length && |partial| <= length && s[..|partial|] == partial && OverAlphabet(s[|partial|..], alphabet)
  }

  /** fn produces |alphabet|^(length - |partial|) strings. */
  lemma {:induction false} ExtensionsLength(partial: string, length: nat, alphabet: string)
    requires |partial| <= length
    ensures |Extensions(partial, length, alphabet)| == Pow(|alphabet|, length - |partial|)
    decreases length - |partial|, |alphabet| + 1
  {
    if |partial| < length {
      BranchesLength(partial, length, alphabet, 0);
    }
  }

  lemma {:induction false} BranchesLength(partial: string, length: nat, alphabet: string, i: nat)
    requires |partial| < length && i <= |alphabet|
    ensures |Branches(partial, length, alphabet, i)| == (|alphabet| - i) * Pow(|alphabet|, length - |partial| - 1)
    decreases length - |partial|, |alphabet| - i
  {
    if i < |alphabet| {
      ExtensionsLength(partial + [alphabet[i]], length, alphabet);
      BranchesLength(partial, length, alphabet, i + 1);
      var q := Pow(|alphabet|, length - |partial| - 1);
      assert (|alphabet| - i) * q == q + (|alphabet| - (i + 1)) * q;
    }
  }

  /** The strings fn produces are exactly the extensions of partial. */
  lemma {:induction false} ExtensionsMember(partial: string, length: nat, alphabet: string, s: string)
    requires |partial| <= length
    ensures s in Extensions(partial, length, alphabet) <==> ExtendsTo(s, partial, length, alphabet)
    decreases length - |partial|, |alphabet| + 1
  {
    if |partial| < length {
      BranchesMember(partial, length, alphabet, 0, s);
      if |s| == length {
        var rest := s[|partial|..];
        assert OverAlphabet(rest, alphabet) <==> rest[0] in alphabet && OverAlphabet(rest[1..], alphabet) by {
          assert forall j :: 1 <= j < |rest| ==> rest[j] == rest[1..][j - 1];
        }
        assert rest[1..] == s[|partial| + 1..];
        assert alphabet[0..] == alphabet;
      }
    } else if |s| == length && s[..|partial|] == partial {
      assert s == s[..|partial|];
    }
  }

  lemma {:induction false} BranchesMember(partial: string, length: nat, alphabet: string, i: nat, s: string)
    requires |partial| < length && i <= |alphabet|
    ensures s in Branches(partial, length, alphabet, i) <==>
              |s| == length && s[..|partial|] == partial && s[|partial|] in alphabet[i..]
              && OverAlphabet(s[|partial| + 1..], alphabet)
    decreases length - |partial|, |alphabet| - i
  {
    if i < |alphabet| {
      var p := partial + [alphabet[i]];
      ExtensionsMember(p, length, alphabet, s);
      BranchesMember(partial, length, alphabet, i + 1, s);
      if |s| == length {
        assert s[..|p|] == p <==> s[..|partial|] == partial && s[|partial|] == alphabet[i] by {
          assert s[..|p|] == s[..|partial|] + [s[|partial|]];
        }
        assert s[|p|..] == s[|partial| + 1..];
        assert alphabet[i..] == [alphabet[i]] + alphabet[i + 1..];
      }
    }
  }

  /** Over an alphabet without repeated letters, fn produces no string
      twice. */
  lemma {:induction false} ExtensionsDistinct(partial: string, length: nat, alphabet: string)
    requires |partial| <= length
    requires NoDup(alphabet)
    ensures NoDup(Extensions(partial, length, alphabet))
    decreases length - |partial|, |alphabet| + 1
  {
    if |partial| < length {
      BranchesDistinct(partial, length, alphabet, 0);
      assert Extensions(partial, length, alphabet) == Branches(partial, length, alphabet, 0);
    }
  }

  lemma {:induction false} BranchesDistinct(partial: string, length: nat, alphabet: string, i: nat)
    requires |partial| < length && i <= |alphabet|
    requires NoDup(alphabet)
    ensures NoDup(Branches(partial, length, alphabet, i))
    decreases length - |partial|, |alphabet| - i
  {
    if i < |alphabet| {
      var p := partial + [alphabet[i]];
      var head, tail := Extensions(p, length, alphabet), Branches(partial, length, alphabet, i + 1);
      ExtensionsDistinct(p, length, alphabet);
      BranchesDistinct(partial, length, alphabet, i + 1);
      var e := head + tail;
      forall a, b | 0 <= a < b < |e|
        ensures e[a] != e[b]
      {
        if b < |head| {
          assert e[a] == head[a] && e[b] == head[b] && head[a] != head[b];
        } else if |head| <= a {
          assert e[a] == tail[a - |head|] && e[b] == tail[b - |head|] && tail[a - |head|] != tail[b - |head|];
        } else {
          assert e[a] in head && e[b] in tail;
          ExtensionsMember(p, length, alphabet, e[a]);
          BranchesMember(partial, length, alphabet, i + 1, e[b]);
          assert e[a][..|p|] == p;
          assert e[a][|partial|] == alphabet[i] by {
            assert e[a][..|p|][|partial|] == e[a][|partial|];
          }
          var rest := alphabet[i + 1..];
          forall t | 0 <= t < |rest|
            ensures rest[t] != alphabet[i]
          {
            assert rest[t] == alphabet[i + 1 + t];
          }
          assert e[a][|partial|] != e[b][|partial|];
        }
      }
    }
  }

  /** allKmers(k, alphabet) lists each of the |alphabet|^k strings of length
      k over the alphabet once. */
  lemma AllKmersFacts(k: nat, alphabet: string)
    requires NoDup(alphabet)
    ensures |AllKmers(k, alphabet)| == Pow(|alphabet|, k)
    ensures forall s :: s in AllKmers(k, alphabet) <==> |s| == k && OverAlphabet(s, alphabet)
    ensures NoDup(AllKmers(k, alphabet))
  {
    ExtensionsLength("", k, alphabet);
    ExtensionsDistinct("", k, alphabet);
    forall s
      ensures s in AllKmers(k, alphabet) <==> |s| == k && OverAlphabet(s, alphabet)
    {
      ExtensionsMember("", k, alphabet, s);
      assert s[..0] == "" && s[0..] == s;
    }
  }

  // ---------------------------------------------------------------------
  // validateUMI and upper-casing

  /** byte(c): the low byte of a rune, which is what validateUMI looks at. */
  function LowByte(c: char): int
  {
    (c as int) % 256
  }

  /** validateUMI's test of one rune: its low byte is A, C, G or T, or N when
      N is allowed. */
  predicate ValidBase(c: char, allowN: bool)
  {
    var b := LowByte(c);
    b == 'A' as int || b == 'C' as int || b == 'G' as int || b == 'T' as int || (allowN && b == 'N' as int)
  }

  predicate ValidUmi(umi: string, allowN: bool)
  {
    forall i :: 0 <= i < |umi| ==> ValidBase(umi[i], allowN)
  }

  /** validateUMI: false where the source panics on an invalid base. */
  method ValidateUMI(umi: string, allowN: bool) returns (ok: bool)
    ensures ok <==> ValidUmi(umi, allowN)
  {
    for i := 0 to |umi|
      invariant forall j :: 0 <= j < i ==> ValidBase(umi[j], allowN)
    {
      var b := LowByte(umi[i]);
      if (allowN && !(b == 'A' as int || b == 'C' as int || b == 'G' as int || b == 'T' as int || b == 'N' as int))
         || (!allowN && !(b == 'A' as int || b == 'C' as int || b == 'G' as int || b == 'T' as int)) {
        return false;
      }
    }
    return true;
  }

  /** strings.ToUpper on one rune, for the ASCII letters. */
  function Upper(c: char): (u: char)
    ensures 'a' <= c <= 'z' ==> u as int == c as int - 32
    ensures !('a' <= c <= 'z') ==> u == c
  {
    if 'a' <= c <= 'z' then (c as int - 32) as char else c
  }

  function ToUpper(s: string): (r: string)
    ensures |r| == |s| && forall i :: 0 <= i < |s| ==> r[i] == Upper(s[i])
  {
    seq(|s|, i requires 0 <= i < |s| => Upper(s[i]))
  }

  /** Upper-casing twice is upper-casing once. */
  lemma ToUpperIdempotent(s: string)
    ensures ToUpper(ToUpper(s)) == ToUpper(s)
  {
    assert forall i :: 0 <= i < |s| ==> Upper(Upper(s[i])) == Upper(s[i]);
  }

  // ---------------------------------------------------------------------
  // reading the known UMIs

  /** bufio.ScanLines's trimming of a line's trailing carriage return. */
  function DropCR(s: string): string
  {
    if |s| > 0 && s[|s| - 1] == '\r' then s[..|s| - 1] else s
  }

  /** The index of the first newline at or after i, or |s|. */
  function NewlineAt(s: string, i: nat): (k: nat)
    requires i <= |s|
    ensures i <= k <= |s| && (k < |s| ==> s[k] == '\n')
    decreases |s| - i
  {
    if i == |s| || s[i] == '\n' then i else NewlineAt(s, i + 1)
  }

  /** The lines a bufio.Scanner yields: the pieces between newlines, without
      a trailing carriage return; a final piece counts when it is not
      empty. */
  function ScanLines(s: string): seq<string>
    decreases |s|
  {
    if s == [] then []
    else
      var k := NewlineAt(s, 0);
      if k == |s| then [DropCR(s)] else [DropCR(s[..k])] + ScanLines(s[k + 1..])
  }

  /** The known UMIs of the input lines, upper-cased; None (a panic) when
      there is no line, when a line's length differs from the first one's,
      or when a line has a base other than ACGT. */
  function KnownOf(lines: seq<string>): (r: Option<seq<string>>)
    ensures r.Some? ==> |r.value| == |lines| > 0
    ensures r.Some? ==> forall i :: 0 <= i < |lines| ==>
                          (r.value[i] == ToUpper(lines[i]) && |r.value[i]| == |lines[0]| && ValidUmi(r.value[i], false))
  {
    if lines == [] then None
    else if exists i :: 0 <= i < |lines| && (|lines[i]| != |lines[0]| || !ValidUmi(ToUpper(lines[i]), false)) then None
    else Some(seq(|lines|, i requires 0 <= i < |lines| => ToUpper(lines[i])))
  }

  /** The scanning loop of NewSnapCorrector. */
  method ReadKnown(lines: seq<string>) returns (known: Option<seq<string>>)
    ensures known == KnownOf(lines)
  {
    var umis: seq<string> := [];
    var k := -1;
    for i := 0 to |lines|
      invariant |umis| == i && (i == 0 <==> k == -1) && (i > 0 ==> k == |lines[0]|)
      invariant forall j :: 0 <= j < i ==> umis[j] == ToUpper(lines[j]) && |lines[j]| == k && ValidUmi(umis[j], false)
    {
      var umi := ToUpper(lines[i]);
      if k < 0 {
        k := |umi|;
      }
      if |umi| != k {
        return None;
      }
      var ok := ValidateUMI(umi, false);
      if !ok {
        return None;
      }
      umis := umis + [umi];
    }
    if k < 0 {
      return None;
    }
    assert umis == seq(|lines|, i requires 0 <= i < |lines| => ToUpper(lines[i]));
    return Some(umis);
  }

  // ---------------------------------------------------------------------
  // the cost and correction tables

  /** The Levenshtein cost of two UMIs of one length. */
  ghost function Cost(u: string, v: string): nat
  {
    Distance.EditDistance(u, v, |u|, |v|)
  }

  /** costTable[umi][c]: the known UMIs at cost c from umi, in input order,
      repeats kept. */
  ghost function WithCost(umi: string, known: seq<string>, c: nat): seq<string>
    decreases |known|
  {
    if known == [] then []
    else
      var last := known[|known| - 1];
      WithCost(umi, known[..|known| - 1], c) + (if Cost(umi, last) == c then [last] else [])
  }

  ghost function CostList(umi: string, known: seq<string>, k: nat): seq<seq<string>>
  {
    seq(k + 1, c requires 0 <= c <= k => WithCost(umi, known, c))
  }

  /** snapCorrectorEntry. */
  datatype Entry = Entry(knownUMI: string, edits: int)

  /** The inner loop over one cost list: the first non-empty list decides,
      and the UMI snaps only when that list holds a single known UMI. */
  function FirstSnap(costList: seq<seq<string>>, c: nat): (r: Option<Entry>)
    ensures r.Some? ==> c <= r.value.edits < |costList| && costList[r.value.edits] == [r.value.knownUMI]
    ensures r.Some? ==> forall d :: c <= d < r.value.edits ==> costList[d] == []
    decreases |costList| - c
  {
    if c >= |costList| then None
    else if |costList[c]| == 1 then Some(Entry(costList[c][0], c))
    else if |costList[c]| > 0 then None
    else FirstSnap(costList, c + 1)
  }

  /** correctionTable: the entry of every k-mer over ACGTN that snaps. */
  ghost function Table(known: seq<string>, k: nat): map<string, Entry>
  {
    map u | u in AllKmers(k, ALPHABET_WITH_N) && FirstSnap(CostList(u, known, k), 0).Some?
      :: FirstSnap(CostList(u, known, k), 0).value
  }

  /** SnapCorrector. */
  datatype SnapCorrector = SnapCorrector(knownUMIs: seq<string>, k: nat, correctionTable: map<string, Entry>)

  /** What NewSnapCorrector builds from the text of the known-UMI list; None
      for the panics of the reading loop, and for UMIs of length 0, whose
      Levenshtein distance panics. */
  ghost function SnapCorrectorOf(knownUMIs: string): Option<SnapCorrector>
  {
    match KnownOf(ScanLines(knownUMIs))
    case None => None
    case Some(known) =>
      var k := |known[0]|;
      if k == 0 then None else Some(SnapCorrector(known, k, Table(known, k)))
  }

  /** The population loop of the cost table, for one UMI. */
  method CostsOf(umi: string, known: seq<string>, k: nat) returns (costList: seq<seq<string>>)
    requires |umi| == k > 0 && forall j :: 0 <= j < |known| ==> |known[j]| == k
    ensures costList == CostList(umi, known, k)
  {
    costList := seq(k + 1, _ => []);
    for j := 0 to |known|
      invariant |costList| == k + 1
      invariant forall c :: 0 <= c <= k ==> costList[c] == WithCost(umi, known[..j], c)
    {
      var knownUMI := known[j];
      var d := Distance.Levenshtein(umi, knownUMI, "", "");
      Distance.LevenshteinIsEditDistance(umi, knownUMI);
      Distance.EditDistanceAtMostLength(umi, knownUMI, k);
      var cost := d.value;
      assert known[..j + 1][..j] == known[..j];
      costList := costList[cost := costList[cost] + [knownUMI]];
    }
    assert known[..|known|] == known;
  }

  /** The inner loop of the correction table, with its break. */
  method SnapOf(costList: seq<seq<string>>) returns (entry: Option<Entry>)
    ensures entry == FirstSnap(costList, 0)
  {
    entry := None;
    var cost := 0;
    while cost < |costList|
      invariant cost <= |costList| && FirstSnap(costList, 0) == FirstSnap(costList, cost) && entry.None?
      decreases |costList| - cost
    {
      var knownList := costList[cost];
      if |knownList| == 1 {
        entry := Some(Entry(knownList[0], cost));
      }
      if |knownList| > 0 {
        return;
      }
      cost := cost + 1;
    }
  }

  /** The cost table: every k-mer of all mapped to its cost list. */
  ghost function CostTable(all: seq<string>, known: seq<string>, k: nat): map<string, seq<seq<string>>>
  {
    map u | u in all :: CostList(u, known, k)
  }

  /** The initialisation and population loops of the cost table. */
  method BuildCostTable(all: seq<string>, known: seq<string>, k: nat) returns (costTable: map<string, seq<seq<string>>>)
    requires k > 0 && (forall j :: 0 <= j < |all| ==> |all[j]| == k) && forall j :: 0 <= j < |known| ==> |known[j]| == k
    ensures costTable == CostTable(all, known, k)
  {
    costTable := map[];
    for a := 0 to |all|
      invariant costTable.Keys == set u | u in all[..a]
      invariant forall u :: u in costTable ==> costTable[u] == CostList(u, known, k)
    {
      var umi := all[a];
      var costList := CostsOf(umi, known, k);
      costTable := costTable[umi := costList];
      assert all[..a + 1] == all[..a] + [umi];
    }
    assert all[..|all|] == all;
  }

  /** The correction table of a cost table: the entries of the k-mers that
      snap. */
  ghost function CorrectionTable(costTable: map<string, seq<seq<string>>>): map<string, Entry>
  {
    map u | u in costTable && FirstSnap(costTable[u], 0).Some? :: FirstSnap(costTable[u], 0).value
  }

  /** The loop over the cost table that fills the correction table. */
  method BuildCorrectionTable(costTable: map<string, seq<seq<string>>>) returns (correctionTable: map<string, Entry>)
    ensures correctionTable == CorrectionTable(costTable)
  {
    correctionTable := map[];
    var pending := costTable.Keys;
    while pending != {}
      invariant pending <= costTable.Keys
      invariant forall u :: u in correctionTable ==> u in costTable.Keys - pending && FirstSnap(costTable[u], 0) == Some(correctionTable[u])
      invariant forall u :: u in costTable.Keys - pending && FirstSnap(costTable[u], 0).Some? ==> u in correctionTable
      decreases pending
    {
      var umi :| umi in pending;
      var entry := SnapOf(costTable[umi]);
      if entry.Some? {
        correctionTable := correctionTable[umi := entry.value];
      }
      pending := pending - {umi};
    }
  }

  /** The correction table of the cost table over all k-mers is Table. */
  lemma TableOfCostTable(known: seq<string>, k: nat)
    ensures CorrectionTable(CostTable(AllKmers(k, ALPHABET_WITH_N), known, k)) == Table(known, k)
  {
  }

  /** NewSnapCorrector: reads the known UMIs, then lists every k-mer over
      ACGTN with the known UMIs at each cost, and keeps as the correction
      table the k-mers whose nearest known UMI is unique. */
  method NewSnapCorrector(knownUMIs: string) returns (corrector: Option<SnapCorrector>)
    ensures corrector == SnapCorrectorOf(knownUMIs)
  {
    var read := ReadKnown(ScanLines(knownUMIs));
    if read.None? {
      return None;
    }
    var known := read.value;
    var k := |known[0]|;
    if k == 0 {
      // The one 0-mer is compared with a known UMI, and Levenshtein panics
      // on empty strings.
      return None;
    }
    var all := AllKmers(k, ALPHABET_WITH_N);
    AllKmersFacts(k, ALPHABET_WITH_N);
    var costTable := BuildCostTable(all, known, k);
    var correctionTable := BuildCorrectionTable(costTable);
    TableOfCostTable(known, k);
    return Some(SnapCorrector(known, k, correctionTable));
  }

  /** CorrectUMI: the upper-cased UMI's entry, when it has one, with whether
      the entry differs from it; otherwise the UMI itself, -1 and false. An
      invalid base panics. */
  function CorrectUMI(c: SnapCorrector, umi: string): (r: Option<(string, int, bool)>)
    ensures r.None? <==> !ValidUmi(ToUpper(umi), true)
    ensures r.Some? && ToUpper(umi) !in c.correctionTable ==> r.value == (ToUpper(umi), -1, false)
    ensures r.Some? && ToUpper(umi) in c.correctionTable ==>
              r.value == (c.correctionTable[ToUpper(umi)].knownUMI, c.correctionTable[ToUpper(umi)].edits,
                          c.correctionTable[ToUpper(umi)].knownUMI != ToUpper(umi))
  {
    var u := ToUpper(umi);
    if !ValidUmi(u, true) then None
    else if u in c.correctionTable then
      var entry := c.correctionTable[u];
      Some((entry.knownUMI, entry.edits, entry.knownUMI != u))
    else Some((u, -1, false))
  }

  // ---------------------------------------------------------------------
  // what the correction table means

  /** known[j] is strictly nearer to u than every other known UMI (a known
      UMI listed twice is never strictly nearer than its copy). */
  ghost predicate IsUniqueNearest(u: string, known: seq<string>, j: int)
  {
    0 <= j < |known| && forall i :: 0 <= i < |known| && i != j ==> Cost(u, known[i]) > Cost(u, known[j])
  }

  /** No known UMI is at cost c exactly when the list at cost c is empty. */
  lemma {:induction false} WithCostEmpty(u: string, known: seq<string>, c: nat)
    ensures WithCost(u, known, c) == [] <==> forall i :: 0 <= i < |known| ==> Cost(u, known[i]) != c
    decreases |known|
  {
    if known != [] {
      WithCostEmpty(u, known[..|known| - 1], c);
    }
  }

  /** The list at cost c holds one UMI exactly when one known UMI is at cost
      c, and then it holds that UMI. */
  lemma {:induction false} WithCostSingle(u: string, known: seq<string>, c: nat, j: int)
    requires 0 <= j < |known| && Cost(u, known[j]) == c
    ensures WithCost(u, known, c) == [known[j]]
            <==> forall i :: 0 <= i < |known| && i != j ==> Cost(u, known[i]) != c
    decreases |known|
  {
    var init := known[..|known| - 1];
    if j == |known| - 1 {
      WithCostEmpty(u, init, c);
      assert forall i :: 0 <= i < |init| ==> init[i] == known[i];
    } else {
      WithCostSingle(u, init, c, j);
      WithCostEmpty(u, init, c);
      assert forall i :: 0 <= i < |init| ==> init[i] == known[i];
    }
  }

  /** A singleton list after empty ones is what FirstSnap finds. */
  lemma {:induction false} FirstSnapAt(costList: seq<seq<string>>, from: nat, c: nat, v: string)
    requires from <= c < |costList| && costList[c] == [v]
    requires forall d :: from <= d < c ==> costList[d] == []
    ensures FirstSnap(costList, from) == Some(Entry(v, c))
    decreases c - from
  {
    if from < c {
      FirstSnapAt(costList, from + 1, c, v);
    }
  }

  /** Every known UMI of length k is within cost k of a k-mer. */
  lemma CostAtMostK(u: string, known: seq<string>, k: nat)
    requires |u| == k && forall i :: 0 <= i < |known| ==> |known[i]| == k
    ensures forall i :: 0 <= i < |known| ==> Cost(u, known[i]) <= k
  {
    forall i | 0 <= i < |known|
      ensures Cost(u, known[i]) <= k
    {
      Distance.EditDistanceAtMostLength(u, known[i], k);
    }
  }

  /** A unique nearest known UMI is what FirstSnap finds, at its cost. */
  lemma SnapOfUniqueNearest(u: string, known: seq<string>, k: nat, j: int)
    requires |u| == k && forall i :: 0 <= i < |known| ==> |known[i]| == k
    requires IsUniqueNearest(u, known, j)
    ensures FirstSnap(CostList(u, known, k), 0) == Some(Entry(known[j], Cost(u, known[j])))
  {
    var cl := CostList(u, known, k);
    var c := Cost(u, known[j]);
    Distance.EditDistanceAtMostLength(u, known[j], k);
    WithCostSingle(u, known, c, j);
    forall d | 0 <= d < c
      ensures cl[d] == []
    {
      WithCostEmpty(u, known, d);
    }
    FirstSnapAt(cl, 0, c, known[j]);
  }

  /** What FirstSnap finds is a unique nearest known UMI. */
  lemma UniqueNearestOfSnap(u: string, known: seq<string>, k: nat) returns (j: int)
    requires FirstSnap(CostList(u, known, k), 0).Some?
    ensures IsUniqueNearest(u, known, j)
  {
    var cl := CostList(u, known, k);
    var e := FirstSnap(cl, 0).value;
    var c := e.edits;
    assert cl[c] == WithCost(u, known, c) == [e.knownUMI];
    WithCostMember(u, known, c, e.knownUMI);
    j :| 0 <= j < |known| && known[j] == e.knownUMI && Cost(u, known[j]) == c;
    WithCostSingle(u, known, c, j);
    forall i | 0 <= i < |known| && i != j
      ensures Cost(u, known[i]) > c
    {
      var d := Cost(u, known[i]);
      if d < c {
        assert cl[d] == [];
        WithCostEmpty(u, known, d);
      }
    }
  }

  /** A k-mer snaps to a known UMI exactly when that UMI is its unique
      nearest, and then the entry holds that UMI and its Levenshtein cost. */
  lemma SnapIsUniqueNearest(u: string, known: seq<string>, k: nat)
    requires |u| == k && forall i :: 0 <= i < |known| ==> |known[i]| == k
    ensures FirstSnap(CostList(u, known, k), 0).Some? <==> exists j :: IsUniqueNearest(u, known, j)
    ensures forall j :: IsUniqueNearest(u, known, j) ==>
              FirstSnap(CostList(u, known, k), 0) == Some(Entry(known[j], Cost(u, known[j])))
  {
    forall j | IsUniqueNearest(u, known, j)
      ensures FirstSnap(CostList(u, known, k), 0) == Some(Entry(known[j], Cost(u, known[j])))
    {
      SnapOfUniqueNearest(u, known, k, j);
    }
    if FirstSnap(CostList(u, known, k), 0).Some? {
      var j := UniqueNearestOfSnap(u, known, k);
    }
  }

  /** The list at cost c holds just the known UMIs at cost c. */
  lemma {:induction false} WithCostMember(u: string, known: seq<string>, c: nat, v: string)
    ensures v in WithCost(u, known, c) <==> exists i :: 0 <= i < |known| && known[i] == v && Cost(u, v) == c
    decreases |known|
  {
    if known != [] {
      var init := known[..|known| - 1];
      WithCostMember(u, init, c, v);
      assert forall i :: 0 <= i < |init| ==> init[i] == known[i];
      if v == known[|known| - 1] && Cost(u, v) == c {
        assert known[|known| - 1] == v;
      }
    }
  }

  /** u is a k-mer over ACGTN with a unique nearest known UMI. */
  ghost predicate Snappable(u: string, c: SnapCorrector)
  {
    |u| == c.k && OverAlphabet(u, ALPHABET_WITH_N) && exists j :: IsUniqueNearest(u, c.knownUMIs, j)
  }

  /** CorrectUMI on a valid UMI: when the upper-cased UMI is a k-mer over
      ACGTN with a unique nearest known UMI, it is corrected to that UMI at
      its Levenshtein cost; otherwise it is returned as it is, with -1. */
  lemma CorrectUMIIsUniqueNearest(knownUMIs: string, umi: string)
    requires SnapCorrectorOf(knownUMIs).Some? && ValidUmi(ToUpper(umi), true)
    ensures var c, u := SnapCorrectorOf(knownUMIs).value, ToUpper(umi);
            forall j :: (|u| == c.k && OverAlphabet(u, ALPHABET_WITH_N) && IsUniqueNearest(u, c.knownUMIs, j))
              ==> CorrectUMI(c, umi) == Some((c.knownUMIs[j], Cost(u, c.knownUMIs[j]) as int, c.knownUMIs[j] != u))
    ensures var c, u := SnapCorrectorOf(knownUMIs).value, ToUpper(umi);
            !Snappable(u, c) ==> CorrectUMI(c, umi) == Some((u, -1, false))
  {
    var c, u := SnapCorrectorOf(knownUMIs).value, ToUpper(umi);
    AllKmersFacts(c.k, ALPHABET_WITH_N);
    if |u| == c.k && OverAlphabet(u, ALPHABET_WITH_N) {
      SnapIsUniqueNearest(u, c.knownUMIs, c.k);
    }
  }

  /** A known UMI over ACGT listed once corrects to itself with no edits. */
  lemma CorrectKnownUmi(knownUMIs: string, j: int)
    requires SnapCorrectorOf(knownUMIs).Some?
    requires var known := SnapCorrectorOf(knownUMIs).value.knownUMIs;
             0 <= j < |known| && OverAlphabet(known[j], ALPHABET_WITH_N)
             && forall i :: 0 <= i < |known| && i != j ==> known[i] != known[j]
    ensures var c := SnapCorrectorOf(knownUMIs).value;
            CorrectUMI(c, c.knownUMIs[j]) == Some((c.knownUMIs[j], 0, false))
  {
    var c := SnapCorrectorOf(knownUMIs).value;
    var known, u := c.knownUMIs, c.knownUMIs[j];
    ToUpperIdempotent(ScanLines(knownUMIs)[j]);
    assert ToUpper(u) == u;
    Distance.EditDistanceZero(u, u, c.k, c.k);
    forall i | 0 <= i < |known| && i != j
      ensures Cost(u, known[i]) > 0
    {
      Distance.EditDistanceZero(u, known[i], c.k, c.k);
      assert u[..c.k] == u && known[i][..c.k] == known[i];
    }
    assert IsUniqueNearest(u, known, j);
    CorrectUMIIsUniqueNearest(knownUMIs, u);
  }
}
