/** Resolving a group of duplicates (markduplicates/duplicate_index.go): the
    choice of the primary entry, the canonical order of a pair's UMIs, and
    the UMI distance between two keys. A log.Fatal is the None outcome. */
module DuplicateIndex {
  import opened Wrappers
  import Distance
  import DuplicateKeys

  /** What ChoosePrimary reads of a DuplicateEntry: its base-quality score
      and the file index of its (left) read. */
  datatype Entry = Entry(baseQScore: int, fileIdx: nat)

  /** Entry a ranks at least as high as entry b: a higher score, or the same
      score and a file index no larger. */
  predicate Outranks(a: Entry, b: Entry)
  {
    a.baseQScore > b.baseQScore || (a.baseQScore == b.baseQScore && a.fileIdx <= b.fileIdx)
  }

  /** Index p is the primary of entries: it outranks every entry, and every
      earlier entry ranks strictly lower. */
  ghost predicate IsPrimary(entries: seq<Entry>, p: int)
  {
    0 <= p < |entries|
    && (forall k :: 0 <= k < |entries| ==> Outranks(entries[p], entries[k]))
    && (forall k :: 0 <= k < p ==> !Outranks(entries[k], entries[p]))
  }

  /** ChoosePrimary: the index of the highest-scoring entry, ties broken by
      the smaller file index and then by position; -1 for no entries. */
  method ChoosePrimary(entries: seq<Entry>) returns (bestIndex: int)
    ensures entries == [] ==> bestIndex == -1
    ensures entries != [] ==> IsPrimary(entries, bestIndex)
  {
    bestIndex := -1;
    var bestScore := -1;
    var bestFileIdx := 0;
    for i := 0 to |entries|
      invariant i == 0 <==> bestIndex == -1
      invariant i > 0 ==> IsPrimary(entries[..i], bestIndex)
      invariant i > 0 ==> bestScore == entries[bestIndex].baseQScore && bestFileIdx == entries[bestIndex].fileIdx
    {
      var entry := entries[i];
      var currentScore := entry.baseQScore;
      if bestIndex < 0 || currentScore > bestScore || (currentScore == bestScore && entry.fileIdx < bestFileIdx) {
        bestIndex := i;
        bestScore := currentScore;
        bestFileIdx := entry.fileIdx;
      }
    }
    assert entries[..|entries|] == entries;
  }

  /** Outranks orders entries totally: of two entries one outranks the
      other, and if each outranks the other they tie on score and file
      index. */
  lemma OutranksTotal(a: Entry, b: Entry)
    ensures Outranks(a, b) || Outranks(b, a)
    ensures Outranks(a, b) && Outranks(b, a) ==> a.baseQScore == b.baseQScore && a.fileIdx == b.fileIdx
  {
  }

  /** The primary is unique: ChoosePrimary's answer is determined by the
      entries. */
  lemma PrimaryUnique(entries: seq<Entry>, p: int, q: int)
    requires IsPrimary(entries, p) && IsPrimary(entries, q)
    ensures p == q
  {
    assert Outranks(entries[p], entries[q]) && Outranks(entries[q], entries[p]);
  }

  /** Lexicographic order on UMIs, as strings.Compare(a, b) < 0. */
  predicate LessString(a: string, b: string)
  {
    if |a| == 0 then |b| > 0
    else if |b| == 0 then false
    else a[0] < b[0] || (a[0] == b[0] && LessString(a[1..], b[1..]))
  }

  /** Of two different strings exactly one is less than the other. */
  lemma {:induction false} LessStringTrichotomy(a: string, b: string)
    ensures a == b ==> !LessString(a, b)
    ensures a != b ==> (LessString(a, b) <==> !LessString(b, a))
  {
    if |a| > 0 && |b| > 0 {
      LessStringTrichotomy(a[1..], b[1..]);
      if a[0] == b[0] && a != b {
        assert a == [a[0]] + a[1..] && b == [b[0]] + b[1..];
      }
    }
  }

  /** What getCanonicalUmis reads of one end of a pair. */
  datatype End = End(refId: int, fivePrime: int, reversed: bool, read1: bool)

  /** getCanonicalUmis: the pair's UMIs left first, and whether the left UMI
      is R2's. umis is the two UMIs parsed from the left read's name, None
      when the name does not carry them (fatal). When both ends tie on
      reference, 5' position and direction, the lesser UMI goes left;
      otherwise R1's UMI does. */
  function CanonicalUmis(left: End, right: End, umis: Option<(string, string)>): (r: Option<(string, string, bool)>)
    ensures r.None? <==> umis.None?
    ensures r.Some? ==> (r.value.0, r.value.1) == (if r.value.2 then (umis.value.1, umis.value.0) else umis.value)
    ensures r.Some? && left.refId == right.refId && left.fivePrime == right.fivePrime && left.reversed == right.reversed
            ==> (!r.value.2 <==> LessString(umis.value.0, umis.value.1))
    ensures r.Some? && !(left.refId == right.refId && left.fivePrime == right.fivePrime && left.reversed == right.reversed)
            ==> (!r.value.2 <==> left.read1)
  {
    match umis
    case None => None
    case Some((u1, u2)) =>
      if left.refId == right.refId && left.fivePrime == right.fivePrime && left.reversed == right.reversed then
        if LessString(u1, u2) then Some((u1, u2, false)) else Some((u2, u1, true))
      else if left.read1 then Some((u1, u2, false))
      else Some((u2, u1, true))
  }

  /** On a tie the order is canonical: the UMI placed left does not depend on
      which read carried which UMI, and it is never the greater one. */
  lemma CanonicalUmisOnTie(left: End, right: End, u1: string, u2: string)
    requires left.refId == right.refId && left.fivePrime == right.fivePrime && left.reversed == right.reversed
    requires u1 != u2
    ensures var r, s := CanonicalUmis(left, right, Some((u1, u2))).value, CanonicalUmis(left, right, Some((u2, u1))).value;
            r.0 == s.0 && r.1 == s.1 && r.2 != s.2 && LessString(r.0, r.1)
  {
    LessStringTrichotomy(u1, u2);
  }

  /** umiKey: a duplicate key together with the pair's canonical UMIs. */
  datatype UmiKey = UmiKey(key: DuplicateKeys.DuplicateKey, leftUmi: string, rightUmi: string)

  /** umiKey.distance: the Levenshtein distances of the left UMIs and of the
      right UMIs, each counted when k's UMI is non-empty. Comparing a single
      key with a pair key is fatal, and so is the Levenshtein panic on UMIs
      of different lengths. */
  function UmiDistance(k: UmiKey, other: UmiKey): (r: Option<int>)
    ensures DuplicateKeys.IsSingle(k.key) != DuplicateKeys.IsSingle(other.key) ==> r.None?
  {
    if DuplicateKeys.IsSingle(k.key) != DuplicateKeys.IsSingle(other.key) then None
    else
      var left := if |k.leftUmi| > 0 then Distance.LevenshteinOf(k.leftUmi, other.leftUmi, "", "") else Some(0);
      var right := if |k.rightUmi| > 0 then Distance.LevenshteinOf(k.rightUmi, other.rightUmi, "", "") else Some(0);
      if left.None? || right.None? then None else Some(left.value + right.value)
  }

  /** On keys of the same kind whose UMIs have matching lengths, the UMI
      distance is the sum of the standard edit distances of the two sides. */
  lemma UmiDistanceIsEditDistance(k: UmiKey, other: UmiKey)
    requires DuplicateKeys.IsSingle(k.key) == DuplicateKeys.IsSingle(other.key)
    requires |k.leftUmi| == |other.leftUmi| && |k.rightUmi| == |other.rightUmi|
    ensures UmiDistance(k, other)
            == Some(Distance.EditDistance(k.leftUmi, other.leftUmi, |k.leftUmi|, |other.leftUmi|)
                    + Distance.EditDistance(k.rightUmi, other.rightUmi, |k.rightUmi|, |other.rightUmi|))
  {
    if |k.leftUmi| > 0 {
      Distance.LevenshteinIsEditDistance(k.leftUmi, other.leftUmi);
    }
    if |k.rightUmi| > 0 {
      Distance.LevenshteinIsEditDistance(k.rightUmi, other.rightUmi);
    }
  }

  /** A UMI on k's side whose counterpart has another length is fatal. */
  lemma UmiDistanceLengthMismatch(k: UmiKey, other: UmiKey)
    requires |k.leftUmi| > 0 && |k.leftUmi| != |other.leftUmi|
    ensures UmiDistance(k, other).None?
  {
  }
}
