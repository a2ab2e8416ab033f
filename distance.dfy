/** Barcode edit distance (util/distance.go): a Levenshtein matrix filled cell
    by cell, which, when the walk along the bottom-right corner still finds
    an insertion or deletion, is extended with bases read downstream of the
    barcodes. A Go panic is the None outcome. */
module Distance {
  import opened Wrappers
  import opened Ints

  /** The three traversals of a Levenshtein matrix that can lead into a cell. */
  datatype Operation = Diagonal | Right | Down

  function Min3(a: int, b: int, c: int): int
  {
    Min(Min(a, b), c)
  }

  /** The standard edit distance between r1[..i] and r2[..j] (insertions,
      deletions and substitutions each cost one). */
  function EditDistance(r1: string, r2: string, i: nat, j: nat): nat
    requires i <= |r1| && j <= |r2|
    decreases i + j
  {
    if i == 0 then j
    else if j == 0 then i
    else
      Min3(EditDistance(r1, r2, i - 1, j) + 1,
           EditDistance(r1, r2, i, j - 1) + 1,
           EditDistance(r1, r2, i - 1, j - 1) + (if r1[i - 1] == r2[j - 1] then 0 else 1))
  }

  /** The value computeCell writes at (i, j): the border is i or j; on equal
      bases the diagonal is copied; otherwise one more than the least of the
      cells above, to the left and diagonally before. */
  function Cell(r1: string, r2: string, i: nat, j: nat): nat
    requires i <= |r1| && j <= |r2|
    decreases i + j
  {
    if i == 0 then j
    else if j == 0 then i
    else if r1[i - 1] == r2[j - 1] then Cell(r1, r2, i - 1, j - 1)
    else
      Min3(Cell(r1, r2, i - 1, j) + 1, Cell(r1, r2, i - 1, j - 1) + 1, Cell(r1, r2, i, j - 1) + 1)
  }

  /** The operations computeCell reports for (i, j): none on the border,
      Diagonal on equal bases, and otherwise those among Down, Diagonal and
      Right (in that order) that reach the minimum. */
  function CellOps(r1: string, r2: string, i: nat, j: nat): (ops: seq<Operation>)
    requires i <= |r1| && j <= |r2|
    ensures i == 0 || j == 0 ==> ops == []
  {
    if i == 0 || j == 0 then []
    else if r1[i - 1] == r2[j - 1] then [Diagonal]
    else
      var down, diagonal, right := Cell(r1, r2, i - 1, j) + 1, Cell(r1, r2, i - 1, j - 1) + 1, Cell(r1, r2, i, j - 1) + 1;
      var m := Min3(down, diagonal, right);
      (if down == m then [Down] else []) + (if diagonal == m then [Diagonal] else [])
        + (if right == m then [Right] else [])
  }

  /** Dropping one base of r1 lowers the distance by at most one. */
  lemma EditDistanceUp(r1: string, r2: string, i: nat, j: nat)
    requires 0 < i <= |r1| && j <= |r2|
    ensures EditDistance(r1, r2, i, j) <= EditDistance(r1, r2, i - 1, j) + 1
  {
  }

  /** A distance grows by at most one when r2 gains a base. */
  lemma {:induction false} EditDistanceRight(r1: string, r2: string, i: nat, j: nat)
    requires i <= |r1| && j < |r2|
    ensures EditDistance(r1, r2, i, j) <= EditDistance(r1, r2, i, j + 1) + 1
  {
    if i > 0 {
      EditDistanceRight(r1, r2, i - 1, j);
      EditDistanceUp(r1, r2, i, j);
    }
  }

  /** A distance grows by at most one when r1 gains a base. */
  lemma {:induction false} EditDistanceDown(r1: string, r2: string, i: nat, j: nat)
    requires i < |r1| && j <= |r2|
    ensures EditDistance(r1, r2, i, j) <= EditDistance(r1, r2, i + 1, j) + 1
  {
    if j > 0 {
      EditDistanceDown(r1, r2, i, j - 1);
      assert EditDistance(r1, r2, i, j) <= EditDistance(r1, r2, i, j - 1) + 1;
    }
  }

  /** Two strings of one length are at most that many substitutions
      apart. */
  lemma {:induction false} EditDistanceAtMostLength(r1: string, r2: string, i: nat)
    requires i <= |r1| && i <= |r2|
    ensures EditDistance(r1, r2, i, i) <= i
  {
    if i > 0 {
      EditDistanceAtMostLength(r1, r2, i - 1);
    }
  }

  /** Distance zero means equal prefixes, and a prefix is at distance zero
      from itself. */
  lemma {:induction false} EditDistanceZero(r1: string, r2: string, i: nat, j: nat)
    requires i <= |r1| && j <= |r2|
    ensures EditDistance(r1, r2, i, j) == 0 <==> i == j && r1[..i] == r2[..j]
    decreases i + j
  {
    if i > 0 && j > 0 {
      EditDistanceZero(r1, r2, i - 1, j - 1);
      assert r1[..i] == r1[..i - 1] + [r1[i - 1]] && r2[..j] == r2[..j - 1] + [r2[j - 1]];
      if i == j && r1[..i] == r2[..j] {
        assert r1[..i - 1] == r1[..i][..i - 1] && r2[..j - 1] == r2[..j][..j - 1];
        assert r1[i - 1] == r1[..i][i - 1] && r2[j - 1] == r2[..j][j - 1];
      }
    }
  }

  /** computeCell's recurrence is the standard edit distance: copying the
      diagonal on equal bases never misses a cheaper path. */
  lemma {:induction false} CellIsEditDistance(r1: string, r2: string, i: nat, j: nat)
    requires i <= |r1| && j <= |r2|
    ensures Cell(r1, r2, i, j) == EditDistance(r1, r2, i, j)
    decreases i + j
  {
    if i > 0 && j > 0 {
      CellIsEditDistance(r1, r2, i - 1, j - 1);
      if r1[i - 1] == r2[j - 1] {
        CellEqualBases(r1, r2, i, j);
      } else {
        CellIsEditDistance(r1, r2, i - 1, j);
        CellIsEditDistance(r1, r2, i, j - 1);
        CellOtherBases(r1, r2, i, j);
      }
    }
  }

  /** On equal bases the diagonal is never beaten by an insertion or a
      deletion, so copying it agrees with the edit distance. */
  lemma CellEqualBases(r1: string, r2: string, i: nat, j: nat)
    requires 0 < i <= |r1| && 0 < j <= |r2| && r1[i - 1] == r2[j - 1]
    requires Cell(r1, r2, i - 1, j - 1) == EditDistance(r1, r2, i - 1, j - 1)
    ensures Cell(r1, r2, i, j) == EditDistance(r1, r2, i, j)
  {
    EditDistanceRight(r1, r2, i - 1, j - 1);
    EditDistanceDown(r1, r2, i - 1, j - 1);
  }

  /** On different bases both recurrences take the least of the same three
      neighbours plus one. */
  lemma CellOtherBases(r1: string, r2: string, i: nat, j: nat)
    requires 0 < i <= |r1| && 0 < j <= |r2| && r1[i - 1] != r2[j - 1]
    requires Cell(r1, r2, i - 1, j - 1) == EditDistance(r1, r2, i - 1, j - 1)
    requires Cell(r1, r2, i - 1, j) == EditDistance(r1, r2, i - 1, j)
    requires Cell(r1, r2, i, j - 1) == EditDistance(r1, r2, i, j - 1)
    ensures Cell(r1, r2, i, j) == EditDistance(r1, r2, i, j)
  {
  }

  /** The walk past the corner of the barcode matrix: from (i, j), while the
      cell's operations include Down and r2 has a downstream base left, take
      it (j + 1); while they include Right and r1 has one, take it (i + 1).
      The result is the cell where neither applies. */
  function Extend(r1: string, r2: string, i: nat, j: nat): (end: (nat, nat))
    requires i <= |r1| && j <= |r2|
    ensures i <= end.0 <= |r1| && j <= end.1 <= |r2|
    decreases |r1| - i + |r2| - j
  {
    var ops := CellOps(r1, r2, i, j);
    var down := Down in ops && j < |r2|;
    var right := Right in ops && i < |r1|;
    if !down && !right then (i, j)
    else Extend(r1, r2, if right then i + 1 else i, if down then j + 1 else j)
  }

  /** One step of the walk, unfolded. */
  lemma ExtendStep(r1: string, r2: string, i: nat, j: nat, ops: seq<Operation>, down: bool, right: bool)
    requires i <= |r1| && j <= |r2| && ops == CellOps(r1, r2, i, j)
    requires down == (Down in ops && j < |r2|) && right == (Right in ops && i < |r1|)
    ensures !down && !right ==> Extend(r1, r2, i, j) == (i, j)
    ensures down || right ==> Extend(r1, r2, i, j) == Extend(r1, r2, if right then i + 1 else i, if down then j + 1 else j)
  {
  }

  /** What Levenshtein(s1, s2, a1, a2) returns: the lesser of the barcodes'
      distance and the distance at the end of the downstream walk. Unequal
      lengths panic; so do empty barcodes, since the first cell computed is
      (1, 1). */
  function LevenshteinOf(s1: string, s2: string, a1: string, a2: string): (r: Option<nat>)
    ensures r.None? <==> |s1| != |s2| || |s1| == 0
  {
    if |s1| != |s2| || |s1| == 0 then None
    else
      var r1, r2, n := s1 + a1, s2 + a2, |s1|;
      var end := Extend(r1, r2, n, n);
      Some(Min(Cell(r1, r2, n, n), Cell(r1, r2, end.0, end.1)))
  }

  lemma LevenshteinOfWalk(s1: string, s2: string, a1: string, a2: string)
    requires |s1| == |s2| > 0
    ensures var end := Extend(s1 + a1, s2 + a2, |s1|, |s1|);
            LevenshteinOf(s1, s2, a1, a2) == Some(Min(Cell(s1 + a1, s2 + a2, |s1|, |s1|), Cell(s1 + a1, s2 + a2, end.0, end.1)))
  {
  }

  /** Without downstream bases, Levenshtein is the standard edit distance of
      the two barcodes. */
  lemma LevenshteinIsEditDistance(s1: string, s2: string)
    requires |s1| == |s2| > 0
    ensures LevenshteinOf(s1, s2, "", "") == Some(EditDistance(s1, s2, |s1|, |s2|))
  {
    assert s1 + "" == s1 && s2 + "" == s2;
    CellIsEditDistance(s1, s2, |s1|, |s2|);
  }

  /** Downstream bases can only lower the result. */
  lemma LevenshteinAtMostEditDistance(s1: string, s2: string, a1: string, a2: string)
    requires |s1| == |s2| > 0
    ensures LevenshteinOf(s1, s2, a1, a2).value <= EditDistance(s1, s2, |s1|, |s2|)
  {
    var r1, r2, n := s1 + a1, s2 + a2, |s1|;
    CellPrefix(s1, s2, a1, a2, n, n);
    CellIsEditDistance(s1, s2, n, n);
  }

  /** A cell depends only on the prefixes it covers. */
  lemma {:induction false} CellPrefix(s1: string, s2: string, a1: string, a2: string, i: nat, j: nat)
    requires i <= |s1| && j <= |s2|
    ensures Cell(s1 + a1, s2 + a2, i, j) == Cell(s1, s2, i, j)
    decreases i + j
  {
    if i > 0 && j > 0 {
      CellPrefix(s1, s2, a1, a2, i - 1, j - 1);
      CellPrefix(s1, s2, a1, a2, i - 1, j);
      CellPrefix(s1, s2, a1, a2, i, j - 1);
      assert (s1 + a1)[i - 1] == s1[i - 1] && (s2 + a2)[j - 1] == s2[j - 1];
    }
  }

  /** operations.contains: whether some operation of given is in o. */
  method Contains(o: seq<Operation>, given: seq<Operation>) returns (found: bool)
    ensures found <==> exists k :: 0 <= k < |given| && given[k] in o
  {
    for k := 0 to |given|
      invariant forall k' :: 0 <= k' < k ==> given[k'] !in o
    {
      for l := 0 to |o|
        invariant forall l' :: 0 <= l' < l ==> o[l'] != given[k]
      {
        if given[k] == o[l] {
          return true;
        }
      }
    }
    return false;
  }

  /** r is the part of full read so far. */
  ghost predicate Prefix(r: string, full: string)
  {
    |r| <= |full| && r == full[..|r|]
  }

  lemma TakeOne(r: string, rest: string, full: string)
    requires r + rest == full && |rest| > 0
    ensures (r + [rest[0]]) + rest[1..] == full
  {
    assert rest == [rest[0]] + rest[1..];
  }

  lemma FilledAt(m: array2<int>, r1: string, r2: string, rowsDone: nat, colsDone: nat, x: nat, y: nat)
    requires rowsDone <= m.Length0 && colsDone <= m.Length1
    requires rowsDone <= |r1| + 1 && colsDone <= |r2| + 1
    requires Filled(m, r1, r2, rowsDone, colsDone) && x < rowsDone && y < colsDone
    ensures m[x, y] == Cell(r1, r2, x, y)
  {
  }

  lemma FilledShrink(m: array2<int>, r1: string, r2: string, rowsDone: nat, colsDone: nat, rows': nat, cols': nat)
    requires rowsDone <= m.Length0 && colsDone <= m.Length1
    requires rowsDone <= |r1| + 1 && colsDone <= |r2| + 1
    requires Filled(m, r1, r2, rowsDone, colsDone) && rows' <= rowsDone && cols' <= colsDone
    ensures Filled(m, r1, r2, rows', cols')
  {
  }

  lemma SplitIsPrefix(r: string, rest: string, full: string)
    requires r + rest == full
    ensures Prefix(r, full)
  {
    assert full[..|r|] == r;
  }

  /** Every cell (x, y) with x < rowsDone and y < colsDone holds its value. */
  ghost predicate Filled(m: array2<int>, r1: string, r2: string, rowsDone: nat, colsDone: nat)
    reads m
    requires rowsDone <= m.Length0 && colsDone <= m.Length1
    requires rowsDone <= |r1| + 1 && colsDone <= |r2| + 1
  {
    forall x, y {:trigger m[x, y]} :: 0 <= x < rowsDone && 0 <= y < colsDone ==> m[x, y] == Cell(r1, r2, x, y)
  }

  /** Cells (x, 0) .. (x, n - 1) hold their values. */
  ghost predicate RowDone(m: array2<int>, r1: string, r2: string, x: nat, n: nat)
    reads m
    requires x < m.Length0 && x <= |r1| && n <= m.Length1 && n <= |r2| + 1
  {
    forall y {:trigger m[x, y]} :: 0 <= y < n ==> m[x, y] == Cell(r1, r2, x, y)
  }

  /** Cells (0, y) .. (n - 1, y) hold their values. */
  ghost predicate ColDone(m: array2<int>, r1: string, r2: string, y: nat, n: nat)
    reads m
    requires y < m.Length1 && y <= |r2| && n <= m.Length0 && n <= |r1| + 1
  {
    forall x {:trigger m[x, y]} :: 0 <= x < n ==> m[x, y] == Cell(r1, r2, x, y)
  }

  /** computeCell: writes cell (i, j) from its three predecessors and reports
      the operations that reach it. The bases read are those of the current
      r1 and r2, prefixes of the full sequences full1 and full2. */
  method ComputeCell(m: array2<int>, i: nat, j: nat, r1: string, r2: string, ghost full1: string, ghost full2: string)
    returns (ops: seq<Operation>)
    requires Prefix(r1, full1) && Prefix(r2, full2) && |full1| < m.Length0 && |full2| < m.Length1
    requires i <= |r1| && j <= |r2|
    requires i > 0 && j > 0 ==> m[i - 1, j - 1] == Cell(full1, full2, i - 1, j - 1)
                                && m[i - 1, j] == Cell(full1, full2, i - 1, j)
                                && m[i, j - 1] == Cell(full1, full2, i, j - 1)
    modifies m
    ensures m[i, j] == Cell(full1, full2, i, j) && ops == CellOps(full1, full2, i, j)
    ensures i == 0 ==> m[i, j] == j
    ensures j == 0 ==> m[i, j] == i
    ensures forall x, y :: 0 <= x < m.Length0 && 0 <= y < m.Length1 && (x, y) != (i, j) ==> m[x, y] == old(m[x, y])
  {
    if i == 0 {
      m[i, j] := j;
      return [];
    }
    if j == 0 {
      m[i, j] := i;
      return [];
    }
    assert r1[i - 1] == full1[i - 1] && r2[j - 1] == full2[j - 1];
    if r1[i - 1] == r2[j - 1] {
      m[i, j] := m[i - 1, j - 1];
      return [Diagonal];
    }
    var downValue := m[i - 1, j] + 1;
    var diagonalValue := m[i - 1, j - 1] + 1;
    var rightValue := m[i, j - 1] + 1;
    var minValue := downValue;
    if diagonalValue < minValue {
      minValue := diagonalValue;
    }
    if rightValue < minValue {
      minValue := rightValue;
    }
    m[i, j] := minValue;
    ops := [];
    if downValue == minValue {
      ops := ops + [Down];
    }
    if diagonalValue == minValue {
      ops := ops + [Diagonal];
    }
    if rightValue == minValue {
      ops := ops + [Right];
    }
  }

  /** computeRow: cells (i, 0) .. (i, col), left to right. */
  method ComputeRow(m: array2<int>, i: nat, col: nat, r1: string, r2: string, ghost full1: string, ghost full2: string)
    requires Prefix(r1, full1) && Prefix(r2, full2) && |full1| < m.Length0 && |full2| < m.Length1
    requires i <= |r1| && col <= |r2|
    requires i > 0 ==> RowDone(m, full1, full2, i - 1, col + 1)
    modifies m
    ensures RowDone(m, full1, full2, i, col + 1)
    ensures forall x, y :: 0 <= x < m.Length0 && 0 <= y < m.Length1 && (x != i || y > col) ==> m[x, y] == old(m[x, y])
  {
    for y := 0 to col + 1
      invariant RowDone(m, full1, full2, i, y)
      invariant forall x, y' :: 0 <= x < m.Length0 && 0 <= y' < m.Length1 && (x != i || y' >= y) ==> m[x, y'] == old(m[x, y'])
    {
      var _ := ComputeCell(m, i, y, r1, r2, full1, full2);
    }
  }

  /** computeCol: cells (0, j) .. (row, j), top to bottom. */
  method ComputeCol(m: array2<int>, j: nat, row: nat, r1: string, r2: string, ghost full1: string, ghost full2: string)
    requires Prefix(r1, full1) && Prefix(r2, full2) && |full1| < m.Length0 && |full2| < m.Length1
    requires row <= |r1| && j <= |r2|
    requires j > 0 ==> ColDone(m, full1, full2, j - 1, row + 1)
    modifies m
    ensures ColDone(m, full1, full2, j, row + 1)
    ensures forall x, y :: 0 <= x < m.Length0 && 0 <= y < m.Length1 && (y != j || x > row) ==> m[x, y] == old(m[x, y])
  {
    for x := 0 to row + 1
      invariant ColDone(m, full1, full2, j, x)
      invariant forall x', y :: 0 <= x' < m.Length0 && 0 <= y < m.Length1 && (y != j || x' >= x) ==> m[x', y] == old(m[x', y])
    {
      var _ := ComputeCell(m, x, j, r1, r2, full1, full2);
    }
  }

  /** One round of the fill: row i and column j up to the corner (i, j),
      then the corner itself, whose operations are returned. */
  method FillCorner(m: array2<int>, i: nat, j: nat, r1: string, r2: string, ghost full1: string, ghost full2: string)
    returns (ops: seq<Operation>)
    requires Prefix(r1, full1) && Prefix(r2, full2) && |full1| < m.Length0 && |full2| < m.Length1
    requires 1 <= i <= |r1| && 1 <= j <= |r2|
    requires Filled(m, full1, full2, i, j)
    modifies m
    ensures Filled(m, full1, full2, i + 1, j + 1)
    ensures ops == CellOps(full1, full2, i, j)
  {
    var above, left := i - 1, j - 1;
    assert RowDone(m, full1, full2, above, j) by {
      forall y | 0 <= y < j
        ensures m[above, y] == Cell(full1, full2, above, y)
      {
      }
    }
    ComputeRow(m, i, j - 1, r1, r2, full1, full2);
    assert Filled(m, full1, full2, i, j);
    assert ColDone(m, full1, full2, left, i + 1) by {
      forall x | 0 <= x <= i
        ensures m[x, left] == Cell(full1, full2, x, left)
      {
      }
    }
    ComputeCol(m, j, i - 1, r1, r2, full1, full2);
    assert RowDone(m, full1, full2, i, j);
    assert Filled(m, full1, full2, i, j);
    ops := ComputeCell(m, i, j, r1, r2, full1, full2);
    assert RowDone(m, full1, full2, i, j);
    assert ColDone(m, full1, full2, j, i);
    assert Filled(m, full1, full2, i, j);
  }

  /** One step of the walk past the corner (|r1|, |r2|), whose operations
      are ops: a Down takes the next downstream base of the second read, a
      Right the next one of the first; done when neither applies. */
  method StepPastCorner(ops: seq<Operation>, r1: string, rest1: string, r2: string, rest2: string,
                        ghost full1: string, ghost full2: string)
    returns (r1': string, rest1': string, r2': string, rest2': string, done: bool)
    requires r1 + rest1 == full1 && r2 + rest2 == full2
    requires ops == CellOps(full1, full2, |r1|, |r2|)
    ensures r1' + rest1' == full1 && r2' + rest2' == full2
    ensures |r1| <= |r1'| <= |r1| + 1 && |r2| <= |r2'| <= |r2| + 1
    ensures done ==> r1' == r1 && r2' == r2 && Extend(full1, full2, |r1|, |r2|) == (|r1|, |r2|)
    ensures !done ==> Extend(full1, full2, |r1|, |r2|) == Extend(full1, full2, |r1'|, |r2'|)
                      && |rest1'| + |rest2'| < |rest1| + |rest2|
  {
    r1', rest1', r2', rest2' := r1, rest1, r2, rest2;
    done := true;
    var down := Contains(ops, [Down]);
    var right := Contains(ops, [Right]);
    assert down <==> Down in ops by {
      assert [Down][0] == Down;
    }
    assert right <==> Right in ops by {
      assert [Right][0] == Right;
    }
    ExtendStep(full1, full2, |r1|, |r2|, ops, down && |rest2| > 0, right && |rest1| > 0);
    if down && |rest2| > 0 {
      TakeOne(r2, rest2, full2);
      r2' := r2 + [rest2[0]];
      rest2' := rest2[1..];
      done := false;
    }
    if right && |rest1| > 0 {
      TakeOne(r1, rest1, full1);
      r1' := r1 + [rest1[0]];
      rest1' := rest1[1..];
      done := false;
    }
  }

  /** The part of Levenshtein's loop past the corner, once cell (|r1|, |r2|)
      is filled: where neither an insertion nor a deletion reaches that cell,
      the lesser of the corner value and that cell's value; otherwise the
      walk takes one step and the result is None. */
  method WalkPastCorner(m: array2<int>, ops: seq<Operation>, r1: string, rest1: string, r2: string, rest2: string,
                        s1: string, s2: string, ghost a1: string, ghost a2: string)
    returns (r1': string, rest1': string, r2': string, rest2': string, result: Option<nat>)
    requires |s1| == |s2| > 0 && m.Length0 == |s1 + a1| + 1 && m.Length1 == |s2 + a2| + 1
    requires r1 + rest1 == s1 + a1 && r2 + rest2 == s2 + a2 && |s1| <= |r1| && |s2| <= |r2|
    requires Extend(s1 + a1, s2 + a2, |r1|, |r2|) == Extend(s1 + a1, s2 + a2, |s1|, |s1|)
    requires Filled(m, s1 + a1, s2 + a2, |r1| + 1, |r2| + 1)
    requires ops == CellOps(s1 + a1, s2 + a2, |r1|, |r2|)
    ensures result.Some? ==> result == LevenshteinOf(s1, s2, a1, a2)
    ensures result.None? ==> && r1' + rest1' == s1 + a1 && r2' + rest2' == s2 + a2
                             && |r1| <= |r1'| && |r2| <= |r2'|
                             && |rest1'| + |rest2'| < |rest1| + |rest2|
                             && Extend(s1 + a1, s2 + a2, |r1'|, |r2'|) == Extend(s1 + a1, s2 + a2, |s1|, |s1|)
                             && Filled(m, s1 + a1, s2 + a2, |r1'|, |r2'|)
  {
    ghost var full1, full2 := s1 + a1, s2 + a2;
    var rows, cols := |s1|, |s2|;
    var done;
    r1', rest1', r2', rest2', done := StepPastCorner(ops, r1, rest1, r2, rest2, full1, full2);
    if done {
      var i, j := |r1|, |r2|;
      assert LevenshteinOf(s1, s2, a1, a2) == Some(Min(m[rows, cols], m[i, j])) by {
        FilledAt(m, full1, full2, i + 1, j + 1, rows, cols);
        FilledAt(m, full1, full2, i + 1, j + 1, i, j);
        LevenshteinOfWalk(s1, s2, a1, a2);
      }
      if m[rows, cols] <= m[i, j] {
        return r1', rest1', r2', rest2', Some(m[rows, cols]);
      }
      return r1', rest1', r2', rest2', Some(m[i, j]);
    }
    FilledShrink(m, full1, full2, |r1| + 1, |r2| + 1, |r1'|, |r2'|);
    result := None;
  }

  /** Levenshtein: fills the matrix along the diagonal, then walks past the
      corner into the downstream bases as long as an insertion or deletion
      reaches the current cell, and returns the lesser of the corner value
      and the value where the walk stops. */
  method Levenshtein(s1: string, s2: string, a1: string, a2: string) returns (distance: Option<nat>)
    ensures distance == LevenshteinOf(s1, s2, a1, a2)
  {
    if |s1| != |s2| {
      return None;
    }
    ghost var full1, full2 := s1 + a1, s2 + a2;
    var r1, r2 := s1, s2;
    var rows, cols := |r1|, |r2|;
    if rows == 0 {
      // The first cell computed is (1, 1), which reads r1[0].
      return None;
    }
    var m := new int[rows + |a1| + 1, cols + |a2| + 1]((_, _) => 0);
    var rest1, rest2 := a1, a2;
    var i, iEnd, j, jEnd := 1, rows, 1, cols;
    ghost var walking := false;
    ghost var target := Extend(full1, full2, rows, rows);
    while true
      invariant m.Length0 == |full1| + 1 && m.Length1 == |full2| + 1
      invariant r1 + rest1 == full1 && r2 + rest2 == full2
      invariant iEnd == |r1| && jEnd == |r2| && 1 <= i <= iEnd && 1 <= j <= jEnd
      invariant !walking ==> i == j <= rows && r1 == s1 && r2 == s2
      invariant walking ==> i == iEnd && j == jEnd && rows <= i && cols <= j
      invariant walking ==> Extend(full1, full2, i, j) == target
      invariant Filled(m, full1, full2, i, j)
      decreases |rest1| + |rest2|, m.Length0 - i
    {
      SplitIsPrefix(r1, rest1, full1);
      SplitIsPrefix(r2, rest2, full2);
      var cellOperations := FillCorner(m, i, j, r1, r2, full1, full2);
      if i < rows {
        i, j := i + 1, j + 1;
        continue;
      }
      if i >= rows {
        var result;
        r1, rest1, r2, rest2, result := WalkPastCorner(m, cellOperations, r1, rest1, r2, rest2, s1, s2, a1, a2);
        if result.Some? {
          return result;
        }
        walking := true;
        i, iEnd, j, jEnd := |r1|, |r1|, |r2|, |r2|;
      }
    }
  }
}
