/** Interval unions stored as a sorted sequence of endpoints
    {s0, e0, s1, e1, ...}, the searches over them, and the resumable
    UnionScanner. */
module EndpointIndexes {
  import opened Ints

  const POS_TYPE_MAX: int := MAX_INT32

  /** Strictly increasing endpoints, all int32. */
  predicate SortedEndpoints(a: seq<int>)
  {
    (forall i, j :: 0 <= i < j < |a| ==> a[i] < a[j]) && (forall i :: 0 <= i < |a| ==> IsInt32(a[i]))
  }

  /** A well-formed interval union: an even number of sorted endpoints. */
  predicate IsUnion(a: seq<int>)
  {
    SortedEndpoints(a) && |a| % 2 == 0
  }

  /** pos lies in one of the intervals [a[2k], a[2k+1]). */
  ghost predicate InUnion(a: seq<int>, pos: int)
  {
    exists k :: 0 <= k && 2 * k + 1 < |a| && a[2 * k] <= pos < a[2 * k + 1]
  }

  /** SearchPosTypes(a, x) (sort.Search for `a[i] >= x`): the first index
      whose value is at least x, or len(a). */
  function SearchPosTypes(a: seq<int>, x: int): (r: nat)
    ensures r <= |a|
    ensures forall i :: 0 <= i < r ==> a[i] < x
    ensures r < |a| ==> a[r] >= x
  {
    SearchFrom(a, x, 0)
  }

  function SearchFrom(a: seq<int>, x: int, lo: nat): (r: nat)
    requires lo <= |a|
    ensures lo <= r <= |a|
    ensures forall i :: lo <= i < r ==> a[i] < x
    ensures r < |a| ==> a[r] >= x
    decreases |a| - lo
  {
    if lo == |a| then lo else if a[lo] >= x then lo else SearchFrom(a, x, lo + 1)
  }

  /** On sorted endpoints every index from the answer on holds a value >= x,
      so the answer is the insertion point of x. */
  lemma SearchIsInsertionPoint(a: seq<int>, x: int)
    requires SortedEndpoints(a)
    ensures forall i :: SearchPosTypes(a, x) <= i < |a| ==> a[i] >= x
  {
  }

  /** The answer for a larger target is not smaller. */
  lemma SearchMonotone(a: seq<int>, x: int, y: int)
    requires SortedEndpoints(a) && x <= y
    ensures SearchPosTypes(a, x) <= SearchPosTypes(a, y)
  {
  }

  /** Any index whose predecessors are all below x and whose value (if any)
      is at least x is the answer. */
  lemma SearchUnique(a: seq<int>, x: int, r: int)
    requires 0 <= r <= |a|
    requires forall i :: 0 <= i < r ==> a[i] < x
    requires r < |a| ==> a[r] >= x
    ensures SearchPosTypes(a, x) == r
  {
  }

  /** ExpsearchPosType: probes a[idx], a[idx+1], a[idx+3], a[idx+7], ...
      until a value >= x or the end, then binary-searches the last gap. When
      idx is not past the answer the result is SearchPosTypes(a, x). */
  method ExpsearchPosType(a: seq<int>, x: int, idx: nat) returns (r: nat)
    requires SortedEndpoints(a)
    ensures idx <= SearchPosTypes(a, x) ==> r == SearchPosTypes(a, x)
    ensures idx > |a| ==> r == idx
  {
    ghost var ans := SearchPosTypes(a, x);
    SearchIsInsertionPoint(a, x);
    var nextIncr: nat := 1;
    var i: nat := idx;
    var startIdx: nat := idx;
    var endIdx: nat := |a|;
    while i < endIdx
      invariant startIdx <= i && nextIncr >= 1
      invariant endIdx == |a|
      invariant idx <= ans ==> startIdx <= ans
      invariant idx > |a| ==> startIdx == idx
      decreases endIdx - i
    {
      if a[i] >= x {
        endIdx := i;
        break;
      }
      startIdx := i + 1;
      i := i + nextIncr;
      nextIncr := nextIncr * 2;
    }
    assert idx <= ans ==> startIdx <= ans <= endIdx;
    while startIdx < endIdx
      invariant idx <= ans ==> startIdx <= ans <= endIdx
      invariant endIdx <= |a|
      invariant idx > |a| ==> startIdx == idx
      decreases endIdx - startIdx
    {
      var midIdx := (startIdx + endIdx) / 2;
      if a[midIdx] >= x {
        endIdx := midIdx;
      } else {
        startIdx := midIdx + 1;
      }
    }
    r := startIdx;
  }

  /** NewEndpointIndex: SearchPosTypes(endpoints, pos+1), the +1 taken in
      int32 (PosTypeMax + 1 wraps to MinInt32). */
  function NewEndpointIndex(pos: int, endpoints: seq<int>): nat
    requires IsInt32(pos)
  {
    SearchPosTypes(endpoints, WrapInt32(pos + 1))
  }

  /** Contained: the low bit of the index is set. */
  function Contained(ei: nat): bool { ei % 2 != 0 }

  /** Finished: past all the endpoints. */
  function Finished(ei: nat, endpoints: seq<int>): bool { ei >= |endpoints| }

  /** Begin clears the low bit. */
  function Begin(ei: nat): (r: nat)
    ensures r % 2 == 0 && r <= ei && ei - r <= 1
    ensures Contained(ei) ==> r == ei - 1
    ensures !Contained(ei) ==> r == ei
  {
    ei - ei % 2
  }

  /** The index meaning: for a well-formed union and pos below PosTypeMax,
      the endpoint index is odd exactly when pos is inside an interval. */
  lemma ContainedIffInUnion(a: seq<int>, pos: int)
    requires IsUnion(a) && IsInt32(pos) && pos < POS_TYPE_MAX
    ensures Contained(NewEndpointIndex(pos, a)) <==> InUnion(a, pos)
  {
    var i := NewEndpointIndex(pos, a);
    SearchIsInsertionPoint(a, pos + 1);
    if Contained(i) {
      var k := (i - 1) / 2;
      assert a[2 * k] <= pos < a[2 * k + 1];
    } else {
      forall k | 0 <= k && 2 * k + 1 < |a| ensures !(a[2 * k] <= pos < a[2 * k + 1]) {
        if a[2 * k] <= pos {
          assert 2 * k + 1 < i;
        }
      }
    }
  }

  /** When contained, Begin points at the start of the enclosing interval. */
  lemma BeginIsIntervalStart(a: seq<int>, pos: int)
    requires IsUnion(a) && IsInt32(pos) && pos < POS_TYPE_MAX
    requires Contained(NewEndpointIndex(pos, a))
    ensures Begin(NewEndpointIndex(pos, a)) < |a|
    ensures a[Begin(NewEndpointIndex(pos, a))] <= pos < a[Begin(NewEndpointIndex(pos, a)) + 1]
  {
  }

  /** Update: re-search from the current index; for a position that does not
      decrease this equals a fresh NewEndpointIndex. */
  method Update(ei: nat, oldPos: int, newPos: int, endpoints: seq<int>) returns (r: nat)
    requires SortedEndpoints(endpoints) && IsInt32(oldPos) && IsInt32(newPos)
    requires oldPos <= newPos < POS_TYPE_MAX
    requires ei == NewEndpointIndex(oldPos, endpoints)
    ensures r == NewEndpointIndex(newPos, endpoints)
  {
    SearchMonotone(endpoints, oldPos + 1, newPos + 1);
    r := ExpsearchPosType(endpoints, WrapInt32(newPos + 1), ei);
  }

  /** Positions strictly between the end of interval k and the start of the
      next one lie in no interval. */
  lemma GapNotInUnion(a: seq<int>, j: int, pos: int)
    requires IsUnion(a) && 0 <= j && 2 * j + 1 < |a|
    requires a[2 * j + 1] <= pos && (2 * j + 2 < |a| ==> pos < a[2 * j + 2])
    ensures !InUnion(a, pos)
  {
    forall k | 0 <= k && 2 * k + 1 < |a| ensures !(a[2 * k] <= pos < a[2 * k + 1]) {
      if k <= j {
        assert a[2 * k + 1] <= a[2 * j + 1];
      } else {
        assert a[2 * j + 2] <= a[2 * k];
      }
    }
  }

  /** UnionScanner: iterates over the positions of an interval union in
      increasing order, in pieces bounded by a caller-chosen limit. */
  class UnionScanner {
    const endpoints: seq<int>
    var pos: int
    var endpointIdx: nat

    /** pos is PosTypeMax once every interval has been handed out; otherwise
        it lies in interval endpointIdx/2 and endpointIdx equals
        SearchPosTypes(endpoints, pos+1). */
    ghost predicate Valid()
      reads this
    {
      IsUnion(endpoints)
      && (forall i :: 0 <= i < |endpoints| ==> endpoints[i] < POS_TYPE_MAX)
      && (pos == POS_TYPE_MAX ||
          (endpointIdx % 2 == 1 && endpointIdx < |endpoints|
           && endpoints[endpointIdx - 1] <= pos < endpoints[endpointIdx]))
    }

    /** NewUnionScanner: positioned at the first interval, or at PosTypeMax
        when there are none. */
    constructor (endpoints: seq<int>)
      requires IsUnion(endpoints) && forall i :: 0 <= i < |endpoints| ==> endpoints[i] < POS_TYPE_MAX
      ensures Valid() && this.endpoints == endpoints
      ensures |endpoints| == 0 ==> pos == POS_TYPE_MAX && endpointIdx == 0
      ensures |endpoints| > 0 ==> pos == endpoints[0] && endpointIdx == 1
    {
      this.endpoints := endpoints;
      if |endpoints| >= 1 {
        pos := endpoints[0];
        endpointIdx := 1;
      } else {
        pos := POS_TYPE_MAX;
        endpointIdx := 0;
      }
    }

    /** The scanner's index is the endpoint index of its position. */
    lemma IndexIsEndpointIndex()
      requires Valid() && pos != POS_TYPE_MAX
      ensures endpointIdx == NewEndpointIndex(pos, endpoints)
    {
      SearchUnique(endpoints, pos + 1, endpointIdx);
    }

    /** Pos: the next position to be handed out, or PosTypeMax. */
    function Pos(): (p: int)
      reads this
      requires Valid()
      ensures p == POS_TYPE_MAX || InUnion(endpoints, p)
    {
      if pos != POS_TYPE_MAX then
        assert endpoints[2 * ((endpointIdx - 1) / 2)] <= pos < endpoints[2 * ((endpointIdx - 1) / 2) + 1];
        pos
      else pos
    }

    /** Scan hands out the next piece [start, end) of the union below limit:
        false (and no change) once pos >= limit. Every position of the piece
        is in the union, every position skipped after it is not, and the
        next call resumes at the new pos. */
    method Scan(limit: int) returns (ok: bool, start: int, end: int)
      requires Valid() && IsInt32(limit)
      modifies this
      ensures Valid()
      ensures !ok <==> old(pos) >= limit
      ensures !ok ==> pos == old(pos) && endpointIdx == old(endpointIdx)
      ensures ok ==> start == old(pos) && start < end <= limit && end <= pos
      ensures ok ==> forall p :: start <= p < end ==> InUnion(endpoints, p)
      ensures ok ==> forall p :: end <= p < pos && p < POS_TYPE_MAX ==> !InUnion(endpoints, p)
      ensures ok ==> end == limit || pos > end
    {
      if pos >= limit {
        return false, 0, 0;
      }
      ok := true;
      start := pos;
      ghost var k := (endpointIdx - 1) / 2;
      var intervalEnd := endpoints[endpointIdx];
      if intervalEnd > limit {
        pos := limit;
        end := limit;
        forall p | start <= p < end ensures InUnion(endpoints, p) {
          assert endpoints[2 * k] <= p < endpoints[2 * k + 1];
        }
        return;
      }
      end := intervalEnd;
      forall p | start <= p < end ensures InUnion(endpoints, p) {
        assert endpoints[2 * k] <= p < endpoints[2 * k + 1];
      }
      endpointIdx := endpointIdx + 1;
      if Finished(endpointIdx, endpoints) {
        pos := POS_TYPE_MAX;
      } else {
        pos := endpoints[endpointIdx];
        endpointIdx := endpointIdx + 1;
      }
      forall p | end <= p < pos && p < POS_TYPE_MAX ensures !InUnion(endpoints, p) {
        GapNotInUnion(endpoints, k, p);
      }
    }
  }
}
