/** A 2-dimensional bitmap whose major dimension (position) is circular:
    row `pos % nCirc` holds the bits of position pos. wordPops counts the
    nonzero words of each row; firstPos and lastPos bound the occupied
    positions, with the sentinels (FirstPosEmpty, -1) when the bitmap is empty.

    The source computes `x & (nCirc - 1)` and `x &^ (nCirc - 1)` for a power
    of two nCirc; they are written here as `x % nCirc` and `x - x % nCirc`,
    which agree with them for every integer x. */
module CircularBitmap {
  import opened Ints
  import opened Wrappers

  /** bi.PosTypeMax, larger than any real coordinate. */
  const FIRST_POS_EMPTY: int := MAX_INT32
  const BITS_PER_WORD: int := 64

  type word = bv64

  /** A Go byte used as a small counter; its wrap-around is written out. */
  type uint8 = x: int | 0 <= x < 256

  /** `n & (n - 1) == 0` for n >= 0: zero or a power of two. */
  predicate PowerOfTwoOrZero(n: int)
    decreases if n < 0 then 0 else n
  {
    n == 0 || n == 1 || (n >= 2 && n % 2 == 0 && PowerOfTwoOrZero(n / 2))
  }

  /** The position in [base, base + n) whose slot is q's is q. */
  lemma SlotInWindow(q: int, base: int, n: int)
    requires n > 0 && base <= q < base + n
    ensures base + (q % n - base) % n == q
  {
    var d := q - base;
    assert q == (q / n) * n + q % n;
    assert q % n - base == d + n * (-(q / n));
    ModOfShift(d, -(q / n), n);
    DivModUnique(d, n, 0, d);
  }

  /** The position base + (i - base) % n lies in slot i. */
  lemma SlotInWindowOf(i: int, base: int, n: int)
    requires n > 0 && 0 <= i < n
    ensures (base + (i - base) % n) % n == i
  {
    assert i - base == ((i - base) / n) * n + (i - base) % n;
    assert base + (i - base) % n == i + n * (-((i - base) / n));
    ModOfShift(i, -((i - base) / n), n);
    DivModUnique(i, n, 0, i);
  }

  /** Two positions less than n apart share a slot only if they are equal. */
  lemma SlotsDistinct(p: int, q: int, n: int)
    requires n > 0 && p < q < p + n
    ensures p % n != q % n
  {
    assert p == (p / n) * n + p % n;
    assert q == (q / n) * n + q % n;
    var k := q / n - p / n;
    if p % n == q % n {
      assert q - p == k * n;
      if k >= 1 {
        MulAtLeast(k, n);
      } else if k < 0 {
        MulAtLeast(-k, n);
      }
      assert false;
    }
  }

  /** Positions in one block of nCirc slots map to their offset in it. */
  lemma BlockSlots(base: int, n: int)
    requires n > 0 && base % n == 0
    ensures forall q :: base <= q < base + n ==> q % n == q - base
  {
    forall q | base <= q < base + n ensures q % n == q - base {
      assert base == (base / n) * n;
      ModOfShift(q - base, base / n, n);
      DivModUnique(q - base, n, 0, q - base);
    }
  }

  /** simd.FirstGreater8Unsafe(a[..hi], 0, lo): the first index in [lo, hi)
      holding a nonzero count, or hi. */
  function FirstNonzero(a: seq<uint8>, lo: int, hi: int): (r: int)
    requires 0 <= lo <= hi <= |a|
    ensures lo <= r <= hi
    ensures r < hi ==> a[r] != 0
    ensures forall i :: lo <= i < r ==> a[i] == 0
    decreases hi - lo
  {
    if lo == hi then hi else if a[lo] != 0 then lo else FirstNonzero(a, lo + 1, hi)
  }

  /** Slot c of the block starting at n * k holds position n * k + c. */
  lemma SlotOfBlock(c: int, k: int, n: int)
    requires 0 <= c < n
    ensures (c + n * k) % n == c
  {
    ModOfShift(c, k, n);
    DivModUnique(c, n, 0, c);
  }

  /** Every position in (p, start] has a zero count in its slot. */
  predicate ZerosAbove(arr: seq<uint8>, p: int, start: int)
    requires |arr| > 0
  {
    forall q :: p < q <= start ==> arr[q % |arr|] == 0
  }

  lemma ZerosAboveStep(arr: seq<uint8>, p: int, start: int)
    requires |arr| > 0 && ZerosAbove(arr, p, start) && arr[p % |arr|] == 0
    ensures ZerosAbove(arr, p - 1, start)
  {
  }

  /** A position inside the block of n slots starting at a multiple of n
      sits in slot x - base. */
  lemma ModInBlock(x: int, base: int, n: int)
    requires n > 0 && base % n == 0 && base <= x < base + n
    ensures x % n == x - base
  {
    DivModUnique(x, n, base / n, x - base);
  }

  /** offset = start &^ (n-1) is the multiple of n at or below start. */
  lemma BlockBase(start: int, n: int, offset: int)
    requires n > 0 && offset == start - start % n
    ensures offset % n == 0 && (offset - n) % n == 0
  {
    var k := start / n;
    assert offset == n * k;
    ModOfShift(0, k, n);
    ModOfShift(offset, -1, n);
  }

  /** Where indexNonzeroRev's search starts: stop lies in offset's block
      exactly when circStop <= circPos (otherwise in the block before). */
  lemma IndexNonzeroRevSetup(start: int, stop: int, n: int, offset: int, circPos: int, circStop: int)
    requires n > 0 && stop <= start < stop + n
    requires offset % n == 0 && (offset - n) % n == 0
    requires 0 <= circPos < n && offset == start - circPos && circStop == stop % n
    ensures circStop <= circPos ==> offset <= stop && circStop == stop - offset
    ensures circPos < circStop ==> stop < offset && circStop == stop - offset + n
  {
    if offset <= stop {
      ModInBlock(stop, offset, n);
    } else {
      ModInBlock(stop, offset - n, n);
    }
  }

  /** indexNonzeroRev, with the pause slot reset to circStop when the search
      wraps around: the largest position q in [stop, start] whose slot holds a
      nonzero count, or stop if there is none. */
  method IndexNonzeroRev(arr: seq<uint8>, start: int, stop: int) returns (r: int)
    requires |arr| > 0 && stop <= start < stop + |arr|
    ensures stop <= r <= start
    ensures r == stop || arr[r % |arr|] != 0
    ensures ZerosAbove(arr, r, start)
  {
    var nCirc := |arr|;
    var offset := start - start % nCirc;
    var circPos := start % nCirc;
    var circStop := stop % nCirc;
    var circPause := circStop;
    if circStop > circPos {
      circPause := 0;
    }
    BlockBase(start, nCirc, offset);
    IndexNonzeroRevSetup(start, stop, nCirc, offset, circPos, circStop);
    while true
      invariant 0 <= circPos < nCirc && stop <= circPos + offset <= start
      invariant offset % nCirc == 0
      invariant (circPause == circStop && offset <= stop && circStop == stop - offset) ||
                (circPause == 0 && circStop != 0 && stop < offset && circStop == stop - offset + nCirc)
      invariant ZerosAbove(arr, circPos + offset, start)
      decreases circPos + offset - stop
    {
      ModInBlock(circPos + offset, offset, nCirc);
      if arr[circPos] != 0 {
        return circPos + offset;
      }
      ZerosAboveStep(arr, circPos + offset, start);
      if circPos == circPause {
        if circPos == circStop {
          return stop;
        }
        ModOfShift(offset, -1, nCirc);
        circPos := nCirc;
        offset := offset - nCirc;
        circPause := circStop;
      } else if circPos == circStop {
        assert false;
      }
      circPos := circPos - 1;
    }
  }

  /** One run of indexNonzeroRev's loop exactly as written (the pause slot is
      never reset after wrapping), bounded by fuel. */
  function IndexNonzeroRevAsWrittenLoop(arr: seq<uint8>, circPos: int, offset: int, circPause: int,
                                        circStop: int, stop: int, fuel: nat): Option<int>
    requires 0 <= circPos < |arr|
    decreases fuel
  {
    if arr[circPos] != 0 then Some(circPos + offset)
    else if fuel == 0 then None
    else if circPos == circPause then
      (if circPos == circStop then Some(stop)
       else IndexNonzeroRevAsWrittenLoop(arr, |arr| - 1, offset - |arr|, circPause, circStop, stop, fuel - 1))
    else if circPos == 0 then None
    else IndexNonzeroRevAsWrittenLoop(arr, circPos - 1, offset, circPause, circStop, stop, fuel - 1)
  }

  function IndexNonzeroRevAsWritten(arr: seq<uint8>, start: int, stop: int, fuel: nat): Option<int>
    requires |arr| > 0
  {
    var circPos := start % |arr|;
    var circStop := stop % |arr|;
    IndexNonzeroRevAsWrittenLoop(arr, circPos, start - circPos, if circStop > circPos then 0 else circStop,
                                 circStop, stop, fuel)
  }

  /** When the search wraps, the source keeps going past stop: on 8 slots with
      only slot 3 set, searching back from 9 to 6 returns 3 instead of 6. */
  lemma IndexNonzeroRevAsWrittenOvershoots()
    ensures IndexNonzeroRevAsWritten([0, 0, 0, 1, 0, 0, 0, 0], 9, 6, 10) == Some(3)
  {
    var a: seq<uint8> := [0, 0, 0, 1, 0, 0, 0, 0];
    assert IndexNonzeroRevAsWrittenLoop(a, 3, 0, 0, 6, 6, 5) == Some(3);
    assert IndexNonzeroRevAsWrittenLoop(a, 4, 0, 0, 6, 6, 6) == Some(3);
    assert IndexNonzeroRevAsWrittenLoop(a, 5, 0, 0, 6, 6, 7) == Some(3);
    assert IndexNonzeroRevAsWrittenLoop(a, 6, 0, 0, 6, 6, 8) == Some(3);
    assert IndexNonzeroRevAsWrittenLoop(a, 7, 0, 0, 6, 6, 9) == Some(3);
    assert IndexNonzeroRevAsWrittenLoop(a, 0, 8, 0, 6, 6, 10) == Some(3);
    assert IndexNonzeroRevAsWrittenLoop(a, 1, 8, 0, 6, 6, 10) == IndexNonzeroRevAsWrittenLoop(a, 0, 8, 0, 6, 6, 9);
  }

  /** uintptr(1) << k: the word with only bit k set, for 0 <= k < 64,
      written out entry by entry (BitDoubles shows it is 1 << k). */
  function Bit(k: int): (w: word)
    requires 0 <= k < BITS_PER_WORD
    ensures w != 0
  {
    if k < 32 then
      if k < 16 then
        if k < 8 then
          if k < 4 then
            if k < 2 then
              if k < 1 then
                0x1
              else
                0x2
            else
              if k < 3 then
                0x4
              else
                0x8
          else
            if k < 6 then
              if k < 5 then
                0x10
              else
                0x20
            else
              if k < 7 then
                0x40
              else
                0x80
        else
          if k < 12 then
            if k < 10 then
              if k < 9 then
                0x100
              else
                0x200
            else
              if k < 11 then
                0x400
              else
                0x800
          else
            if k < 14 then
              if k < 13 then
                0x1000
              else
                0x2000
            else
              if k < 15 then
                0x4000
              else
                0x8000
      else
        if k < 24 then
          if k < 20 then
            if k < 18 then
              if k < 17 then
                0x10000
              else
                0x20000
            else
              if k < 19 then
                0x40000
              else
                0x80000
          else
            if k < 22 then
              if k < 21 then
                0x100000
              else
                0x200000
            else
              if k < 23 then
                0x400000
              else
                0x800000
        else
          if k < 28 then
            if k < 26 then
              if k < 25 then
                0x1000000
              else
                0x2000000
            else
              if k < 27 then
                0x4000000
              else
                0x8000000
          else
            if k < 30 then
              if k < 29 then
                0x10000000
              else
                0x20000000
            else
              if k < 31 then
                0x40000000
              else
                0x80000000
    else
      if k < 48 then
        if k < 40 then
          if k < 36 then
            if k < 34 then
              if k < 33 then
                0x100000000
              else
                0x200000000
            else
              if k < 35 then
                0x400000000
              else
                0x800000000
          else
            if k < 38 then
              if k < 37 then
                0x1000000000
              else
                0x2000000000
            else
              if k < 39 then
                0x4000000000
              else
                0x8000000000
        else
          if k < 44 then
            if k < 42 then
              if k < 41 then
                0x10000000000
              else
                0x20000000000
            else
              if k < 43 then
                0x40000000000
              else
                0x80000000000
          else
            if k < 46 then
              if k < 45 then
                0x100000000000
              else
                0x200000000000
            else
              if k < 47 then
                0x400000000000
              else
                0x800000000000
      else
        if k < 56 then
          if k < 52 then
            if k < 50 then
              if k < 49 then
                0x1000000000000
              else
                0x2000000000000
            else
              if k < 51 then
                0x4000000000000
              else
                0x8000000000000
          else
            if k < 54 then
              if k < 53 then
                0x10000000000000
              else
                0x20000000000000
            else
              if k < 55 then
                0x40000000000000
              else
                0x80000000000000
        else
          if k < 60 then
            if k < 58 then
              if k < 57 then
                0x100000000000000
              else
                0x200000000000000
            else
              if k < 59 then
                0x400000000000000
              else
                0x800000000000000
          else
            if k < 62 then
              if k < 61 then
                0x1000000000000000
              else
                0x2000000000000000
            else
              if k < 63 then
                0x4000000000000000
              else
                0x8000000000000000
  }

  /** Bit(0) is 1 and every next entry is the previous one shifted left by
      one, so Bit(k) == 1 << k. */
  lemma BitDoubles(k: int)
    requires 0 < k < BITS_PER_WORD
    ensures Bit(0) == 1 && Bit(k) == Bit(k - 1) << 1
  {
    if k < 32 {
      BitDoublesLow(k);
    } else {
      BitDoublesHigh(k);
    }
  }

  lemma BitDoublesLow(k: int)
    requires 0 < k < 32
    ensures Bit(0) == 1 && Bit(k) == Bit(k - 1) << 1
  {
    if k == 1 { assert Bit(1) == 0x2; assert Bit(0) == 0x1; }
    else if k == 2 { assert Bit(2) == 0x4; assert Bit(1) == 0x2; }
    else if k == 3 { assert Bit(3) == 0x8; assert Bit(2) == 0x4; }
    else if k == 4 { assert Bit(4) == 0x10; assert Bit(3) == 0x8; }
    else if k == 5 { assert Bit(5) == 0x20; assert Bit(4) == 0x10; }
    else if k == 6 { assert Bit(6) == 0x40; assert Bit(5) == 0x20; }
    else if k == 7 { assert Bit(7) == 0x80; assert Bit(6) == 0x40; }
    else if k == 8 { assert Bit(8) == 0x100; assert Bit(7) == 0x80; }
    else if k == 9 { assert Bit(9) == 0x200; assert Bit(8) == 0x100; }
    else if k == 10 { assert Bit(10) == 0x400; assert Bit(9) == 0x200; }
    else if k == 11 { assert Bit(11) == 0x800; assert Bit(10) == 0x400; }
    else if k == 12 { assert Bit(12) == 0x1000; assert Bit(11) == 0x800; }
    else if k == 13 { assert Bit(13) == 0x2000; assert Bit(12) == 0x1000; }
    else if k == 14 { assert Bit(14) == 0x4000; assert Bit(13) == 0x2000; }
    else if k == 15 { assert Bit(15) == 0x8000; assert Bit(14) == 0x4000; }
    else if k == 16 { assert Bit(16) == 0x10000; assert Bit(15) == 0x8000; }
    else if k == 17 { assert Bit(17) == 0x20000; assert Bit(16) == 0x10000; }
    else if k == 18 { assert Bit(18) == 0x40000; assert Bit(17) == 0x20000; }
    else if k == 19 { assert Bit(19) == 0x80000; assert Bit(18) == 0x40000; }
    else if k == 20 { assert Bit(20) == 0x100000; assert Bit(19) == 0x80000; }
    else if k == 21 { assert Bit(21) == 0x200000; assert Bit(20) == 0x100000; }
    else if k == 22 { assert Bit(22) == 0x400000; assert Bit(21) == 0x200000; }
    else if k == 23 { assert Bit(23) == 0x800000; assert Bit(22) == 0x400000; }
    else if k == 24 { assert Bit(24) == 0x1000000; assert Bit(23) == 0x800000; }
    else if k == 25 { assert Bit(25) == 0x2000000; assert Bit(24) == 0x1000000; }
    else if k == 26 { assert Bit(26) == 0x4000000; assert Bit(25) == 0x2000000; }
    else if k == 27 { assert Bit(27) == 0x8000000; assert Bit(26) == 0x4000000; }
    else if k == 28 { assert Bit(28) == 0x10000000; assert Bit(27) == 0x8000000; }
    else if k == 29 { assert Bit(29) == 0x20000000; assert Bit(28) == 0x10000000; }
    else if k == 30 { assert Bit(30) == 0x40000000; assert Bit(29) == 0x20000000; }
    else if k == 31 { assert Bit(31) == 0x80000000; assert Bit(30) == 0x40000000; }
  }

  lemma BitDoublesHigh(k: int)
    requires 32 <= k < BITS_PER_WORD
    ensures Bit(k) == Bit(k - 1) << 1
  {
    if k == 32 { assert Bit(32) == 0x100000000; assert Bit(31) == 0x80000000; }
    else if k == 33 { assert Bit(33) == 0x200000000; assert Bit(32) == 0x100000000; }
    else if k == 34 { assert Bit(34) == 0x400000000; assert Bit(33) == 0x200000000; }
    else if k == 35 { assert Bit(35) == 0x800000000; assert Bit(34) == 0x400000000; }
    else if k == 36 { assert Bit(36) == 0x1000000000; assert Bit(35) == 0x800000000; }
    else if k == 37 { assert Bit(37) == 0x2000000000; assert Bit(36) == 0x1000000000; }
    else if k == 38 { assert Bit(38) == 0x4000000000; assert Bit(37) == 0x2000000000; }
    else if k == 39 { assert Bit(39) == 0x8000000000; assert Bit(38) == 0x4000000000; }
    else if k == 40 { assert Bit(40) == 0x10000000000; assert Bit(39) == 0x8000000000; }
    else if k == 41 { assert Bit(41) == 0x20000000000; assert Bit(40) == 0x10000000000; }
    else if k == 42 { assert Bit(42) == 0x40000000000; assert Bit(41) == 0x20000000000; }
    else if k == 43 { assert Bit(43) == 0x80000000000; assert Bit(42) == 0x40000000000; }
    else if k == 44 { assert Bit(44) == 0x100000000000; assert Bit(43) == 0x80000000000; }
    else if k == 45 { assert Bit(45) == 0x200000000000; assert Bit(44) == 0x100000000000; }
    else if k == 46 { assert Bit(46) == 0x400000000000; assert Bit(45) == 0x200000000000; }
    else if k == 47 { assert Bit(47) == 0x800000000000; assert Bit(46) == 0x400000000000; }
    else if k == 48 { assert Bit(48) == 0x1000000000000; assert Bit(47) == 0x800000000000; }
    else if k == 49 { assert Bit(49) == 0x2000000000000; assert Bit(48) == 0x1000000000000; }
    else if k == 50 { assert Bit(50) == 0x4000000000000; assert Bit(49) == 0x2000000000000; }
    else if k == 51 { assert Bit(51) == 0x8000000000000; assert Bit(50) == 0x4000000000000; }
    else if k == 52 { assert Bit(52) == 0x10000000000000; assert Bit(51) == 0x8000000000000; }
    else if k == 53 { assert Bit(53) == 0x20000000000000; assert Bit(52) == 0x10000000000000; }
    else if k == 54 { assert Bit(54) == 0x40000000000000; assert Bit(53) == 0x20000000000000; }
    else if k == 55 { assert Bit(55) == 0x80000000000000; assert Bit(54) == 0x40000000000000; }
    else if k == 56 { assert Bit(56) == 0x100000000000000; assert Bit(55) == 0x80000000000000; }
    else if k == 57 { assert Bit(57) == 0x200000000000000; assert Bit(56) == 0x100000000000000; }
    else if k == 58 { assert Bit(58) == 0x400000000000000; assert Bit(57) == 0x200000000000000; }
    else if k == 59 { assert Bit(59) == 0x800000000000000; assert Bit(58) == 0x400000000000000; }
    else if k == 60 { assert Bit(60) == 0x1000000000000000; assert Bit(59) == 0x800000000000000; }
    else if k == 61 { assert Bit(61) == 0x2000000000000000; assert Bit(60) == 0x1000000000000000; }
    else if k == 62 { assert Bit(62) == 0x4000000000000000; assert Bit(61) == 0x2000000000000000; }
    else if k == 63 { assert Bit(63) == 0x8000000000000000; assert Bit(62) == 0x4000000000000000; }
  }

  /** `w |= 1 << k`: the result has bit k set, so it is nonzero. */
  function SetBit(w: word, k: int): (r: word)
    requires 0 <= k < BITS_PER_WORD
    ensures r != 0 && r & Bit(k) != 0
  {
    w | Bit(k)
  }

  /** `w &^= 1 << k`: bit k is cleared. */
  function ClearBit(w: word, k: int): (r: word)
    requires 0 <= k < BITS_PER_WORD
    ensures r & Bit(k) == 0
  {
    w & !Bit(k)
  }

  /** The number of nonzero words in a row. */
  function CountNonzero(row: seq<word>): (r: nat)
    ensures r <= |row|
  {
    if row == [] then 0 else CountNonzero(row[..|row| - 1]) + (if row[|row| - 1] != 0 then 1 else 0)
  }

  /** Replacing one word changes the count by the change in that word only. */
  lemma {:induction false} CountNonzeroUpdate(row: seq<word>, j: int, w: word)
    requires 0 <= j < |row|
    ensures CountNonzero(row[j := w]) + (if row[j] != 0 then 1 else 0)
         == CountNonzero(row) + (if w != 0 then 1 else 0)
  {
    var last := |row| - 1;
    if j < last {
      assert row[j := w][..last] == row[..last][j := w];
      CountNonzeroUpdate(row[..last], j, w);
    } else {
      assert row[j := w][..last] == row[..last];
    }
  }

  lemma {:induction false} CountNonzeroAllZero(row: seq<word>)
    requires forall j :: 0 <= j < |row| ==> row[j] == 0
    ensures CountNonzero(row) == 0
  {
    if row != [] {
      CountNonzeroAllZero(row[..|row| - 1]);
    }
  }

  /** firstNonemptyPos on the counts arr: the first position in
      [pos, stopPos) whose row is occupied, or stopPos. */
  function FirstNonemptyPos(arr: seq<uint8>, pos: int, stopPos: int): int
    requires |arr| > 0 && pos <= stopPos < pos + |arr|
  {
    var nCirc := |arr|;
    var offset := pos - pos % nCirc;
    var circPos := pos % nCirc;
    var circStop := stopPos % nCirc;
    if circStop < circPos then
      var result := FirstNonzero(arr, circPos, nCirc);
      if result != nCirc then result + offset
      else FirstNonzero(arr, 0, circStop) + offset + nCirc
    else FirstNonzero(arr, circPos, circStop) + offset
  }

  /** Position q lies in the block of n slots starting at n * k. */
  lemma InBlock(q: int, k: int, n: int)
    requires n > 0 && n * k <= q < n * k + n
    ensures q % n == q - n * k
  {
    SlotOfBlock(q - n * k, k, n);
  }

  /** firstNonemptyPos finds the first occupied position of the window, when
      the window is shorter than nCirc. */
  lemma FirstNonemptyPosSpec(arr: seq<uint8>, pos: int, stopPos: int)
    requires |arr| > 0 && pos <= stopPos < pos + |arr|
    ensures pos <= FirstNonemptyPos(arr, pos, stopPos) <= stopPos
    ensures FirstNonemptyPos(arr, pos, stopPos) < stopPos ==> arr[FirstNonemptyPos(arr, pos, stopPos) % |arr|] != 0
    ensures forall q :: pos <= q < FirstNonemptyPos(arr, pos, stopPos) ==> arr[q % |arr|] == 0
  {
    var n := |arr|;
    var k := pos / n;
    assert pos - pos % n == n * k;
    if stopPos % n < pos % n {
      FirstNonemptyPosWraps(arr, pos, stopPos, k);
    } else {
      FirstNonemptyPosInBlock(arr, pos, stopPos, k);
    }
  }

  /** The window [pos, stopPos] crosses the end of the ring. */
  lemma FirstNonemptyPosWraps(arr: seq<uint8>, pos: int, stopPos: int, k: int)
    requires |arr| > 0 && pos <= stopPos < pos + |arr|
    requires pos - pos % |arr| == |arr| * k && stopPos % |arr| < pos % |arr|
    ensures pos <= FirstNonemptyPos(arr, pos, stopPos) <= stopPos
    ensures FirstNonemptyPos(arr, pos, stopPos) < stopPos ==> arr[FirstNonemptyPos(arr, pos, stopPos) % |arr|] != 0
    ensures forall q :: pos <= q < FirstNonemptyPos(arr, pos, stopPos) ==> arr[q % |arr|] == 0
  {
    var n := |arr|;
    var circPos := pos % n;
    var offset := pos - circPos;
    if stopPos < offset + n {
      InBlock(stopPos, k, n);
      assert false;
    }
    assert n * (k + 1) == offset + n;
    InBlock(stopPos, k + 1, n);
    var r := FirstNonemptyPos(arr, pos, stopPos);
    var result := FirstNonzero(arr, circPos, n);
    forall q | pos <= q < r ensures arr[q % n] == 0 {
      if q < offset + n {
        InBlock(q, k, n);
      } else {
        InBlock(q, k + 1, n);
      }
    }
    if r < stopPos {
      if result != n {
        InBlock(r, k, n);
      } else {
        InBlock(r, k + 1, n);
      }
    }
  }

  /** The window [pos, stopPos] lies inside one turn of the ring. */
  lemma FirstNonemptyPosInBlock(arr: seq<uint8>, pos: int, stopPos: int, k: int)
    requires |arr| > 0 && pos <= stopPos < pos + |arr|
    requires pos - pos % |arr| == |arr| * k && pos % |arr| <= stopPos % |arr|
    ensures pos <= FirstNonemptyPos(arr, pos, stopPos) <= stopPos
    ensures FirstNonemptyPos(arr, pos, stopPos) < stopPos ==> arr[FirstNonemptyPos(arr, pos, stopPos) % |arr|] != 0
    ensures forall q :: pos <= q < FirstNonemptyPos(arr, pos, stopPos) ==> arr[q % |arr|] == 0
  {
    var n := |arr|;
    var offset := pos - pos % n;
    if stopPos >= offset + n {
      assert n * (k + 1) == offset + n;
      InBlock(stopPos, k + 1, n);
      assert false;
    }
    InBlock(stopPos, k, n);
    var r := FirstNonemptyPos(arr, pos, stopPos);
    forall q | pos <= q < r ensures arr[q % n] == 0 {
      InBlock(q, k, n);
    }
    if r < stopPos {
      InBlock(r, k, n);
    }
  }

  /** What CheckPanic checks on the positions: the sentinels, the window
      bound lastPos < firstPos + nCirc - 1, and that the first and last rows
      are occupied. */
  predicate BoundsChecked(pops: seq<uint8>, first: int, last: int)
  {
    var n := |pops|;
    if last == -1 then first == FIRST_POS_EMPTY
    else (n > 0 && first <= last && last < first + n - 1
          && pops[first % n] != 0 && pops[last % n] != 0)
  }

  /** The window invariant of a Bitmap: the sentinels are used together,
      an empty bitmap has no occupied row, positions are real coordinates,
      and every occupied row holds a position in [first, last]. */
  ghost predicate WindowOf(pops: seq<uint8>, first: int, last: int)
  {
    var n := |pops|;
    BoundsChecked(pops, first, last)
    && (last == -1 <==> first == FIRST_POS_EMPTY)
    && (last == -1 ==> forall i :: 0 <= i < n ==> pops[i] == 0)
    && (last != -1 ==>
          0 <= first && last < FIRST_POS_EMPTY
          && forall i :: 0 <= i < n && pops[i] != 0 ==> first + (i - first) % n <= last)
  }

  /** An occupied slot i holding position q in [f, l] satisfies the window
      formula for f and l. */
  lemma SlotInRange(i: int, q: int, f: int, l: int, n: int)
    requires n > 0 && 0 <= i < n && q % n == i && f <= q <= l < f + n
    ensures f + (i - f) % n <= l
  {
    SlotInWindow(q, f, n);
  }

  /** Set occupies the row of pos and widens the window to include pos. */
  lemma SetKeepsWindow(pops: seq<uint8>, first: int, last: int, pos: int, v: uint8)
    requires WindowOf(pops, first, last) && |pops| > 0
    requires 0 <= pos < FIRST_POS_EMPTY && v != 0
    requires Max(last, pos) - Min(first, pos) < |pops| - 1
    ensures WindowOf(pops[pos % |pops| := v], Min(first, pos), Max(last, pos))
  {
    var n := |pops|;
    var c := pos % n;
    var p := pops[c := v];
    var f, l := Min(first, pos), Max(last, pos);
    assert p[f % n] != 0 by {
      if f != pos {
        assert f == first && last != -1;
      }
    }
    assert p[l % n] != 0 by {
      if l != pos {
        assert l == last;
      }
    }
    assert BoundsChecked(p, f, l);
    forall i | 0 <= i < n && p[i] != 0 ensures f + (i - f) % n <= l {
      if i == c {
        SlotInRange(i, pos, f, l, n);
      } else {
        assert pops[i] != 0 && last != -1;
        var q := first + (i - first) % n;
        SlotInWindowOf(i, first, n);
        SlotInRange(i, q, f, l, n);
      }
    }
  }

  /** Clearing the only occupied row empties the bitmap. */
  lemma ClearOnlyRow(pops: seq<uint8>, pos: int)
    requires WindowOf(pops, pos, pos)
    ensures WindowOf(pops[pos % |pops| := 0], FIRST_POS_EMPTY, -1)
  {
    var n := |pops|;
    var c := pos % n;
    var p := pops[c := 0];
    forall i | 0 <= i < n ensures p[i] == 0 {
      if i != c && pops[i] != 0 {
        SlotInWindowOf(i, pos, n);
        assert false;
      }
    }
  }

  /** Clearing the first row moves firstPos to the next occupied position
      before lastPos (or to lastPos). */
  lemma ClearFirstRow(pops: seq<uint8>, pos: int, last: int, f: int)
    requires WindowOf(pops, pos, last) && pos < last
    requires pos + 1 <= f <= last
    requires f < last ==> pops[pos % |pops| := 0][f % |pops|] != 0
    requires forall q :: pos + 1 <= q < f ==> pops[pos % |pops| := 0][q % |pops|] == 0
    ensures WindowOf(pops[pos % |pops| := 0], f, last)
  {
    var n := |pops|;
    var p := pops[pos % n := 0];
    SlotsDistinct(pos, last, n);
    forall i | 0 <= i < n && p[i] != 0 ensures f + (i - f) % n <= last {
      assert pops[i] != 0;
      ClearFirstRowSlot(p, pos, last, f, i);
    }
  }

  /** One occupied slot i (not the cleared slot of pos) after the first row
      is cleared: its position in [pos, last] is at least f. */
  lemma ClearFirstRowSlot(p: seq<uint8>, pos: int, last: int, f: int, i: int)
    requires |p| > 0 && 0 <= i < |p| && p[i] != 0 && i != pos % |p|
    requires pos + (i - pos) % |p| <= last && pos + 1 <= f <= last
    requires forall q :: pos + 1 <= q < f ==> p[q % |p|] == 0
    ensures f + (i - f) % |p| <= last
  {
    var n := |p|;
    var q := pos + (i - pos) % n;
    SlotInWindowOf(i, pos, n);
    assert q != pos;
    SlotInWindow(q, f, n);
  }

  /** Clearing the last row moves lastPos back to the previous occupied
      position (or to firstPos). */
  lemma ClearLastRow(pops: seq<uint8>, first: int, pos: int, l: int)
    requires WindowOf(pops, first, pos) && first < pos
    requires first <= l <= pos - 1
    requires l == first || pops[pos % |pops| := 0][l % |pops|] != 0
    requires forall q :: l < q <= pos - 1 ==> pops[pos % |pops| := 0][q % |pops|] == 0
    ensures WindowOf(pops[pos % |pops| := 0], first, l)
  {
    var n := |pops|;
    var c := pos % n;
    var p := pops[c := 0];
    SlotsDistinct(first, pos, n);
    forall i | 0 <= i < n && p[i] != 0 ensures first + (i - first) % n <= l {
      var q := first + (i - first) % n;
      SlotInWindowOf(i, first, n);
      assert q != pos;
    }
  }

  /** Clearing a row strictly inside the window leaves the window alone. */
  lemma ClearInnerRow(pops: seq<uint8>, first: int, last: int, pos: int)
    requires WindowOf(pops, first, last) && first < pos < last
    ensures WindowOf(pops[pos % |pops| := 0], first, last)
  {
    SlotsDistinct(first, pos, |pops|);
    SlotsDistinct(pos, last, |pops|);
  }

  /** The row count after Set stores newWord over curWord == row[j]: one
      more when the word was zero (`wordPops[circPos]++`), else unchanged.
      The increment cannot wrap, as a row has at most 255 words. */
  function PopAfterSet(ghost row: seq<word>, j: int, curWord: word, newWord: word, pop: uint8): (r: uint8)
    requires 0 <= j < |row| <= 255 && curWord == row[j] && pop == CountNonzero(row) && newWord != 0
    ensures r == CountNonzero(row[j := newWord]) && r != 0
  {
    CountNonzeroUpdate(row, j, newWord);
    if curWord == 0 then pop + 1
    else
      CountNonzeroUpdate(row, j, 0);
      pop
  }

  /** Column colIdx lies in word colIdx / 64 of a row of rowWidth words. */
  lemma WordIndexInRow(colIdx: int, rowWidth: int)
    requires 0 <= colIdx < BITS_PER_WORD * rowWidth
    ensures 0 <= colIdx / BITS_PER_WORD < rowWidth
  {
    var q := colIdx / BITS_PER_WORD;
    assert colIdx == BITS_PER_WORD * q + colIdx % BITS_PER_WORD;
  }

  /** The window once its first row has been emptied: firstPos moves on to
      firstNonemptyPos(firstPos+1, lastPos) searched in `search`, or the
      bitmap becomes empty when that was its only row. `search` holds the
      counts before or after the first row's count is zeroed: the search
      never reaches that slot, so either gives the same answer. */
  function AdvanceFirst(search: seq<uint8>, ghost pops: seq<uint8>, first: int, last: int): (r: (int, int))
    requires WindowOf(pops, first, last) && last != -1
    requires search == pops || search == pops[first % |pops| := 0]
    ensures WindowOf(pops[first % |pops| := 0], r.0, r.1)
    ensures first == last ==> r == (FIRST_POS_EMPTY, -1)
    ensures first < last ==> first < r.0 <= last && r.1 == last
  {
    if first == last then
      ClearOnlyRow(pops, first);
      (FIRST_POS_EMPTY, -1)
    else
      FirstNonemptyPosSpec(search, first + 1, last);
      var f := FirstNonemptyPos(search, first + 1, last);
      SameOutsideFirst(search, pops, first, last);
      ClearFirstRow(pops, first, last, f);
      (f, last)
  }

  /** Inside (first, last] the counts before and after zeroing the first
      row's count agree. */
  lemma SameOutsideFirst(search: seq<uint8>, pops: seq<uint8>, first: int, last: int)
    requires WindowOf(pops, first, last) && first < last
    requires search == pops || search == pops[first % |pops| := 0]
    ensures forall q :: first < q <= last ==> search[q % |pops|] == pops[first % |pops| := 0][q % |pops|]
  {
    forall q | first < q <= last ensures search[q % |pops|] == pops[first % |pops| := 0][q % |pops|] {
      SlotsDistinct(first, q, |pops|);
    }
  }

  /** The window once its last row (not also its first) has been emptied:
      lastPos moves back to indexNonzeroRev(lastPos-1, firstPos). */
  method RetreatLast(search: seq<uint8>, ghost pops: seq<uint8>, first: int, last: int) returns (l: int)
    requires WindowOf(pops, first, last) && first < last
    requires search == pops || search == pops[last % |pops| := 0]
    ensures WindowOf(pops[last % |pops| := 0], first, l) && first <= l < last
  {
    l := IndexNonzeroRev(search, last - 1, first);
    SameBeforeLast(search, pops, first, last);
    ClearLastRow(pops, first, last, l);
  }

  /** Inside [first, last) the counts before and after zeroing the last
      row's count agree. */
  lemma SameBeforeLast(search: seq<uint8>, pops: seq<uint8>, first: int, last: int)
    requires WindowOf(pops, first, last) && first < last
    requires search == pops || search == pops[last % |pops| := 0]
    ensures forall q :: first <= q < last ==> search[q % |pops|] == pops[last % |pops| := 0][q % |pops|]
  {
    forall q | first <= q < last ensures search[q % |pops|] == pops[last % |pops| := 0][q % |pops|] {
      SlotsDistinct(q, last, |pops|);
    }
  }

  /** Row i of a bitmap: bits[i, 0..rowWidth). */
  function RowOf(bits: array2<word>, i: int): seq<word>
    reads bits
    requires 0 <= i < bits.Length0
  {
    seq(bits.Length1, j reads bits requires 0 <= j < bits.Length1 => bits[i, j])
  }

  /** pops[i] is the number of nonzero words of row i, except in row `skip`
      (a row handed to a scanner). */
  ghost predicate PopsInSync(bits: array2<word>, pops: array<uint8>, skip: int)
    reads bits, pops
    requires bits.Length0 == pops.Length
  {
    forall i :: 0 <= i < pops.Length && i != skip ==> pops[i] == CountNonzero(RowOf(bits, i))
  }

  class Bitmap {
    /** Row i is bits[i, 0..rowWidth). */
    var bits: array2<word>
    var wordPops: array<uint8>
    var firstPos: int
    var lastPos: int
    var rowWidth: int

    function NCirc(): int
      reads this
    {
      wordPops.Length
    }

    ghost predicate Shape()
      reads this`bits, this`wordPops, this`rowWidth
    {
      bits.Length0 == wordPops.Length && bits.Length1 == rowWidth && 0 <= rowWidth <= 255
      && PowerOfTwoOrZero(wordPops.Length)
    }

    ghost predicate Valid()
      reads this, bits, wordPops
    {
      Shape() && PopsInSync(bits, wordPops, -1) && WindowOf(wordPops[..], firstPos, lastPos)
    }

    predicate IsEmpty()
      reads this
    {
      firstPos == FIRST_POS_EMPTY
    }

    /** NewBitmap: panics (null) if rowWidth > 255 or nCirc is not a power of
        two (negative sizes panic in make); otherwise an empty bitmap. */
    static method NewBitmap(nCirc: int, rowWidth: int) returns (b: Bitmap?)
      ensures b == null <==> (rowWidth > 255 || nCirc < 0 || rowWidth < 0 || !PowerOfTwoOrZero(nCirc))
      ensures b != null ==> fresh(b) && fresh(b.bits) && fresh(b.wordPops) && b.Valid()
      ensures b != null ==> b.NCirc() == nCirc && b.rowWidth == rowWidth && b.IsEmpty() && b.lastPos == -1
      ensures b != null ==> forall i, j :: 0 <= i < nCirc && 0 <= j < rowWidth ==> b.bits[i, j] == 0
    {
      if rowWidth > 255 || nCirc < 0 || rowWidth < 0 || !PowerOfTwoOrZero(nCirc) {
        return null;
      }
      b := new Bitmap.Init(nCirc, rowWidth);
    }

    constructor Init(nCirc: nat, rowWidth: nat)
      requires rowWidth <= 255 && PowerOfTwoOrZero(nCirc)
      ensures fresh(bits) && fresh(wordPops) && Valid()
      ensures NCirc() == nCirc && this.rowWidth == rowWidth && IsEmpty() && lastPos == -1
      ensures forall i, j :: 0 <= i < nCirc && 0 <= j < rowWidth ==> bits[i, j] == 0
    {
      bits := new word[nCirc, rowWidth]((i, j) => 0);
      wordPops := new uint8[nCirc](i => 0);
      firstPos := FIRST_POS_EMPTY;
      lastPos := -1;
      this.rowWidth := rowWidth;
      new;
      forall i | 0 <= i < nCirc ensures wordPops[i] == CountNonzero(RowOf(bits, i)) {
        CountNonzeroAllZero(RowOf(bits, i));
      }
    }

    /** The store both Set and Clear end with: word w of row c becomes
        newWord and the row's count becomes pop, which the caller has
        computed to be the new number of nonzero words. */
    method StoreWord(c: int, w: int, newWord: word, pop: uint8)
      requires Shape() && PopsInSync(bits, wordPops, -1) && 0 <= c < wordPops.Length && 0 <= w < rowWidth
      requires pop == CountNonzero(RowOf(bits, c)[w := newWord])
      modifies bits, wordPops
      ensures Shape() && PopsInSync(bits, wordPops, -1)
      ensures wordPops[..] == old(wordPops[..])[c := pop]
      ensures bits[c, w] == newWord
      ensures forall i, j :: 0 <= i < bits.Length0 && 0 <= j < bits.Length1 && (i, j) != (c, w) ==>
                bits[i, j] == old(bits[i, j])
    {
      ghost var oldRow := RowOf(bits, c);
      wordPops[c] := pop;
      bits[c, w] := newWord;
      assert RowOf(bits, c) == oldRow[w := newWord];
      forall i | 0 <= i < wordPops.Length && i != c ensures wordPops[i] == CountNonzero(RowOf(bits, i)) {
        forall j | 0 <= j < rowWidth ensures RowOf(bits, i)[j] == old(RowOf(bits, i))[j] {
          assert bits[i, j] == old(bits[i, j]);
        }
        assert RowOf(bits, i) == old(RowOf(bits, i));
      }
    }

    /** Stores word w of row c and its row count, then moves the window to
        [first, last]; the caller has checked that this is a valid state. */
    method Commit(c: int, w: int, newWord: word, pop: uint8, first: int, last: int)
      requires Shape() && PopsInSync(bits, wordPops, -1) && 0 <= c < wordPops.Length && 0 <= w < rowWidth
      requires pop == CountNonzero(RowOf(bits, c)[w := newWord])
      requires WindowOf(wordPops[..][c := pop], first, last)
      modifies this`firstPos, this`lastPos, bits, wordPops
      ensures Valid() && firstPos == first && lastPos == last
      ensures bits[c, w] == newWord
      ensures forall i, j :: 0 <= i < bits.Length0 && 0 <= j < bits.Length1 && (i, j) != (c, w) ==>
                bits[i, j] == old(bits[i, j])
    {
      StoreWord(c, w, newWord, pop);
      firstPos := first;
      lastPos := last;
    }

    /** Set: sets one bit; a word that was zero adds one to its row's count.
        The caller passes circPos == pos & (nCirc-1) and keeps the occupied
        window narrower than nCirc - 1 (the bound CheckPanic enforces). */
    method Set(pos: int, circPos: int, colIdx: int)
      requires Valid()
      requires 0 <= pos < FIRST_POS_EMPTY && wordPops.Length > 0 && circPos == pos % wordPops.Length
      requires 0 <= colIdx < BITS_PER_WORD * rowWidth
      requires Max(lastPos, pos) - Min(firstPos, pos) < wordPops.Length - 1
      modifies this`firstPos, this`lastPos, bits, wordPops
      ensures Valid()
      ensures bits[circPos, colIdx / BITS_PER_WORD] ==
        SetBit(old(bits[circPos, colIdx / BITS_PER_WORD]), colIdx % BITS_PER_WORD)
      ensures forall i, j :: 0 <= i < bits.Length0 && 0 <= j < bits.Length1 && (i, j) != (circPos, colIdx / BITS_PER_WORD) ==>
                bits[i, j] == old(bits[i, j])
      ensures firstPos == Min(old(firstPos), pos) && lastPos == Max(old(lastPos), pos)
    {
      var colWordIdx := colIdx / BITS_PER_WORD;
      WordIndexInRow(colIdx, rowWidth);
      var curWord := bits[circPos, colWordIdx];
      var newWord := SetBit(curWord, colIdx % BITS_PER_WORD);
      var pop := PopAfterSet(RowOf(bits, circPos), colWordIdx, curWord, newWord, wordPops[circPos]);
      SetKeepsWindow(wordPops[..], firstPos, lastPos, pos, pop);
      var first := if firstPos > pos then pos else firstPos;
      var last := if lastPos < pos then pos else lastPos;
      Commit(circPos, colWordIdx, newWord, pop, first, last);
    }

    /** Clear, as intended: the row count drops only when a nonzero word
        becomes zero, so clearing a bit that is already clear changes
        nothing. When a row empties, firstPos or lastPos moves to the next
        occupied position (or the bitmap becomes empty). The caller passes
        the position an occupied row currently holds. */
    method Clear(pos: int, circPos: int, colIdx: int)
      requires Valid()
      requires 0 <= pos < FIRST_POS_EMPTY && wordPops.Length > 0 && circPos == pos % wordPops.Length
      requires 0 <= colIdx < BITS_PER_WORD * rowWidth
      requires wordPops[circPos] != 0 ==> firstPos <= pos <= lastPos
      modifies this`firstPos, this`lastPos, bits, wordPops
      ensures Valid()
      ensures bits[circPos, colIdx / BITS_PER_WORD] ==
        ClearBit(old(bits[circPos, colIdx / BITS_PER_WORD]), colIdx % BITS_PER_WORD)
      ensures forall i, j :: 0 <= i < bits.Length0 && 0 <= j < bits.Length1 && (i, j) != (circPos, colIdx / BITS_PER_WORD) ==>
                bits[i, j] == old(bits[i, j])
      ensures lastPos == -1 || (old(firstPos) <= firstPos && lastPos <= old(lastPos))
    {
      var colWordIdx := colIdx / BITS_PER_WORD;
      WordIndexInRow(colIdx, rowWidth);
      ghost var oldRow := RowOf(bits, circPos);
      var oldWord := bits[circPos, colWordIdx];
      var curWord := ClearBit(oldWord, colIdx % BITS_PER_WORD);
      CountNonzeroUpdate(oldRow, colWordIdx, curWord);
      var pop := wordPops[circPos];
      var first, last := firstPos, lastPos;
      if curWord == 0 && oldWord != 0 {
        pop := pop - 1;
        if pop == 0 {
          if pos == firstPos {
            var w := AdvanceFirst(wordPops[..], wordPops[..], firstPos, lastPos);
            first, last := w.0, w.1;
          } else if pos == lastPos {
            last := RetreatLast(wordPops[..], wordPops[..], firstPos, lastPos);
          } else {
            ClearInnerRow(wordPops[..], firstPos, lastPos, pos);
          }
        } else {
          UpdateKeepsWindow(wordPops[..], firstPos, lastPos, circPos, pop);
        }
      } else {
        UpdateKeepsWindow(wordPops[..], firstPos, lastPos, circPos, pop);
      }
      Commit(circPos, colWordIdx, curWord, pop, first, last);
    }

    /** NewRowScanner: panics (ok == false) on an empty bitmap; otherwise hands
        out the first occupied row with its nonzero-word count, advances
        firstPos to the next occupied position (or empties the bitmap) and
        zeroes that row's count. The words of the row are cleared by the
        scanner as it goes (FinishRowScan). */
    method NewRowScanner() returns (ok: bool, circPos: int, nzwPop: int)
      requires Valid()
      modifies this`firstPos, this`lastPos, wordPops
      ensures !ok <==> old(IsEmpty())
      ensures !ok ==> firstPos == old(firstPos) && lastPos == old(lastPos) && wordPops[..] == old(wordPops[..])
      ensures ok ==> wordPops.Length > 0 && circPos == old(firstPos) % wordPops.Length
      ensures ok ==> nzwPop == old(wordPops[circPos]) && nzwPop == CountNonzero(RowOf(bits, circPos)) && nzwPop > 0
      ensures ok ==> wordPops[..] == old(wordPops[..])[circPos := 0]
      ensures ok ==> Shape() && PopsInSync(bits, wordPops, circPos) && WindowOf(wordPops[..], firstPos, lastPos)
      ensures ok ==> old(firstPos) < firstPos && (lastPos == old(lastPos) || lastPos == -1)
    {
      var pos := firstPos;
      if pos == FIRST_POS_EMPTY {
        return false, 0, 0;
      }
      ok := true;
      var n := NCirc();
      circPos := pos % n;
      var w := AdvanceFirst(wordPops[..], wordPops[..], pos, lastPos);
      firstPos, lastPos := w.0, w.1;
      nzwPop := wordPops[circPos];
      wordPops[circPos] := 0;
    }

    /** The scanner zeroes every word of the row as it goes; once the row is
        fully scanned the counts are in sync again. */
    method FinishRowScan(circPos: int)
      requires Shape() && 0 <= circPos < wordPops.Length && PopsInSync(bits, wordPops, circPos) && wordPops[circPos] == 0
      requires WindowOf(wordPops[..], firstPos, lastPos)
      modifies bits
      ensures Valid()
      ensures forall j :: 0 <= j < rowWidth ==> bits[circPos, j] == 0
      ensures forall i, j :: 0 <= i < bits.Length0 && 0 <= j < bits.Length1 && i != circPos ==> bits[i, j] == old(bits[i, j])
    {
      var j := 0;
      while j < rowWidth
        invariant 0 <= j <= rowWidth
        invariant forall k :: 0 <= k < j ==> bits[circPos, k] == 0
        invariant forall i, k :: 0 <= i < bits.Length0 && 0 <= k < bits.Length1 && i != circPos ==> bits[i, k] == old(bits[i, k])
      {
        bits[circPos, j] := 0;
        j := j + 1;
      }
      CountNonzeroAllZero(RowOf(bits, circPos));
      forall i | 0 <= i < wordPops.Length && i != circPos ensures wordPops[i] == CountNonzero(RowOf(bits, i)) {
        forall k | 0 <= k < rowWidth ensures RowOf(bits, i)[k] == old(RowOf(bits, i))[k] {
          assert bits[i, k] == old(bits[i, k]);
        }
        assert RowOf(bits, i) == old(RowOf(bits, i));
      }
    }

    /** CheckPanic: true iff none of its checks fails (it panics otherwise). */
    method CheckPanic() returns (ok: bool)
      requires Shape()
      ensures ok <==> BoundsChecked(wordPops[..], firstPos, lastPos) && PopsInSync(bits, wordPops, -1)
    {
      var nCirc := wordPops.Length;
      if lastPos == -1 {
        if firstPos != FIRST_POS_EMPTY {
          return false;
        }
      } else {
        if firstPos > lastPos || firstPos + (nCirc - 1) <= lastPos {
          return false;
        }
        if wordPops[firstPos % nCirc] == 0 || wordPops[lastPos % nCirc] == 0 {
          return false;
        }
      }
      var i := 0;
      while i != nCirc
        invariant 0 <= i <= nCirc
        invariant forall k :: 0 <= k < i ==> wordPops[k] == CountNonzero(RowOf(bits, k))
      {
        var nz := 0;
        var j := 0;
        while j != rowWidth
          invariant 0 <= j <= rowWidth
          invariant nz == CountNonzero(RowOf(bits, i)[..j])
        {
          assert RowOf(bits, i)[..j + 1][..j] == RowOf(bits, i)[..j];
          if bits[i, j] != 0 {
            nz := nz + 1;
          }
          j := j + 1;
        }
        assert RowOf(bits, i)[..rowWidth] == RowOf(bits, i);
        if nz % 256 != wordPops[i] {
          return false;
        }
        i := i + 1;
      }
      return true;
    }
  }

  /** Changing a count without emptying or newly occupying its row keeps the
      window. */
  lemma UpdateKeepsWindow(pops: seq<uint8>, first: int, last: int, c: int, v: uint8)
    requires WindowOf(pops, first, last) && 0 <= c < |pops|
    requires v == pops[c] || (v != 0 && pops[c] != 0)
    ensures WindowOf(pops[c := v], first, last)
  {
    if v == pops[c] {
      assert pops[c := v] == pops;
    }
  }

  /** The row count Clear writes as written: one less (mod 256) whenever the
      cleared word is zero, even if it was zero already. */
  function PopAsWritten(pop: uint8, newWord: word): uint8
  {
    if newWord == 0 then ((pop as int + 255) % 256) as uint8 else pop
  }

  /** Clear exactly as written: the row count follows PopAsWritten, and when
      it reaches zero the window moves as in Clear (firstPos to the next
      occupied position, or lastPos back to the previous one, searched in the
      counts after the store). The lastPos search is the corrected
      IndexNonzeroRev; the as-written one is IndexNonzeroRevAsWritten. */
  method ClearAsWritten(b: Bitmap, pos: int, circPos: int, colIdx: int)
    requires b.Valid()
    requires 0 <= pos < FIRST_POS_EMPTY && b.wordPops.Length > 0 && circPos == pos % b.wordPops.Length
    requires 0 <= colIdx < BITS_PER_WORD * b.rowWidth
    requires b.wordPops[circPos] != 0 ==> b.firstPos <= pos <= b.lastPos
    modifies b`firstPos, b`lastPos, b.bits, b.wordPops
    ensures b.bits[circPos, colIdx / BITS_PER_WORD] ==
      ClearBit(old(b.bits[circPos, colIdx / BITS_PER_WORD]), colIdx % BITS_PER_WORD)
    ensures forall i, j :: 0 <= i < b.bits.Length0 && 0 <= j < b.bits.Length1 && (i, j) != (circPos, colIdx / BITS_PER_WORD) ==>
              b.bits[i, j] == old(b.bits[i, j])
    ensures b.wordPops[..] == old(b.wordPops[..])[circPos := PopAsWritten(old(b.wordPops[circPos]), b.bits[circPos, colIdx / BITS_PER_WORD])]
    ensures b.wordPops[circPos] != 0 || (pos != old(b.firstPos) && pos != old(b.lastPos)) ==>
              b.firstPos == old(b.firstPos) && b.lastPos == old(b.lastPos)
    ensures b.wordPops[circPos] == 0 && pos == old(b.firstPos) ==>
              (b.firstPos, b.lastPos) == AdvanceFirst(b.wordPops[..], old(b.wordPops[..]), old(b.firstPos), old(b.lastPos))
    ensures b.wordPops[circPos] == 0 && pos == old(b.lastPos) && pos != old(b.firstPos) ==>
              b.firstPos == old(b.firstPos) && old(b.firstPos) <= b.lastPos < old(b.lastPos)
              && WindowOf(b.wordPops[..], b.firstPos, b.lastPos)
  {
    var w := colIdx / BITS_PER_WORD;
    WordIndexInRow(colIdx, b.rowWidth);
    var curWord := ClearBit(b.bits[circPos, w], colIdx % BITS_PER_WORD);
    var wPop := PopAsWritten(b.wordPops[circPos], curWord);
    var first, last := WindowAfterClear(b.wordPops[..][circPos := wPop], b.wordPops[..], circPos, pos, b.firstPos, b.lastPos);
    StoreAsWritten(b, circPos, w, curWord, wPop, first, last);
  }

  /** Where the window goes once the count at circPos is stored. */
  method WindowAfterClear(search: seq<uint8>, ghost pops: seq<uint8>, circPos: int, pos: int, first: int, last: int)
    returns (f: int, l: int)
    requires WindowOf(pops, first, last) && 0 <= circPos < |pops| == |search|
    requires 0 <= pos < FIRST_POS_EMPTY && circPos == pos % |pops|
    requires search == pops[circPos := search[circPos]]
    requires pops[circPos] != 0 ==> first <= pos <= last
    ensures search[circPos] != 0 || (pos != first && pos != last) ==> f == first && l == last
    ensures search[circPos] == 0 && pos == first ==> (f, l) == AdvanceFirst(search, pops, first, last)
    ensures search[circPos] == 0 && pos == last && pos != first ==>
              f == first && first <= l < last && WindowOf(search, f, l)
  {
    f, l := first, last;
    if search[circPos] == 0 {
      if pos == first {
        var r := AdvanceFirst(search, pops, first, last);
        f, l := r.0, r.1;
      } else if pos == last {
        l := RetreatLast(search, pops, first, last);
      }
    }
  }

  /** Stores one word, one row count and the window, touching nothing else. */
  method StoreAsWritten(b: Bitmap, c: int, w: int, newWord: word, pop: uint8, first: int, last: int)
    requires b.Shape() && 0 <= c < b.wordPops.Length && 0 <= w < b.rowWidth
    modifies b`firstPos, b`lastPos, b.bits, b.wordPops
    ensures b.bits[c, w] == newWord && b.firstPos == first && b.lastPos == last
    ensures forall i, j :: 0 <= i < b.bits.Length0 && 0 <= j < b.bits.Length1 && (i, j) != (c, w) ==>
              b.bits[i, j] == old(b.bits[i, j])
    ensures b.wordPops[..] == old(b.wordPops[..])[c := pop]
  {
    b.bits[c, w] := newWord;
    b.wordPops[c] := pop;
    b.firstPos, b.lastPos := first, last;
  }

  /** The discrepancy: on a fresh bitmap, clearing bit 0 of row 0 (already
      clear) leaves wordPops[0] == 255 for a row with no nonzero word. */
  method ClearAsWrittenOnFreshBitmap() returns (pop: uint8, inSync: bool)
    ensures pop == 255 && !inSync
  {
    var b := new Bitmap.Init(2, 1);
    ClearAsWritten(b, 0, 0, 0);
    pop := b.wordPops[0];
    assert RowOf(b.bits, 0) == [0];
    assert CountNonzero([0]) == 0;
    inSync := pop == CountNonzero(RowOf(b.bits, 0));
  }
}
