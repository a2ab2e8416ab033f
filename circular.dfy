/** NextExp2: the power of two used to size circular buffers. */
module Circular {
  import opened Ints

  function Pow2(k: nat): (r: nat)
    ensures r >= 1
  {
    if k == 0 then 1 else 2 * Pow2(k - 1)
  }

  ghost predicate IsPow2(r: int) { exists k: nat :: r == Pow2(k) }

  /** The number of significant bits of u: 0 for 0. */
  function BitLen(u: nat): nat
  {
    if u == 0 then 0 else 1 + BitLen(u / 2)
  }

  /** bits.LeadingZeros64 on a 64-bit unsigned value. */
  function LeadingZeros64(u: nat): int
    requires u < TWO_64
  {
    64 - BitLen(u)
  }

  lemma {:induction false} BitLenBounds(u: nat)
    requires u >= 1
    ensures Pow2(BitLen(u) - 1) <= u < Pow2(BitLen(u))
  {
    if u >= 2 {
      BitLenBounds(u / 2);
    }
  }

  lemma {:induction false} BitLenAtMost(u: nat, k: nat)
    requires u < Pow2(k)
    ensures BitLen(u) <= k
  {
    if u > 0 {
      BitLenAtMost(u / 2, k - 1);
    }
  }

  lemma {:induction false} BitLenOfPow2(k: nat)
    ensures BitLen(Pow2(k)) == k + 1
  {
    if k > 0 {
      BitLenOfPow2(k - 1);
      assert Pow2(k) / 2 == Pow2(k - 1);
    }
  }

  lemma {:induction false} Pow2Monotone(j: nat, k: nat)
    requires j <= k
    ensures Pow2(j) <= Pow2(k)
  {
    if j < k {
      Pow2Monotone(j, k - 1);
    }
  }

  lemma Pow2Of62()
    ensures Pow2(62) == 0x4000_0000_0000_0000 && Pow2(63) == TWO_63
  {
    assert Pow2(7) == 128;
    assert Pow2(14) == 16384 by { Pow2Add(7, 7); }
    assert Pow2(28) == 0x1000_0000 by { Pow2Add(14, 14); }
    assert Pow2(31) == 0x8000_0000 by { Pow2Add(28, 3); }
    assert Pow2(62) == 0x4000_0000_0000_0000 by { Pow2Add(31, 31); }
  }

  lemma {:induction false} Pow2Add(j: nat, k: nat)
    ensures Pow2(j + k) == Pow2(j) * Pow2(k)
  {
    if k > 0 {
      Pow2Add(j, k - 1);
    }
  }

  lemma NextPow2Bounds(u: nat)
    ensures u < Pow2(BitLen(u))
    ensures u >= 1 ==> Pow2(BitLen(u)) / 2 <= u
  {
    if u >= 1 {
      BitLenBounds(u);
      assert Pow2(BitLen(u)) == 2 * Pow2(BitLen(u) - 1);
    }
  }

  /** NextExp2 as written: `2 << uint32(63 - LeadingZeros64(uint64(x)))` on a
      64-bit int, where a shift count of 64 or more gives 0. */
  function NextExp2AsWritten(x: int): int
    requires IsInt64(x)
  {
    var log2 := 63 - LeadingZeros64(WrapUint64(x));
    var shift := log2 % TWO_32;
    if shift >= 64 then 0 else WrapInt64(2 * Pow2(shift))
  }

  /** For 1 <= x < 2^62 the source returns the next power of two strictly
      greater than x, and it is at most 2x. */
  lemma NextExp2AsWrittenInRange(x: int)
    requires 1 <= x < 0x4000_0000_0000_0000
    ensures IsPow2(NextExp2AsWritten(x))
    ensures x < NextExp2AsWritten(x) <= 2 * x
    ensures NextExp2AsWritten(x) == NextExp2(x)
  {
    BitLenBounds(x);
    Pow2Of62();
    BitLenAtMost(x, 62);
    var b := BitLen(x);
    assert LeadingZeros64(WrapUint64(x)) == 64 - b;
    assert 2 * Pow2(b - 1) == Pow2(b);
    Pow2Monotone(b, 62);
  }

  /** The discrepancy: NextExp2(0) is 0, which is not greater than 0. */
  lemma NextExp2AsWrittenAtZero()
    ensures NextExp2AsWritten(0) == 0
  {
    assert BitLen(0) == 0;
    assert (63 - 64) % TWO_32 == TWO_32 - 1;
  }

  /** The documented intent: the least power of two strictly greater than x,
      for every x below 2^62 (for x < 1 that is 1). */
  function NextExp2(x: int): (r: int)
    requires x < 0x4000_0000_0000_0000
    ensures IsPow2(r)
    ensures x < r
    ensures r == 1 || r / 2 <= x
  {
    var u: nat := if x < 0 then 0 else x;
    NextPow2Bounds(u);
    Pow2(BitLen(u))
  }

  /** NextExp2(2^k) == 2^(k+1). */
  lemma NextExp2OfPow2(k: nat)
    requires k <= 61
    ensures Pow2(k) < 0x4000_0000_0000_0000
    ensures NextExp2(Pow2(k)) == Pow2(k + 1)
  {
    Pow2Of62();
    Pow2Monotone(k, 61);
    BitLenOfPow2(k);
  }
}
