/** The varint encodings of Go's encoding/binary (PutUvarint, Uvarint,
    PutVarint, Varint), which the PAM field buffers use for integers. */
module Varints {
  import opened Ints
  import opened LittleEndian

  /** binary.MaxVarintLen64: the longest encoding of a 64-bit value. */
  const MAX_VARINT_LEN64: nat := 10

  function Pow128(i: nat): (p: nat)
    ensures p >= 1
  {
    if i == 0 then 1 else 128 * Pow128(i - 1)
  }

  // ---------------------------------------------------------------------
  // Unsigned

  /** PutUvarint: seven bits per byte, least significant group first, the
      high bit set on every byte but the last. */
  function UvarintBytes(x: nat): (bs: seq<uint8>)
    ensures |bs| >= 1 && bs[|bs| - 1] < 128
    ensures forall j :: 0 <= j < |bs| - 1 ==> bs[j] >= 128
  {
    if x < 128 then [x] else [x % 128 + 128] + UvarintBytes(x / 128)
  }

  /** Uvarint from byte i on, with x the value of the groups read so far:
      (value, bytes read) on success, (0, 0) when the input ends before
      the last byte, (0, -(i + 1)) when the value overflows 64 bits. */
  function UvarintFrom(bs: seq<uint8>, i: nat, x: nat): (r: (nat, int))
    decreases |bs| - i
  {
    if i >= |bs| then (0, 0)
    else if i == MAX_VARINT_LEN64 then (0, -(i + 1))
    else if bs[i] < 128 then
      if i == MAX_VARINT_LEN64 - 1 && bs[i] > 1 then (0, -(i + 1))
      else (x + Group(bs[i], i), i + 1)
    else UvarintFrom(bs, i + 1, x + Group(bs[i] - 128, i))
  }

  /** The seven-bit group g shifted into place i. */
  function Group(g: nat, i: nat): nat
  {
    MulMono(0, g, Pow128(i));
    g * Pow128(i)
  }

  /** binary.Uvarint. */
  function Uvarint(bs: seq<uint8>): (nat, int)
  {
    UvarintFrom(bs, 0, 0)
  }

  lemma {:induction false} UvarintBytesShort(x: nat, k: nat)
    requires k >= 1 && x < Pow128(k)
    ensures |UvarintBytes(x)| <= k
  {
    if x >= 128 {
      var p := Pow128(k - 1);
      assert k > 1 && Pow128(k) == 128 * p;
      var q := x / 128;
      assert x == 128 * q + x % 128;
      UvarintBytesShort(q, k - 1);
      assert UvarintBytes(x) == [x % 128 + 128] + UvarintBytes(q);
    }
  }

  lemma Pow128Ten()
    ensures Pow128(9) == TWO_63 && Pow128(10) == 0x40_0000_0000_0000_0000
  {
    assert Pow128(1) == 0x80;
    assert Pow128(2) == 0x4000;
    assert Pow128(3) == 0x20_0000;
    assert Pow128(4) == 0x1000_0000;
    assert Pow128(5) == 0x8_0000_0000;
    assert Pow128(6) == 0x400_0000_0000;
    assert Pow128(7) == 0x2_0000_0000_0000;
    assert Pow128(8) == 0x100_0000_0000_0000;
  }

  lemma MulMono(a: nat, b: nat, p: nat)
    requires a <= b
    ensures 0 <= a * p <= b * p
  {
  }

  /** One step of the decoder's running sum. */
  lemma GroupStep(x: nat, y: nat, p: nat)
    ensures x + (y % 128) * p + (y / 128) * (128 * p) == x + y * p
  {
    calc {
      (y % 128) * p + (y / 128) * (128 * p);
      (y % 128) * p + (128 * (y / 128)) * p;
      (y % 128 + 128 * (y / 128)) * p;
      y * p;
    }
  }

  lemma {:induction false} UvarintFromBytes(bs: seq<uint8>, i: nat, x: nat, y: nat, p: nat)
    requires p == Pow128(i)
    requires i + |UvarintBytes(y)| <= |bs| && bs[i..i + |UvarintBytes(y)|] == UvarintBytes(y)
    requires i + |UvarintBytes(y)| <= MAX_VARINT_LEN64
    requires x + y * p < TWO_64
    ensures UvarintFrom(bs, i, x) == (x + y * p, i + |UvarintBytes(y)|)
    decreases y
  {
    if y >= 128 {
      var q, r := y / 128, y % 128;
      UvarintBytesTail(bs, i, y);
      GroupStep(x, y, p);
      UvarintFromStep(bs, i, x, r, p);
      UvarintFromBytes(bs, i + 1, x + r * p, q, 128 * p);
    } else {
      UvarintFromLast(bs, i, x, y, p);
    }
  }

  /** The last group: a byte below 128 ends the value, and at the tenth byte
      it cannot exceed 1 since the value stays below 2^64. */
  lemma UvarintFromLast(bs: seq<uint8>, i: nat, x: nat, y: nat, p: nat)
    requires y < 128 && p == Pow128(i)
    requires i < |bs| && bs[i] == y && i < MAX_VARINT_LEN64
    requires x + y * p < TWO_64
    ensures UvarintFrom(bs, i, x) == (x + y * p, i + 1)
  {
    if i == MAX_VARINT_LEN64 - 1 {
      Pow128Ten();
      assert y * TWO_63 < TWO_64;
    }
  }

  lemma UvarintBytesTail(bs: seq<uint8>, i: nat, y: nat)
    requires y >= 128
    requires i + |UvarintBytes(y)| <= |bs| && bs[i..i + |UvarintBytes(y)|] == UvarintBytes(y)
    ensures bs[i] == y % 128 + 128
    ensures |UvarintBytes(y)| == 1 + |UvarintBytes(y / 128)|
    ensures bs[i + 1..i + 1 + |UvarintBytes(y / 128)|] == UvarintBytes(y / 128)
  {
    var e := UvarintBytes(y);
    assert bs[i] == e[0];
    assert e[1..] == UvarintBytes(y / 128);
    assert bs[i + 1..i + |e|] == e[1..];
  }

  lemma UvarintFromStep(bs: seq<uint8>, i: nat, x: nat, r: nat, p: nat)
    requires p == Pow128(i)
    requires i < |bs| && i < MAX_VARINT_LEN64 && bs[i] == r + 128
    ensures UvarintFrom(bs, i, x) == UvarintFrom(bs, i + 1, x + r * p)
  {
  }

  /** Uvarint inverts PutUvarint for every 64-bit value, whatever follows. */
  lemma UvarintRoundTrip(x: nat, rest: seq<uint8>)
    requires x < TWO_64
    ensures Uvarint(UvarintBytes(x) + rest) == (x, |UvarintBytes(x)|)
  {
    Pow128Ten();
    UvarintBytesShort(x, 10);
    var bs := UvarintBytes(x) + rest;
    assert bs[0..|UvarintBytes(x)|] == UvarintBytes(x);
    UvarintFromBytes(bs, 0, 0, x, 1);
  }

  /** PutUvarint writes at most MaxVarintLen64 bytes. */
  lemma UvarintBytesFit(x: nat)
    requires x < TWO_64
    ensures |UvarintBytes(x)| <= MAX_VARINT_LEN64
  {
    Pow128Ten();
    UvarintBytesShort(x, 10);
  }

  lemma {:induction false} UvarintFromZero(bs: seq<uint8>, i: nat, x: nat)
    requires i <= MAX_VARINT_LEN64
    ensures UvarintFrom(bs, i, x).1 == 0 <==>
      |bs| <= MAX_VARINT_LEN64 && forall j :: i <= j < |bs| ==> bs[j] >= 128
    decreases |bs| - i
  {
    if i < |bs| && i < MAX_VARINT_LEN64 && bs[i] >= 128 {
      UvarintFromZero(bs, i + 1, x + (bs[i] - 128) * Pow128(i));
    }
  }

  /** Uvarint reports 0 bytes read exactly when the input is at most ten
      bytes long and every byte has its continuation bit set. */
  lemma UvarintShort(bs: seq<uint8>)
    ensures Uvarint(bs).1 == 0 <==>
      |bs| <= MAX_VARINT_LEN64 && forall j :: 0 <= j < |bs| ==> bs[j] >= 128
  {
    UvarintFromZero(bs, 0, 0);
  }

  lemma {:induction false} UvarintFromBounds(bs: seq<uint8>, i: nat, x: nat)
    requires i <= MAX_VARINT_LEN64 && x < Pow128(i)
    ensures UvarintFrom(bs, i, x).1 > 0 ==>
      i < UvarintFrom(bs, i, x).1 <= MAX_VARINT_LEN64 && UvarintFrom(bs, i, x).1 <= |bs|
      && UvarintFrom(bs, i, x).0 < TWO_64
    decreases |bs| - i
  {
    if i < |bs| && i < MAX_VARINT_LEN64 {
      var b := bs[i];
      var p := Pow128(i);
      assert Pow128(i + 1) == 128 * p;
      if b >= 128 {
        MulMono(b - 128, 127, p);
        UvarintFromBounds(bs, i + 1, x + (b - 128) * p);
      } else if i == MAX_VARINT_LEN64 - 1 {
        Pow128Ten();
        if b <= 1 {
          MulMono(b, 1, p);
        }
      } else {
        MulMono(b, 127, p);
        Pow128Monotone(i + 1, 9);
        Pow128Ten();
      }
    }
  }

  lemma {:induction false} Pow128Monotone(i: nat, j: nat)
    requires i <= j
    ensures Pow128(i) <= Pow128(j)
    decreases j
  {
    if i < j {
      Pow128Monotone(i, j - 1);
    }
  }

  /** A successful Uvarint read between 1 and ten bytes, within the input,
      and yields a 64-bit value. */
  lemma UvarintBounds(bs: seq<uint8>)
    ensures Uvarint(bs).1 > 0 ==>
      Uvarint(bs).1 <= MAX_VARINT_LEN64 && Uvarint(bs).1 <= |bs| && Uvarint(bs).0 < TWO_64
  {
    UvarintFromBounds(bs, 0, 0);
  }

  // ---------------------------------------------------------------------
  // Signed

  /** The zig-zag mapping of PutVarint: uint64(x) << 1, complemented for
      negative x. */
  function ZigZag(x: int): (u: nat)
    requires IsInt64(x)
    ensures u < TWO_64
  {
    if x >= 0 then 2 * x else -2 * x - 1
  }

  /** Its inverse in Varint: int64(ux >> 1), complemented when ux is odd. */
  function UnZigZag(u: nat): (x: int)
    requires u < TWO_64
    ensures IsInt64(x)
  {
    if u % 2 == 0 then u / 2 else -(u / 2) - 1
  }

  lemma ZigZagRoundTrip(x: int)
    requires IsInt64(x)
    ensures UnZigZag(ZigZag(x)) == x
  {
  }

  lemma UnZigZagRoundTrip(u: nat)
    requires u < TWO_64
    ensures ZigZag(UnZigZag(u)) == u
  {
  }

  /** PutVarint. */
  function VarintBytes(x: int): seq<uint8>
    requires IsInt64(x)
  {
    UvarintBytes(ZigZag(x))
  }

  /** binary.Varint: the zig-zag decoding of Uvarint, with Uvarint's byte
      count. */
  function Varint(bs: seq<uint8>): (r: (int, int))
    ensures r.1 > 0 ==> IsInt64(r.0)
  {
    var (u, n) := Uvarint(bs);
    UvarintBounds(bs);
    if u < TWO_64 then (UnZigZag(u), n) else (0, n)
  }

  /** Varint inverts PutVarint for every 64-bit value, whatever follows. */
  lemma VarintRoundTrip(x: int, rest: seq<uint8>)
    requires IsInt64(x)
    ensures Varint(VarintBytes(x) + rest) == (x, |VarintBytes(x)|)
  {
    UvarintRoundTrip(ZigZag(x), rest);
  }
}
