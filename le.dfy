/** Little-endian byte encodings (Go's encoding/binary.LittleEndian), shared
    by the binary formats of the model. */
module LittleEndian {
  import opened Ints

  /** A byte of a binary format, as a number. */
  type uint8 = x: int | 0 <= x < 256

  /** The unsigned integer types of the formats. */
  type uint16 = x: int | 0 <= x < 0x1_0000
  type uint32 = x: int | 0 <= x < 0x1_0000_0000

  function Pow256(n: nat): (p: nat)
    ensures p >= 1
  {
    if n == 0 then 1 else 256 * Pow256(n - 1)
  }

  /** The unsigned value of bs, least significant byte first. */
  function Decode(bs: seq<uint8>): (v: nat)
    ensures v < Pow256(|bs|)
  {
    if bs == [] then 0 else bs[0] + 256 * Decode(bs[1..])
  }

  /** The n-byte little-endian encoding of x. */
  function Encode(x: nat, n: nat): (bs: seq<uint8>)
    requires x < Pow256(n)
    ensures |bs| == n
  {
    if n == 0 then [] else [x % 256] + Encode(x / 256, n - 1)
  }

  /** Decoding inverts encoding. */
  lemma {:induction false} DecodeEncode(x: nat, n: nat)
    requires x < Pow256(n)
    ensures Decode(Encode(x, n)) == x
  {
    if n > 0 {
      var bs := Encode(x, n);
      DecodeEncode(x / 256, n - 1);
      assert bs[1..] == Encode(x / 256, n - 1);
      assert Decode(bs) == x % 256 + 256 * (x / 256);
    }
  }

  /** Encoding inverts decoding. */
  lemma {:induction false} EncodeDecode(bs: seq<uint8>)
    ensures Encode(Decode(bs), |bs|) == bs
  {
    if bs != [] {
      EncodeDecode(bs[1..]);
      var v := Decode(bs);
      DivModUnique(v, 256, Decode(bs[1..]), bs[0]);
      var e := Encode(v, |bs|);
      assert e[0] == bs[0];
      assert e[1..] == bs[1..];
    }
  }

  /** Decoding a concatenation: the second part is shifted by the first
      part's width. */
  lemma {:induction false} DecodeAppend(a: seq<uint8>, b: seq<uint8>)
    ensures Decode(a + b) == Decode(a) + Pow256(|a|) * Decode(b)
  {
    if a != [] {
      assert (a + b)[1..] == a[1..] + b;
      DecodeAppend(a[1..], b);
      assert Decode(a + b) == a[0] + 256 * Decode(a[1..] + b);
      Distribute(a[0], Decode(a[1..]), Pow256(|a| - 1), Decode(b));
    } else {
      assert a + b == b;
    }
  }

  lemma Distribute(c: int, x: int, y: int, z: int)
    ensures c + 256 * (x + y * z) == (c + 256 * x) + (256 * y) * z
  {
  }

  function Uint16At(bs: seq<uint8>, off: nat): (v: nat)
    requires off + 2 <= |bs|
    ensures v < 0x1_0000
  {
    bs[off] as int + 0x100 * (bs[off + 1] as int)
  }

  function Uint32At(bs: seq<uint8>, off: nat): (v: nat)
    requires off + 4 <= |bs|
    ensures IsUint32(v)
  {
    bs[off] as int + 0x100 * (bs[off + 1] as int) + 0x1_0000 * (bs[off + 2] as int) + 0x100_0000 * (bs[off + 3] as int)
  }

  /** int32(binary.LittleEndian.Uint32(...)): the bit pattern read as two's
      complement, negative exactly when the top bit of the last byte is set. */
  function Int32At(bs: seq<uint8>, off: nat): (v: int)
    requires off + 4 <= |bs|
    ensures IsInt32(v)
  {
    Uint32At(bs, off) - 0x1_0000_0000 * ((bs[off + 3] as int) / 128)
  }

  /** Int32At is Go's int32 conversion of the uint32 read there. */
  lemma Int32AtWraps(bs: seq<uint8>, off: nat)
    requires off + 4 <= |bs|
    ensures Int32At(bs, off) == WrapInt32(Uint32At(bs, off))
  {
  }

  function Uint64At(bs: seq<uint8>, off: nat): (v: nat)
    requires off + 8 <= |bs|
    ensures IsUint64(v)
  {
    Uint32At(bs, off) + 0x1_0000_0000 * Uint32At(bs, off + 4)
  }

  /** The fixed-width readers are Decode on the slice they read. */
  lemma Uint16AtDecodes(bs: seq<uint8>, off: nat)
    requires off + 2 <= |bs|
    ensures Uint16At(bs, off) == Decode(bs[off..off + 2])
  {
    var s := bs[off..off + 2];
    assert s[1..][1..] == [];
    assert Decode(s[1..]) == s[1] + 256 * Decode(s[1..][1..]);
  }

  lemma Uint32AtDecodes(bs: seq<uint8>, off: nat)
    requires off + 4 <= |bs|
    ensures Uint32At(bs, off) == Decode(bs[off..off + 4])
  {
    var s := bs[off..off + 4];
    DecodeAppend(s[..2], s[2..]);
    assert s[..2] + s[2..] == s;
    Uint16AtDecodes(s, 0);
    Uint16AtDecodes(s, 2);
    assert s[0..2] == s[..2] && s[2..4] == s[2..];
    assert s[0] == bs[off] && s[1] == bs[off + 1] && s[2] == bs[off + 2] && s[3] == bs[off + 3];
    assert Uint32At(bs, off) == Uint16At(s, 0) + 0x1_0000 * Uint16At(s, 2);
    Pow256Values();
  }

  lemma Uint64AtDecodes(bs: seq<uint8>, off: nat)
    requires off + 8 <= |bs|
    ensures Uint64At(bs, off) == Decode(bs[off..off + 8])
  {
    var s := bs[off..off + 8];
    DecodeAppend(s[..4], s[4..]);
    assert s[..4] + s[4..] == s;
    Uint32AtDecodes(bs, off);
    Uint32AtDecodes(bs, off + 4);
    assert bs[off..off + 4] == s[..4] && bs[off + 4..off + 8] == s[4..];
    Pow256Values();
  }

  /** PutUint32 of an int32 value: its two's-complement bit pattern. */
  function EncodeInt32(x: int): (bs: seq<uint8>)
    requires IsInt32(x)
    ensures |bs| == 4
  {
    Encode(if x < 0 then x + TWO_32 else x, 4)
  }

  lemma Int32RoundTrip(x: int)
    requires IsInt32(x)
    ensures Int32At(EncodeInt32(x), 0) == x
  {
    var u := if x < 0 then x + TWO_32 else x;
    Uint32RoundTrip(u);
    Int32AtWraps(EncodeInt32(x), 0);
  }

  lemma Uint32RoundTrip(x: nat)
    requires IsUint32(x)
    ensures Uint32At(Encode(x, 4), 0) == x
  {
    DecodeEncode(x, 4);
    Uint32AtDecodes(Encode(x, 4), 0);
    assert Encode(x, 4)[0..4] == Encode(x, 4);
  }

  lemma Uint64RoundTrip(x: nat)
    requires IsUint64(x)
    ensures Uint64At(Encode(x, 8), 0) == x
  {
    DecodeEncode(x, 8);
    Uint64AtDecodes(Encode(x, 8), 0);
    assert Encode(x, 8)[0..8] == Encode(x, 8);
  }

  lemma Pow256Values()
    ensures Pow256(2) == 0x1_0000 && Pow256(4) == TWO_32 && Pow256(8) == TWO_64
  {
  }
}
