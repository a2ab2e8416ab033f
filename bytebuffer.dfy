/** The byteBuffer of the PAM field files: a byte array with a cursor n.
    Writers append at n, growing the array when needed; readers decode at n
    and advance it by the bytes they consumed. */
module FieldBuffers {
  import opened Wrappers
  import opened Ints
  import opened LittleEndian
  import opened Varints

  /** What one reader call does with the unread bytes: the value read and
      the number of bytes the cursor advances, or a panic together with the
      number of bytes the cursor had already advanced when it happened. */
  datatype ReadOut = Value(value: int, size: nat) | Panic(msg: string, size: nat)

  const INDEX_OUT_OF_RANGE := "index out of range"
  const SLICE_OUT_OF_RANGE := "slice bounds out of range"
  const VALUE_OUT_OF_RANGE := "value out of range"

  // ---------------------------------------------------------------------
  // What each reader does with the unread bytes u

  /** Uint16: a fixed16 value. */
  function Uint16Of(u: seq<uint8>): (r: ReadOut)
    ensures r.Value? <==> |u| >= 2
    ensures r.Value? ==> r.size == 2 && r.value < 0x1_0000
    ensures r.Panic? ==> r.size == 0
  {
    if |u| < 2 then Panic(INDEX_OUT_OF_RANGE, 0) else Value(Uint16At(u, 0), 2)
  }

  /** Float64: the 64-bit pattern of a float64. */
  function Float64Of(u: seq<uint8>): (r: ReadOut)
    ensures r.Value? <==> |u| >= 8
    ensures r.Value? ==> r.size == 8 && IsUint64(r.value)
    ensures r.Panic? ==> r.size == 0
  {
    if |u| < 8 then Panic(INDEX_OUT_OF_RANGE, 0) else Value(Uint64At(u, 0), 8)
  }

  /** Uint8: one byte. */
  function Uint8Of(u: seq<uint8>): (r: ReadOut)
    ensures r.Value? <==> |u| >= 1
    ensures r.Value? ==> r.size == 1 && r.value == u[0]
    ensures r.Panic? ==> r.size == 0
  {
    if |u| < 1 then Panic(INDEX_OUT_OF_RANGE, 0) else Value(u[0], 1)
  }

  /** Varint64: a signed varint; a read of no bytes or an overflow is an
      underflow panic. */
  function Varint64Of(u: seq<uint8>): (r: ReadOut)
    ensures r.Value? ==> 1 <= r.size <= MAX_VARINT_LEN64 && r.size <= |u| && IsInt64(r.value)
    ensures r.Panic? ==> r.size == 0
  {
    var (v, k) := Varint(u);
    UvarintBounds(u);
    if k <= 0 then Panic("byteBuffer.Varint64: underflow", 0) else Value(v, k)
  }

  /** Varint32: Varint64, then a panic (after the cursor has moved) when the
      value does not fit 32 bits. */
  function Varint32Of(u: seq<uint8>): (r: ReadOut)
    ensures r.Value? ==> r == Varint64Of(u) && IsInt32(r.value)
    ensures r.Panic? ==> r.size == (if Varint64Of(u).Value? then Varint64Of(u).size else 0)
  {
    match Varint64Of(u)
    case Panic(msg, k) => Panic(msg, k)
    case Value(v, k) => if IsInt32(v) then Value(v, k) else Panic(VALUE_OUT_OF_RANGE, k)
  }

  /** Uvarint64: an unsigned varint; a read of no bytes or an overflow is an
      underflow panic. */
  function Uvarint64Of(u: seq<uint8>): (r: ReadOut)
    ensures r.Value? ==> 1 <= r.size <= MAX_VARINT_LEN64 && r.size <= |u| && IsUint64(r.value)
    ensures r.Panic? ==> r.size == 0
  {
    var (v, k) := Uvarint(u);
    UvarintBounds(u);
    if k <= 0 then Panic("byteBuffer.Uvarint64: underflow", 0) else Value(v, k)
  }

  /** Uvarint32: like Uvarint64 with its own message, then a panic (after
      the cursor has moved) when the value exceeds MaxUint32. */
  function Uvarint32Of(u: seq<uint8>): (r: ReadOut)
    ensures r.Value? ==> r == Uvarint64Of(u) && IsUint32(r.value)
    ensures r.Panic? ==> r.size == (if Uvarint64Of(u).Value? then Uvarint64Of(u).size else 0)
  {
    var (v, k) := Uvarint(u);
    UvarintBounds(u);
    if k <= 0 then Panic("byteBuffer.Uvarint32: underflow", 0)
    else if v > MAX_UINT32 then Panic(VALUE_OUT_OF_RANGE, k)
    else Value(v, k)
  }

  /** RawBytes(m): the next m bytes. */
  function RawBytesOf(u: seq<uint8>, m: int): (r: Result<seq<uint8>>)
    ensures r.Ok? <==> 0 <= m <= |u|
    ensures r.Ok? ==> |r.value| == m && u == r.value + u[m..]
  {
    if m < 0 || m > |u| then Err(SLICE_OUT_OF_RANGE) else Ok(u[..m])
  }

  // ---------------------------------------------------------------------
  // A value written then read back

  lemma Uint16ReadsPut(v: nat, rest: seq<uint8>)
    requires v < 0x1_0000
    ensures (Pow256Values(); Uint16Of(Encode(v, 2) + rest) == Value(v, 2))
  {
    Pow256Values();
    var bs := Encode(v, 2) + rest;
    DecodeEncode(v, 2);
    Uint16AtDecodes(bs, 0);
    assert bs[0..2] == Encode(v, 2);
  }

  lemma Float64ReadsPut(bits: nat, rest: seq<uint8>)
    requires IsUint64(bits)
    ensures (Pow256Values(); Float64Of(Encode(bits, 8) + rest) == Value(bits, 8))
  {
    Pow256Values();
    var bs := Encode(bits, 8) + rest;
    DecodeEncode(bits, 8);
    Uint64AtDecodes(bs, 0);
    assert bs[0..8] == Encode(bits, 8);
  }

  lemma Varint64ReadsPut(x: int, rest: seq<uint8>)
    requires IsInt64(x)
    ensures Varint64Of(VarintBytes(x) + rest) == Value(x, |VarintBytes(x)|)
  {
    VarintRoundTrip(x, rest);
  }

  lemma Varint32ReadsPut(x: int, rest: seq<uint8>)
    requires IsInt32(x)
    ensures Varint32Of(VarintBytes(x) + rest) == Value(x, |VarintBytes(x)|)
  {
    VarintRoundTrip(x, rest);
  }

  /** Varint32 panics on a 64-bit value outside the int32 range, after the
      cursor has moved past it. */
  lemma Varint32RejectsWide(x: int, rest: seq<uint8>)
    requires IsInt64(x) && !IsInt32(x)
    ensures Varint32Of(VarintBytes(x) + rest) == Panic(VALUE_OUT_OF_RANGE, |VarintBytes(x)|)
  {
    VarintRoundTrip(x, rest);
  }

  lemma Uvarint64ReadsPut(x: nat, rest: seq<uint8>)
    requires IsUint64(x)
    ensures Uvarint64Of(UvarintBytes(x) + rest) == Value(x, |UvarintBytes(x)|)
  {
    UvarintRoundTrip(x, rest);
  }

  lemma Uvarint32ReadsPut(x: nat, rest: seq<uint8>)
    requires IsUint32(x)
    ensures Uvarint32Of(UvarintBytes(x) + rest) == Value(x, |UvarintBytes(x)|)
  {
    UvarintRoundTrip(x, rest);
  }

  /** Uvarint32 panics on a value above MaxUint32, after the cursor has
      moved past it. */
  lemma Uvarint32RejectsWide(x: nat, rest: seq<uint8>)
    requires IsUint64(x) && x > MAX_UINT32
    ensures Uvarint32Of(UvarintBytes(x) + rest) == Panic(VALUE_OUT_OF_RANGE, |UvarintBytes(x)|)
  {
    UvarintRoundTrip(x, rest);
  }

  /** A varint reader panics with underflow on input that ends inside a
      varint: at most ten bytes, each with its continuation bit set. */
  lemma VarintUnderflow(u: seq<uint8>)
    requires |u| <= MAX_VARINT_LEN64 && forall j :: 0 <= j < |u| ==> u[j] >= 128
    ensures Varint64Of(u) == Panic("byteBuffer.Varint64: underflow", 0)
    ensures Uvarint64Of(u) == Panic("byteBuffer.Uvarint64: underflow", 0)
    ensures Uvarint32Of(u) == Panic("byteBuffer.Uvarint32: underflow", 0)
  {
    UvarintShort(u);
  }

  // ---------------------------------------------------------------------
  // Growth

  /** The capacity ensure allocates: the next multiple of 16 above the
      bytes needed, or twice the old capacity when that is larger. */
  function NewCap(n: nat, bytes: nat, cap: nat): (c: nat)
    ensures c > n + bytes && c >= 2 * cap
    ensures c == 2 * cap || (c % 16 == 0 && c <= n + bytes + 16)
  {
    var c := ((n + bytes) / 16 + 1) * 16;
    if c < cap * 2 then cap * 2 else c
  }

  // ---------------------------------------------------------------------
  // The buffer

  class ByteBuffer {
    /** The cursor: bytes written so far, or bytes read so far. */
    var n: int
    /** The slice; its length and capacity are both buf.Length. */
    var buf: array<uint8>

    ghost predicate Valid()
      reads this
    {
      0 <= n <= buf.Length
    }

    /** Bytes: the data written so far. */
    function Bytes(): (bs: seq<uint8>)
      reads this, buf
      requires Valid()
      ensures |bs| == n
    {
      buf[..n]
    }

    /** The bytes a reader has not consumed yet. */
    function Unread(): (bs: seq<uint8>)
      reads this, buf
      requires Valid()
      ensures |bs| == buf.Length - n
    {
      buf[n..]
    }

    /** Len: the length of Bytes. */
    function Len(): (k: int)
      reads this, buf
      requires Valid()
      ensures k == |Bytes()|
    {
      n
    }

    /** The zero value, ready for writing. */
    constructor ()
      ensures Valid() && Bytes() == [] && fresh(buf)
    {
      n := 0;
      buf := new uint8[0];
    }

    /** A buffer for reading data from the start. */
    constructor FromBytes(data: seq<uint8>)
      ensures Valid() && n == 0 && buf[..] == data && fresh(buf)
    {
      n := 0;
      buf := new uint8[|data|](i requires 0 <= i < |data| => data[i]);
    }

    /** Reset to empty for reuse, keeping the array (buf[:0]). */
    method Reset()
      modifies this
      ensures Valid() && Bytes() == [] && buf == old(buf)
    {
      n := 0;
    }

    /** ensure: room for bytes more bytes after n, reallocating to NewCap
        and copying the written bytes when the array is too small. */
    method Ensure(bytes: nat)
      requires Valid()
      modifies this
      ensures Valid() && n == old(n) && Bytes() == old(Bytes())
      ensures n + bytes <= buf.Length
      ensures old(buf.Length) >= n + bytes ==> buf == old(buf)
      ensures old(buf.Length) < n + bytes ==> fresh(buf) && buf.Length == NewCap(n, bytes, old(buf.Length))
    {
      if buf.Length >= n + bytes {
        return;
      }
      var newCap := ((n + bytes) / 16 + 1) * 16;
      if newCap < buf.Length * 2 {
        newCap := buf.Length * 2;
      }
      var newBuf := new uint8[newCap](_ => 0);
      var i := 0;
      while i < n
        invariant 0 <= i <= n && n == old(n) && buf == old(buf)
        invariant newBuf[..i] == buf[..i]
      {
        newBuf[i] := buf[i];
        i := i + 1;
      }
      buf := newBuf;
    }

    /** Copy src to the room after n and move n past it. */
    method Append(src: seq<uint8>)
      requires Valid() && n + |src| <= buf.Length
      modifies this, buf
      ensures Valid() && buf == old(buf) && Bytes() == old(Bytes()) + src
    {
      var i := 0;
      while i < |src|
        invariant 0 <= i <= |src| && n == old(n) && buf == old(buf)
        invariant buf[..n + i] == old(buf[..n]) + src[..i]
      {
        buf[n + i] := src[i];
        i := i + 1;
      }
      n := n + |src|;
    }

    // Writers: each appends its encoding; the array is either the old one
    // or a new one.

    /** PutByte. */
    method PutByte(value: uint8)
      requires Valid()
      modifies this, buf
      ensures Valid() && Bytes() == old(Bytes()) + [value]
      ensures buf == old(buf) || fresh(buf)
    {
      Ensure(1);
      Append([value]);
    }

    /** PutBytes (and PutString, on the string's bytes): the bytes raw,
        without a length. ensure leaves room for all of them, so the
        source's panic on too little room cannot fire. */
    method PutBytes(data: seq<uint8>)
      requires Valid()
      modifies this, buf
      ensures Valid() && Bytes() == old(Bytes()) + data
      ensures buf == old(buf) || fresh(buf)
    {
      Ensure(|data|);
      assert |data| <= buf.Length - n;
      Append(data);
    }

    /** PutUint16: a fixed16. */
    method PutUint16(value: nat)
      requires value < 0x1_0000
      modifies this, buf
      requires Valid()
      ensures Valid() && (Pow256Values(); Bytes() == old(Bytes()) + Encode(value, 2))
      ensures buf == old(buf) || fresh(buf)
    {
      Pow256Values();
      Ensure(2);
      Append(Encode(value, 2));
    }

    /** PutFloat64: the value's 64-bit pattern as a fixed64. */
    method PutFloat64(bits: nat)
      requires IsUint64(bits)
      requires Valid()
      modifies this, buf
      ensures Valid() && (Pow256Values(); Bytes() == old(Bytes()) + Encode(bits, 8))
      ensures buf == old(buf) || fresh(buf)
    {
      Pow256Values();
      Ensure(8);
      Append(Encode(bits, 8));
    }

    /** PutVarint: a signed varint, after making room for the longest. */
    method PutVarint(value: int)
      requires IsInt64(value)
      requires Valid()
      modifies this, buf
      ensures Valid() && Bytes() == old(Bytes()) + VarintBytes(value)
      ensures buf == old(buf) || fresh(buf)
    {
      Ensure(MAX_VARINT_LEN64);
      UvarintBytesFit(ZigZag(value));
      Append(VarintBytes(value));
    }

    /** PutUvarint: an unsigned varint, after making room for the longest. */
    method PutUvarint(value: nat)
      requires IsUint64(value)
      requires Valid()
      modifies this, buf
      ensures Valid() && Bytes() == old(Bytes()) + UvarintBytes(value)
      ensures buf == old(buf) || fresh(buf)
    {
      Ensure(MAX_VARINT_LEN64);
      UvarintBytesFit(value);
      Append(UvarintBytes(value));
    }

    // Readers: each does what its function above says with the unread
    // bytes, and advances n by the size it reports.

    /** Uint16. */
    method Uint16() returns (r: ReadOut)
      requires Valid()
      modifies this
      ensures r == Uint16Of(old(Unread()))
      ensures Valid() && buf == old(buf) && n == old(n) + r.size
      ensures Unread() == old(Unread())[r.size..]
    {
      if buf.Length - n < 2 {
        return Panic(INDEX_OUT_OF_RANGE, 0);
      }
      r := Value(Uint16At(buf[n..], 0), 2);
      n := n + 2;
    }

    /** Float64. */
    method Float64() returns (r: ReadOut)
      requires Valid()
      modifies this
      ensures r == Float64Of(old(Unread()))
      ensures Valid() && buf == old(buf) && n == old(n) + r.size
      ensures Unread() == old(Unread())[r.size..]
    {
      if buf.Length - n < 8 {
        return Panic(INDEX_OUT_OF_RANGE, 0);
      }
      r := Value(Uint64At(buf[n..], 0), 8);
      n := n + 8;
    }

    /** Uint8. */
    method Uint8() returns (r: ReadOut)
      requires Valid()
      modifies this
      ensures r == Uint8Of(old(Unread()))
      ensures Valid() && buf == old(buf) && n == old(n) + r.size
      ensures Unread() == old(Unread())[r.size..]
    {
      if buf.Length - n < 1 {
        return Panic(INDEX_OUT_OF_RANGE, 0);
      }
      r := Value(buf[n], 1);
      n := n + 1;
    }

    /** Varint64. */
    method Varint64() returns (r: ReadOut)
      requires Valid()
      modifies this
      ensures r == Varint64Of(old(Unread()))
      ensures Valid() && buf == old(buf) && n == old(n) + r.size
      ensures Unread() == old(Unread())[r.size..]
    {
      var (value, k) := Varint(buf[n..]);
      UvarintBounds(buf[n..]);
      if k <= 0 {
        return Panic("byteBuffer.Varint64: underflow", 0);
      }
      n := n + k;
      r := Value(value, k);
    }

    /** Varint32. */
    method Varint32() returns (r: ReadOut)
      requires Valid()
      modifies this
      ensures r == Varint32Of(old(Unread()))
      ensures Valid() && buf == old(buf) && n == old(n) + r.size
      ensures Unread() == old(Unread())[r.size..]
    {
      r := Varint64();
      if r.Value? && !IsInt32(r.value) {
        r := Panic(VALUE_OUT_OF_RANGE, r.size);
      }
    }

    /** Uvarint32. */
    method Uvarint32() returns (r: ReadOut)
      requires Valid()
      modifies this
      ensures r == Uvarint32Of(old(Unread()))
      ensures Valid() && buf == old(buf) && n == old(n) + r.size
      ensures Unread() == old(Unread())[r.size..]
    {
      var (value, k) := Uvarint(buf[n..]);
      UvarintBounds(buf[n..]);
      if k <= 0 {
        return Panic("byteBuffer.Uvarint32: underflow", 0);
      }
      n := n + k;
      if value > MAX_UINT32 {
        return Panic(VALUE_OUT_OF_RANGE, k);
      }
      r := Value(value, k);
    }

    /** Uvarint64. */
    method Uvarint64() returns (r: ReadOut)
      requires Valid()
      modifies this
      ensures r == Uvarint64Of(old(Unread()))
      ensures Valid() && buf == old(buf) && n == old(n) + r.size
      ensures Unread() == old(Unread())[r.size..]
    {
      var (value, k) := Uvarint(buf[n..]);
      UvarintBounds(buf[n..]);
      if k <= 0 {
        return Panic("byteBuffer.Uvarint64: underflow", 0);
      }
      n := n + k;
      r := Value(value, k);
    }

    /** RawBytes(m): the next m bytes. */
    method RawBytes(m: int) returns (r: Result<seq<uint8>>)
      requires Valid()
      modifies this
      ensures r == RawBytesOf(old(Unread()), m)
      ensures Valid() && buf == old(buf) && n == old(n) + (if r.Ok? then m else 0)
      ensures Unread() == old(Unread())[if r.Ok? then m else 0..]
    {
      if m < 0 || m > buf.Length - n {
        return Err(SLICE_OUT_OF_RANGE);
      }
      assert buf[n..n + m] == buf[n..][..m];
      r := Ok(buf[n..n + m]);
      n := n + m;
    }
  }

  /** The bytes of one of each writer's values, in order. */
  function Fields(b: uint8, h: nat, bits: nat, i: int, u: nat, s: seq<uint8>): seq<uint8>
    requires h < 0x1_0000 && IsUint64(bits) && IsInt64(i) && IsUint64(u)
  {
    Pow256Values();
    [b] + (Encode(h, 2) + (Encode(bits, 8) + (VarintBytes(i) + (UvarintBytes(u) + s))))
  }

  /** Writes one value with each writer into a new buffer. */
  method PutFields(b: uint8, h: nat, bits: nat, i: int, u: nat, s: seq<uint8>) returns (data: seq<uint8>)
    requires h < 0x1_0000 && IsUint64(bits) && IsInt64(i) && IsUint64(u)
    ensures data == Fields(b, h, bits, i, u, s)
  {
    var w := new ByteBuffer();
    w.PutByte(b);
    ghost var p1 := w.Bytes();
    w.PutUint16(h);
    ghost var p2 := w.Bytes();
    w.PutFloat64(bits);
    ghost var p3 := w.Bytes();
    w.PutVarint(i);
    ghost var p4 := w.Bytes();
    w.PutUvarint(u);
    ghost var p5 := w.Bytes();
    w.PutBytes(s);
    data := w.Bytes();
    ghost var t5 := UvarintBytes(u) + s;
    ghost var t4 := VarintBytes(i) + t5;
    ghost var t3 := Encode(bits, 8) + t4;
    Assoc(p4, UvarintBytes(u), s);
    Assoc(p3, VarintBytes(i), t5);
    Assoc(p2, Encode(bits, 8), t4);
    Assoc(p1, Encode(h, 2), t3);
    assert p1 == [b];
    assert data == [b] + (Encode(h, 2) + t3);
  }

  /** Every kind of value written to a buffer and read back from a buffer
      over the written bytes comes back unchanged, in order. */
  method PutThenRead(b: uint8, h: nat, bits: nat, i: int, u: nat, s: seq<uint8>)
    returns (rb: ReadOut, rh: ReadOut, rf: ReadOut, ri: ReadOut, ru: ReadOut, rs: Result<seq<uint8>>)
    requires h < 0x1_0000 && IsUint64(bits) && IsInt64(i) && IsUint64(u)
    ensures rb.Value? && rb.value == b
    ensures rh.Value? && rh.value == h
    ensures rf.Value? && rf.value == bits
    ensures ri.Value? && ri.value == i
    ensures ru.Value? && ru.value == u
    ensures rs == Ok(s)
  {
    var data := PutFields(b, h, bits, i, u, s);
    Pow256Values();
    var t5 := UvarintBytes(u) + s;
    var t4 := VarintBytes(i) + t5;
    var t3 := Encode(bits, 8) + t4;
    var t2 := Encode(h, 2) + t3;
    var r := new ByteBuffer.FromBytes(data);
    rb := r.Uint8();
    assert r.Unread() == t2;
    Uint16ReadsPut(h, t3);
    rh := r.Uint16();
    Float64ReadsPut(bits, t4);
    rf := r.Float64();
    Varint64ReadsPut(i, t5);
    ri := r.Varint64();
    Uvarint64ReadsPut(u, s);
    ru := r.Uvarint64();
    assert r.Unread() == s;
    rs := r.RawBytes(|s|);
    assert s[..|s|] == s;
  }

  lemma Assoc(x: seq<uint8>, y: seq<uint8>, z: seq<uint8>)
    ensures (x + y) + z == x + (y + z)
  {
  }

  // ---------------------------------------------------------------------
  // resizeBuf

  /** A Go []byte: a backing array (empty for a nil slice) and a length no
      larger than its capacity, the array's length. */
  class ByteSlice {
    var arr: array<uint8>
    var len: nat

    ghost predicate Valid()
      reads this
    {
      len <= arr.Length
    }

    function Contents(): seq<uint8>
      reads this, arr
      requires Valid()
    {
      arr[..len]
    }

    constructor ()
      ensures Valid() && len == 0 && fresh(arr)
    {
      arr := new uint8[0];
      len := 0;
    }
  }

  /** resizeBuf: the slice gets length exactly size; a new zeroed array when
      the capacity is too small, otherwise the same array resliced. */
  method ResizeBuf(s: ByteSlice, size: nat)
    requires s.Valid()
    modifies s
    ensures s.Valid() && s.len == size
    ensures old(s.arr.Length) < size ==> fresh(s.arr) && s.arr.Length == size && s.Contents() == seq(size, _ => 0)
    ensures old(s.arr.Length) >= size ==> s.arr == old(s.arr) && s.Contents() == old(s.arr[..size])
  {
    if s.arr.Length < size {
      s.arr := new uint8[size](_ => 0);
    }
    s.len := size;
  }
}
