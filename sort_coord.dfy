/** The sort keys of the BAM sorter (bio-bam-sort/sorter/sort.go): a record's
    reference id, position and strand packed into one uint64 whose unsigned
    order is the SAM "coordinate" order, and the order of sort entries
    (key, then the serialized record's bytes). A recCoord is the uint64's
    value, and its bit operations are written out on integers. */
module SortCoords {
  import opened Wrappers
  import opened Ints
  import opened LittleEndian
  import Circular

  /** recCoord: bits 33..63 the reference id, bits 1..32 the position,
      bit 0 the reverse flag. */
  type RecCoord = x: int | 0 <= x < TWO_64

  /** The key of every unmapped read; (refid, pos) = (-1, -1). */
  const UNMAPPED_COORD: RecCoord := 0x7fff_ffff_ffff_fffe
  /** A key larger than any valid key. */
  const INVALID_COORD: RecCoord := 0xffff_ffff_ffff_fffe
  const INFINITY_COORD: RecCoord := INVALID_COORD

  const TWO_33: int := 0x2_0000_0000

  // ---------------------------------------------------------------------
  // Bits

  /** Bitwise or of two nonnegative integers. */
  function Or(a: nat, b: nat): (r: nat)
    decreases a + b
  {
    if a == 0 then b
    else if b == 0 then a
    else 2 * Or(a / 2, b / 2) + (if a % 2 == 1 || b % 2 == 1 then 1 else 0)
  }

  /** Or of two values below 2^n is below 2^n. */
  lemma {:induction false} OrBelow(a: nat, b: nat, n: nat)
    requires a < Circular.Pow2(n) && b < Circular.Pow2(n)
    ensures Or(a, b) < Circular.Pow2(n)
    decreases a + b
  {
    if a != 0 && b != 0 {
      OrBelow(a / 2, b / 2, n - 1);
    }
  }

  /** When a's low k bits are zero and b has only k bits, or is addition. */
  lemma {:induction false} OrDisjoint(a: nat, b: nat, m: nat, k: nat)
    requires a == m * Circular.Pow2(k) && b < Circular.Pow2(k)
    ensures Or(a, b) == a + b
    decreases k
  {
    if a != 0 && b != 0 {
      var p := Circular.Pow2(k - 1);
      assert a == 2 * (m * p);
      OrDisjoint(a / 2, b / 2, m, k - 1);
    }
  }

  lemma Pow2Values()
    ensures Circular.Pow2(33) == TWO_33 && Circular.Pow2(64) == TWO_64
  {
    assert Circular.Pow2(8) == 256;
    Circular.Pow2Add(8, 8);
    assert Circular.Pow2(16) == 0x1_0000;
    Circular.Pow2Add(16, 16);
    assert Circular.Pow2(32) == 0x1_0000_0000;
    Circular.Pow2Add(32, 1);
    Circular.Pow2Add(32, 32);
  }

  /** Go's `recCoord(x)` conversion of an int: its value modulo 2^64. */
  function U64(x: int): RecCoord { x % TWO_64 }

  /** `c << 33` and `c << 1` on a uint64. */
  function Shl33(c: RecCoord): RecCoord { (c * TWO_33) % TWO_64 }
  function Shl1(c: RecCoord): RecCoord { (c * 2) % TWO_64 }

  /** `a | b` on two uint64 values. */
  function Or64(a: RecCoord, b: RecCoord): RecCoord {
    Pow2Values();
    OrBelow(a, b, 64);
    Or(a, b)
  }

  /** `c | 1`. */
  function SetLow(c: RecCoord): (r: RecCoord)
    ensures r % 2 == 1 && r - c <= 1 && r >= c
  {
    if c % 2 == 1 then c else c + 1
  }

  // ---------------------------------------------------------------------
  // Keys

  /** makeCoord. */
  function MakeCoord(refid: int, pos: int, reverse: bool): RecCoord {
    var key := if refid < 0 then UNMAPPED_COORD else Or64(Shl33(U64(refid)), Shl1(U64(pos)));
    if reverse then SetLow(key) else key
  }

  /** parseCoord's three results. */
  datatype Parsed = Parsed(refid: int, pos: int, reverse: bool)

  /** `coord & unmappedCoord == unmappedCoord`: bits 1..62 are all set. */
  predicate UnmappedBits(coord: RecCoord) {
    (coord / 2) % 0x4000_0000_0000_0000 == 0x3fff_ffff_ffff_ffff
  }

  /** parseCoord: the unmapped pattern gives (-1, -1); otherwise the two
      fields, each read as an int32. */
  function ParseCoord(coord: RecCoord): Parsed {
    var reverse := coord % 2 == 1;
    if UnmappedBits(coord) then Parsed(-1, -1, reverse)
    else Parsed(WrapInt32(coord / TWO_33), WrapInt32((coord % TWO_33) / 2), reverse)
  }

  /** A mapped position as BAM stores it: a nonnegative int32 reference id
      and position. */
  predicate Mapped(refid: int, pos: int) {
    0 <= refid <= MAX_INT32 && 0 <= pos <= MAX_INT32
  }

  /** The key of a mapped position, as a sum of its fields. */
  lemma MappedKey(refid: int, pos: int, reverse: bool)
    requires Mapped(refid, pos)
    ensures MakeCoord(refid, pos, reverse) == refid * TWO_33 + 2 * pos + (if reverse then 1 else 0)
  {
    Pow2Values();
    MappedShifts(refid, pos);
    OrDisjoint(refid * TWO_33, 2 * pos, refid, 33);
    var key := refid * TWO_33 + 2 * pos;
    var c := Or64(Shl33(U64(refid)), Shl1(U64(pos)));
    assert c == key;
    Even(c, refid * 0x1_0000_0000 + pos);
    assert SetLow(c) == key + 1;
    assert MakeCoord(refid, pos, reverse) == if reverse then SetLow(c) else c;
  }

  lemma Even(c: int, x: int)
    requires c == 2 * x
    ensures c % 2 == 0
  {
  }

  /** The two shifts of a mapped position do not overflow. */
  lemma MappedShifts(refid: int, pos: int)
    requires Mapped(refid, pos)
    ensures Shl33(U64(refid)) == refid * TWO_33 && Shl1(U64(pos)) == 2 * pos
  {
    assert refid * TWO_33 < TWO_64;
  }

  /** parseCoord inverts makeCoord on mapped positions. */
  lemma ParseMakeCoord(refid: int, pos: int, reverse: bool)
    requires Mapped(refid, pos)
    ensures ParseCoord(MakeCoord(refid, pos, reverse)) == Parsed(refid, pos, reverse)
  {
    MappedKey(refid, pos, reverse);
    var low := 2 * pos + (if reverse then 1 else 0);
    var c := refid * TWO_33 + low;
    DivModUnique(c, TWO_33, refid, low);
    DivModUnique(low, 2, pos, if reverse then 1 else 0);
    MappedNotUnmapped(refid, pos, reverse);
  }

  /** The bits 1..62 of a mapped key are not all set: its position's top bit is clear. */
  lemma NotUnmappedBits(h: int, refid: int, pos: int)
    requires Mapped(refid, pos) && h == refid * 0x1_0000_0000 + pos
    ensures h % 0x4000_0000_0000_0000 != 0x3fff_ffff_ffff_ffff
  {
    DivModUnique(h, 0x1_0000_0000, refid, pos);
    if h % 0x4000_0000_0000_0000 == 0x3fff_ffff_ffff_ffff {
      var q := h / 0x4000_0000_0000_0000;
      assert h == (q * 0x4000_0000 + 0x3fff_ffff) * 0x1_0000_0000 + 0xffff_ffff;
      DivModUnique(h, 0x1_0000_0000, q * 0x4000_0000 + 0x3fff_ffff, 0xffff_ffff);
      assert false;
    }
  }

  /** A forward key has its low bit clear. */
  lemma ForwardKeyEven(refid: int, pos: int)
    ensures MakeCoord(refid, pos, false) % 2 == 0
  {
    if refid >= 0 {
      var a, b := U64(refid), U64(pos);
      var x, y := a * TWO_33, b * 2;
      DivModUnique(x, TWO_64, x / TWO_64, Shl33(a));
      assert Shl33(a) == 2 * (a * 0x1_0000_0000 - (x / TWO_64) * TWO_63);
      DivModUnique(y, TWO_64, y / TWO_64, Shl1(b));
      assert Shl1(b) == 2 * (b - (y / TWO_64) * TWO_63);
    }
  }

  /** A mapped key never carries the unmapped pattern. */
  lemma MappedNotUnmapped(refid: int, pos: int, reverse: bool)
    requires Mapped(refid, pos)
    ensures !UnmappedBits(MakeCoord(refid, pos, reverse))
  {
    MappedKey(refid, pos, reverse);
    var h := refid * 0x1_0000_0000 + pos;
    DivModUnique(MakeCoord(refid, pos, reverse), 2, h, if reverse then 1 else 0);
    NotUnmappedBits(h, refid, pos);
  }

  /** Every unmapped read gets the unmapped key, which parses as (-1, -1). */
  lemma UnmappedParses(refid: int, pos: int, reverse: bool)
    requires refid < 0
    ensures ParseCoord(MakeCoord(refid, pos, reverse)) == Parsed(-1, -1, reverse)
  {
    if reverse {
      DivModUnique(UNMAPPED_COORD + 1, 2, 0x3fff_ffff_ffff_ffff, 1);
    } else {
      DivModUnique(UNMAPPED_COORD, 2, 0x3fff_ffff_ffff_ffff, 0);
    }
  }

  /** Lexicographic order on (refid, pos, reverse), forward before reverse. */
  predicate PosLess(r1: int, p1: int, v1: bool, r2: int, p2: int, v2: bool) {
    r1 < r2 || (r1 == r2 && (p1 < p2 || (p1 == p2 && !v1 && v2)))
  }

  /** The keys' unsigned order is the order by reference id, then position,
      then strand. */
  lemma KeyOrder(r1: int, p1: int, v1: bool, r2: int, p2: int, v2: bool)
    requires Mapped(r1, p1) && Mapped(r2, p2)
    ensures MakeCoord(r1, p1, v1) < MakeCoord(r2, p2, v2) <==> PosLess(r1, p1, v1, r2, p2, v2)
    ensures MakeCoord(r1, p1, v1) == MakeCoord(r2, p2, v2) <==> (r1, p1, v1) == (r2, p2, v2)
  {
    MappedKey(r1, p1, v1);
    MappedKey(r2, p2, v2);
    var l1, l2 := 2 * p1 + (if v1 then 1 else 0), 2 * p2 + (if v2 then 1 else 0);
    if r1 < r2 {
      assert r1 * TWO_33 + TWO_33 <= r2 * TWO_33;
    } else if r2 < r1 {
      assert r2 * TWO_33 + TWO_33 <= r1 * TWO_33;
    }
  }

  /** Unmapped reads sort after the mapped reads of every reference below
      2^30; a reference id from 2^30 up reaches the sign bit and sorts after
      them. */
  lemma UnmappedLast(refid: int, pos: int, v1: bool, v2: bool)
    requires Mapped(refid, pos)
    ensures MakeCoord(refid, pos, v1) < MakeCoord(-1, -1, v2) <==> refid < 0x4000_0000
  {
    MappedKey(refid, pos, v1);
    if refid >= 0x4000_0000 {
      assert refid * TWO_33 >= 0x4000_0000 * TWO_33;
    } else {
      assert refid * TWO_33 <= 0x3fff_ffff * TWO_33;
    }
  }

  // ---------------------------------------------------------------------
  // Records

  /** The fields of a sam.Record the key uses: its reference's id (none for
      a nil reference), position and flags. */
  datatype Record = Record(ref: Option<int>, pos: int, flags: int)

  /** sam.Reverse. */
  const REVERSE_FLAG: int := 0x10

  predicate IsReverse(flags: int) { (flags / REVERSE_FLAG) % 2 == 1 }

  /** coordFromRecord. */
  function CoordFromRecord(rec: Record): RecCoord {
    var key := if rec.ref.None? then UNMAPPED_COORD else Or64(Shl33(U64(rec.ref.value)), Shl1(U64(rec.pos)));
    if IsReverse(rec.flags) then SetLow(key) else key
  }

  /** coordFromRecord is makeCoord of the record's reference id (-1 for
      none), position and reverse flag, whenever the reference's id is not
      negative. */
  lemma CoordFromRecordIsMakeCoord(rec: Record)
    requires rec.ref.Some? ==> rec.ref.value >= 0
    ensures CoordFromRecord(rec) == MakeCoord(if rec.ref.Some? then rec.ref.value else -1, rec.pos, IsReverse(rec.flags))
  {
  }

  // ---------------------------------------------------------------------
  // Sort entries

  /** bytes.Compare: lexicographic order, a proper prefix first. */
  function BytesCompare(a: seq<uint8>, b: seq<uint8>): (r: int)
    ensures r == -1 || r == 0 || r == 1
    ensures r == 0 <==> a == b
  {
    if a == [] && b == [] then 0
    else if a == [] then -1
    else if b == [] then 1
    else if a[0] < b[0] then -1
    else if a[0] > b[0] then 1
    else
      var r := BytesCompare(a[1..], b[1..]);
      assert a == [a[0]] + a[1..] && b == [b[0]] + b[1..];
      r
  }

  lemma {:induction false} BytesCompareAntisymmetric(a: seq<uint8>, b: seq<uint8>)
    ensures BytesCompare(b, a) == -BytesCompare(a, b)
  {
    if a != [] && b != [] && a[0] == b[0] {
      BytesCompareAntisymmetric(a[1..], b[1..]);
    }
  }

  lemma {:induction false} BytesCompareTransitive(a: seq<uint8>, b: seq<uint8>, c: seq<uint8>)
    requires BytesCompare(a, b) < 0 && BytesCompare(b, c) < 0
    ensures BytesCompare(a, c) < 0
  {
    if a != [] && b != [] && c != [] && a[0] == b[0] && b[0] == c[0] {
      BytesCompareTransitive(a[1..], b[1..], c[1..]);
    }
  }

  /** A record to sort: its key and its serialized bytes. */
  datatype SortEntry = SortEntry(coord: RecCoord, body: seq<uint8>)

  /** sortEntry.compare: by key, then by the bytes. */
  function EntryCompare(k: SortEntry, other: SortEntry): (r: int)
    ensures r == -1 || r == 0 || r == 1
    ensures r == 0 <==> k == other
    ensures k.coord < other.coord ==> r == -1
    ensures k.coord > other.coord ==> r == 1
  {
    if k.coord < other.coord then -1
    else if k.coord > other.coord then 1
    else BytesCompare(k.body, other.body)
  }

  /** The entry order is antisymmetric and transitive, so sorting by it is
      well defined. */
  lemma EntryCompareAntisymmetric(a: SortEntry, b: SortEntry)
    ensures EntryCompare(b, a) == -EntryCompare(a, b)
  {
    BytesCompareAntisymmetric(a.body, b.body);
  }

  lemma EntryCompareTransitive(a: SortEntry, b: SortEntry, c: SortEntry)
    requires EntryCompare(a, b) < 0 && EntryCompare(b, c) < 0
    ensures EntryCompare(a, c) < 0
  {
    if a.coord == b.coord && b.coord == c.coord {
      BytesCompareTransitive(a.body, b.body, c.body);
    }
  }
}
