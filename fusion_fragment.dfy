/** A read pair of the fusion caller (fusion/fragment.go): its name, R1 and
    R2 sequences, the UMI carried in the name, sub-sequences addressed by
    fragment positions, and the Hamming distance between fragments. Go
    strings are byte sequences here. */
module FusionFragment {
  import opened Wrappers
  import opened Ints
  import opened FusionPos
  import opened BiosimdGeneric

  /** Fragment; the kmer cache is not part of the model. */
  datatype Fragment = Fragment(name: seq<byte>, r1Seq: seq<byte>, r2Seq: seq<byte>)

  /** ' ', ':' and '+'. */
  const SPACE: byte := 32
  const COLON: byte := 58
  const PLUS: byte := 43
  const INFINITE_HAMMING_DISTANCE: int := 1000000

  /** strings.IndexByte: the first index of c, or -1. */
  function IndexByte(s: seq<byte>, c: byte): (r: int)
    ensures -1 <= r < |s|
    ensures r == -1 <==> c !in s
    ensures r >= 0 ==> s[r] == c && c !in s[..r]
  {
    if s == [] then -1
    else if s[0] == c then 0
    else
      var k := IndexByte(s[1..], c);
      if k == -1 then -1
      else (assert s[..k + 1] == [s[0]] + s[1..][..k]; k + 1)
  }

  /** The name up to its first space (the whole name when there is none). */
  function BeforeSpace(name: seq<byte>): (r: seq<byte>)
    ensures SPACE !in r
    ensures IsPrefix(r, name)
  {
    var sp := IndexByte(name, SPACE);
    if sp >= 0 then name[..sp] else name
  }

  predicate IsPrefix(a: seq<byte>, b: seq<byte>) { |a| <= |b| && b[..|a|] == a }

  /** The last element of strings.Split(s, sep) for a one-byte separator:
      the text after the last sep, or s itself when sep does not occur. */
  function LastField(s: seq<byte>, sep: byte): (r: seq<byte>)
    ensures sep !in r
    ensures |r| <= |s|
    ensures |r| == |s| ==> r == s
    ensures |r| < |s| ==> s[|s| - |r| - 1..] == [sep] + r
  {
    if s == [] then []
    else if s[|s| - 1] == sep then []
    else LastField(s[..|s| - 1], sep) + [s[|s| - 1]]
  }

  predicate IsUmiByte(c: byte) {
    c == ASCII_A || c == ASCII_C || c == ASCII_G || c == ASCII_T || c == ASCII_N || c == PLUS
  }

  /** Every byte of s is one of "ACGTN+". */
  predicate AllUmiBytes(s: seq<byte>)
  {
    forall k :: 0 <= k < |s| ==> IsUmiByte(s[k])
  }

  /** Fragment.UMI: the last ':'-separated field of the name before its
      first space; None where the source panics (a byte outside "ACGTN+"). */
  function Umi(f: Fragment): (r: Option<seq<byte>>)
    ensures r.Some? <==> AllUmiBytes(LastField(BeforeSpace(f.name), COLON))
    ensures r.Some? ==> r.value == LastField(BeforeSpace(f.name), COLON)
  {
    var umi := LastField(BeforeSpace(f.name), COLON);
    if AllUmiBytes(umi) then Some(umi) else None
  }

  /** A name whose text before the first space ends in ":" followed by an
      ACGTN+ string carries that string as its UMI. */
  lemma UmiOfName(prefix: seq<byte>, umi: seq<byte>, rest: seq<byte>)
    requires SPACE !in prefix && SPACE !in umi
    requires forall k :: 0 <= k < |umi| ==> IsUmiByte(umi[k])
    requires rest == [] || rest[0] == SPACE
    ensures Umi(Fragment(prefix + [COLON] + umi + rest, [], [])) == Some(umi)
  {
    var name := prefix + [COLON] + umi + rest;
    var head := prefix + [COLON] + umi;
    assert name == head + rest;
    BeforeSpaceOf(head, rest);
    assert COLON !in umi by {
      forall k | 0 <= k < |umi| ensures umi[k] != COLON {
        UmiByteNotColon(umi[k]);
      }
    }
    LastFieldOf(prefix, COLON, umi);
    assert LastField(BeforeSpace(name), COLON) == umi;
  }

  lemma UmiByteNotColon(c: byte)
    requires IsUmiByte(c)
    ensures c != COLON
  {
  }

  /** The text before the first space of a + rest, when a has no space and
      rest is empty or starts with one. */
  lemma BeforeSpaceOf(a: seq<byte>, rest: seq<byte>)
    requires SPACE !in a
    requires rest == [] || rest[0] == SPACE
    ensures BeforeSpace(a + rest) == a
  {
    if rest == [] {
      assert a + rest == a;
    } else {
      IndexByteAfter(a, rest, SPACE);
      assert (a + rest)[..|a|] == a;
    }
  }

  /** The first c in a + rest is the head of rest when a holds no c. */
  lemma {:induction false} IndexByteAfter(a: seq<byte>, rest: seq<byte>, c: byte)
    requires c !in a && rest != [] && rest[0] == c
    ensures IndexByte(a + rest, c) == |a|
  {
    if a != [] {
      assert (a + rest)[1..] == a[1..] + rest;
      assert a[0] in a;
      assert forall x | x in a[1..] :: x in a;
      IndexByteAfter(a[1..], rest, c);
    }
  }

  /** One more byte at the end: the field ends there at a separator, and
      otherwise grows by that byte. */
  lemma LastFieldSnoc(t: seq<byte>, sep: byte, c: byte)
    ensures LastField(t + [c], sep) == if c == sep then [] else LastField(t, sep) + [c]
  {
    assert (t + [c])[..|t|] == t;
  }

  /** The last field after a separator followed by separator-free text. */
  lemma {:induction false} LastFieldOf(prefix: seq<byte>, sep: byte, field: seq<byte>)
    requires sep !in field
    ensures LastField(prefix + [sep] + field, sep) == field
    decreases |field|
  {
    if field == [] {
      LastFieldSnoc(prefix, sep, sep);
    } else {
      var init, last := field[..|field| - 1], field[|field| - 1];
      assert field == init + [last];
      assert prefix + [sep] + field == (prefix + [sep] + init) + [last];
      assert last in field;
      assert sep !in init by {
        assert forall x | x in init :: x in field;
      }
      LastFieldOf(prefix, sep, init);
      LastFieldSnoc(prefix + [sep] + init, sep, last);
    }
  }

  /** Fragment.SubSeq: the bases of the range [start, end), which may run
      from R1 into R2 (a suffix of R1 followed by a prefix of R2). None where
      a Go slice expression would panic. */
  function SubSeq(f: Fragment, p: PosRange): (r: Option<seq<byte>>)
    ensures ReadTypeOf(p.end) == R1 && r.Some? ==> |r.value| == p.end - p.start
    ensures ReadTypeOf(p.start) == R2 && r.Some? ==> |r.value| == p.end - p.start
  {
    if ReadTypeOf(p.end) == R1 then
      if 0 <= p.start <= p.end <= |f.r1Seq| then Some(f.r1Seq[p.start..p.end]) else None
    else if ReadTypeOf(p.start) == R2 then
      var s, e := p.start - R2_POS_OFFSET, p.end - R2_POS_OFFSET;
      if 0 <= s <= e <= |f.r2Seq| then Some(f.r2Seq[s..e]) else None
    else
      var e := p.end - R2_POS_OFFSET;
      if 0 <= p.start <= |f.r1Seq| && 0 <= e <= |f.r2Seq| then
        Some(f.r1Seq[p.start..] + f.r2Seq[..e])
      else None
  }

  /** A cross-read sub-sequence is the R1 tail followed by the R2 head, each
      taken as a single-read range. */
  lemma SubSeqCrossSplits(f: Fragment, p: PosRange)
    requires ReadTypeOf(p.start) == R1 && ReadTypeOf(p.end) == R2
    requires |f.r1Seq| < R2_POS_OFFSET
    requires SubSeq(f, p).Some?
    ensures SubSeq(f, PosRange(p.start, |f.r1Seq|)).Some?
    ensures SubSeq(f, PosRange(R2_POS_OFFSET, p.end)).Some?
    ensures SubSeq(f, p).value
            == SubSeq(f, PosRange(p.start, |f.r1Seq|)).value
               + SubSeq(f, PosRange(R2_POS_OFFSET, p.end)).value
  {
  }

  /** The number of positions at which two equal-length sequences differ. */
  function Mismatches(a: seq<byte>, b: seq<byte>): (r: nat)
    requires |a| == |b|
    ensures r <= |a|
  {
    if a == [] then 0
    else Mismatches(a[..|a| - 1], b[..|b| - 1]) + (if a[|a| - 1] != b[|b| - 1] then 1 else 0)
  }

  lemma {:induction false} MismatchesZeroIffEqual(a: seq<byte>, b: seq<byte>)
    requires |a| == |b|
    ensures Mismatches(a, b) == 0 <==> a == b
  {
    if a != [] {
      MismatchesZeroIffEqual(a[..|a| - 1], b[..|b| - 1]);
      if a[..|a| - 1] == b[..|b| - 1] && a[|a| - 1] == b[|b| - 1] {
        assert a == a[..|a| - 1] + [a[|a| - 1]];
        assert b == b[..|b| - 1] + [b[|b| - 1]];
      }
      if a == b {
        assert a[..|a| - 1] == b[..|b| - 1];
      }
    }
  }

  lemma {:induction false} MismatchesSymmetric(a: seq<byte>, b: seq<byte>)
    requires |a| == |b|
    ensures Mismatches(a, b) == Mismatches(b, a)
  {
    if a != [] {
      MismatchesSymmetric(a[..|a| - 1], b[..|b| - 1]);
    }
  }

  /** Fragment.HammingDistance. */
  function HammingDistance(f: Fragment, other: Fragment): (r: nat)
    ensures |f.r1Seq| != |other.r1Seq| || |f.r2Seq| != |other.r2Seq| ==>
              r == INFINITE_HAMMING_DISTANCE
    ensures |f.r1Seq| == |other.r1Seq| && |f.r2Seq| == |other.r2Seq| ==>
              r == Mismatches(f.r1Seq, other.r1Seq) + Mismatches(f.r2Seq, other.r2Seq)
  {
    if |f.r1Seq| != |other.r1Seq| || |f.r2Seq| != |other.r2Seq| then INFINITE_HAMMING_DISTANCE
    else Mismatches(f.r1Seq, other.r1Seq) + Mismatches(f.r2Seq, other.r2Seq)
  }

  /** The distance is symmetric, and zero exactly between fragments with the
      same R1 and R2. */
  lemma HammingDistanceMetric(f: Fragment, g: Fragment)
    ensures HammingDistance(f, g) == HammingDistance(g, f)
    ensures HammingDistance(f, g) == 0 <==> f.r1Seq == g.r1Seq && f.r2Seq == g.r2Seq
  {
    if |f.r1Seq| == |g.r1Seq| && |f.r2Seq| == |g.r2Seq| {
      MismatchesSymmetric(f.r1Seq, g.r1Seq);
      MismatchesSymmetric(f.r2Seq, g.r2Seq);
      MismatchesZeroIffEqual(f.r1Seq, g.r1Seq);
      MismatchesZeroIffEqual(f.r2Seq, g.r2Seq);
    }
  }
}
