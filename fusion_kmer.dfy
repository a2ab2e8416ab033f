/** K-mer encoding of read sequences (fusion/kmer.go): two bits per base
    (A=0, C=1, G=2, T=3), the reverse-complement k-mer built alongside, and
    the kmerizer that slides a window over a sequence, skipping windows that
    hold a byte other than ACGT. Kmer values are unbounded integers; the
    uint64 arithmetic of the source is written out with % TWO_64. */
module FusionKmer {
  import opened Wrappers
  import opened Ints
  import opened BiosimdGeneric
  import opened RevcompGeneric

  const INVALID_KMER_BITS: int := 255
  /** invalidKmer = 0xffffffffffffffff. */
  const INVALID_KMER: int := TWO_64 - 1
  const MAX_KMER_LENGTH: int := 32

  predicate IsBase(ch: byte) { IsCapitalACGT(ch) || IsLowerACGT(ch) }

  /** asciiToKmerMap. */
  function KmerBits(ch: byte): (r: int)
    ensures IsBase(ch) ==> 0 <= r < 4
    ensures !IsBase(ch) ==> r == INVALID_KMER_BITS
  {
    if ch == ASCII_A || ch == ASCII_LOWER_A then 0
    else if ch == ASCII_C || ch == ASCII_LOWER_C then 1
    else if ch == ASCII_G || ch == ASCII_LOWER_G then 2
    else if ch == ASCII_T || ch == ASCII_LOWER_T then 3
    else INVALID_KMER_BITS
  }

  /** asciiToReverseComplementKmerMap: the code of the complementary base. */
  function RcBits(ch: byte): (r: int)
    ensures IsBase(ch) ==> 0 <= r < 4 && r == 3 - KmerBits(ch)
    ensures !IsBase(ch) ==> r == INVALID_KMER_BITS
  {
    if ch == ASCII_A || ch == ASCII_LOWER_A then 3
    else if ch == ASCII_C || ch == ASCII_LOWER_C then 2
    else if ch == ASCII_G || ch == ASCII_LOWER_G then 1
    else if ch == ASCII_T || ch == ASCII_LOWER_T then 0
    else INVALID_KMER_BITS
  }

  /** The reverse-complement code of a base is the code of its complement
      under revComp8Table. */
  lemma {:induction false} RcBitsIsComplement(ch: byte)
    requires IsBase(ch)
    ensures IsBase(RevComp8(ch)) && KmerBits(RevComp8(ch)) == RcBits(ch)
    ensures RcBits(RevComp8(ch)) == KmerBits(ch)
  {
  }

  predicate AllBases(s: seq<byte>) { forall i :: 0 <= i < |s| ==> IsBase(s[i]) }

  function Pow4(n: nat): (r: nat)
    ensures r >= 1
  {
    if n == 0 then 1 else 4 * Pow4(n - 1)
  }

  lemma Pow4At32()
    ensures Pow4(32) == TWO_64
  {
    assert Pow4(8) == 0x1_0000;
    assert Pow4(16) == 0x1_0000_0000 by { Pow4Add(8, 8); }
    Pow4Add(16, 16);
  }

  lemma {:induction false} Pow4Add(a: nat, b: nat)
    ensures Pow4(a + b) == Pow4(a) * Pow4(b)
  {
    if b > 0 {
      Pow4Add(a, b - 1);
    }
  }

  lemma {:induction false} Pow4Mono(a: nat, b: nat)
    requires a <= b
    ensures Pow4(a) <= Pow4(b)
  {
    if a < b {
      Pow4Mono(a, b - 1);
    }
  }

  /** The 2-bit packing of a sequence of bases, first base most significant. */
  function KmerValue(s: seq<byte>): (r: nat)
    requires AllBases(s)
    ensures r < Pow4(|s|)
  {
    if s == [] then 0
    else KmerValue(s[..|s| - 1]) * 4 + KmerBits(s[|s| - 1])
  }

  /** The packing of the reverse complement, built from the front: the first
      base's complement is least significant. */
  function RcValue(s: seq<byte>): (r: nat)
    requires AllBases(s)
    ensures r < Pow4(|s|)
  {
    if s == [] then 0
    else RcBits(s[0]) + 4 * RcValue(s[1..])
  }

  lemma KmerValueBack(s: seq<byte>)
    requires AllBases(s) && s != []
    ensures AllBases(s[..|s| - 1])
    ensures KmerValue(s) == KmerValue(s[..|s| - 1]) * 4 + KmerBits(s[|s| - 1])
  {
  }

  /** The packing of the first base and the rest. */
  lemma {:induction false} KmerValueFront(s: seq<byte>)
    requires AllBases(s) && s != []
    ensures KmerValue(s) == KmerBits(s[0]) * Pow4(|s| - 1) + KmerValue(s[1..])
  {
    if |s| > 1 {
      var n := |s|;
      var init := s[..n - 1];
      KmerValueFront(init);
      var tail := s[1..];
      assert |tail| == n - 1 && tail[..|tail| - 1] == init[1..];
      assert tail[|tail| - 1] == s[n - 1];
      var a, p, rest, b := KmerBits(s[0]), Pow4(n - 2), KmerValue(init[1..]), KmerBits(s[n - 1]);
      assert KmerValue(init) == a * p + rest;
      KmerValueBack(s);
      KmerValueBack(tail);
      assert Pow4(n - 1) == 4 * p;
      ShiftArith(a, p, rest, b);
    } else {
      assert s[..0] == [] && s[1..] == [];
    }
  }

  lemma {:induction false} RcValueSnoc(s: seq<byte>, c: byte)
    requires AllBases(s) && IsBase(c)
    ensures AllBases(s + [c])
    ensures RcValue(s + [c]) == RcValue(s) + RcBits(c) * Pow4(|s|)
  {
    if s != [] {
      assert (s + [c])[1..] == s[1..] + [c];
      RcValueSnoc(s[1..], c);
    } else {
      assert (s + [c])[1..] == [];
    }
  }

  /** The k-mer of the window that starts one base later. */
  lemma {:induction false} KmerShift(w: seq<byte>, c: byte)
    requires AllBases(w) && w != [] && IsBase(c)
    ensures AllBases(w[1..] + [c])
    ensures KmerValue(w[1..] + [c]) == (KmerValue(w) * 4 + KmerBits(c)) % Pow4(|w|)
  {
    var n := |w|;
    var next := w[1..] + [c];
    AllBasesShift(w, c);
    KmerValueSnoc(w[1..], c);
    KmerValueFront(w);
    var a, p1, rest, b := KmerBits(w[0]), Pow4(n - 1), KmerValue(w[1..]), KmerBits(c);
    var m, r := Pow4(n), KmerValue(next);
    assert m == 4 * p1;
    assert r == rest * 4 + b;
    assert KmerValue(w) == a * p1 + rest;
    assert |next| == n;
    assert r < m;
    ShiftArith(a, p1, rest, b);
    assert KmerValue(w) * 4 + b == a * m + r;
    DivModUnique(KmerValue(w) * 4 + b, m, a, r);
    assert (KmerValue(w) * 4 + b) % m == r;
  }

  lemma {:induction false} AllBasesShift(w: seq<byte>, c: byte)
    requires AllBases(w) && w != [] && IsBase(c)
    ensures AllBases(w[1..]) && AllBases(w[1..] + [c])
  {
    var next := w[1..] + [c];
    forall i | 0 <= i < |next| ensures IsBase(next[i]) {
      if i < |next| - 1 {
        assert next[i] == w[i + 1];
      }
    }
  }

  lemma {:induction false} KmerValueSnoc(s: seq<byte>, c: byte)
    requires AllBases(s) && AllBases(s + [c])
    ensures KmerValue(s + [c]) == KmerValue(s) * 4 + KmerBits(c)
  {
    assert (s + [c])[..|s|] == s;
  }

  lemma ShiftArith(a: int, p1: int, rest: int, b: int)
    ensures (a * p1 + rest) * 4 + b == a * (4 * p1) + (rest * 4 + b)
  {
  }

  /** The reverse-complement k-mer of the window that starts one base later. */
  lemma {:induction false} RcShift(w: seq<byte>, c: byte)
    requires AllBases(w) && w != [] && IsBase(c)
    ensures AllBases(w[1..] + [c])
    ensures RcValue(w[1..] + [c]) == RcValue(w) / 4 + RcBits(c) * Pow4(|w| - 1)
  {
    RcValueSnoc(w[1..], c);
    DivModUnique(RcValue(w), 4, RcValue(w[1..]), RcBits(w[0]));
  }

  /** The k-mer of the reverse complement is the reverse-complement k-mer,
      and the other way round. */
  lemma {:induction false} KmerOfReverseComplement(s: seq<byte>)
    requires AllBases(s)
    ensures AllBases(ReverseComp8Of(s))
    ensures KmerValue(ReverseComp8Of(s)) == RcValue(s)
    ensures RcValue(ReverseComp8Of(s)) == KmerValue(s)
  {
    var r := ReverseComp8Of(s);
    ReverseComplementBases(s);
    if s != [] {
      var t := s[1..];
      KmerOfReverseComplement(t);
      var rt := ReverseComp8Of(t);
      var c := RevComp8(s[0]);
      ReverseComplementSnoc(s);
      RcBitsIsComplement(s[0]);
      KmerValueSnoc(rt, c);
      RcValueSnoc(rt, c);
      KmerValueFront(s);
      assert KmerValue(r) == RcValue(t) * 4 + RcBits(s[0]);
      assert RcValue(r) == KmerValue(t) + KmerBits(s[0]) * Pow4(|s| - 1);
    }
  }

  lemma ReverseComplementBases(s: seq<byte>)
    requires AllBases(s)
    ensures AllBases(ReverseComp8Of(s))
  {
    var r := ReverseComp8Of(s);
    forall i | 0 <= i < |r| ensures IsBase(r[i]) {
      RcBitsIsComplement(s[|s| - 1 - i]);
    }
  }

  /** Reversing moves the first base's complement to the end. */
  lemma ReverseComplementSnoc(s: seq<byte>)
    requires s != []
    ensures ReverseComp8Of(s) == ReverseComp8Of(s[1..]) + [RevComp8(s[0])]
  {
  }

  /** asciiToKmer as written: the packed value (shifted within uint64), or
      invalidKmer as soon as a byte is not a base. */
  method AsciiToKmer(s: seq<byte>) returns (k: int)
    ensures k == if AllBases(s) then KmerValue(s) % TWO_64 else INVALID_KMER
  {
    k := 0;
    var i := 0;
    while i < |s|
      invariant 0 <= i <= |s|
      invariant AllBases(s[..i]) && k == KmerValue(s[..i]) % TWO_64
    {
      var b := KmerBits(s[i]);
      if b == INVALID_KMER_BITS {
        return INVALID_KMER;
      }
      assert s[..i + 1][..i] == s[..i];
      ShiftInWord(KmerValue(s[..i]), b);
      k := (k * 4) % TWO_64 + b;
      i := i + 1;
    }
    assert s[..i] == s;
  }

  /** (k << 2) | b on a uint64 holding v mod 2^64. */
  lemma {:induction false} ShiftInWord(v: nat, b: int)
    requires 0 <= b < 4
    ensures (v % TWO_64 * 4) % TWO_64 + b == (v * 4 + b) % TWO_64
  {
    var r := v % TWO_64;
    var q := v / TWO_64;
    var r2 := (r * 4) % TWO_64;
    var q2 := (r * 4) / TWO_64;
    assert r * 4 == q2 * TWO_64 + r2;
    assert r2 == 4 * (r - q2 * (TWO_64 / 4));
    assert r2 <= TWO_64 - 4;
    assert v * 4 + b == (4 * q + q2) * TWO_64 + (r2 + b);
    DivModUnique(v * 4 + b, TWO_64, 4 * q + q2, r2 + b);
  }

  /** A k-mer of at most 32 bases fits in a uint64 unchanged. */
  lemma {:induction false} SmallKmerFits(s: seq<byte>)
    requires AllBases(s) && |s| <= MAX_KMER_LENGTH
    ensures KmerValue(s) % TWO_64 == KmerValue(s)
  {
    Pow4Mono(|s|, 32);
    Pow4At32();
  }

  /** n copies of 'T'. */
  function AllT(n: nat): (r: seq<byte>)
    ensures |r| == n && AllBases(r)
  {
    seq(n, _ => ASCII_T)
  }

  lemma {:induction false} AllTValue(n: nat)
    ensures KmerValue(AllT(n)) == Pow4(n) - 1
  {
    if n > 0 {
      assert AllT(n)[..n - 1] == AllT(n - 1);
      AllTValue(n - 1);
    }
  }

  /** The 32-base window "TTTT...T" consists of bases only, yet asciiToKmer
      returns the invalidKmer sentinel for it (and its reverse complement
      "AAAA...A" gives the sentinel as reverseKmer), so Scan takes it for a
      window with an ambiguous base. */
  lemma SentinelCollides()
    ensures AllBases(AllT(32))
    ensures KmerValue(AllT(32)) % TWO_64 == INVALID_KMER
  {
    AllTValue(32);
    Pow4At32();
  }

  /** nextAmbiguousPosition as written: its loop tests si < len(seq) rather
      than i < len(seq), so once i passes the end it indexes out of range
      (None); started at or past the end it returns len(seq). */
  function NextAmbiguousAsWritten(s: seq<byte>, si: nat): (r: Option<nat>)
    ensures r.Some? ==> r.value <= |s|
    ensures r.Some? && si < |s| ==> si <= r.value < |s| && !IsBase(s[r.value])
  {
    if si >= |s| then Some(|s|) else FirstNonBaseFrom(s, si)
  }

  /** The first index at or after i holding a non-base; None when there is
      none. */
  function FirstNonBaseFrom(s: seq<byte>, i: nat): (r: Option<nat>)
    ensures r.Some? ==> i <= r.value < |s| && !IsBase(s[r.value])
    ensures r.Some? ==> forall j :: i <= j < r.value ==> IsBase(s[j])
    ensures r.None? ==> forall j :: i <= j < |s| ==> IsBase(s[j])
    decreases |s| - i
  {
    if i >= |s| then None
    else if !IsBase(s[i]) then Some(i)
    else FirstNonBaseFrom(s, i + 1)
  }

  /** On the all-T window of length 32, the as-written scan falls into
      nextAmbiguousPosition, which finds no ambiguous base and runs past the
      end of the sequence. */
  lemma ScanAsWrittenPanicsOnAllT()
    ensures KmerValue(AllT(32)) % TWO_64 == INVALID_KMER
    ensures NextAmbiguousAsWritten(AllT(32), 0).None?
  {
    SentinelCollides();
  }

  /** As written, nextAmbiguousPosition runs past the end of every nonempty
      sequence of bases it is started on at 0. */
  lemma NextAmbiguousAsWrittenRunsPast(s: seq<byte>)
    requires s != [] && AllBases(s)
    ensures NextAmbiguousAsWritten(s, 0).None?
  {
  }

  /** i is the first non-base at or after si, or len(s) when there is none
      (len(s) too when si is already past the end). */
  predicate FirstNonBaseAt(s: seq<byte>, si: nat, i: nat)
  {
    i <= |s| && (si <= |s| ==> si <= i) && (i < |s| ==> !IsBase(s[i]))
    && (forall j :: si <= j < i ==> IsBase(s[j]))
  }

  /** nextAmbiguousPosition with the loop bound the function evidently
      intends (i < len(seq)): the first non-base at or after si, or len(seq). */
  method NextAmbiguousPosition(s: seq<byte>, si: nat) returns (i: nat)
    ensures FirstNonBaseAt(s, si, i)
  {
    if si >= |s| {
      return |s|;
    }
    i := si;
    while i < |s|
      invariant si <= i <= |s|
      invariant forall j :: si <= j < i ==> IsBase(s[j])
    {
      if KmerBits(s[i]) == INVALID_KMER_BITS {
        return i;
      }
      i := i + 1;
    }
  }

  /** A k-mer of a window and the k-mer of its reverse complement. */
  datatype KmersAtPos = KmersAtPos(pos: int, forward: int, reverseComplement: int)

  /** minKmer: the smaller of the two encodings. */
  function MinKmer(km: KmersAtPos): (r: int)
    ensures r <= km.forward && r <= km.reverseComplement
    ensures r == km.forward || r == km.reverseComplement
  {
    if km.forward < km.reverseComplement then km.forward else km.reverseComplement
  }

  /** The kmers of the window of length k at p. */
  function KmersAt(s: seq<byte>, p: nat, k: nat): KmersAtPos
    requires p + k <= |s| && AllBases(s[p..p + k])
  {
    KmersAtPos(p, KmerValue(s[p..p + k]), RcValue(s[p..p + k]))
  }

  /** A window and its reverse complement share their minKmer: the k-mer
      index is strand-independent. */
  lemma {:induction false} MinKmerCanonical(w: seq<byte>)
    requires AllBases(w)
    ensures AllBases(ReverseComp8Of(w))
    ensures MinKmer(KmersAtPos(0, KmerValue(w), RcValue(w)))
            == MinKmer(KmersAtPos(0, KmerValue(ReverseComp8Of(w)), RcValue(ReverseComp8Of(w))))
  {
    KmerOfReverseComplement(w);
  }

  predicate WindowOk(s: seq<byte>, p: nat, k: nat) { p + k <= |s| && AllBases(s[p..p + k]) }

  /** The first window start at or after from whose window holds only
      bases. */
  ghost function FirstWindow(s: seq<byte>, from: nat, k: nat): Option<nat>
    decreases |s| - from
  {
    if from + k > |s| then None
    else if WindowOk(s, from, k) then Some(from)
    else FirstWindow(s, from + 1, k)
  }

  lemma FirstWindowHere(s: seq<byte>, p: nat, k: nat)
    requires WindowOk(s, p, k)
    ensures FirstWindow(s, p, k) == Some(p)
  {
  }

  lemma FirstWindowPast(s: seq<byte>, p: nat, k: nat)
    requires p + k > |s|
    ensures FirstWindow(s, p, k) == None
  {
  }

  /** FirstWindow finds the least start at or after from of a window made
      only of bases, and None when there is no such window. */
  lemma {:induction false} FirstWindowIsFirst(s: seq<byte>, from: nat, k: nat)
    ensures FirstWindow(s, from, k).Some? ==>
              from <= FirstWindow(s, from, k).value && WindowOk(s, FirstWindow(s, from, k).value, k)
    ensures FirstWindow(s, from, k).Some? ==>
              forall p :: from <= p < FirstWindow(s, from, k).value ==> !WindowOk(s, p, k)
    ensures FirstWindow(s, from, k).None? ==> forall p :: from <= p ==> !WindowOk(s, p, k)
    decreases |s| - from
  {
    if from + k <= |s| && !WindowOk(s, from, k) {
      FirstWindowIsFirst(s, from + 1, k);
    }
  }

  /** The first non-base at or after the start of a window that has one lies
      inside that window. */
  lemma AmbiguousInWindow(s: seq<byte>, from: nat, k: nat, amb: nat)
    requires from + k <= |s| && !AllBases(s[from..from + k])
    requires FirstNonBaseAt(s, from, amb)
    ensures amb < from + k && !IsBase(s[amb])
    ensures FirstWindow(s, from, k) == FirstWindow(s, amb + 1, k)
  {
    var j :| 0 <= j < k && !IsBase(s[from..from + k][j]);
    assert !IsBase(s[from + j]);
    FirstWindowSkip(s, from, amb, k);
  }

  /** Windows that start at or before an ambiguous base and reach past it are
      all skipped. */
  lemma {:induction false} FirstWindowSkip(s: seq<byte>, from: nat, amb: nat, k: nat)
    requires from <= amb < from + k && amb < |s| && !IsBase(s[amb])
    ensures FirstWindow(s, from, k) == FirstWindow(s, amb + 1, k)
    decreases amb - from
  {
    if from + k <= |s| {
      assert s[from..from + k][amb - from] == s[amb];
      if from < amb {
        FirstWindowSkip(s, from + 1, amb, k);
      }
    }
  }

  class Kmerizer {
    var kmerLength: int
    var s: seq<byte>
    var si: int
    var cur: KmersAtPos

    ghost predicate Valid()
      reads this
    {
      KmerizerInv(kmerLength, s, si, cur)
    }

    /** newKmerizer followed by Reset(""). */
    constructor (k: int)
      requires 1 <= k <= MAX_KMER_LENGTH
      ensures Valid() && kmerLength == k && s == [] && si == 0
    {
      kmerLength := k;
      s := [];
      si := 0;
      cur := KmersAtPos(0, 0, 0);
    }

    method Reset(newSeq: seq<byte>)
      requires Valid()
      modifies this
      ensures Valid() && kmerLength == old(kmerLength) && s == newSeq && si == 0
    {
      s := newSeq;
      si := 0;
    }

    function Get(): KmersAtPos
      reads this
    {
      cur
    }

    /** Scan, with windows judged by their bytes rather than by comparing the
        packed value with invalidKmer: finds the first window at or after si
        made only of bases, and sets cur to its kmers. */
    method Scan() returns (ok: bool)
      requires Valid()
      modifies this
      ensures Valid() && kmerLength == old(kmerLength) && s == old(s)
      ensures ScanOutcome(s, old(si), kmerLength, ok, si, cur)
    {
      var k := kmerLength;
      if si > 0 && si + k <= |s| {
        var nextCh := s[si + k - 1];
        var bits := KmerBits(nextCh);
        if bits != INVALID_KMER_BITS {
          FastPath(nextCh, bits);
          return true;
        }
      }
      ok := SlowPath();
    }

    /** The slow path of Scan: encode whole windows, jumping past the first
        ambiguous base of a window that has one. */
    method SlowPath() returns (ok: bool)
      requires 1 <= kmerLength <= MAX_KMER_LENGTH && 0 <= si
      modifies this
      ensures Valid() && kmerLength == old(kmerLength) && s == old(s)
      ensures ScanOutcome(s, old(si), kmerLength, ok, si, cur)
    {
      var k, str, i := kmerLength, s, si;
      while i + k <= |str|
        invariant i >= old(si) && kmerLength == k && s == str
        invariant FirstWindow(str, i, k) == FirstWindow(str, old(si), k)
        decreases |str| - i
      {
        var found := WindowKmers(str, i, k);
        if found.None? {
          var amb := NextAmbiguousPosition(str, i);
          AmbiguousInWindow(str, i, k, amb);
          i := amb + 1;
        } else {
          cur := found.value;
          si := i + 1;
          FoundHere(str, old(si), i, k, cur);
          return true;
        }
      }
      FirstWindowPast(str, i, k);
      si := i;
      NotFound(str, old(si), i, k, cur);
      return false;
    }

    /** The fast path of Scan: the next window differs by one base, so both
        encodings are updated by a shift. */
    method FastPath(nextCh: byte, bits: int)
      requires Valid() && si > 0 && si + kmerLength <= |s|
      requires nextCh == s[si + kmerLength - 1] && bits == KmerBits(nextCh)
      requires bits != INVALID_KMER_BITS
      modifies this
      ensures Valid() && kmerLength == old(kmerLength) && s == old(s)
      ensures ScanOutcome(s, old(si), kmerLength, true, si, cur)
    {
      var k, i, str, prev := kmerLength, si, s, cur;
      ShiftStep(str, i, k, prev, nextCh);
      var forward := ShiftForward(prev.forward, bits, k);
      var reverse := ShiftReverse(prev.reverseComplement, RcBits(nextCh), k);
      cur := KmersAtPos(i, forward, reverse);
      si := i + 1;
      Found(str, i, i, k, cur);
    }
  }

  /** ((fwd << 2) | bits) & mask on a uint64, where mask = ^(^0 << 2k) keeps
      the low 2k bits, so the & is a remainder modulo 4^k. */
  function ShiftForward(fwd: int, bits: int, k: nat): int
  {
    ((fwd * 4) % TWO_64 + bits) % Pow4(k)
  }

  /** (rc >> 2) | (rcBits << 2(k - 1)) on a uint64 holding a k-mer. */
  function ShiftReverse(rc: int, rcBits: int, k: nat): int
    requires k >= 1
  {
    rc / 4 + rcBits * Pow4(k - 1)
  }

  /** One step of the fast path: shifting the next base into the previous
      window's kmers gives the kmers of the next window. */
  lemma {:induction false} ShiftStep(s: seq<byte>, i: nat, k: int, prev: KmersAtPos, nextCh: byte)
    requires 1 <= k <= MAX_KMER_LENGTH && i > 0 && i + k <= |s|
    requires WindowOk(s, i - 1, k) && prev == KmersAt(s, i - 1, k)
    requires nextCh == s[i + k - 1] && IsBase(nextCh)
    ensures WindowOk(s, i, k) && FirstWindow(s, i, k) == Some(i)
    ensures KmersAt(s, i, k)
            == KmersAtPos(i, ShiftForward(prev.forward, KmerBits(nextCh), k),
                          ShiftReverse(prev.reverseComplement, RcBits(nextCh), k))
  {
    var w := s[i - 1..i - 1 + k];
    var next := s[i..i + k];
    assert |w| == k && next == w[1..] + [nextCh];
    ShiftForwardStep(w, nextCh);
    ShiftReverseStep(w, nextCh);
    FirstWindowHere(s, i, k);
  }

  lemma {:induction false} ShiftForwardStep(w: seq<byte>, c: byte)
    requires AllBases(w) && 1 <= |w| <= MAX_KMER_LENGTH && IsBase(c)
    ensures AllBases(w[1..] + [c])
    ensures KmerValue(w[1..] + [c]) == ShiftForward(KmerValue(w), KmerBits(c), |w|)
  {
    KmerShift(w, c);
    FitsAndMasks(KmerValue(w), KmerBits(c), |w|);
  }

  lemma {:induction false} ShiftReverseStep(w: seq<byte>, c: byte)
    requires AllBases(w) && 1 <= |w| && IsBase(c)
    ensures RcValue(w[1..] + [c]) == ShiftReverse(RcValue(w), RcBits(c), |w|)
  {
    RcShift(w, c);
  }

  /** The slow path's window at i holds only bases and is the first one. */
  lemma {:induction false} FoundHere(s: seq<byte>, from: nat, i: nat, k: int, cur: KmersAtPos)
    requires 1 <= k <= MAX_KMER_LENGTH && i + k <= |s|
    requires FirstWindow(s, i, k) == FirstWindow(s, from, k)
    requires WindowOk(s, i, k) && cur == KmersAt(s, i, k)
    ensures ScanOutcome(s, from, k, true, i + 1, cur) && KmerizerInv(k, s, i + 1, cur)
  {
    FirstWindowHere(s, i, k);
    Found(s, from, i, k, cur);
  }

  /** The two encodings of the slow path for the window at i: the forward
      kmer, and the kmer of the reverse complement written to a scratch
      buffer; None when the window holds a non-base. The source panics when
      the second encoding fails, which cannot happen. */
  method WindowKmers(s: seq<byte>, i: nat, k: nat) returns (r: Option<KmersAtPos>)
    requires 1 <= k <= MAX_KMER_LENGTH && i + k <= |s|
    ensures r.Some? <==> WindowOk(s, i, k)
    ensures r.Some? ==> r.value == KmersAt(s, i, k)
  {
    var window := s[i..i + k];
    var forward := AsciiToKmerChecked(window);
    if forward.None? {
      return None;
    }
    KmerOfReverseComplement(window);
    var reverse := AsciiToKmerChecked(ReverseComp8Of(window));
    return Some(KmersAtPos(i, forward.value, reverse.value));
  }

  /** The kmerizer's state: a kmer length the uint64 encoding holds, and cur
      holding the kmers of the window just before si whenever the fast path
      may run. */
  ghost predicate KmerizerInv(k: int, s: seq<byte>, si: int, cur: KmersAtPos)
  {
    1 <= k <= MAX_KMER_LENGTH && 0 <= si &&
    (si > 0 && si + k <= |s| ==> WindowOk(s, si - 1, k) && cur == KmersAt(s, si - 1, k))
  }

  /** What Scan promises from start position from: true iff some window at or
      after from holds only bases; then si is one past the first such window
      and cur holds its kmers; otherwise si is past the last window. */
  ghost predicate ScanOutcome(s: seq<byte>, from: nat, k: nat, ok: bool, si: int, cur: KmersAtPos)
  {
    (ok <==> FirstWindow(s, from, k).Some?) &&
    (ok ==> si >= 1 && si == FirstWindow(s, from, k).value + 1 && WindowOk(s, si - 1, k)
            && cur == KmersAt(s, si - 1, k)) &&
    (!ok ==> si + k > |s|)
  }

  lemma Found(s: seq<byte>, from: nat, i: nat, k: int, cur: KmersAtPos)
    requires 1 <= k <= MAX_KMER_LENGTH
    requires FirstWindow(s, from, k) == Some(i) && WindowOk(s, i, k) && cur == KmersAt(s, i, k)
    ensures ScanOutcome(s, from, k, true, i + 1, cur) && KmerizerInv(k, s, i + 1, cur)
  {
  }

  lemma NotFound(s: seq<byte>, from: nat, i: nat, k: int, cur: KmersAtPos)
    requires 1 <= k <= MAX_KMER_LENGTH && i + k > |s|
    requires FirstWindow(s, from, k) == None
    ensures ScanOutcome(s, from, k, false, i, cur) && KmerizerInv(k, s, i, cur)
  {
  }

  /** ((v << 2) | b) & mask on uint64 equals (4v + b) mod 4^k for a k-mer
      value v. */
  lemma {:induction false} FitsAndMasks(v: nat, b: int, k: int)
    requires 1 <= k <= MAX_KMER_LENGTH && 0 <= b < 4 && v < Pow4(k)
    ensures ((v * 4) % TWO_64 + b) % Pow4(k) == (v * 4 + b) % Pow4(k)
  {
    Pow4At32();
    if k < 32 {
      Pow4Mono(k + 1, 32);
      assert v * 4 < Pow4(k + 1);
      DivModUnique(v * 4, TWO_64, 0, v * 4);
    } else {
      var q := (v * 4) / TWO_64;
      var r := (v * 4) % TWO_64;
      assert v * 4 == q * 0x1_0000_0000_0000_0000 + r;
      var m := v - q * 0x4000_0000_0000_0000;
      assert r == 4 * m;
      DivModUnique(v * 4 + b, TWO_64, q, r + b);
      DivModUnique(r + b, TWO_64, 0, r + b);
    }
  }

  /** asciiToKmer with validity reported apart from the value, so that no
      valid k-mer is mistaken for the sentinel. */
  method AsciiToKmerChecked(w: seq<byte>) returns (r: Option<int>)
    requires |w| <= MAX_KMER_LENGTH
    ensures r.Some? <==> AllBases(w)
    ensures r.Some? ==> r.value == KmerValue(w)
  {
    var k := 0;
    var i := 0;
    while i < |w|
      invariant 0 <= i <= |w|
      invariant AllBases(w[..i]) && k == KmerValue(w[..i])
    {
      var b := KmerBits(w[i]);
      if b == INVALID_KMER_BITS {
        return None;
      }
      assert w[..i + 1][..i] == w[..i];
      k := k * 4 + b;
      i := i + 1;
    }
    assert w[..i] == w;
    return Some(k);
  }
}
