/** Base-composition helpers and gene-pair ordering of the fusion caller
    (fusion/util.go). Sequences are byte strings. */
module FusionUtil {
  import opened Wrappers
  import opened Ints
  import opened PyStrings
  import opened BiosimdGeneric
  import RevcompGeneric

  /** acgtnIndex: A/a -> 0, C/c -> 1, G/g -> 2, T/t -> 3, any other byte -> 4. */
  function AcgtnIndex(ch: byte): (r: nat)
    ensures r <= 4
    ensures r < 4 <==> ch == ASCII_A || ch == ASCII_LOWER_A || ch == ASCII_C
                       || ch == ASCII_LOWER_C || ch == ASCII_G || ch == ASCII_LOWER_G
                       || ch == ASCII_T || ch == ASCII_LOWER_T
  {
    if ch == ASCII_LOWER_A || ch == ASCII_A then 0
    else if ch == ASCII_LOWER_C || ch == ASCII_C then 1
    else if ch == ASCII_LOWER_G || ch == ASCII_G then 2
    else if ch == ASCII_LOWER_T || ch == ASCII_T then 3
    else 4
  }

  predicate IsAcgt(ch: byte) { AcgtnIndex(ch) < 4 }

  /** reverseComplement: ReverseComp8 into a fresh buffer. */
  function ReverseComplement(s: seq<byte>): (r: seq<byte>)
    ensures |r| == |s|
  {
    RevcompGeneric.ReverseComp8Of(s)
  }

  /** The number of bytes of s that fall in bucket k. */
  function CountIn(s: seq<byte>, k: nat): nat
  {
    if s == [] then 0
    else CountIn(s[..|s| - 1], k) + (if AcgtnIndex(s[|s| - 1]) == k then 1 else 0)
  }

  /** The number of bytes of s that are not one of ACGT (either case). */
  function NonAcgtCount(s: seq<byte>): nat
  {
    if s == [] then 0
    else NonAcgtCount(s[..|s| - 1]) + (if IsAcgt(s[|s| - 1]) then 0 else 1)
  }

  function Sum(c: seq<int>): int
  {
    if c == [] then 0 else Sum(c[..|c| - 1]) + c[|c| - 1]
  }

  function Buckets(s: seq<byte>): (r: seq<nat>)
    ensures |r| == 5
  {
    [CountIn(s, 0), CountIn(s, 1), CountIn(s, 2), CountIn(s, 3), CountIn(s, 4)]
  }

  /** Every byte lands in exactly one bucket, so the buckets sum to the
      length. */
  lemma {:induction false} BucketsSumToLength(s: seq<byte>)
    ensures Sum(Buckets(s)) == |s|
  {
    SumOfFive(Buckets(s));
    if s != [] {
      var p, b := s[..|s| - 1], s[|s| - 1];
      BucketsSumToLength(p);
      assert s == p + [b];
      BucketsSnoc(p, b);
      SumOfFive(Buckets(p));
      var B, S, k := Buckets(p), Buckets(s), AcgtnIndex(b);
      assert S[0] + S[1] + S[2] + S[3] + S[4] == B[0] + B[1] + B[2] + B[3] + B[4] + 1 by {
        if k == 0 {
        } else if k == 1 {
        } else if k == 2 {
        } else if k == 3 {
        } else {
        }
      }

    }
  }

  lemma SumOfFive(c: seq<int>)
    requires |c| == 5
    ensures Sum(c) == c[0] + c[1] + c[2] + c[3] + c[4]
  {
    var c4 := c[..4];
    var c3 := c4[..3];
    var c2 := c3[..2];
    var c1 := c2[..1];
    assert c1[..0] == [];
    assert Sum(c1) == c[0];
    assert Sum(c2) == c[0] + c[1];
    assert Sum(c3) == c[0] + c[1] + c[2];
    assert Sum(c4) == c[0] + c[1] + c[2] + c[3];
  }

  /** One more byte adds one to its own bucket only. */
  lemma BucketsSnoc(s: seq<byte>, b: byte)
    ensures Buckets(s + [b]) == Buckets(s)[AcgtnIndex(b) := Buckets(s)[AcgtnIndex(b)] + 1]
  {
    assert (s + [b])[..|s|] == s;
  }

  /** Bucket 4 is exactly the count of bytes that are not ACGT. */
  lemma {:induction false} BucketFourIsNonAcgt(s: seq<byte>)
    ensures CountIn(s, 4) == NonAcgtCount(s)
  {
    if s != [] {
      BucketFourIsNonAcgt(s[..|s| - 1]);
    }
  }

  /** countACGTN. */
  method CountACGTN(s: seq<byte>) returns (counts: array<nat>)
    ensures fresh(counts) && counts.Length == 5
    ensures counts[..] == Buckets(s)
  {
    counts := new nat[5](_ => 0);
    var n := 0;
    while n < |s|
      invariant 0 <= n <= |s|
      invariant counts[..] == Buckets(s[..n])
    {
      var k := AcgtnIndex(s[n]);
      counts[k] := counts[k] + 1;
      assert s[..n + 1] == s[..n] + [s[n]];
      BucketsSnoc(s[..n], s[n]);
      n := n + 1;
    }
    assert s[..n] == s;
  }

  /** numUnknownBases. */
  method NumUnknownBases(s: seq<byte>) returns (n: nat)
    ensures n == NonAcgtCount(s)
  {
    var counts := CountACGTN(s);
    n := counts[4];
    BucketFourIsNonAcgt(s);
  }

  /** The loop in IsLowComplexity, as a left fold from (-1, -1): the largest
      count and the one kept beside it. */
  function TopTwo(c: seq<int>): (int, int)
  {
    if c == [] then (-1, -1)
    else
      var (m, m2) := TopTwo(c[..|c| - 1]);
      var x := c[|c| - 1];
      if m < x then (x, m) else if m2 < x then (m, x) else (m, m2)
  }

  /** Where TopTwo found its two values. */
  ghost function TopTwoAt(c: seq<int>): (nat, nat)
  {
    if c == [] then (0, 0)
    else
      var (m, m2) := TopTwo(c[..|c| - 1]);
      var (i, j) := TopTwoAt(c[..|c| - 1]);
      var x := c[|c| - 1];
      if m < x then (|c| - 1, i) else if m2 < x then (i, |c| - 1) else (i, j)
  }

  /** On non-negative counts, TopTwo returns the largest entry and the largest
      of the others, taken at two distinct indices. */
  lemma {:induction false} TopTwoIsTopTwo(c: seq<int>)
    requires |c| >= 2
    requires forall k :: 0 <= k < |c| ==> c[k] >= 0
    ensures TopTwoAt(c).0 < |c| && TopTwoAt(c).1 < |c|
    ensures TopTwoAt(c).0 != TopTwoAt(c).1
    ensures c[TopTwoAt(c).0] == TopTwo(c).0 && c[TopTwoAt(c).1] == TopTwo(c).1
    ensures forall k :: 0 <= k < |c| ==> c[k] <= TopTwo(c).0
    ensures forall k :: 0 <= k < |c| && k != TopTwoAt(c).0 ==> c[k] <= TopTwo(c).1
  {
    var p := c[..|c| - 1];
    if |c| == 2 {
      assert p == [c[0]];
      assert p[..0] == [];
    } else {
      TopTwoIsTopTwo(p);
    }
  }

  /** No two distinct entries sum to more than the two TopTwo returns. */
  lemma TopTwoBoundsPairs(c: seq<int>, i: nat, j: nat)
    requires |c| >= 2
    requires forall k :: 0 <= k < |c| ==> c[k] >= 0
    requires i < |c| && j < |c| && i != j
    ensures c[i] + c[j] <= TopTwo(c).0 + TopTwo(c).1
  {
    TopTwoIsTopTwo(c);
  }

  /** The loop of IsLowComplexity over the five counts. */
  method TopTwoOf(c: array<nat>) returns (max: int, max2: int)
    ensures (max, max2) == TopTwo(c[..])
  {
    max, max2 := -1, -1;
    var n := 0;
    while n < c.Length
      invariant 0 <= n <= c.Length
      invariant (max, max2) == TopTwo(c[..n])
    {
      var x := c[n];
      assert c[..n + 1][..n] == c[..n];
      if max < x {
        max, max2 := x, max;
      } else if max2 < x {
        max2 := x;
      }
      n := n + 1;
    }
    assert c[..n] == c[..];
  }

  /** Some two of the counts together exceed num/den of n. */
  ghost predicate TwoDominate(c: seq<int>, n: int, num: int, den: int)
  {
    exists i: nat, j: nat :: i < |c| && j < |c| && i != j && (c[i] + c[j]) * den > num * n
  }

  /** Some two buckets together hold more than num/den of the bases. */
  ghost predicate TwoBucketsDominate(s: seq<byte>, num: int, den: int)
  {
    TwoDominate(Buckets(s), |s|, num, den)
  }

  /** The top two of non-negative counts decide TwoDominate. */
  lemma TopTwoDecides(c: seq<int>, n: int, num: int, den: int)
    requires |c| >= 2 && den > 0
    requires forall k :: 0 <= k < |c| ==> c[k] >= 0
    ensures TwoDominate(c, n, num, den) <==> (TopTwo(c).0 + TopTwo(c).1) * den > num * n
  {
    TopTwoIsTopTwo(c);
    var (i, j) := TopTwoAt(c);
    if (TopTwo(c).0 + TopTwo(c).1) * den > num * n {
      assert (c[i] + c[j]) * den > num * n;
    } else {
      forall i: nat, j: nat | i < |c| && j < |c| && i != j
        ensures (c[i] + c[j]) * den <= num * n
      {
        TopTwoBoundsPairs(c, i, j);
        MulMono(c[i] + c[j], TopTwo(c).0 + TopTwo(c).1, den);
      }
    }
  }

  /** IsLowComplexity with the threshold fraction num/den: true for an empty
      sequence, and otherwise true iff two bucket counts (N counting as a
      base) together exceed that fraction of the length. */
  method IsLowComplexity(s: seq<byte>, num: int, den: int) returns (low: bool)
    requires den > 0
    ensures low <==> |s| == 0 || TwoBucketsDominate(s, num, den)
  {
    if |s| == 0 {
      return true;
    }
    var counts := CountACGTN(s);
    var max, max2 := TopTwoOf(counts);
    low := (max + max2) * den > num * |s|;
    TopTwoDecides(counts[..], |s|, num, den);
  }

  lemma MulMono(a: int, b: int, d: int)
    requires a <= b && d > 0
    ensures a * d <= b * d
  {
  }

  /** What IsLowComplexity decides. */
  ghost predicate LowComplexity(s: seq<byte>, num: int, den: int)
  {
    |s| == 0 || TwoBucketsDominate(s, num, den)
  }

  /** The bucket of a byte's complement: A and T, C and G trade places, and
      everything else stays in bucket 4. */
  function FlipBucket(k: nat): (r: nat)
    ensures k <= 4 ==> r <= 4
  {
    if k < 4 then 3 - k else k
  }

  lemma BucketOfComplement(b: byte)
    ensures AcgtnIndex(RevcompGeneric.RevComp8(b)) == FlipBucket(AcgtnIndex(b))
  {
    var r := RevcompGeneric.RevComp8(b);
    if b == ASCII_A || b == ASCII_LOWER_A {
      assert r == ASCII_T;
    } else if b == ASCII_C || b == ASCII_LOWER_C {
      assert r == ASCII_G;
    } else if b == ASCII_G || b == ASCII_LOWER_G {
      assert r == ASCII_C;
    } else if b == ASCII_T || b == ASCII_LOWER_T {
      assert r == ASCII_A;
    } else {
      assert r == ASCII_N;
    }
  }

  /** Counting from the front. */
  lemma {:induction false} CountInCons(c: byte, t: seq<byte>, k: nat)
    ensures CountIn([c] + t, k) == CountIn(t, k) + (if AcgtnIndex(c) == k then 1 else 0)
    decreases |t|
  {
    if t == [] {
      assert ([c] + t)[..0] == [];
    } else {
      var u := t[..|t| - 1];
      assert ([c] + t)[..|t|] == [c] + u;
      CountInCons(c, u, k);
    }
  }

  /** Reverse complementing moves each count to the complementary bucket. */
  lemma {:induction false} CountInReverseComplement(s: seq<byte>, k: nat)
    requires k <= 4
    ensures CountIn(ReverseComplement(s), k) == CountIn(s, FlipBucket(k))
    decreases |s|
  {
    if s == [] {
      assert ReverseComplement(s) == [];
    } else {
      var p, b := s[..|s| - 1], s[|s| - 1];
      var rc := RevcompGeneric.RevComp8(b);
      assert ReverseComplement(s) == [rc] + ReverseComplement(p);
      CountInReverseComplement(p, k);
      CountInCons(rc, ReverseComplement(p), k);
      BucketOfComplement(b);
    }
  }

  /** The bucket counts of the reverse complement: A and T swap, C and G
      swap, the rest stays. */
  lemma BucketsOfReverseComplement(s: seq<byte>)
    ensures Buckets(ReverseComplement(s))
            == [Buckets(s)[3], Buckets(s)[2], Buckets(s)[1], Buckets(s)[0], Buckets(s)[4]]
  {
    CountInReverseComplement(s, 0);
    CountInReverseComplement(s, 1);
    CountInReverseComplement(s, 2);
    CountInReverseComplement(s, 3);
    CountInReverseComplement(s, 4);
  }

  /** TwoDominate survives a swap of the buckets given by FlipBucket. */
  lemma TwoDominateFlipped(c: seq<int>, d: seq<int>, n: int, num: int, den: int)
    requires |c| == 5 && |d| == 5
    requires d[0] == c[3] && d[1] == c[2] && d[2] == c[1] && d[3] == c[0] && d[4] == c[4]
    requires TwoDominate(c, n, num, den)
    ensures TwoDominate(d, n, num, den)
  {
    var i: nat, j: nat :| i < |c| && j < |c| && i != j && (c[i] + c[j]) * den > num * n;
    var fi, fj := FlipBucket(i), FlipBucket(j);
    assert d[fi] == c[i] && d[fj] == c[j];
    assert (d[fi] + d[fj]) * den > num * n;
  }

  /** Low complexity does not depend on the strand a read is taken from. */
  lemma LowComplexityOfReverseComplement(s: seq<byte>, num: int, den: int)
    ensures LowComplexity(ReverseComplement(s), num, den) <==> LowComplexity(s, num, den)
  {
    var c, d := Buckets(s), Buckets(ReverseComplement(s));
    BucketsOfReverseComplement(s);
    if TwoDominate(c, |s|, num, den) {
      TwoDominateFlipped(c, d, |s|, num, den);
    }
    if TwoDominate(d, |s|, num, den) {
      TwoDominateFlipped(d, c, |s|, num, den);
    }
  }

  datatype GenePairOrder = CosmicOrder | AlphabeticalOrder

  /** SortGenePair. The gene database is given by the set of COSMIC fusion
      pairs and the gene names by id; None where the source panics (CosmicOrder
      with a pair COSMIC lists in neither order). */
  function SortGenePair(cosmic: set<(int, int)>, names: map<int, string>,
                        g1: int, g2: int, order: GenePairOrder): (r: Option<(int, int)>)
    requires g1 in names && g2 in names
    ensures r.Some? ==> r.value == (g1, g2) || r.value == (g2, g1)
    ensures order == CosmicOrder ==>
              (r.Some? <==> (g1, g2) in cosmic || (g2, g1) in cosmic)
    ensures order == CosmicOrder && r.Some? ==> r.value in cosmic
    ensures order == CosmicOrder && (g1, g2) in cosmic ==> r == Some((g1, g2))
  {
    match order
    case CosmicOrder =>
      if (g1, g2) in cosmic then Some((g1, g2))
      else if (g2, g1) in cosmic then Some((g2, g1))
      else None
    case AlphabeticalOrder =>
      if StrLess(names[g2], names[g1]) then Some((g2, g1)) else Some((g1, g2))
  }

  /** In alphabetical order the first name is never after the second, and
      the result does not depend on the argument order when names differ. */
  lemma AlphabeticalSorted(cosmic: set<(int, int)>, names: map<int, string>, g1: int, g2: int)
    requires g1 in names && g2 in names
    ensures SortGenePair(cosmic, names, g1, g2, AlphabeticalOrder).Some?
    ensures var (a, b) := SortGenePair(cosmic, names, g1, g2, AlphabeticalOrder).value;
            !StrLess(names[b], names[a])
    ensures names[g1] != names[g2] ==>
              SortGenePair(cosmic, names, g1, g2, AlphabeticalOrder)
              == SortGenePair(cosmic, names, g2, g1, AlphabeticalOrder)
  {
    StrLessTotal(names[g1], names[g2]);
  }
}
