/** Read preprocessing of the fusion caller (fusion/preprocess.go): moving a
    UMI from the start of the reads into the read name, and dropping
    low-complexity reads. */
module FusionPreprocess {
  import opened Wrappers
  import opened Ints
  import opened BiosimdGeneric
  import opened FusionUtil
  import opened FusionFragment

  /** The options preprocessing reads. The float LowComplexityFraction is the
      exact ratio lcNum / lcDen. */
  datatype Opts = Opts(umiInRead: bool, umiInName: bool, lcNum: int, lcDen: int)

  /** The two Stats counters preprocessing updates. */
  datatype Stats = Stats(lowComplexityReads1: nat, lowComplexityReads2: nat)

  /** A UMI is the first UMI_LENGTH bases of a read; UMI_PREFIX bases are cut
      from the read (the UMI and one spacer base). */
  const UMI_LENGTH: nat := 6
  const UMI_PREFIX: nat := 7

  /** The name with ":u1+u2" inserted before its first space. */
  function NameWithUmi(name: seq<byte>, u1: seq<byte>, u2: seq<byte>): seq<byte>
  {
    var head := BeforeSpace(name);
    head + [COLON] + u1 + [PLUS] + u2 + name[|head|..]
  }

  /** The text before the first space is the prefix ending at i when i is the
      first space or the end. */
  lemma BeforeSpaceIs(name: seq<byte>, i: nat)
    requires i <= |name| && SPACE !in name[..i]
    requires i == |name| || name[i] == SPACE
    ensures BeforeSpace(name) == name[..i]
  {
    if i == |name| {
      assert name[..i] == name;
    } else {
      assert name == name[..i] + name[i..];
      IndexByteAfter(name[..i], name[i..], SPACE);
    }
  }

  /** addUMIToName: copies the name up to its first space, then appends
      ":", r1UMI, "+", r2UMI and the rest of the name. */
  method AddUmiToName(name: seq<byte>, r1Umi: seq<byte>, r2Umi: seq<byte>) returns (r: seq<byte>)
    ensures r == NameWithUmi(name, r1Umi, r2Umi)
  {
    var b: seq<byte> := [];
    var i := 0;
    while i < |name| && name[i] != SPACE
      invariant 0 <= i <= |name| && b == name[..i] && SPACE !in b
    {
      assert name[..i + 1] == b + [name[i]];
      b := b + [name[i]];
      i := i + 1;
    }
    BeforeSpaceIs(name, i);
    b := b + [COLON] + r1Umi + [PLUS] + r2Umi + name[i..];
    r := b;
  }

  /** Cutting the inserted ":u1+u2" out again gives back the name. */
  lemma NameWithUmiRemoved(name: seq<byte>, u1: seq<byte>, u2: seq<byte>)
    ensures var r, h := NameWithUmi(name, u1, u2), |BeforeSpace(name)|;
            h + 2 + |u1| + |u2| <= |r| && r[..h] + r[h + 2 + |u1| + |u2|..] == name
  {
    var head := BeforeSpace(name);
    var h := |head|;
    var r := NameWithUmi(name, u1, u2);
    var inserted := [COLON] + u1 + [PLUS] + u2;
    assert r == head + inserted + name[h..];
    assert r[..h] == head;
    assert r[h + |inserted|..] == name[h..];
    assert name == name[..h] + name[h..];
  }

  lemma UmiByteNotSpace(c: byte)
    requires IsUmiByte(c)
    ensures c != SPACE
  {
  }

  /** The UMI inserted by addUMIToName is the one Fragment.UMI reads back,
      whatever the name: "u1+u2". */
  lemma UmiOfNameWithUmi(name: seq<byte>, u1: seq<byte>, u2: seq<byte>)
    requires forall k :: 0 <= k < |u1| ==> IsUmiByte(u1[k])
    requires forall k :: 0 <= k < |u2| ==> IsUmiByte(u2[k])
    ensures Umi(Fragment(NameWithUmi(name, u1, u2), [], [])) == Some(u1 + [PLUS] + u2)
  {
    var head := BeforeSpace(name);
    var umi := u1 + [PLUS] + u2;
    var rest := name[|head|..];
    assert forall k :: 0 <= k < |umi| ==> IsUmiByte(umi[k]) by {
      forall k | 0 <= k < |umi| ensures IsUmiByte(umi[k]) {
        if k < |u1| {
          assert umi[k] == u1[k];
        } else if k > |u1| {
          assert umi[k] == u2[k - |u1| - 1];
        }
      }
    }
    assert SPACE !in umi by {
      forall k | 0 <= k < |umi| ensures umi[k] != SPACE {
        UmiByteNotSpace(umi[k]);
      }
    }
    var sp := IndexByte(name, SPACE);
    if sp >= 0 {
      assert rest[0] == name[sp];
    } else {
      assert rest == [];
    }
    assert NameWithUmi(name, u1, u2) == head + [COLON] + umi + rest;
    UmiOfName(head, umi, rest);
  }

  /** MaybeRemoveUMI: with UMIInRead, a read pair too short to carry a UMI
      becomes ("N", ""); otherwise the first UMI_PREFIX bases of each read are
      cut and, unless UMIInName, their first UMI_LENGTH bases go into the
      name. */
  method MaybeRemoveUmi(name: seq<byte>, r1Seq: seq<byte>, r2Seq: seq<byte>, opts: Opts)
    returns (newName: seq<byte>, newR1: seq<byte>, newR2: seq<byte>)
    ensures !opts.umiInRead ==> newName == name && newR1 == r1Seq && newR2 == r2Seq
    ensures opts.umiInRead && (|r1Seq| < UMI_PREFIX || |r2Seq| < UMI_PREFIX) ==>
              newName == name && newR1 == [ASCII_N] && newR2 == []
    ensures opts.umiInRead && |r1Seq| >= UMI_PREFIX && |r2Seq| >= UMI_PREFIX ==>
              r1Seq == r1Seq[..UMI_PREFIX] + newR1 && r2Seq == r2Seq[..UMI_PREFIX] + newR2
              && newName == if opts.umiInName then name
                            else NameWithUmi(name, r1Seq[..UMI_LENGTH], r2Seq[..UMI_LENGTH])
  {
    newName, newR1, newR2 := name, r1Seq, r2Seq;
    if opts.umiInRead {
      if |r1Seq| < UMI_PREFIX || |r2Seq| < UMI_PREFIX {
        return name, [ASCII_N], [];
      }
      if !opts.umiInName {
        newName := AddUmiToName(name, r1Seq[..UMI_LENGTH], r2Seq[..UMI_LENGTH]);
      }
      newR1 := r1Seq[UMI_PREFIX..];
      newR2 := r2Seq[UMI_PREFIX..];
      assert r1Seq == r1Seq[..UMI_PREFIX] + newR1;
      assert r2Seq == r2Seq[..UMI_PREFIX] + newR2;
    }
  }

  /** RemoveLowComplexityReads: a low-complexity read is dropped; when only R1
      is dropped, R2's reverse complement takes its place; when both are, the
      pair becomes ("N", ""). Reads that survive are not low complexity. */
  method RemoveLowComplexityReads(r1Seq: seq<byte>, r2Seq: seq<byte>, stats: Stats, opts: Opts)
    returns (newR1: seq<byte>, newR2: seq<byte>, newStats: Stats)
    requires opts.lcDen > 0
    ensures LowComplexity(r1Seq, opts.lcNum, opts.lcDen) && LowComplexity(r2Seq, opts.lcNum, opts.lcDen) ==>
              newR1 == [ASCII_N] && newR2 == []
              && newStats == stats.(lowComplexityReads2 := stats.lowComplexityReads2 + 1)
    ensures LowComplexity(r1Seq, opts.lcNum, opts.lcDen) && !LowComplexity(r2Seq, opts.lcNum, opts.lcDen) ==>
              newR1 == ReverseComplement(r2Seq) && newR2 == []
              && newStats == stats.(lowComplexityReads1 := stats.lowComplexityReads1 + 1)
    ensures !LowComplexity(r1Seq, opts.lcNum, opts.lcDen) && LowComplexity(r2Seq, opts.lcNum, opts.lcDen) ==>
              newR1 == r1Seq && newR2 == []
              && newStats == stats.(lowComplexityReads1 := stats.lowComplexityReads1 + 1)
    ensures !LowComplexity(r1Seq, opts.lcNum, opts.lcDen) && !LowComplexity(r2Seq, opts.lcNum, opts.lcDen) ==>
              newR1 == r1Seq && newR2 == ReverseComplement(r2Seq) && newStats == stats
    ensures newR1 != [ASCII_N] ==> !LowComplexity(newR1, opts.lcNum, opts.lcDen)
    ensures !LowComplexity(newR2, opts.lcNum, opts.lcDen) || newR2 == []
  {
    var isR1LC := IsLowComplexity(r1Seq, opts.lcNum, opts.lcDen);
    var isR2LC := IsLowComplexity(r2Seq, opts.lcNum, opts.lcDen);
    LowComplexityOfReverseComplement(r2Seq, opts.lcNum, opts.lcDen);
    if isR1LC {
      if isR2LC {
        return [ASCII_N], [], stats.(lowComplexityReads2 := stats.lowComplexityReads2 + 1);
      }
      return ReverseComplement(r2Seq), [], stats.(lowComplexityReads1 := stats.lowComplexityReads1 + 1);
    }
    if isR2LC {
      return r1Seq, [], stats.(lowComplexityReads1 := stats.lowComplexityReads1 + 1);
    }
    return r1Seq, ReverseComplement(r2Seq), stats;
  }
}
