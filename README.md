# grailbio/bio sequential core, modelled in Dafny

This project models the self-contained sequential logic of the grailbio/bio
genomics toolkit and proves properties of it. It covers the fusion benchmark
scoring scripts, the biosimd sequence codecs, interval unions over BED files,
the circular bitmap, coordinate orders, the BAM/PAM/FASTA/FASTQ encodings, the
fusion pipeline (k-mers, fragments, stitching, gene inference and the
post-processing filters), the gencode range lists, the keys, read pairs,
primary choice, metrics and optical locations of duplicate marking, barcode
edit distance and snap correction of UMIs, the pileup strand and column
parsers, the pileup row and base-strand record codecs, the first-read table
of the SNP pileup, and the type checker and evaluator of bio-pamtool's record
filter. Each source file becomes one Dafny module in a file of a similar
name. Imperative code (loops over buffers, objects whose fields change) is
modelled by methods with loop invariants, arrays and classes. Pure code is
modelled by datatypes, functions and lemmas.

Conventions used throughout:

- Go's fixed-width integers are Dafny `int`s with explicit range predicates
  (`Ints.IsInt32` and friends). Wrap-around is written out (`Ints.WrapInt32`)
  where the source relies on it or where it changes a result.
- An explicit `panic` or a fatal log call in the source becomes an error
  outcome (`Wrappers.Option`, `Wrappers.Result` or a boolean `ok`). An
  implicit panic (an index out of range) becomes a `requires`, except where
  the inputs that reach it are ordinary inputs of the operation (as in
  FASTA's indexed Get), where it becomes a panic outcome.
- Where a comment states an intent that the code does not meet, the code is
  modelled as written under an `AsWritten` name, and the intended behaviour
  is modelled beside it and used by the rest of the model (see Findings).

## Model

| member | source | states |
|---|---|---|
| Circular.NextExp2AsWrittenInRange | circular/circular.go:5-10 | for 1 <= x < 2^62 the source's `2 << (63 - LeadingZeros64(x))` is a power of two with x < r <= 2x, and equals the corrected NextExp2 |
| Circular.NextExp2AsWrittenAtZero | circular/circular.go:7-10 | as written, NextExp2(0) is 0: the shift count wraps to 2^32-1 and the result is not greater than x |
| Circular.NextExp2 | circular/circular.go:5-6 | the documented intent: a power of two strictly greater than x, and the least one (r == 1 or r/2 <= x) |
| Circular.NextExp2OfPow2 | circular/circular.go:7-10 | NextExp2(2^k) == 2^(k+1) |
| Coords.SortableRefId | biopb/coord.go:37-43 | the unmapped id -1 maps to MaxInt32; every other id maps to itself |
| Coords.CompareIsKeyOrder | biopb/coord.go:45-57 | the sign of Compare is the lexicographic order of (sortable ref id, pos, seq), in all three directions |
| Coords.CompareAntisymmetric | biopb/coord.go:45-57 | swapping the arguments flips the sign of Compare |
| Coords.CompareTransitive | biopb/coord.go:45-57 | Compare <= 0 is transitive, strictly when either step is strict |
| Coords.UnmappedSortsLast | biopb/coord.go:37-43 | every mapped reference id (0..LimitValidRefID) sorts before the unmapped id |
| Coords.CompareZeroIffEqual | biopb/coord.go:45-82 | for ref ids other than MaxInt32, Compare is zero iff EQ holds |
| Coords.CompareAsWrittenWraps | biopb/coord.go:53-55 | the int32 subtraction as written makes (0, InfinityPos) compare below (0, -1) |
| Coords.CompareAsWrittenAgrees | biopb/coord.go:45-57 | when no difference leaves the int32 range, the source's Compare equals the intended one |
| Coords.ComparisonsConsistent | biopb/coord.go:59-82 | LT/LE/GE/GT are converses and complements of each other, and EQ implies LE and GE |
| Coords.MinCoord | biopb/coord.go:84-90 | Min returns one of its arguments, and it is LE both |
| Coords.IntersectsSymmetric | biopb/coord.go:97-100 | Intersects is symmetric |
| Coords.IntersectsIffCommonCoord | biopb/coord.go:97-106 | two nonempty half-open ranges intersect iff some coordinate is contained in both |
| Coords.IntersectsEmptyRange | biopb/coord.go:97-100 | for every s and r: the empty range [s, s) holds no coordinate, yet it intersects r exactly when s lies strictly between r's endpoints, so Intersects does not mean a nonempty intersection for empty ranges |
| Coords.ContainsRangeTransfers | biopb/coord.go:102-110 | if r contains range a, r contains every coordinate a contains |
| Coords.ContainsRangePreorder | biopb/coord.go:107-110 | ContainsRange is reflexive and transitive |
| CountGeneric.CountInBounds | biosimd/count_generic.go:16-25 | with a 0/1 table the count over [lo, hi) lies between 0 and hi - lo |
| CountGeneric.CountInSplit | biosimd/count_generic.go:30-44 | counts over adjacent position ranges add up |
| CountGeneric.ByteCount | biosimd/count_generic.go:39 | the byte-wide sum of the two nibble entries of a 0/1 table is their integer sum |
| CountGeneric.PackedSeqCount | biosimd/count_generic.go:26-45 | 0 when endPos <= startPos; otherwise the number of positions in [startPos, endPos) whose nibble (high at even, low at odd positions) is in the set |
| CountGeneric.PackedSeqCountTwo | biosimd/count_generic.go:57-83 | the pair equals the two separate counts of PackedSeqCount, and (0, 0) for an empty range |
| RevcompGeneric.RevComp8 | biosimd/revcomp_generic.go:13-29 | the table yields a capital ACGT or 'N', and 'N' exactly for bytes that are not an upper- or lower-case ACGT letter |
| RevcompGeneric.RevComp4IsBitReversal | biosimd/revcomp_generic.go:87 | revComp4Table reverses the four bits of a code, so it is an involution |
| RevcompGeneric.ReverseComp4Of | biosimd/revcomp_generic.go:152-157 | the reference reverse complement of 4-bit codes keeps the length and stays within 4-bit codes |
| RevcompGeneric.ReverseComp8Twice | biosimd/revcomp_generic.go:54-66 | two ASCII reverse complements clean the sequence (ACGT letters upper-cased, everything else 'N') |
| RevcompGeneric.ReverseComp4Twice | biosimd/revcomp_generic.go:152-157 | the 4-bit reverse complement is an involution |
| RevcompGeneric.ReverseComp8Inplace | biosimd/revcomp_generic.go:43-66 | the array becomes out[i] = comp(in[n-1-i]); the middle byte of an odd length is complemented too |
| RevcompGeneric.ReverseComp8NoValidate | biosimd/revcomp_generic.go:77-85 | panics (ok false, dst untouched) iff the lengths differ; otherwise dst is the reverse complement of src |
| RevcompGeneric.ReverseComp4Inplace | biosimd/revcomp_generic.go:105-131 | the array becomes the 4-bit reverse complement of its old contents |
| RevcompGeneric.ReverseComp4Unsafe | biosimd/revcomp_generic.go:152-157 | the first len(src) bytes of dst hold the reverse complement and the rest of dst is unchanged |
| RevcompGeneric.ReverseComp4 | biosimd/revcomp_generic.go:166-174 | panics (ok false, dst untouched) iff the lengths differ; otherwise dst is the reverse complement of src |
| RevcompGeneric.InplaceAgreesWithCopy | biosimd/revcomp_generic.go:122-174 | reverse-complementing a copy in place gives the same bytes as ReverseComp4 into a fresh buffer |
| BiosimdGeneric.Nibble | biosimd/biosimd_generic.go:82-84 | the value at position p is a 4-bit code (high nibble at even, low nibble at odd positions) |
| BiosimdGeneric.UnpackAfterPack | biosimd/biosimd_generic.go:142-166 | packing then unpacking is the identity on sequences of 4-bit values |
| BiosimdGeneric.NibblePair | biosimd/biosimd_generic.go:157 | a packed byte's high and low nibbles give back the two codes |
| BiosimdGeneric.PackedOddLowNibbleZero | biosimd/biosimd_generic.go:160-165 | on an odd length the low nibble of the last packed byte is zero |
| BiosimdGeneric.PackAfterUnpack | biosimd/biosimd_generic.go:82-166 | unpacking then packing gives back the bytes when an odd count leaves the unused low nibble zero |
| BiosimdGeneric.UnpackSeq | biosimd/biosimd_generic.go:82-106 | panics (ok false, dst untouched) unless len(src) == (len(dst)+1)/2; otherwise dst[2i] = src[i]>>4 and dst[2i+1] = src[i]&15 |
| BiosimdGeneric.PackSeq | biosimd/biosimd_generic.go:142-166 | panics unless len(dst) == (len(src)+1)/2; otherwise dst is the reference packing |
| BiosimdGeneric.UnpackAndReplaceSeq | biosimd/biosimd_generic.go:208-233 | panics on the same length mismatch as UnpackSeq; otherwise dst[p] = table[nibble p] |
| BiosimdGeneric.UnpackFullBytes | biosimd/biosimd_generic.go:260-264 | the loop over whole source bytes: dst[2i + startPosOdd] and the next cell get the looked-up high and low nibbles of byte startOffset + i, so every cell before 2n + startPosOdd holds table[nibble at startPos + k] |
| BiosimdGeneric.UnpackAndReplaceSeqSubset | biosimd/biosimd_generic.go:235-269 | panics unless 0 <= startPos, endPos <= 2*len(src) and len(dst) == endPos-startPos; otherwise dst[k] = table[nibble startPos+k] |
| BiosimdGeneric.CleanByte | biosimd/biosimd_generic.go:271-288 | the cleaning table yields capital ACGT or 'N', fixes capital ACGT, and gives 'N' exactly for non-ACGT letters |
| BiosimdGeneric.CleanByteNoCapitalize | biosimd/biosimd_generic.go:297-314 | ACGT letters of either case are kept, everything else becomes 'N' |
| BiosimdGeneric.CleanAgreesUpToCase | biosimd/biosimd_generic.go:289-320 | both cleaning tables agree once capitalised, and cleaning is idempotent |
| BiosimdGeneric.CleanASCIISeqInplace | biosimd/biosimd_generic.go:289-295 | every byte of the array is replaced by its cleaned value |
| BiosimdGeneric.CleanASCIISeqNoCapitalizeInplace | biosimd/biosimd_generic.go:315-320 | every byte is replaced by its non-capitalising cleaned value |
| BiosimdGeneric.IsNonACGTPresent | biosimd/biosimd_generic.go:340-349 | true iff some byte is not a capital A, C, G or T |
| BiosimdGeneric.IsNonACGTNPresent | biosimd/biosimd_generic.go:369-378 | true iff some byte is not a capital A, C, G, T or N |
| BiosimdGeneric.CleanedHasOnlyACGTN | biosimd/biosimd_generic.go:289-295 | a cleaned sequence has no byte outside ACGTN |
| BiosimdGeneric.Seq8Code | biosimd/biosimd_generic.go:380-397 | seq8 codes are 1/2/4/8 for ACGT in either case and 15 exactly for every other byte |
| BiosimdGeneric.Seq8IgnoresCleaning | biosimd/biosimd_generic.go:380-410 | cleaning before the seq8 conversion changes nothing |
| BiosimdGeneric.ASCIIToSeq8Inplace | biosimd/biosimd_generic.go:398-410 | every byte of the array is replaced by its seq8 code |
| BiosimdGeneric.ASCIIToSeq8 | biosimd/biosimd_generic.go:412-430 | panics unless the lengths match; otherwise dst[i] is the seq8 code of src[i] |
| BiosimdGeneric.TwoBitCode | biosimd/biosimd_generic.go:428-444 | every 2-bit table entry is below 4 |
| BiosimdGeneric.TwoBitCodeOfBases | biosimd/biosimd_generic.go:428-453 | A, C, G, T in either case encode as 0, 1, 2, 3 |
| BiosimdGeneric.TwoBitDecode | biosimd/biosimd_generic.go:454-486 | every position reads back from bits 2(p%4) of output byte p/4, and bit pairs past the input are zero |
| BiosimdGeneric.ASCIITo2bit | biosimd/biosimd_generic.go:454-486 | panics unless len(dst) == (len(src)+3)/4; otherwise dst[j] packs positions 4j..4j+3 lowest bits first, zero past the end |
| CircularBitmap.FirstNonzero | circular/bitmap.go:138-146 | simd.FirstGreater8Unsafe: the first index in [lo, hi) with a nonzero byte, or hi, with all bytes before it zero |
| CircularBitmap.IndexNonzeroRev | circular/bitmap.go:14-43 | corrected: the result lies in [stop, start], is stop or an occupied slot, and every position in (result, start] is empty |
| CircularBitmap.IndexNonzeroRevAsWrittenOvershoots | circular/bitmap.go:27-42 | as written (circPause stays 0 after a wrap), a search from 9 down to 6 over 8 slots returns 3, below stop |
| CircularBitmap.Bit | circular/bitmap.go:116 | `uintptr(1) << k` is a nonzero word for 0 <= k < 64 |
| CircularBitmap.BitDoubles | circular/bitmap.go:154 | Bit(0) is 1 and each entry is the previous one shifted left by one |
| CircularBitmap.SetBit | circular/bitmap.go:111-117 | setting bit k gives a nonzero word with bit k set |
| CircularBitmap.ClearBit | circular/bitmap.go:149-155 | clearing bit k gives a word with bit k clear |
| CircularBitmap.CountNonzeroUpdate | circular/bitmap.go:113-120 | replacing one word changes the row's nonzero count only by that word's change |
| CircularBitmap.FirstNonemptyPosSpec | circular/bitmap.go:129-147 | firstNonemptyPos returns a position in [pos, stopPos], occupied unless it is stopPos, with every earlier position empty |
| CircularBitmap.SetKeepsWindow | circular/bitmap.go:111-127 | occupying the row of pos widens the window to [min(first, pos), max(last, pos)] and keeps the window invariant |
| CircularBitmap.ClearOnlyRow | circular/bitmap.go:159-164 | emptying the only occupied row restores the empty sentinels (FirstPosEmpty, -1) |
| CircularBitmap.ClearFirstRow | circular/bitmap.go:159-167 | emptying the first row moves firstPos to the next occupied position and keeps the window invariant |
| CircularBitmap.ClearLastRow | circular/bitmap.go:168-170 | emptying the last row moves lastPos back to the previous occupied position |
| CircularBitmap.ClearInnerRow | circular/bitmap.go:156-172 | emptying a row strictly inside the window leaves firstPos and lastPos valid |
| CircularBitmap.PopAfterSet | circular/bitmap.go:117-120 | the row count after Set is the number of nonzero words of the new row, and it is positive |
| CircularBitmap.AdvanceFirst | circular/bitmap.go:159-167 | once the first row is emptied the window moves to the next occupied position, or to the empty sentinels when first == last |
| CircularBitmap.RetreatLast | circular/bitmap.go:168-170 | once the last row is emptied, lastPos moves back within [first, last) and the window invariant holds |
| CircularBitmap.Bitmap.NewBitmap | circular/bitmap.go:72-92 | panics (null) unless rowWidth <= 255 and nCirc is a power of two; otherwise an empty bitmap with all bits zero |
| CircularBitmap.Bitmap.Set | circular/bitmap.go:111-127 | sets the bit, changes no other word, keeps wordPops in sync and moves firstPos/lastPos to min/max with pos |
| CircularBitmap.Bitmap.Clear | circular/bitmap.go:149-172 | corrected: clears the bit, changes no other word, keeps wordPops in sync (the count drops only when a nonzero word becomes zero) and keeps the window invariant |
| CircularBitmap.ClearAsWritten | circular/bitmap.go:149-172 | as written: clears the bit and changes no other word; the row count drops (mod 256) whenever the cleared word is zero, even if it was zero before; when the count reaches zero at firstPos the window advances as AdvanceFirst says, at lastPos lastPos retreats within the window, and otherwise the window is unchanged |
| CircularBitmap.WindowAfterClear | circular/bitmap.go:159-171 | a zero count at firstPos advances the window (AdvanceFirst), at lastPos it retreats lastPos to an earlier position that keeps the window invariant, and any other case leaves the window as it was |
| CircularBitmap.ClearAsWrittenOnFreshBitmap | circular/bitmap.go:151-158 | clearing an already-clear bit on a fresh bitmap makes the row count 255, out of sync with the row |
| CircularBitmap.Bitmap.NewRowScanner | circular/bitmap.go:174-194 | panics iff the bitmap is empty; otherwise returns the first row and its positive count, zeroes that count and advances firstPos |
| CircularBitmap.Bitmap.FinishRowScan | circular/bitmap.go:174-177 | scanning the row to the end zeroes its words, leaving the other rows alone and restoring the invariant |
| CircularBitmap.Bitmap.CheckPanic | circular/bitmap.go:196-246 | passes iff the sentinels go together, first <= last < first + nCirc - 1, the first and last rows are occupied and every row count matches its row |
| EndpointIndexes.SearchPosTypes | interval/endpoint_index.go:57-62 | sort.Search: an index <= len(a) with every earlier value below x and the value at it (if any) at least x |
| EndpointIndexes.SearchIsInsertionPoint | interval/endpoint_index.go:57-62 | on sorted endpoints every value from the answer on is at least x |
| EndpointIndexes.SearchMonotone | interval/endpoint_index.go:57-62 | on sorted endpoints a larger target never gives a smaller answer |
| EndpointIndexes.SearchUnique | interval/endpoint_index.go:57-62 | any index meeting the insertion-point conditions is the answer |
| EndpointIndexes.ExpsearchPosType | interval/endpoint_index.go:64-97 | on sorted endpoints the exponential search equals SearchPosTypes whenever idx is at most that answer; past the end it returns idx |
| EndpointIndexes.Begin | interval/endpoint_index.go:121-127 | clears the low bit: ei - 1 when contained (odd), ei otherwise |
| EndpointIndexes.ContainedIffInUnion | interval/endpoint_index.go:99-114 | for a well-formed union and pos < PosTypeMax, the index of pos is odd iff pos lies in one of the intervals |
| EndpointIndexes.BeginIsIntervalStart | interval/endpoint_index.go:121-127 | for a contained position, Begin indexes the start of the interval enclosing it |
| EndpointIndexes.Update | interval/endpoint_index.go:129-135 | for a position not below the old one, Update gives the same index as NewEndpointIndex |
| EndpointIndexes.GapNotInUnion | interval/endpoint_index.go:8-19 | positions between the end of one interval and the start of the next are not in the union |
| EndpointIndexes.UnionScanner.constructor | interval/endpoint_index.go:147-161 | positioned at the first endpoint with index 1, or at PosTypeMax with index 0 when there are no intervals |
| EndpointIndexes.UnionScanner.IndexIsEndpointIndex | interval/endpoint_index.go:137-140 | the documented invariant: endpointIdx == SearchPosTypes(endpoints, pos+1) |
| EndpointIndexes.UnionScanner.Pos | interval/endpoint_index.go:163-167 | the next position is PosTypeMax or lies inside the union |
| EndpointIndexes.UnionScanner.Scan | interval/endpoint_index.go:169-196 | false (nothing changes) iff pos >= limit; otherwise [start, end) starts at the old pos, lies in the union below limit, the positions skipped up to the new pos are outside the union, and the scan resumes there |
| BedUnions.TokenLen | interval/bedunion.go:52-57 | the length of the leading run of non-delimiter bytes (bytes above ' '), ending at a delimiter or the end |
| BedUnions.FieldsOfJoin | interval/bedunion.go:28-61 | splitting tokens joined by single spaces gives back the tokens |
| BedUnions.SkipDelims | interval/bedunion.go:43-48 | skips delimiters without changing the remaining fields |
| BedUnions.TokenEnd | interval/bedunion.go:52-58 | the maximal run starting at pos is the next field |
| BedUnions.GetTokens | interval/bedunion.go:28-61 | fills the first min(capacity, #fields) slots with the fields in order, returns that count and leaves other slots alone |
| BedUnions.IndexByte | interval/bedunion.go:485 | strings.IndexByte: the first index holding c, or -1 when there is none |
| Decimals.Atoi | interval/bedunion.go:517-527 | strconv.Atoi accepts an optionally signed decimal within int64 |
| Decimals.ParseInt32 | interval/bedunion.go:503 | strconv.ParseInt(s, 10, 32) accepts an optionally signed decimal within int32 |
| Decimals.DigitsValueOfNatStr | interval/bedunion.go:503-527 | decimal parsing inverts decimal rendering |
| BedUnions.ParseRange | interval/bedunion.go:498-537 | a successful parse keeps the contig and gives 0 <= start0 < end <= PosTypeMax |
| BedUnions.ParsePos | interval/bedunion.go:499-512 | "pos" gives the single base [pos-1, pos) |
| BedUnions.ParseFirstLast | interval/bedunion.go:514-537 | "first-last" gives 0 <= start0 < end < PosTypeMax; as written the range has at least two bases |
| BedUnions.ParseRegionString | interval/bedunion.go:474-538 | corrected: a successful parse has a nonempty contig without ':' and 0 <= start0 < end <= PosTypeMax |
| BedUnions.RangeOfPos | interval/bedunion.go:498-512 | "pos" with 1 <= pos <= MaxInt32 parses to [pos-1, pos) |
| BedUnions.RangeOfFirstLast | interval/bedunion.go:498-537 | a rangeStr with a dash goes to the first-last parser |
| BedUnions.ParseRegionStringExamplePos | interval/bedunion.go:474-479 | "chr1:1000" is [999, 1000) |
| BedUnions.ParseRegionStringExampleRange | interval/bedunion.go:474-479 | "chr1:1-1000" is [0, 1000) |
| BedUnions.ParseRegionStringExampleContig | interval/bedunion.go:480-495 | "chr1" is [0, PosTypeMax-1); "" and ":5" are errors |
| BedUnions.EmptyContigIsError | interval/bedunion.go:492-495 | a leading ':' (empty contig name) is an error |
| BedUnions.ParseRegionStringRange | interval/bedunion.go:474-538 | round trip: "contig:first-last" parses to [first-1, last) for 1 <= first <= last |
| BedUnions.ParseRegionStringPos | interval/bedunion.go:474-512 | round trip: "contig:pos" parses to [pos-1, pos) |
| BedUnions.ParseRegionStringAsWrittenRejectsSingleBase | interval/bedunion.go:528-534 | as written, "chr1:5-5" is refused by the `end0 <= start1` test while "chr1:5" names the same base; the corrected parser gives [4, 5) |
| BedUnions.SingleBaseRange | interval/bedunion.go:514-537 | "chr1:5-5" is an error with the single-base rejection and [4, 5) without it |
| BedUnions.ParseRegionStringExtendsAsWritten | interval/bedunion.go:474-538 | wherever the source accepts a region, the corrected parser gives the same entry |
| BedUnions.InUnionAppend | interval/bedunion.go:590-597 | appending the pair [s, e) adds exactly the positions s..e-1 |
| BedUnions.ExactOther | interval/bedunion.go:547-608 | an entry on another chromosome changes nothing for c |
| BedUnions.ExactAdd | interval/bedunion.go:587-607 | an entry on c adds exactly its own positions |
| BedUnions.ExactFresh | interval/bedunion.go:569-585 | the first nonempty entry of a chromosome covers exactly its positions |
| BedUnions.ExactDisjoint | interval/bedunion.go:590-597 | an entry starting after the pending interval is appended as a new interval |
| BedUnions.ExactOverlap | interval/bedunion.go:598-607 | an entry overlapping or touching the pending interval extends it |
| BedUnions.CloseList | interval/bedunion.go:609-616 | closing a list appends the pending interval (if any) and PosTypeMax under Invert |
| BedUnions.NewNameMapFromEntries | interval/bedunion.go:542-617 | on success each chromosome's list is merged, sorted, bracketed by -1/PosTypeMax under Invert, and covers exactly its entries' positions; well-formed input always succeeds |
| BedUnions.WrapIsUnion | interval/bedunion.go:574-577 | bracketing a merged list with -1 and PosTypeMax keeps it a union within [-1, PosTypeMax] |
| BedUnions.SearchShift | interval/bedunion.go:574-577 | under Invert a search lands one slot further than in the unbracketed list |
| BedUnions.InvertComplement | interval/bedunion.go:574-577 | the bracketed list holds exactly the positions in [-1, PosTypeMax) the body does not |
| BedUnions.BuiltListMembership | interval/bedunion.go:542-622 | a position of a named chromosome is in its list iff some entry covers it, negated under Invert |
| BedUnions.InvertedListHoldsMinusOne | interval/bedunion.go:574-577 | under Invert the list of a named chromosome also holds position -1 |
| BedUnions.NameToIdData | interval/bedunion.go:273-290 | one list per header reference in header order: the chromosome's list, [-1, PosTypeMax] under Invert when absent, else none |
| BedUnions.IdListMembership | interval/bedunion.go:273-290 | a position of a header chromosome is in its ID-indexed list iff covered by an entry, negated under Invert |
| BedUnions.BuiltListsAreUnions | interval/bedunion.go:273-290 | every ID-indexed list is a union |
| BedUnions.InListIffInUnion | interval/bedunion.go:160-195 | the odd-index answer of a spot query is membership in the union below PosTypeMax, and false at PosTypeMax (pos+1 wraps) |
| BedUnions.StartChrSearch | interval/bedunion.go:236-250 | no union position lies between startPos and the endpoint the search finds |
| BedUnions.FirstEndpointIsLeast | interval/bedunion.go:260-262 | the first endpoint of a nonempty union is its least position |
| BedUnions.BEDUnion.constructor | interval/bedunion.go:266-271 | a fresh union with the given maps and an empty search cache |
| BedUnions.BEDUnion.Clone | interval/bedunion.go:624-633 | shares the lists and starts a fresh search cache |
| BedUnions.BEDUnion.ContainsCached | interval/bedunion.go:214-225 | the cached-chromosome spot query: the odd-index answer, keeping the cache invariant, sequential or not |
| BedUnions.BEDUnion.ContainsByID | interval/bedunion.go:160-195 | for a nonnegative ID the answer is membership of pos in that reference's list; the cache follows chrID |
| BedUnions.BEDUnion.ContainsByName | interval/bedunion.go:197-225 | for a nonempty name the answer is membership of pos in that chromosome's list; an empty name answers for the cached list |
| BedUnions.BEDUnion.IntersectsAsWritten | interval/bedunion.go:228-264 | as written: panics on inverted regions and when the limit list is present but empty; a present list strictly between counts as a hit even if empty |
| BedUnions.BEDUnion.Intersects | interval/bedunion.go:228-264 | corrected: panics exactly on inverted regions; otherwise true iff some position of the region lies in a list |
| BedUnions.OnlyEmptyEntriesGiveEmptyList | interval/bedunion.go:574-589 | a chromosome mentioned only by empty entries gets a present but empty list |
| BedUnions.NewBEDUnionFromEntries | interval/bedunion.go:540-622 | on success a valid union built from the entries, with an ID table per header reference; well-formed input succeeds |
| BedUnions.EmptyMiddleWellFormed | interval/bedunion.go:540-622 | the three-chromosome example with an empty middle entry is accepted input |
| BedUnions.EmptyMiddleKeys | interval/bedunion.go:558-617 | all three chromosomes get lists, the middle one empty |
| BedUnions.EmptyMiddleRegion | interval/bedunion.go:228-264 | the region chr1:20 to chr3:0 of the example contains no position, though a list lies between |
| BedUnions.IntersectsEmptyListExample | interval/bedunion.go:255-262 | on the example, Intersects as written answers true and the corrected one false |
| BamShard.Shard.PadStart | encoding/bam/shard.go:91-94 | the padded start is max(0, Start - padding): never negative, never below Start - padding, and one of the two |
| BamShard.Shard.PadEnd | encoding/bam/shard.go:102-114 | 0 for a shard ending at <EndRef, 0, 0>; otherwise End + padding capped by the end reference's length, or by MaxInt32 for the unmapped end |
| BamShard.NewCoord | encoding/bam/shard.go:266-276 | an int32 coordinate with the reference's id, the given seq, the position, and position 0 for an unmapped read with a negative position |
| BamShard.NewCoordMonotonic | encoding/bam/shard.go:266-276 | on one reference, a larger position never gives a smaller coordinate |
| BamShard.CoordInShardIsRangeMembership | encoding/bam/shard.go:140-150 | CoordInShard holds iff the padded start coordinate is at most the coordinate and the coordinate is below the padded end coordinate |
| BamShard.PaddingWidens | encoding/bam/shard.go:55-59 | a coordinate in the shard with padding p stays in it with any larger padding |
| BamShard.ZeroEndExcludesEndRef | encoding/bam/shard.go:104-108 | a shard ending at <EndRef, 0, 0> contains no position of EndRef |
| BamShard.GenerateIncreases | encoding/bam/shard.go:223-250 | every coordinate Generate hands out is strictly greater than the previous one |
| BamShard.GenerateRepeatBumpsSeq | encoding/bam/shard.go:237-246 | a repeated (ref, pos) keeps the coordinate and increments Seq |
| BamShard.GenerateNewOrPanic | encoding/bam/shard.go:234-248 | a larger (ref, pos) restarts Seq at 0; a smaller one, a refID below -1 or a negative pos panics |
| BamShard.GenerateUnmappedAtZero | encoding/bam/shard.go:228-233 | unmapped reads are placed at position 0 |
| BamShard.CoordGenerator.constructor | encoding/bam/shard.go:218-221 | a fresh generator starts at <0, -1, 0> |
| BamShard.CoordGenerator.Generate | encoding/bam/shard.go:227-250 | the result is GenerateNext of the previous coordinate; on success it becomes LastRec and is strictly greater than the old one |
| BamShard.RefTilesShape | encoding/bam/shard.go:315-329 | one reference's shards are nonempty, at most shardSize long, abut, start at 0, end at the reference's length and are numbered consecutively |
| BamShard.RefTilesCover | encoding/bam/shard.go:315-329 | every position of the reference lies in a shard, and the shards do not overlap |
| BamShard.AllTilesNumbered | encoding/bam/shard.go:311-330 | ShardIdx is the shard's position in the list, 0, 1, 2, … |
| BamShard.TileReference | encoding/bam/shard.go:315-329 | the inner loop appends exactly that reference's shards, numbered on from the list |
| BamShard.GetPositionBasedShards | encoding/bam/shard.go:311-343 | the result is the tiling of every reference plus, when asked, the unmapped shard; None exactly when ValidateShardList would panic |
| BamShard.ValidateShardList | encoding/bam/shard.go:571-587 | true iff no shard is inverted, every start exceeds the previous start and every padding is nonnegative |
| BamShard.PositionShardsValid | encoding/bam/shard.go:311-343 | for a header with increasing int32 reference ids and int32 lengths and a nonnegative padding, the list passes ValidateShardList |
| BamShard.NegativePaddingRefused | encoding/bam/shard.go:583-585 | a negative padding makes the list fail validation as soon as a reference is nonempty |
| GIndexes.ComparePosIsPosOrder | encoding/bam/gindex.go:164-185 | comparePos is negative, zero or positive exactly as the entries compare in the order (mapped before unmapped, then RefID, Pos, Seq) |
| GIndexes.ComparePosTransitive | encoding/bam/gindex.go:164-185 | comparePos is a transitive strict order |
| GIndexes.CompareFilePosOrders | encoding/bam/gindex.go:187-189 | for voffsets below 2^63 compareFilePos orders entries by voffset |
| GIndexes.ToBGZFOffset | encoding/bam/gindex.go:123-126 | the file part is below 2^48 and the block part below 2^16 |
| GIndexes.ToVOffset | encoding/bam/gindex.go:128-131 | the result is a uint64 |
| GIndexes.VOffsetRoundTrip | encoding/bam/gindex.go:123-131 | toVOffset(ToBGZFOffset(v)) == v for every uint64 v |
| GIndexes.OffsetRoundTrip | encoding/bam/gindex.go:123-131 | ToBGZFOffset(toVOffset(o)) == o for file offsets below 2^48 |
| GIndexes.ToVOffsetMonotonic | encoding/bam/gindex.go:128-131 | voffsets order like (file, block) pairs |
| GIndexes.SearchGE | encoding/bam/gindex.go:98-101 | the first index whose entry is at or after the target: every earlier entry is before it |
| GIndexes.RecordOffset | encoding/bam/gindex.go:94-116 | fails (the source's panic) exactly for an empty index |
| GIndexes.RecordOffsetIsFloor | encoding/bam/gindex.go:88-116 | on a sorted index the result is the voffset of the last entry at or before the target, or of the first entry when every entry is after it |
| GIndexes.UnmappedOffset | encoding/bam/gindex.go:118-121 | fails exactly for an empty index |
| GIndexes.EntryRoundTrip | encoding/bam/gindex.go:156-158 | reading back the 20 little-endian bytes written for a valid entry gives the entry |
| GIndexes.DecodeAllEncodeAll | encoding/bam/gindex.go:156-158 | the bytes of a written entry list decode to the same list |
| GIndexes.InOrderSorted | encoding/bam/gindex.go:316-327 | the reader's checks on consecutive entries make the whole index strictly increasing in position |
| GIndexes.ReadGIndex | encoding/bam/gindex.go:289-333 | succeeds exactly when the data starts with the gbai magic, the rest is whole 20-byte entries and each entry is after its predecessor in position and voffset; then returns the decoded entries |
| GIndexes.ReadWrittenIndex | encoding/bam/gindex.go:145-158 | the magic followed by the entries written for an increasing valid list is accepted and reads back as that list |
| GIndexes.ReadEntries | encoding/bam/gindex.go:300-332 | the entry loop accepts exactly a body of whole entries in strictly increasing position and voffset order, and returns their decoding |
| BamIndexes.ToOffset | encoding/bam/index.go:193-198 | toOffset yields a 48-bit file offset and a 16-bit block offset |
| BamIndexes.FromToOffset | encoding/bam/index.go:193-202 | fromOffset(toOffset(v)) == v for every uint64 v |
| BamIndexes.ToFromOffset | encoding/bam/index.go:193-202 | toOffset(fromOffset(o)) == o for every offset with a 48-bit file part and 16-bit block part |
| BamIndexes.ShiftWraps | encoding/bam/index.go:200-202 | for a 48-bit file offset the int64 shift by 16 and the uint64 conversion do not wrap |
| BamIndexes.ParseChunks | encoding/bam/index.go:88-102 | the chunk loop succeeds exactly when 16 bytes per chunk remain, and then yields that many chunks |
| BamIndexes.ParseIntervals | encoding/bam/index.go:120-132 | the interval loop succeeds exactly when 8 bytes per interval remain, and then yields that many offsets |
| BamIndexes.ParseBin | encoding/bam/index.go:73-102 | a parsed bin ends after its 8-byte header and inside the data |
| BamIndexes.ParseBins | encoding/bam/index.go:73-118 | a parsed run of bins ends inside the data |
| BamIndexes.ParseRef | encoding/bam/index.go:64-134 | a parsed reference consumes at least one byte and ends inside the data |
| BamIndexes.ParseRefs | encoding/bam/index.go:61-134 | k parsed references are k values, ending inside the data |
| BamIndexes.BinsNoneStays | encoding/bam/index.go:73-118 | once a bin cannot be read, no longer run of bins can |
| BamIndexes.NoneStays | encoding/bam/index.go:64-134 | once a reference cannot be read, no longer run of references can |
| BamIndexes.ParsedBinOffsets | encoding/bam/index.go:89-102 | every chunk of a parsed bin holds offsets toOffset can produce |
| BamIndexes.ParsedBinsShape | encoding/bam/index.go:104-117 | the metadata pseudo-bin 37450 never lands among a reference's bins, and all chunk offsets come from toOffset |
| BamIndexes.ParsedRefShape | encoding/bam/index.go:64-134 | a parsed reference has no metadata bin among its bins and only split voffsets |
| BamIndexes.ParsedRefsShape | encoding/bam/index.go:64-134 | every parsed reference has that shape |
| BamIndexes.ParsedIndexShape | encoding/bam/index.go:47-143 | a parsed index has as many references as the header's count, each without a metadata bin among its bins |
| BamIndexes.ReadChunks | encoding/bam/index.go:88-102 | the chunk loop fails exactly when ParseChunks does, and otherwise returns its chunks |
| BamIndexes.ReadIntervals | encoding/bam/index.go:120-132 | the interval loop fails exactly when ParseIntervals does, and otherwise returns its offsets |
| BamIndexes.ReadBin | encoding/bam/index.go:74-102 | reading one bin fails exactly when ParseBin does, and otherwise returns it |
| BamIndexes.ReadBins | encoding/bam/index.go:73-118 | the bin loop fails exactly when ParseBins does (short data, negative count, metadata bin without 2 chunks) and otherwise returns its bins and metadata |
| BamIndexes.ReadReference | encoding/bam/index.go:65-133 | reading one reference fails exactly when ParseRef does, and otherwise returns it |
| BamIndexes.ReadRefs | encoding/bam/index.go:64-134 | the reference loop fails exactly when ParseRefs does, and otherwise returns its references |
| BamIndexes.ReadIndex | encoding/bam/index.go:47-143 | ReadIndex fails exactly when ParseIndex does (bad magic, short data, negative counts, a bad metadata bin, 1 to 7 trailing bytes) and otherwise returns its index, with no unmapped count when the data ends after the references |
| BamIndexOffsets.NonzeroOfMembers | encoding/bam/index.go:163-167 | the interval loop keeps exactly the non-zero offsets |
| BamIndexOffsets.ChunkBeginsMembers | encoding/bam/index.go:157-161 | the chunk loop keeps exactly the non-zero chunk begins |
| BamIndexOffsets.BinBeginsMembers | encoding/bam/index.go:156-162 | the bin loop keeps exactly the non-zero chunk begins of all bins |
| BamIndexOffsets.CandidatesMembers | encoding/bam/index.go:155-167 | the collected offsets are exactly the non-zero chunk begins and interval offsets |
| BamIndexOffsets.Insert | encoding/bam/index.go:170-177 | inserting adds exactly one element to the multiset |
| BamIndexOffsets.InsertSorted | encoding/bam/index.go:170-177 | inserting into a sorted list keeps it sorted |
| BamIndexOffsets.Sort | encoding/bam/index.go:170-177 | the sort is a permutation |
| BamIndexOffsets.SortSorted | encoding/bam/index.go:170-177 | the sort orders by file offset, then block offset |
| BamIndexOffsets.AppendBegins | encoding/bam/index.go:157-161 | the chunk loop appends exactly the non-zero chunk begins |
| BamIndexOffsets.AppendNonzero | encoding/bam/index.go:163-167 | the interval loop appends exactly the non-zero interval offsets |
| BamIndexOffsets.Collect | encoding/bam/index.go:155-167 | the collection loops produce the candidates in loop order |
| BamIndexOffsets.Unique | encoding/bam/index.go:179-188 | over a sorted list the uniq loop yields a strictly increasing list of the same offsets, less (-1, 0) when that comes first |
| BamIndexOffsets.RefOffsets | encoding/bam/index.go:153-188 | one reference's offsets are strictly increasing and are exactly its kept candidates |
| BamIndexOffsets.AllOffsets | encoding/bam/index.go:150-191 | there is an entry for every reference ID and no other, each strictly increasing and holding exactly that reference's kept candidates |
| BamIndexOffsets.KeptOfParsed | encoding/bam/index.go:145-191 | for a reference read from a file, AllOffsets keeps exactly its non-zero chunk begins and interval offsets |
| BamRecords.AlignOffsetRoundsUp | encoding/bam/unmarshal.go:57-62 | alignOffset gives a multiple of 8 no smaller than a positive offset and less than 8 past it; 0 goes to 8 |
| BamRecords.ScanNulFirst | encoding/bam/unmarshal.go:93-101 | the NUL scan stops at the first zero byte, or at the last byte when there is none |
| BamRecords.AdvanceAgrees | encoding/bam/unmarshal.go:86-113 | the as-written field advance and the corrected one agree on every field except a B array whose element type is Z, H or B (size -1 in the jumps table); an element type outside the table (size 0) agrees |
| BamRecords.AsWrittenStalls | encoding/bam/unmarshal.go:105-112 | a B array of Z elements with count 8 advances by 0 as written, and is an error in the corrected walk |
| BamRecords.CountStep | encoding/bam/unmarshal.go:82-119 | the count of the walk is one plus the count after the first field, or an error when the first field's type is unknown or its B header is cut short |
| BamRecords.CountAuxFields | encoding/bam/unmarshal.go:82-119 | the loop's count or error is the recursive walk's: 3 + size for fixed types, up to the NUL and past it for Z and H, 8 + count * size for B, where an element type outside the table has size 0 and only a Z, H or B element type is an error |
| BamRecords.ZeroSizeArrayAdvances | encoding/bam/unmarshal.go:105-111 | a B array of an element type outside the table advances by count * 0 + 8 = 8, as written and corrected alike |
| BamRecords.RefPair | encoding/bam/unmarshal.go:202-218 | the lookups succeed exactly when each ID is -1 or a header reference, the mate ID being exempt when it equals the read's; -1 gives no reference |
| BamRecords.ResolveRefs | encoding/bam/unmarshal.go:202-218 | the reference checks give the references or the first range error |
| BamRecords.Assemble | encoding/bam/unmarshal.go:126-200 | the name, cigar words, doublets, qualities and aux data tile the variable part of the record, with qualities as long as the sequence |
| BamRecords.DecodeRecordOk | encoding/bam/unmarshal.go:122-220 | a record decodes exactly when it has 32 bytes, holds the lengths it declares, its aux fields walk, its name is not empty and its reference IDs are in range |
| BamRecords.DecodeRecordShape | encoding/bam/unmarshal.go:122-220 | a decoded record's parts tile its bytes, its references index the header and its aux count counts its aux data |
| BamRecords.CopyVariable | encoding/bam/unmarshal.go:160-162 | the copy places b[32:] at the start of the shadow buffer |
| BamRecords.MoveCigar | encoding/bam/unmarshal.go:173-177 | each cigar word is stored at the aligned cigar offset and nothing before it changes |
| BamRecords.ZeroRange | encoding/bam/unmarshal.go:189-193 | the aux slice headers are cleared and the bytes before them are kept |
| BamRecords.BuildShadow | encoding/bam/unmarshal.go:152-200 | the shadow buffer holds the variable data at 0 and the cigar words at the first multiple of 8 past it |
| BamRecords.ShadowRecord | encoding/bam/unmarshal.go:160-188 | the fields read back from the shadow buffer are the ones laid out in the input |
| BamRecords.Unmarshal | encoding/bam/unmarshal.go:122-220 | Unmarshal returns the decoded record or the first error, in the source's order of checks |
| BamRecords.NameLengthAsWrittenNegative | encoding/bam/unmarshal.go:166-169 | a 32-byte record with read-name length 0 passes the length checks and gets a name of length -1 as written; the corrected decoder refuses it |
| PamUtil.ShardIndexIsFieldPath | encoding/pam/pamutil/pamutil.go:44-53 | the shard index path is the data path of the field "index" |
| PamUtil.BlockIntersectsRangeIffCommon | encoding/pam/pamutil/pamutil.go:55-63 | for a nonempty block and range, the test holds exactly when some coordinate lies in the closed block and the half-open range |
| PamUtil.BlockEndpointsClosed | encoding/pam/pamutil/pamutil.go:55-63 | a block ending at the range's start meets it, a block starting at its limit does not |
| PamUtil.ValidateCoordRangeOutcome | encoding/pam/pamutil/pamutil.go:65-92 | validation accepts exactly the all-zero range and ranges of valid addresses with start < limit; an accepted range is nonempty and valid, and only the all-zero one is replaced (by the universal range) |
| PamUtil.ValidateCoordRangeIdempotent | encoding/pam/pamutil/pamutil.go:72-92 | validating an accepted range again accepts it unchanged |
| PamUtil.ValidateInPlace | encoding/pam/pamutil/pamutil.go:75-92 | the range the argument addresses becomes the validated range on success and is left alone on error |
| PamFileInfo.ParseRecAddrOf | encoding/pam/pamutil/file_info.go:61-80 | "-" parses to the infinite reference or position and a missing ":seq" to 0, so parseRecAddr inverts the texts CoordPathString writes |
| PamFileInfo.MatchBasenameOf | encoding/pam/pamutil/file_info.go:52 | the base-name pattern splits a written range and extension back into the six address texts and the extension |
| PamFileInfo.ParsePathRoundTrip | encoding/pam/pamutil/file_info.go:85-106 | ParsePath of FieldDataPath(dir, range, ext) gives back dir, the range, and the shard-index type for "index" or the field type carrying ext otherwise |
| PamFileInfo.ParsePathNeedsComma | encoding/pam/pamutil/file_info.go:88-91 | a base name without ',' does not match and is an error |
| PamFileInfo.ParsePathNeedsDot | encoding/pam/pamutil/file_info.go:88-91 | a base name without '.' does not match and is an error |
| PamFileInfo.CoordTexts | encoding/pam/pamutil/pamutil.go:20-37 | CoordPathString writes "-" or the digits of the reference and position, and ":" and the digits of the sequence number only when it is not 0 |
| Varints.UvarintBytes | encoding/pam/fieldio/bytebuffer.go:162-166 | the PutUvarint encoding: at least one byte, the last without the continuation bit and every other byte with it |
| Varints.UvarintRoundTrip | encoding/pam/fieldio/bytebuffer.go:162-166 | Uvarint reads back every 64-bit value PutUvarint wrote, and reports the encoding's length as the bytes read, whatever follows |
| Varints.UvarintBytesFit | encoding/pam/fieldio/bytebuffer.go:162-166 | PutUvarint writes at most MaxVarintLen64 bytes, so the room ensure makes is enough |
| Varints.UvarintShort | encoding/pam/fieldio/bytebuffer.go:80-88 | Uvarint reads 0 bytes exactly when the input has at most ten bytes and all of them carry the continuation bit |
| Varints.UvarintBounds | encoding/pam/fieldio/bytebuffer.go:80-88 | a successful Uvarint reads between 1 and ten bytes, all of them inside the input, and yields a 64-bit value |
| Varints.ZigZag | encoding/pam/fieldio/bytebuffer.go:156-160 | the zig-zag image of an int64 is a 64-bit unsigned value |
| Varints.UnZigZag | encoding/pam/fieldio/bytebuffer.go:48-56 | the zig-zag decoding of a 64-bit unsigned value is an int64 |
| Varints.ZigZagRoundTrip | encoding/pam/fieldio/bytebuffer.go:156-160 | zig-zag decoding inverts zig-zag encoding on every int64 |
| Varints.UnZigZagRoundTrip | encoding/pam/fieldio/bytebuffer.go:48-56 | zig-zag encoding inverts zig-zag decoding on every 64-bit unsigned value |
| Varints.Varint | encoding/pam/fieldio/bytebuffer.go:48-56 | a signed varint read that consumes bytes yields an int64 |
| Varints.VarintRoundTrip | encoding/pam/fieldio/bytebuffer.go:156-160 | Varint reads back every int64 PutVarint wrote, with the encoding's length as the bytes read, whatever follows |
| FieldBuffers.Uint16Of | encoding/pam/fieldio/bytebuffer.go:27-32 | Uint16 succeeds exactly when two bytes remain, reads a value below 2^16 and advances by 2; otherwise it panics without advancing |
| FieldBuffers.Float64Of | encoding/pam/fieldio/bytebuffer.go:34-39 | Float64 succeeds exactly when eight bytes remain, reads a 64-bit pattern and advances by 8; otherwise it panics without advancing |
| FieldBuffers.Uint8Of | encoding/pam/fieldio/bytebuffer.go:41-46 | Uint8 succeeds exactly when a byte remains, returns that byte and advances by 1 |
| FieldBuffers.Varint64Of | encoding/pam/fieldio/bytebuffer.go:48-56 | a Varint64 read advances by 1 to 10 bytes inside the input and yields an int64; an underflow panics without advancing |
| FieldBuffers.Varint32Of | encoding/pam/fieldio/bytebuffer.go:58-65 | Varint32 returns what Varint64 returns when that fits 32 bits; otherwise it panics, after the cursor has moved past the varint |
| FieldBuffers.Uvarint64Of | encoding/pam/fieldio/bytebuffer.go:80-88 | an Uvarint64 read advances by 1 to 10 bytes inside the input and yields a 64-bit value; an underflow panics without advancing |
| FieldBuffers.Uvarint32Of | encoding/pam/fieldio/bytebuffer.go:67-78 | Uvarint32 returns what Uvarint64 returns when it is at most MaxUint32; otherwise it panics, after the cursor has moved past the varint |
| FieldBuffers.RawBytesOf | encoding/pam/fieldio/bytebuffer.go:90-95 | RawBytes(m) succeeds exactly when 0 <= m <= the bytes left, and returns the next m bytes |
| FieldBuffers.Uint16ReadsPut | encoding/pam/fieldio/bytebuffer.go:142-147 | Uint16 on the bytes PutUint16 wrote gives back the value and advances by 2, whatever follows |
| FieldBuffers.Float64ReadsPut | encoding/pam/fieldio/bytebuffer.go:149-154 | Float64 on the bytes PutFloat64 wrote gives back the bit pattern and advances by 8, whatever follows |
| FieldBuffers.Varint64ReadsPut | encoding/pam/fieldio/bytebuffer.go:156-160 | Varint64 on the bytes PutVarint wrote gives back the value and advances past exactly those bytes |
| FieldBuffers.Varint32ReadsPut | encoding/pam/fieldio/bytebuffer.go:58-65 | Varint32 on the bytes PutVarint wrote for an int32 gives back the value |
| FieldBuffers.Varint32RejectsWide | encoding/pam/fieldio/bytebuffer.go:58-65 | Varint32 on the bytes PutVarint wrote for an int64 outside the int32 range panics after advancing past them |
| FieldBuffers.Uvarint64ReadsPut | encoding/pam/fieldio/bytebuffer.go:162-166 | Uvarint64 on the bytes PutUvarint wrote gives back the value and advances past exactly those bytes |
| FieldBuffers.Uvarint32ReadsPut | encoding/pam/fieldio/bytebuffer.go:67-78 | Uvarint32 on the bytes PutUvarint wrote for a uint32 gives back the value |
| FieldBuffers.Uvarint32RejectsWide | encoding/pam/fieldio/bytebuffer.go:67-78 | Uvarint32 on the bytes PutUvarint wrote for a value above MaxUint32 panics after advancing past them |
| FieldBuffers.VarintUnderflow | encoding/pam/fieldio/bytebuffer.go:48-88 | on at most ten bytes that all carry the continuation bit, Varint64, Uvarint64 and Uvarint32 each panic with their underflow message and do not advance |
| FieldBuffers.NewCap | encoding/pam/fieldio/bytebuffer.go:104-107 | the new capacity exceeds the bytes needed and is at least twice the old one; it is that double or a multiple of 16 at most 16 above the bytes needed |
| FieldBuffers.ByteBuffer.constructor | encoding/pam/fieldio/bytebuffer.go:17-20 | the zero buffer holds no bytes |
| FieldBuffers.ByteBuffer.Bytes | encoding/pam/fieldio/bytebuffer.go:168-169 | Bytes has exactly n bytes |
| FieldBuffers.ByteBuffer.Len | encoding/pam/fieldio/bytebuffer.go:171-172 | Len is the length of Bytes |
| FieldBuffers.ByteBuffer.Reset | encoding/pam/fieldio/writer.go:85-86 | reslicing to [:0] empties the buffer and keeps its array |
| FieldBuffers.ByteBuffer.Ensure | encoding/pam/fieldio/bytebuffer.go:99-111 | afterwards at least n+bytes fit; the written bytes and n are kept; the array is replaced, by one of NewCap bytes, only when it was too small |
| FieldBuffers.ByteBuffer.PutByte | encoding/pam/fieldio/bytebuffer.go:113-118 | the written bytes grow by the value |
| FieldBuffers.ByteBuffer.PutBytes | encoding/pam/fieldio/bytebuffer.go:120-140 | the written bytes grow by the data, without a length; the panic after ensure cannot fire |
| FieldBuffers.ByteBuffer.PutUint16 | encoding/pam/fieldio/bytebuffer.go:142-147 | the written bytes grow by the value's two little-endian bytes |
| FieldBuffers.ByteBuffer.PutFloat64 | encoding/pam/fieldio/bytebuffer.go:149-154 | the written bytes grow by the eight little-endian bytes of the value's bit pattern |
| FieldBuffers.ByteBuffer.PutVarint | encoding/pam/fieldio/bytebuffer.go:156-160 | the written bytes grow by the value's signed varint |
| FieldBuffers.ByteBuffer.PutUvarint | encoding/pam/fieldio/bytebuffer.go:162-166 | the written bytes grow by the value's unsigned varint |
| FieldBuffers.ByteBuffer.Uint16 | encoding/pam/fieldio/bytebuffer.go:27-32 | returns what Uint16Of says of the unread bytes and advances n by the size it reports |
| FieldBuffers.ByteBuffer.Float64 | encoding/pam/fieldio/bytebuffer.go:34-39 | returns what Float64Of says of the unread bytes and advances n by the size it reports |
| FieldBuffers.ByteBuffer.Uint8 | encoding/pam/fieldio/bytebuffer.go:41-46 | returns what Uint8Of says of the unread bytes and advances n by the size it reports |
| FieldBuffers.ByteBuffer.Varint64 | encoding/pam/fieldio/bytebuffer.go:48-56 | returns what Varint64Of says of the unread bytes and advances n by the size it reports |
| FieldBuffers.ByteBuffer.Varint32 | encoding/pam/fieldio/bytebuffer.go:58-65 | returns what Varint32Of says of the unread bytes and advances n by the size it reports, also when it panics on a wide value |
| FieldBuffers.ByteBuffer.Uvarint32 | encoding/pam/fieldio/bytebuffer.go:67-78 | returns what Uvarint32Of says of the unread bytes and advances n by the size it reports, also when it panics on a wide value |
| FieldBuffers.ByteBuffer.Uvarint64 | encoding/pam/fieldio/bytebuffer.go:80-88 | returns what Uvarint64Of says of the unread bytes and advances n by the size it reports |
| FieldBuffers.ByteBuffer.RawBytes | encoding/pam/fieldio/bytebuffer.go:90-95 | returns what RawBytesOf says of the unread bytes and advances n by m on success |
| FieldBuffers.PutFields | encoding/pam/fieldio/bytebuffer_test.go:10-16 | one value through each writer leaves their encodings in order |
| FieldBuffers.PutThenRead | encoding/pam/fieldio/bytebuffer_test.go:9-26 | a byte, a uint16, a float64 pattern, an int64, a uint64 and raw bytes written in that order are read back unchanged by the matching readers |
| FieldBuffers.ResizeBuf | encoding/pam/fieldio/bytebuffer.go:174-182 | the slice gets length exactly size: a new zeroed array when the capacity is too small, otherwise the same array with its bytes |
| FieldWriters.IncreasingPairwise | encoding/pam/fieldio/writer.go:95-105 | when each address exceeds the one before it, every address is below every later one |
| FieldWriters.DeltaRestores | encoding/pam/fieldio/writer.go:110-120 | adding the int64 delta back to the previous value, with wrap-around, gives the value whatever the previous value was |
| FieldWriters.CommonPrefixLenSpec | encoding/pam/fieldio/writer.go:166-181 | the common-prefix length is within both strings, the prefixes agree, and the next bytes differ when both go on |
| FieldWriters.CommonPrefixLenUnique | encoding/pam/fieldio/writer.go:166-181 | any common prefix that cannot be extended has the common-prefix length |
| FieldWriters.ComputeDiff | encoding/pam/fieldio/writer.go:166-181 | returns the longest common prefix length and the rest of cur, and prev's prefix plus that rest is cur |
| FieldWriters.FieldWriteBuf.constructor | encoding/pam/fieldio/writer.go:82-93 | a new buffer is in the state reset leaves |
| FieldWriters.FieldWriteBuf.TotalLen | encoding/pam/fieldio/writer.go:76-78 | the bytes in the numeric buffer plus those in the blob buffer |
| FieldWriters.FieldWriteBuf.Reset | encoding/pam/fieldio/writer.go:82-93 | empties both buffers and the previous string, zeroes the previous values and the record count, sets both bounds to the invalid address, and keeps the invariant |
| FieldWriters.FieldWriteBuf.ResetBuffers | encoding/pam/fieldio/writer.go:85-87 | the two buffers and the previous string are emptied |
| FieldWriters.FieldWriteBuf.UpdateAddrBounds | encoding/pam/fieldio/writer.go:95-105 | fails, changing nothing, exactly when the block has records and addr is not above the last; otherwise appends addr, sets the end (and the start when empty), and keeps the addresses strictly increasing |
| FieldWriters.FieldWriteBuf.PutCoordField | encoding/pam/fieldio/writer.go:110-120 | appends the int64 deltas of the ref id and position against the previous ones to the numeric and blob buffers and makes them the previous values; nothing is written when the address is out of order |
| FieldWriters.FieldWriteBuf.PutStringDeltaField | encoding/pam/fieldio/writer.go:189-199 | appends the common-prefix length and the rest's length to the numeric buffer and the rest to the blob buffer, and the string becomes the previous string; nothing is written when the address is out of order |
| FieldWriters.FieldWriteBuf.AppendStringDelta | encoding/pam/fieldio/writer.go:191-198 | the buffer part of PutStringDeltaField: the two lengths, the rest, and the copied previous string |
| FastaIndex.GenerateIndex | encoding/fasta/index.go:18-82 | the loop over the input's lines produces exactly the rows and error of Index, the line-by-line fold of the scanner's steps |
| FastaIndex.TrimRightSpec | encoding/fasta/index.go:52 | the trimmed line is a prefix of the line that does not end in '\r' or '\n', and only '\r' and '\n' bytes were removed |
| FastaIndex.FirstFieldSpec | encoding/fasta/index.go:63 | the sequence name is a prefix of the header text with no space, followed by a space or the end of the header |
| FastaIndex.FirstFieldUnique | encoding/fasta/index.go:63 | those three facts determine the name |
| FastaIndex.SplitLinesLine | encoding/fasta/index.go:45 | ReadBytes('\n') returns a whole line, terminator included, and leaves the rest of the input |
| FastaIndex.IndexOfFasta | encoding/fasta/index.go:18-82 | for a well-formed FASTA text ("\n" or "\r\n" terminators, every sequence with a name and at least one base line) the index has one row per sequence, in file order: its name, total bases, the offset of its first base, and the bases and bytes of its first line; no error |
| FastaIndex.EmptySequenceDropped | encoding/fasta/index.go:56-68 | a header followed directly by another header produces no row, and the following rows' offsets count its bytes |
| FastaIndex.EmptyIffEmptyFile | encoding/fasta/index.go:78-80 | the error is "empty FASTA file" exactly when the input is empty |
| FastaIndex.RunKeeps | encoding/fasta/index.go:31-35 | the byte count only grows, a recorded error is never replaced, and the only error the scan itself raises is "malformed FASTA file" |
| FastaIndex.BasesBeforeHeader | encoding/fasta/index.go:56-62 | a base line before the first header makes the file malformed |
| FastaIndex.RunRecords | encoding/fasta/index.go:44-75 | scanning whole records adds their bytes to the byte count and the rows of all but the last record to the output, without error |
| FastaIndexed.NewIndexed | encoding/fasta/fasta_indexed.go:31-52 | the index is built exactly when every line matches; otherwise the error carries the text of an unmatched line; on success the entries are those of the lines (the last line wins for a repeated name) and the names are sorted stably by offset |
| FastaIndexed.LastLineWins | encoding/fasta/fasta_indexed.go:45 | a name's entry is the one on the last line that names it |
| FastaIndexed.NamesAreKeys | encoding/fasta/fasta_indexed.go:45-46 | a name is in the list of names exactly when it has an entry |
| FastaIndexed.SortSorted | encoding/fasta/fasta_indexed.go:48-50 | the sorted names are in nondecreasing order of offset |
| FastaIndexed.SortPerm | encoding/fasta/fasta_indexed.go:48-50 | the sorted names are a permutation of the names |
| FastaIndexed.SortKeepsNames | encoding/fasta/fasta_indexed.go:48-50 | a name is in the sorted list exactly when it is in the unsorted one |
| FastaIndexed.SortStable | encoding/fasta/fasta_indexed.go:48-50 | names with equal offsets keep their relative order (the sort is stable) |
| FastaIndexed.InsertStable | encoding/fasta/fasta_indexed.go:48-50 | inserting a name into a sorted list puts it after every name of the same offset |
| FastaIndexed.FaiToReferenceLengths | encoding/fasta/fasta_indexed.go:57-71 | an error exactly when some index line does not match, with that line's text; otherwise the map has exactly the indexed names, each mapped to its entry's length |
| FastaIndexed.IndexedFasta.Len | encoding/fasta/fasta_indexed.go:74-80 | the length of the named entry, or "sequence not found in index: " followed by the name exactly when the name has no entry |
| FastaIndexed.IndexedFasta.Read | encoding/fasta/fasta_indexed.go:83-108 | the bytes [off, off+n) from the cache when it covers them, otherwise after a refill of max(8192, n) bytes at off; a seek error, an unexpected end of file or a panic on the cases Go gives them; the cache keeps holding the file's own bytes at its window |
| FastaIndexed.ReadIgnoresCache | encoding/fasta/fasta_indexed.go:83-108 | whatever the cache holds, a read in range returns the file's bytes [off, off+n), and a nonempty read past the end is an unexpected end of file |
| FastaIndexed.ReadAsWrittenServesStaleBytes | encoding/fasta/fasta_indexed.go:94-102 | with the short-read check before bufOff is updated, a failed read leaves bytes of the new offset in the cache under the old window, so a later read returns the wrong bytes |
| FastaIndexed.StartOffset | encoding/fasta/fasta_indexed.go:136-137 | the first byte of base start lies start + (lineWidth - lineBase) * (start / lineBase) bytes after the sequence's offset |
| FastaIndexed.ReadSpan | encoding/fasta/fasta_indexed.go:139-146 | the capacity read covers exactly the bases [start, end), and ends at most one line terminator after the last of them |
| FastaIndexed.IndexedFasta.Get | encoding/fasta/fasta_indexed.go:119-169 | Get's result is the one GetOf gives for the caches on entry: the errors for an empty range, an unknown name and an end past the sequence, the read's error, or the bytes copied; the object stays valid |
| FastaIndexed.IndexedFasta.ReadAndCopy | encoding/fasta/fasta_indexed.go:148-168 | the read through the cache followed by the resize of the result buffer and the copy, as AfterRead gives them |
| FastaIndexed.IndexedFasta.CopyBases | encoding/fasta/fasta_indexed.go:156-167 | the loop writes the bytes whose column is below lineBase into the result buffer in order, as CopyLines describes, and a panic where the result buffer would overflow |
| FastaIndexed.KeepBases | encoding/fasta/fasta_indexed.go:156-167 | over the bytes following base start's byte, the bytes with column below lineBase are exactly the next bases of the sequence |
| FastaIndexed.GetReturnsBases | encoding/fasta/fasta_indexed.go:134-168 | for a file laid out as the index says, Get returns exactly the bases [start, end) of the sequence, whatever the caches hold |
| FastaIndexed.GetFailsIffOutOfRange | encoding/fasta/fasta_indexed.go:123-132 | for a file laid out as its index says, Get fails exactly when end <= start, the name is unknown or end is past the sequence |
| FastqScanner.Trim | encoding/fastq/scanner.go:24-28 | panics (None) exactly when n is negative or past the sequence or quality length; otherwise the sequence and quality become their first n bytes and the other lines are kept |
| FastqScanner.ScanOf | encoding/fastq/scanner.go:76-128 | a scan after an error changes nothing and fails; it succeeds exactly when no error is recorded, and then it has consumed four lines and stored the selected ones; ErrInvalid exactly when the ID line lacks '@' or line 3 lacks '+'; at the end of the lines the reader's error or the end-of-stream marker |
| FastqScanner.Scanner.Scan | encoding/fastq/scanner.go:76-118 | the result, the read, the position and the recorded error are those ScanOf gives |
| FastqScanner.Scanner.ScanLine | encoding/fastq/scanner.go:120-128 | the next line, or the reader's error (ErrShort when there is none) recorded when the lines have run out |
| FastqScanner.Scanner.Err | encoding/fastq/scanner.go:131-136 | the recorded error, with the end-of-stream marker reported as no error |
| FastqScanner.ScanReadsBack | encoding/fastq/scanner.go:76-118 | over the lines of well-formed reads, scan k yields read k's selected fields; the scan after the last fails, and Err is nil exactly when the reader reported no error |
| FastqScanner.StopsForGood | encoding/fastq/scanner.go:71-84 | once Scan returns false, every later Scan returns false and changes nothing |
| FastqScanner.TruncatedIsShort | encoding/fastq/scanner.go:120-128 | a record cut short after a valid ID line gives ErrShort when the reader reports no error |
| FastqScanner.PairScanner.Scan | encoding/fastq/scanner.go:159-166 | both scanners scan as ScanOf says; the pair succeeds when both do, and ErrDiscordant is recorded when exactly one does |
| FastqScanner.PairScanner.Err | encoding/fastq/scanner.go:170-178 | R1's error first, then R2's, then the pair's own |
| FastqScanner.DiscordantReported | encoding/fastq/scanner.go:159-178 | when R1 holds one well-formed read more than R2, the scan past R2's last read succeeds on R1 only and the pair reports ErrDiscordant |
| BamPairShardInfo.Compare | encoding/bampair/shard_info.go:19-25 | for int32 reference ids and positions, negative, zero or positive exactly as the first key orders before, equal to or after the second by reference id and then start |
| BamPairShardInfo.ShardInfo.Add | encoding/bampair/shard_info.go:50-55 | a new entry with zero counts for the shard, stored under its start key and under its index, replacing what was there |
| BamPairShardInfo.ShardInfo.GetInfoByShard | encoding/bampair/shard_info.go:68-75 | the entry stored under the shard's start key, or nil exactly when there is none |
| BamPairShardInfo.ShardInfo.GetInfoByIdx | encoding/bampair/shard_info.go:78-80 | the entry stored under the index, or nil exactly when there is none |
| BamPairShardInfo.ShardInfo.UpdateInfoByShard | encoding/bampair/shard_info.go:92-99 | fails (Go panics) exactly when no entry has the shard's key; otherwise sets that entry's two counts and changes nothing else |
| BamPairShardInfo.ShardInfo.ComputeFileIndexes | encoding/bampair/shard_info.go:114-122 | walking the indexes from 0, each entry's first read index is the uint64 sum of the read counts of the entries before it and its padding index is that minus its padding count; it fails (Go panics) exactly when an index below the shard count has no entry; counts are unchanged |
| BamPairShardInfo.StartsAt | encoding/bampair/shard_info.go:115-120 | the index stored for shard x is the sum of the read counts of shards 0..x-1, modulo 2^64 |
| BamPairShardInfo.FileIndexesFollow | encoding/bampair/shard_info.go:115-120 | each shard's first read index is the previous one's plus its read count (modulo 2^64), and with nonnegative counts whose total fits in a uint64 the indexes are exact and nondecreasing |
| SortCoords.MappedKey | cmd/bio-bam-sort/sorter/sort.go:110-121 | for a nonnegative int32 reference id and position, makeCoord's shifts and or amount to refid*2^33 + 2*pos + the reverse bit (no bits overlap or are lost) |
| SortCoords.ParseMakeCoord | cmd/bio-bam-sort/sorter/sort.go:110-135 | parseCoord(makeCoord(r, p, rev)) == (r, p, rev) for every nonnegative int32 r and p |
| SortCoords.NotUnmappedBits | cmd/bio-bam-sort/sorter/sort.go:123-124 | a mapped key never carries the unmapped pattern in bits 1..62, because the position's top bit is clear |
| SortCoords.UnmappedParses | cmd/bio-bam-sort/sorter/sort.go:112-127 | a negative reference id gives unmappedCoord (with the reverse bit), which parses back as (-1, -1) with the strand kept |
| SortCoords.KeyOrder | cmd/bio-bam-sort/sorter/sort.go:110-121 | on mapped positions the keys' unsigned order is exactly the order by reference id, then position, then forward before reverse, and two keys are equal exactly when the three fields are |
| SortCoords.UnmappedLast | cmd/bio-bam-sort/sorter/sort.go:137-142 | a mapped key sorts below the unmapped key exactly when its reference id is below 2^30 |
| SortCoords.CoordFromRecordIsMakeCoord | cmd/bio-bam-sort/sorter/sort.go:92-103 | coordFromRecord is makeCoord of the record's reference id (-1 for no reference), position and reverse flag |
| SortCoords.BytesCompare | cmd/bio-bam-sort/sorter/sort.go:89 | bytes.Compare returns -1, 0 or 1, and 0 exactly when the byte strings are equal |
| SortCoords.BytesCompareAntisymmetric | cmd/bio-bam-sort/sorter/sort.go:89 | swapping the byte strings negates bytes.Compare |
| SortCoords.BytesCompareTransitive | cmd/bio-bam-sort/sorter/sort.go:89 | bytes.Compare's strict order is transitive |
| SortCoords.EntryCompare | cmd/bio-bam-sort/sorter/sort.go:82-90 | sortEntry.compare returns -1, 0 or 1, 0 exactly for equal entries, and a smaller key always compares lower whatever the bodies |
| SortCoords.EntryCompareAntisymmetric | cmd/bio-bam-sort/sorter/sort.go:82-90 | swapping the entries negates the comparison |
| SortCoords.EntryCompareTransitive | cmd/bio-bam-sort/sorter/sort.go:82-90 | the entry order is transitive, so sorting by it is well defined |
| SortPam.KeyCompare | cmd/bio-bam-sort/sorter/pam.go:47-48 | sortKey.compare returns -1, 0 or 1, 0 exactly for equal keys, and at most 0 exactly when the first key is not after the second (by key, then sequence number) |
| SortPam.Insert | cmd/bio-bam-sort/sorter/pam.go:47-49 | inserting a key adds exactly that key to the multiset of keys |
| SortPam.InsertSorted | cmd/bio-bam-sort/sorter/pam.go:47-49 | inserting into sorted keys keeps them sorted |
| SortPam.SortKeys | cmd/bio-bam-sort/sorter/pam.go:47-49 | the sorted keys are in sortKey order and are a permutation of the collected keys |
| SortPam.ShardKeys | cmd/bio-bam-sort/sorter/pam.go:38-39 | a shard file contributes one key per block |
| SortPam.AllKeysCount | cmd/bio-bam-sort/sorter/pam.go:37-43 | the number of collected keys is the total block count |
| SortPam.RecordsNeedBlocks | cmd/bio-bam-sort/sorter/pam.go:40-46 | a nonzero record total implies a nonzero block total, so the division by the block count is defined past the nil return |
| SortPam.ShardRecordsNeedBlocks | cmd/bio-bam-sort/sorter/pam.go:38-40 | a shard file with records has at least one block |
| SortPam.ClearReverseFlag | cmd/bio-bam-sort/sorter/pam.go:28-31 | clearing the reverse flag always yields an even key |
| SortPam.CollectKeys | cmd/bio-bam-sort/sorter/pam.go:33-43 | the nested loops collect every block's key, shard file after shard file, the total record count and the total block count |
| SortPam.WalkBounds | cmd/bio-bam-sort/sorter/pam.go:51-67 | the bounds loop chooses exactly the bounds of the walk over the keys it is given |
| SortPam.ComputePAMShardBounds | cmd/bio-bam-sort/sorter/pam.go:25-69 | the result is the walk over the sorted keys after the first, and is empty when there are no records |
| SortPam.BoundsFromKeys | cmd/bio-bam-sort/sorter/pam.go:55-67 | there are no more bounds than walked keys, and each bound is a walked key with its reverse flag cleared |
| SortPam.BoundsNoRepeats | cmd/bio-bam-sort/sorter/pam.go:61-64 | no two consecutive bounds are equal |
| SortPam.FewRecordsNoBounds | cmd/bio-bam-sort/sorter/pam.go:52-59 | while the estimated record count stays below one shard's worth no bound is chosen and the goal is unchanged |
| SortPam.MakeCoordIsRecordKey | cmd/bio-bam-sort/sorter/sort.go:110-121 | every key makeCoord gives a mapped or unmapped record is a record key |
| SortPam.ClearOfRecordKey | cmd/bio-bam-sort/sorter/pam.go:28-31 | on record keys clearReverseFlag clears bit 0 and changes nothing else |
| SortPam.SortedRecordKeysCleared | cmd/bio-bam-sort/sorter/pam.go:28-49 | sorted record keys stay in nondecreasing order once their reverse flags are cleared |
| SortPam.BoundsIncrease | cmd/bio-bam-sort/sorter/pam.go:22-67 | when the walked keys' cleared coordinates do not decrease, the bounds increase strictly and the last is at most the last key walked |
| SortPam.AppendIncreasing | cmd/bio-bam-sort/sorter/pam.go:61-65 | appending a bound above the last keeps the bounds strictly increasing |
| SortPam.PermutedRecordKeys | cmd/bio-bam-sort/sorter/pam.go:47-49 | sorting keeps every key a record key |
| SortPam.WalkShape | cmd/bio-bam-sort/sorter/pam.go:55-67 | the walk's bounds have no consecutive repeats, have their reverse flags cleared, and increase strictly over sorted record keys |
| SortPam.ShardBoundsShape | cmd/bio-bam-sort/sorter/pam.go:22-64 | computePAMShardBounds's bounds have their reverse flags cleared and no consecutive repeats, and are strictly increasing when every block starts at a record key |
| SortPam.Search | cmd/bio-bam-sort/sorter/pam.go:75-78 | sort.Search returns an index in range at which the block starts at or after the key, or the length |
| SortPam.SearchFindsFirst | cmd/bio-bam-sort/sorter/pam.go:75-79 | on sorted blocks every block before the search result starts before the key, so the result is the first block at or after it |
| SortPam.FirstAtLeast | cmd/bio-bam-sort/sorter/pam.go:74-104 | the index is in range or the length, the block there starts at or after the key, and on sorted blocks none before it does |
| SortPam.StartFileOffset | cmd/bio-bam-sort/sorter/pam.go:73-95 | startFileOffset panics exactly on an empty block list, and its fatal branch is unreachable |
| SortPam.StartAtKey | cmd/bio-bam-sort/sorter/pam.go:83-86 | on sorted blocks, the first block starting exactly at the key gives the start offset |
| SortPam.StartBeforeKey | cmd/bio-bam-sort/sorter/pam.go:79-93 | on sorted blocks, the last block starting before the key (with the next one after it, or none) gives the start offset |
| SortPam.StartAllAfter | cmd/bio-bam-sort/sorter/pam.go:90-94 | when every block starts after the key the start offset is 0 |
| SortPam.LimitFileOffset | cmd/bio-bam-sort/sorter/pam.go:99-110 | the limit offset is MaxInt64 or the offset of one of the blocks |
| SortPam.LimitIsFirstAtLeast | cmd/bio-bam-sort/sorter/pam.go:99-110 | on sorted blocks the limit is the offset of the first block at or after the key, or MaxInt64 when there is none |
| SortPam.FileOffsetExamples | cmd/bio-bam-sort/sorter/pam.go:73-110 | the start offsets for keys 0, 5 and 1000 and the limit offsets for keys 1, 2 and 5 over blocks at keys 1, 2, 2, 2, 8 with offsets 10 to 14 |
| SortPam.RecAddrOfMapped | cmd/bio-bam-sort/sorter/pam.go:114-136 | a mapped key converts to its own reference id and position, the zero key included |
| SortPam.RecAddrOfUnmapped | cmd/bio-bam-sort/sorter/pam.go:119-132 | the unmapped key on either strand converts to the start of the unmapped reads |
| SortPam.InvalidIsLargest | cmd/bio-bam-sort/sorter/pam.go:124-128 | the invalid key converts to a coordinate no key's conversion exceeds |
| SortPam.RecAddrKeepsOrder | cmd/bio-bam-sort/sorter/pam.go:114-138 | for mapped reference ids below 2^30 and unmapped reads, the conversion keeps the key order in the PAM coordinate order |
| PyStrings.JoinSplit | fusion/benchmark/simulated_benchmark.py:18-21 | joining the pieces of `s.split(sep)` with `sep` gives `s` back |
| PyStrings.SplitTwo | fusion/benchmark/simulated_benchmark.py:18-21 | two names around one separator, neither holding its first character, split into exactly those two names |
| PyStrings.StrLessTotal | fusion/benchmark/simulated_benchmark.py:22-23 | string order is strict and total: of two different strings exactly one is smaller |
| PyStrings.FirstWordOf | fusion/benchmark/simulated_benchmark.py:51-52 | after leading whitespace, a word followed by whitespace or the end is `s.split()[0]` |
| SimulatedBenchmark.NewGenePair | fusion/benchmark/simulated_benchmark.py:14-25 | the pair's first name is never greater than its second; anything but two names is an error |
| SimulatedBenchmark.GenePairNames | fusion/benchmark/simulated_benchmark.py:14-25 | a parsed pair's names are the string's two names around '/' or "--", in one order or the other |
| SimulatedBenchmark.GenePairOrderFree | fusion/benchmark/simulated_benchmark.py:14-31 | for names without '/' or '-', "A/B", "B/A" and "B--A" parse to the same pair |
| SimulatedBenchmark.HashOrderFree | fusion/benchmark/simulated_benchmark.py:27-28 | the same pair written in either order has the same hash, whatever the string hash |
| SimulatedBenchmark.ReadTargets | fusion/benchmark/simulated_benchmark.py:47-52 | reading the target lines gives the truth set of TargetsOf, or the first line's error |
| SimulatedBenchmark.TargetsHaveLines | fusion/benchmark/simulated_benchmark.py:47-52 | every line not starting with "Gene" names a pair of the truth set |
| SimulatedBenchmark.TargetsFromLines | fusion/benchmark/simulated_benchmark.py:47-52 | every pair of the truth set is named by a line not starting with "Gene" |
| SimulatedBenchmark.ExosAlias | fusion/benchmark/simulated_benchmark.py:58 | "EXOSC7/KIAA1328" parses to the pair (EXOSC7, KIAA1328) |
| SimulatedBenchmark.ClecAlias | fusion/benchmark/simulated_benchmark.py:59 | "CLEC3B/KIAA1328" parses to the pair (CLEC3B, KIAA1328) |
| SimulatedBenchmark.Stag3L1Alias | fusion/benchmark/simulated_benchmark.py:61 | "CCDC88C/STAG3L1" parses to the pair (CCDC88C, STAG3L1) |
| SimulatedBenchmark.Stag3Alias | fusion/benchmark/simulated_benchmark.py:62 | "CCDC88C/STAG3" parses to the pair (CCDC88C, STAG3) |
| SimulatedBenchmark.FixTargets | fusion/benchmark/simulated_benchmark.py:54-62 | the fixed truth set exists exactly when both aliased pairs are in the truth set, and then swaps them for their replacements |
| SimulatedBenchmark.Add | fusion/benchmark/simulated_benchmark.py:76-93 | a counter increment raises that pair's count by the amount, makes it a key, and leaves every other count alone |
| SimulatedBenchmark.PairsOf | fusion/benchmark/simulated_benchmark.py:78 | the pairs of a multi-call are the parses of its names, one per name, in order |
| SimulatedBenchmark.ReadCalls | fusion/benchmark/simulated_benchmark.py:71-78 | reading the caller's lines gives the unique counts and multi-calls of CallsOf, or the first line's error |
| SimulatedBenchmark.MultiCallsHaveTwo | fusion/benchmark/simulated_benchmark.py:74-78 | every multi-call read holds at least two pairs |
| SimulatedBenchmark.ChooseBest | fusion/benchmark/simulated_benchmark.py:84-91 | the inner loop's choice is BestOf's |
| SimulatedBenchmark.BestIsFirstMax | fusion/benchmark/simulated_benchmark.py:84-92 | a nonempty multi-call always has a choice (the assert holds): the first pair with the largest frozen count, and that count |
| SimulatedBenchmark.ResolveMultiCalls | fusion/benchmark/simulated_benchmark.py:82-95 | the resolved counts are the unique counts with each multi-call's choice raised by its frozen count, in order |
| SimulatedBenchmark.AssignCommutes | fusion/benchmark/simulated_benchmark.py:80-93 | two multi-calls resolve to the same counts in either order |
| SimulatedBenchmark.AssignAllSwap | fusion/benchmark/simulated_benchmark.py:80-93 | swapping two neighbouring multi-calls anywhere leaves the resolved counts unchanged, so the result does not depend on their order |
| SimulatedBenchmark.CardSplit | fusion/benchmark/simulated_benchmark.py:103-107 | the elements of a set inside and outside another number its size |
| SimulatedBenchmark.CountSplit | fusion/benchmark/simulated_benchmark.py:103-111 | a counting loop over a set finds its elements inside and outside another set, together its size |
| SimulatedBenchmark.TargetedFusionStats.Init | fusion/benchmark/simulated_benchmark.py:38-95 | on success the truth set, the fixed truth set and the resolved calls are those of LoadOf; a missing file or a failing step is an error |
| SimulatedBenchmark.TargetedFusionStats.Stats | fusion/benchmark/simulated_benchmark.py:97-112 | tp counts the calls at the threshold in the fixed truth set, fp those outside it, fn the fixed pairs below it; tp + fp is the calls at the threshold and tp + fn the fixed truth set |
| BenchmarkUtil.ParseTimeRoundTrip | fusion/benchmark/util.py:570-572 | for minutes and seconds below 60, the hour, minute, second and microsecond can be read back from the parsed time |
| BenchmarkUtil.ParseTimeOrder | fusion/benchmark/util.py:570-572 | for minutes and seconds below 60, one parsed time is smaller than another exactly when its clock reading is earlier |
| BenchmarkUtil.RunStatsOf | fusion/benchmark/util.py:577-579 | the statistics exist exactly when there is exactly one INFO file |
| BenchmarkUtil.Report | fusion/benchmark/util.py:636-646 | the duration is the end time minus the start time; the duplicates, min_span and abundant_partners removals and the final candidates add up to the candidates left after the close-proximity filter |
| BenchmarkUtil.ReadRunStats | fusion/benchmark/util.py:574-646 | the loop over the INFO file's lines computes RunStatsOf, and fails unless exactly one INFO file was found |
| BenchmarkUtil.FragmentsAreProcessedTotal | fusion/benchmark/util.py:583-606 | n_fragments is the sum of the counts of all "Processed N reads" lines |
| BenchmarkUtil.LastMatchWins | fusion/benchmark/util.py:581-633 | each other field is set by the last line matching one of its patterns (of two patterns on one line, the later one), and keeps its initial 0, -9999999 or -999999 when no line matches |
| BenchmarkUtil.LastDumpWins | fusion/benchmark/util.py:595-634 | n_fragment_matches comes from the last fusion.Stats dump line, and is empty without one |
| BenchmarkUtil.ParseBazelLabel | fusion/benchmark/util.py:464-479 | a label parses exactly when one of the two patterns matches, and absolute holds exactly when the package starts with "//" |
| BenchmarkUtil.ParseColonLabel | fusion/benchmark/util.py:465-479 | "package:target" with a nonempty colon-free package and a target without line breaks parses to that package and target, the label unchanged |
| BenchmarkUtil.ParseShorthandLabel | fusion/benchmark/util.py:468-474 | "dir/name" with no colon, where dir may hold slashes (as in "//pkg/sub/name") and name does not, parses to package "dir/name", target "name" (the part after the last slash) and label "dir/name:name", absolute exactly when it starts with "//" |
| BenchmarkUtil.AbsoluteShorthandExample | fusion/benchmark/util.py:468-479 | "//a/b" parses to the absolute package "//a/b" with target "b" and label "//a/b:b" |
| BenchmarkUtil.NestedShorthandExample | fusion/benchmark/util.py:468-474 | "a/b/c" parses to package "a/b/c" with target "c": the shorthand splits at the last slash |
| BenchmarkUtil.ColonPrefixRefused | fusion/benchmark/util.py:465-471 | ":a/b" is an error: neither the colon pattern (empty package) nor the shorthand (colon in the package) matches |
| BenchmarkUtil.ShorthandReparses | fusion/benchmark/util.py:464-479 | the label produced for a shorthand parses to the same package and target |
| BenchmarkUtil.ColonLabelRoundTrip | fusion/benchmark/util.py:465-479 | a label matched by the colon pattern and free of line breaks is its package and target around a colon |
| BenchmarkUtil.ReplaceInOrder | fusion/benchmark/util.py:684-685 | the loop makes the replacements one by one in the map's order |
| BenchmarkUtil.PrettySampleName | fusion/benchmark/util.py:648-686 | the method computes PrettySampleNameOf: an error for the empty path, else the basename after dropping one trailing '/', with the replacements made |
| BenchmarkUtil.PrettyTrailingSlash | fusion/benchmark/util.py:680-683 | a path and the same path with one trailing '/' get the same name |
| BenchmarkUtil.PrettyKeepsOtherNames | fusion/benchmark/util.py:652-686 | a directory name holding no key of the map is returned as it is (the basename by default) |
| PyStrings.ReplaceAbsent | fusion/benchmark/util.py:685 | `replace` leaves a string that does not contain the pattern unchanged |
| PyStrings.Basename | fusion/benchmark/util.py:681-683 | the basename holds no '/' |
| FusionPos.ReadTypeOf | fusion/position.go:80-85 | a position is in R2 iff it is at least r2PosOffset (10^9) |
| FusionPos.NewR2Pos | fusion/position.go:62-67 | defined (no panic) iff the index is an R1 position; the result adds r2PosOffset |
| FusionPos.R2Off | fusion/position.go:72-77 | defined iff the position is in R2; the offset is non-negative |
| FusionPos.R2OffOfNewR2Pos | fusion/position.go:62-77 | R2Off(newR2Pos(i)) == i for every index 0 <= i < r2PosOffset |
| FusionPos.NewR2PosOfR2Off | fusion/position.go:62-77 | newR2Pos(R2Off(p)) == p for an R2 position |
| FusionPos.NewR2PosNoOverflow | fusion/position.go:62-67 | newR2Pos of an int64 R1 index stays within int64 |
| FusionPos.NewPosRange | fusion/position.go:98-106 | defined iff both ends are in the same read and start <= end; keeps the ends |
| FusionPos.PosSpan | fusion/position.go:108-116 | fails exactly where newPosRange does; otherwise a non-negative span with start + span == end |
| FusionPos.RangeReadType | fusion/position.go:87-93 | the common read of both ends; fails on a cross-read range |
| FusionPos.SpanOfNewPosRange | fusion/position.go:87-116 | span and readType of a range built by newPosRange never fail, and span is end - start |
| FusionPos.NewCrossReadPosRange | fusion/position.go:31-39 | fails iff the range is inverted |
| FusionPos.PosRangeIsCrossRead | fusion/position.go:31-106 | every range newPosRange accepts is accepted by newCrossReadPosRange with the same ends |
| FusionPos.MaxPos | fusion/position.go:118-123 | the result is one of the arguments and no smaller than either |
| FusionPos.MinPos | fusion/position.go:125-130 | the result is one of the arguments and no larger than either |
| FusionPos.MinMaxPos | fusion/position.go:118-130 | min and max of a pair sum to the pair's sum and are ordered |
| FusionUtil.AcgtnIndex | fusion/util.go:33-47 | bucket 4 exactly for bytes outside aAcCgGtT, otherwise 0..3 |
| FusionUtil.CountACGTN | fusion/util.go:49-55 | the five counts equal the per-bucket counts of the sequence |
| FusionUtil.BucketsSumToLength | fusion/util.go:49-55 | the five buckets sum to len(seq) |
| FusionUtil.BucketFourIsNonAcgt | fusion/util.go:34-55 | bucket 4 counts exactly the non-ACGT bytes |
| FusionUtil.NumUnknownBases | fusion/util.go:58 | the result is the number of non-ACGT bytes |
| FusionUtil.TopTwoOf | fusion/util.go:68-75 | the max/max2 loop computes TopTwo of the counts |
| FusionUtil.TopTwoIsTopTwo | fusion/util.go:68-75 | on non-negative counts, max is the largest and max2 the largest of the others, found at two distinct indices |
| FusionUtil.TopTwoDecides | fusion/util.go:68-76 | max+max2 exceeds the threshold iff some two distinct buckets do |
| FusionUtil.IsLowComplexity | fusion/util.go:63-77 | true for empty input; otherwise true iff two buckets together exceed the fraction of the length |
| FusionUtil.SortGenePair | fusion/util.go:91-108 | returns the pair in some order; in COSMIC order the result is listed in COSMIC and it fails iff neither order is |
| FusionUtil.AlphabeticalSorted | fusion/util.go:101-106 | in alphabetical order the first name is not after the second, and the order of the arguments does not matter when names differ |
| FusionFragment.IndexByte | fusion/fragment.go:34 | the first index of the byte, or -1 exactly when it is absent |
| FusionFragment.BeforeSpace | fusion/fragment.go:33-37 | a prefix of the name with no space in it |
| FusionFragment.LastField | fusion/fragment.go:38-42 | the last ':' field: a separator-free suffix, preceded by the separator unless it is the whole string |
| FusionFragment.Umi | fusion/fragment.go:32-53 | the last ':' field of the name before its first space; fails iff it holds a byte outside ACGTN+ |
| FusionFragment.UmiOfName | fusion/fragment.go:32-53 | a name "prefix:UMI" optionally followed by " comment" yields exactly that UMI |
| FusionFragment.LastFieldOf | fusion/fragment.go:38-42 | the last field of prefix + sep + field is field when field holds no sep |
| FusionFragment.SubSeq | fusion/fragment.go:58-66 | a range inside R1 or inside R2 yields end - start bases; fails where a slice would panic |
| FusionFragment.SubSeqCrossSplits | fusion/fragment.go:58-66 | a cross-read range yields the R1 suffix followed by the R2 prefix |
| FusionFragment.HammingDistance | fusion/fragment.go:68-77 | infiniteHammingDistance when R1 or R2 lengths differ, else the sum of R1 and R2 mismatches |
| FusionFragment.HammingDistanceMetric | fusion/fragment.go:72-77 | the distance is symmetric and is zero iff both reads are equal |
| FusionFragment.MismatchesZeroIffEqual | fusion/fragment.go:76 | equal-length sequences have no mismatches iff they are equal |
| FusionKmer.KmerBits | fusion/kmer.go:18-30 | A, C, G, T (either case) map to 0..3 and every other byte to invalidKmerBits |
| FusionKmer.RcBits | fusion/kmer.go:32-39 | a base maps to 3 minus its forward code, every other byte to invalidKmerBits |
| FusionKmer.RcBitsIsComplement | fusion/kmer.go:32-39 | the reverse-complement code of a base is the forward code of its complement, and back |
| FusionKmer.KmerValue | fusion/kmer.go:42-43 | a k-base packing is below 4^k, so up to 32 bases fit a uint64 |
| FusionKmer.SmallKmerFits | fusion/kmer.go:42-43 | a packing of at most 32 bases is unchanged by uint64 truncation |
| FusionKmer.AsciiToKmer | fusion/kmer.go:80-90 | the loop yields the packing modulo 2^64 when every byte is a base, else invalidKmer |
| FusionKmer.AsciiToKmerChecked | fusion/kmer.go:80-90 | the same loop reporting failure apart from the value: Some exactly when every byte is a base, holding the packing |
| FusionKmer.KmerShift | fusion/kmer.go:111 | the next window's packing is the previous one shifted left by one base plus the new base, modulo 4^k |
| FusionKmer.RcShift | fusion/kmer.go:112-113 | the next window's reverse-complement packing is the previous one shifted right plus the new complement at the top |
| FusionKmer.ShiftStep | fusion/kmer.go:107-116 | the fast path's shift, or and mask, with uint64 wrap-around, yields exactly the kmers of the next window |
| FusionKmer.FitsAndMasks | fusion/kmer.go:111 | masking after a uint64 shift equals the exact shift modulo 4^k |
| FusionKmer.KmerOfReverseComplement | fusion/kmer.go:128-129 | the forward packing of the reverse complement is the reverse-complement packing, and back |
| FusionKmer.MinKmer | fusion/kmer.go:56-61 | the smaller of forward and reverse-complement kmer |
| FusionKmer.MinKmerCanonical | fusion/kmer.go:56-61 | a window and its reverse complement have the same minKmer |
| FusionKmer.SentinelCollides | fusion/kmer.go:80-90 | 32 T's are all bases, yet their packing equals the invalidKmer sentinel |
| FusionKmer.ScanAsWrittenPanicsOnAllT | fusion/kmer.go:92-99 | on 32 T's the sentinel sends Scan to nextAmbiguousPosition, which indexes past the end |
| FusionKmer.NextAmbiguousAsWritten | fusion/kmer.go:92-99 | with the loop testing si, a result is a non-base at or after si; past the end it fails |
| FusionKmer.NextAmbiguousPosition | fusion/kmer.go:92-99 | the first non-base at or after si, with every byte between them a base, or len(seq) |
| FusionKmer.FirstWindowIsFirst | fusion/kmer.go:106-139 | the window Scan must report is the least all-base window at or after si, or there is none |
| FusionKmer.AmbiguousInWindow | fusion/kmer.go:123-126 | jumping past the first non-base of a rejected window skips no all-base window |
| FusionKmer.WindowKmers | fusion/kmer.go:121-135 | the slow path's encodings succeed exactly on an all-base window and give its forward and reverse-complement kmers |
| FusionKmer.Kmerizer.Reset | fusion/kmer.go:101-104 | the sequence is replaced and the scan restarts at 0, keeping the kmerizer's invariant |
| FusionKmer.Kmerizer.Scan | fusion/kmer.go:106-139 | true iff an all-base window starts at or after si; then si is one past the first such window and cur holds its kmers; the invariant is kept |
| FusionKmer.Kmerizer.FastPath | fusion/kmer.go:107-118 | when the window before si is cached and the next byte is a base, cur becomes the kmers of the window at si |
| FusionKmer.Kmerizer.SlowPath | fusion/kmer.go:121-138 | the window-by-window search finds the first all-base window at or after si, or moves past the last window |
| FusionUtil.BucketOfComplement | fusion/util.go:32-47 | the complement of a byte falls in the complementary bucket (A and T, C and G swap; others stay in 4) |
| FusionUtil.BucketsOfReverseComplement | fusion/util.go:26-55 | the counts of reverseComplement(seq) are those of seq with A and T, C and G swapped |
| FusionUtil.LowComplexityOfReverseComplement | fusion/util.go:63-77 | a read is low complexity iff its reverse complement is |
| FusionPreprocess.AddUmiToName | fusion/preprocess.go:9-25 | the result is the name with ":r1UMI+r2UMI" inserted before its first space, or appended when it has none |
| FusionPreprocess.BeforeSpaceIs | fusion/preprocess.go:12-18 | the copy loop stops exactly at the first space or at the end of the name |
| FusionPreprocess.NameWithUmiRemoved | fusion/preprocess.go:9-25 | cutting the inserted bytes out of the new name gives back the original name |
| FusionPreprocess.UmiOfNameWithUmi | fusion/preprocess.go:9-25 | Fragment.UMI of the new name reads back "r1UMI+r2UMI" for any ACGTN UMIs, whatever the name |
| FusionPreprocess.MaybeRemoveUmi | fusion/preprocess.go:30-44 | unchanged without UMIInRead; ("N", "") with the name kept when a read is shorter than 7; else each read loses its first 7 bytes and, unless UMIInName, their first 6 go into the name |
| FusionPreprocess.RemoveLowComplexityReads | fusion/preprocess.go:49-68 | the four cases of which reads are low complexity and the counter each bumps; a read that survives is not low complexity |
| FusionStitcher.HammingDistanceOf | fusion/stitcher.go:172-184 | None exactly when the lengths differ (the source panics); otherwise the number of positions at which the two sequences differ |
| FusionStitcher.OverlapHoldsKmer | fusion/stitcher.go:123-131 | reads aligned on a shared kmer overlap in at least kmerLength bases inside both reads, so posSpan and the "impossible" panic are never reached |
| FusionStitcher.StitchAtRejects | fusion/stitcher.go:132-137 | a candidate is rejected exactly when more than a tenth of the overlap mismatches |
| FusionStitcher.StitchAtLayout | fusion/stitcher.go:139-167 | an accepted stitch has length r1Pos + len(R2) - r2Pos and runs from the start of R1 to the end of R2: R2's tail when R2 covers R1, else R1's bases followed by R2's |
| FusionStitcher.StitchCandidate | fusion/stitcher.go:123-167 | one iteration of the R1 loop yields exactly the stitch StitchAt defines, or None when the overlap is rejected |
| FusionStitcher.KmerMapEntries | fusion/stitcher.go:96-100 | every entry of the R2 kmer map is a window of R2 holding that kmer, and no later window holds it |
| FusionStitcher.KmerMapComplete | fusion/stitcher.go:96-100 | every window of R2 made of bases has its kmer in the map |
| FusionStitcher.KmerMapIsLastShared | fusion/stitcher.go:96-107 | the map's position for an R1 kmer is exactly the last window of R2 holding the same kmer |
| FusionStitcher.TryStitchFromFirst | fusion/stitcher.go:102-170 | the search's result is the candidate of the first R1 window, from the given start, whose candidate is accepted; some accepted window means some result |
| FusionStitcher.TryStitchSound | fusion/stitcher.go:89-170 | a stitch is the accepted stitch at an R1 window and the last R2 window sharing its kmer, and no earlier R1 window has an accepted stitch |
| FusionStitcher.TryStitchComplete | fusion/stitcher.go:89-170 | any accepted stitch at an R1 window and the last R2 window sharing its kmer means tryStitch succeeds |
| FusionStitcher.Stitcher.constructor | fusion/stitcher.go:17-24 | a new stitcher has an empty kmer map, an empty free pool and a kmerizer of the given length |
| FusionStitcher.Stitcher.FreeFragment | fusion/stitcher.go:30-36 | the pool gains an emptied fragment unless it already holds five, so it never holds more than five |
| FusionStitcher.Stitcher.AllocFragment | fusion/stitcher.go:38-45 | pops the last pooled fragment, or makes a new one; either way the fragment is empty |
| FusionStitcher.Stitcher.Stitch | fusion/stitcher.go:49-64 | an unstitched pair keeps both reads; a stitch becomes R1 with an empty R2, or "N" when low complexity, with the matching Stats counters bumped |
| FusionStitcher.Stitcher.BuildR2KmerMap | fusion/stitcher.go:93-100 | the cleared and refilled r2KmerMap is the map of R2's windows, the last window of each kmer winning |
| FusionStitcher.Stitcher.StitchFromR1 | fusion/stitcher.go:102-170 | the loop over R1's kmers returns the first accepted stitch, and fails only when no window is accepted |
| FusionStitcher.Stitcher.TryStitch | fusion/stitcher.go:89-170 | fails on an empty read; otherwise succeeds exactly when the search over R1's windows finds an accepted stitch, and returns it |
| FusionInfer.SpanSumSplit | fusion/fusion.go:484-507 | the sum of the spans before n plus the sum from n on is the total span |
| FusionInfer.SpanSumToMonotone | fusion/fusion.go:484-494 | spans are never negative, so prefix sums never decrease |
| FusionInfer.PrefixLength | fusion/fusion.go:484-494 | ll[i] is the sum of the spans of ranges[0..i]; empty for no ranges; None exactly when some span panics |
| FusionInfer.SuffixLength | fusion/fusion.go:496-507 | ll[i] is the sum of the spans of ranges[i..]; empty for no ranges; None exactly when some span panics |
| FusionInfer.PrefixMeetsSuffix | fusion/fusion.go:484-507 | prefixLength's last element equals suffixLength's first (the total span), and ll1[i] + ll2[i+1] is the total |
| FusionInfer.ReadSpansTotal | fusion/fusion.go:99-108 | the R1 total plus the R2 total of a gene is the sum of all its spans |
| FusionInfer.NewGeneRangeInfo | fusion/fusion.go:97-111 | r1Span and r2Span sum the spans of the gene's R1 and R2 ranges; None exactly when a range panics |
| FusionInfer.GeneRangeBeforeOrder | fusion/fusion.go:114-123 | the comparator (larger total span first, then smaller geneID) is irreflexive, asymmetric, transitive, and total between different genes |
| FusionInfer.SortedGeneRangesUnique | fusion/fusion.go:96-124 | two vectors sorted by the comparator with the same infos are equal, so the random map iteration order does not show in the result |
| FusionInfer.SortByJointSpanCorrect | fusion/fusion.go:235-237 | the candidates come out by non-increasing JointSpan, as a permutation, with equal JointSpans in their original order; the only sequence with these properties |
| KeyedSort.StableSortDescCorrect | fusion/fusion.go:235-237 | the stable sort by descending key orders by key, keeps the multiset, and keeps each key's elements in order |
| KeyedSort.SortedDescUnique | fusion/fusion.go:235-237 | sequences sorted by descending key with the same per-key subsequences are equal |
| DuplicateKeys.OrientationByteSingle | markduplicates/duplicate_key.go:42-47 | a single-fragment orientation (f or r), and r exactly when the read is reversed |
| DuplicateKeys.OrientationBytePair | markduplicates/duplicate_key.go:71-82 | never a single-fragment orientation |
| DuplicateKeys.LeftOrientation | markduplicates/duplicate_key.go:49-58 | fatal (None) exactly on a single-fragment orientation; otherwise a single orientation |
| DuplicateKeys.RightOrientation | markduplicates/duplicate_key.go:60-69 | fatal (None) exactly on a single-fragment orientation; otherwise a single orientation |
| DuplicateKeys.IsSingleIff | markduplicates/duplicate_key.go:38-40 | a key is single iff its orientation is f or r; a pair orientation never makes it single, a single one always does |
| DuplicateKeys.PairOrientationSplits | markduplicates/duplicate_key.go:49-82 | leftOrientation and rightOrientation of orientationBytePair(l, r) give back orientationByteSingle(l) and orientationByteSingle(r) |
| DuplicateKeys.PairOrientationCovers | markduplicates/duplicate_key.go:71-82 | every pair orientation is orientationBytePair of some pair of directions |
| DuplicateKeys.PairOrientationInjective | markduplicates/duplicate_key.go:71-82 | orientationBytePair is injective: equal results mean equal directions |
| ReadPairs.BeforeTotal | markduplicates/read_pair.go:42-49 | the (ref id, unclipped 5' position, file index) order is total and strict on reads at distinct file indexes |
| ReadPairs.Ordered | markduplicates/read_pair.go:46-57 | the resulting (left, right) are the two given reads and right is not before left |
| ReadPairs.OrderedSymmetric | markduplicates/read_pair.go:42-57 | the pair's order does not depend on which read arrived first |
| ReadPairs.ReadPair.constructor | markduplicates/read_pair.go:11-29 | a one-read pair: the read in left, right missing and rightFileIdx 0 |
| ReadPairs.ReadPair.AddRead | markduplicates/read_pair.go:36-58 | a third read is fatal and changes nothing; otherwise (left, right) with their file indexes is the Ordered pair of the old left and the new read, and the new read goes right unless it is before the left read |
| DuplicateIndex.ChoosePrimary | markduplicates/duplicate_index.go:217-231 | -1 for no entries; otherwise the index of an entry that outranks every entry (higher BaseQScore, ties to the smaller FileIdx) and that no earlier entry outranks |
| DuplicateIndex.OutranksTotal | markduplicates/duplicate_index.go:224 | of two entries one outranks the other, and both only when score and file index tie |
| DuplicateIndex.PrimaryUnique | markduplicates/duplicate_index.go:217-231 | the primary is unique: any two indexes meeting ChoosePrimary's contract are equal |
| DuplicateIndex.LessStringTrichotomy | markduplicates/duplicate_index.go:575-580 | the byte-wise order strings.Compare uses is irreflexive and, on different strings, exactly one direction holds |
| DuplicateIndex.CanonicalUmis | markduplicates/duplicate_index.go:568-589 | fatal (None) exactly when the name has no UMI pair; the result is the pair, swapped when the flag says so; on a (ref, 5' position, orientation) tie it is unswapped iff the first UMI is smaller, otherwise iff the left read is R1 |
| DuplicateIndex.CanonicalUmisOnTie | markduplicates/duplicate_index.go:574-582 | on a tie the left UMI does not depend on which read carried which UMI and is the smaller one, with the swapped flags opposite |
| DuplicateIndex.UmiDistance | markduplicates/duplicate_index.go:118-121 | comparing a single key with a pair key is fatal |
| DuplicateIndex.UmiDistanceIsEditDistance | markduplicates/duplicate_index.go:118-130 | for keys of the same kind with matching UMI lengths, the distance is the sum of the edit distances of the left and the right UMIs |
| DuplicateIndex.UmiDistanceLengthMismatch | markduplicates/duplicate_index.go:122-127 | a non-empty UMI whose counterpart has another length is fatal, since Levenshtein panics on it |
| DuplicateMetrics.SumLaws | markduplicates/metrics.go:68-76 | the field-wise sum is commutative and associative with the zero metrics as unit |
| DuplicateMetrics.Metrics.constructor | markduplicates/metrics.go:110 | a new Metrics has every counter zero |
| DuplicateMetrics.Metrics.Add | markduplicates/metrics.go:68-76 | the counters become the field-wise sum of the old counters and other's, also when other is the same object |
| DuplicateMetrics.MergeLibraries | markduplicates/metrics.go:121-131 | the merged map has the libraries of both maps |
| DuplicateMetrics.MergeLibrariesLaws | markduplicates/metrics.go:121-131 | merging is symmetric and merging an empty map changes nothing |
| DuplicateMetrics.AddHistograms | markduplicates/metrics.go:132-142 | as long as the longer histogram, each bin the sum of the two bins (a missing bin counts 0) |
| DuplicateMetrics.TotalOfAddHistograms | markduplicates/metrics.go:132-142 | adding histograms adds their totals |
| DuplicateMetrics.Grow | markduplicates/metrics.go:149-155 | the histogram padded with zero bins to the given length, and never shortened |
| DuplicateMetrics.Bucket | markduplicates/metrics.go:157-164 | four buckets: 0 exactly for bag size at most 2, 3 exactly for 8 or more |
| DuplicateMetrics.MergeHistogram | markduplicates/metrics.go:133-141 | the grow-then-add loop computes AddHistograms |
| DuplicateMetrics.MetricsCollection.AddLibraries | markduplicates/metrics.go:122-131 | the library loop leaves each library's object holding MergeLibraries of the old counters and other's, adds other's libraries, leaves other's counters alone and keeps the two collections sharing no object |
| DuplicateMetrics.MetricsCollection.AddToExisting | markduplicates/metrics.go:123-125 | a library present in both gets other's counters added to its own object, the library map unchanged |
| DuplicateMetrics.MetricsCollection.AddCopy | markduplicates/metrics.go:126-129 | a library new to the collection gets a fresh object holding a copy of other's counters, every other library keeping its object |
| DuplicateMetrics.Metrics.Copy | markduplicates/metrics.go:128 | the copy holds the same counters as the original |
| DuplicateMetrics.MetricsCollection.constructor | markduplicates/metrics.go:93-103 | no libraries and four histograms of 60000 zero bins |
| DuplicateMetrics.MetricsCollection.Get | markduplicates/metrics.go:104-114 | returns the library's stored Metrics object itself, for the caller to update in place; a library seen for the first time gets a fresh object with zero counters, stored under it; the histograms are untouched |
| DuplicateMetrics.MetricsCollection.Merge | markduplicates/metrics.go:118-143 | each library's counters become MergeLibraries of both collections' counters, other's counters stay as they were, the collections still share no Metrics object, and each histogram becomes the bin-wise sum of both |
| DuplicateMetrics.MetricsCollection.MergeHistograms | markduplicates/metrics.go:132-142 | each of the four histograms becomes the bin-wise sum of its old bins and other's, the four staying of one length |
| DuplicateMetrics.MetricsCollection.AddDistance | markduplicates/metrics.go:147-165 | every histogram grows to at least distance+1 bins and only the bag size's bucket gains 1 at the distance; libraries untouched |
| DuplicateMetrics.AddDistanceCountsOne | markduplicates/metrics.go:147-165 | the bucket AddDistance touches records exactly one more pair |
| DuplicateMetrics.TotalOfUpdate | markduplicates/metrics.go:157-164 | changing one bin changes the total by the difference |
| DuplicateMetrics.TotalOfGrow | markduplicates/metrics.go:149-155 | padding with zero bins keeps the total |
| DuplicateMetrics.TotalOfZeros | markduplicates/metrics.go:93-103 | a fresh histogram has total 0 |
| OpticalLocation.GoRem | markduplicates/optical.go:174-183 | Go's % agrees with the Euclidean remainder on a non-negative dividend |
| OpticalLocation.TileField | markduplicates/optical.go:32-55 | a tile field exists exactly for 5, 7 or 8 fields, with room for the lane before it and x and y after it |
| OpticalLocation.ParseLocation | markduplicates/optical.go:132-185 | accepted iff the field count is 5, 7 or 8, the lane, tile, x and y fields are all integers and the tile is at most 99999; each parsed field is stored |
| OpticalLocation.FiveDigitTile | markduplicates/optical.go:174-178 | a 5-digit tile name is surface, swath, section and a 2-digit tile number written side by side |
| OpticalLocation.FourDigitTile | markduplicates/optical.go:179-183 | a tile name of at most 4 digits is surface, swath and a 2-digit tile number side by side, with section 0 |
| Distance.CellOps | util/distance.go:97-138 | no operations on the border row and column |
| Distance.EditDistanceUp | util/distance.go:111-121 | dropping a base of the first string lowers the edit distance by at most one |
| Distance.EditDistanceRight | util/distance.go:111-121 | the edit distance grows by at most one when the second string gains a base |
| Distance.EditDistanceDown | util/distance.go:111-121 | the edit distance grows by at most one when the first string gains a base |
| Distance.EditDistanceAtMostLength | util/distance.go:140-147 | two strings of one length are at most that many edits apart |
| Distance.EditDistanceZero | util/distance.go:140-147 | the distance is zero iff the two prefixes are equal |
| Distance.CellIsEditDistance | util/distance.go:97-138 | computeCell's recurrence, which copies the diagonal on equal bases, equals the standard edit distance |
| Distance.Extend | util/distance.go:188-204 | the walk past the corner stays inside the two extended strings |
| Distance.ExtendStep | util/distance.go:188-204 | the walk stops where neither a down nor a right step applies, and otherwise continues from the extended cell |
| Distance.LevenshteinOf | util/distance.go:152-155 | a panic (None) exactly for barcodes of unequal length or of length 0 |
| Distance.LevenshteinOfWalk | util/distance.go:204-210 | the result is the lesser of the corner cell and the cell where the walk stops |
| Distance.LevenshteinIsEditDistance | util/distance.go:152-213 | with no downstream bases Levenshtein is the standard edit distance of the barcodes |
| Distance.LevenshteinAtMostEditDistance | util/distance.go:152-213 | downstream bases never raise the result above the barcodes' edit distance |
| Distance.CellPrefix | util/distance.go:157-163 | a cell depends only on the prefixes it covers, so appending downstream bases keeps the filled cells |
| Distance.Contains | util/distance.go:69-78 | true iff some operation of given is in o |
| Distance.ComputeCell | util/distance.go:97-138 | writes Cell at (i, j) (j on row 0, i on column 0), returns CellOps there and changes no other cell |
| Distance.ComputeRow | util/distance.go:82-86 | cells (i, 0) to (i, col) hold Cell; no other cell changes |
| Distance.ComputeCol | util/distance.go:90-94 | cells (0, j) to (row, j) hold Cell; no other cell changes |
| Distance.FillCorner | util/distance.go:172-180 | the square up to (i, j) holds Cell, and the corner's operations are returned |
| Distance.StepPastCorner | util/distance.go:188-204 | takes the next downstream base of either string as the corner's operations say; done exactly when the walk has ended |
| Distance.WalkPastCorner | util/distance.go:187-210 | past the corner: where no insertion or deletion reaches the cell the result equals LevenshteinOf (the lesser of the corner and that cell); otherwise one walk step that keeps the walk's end and shrinks the downstream bases |
| Distance.Levenshtein | util/distance.go:152-213 | returns LevenshteinOf: the panics, and otherwise the corner-or-walk minimum |
| UmiCorrection.ExtensionsLength | umi/correction.go:143-154 | the recursive fn produces \|alphabet\|^(length - \|partial\|) strings |
| UmiCorrection.BranchesLength | umi/correction.go:149-152 | the loop over the alphabet from letter i on produces (\|alphabet\| - i) times \|alphabet\|^(remaining - 1) strings |
| UmiCorrection.ExtensionsMember | umi/correction.go:143-154 | fn produces exactly the strings of the given length that extend partial with letters of the alphabet |
| UmiCorrection.BranchesMember | umi/correction.go:149-152 | the loop from letter i produces exactly the extensions whose next letter is among the remaining letters |
| UmiCorrection.ExtensionsDistinct | umi/correction.go:143-154 | over an alphabet without repeats fn produces no string twice |
| UmiCorrection.BranchesDistinct | umi/correction.go:149-152 | the loop from letter i produces no string twice |
| UmiCorrection.AllKmersFacts | umi/correction.go:141-157 | allKmers(k, A) lists exactly the \|A\|^k strings of length k over A, each once |
| UmiCorrection.ValidateUMI | umi/correction.go:132-138 | no panic exactly when every rune's low byte is A, C, G or T, or N when N is allowed |
| UmiCorrection.Upper | umi/correction.go:63 | ASCII lower-case letters are upper-cased and every other rune kept |
| UmiCorrection.ToUpper | umi/correction.go:63 | keeps the length and upper-cases rune by rune |
| UmiCorrection.ToUpperIdempotent | umi/correction.go:123 | upper-casing twice is upper-casing once |
| UmiCorrection.NewlineAt | umi/correction.go:58-62 | the line scanner's next newline at or after i, or the end |
| UmiCorrection.KnownOf | umi/correction.go:62-76 | when accepted, one upper-cased UMI per line, at least one, all as long as the first and all over ACGT |
| UmiCorrection.ReadKnown | umi/correction.go:62-76 | the scanning loop computes KnownOf, with its panics as None |
| UmiCorrection.FirstSnap | umi/correction.go:99-107 | a snap is a single-UMI list at some cost after only empty lists; the first non-empty list decides |
| UmiCorrection.CostsOf | umi/correction.go:86-94 | the population loop for one k-mer lists the known UMIs by Levenshtein cost |
| UmiCorrection.SnapOf | umi/correction.go:99-107 | the inner loop with its break computes FirstSnap |
| UmiCorrection.BuildCostTable | umi/correction.go:78-94 | the initialisation and population loops build CostTable over all k-mers |
| UmiCorrection.BuildCorrectionTable | umi/correction.go:96-108 | the correction loop builds CorrectionTable from the cost table |
| UmiCorrection.TableOfCostTable | umi/correction.go:78-108 | the correction table built from the cost table over all k-mers is the reference Table |
| UmiCorrection.NewSnapCorrector | umi/correction.go:56-116 | returns SnapCorrectorOf the input: its panics (no UMI, mixed lengths, a non-ACGT base, length 0) as None, otherwise the known UMIs, k and the correction table |
| UmiCorrection.CorrectUMI | umi/correction.go:122-130 | panics exactly on an invalid base; a UMI without entry comes back as itself with -1 and false; otherwise the entry's UMI and edits, corrected iff it differs |
| UmiCorrection.WithCostEmpty | umi/correction.go:86-94 | the list at cost c is empty iff no known UMI is at cost c |
| UmiCorrection.WithCostSingle | umi/correction.go:86-94 | the list at cost c is [known[j]] iff known[j] is the only known UMI at that cost |
| UmiCorrection.WithCostMember | umi/correction.go:86-94 | the list at cost c holds exactly the known UMIs at cost c |
| UmiCorrection.FirstSnapAt | umi/correction.go:99-107 | a singleton list after only empty ones is what the correction loop records |
| UmiCorrection.CostAtMostK | umi/correction.go:82 | every known UMI is within cost k of a k-mer, so k+1 cost slots suffice |
| UmiCorrection.SnapOfUniqueNearest | umi/correction.go:96-108 | a unique nearest known UMI is what the loop records, at its cost |
| UmiCorrection.UniqueNearestOfSnap | umi/correction.go:96-108 | whatever the loop records is a unique nearest known UMI |
| UmiCorrection.SnapIsUniqueNearest | umi/correction.go:40-42 | a k-mer snaps iff it has a unique nearest known UMI, and then to that UMI at its Levenshtein cost |
| UmiCorrection.CorrectUMIIsUniqueNearest | umi/correction.go:118-130 | a valid UMI is corrected to its unique nearest known UMI at its cost; without one it comes back as itself with -1 and false |
| UmiCorrection.CorrectKnownUmi | umi/correction.go:127 | a known UMI listed once corrects to itself with 0 edits and corrected false |
| PileupStrand.GetStrand | pileup/common.go:97-100 | no strand when the read and its mate lie on different references |
| PileupStrand.GetStrandOfPair | pileup/common.go:101-106 | for a paired read with mapped mate: forward iff read 1 is forward and read 2 reversed, reverse iff the opposite |
| PileupStrand.MateOfMate | pileup/common.go:101-106 | the mate record (references, reverse bits and read bits swapped) of the mate is the record |
| PileupStrand.GetStrandOfMate | pileup/common.go:97-117 | both reads of a pair with mapped mates get the same strand |
| PileupStrand.GetStrandCollapsed | pileup/common.go:107-115 | with the mate flagged unmapped and no read bit: forward iff neither reverse bit, reverse iff both |
| PileupColumns.ParseColsOf | pileup/common.go:121-124 | an empty parameter gives the default bitset |
| PileupColumns.PatchLoop | pileup/common.go:133-152 | the loop over +/- terms computes Patch of the default |
| PileupColumns.UnionLoop | pileup/common.go:153-167 | the loop over plain terms computes the Union from empty |
| PileupColumns.ParseCols | pileup/common.go:121-169 | returns ParseColsOf: the default, a patch of it, a union, or the error |
| PileupColumns.PatchSucceeds | pileup/common.go:135-146 | patching fails iff some term is empty, lacks +/- or names no column |
| PileupColumns.UnionSucceeds | pileup/common.go:154-164 | the union fails iff some term is empty, has a +/- or names no column |
| PileupColumns.LastTouching | pileup/common.go:135-152 | the last term whose columns include the bit, and no later term includes it |
| PileupColumns.LastTouchingCons | pileup/common.go:135-152 | the last touching term of a list, from that of its tail |
| PileupColumns.PatchBit | pileup/common.go:147-151 | after patching a bit is set iff the last term naming it was +, or, when none names it, it was set in the default |
| PileupColumns.UnionBit | pileup/common.go:165 | the union has a bit iff some term's columns have it |
| PileupRows.U32 | pileup/snp/row.go:138-141 | PutUint32 writes 4 bytes |
| PileupRows.U16 | pileup/snp/row.go:166-167 | PutUint16 writes 2 bytes |
| PileupRows.HeaderBytes | pileup/snp/row.go:92-96 | the header is 16 bytes: fieldsPresent, refID, pos and depth |
| PileupRows.PairBytes | pileup/snp/row.go:148-149 | one base's two strand counts take 8 bytes |
| PileupRows.CountsUpTo | pileup/snp/row.go:148-157 | the counts of the first b bases take 8b bytes |
| PileupRows.CountsBytes | pileup/snp/row.go:97 | the count table takes 40 bytes |
| PileupRows.FeatureBytes | pileup/snp/row.go:165-169 | one read's features take 6 bytes |
| PileupRows.FeaturesUpTo | pileup/snp/row.go:164-170 | the features of n reads take 6n bytes |
| PileupRows.FeaturesBytes | pileup/snp/row.go:164-170 | a base's features take 6 bytes per read |
| PileupRows.PerReadBytes | pileup/snp/row.go:161-171 | a flagged base's block takes 4 + 6n bytes, an unflagged one nothing |
| PileupRows.PerReadSizeIsLength | pileup/snp/row.go:122-130 | the size loop's total for the blocks before b is their encoded length |
| PileupRows.SizeIsLength | pileup/snp/row.go:116-130 | bytesReq is exactly the length of the serialized row |
| PileupRows.CutAndAdvance | pileup/snp/row.go:86-90 | s[offset:offset+n] with the offset advanced by n, and a panic (None) exactly when that runs past the end |
| PileupRows.DecodeBlock | pileup/snp/row.go:204-222 | a decoded block ends 4 + 6n bytes after its start, within the input |
| PileupRows.FeaturesAt | pileup/snp/row.go:216-222 | n reads' features are read |
| PileupRows.DecodePerRead | pileup/snp/row.go:201-225 | one slice per remaining base |
| PileupRows.CountsAt | pileup/snp/row.go:188-200 | a table of n count pairs is read |
| PileupRows.FeatureRoundTrip | pileup/snp/row.go:165-169 | one read's features come back from their 6 bytes |
| PileupRows.FeaturesRoundTrip | pileup/snp/row.go:164-170 | every read's features come back from their bytes |
| PileupRows.PairRoundTrip | pileup/snp/row.go:148-149 | one base's two counts come back from their 8 bytes |
| PileupRows.CountsRoundTrip | pileup/snp/row.go:148-157 | each of the first b count pairs comes back from its bytes |
| PileupRows.CountsAtRoundTrip | pileup/snp/row.go:188-200 | a whole count table comes back from its bytes |
| PileupRows.CountsAtPointwise | pileup/snp/row.go:188-200 | pairs read back one by one make up the count table |
| PileupRows.PerReadSplit | pileup/snp/row.go:160-172 | the blocks before b and from b make up all four |
| PileupRows.BlockRoundTrip | pileup/snp/row.go:162-170 | a block of n reads comes back from its bytes, ending 4 + 6n bytes on |
| PileupRows.FeaturesAtRoundTrip | pileup/snp/row.go:216-222 | the features come back from their bytes |
| PileupRows.FeaturesAtPointwise | pileup/snp/row.go:216-222 | features read back one by one make up the slice |
| PileupRows.PresentFrom | pileup/snp/row.go:201-225 | one slice per remaining base: the block when flagged, empty otherwise |
| PileupRows.BlockOfRow | pileup/snp/row.go:203-222 | a flagged base's block comes back from its bytes |
| PileupRows.PerReadRoundTrip | pileup/snp/row.go:159-173 | the blocks from base b on come back, flagged bases with their features and the others empty |
| PileupRows.PresentFromIsPresent | pileup/snp/row.go:201-225 | read back from base 0, the blocks are the present part of the row |
| PileupRows.HeaderRoundTrip | pileup/snp/row.go:181-187 | fieldsPresent, refID, pos and depth come back from the 16 header bytes |
| PileupRows.DecodeCountsRoundTrip | pileup/snp/row.go:188-200 | the count table comes back when flagged, zero otherwise |
| PileupRows.DecodeAllPerReadRoundTrip | pileup/snp/row.go:201-225 | the per-read blocks come back when flagged, empty otherwise |
| PileupRows.RoundTrip | pileup/snp/row.go:113-227 | unmarshalPileupRow of MarshalPileupRow's bytes, followed by anything, gives back every present field, with absent fields zero or empty |
| PileupRows.Put | pileup/snp/row.go:138-141 | writes the bytes at off and leaves the rest of the buffer as it was |
| PileupRows.PutFeature | pileup/snp/row.go:165-169 | writes one read's 6 bytes at off |
| PileupRows.PutFeatures | pileup/snp/row.go:164-170 | writes a base's features at off |
| PileupRows.PutCountPair | pileup/snp/row.go:148-149 | writes one base's 8 count bytes at off |
| PileupRows.PutCounts | pileup/snp/row.go:142-158 | writes the count table at off |
| PileupRows.PutBlock | pileup/snp/row.go:162-170 | writes a base's length and features at off |
| PileupRows.PutPerReadStep | pileup/snp/row.go:161-171 | one iteration writes base b's block when flagged and advances the offset by its size |
| PileupRows.PutPerRead | pileup/snp/row.go:159-173 | writes the blocks of all flagged bases at off |
| PileupRows.BytesRequired | pileup/snp/row.go:116-130 | the size computation yields Size: 16, 40 more with counts, and 4 + 6n per flagged base |
| PileupRows.MarshalPileupRow | pileup/snp/row.go:113-175 | the first Size bytes of the result are the encoding; a large enough scratch is reused with its tail kept, a small one left alone for a fresh buffer of exactly Size bytes |
| PileupRows.FillRow | pileup/snp/row.go:136-173 | the writes put the encoding at the start of the buffer and change nothing after it |
| PileupRows.UnmarshalBlock | pileup/snp/row.go:204-222 | the block loop computes DecodeBlock, with None where a cut runs past the end |
| PileupRows.UnmarshalPerRead | pileup/snp/row.go:201-225 | the per-read loop computes DecodePerRead |
| PileupRows.UnmarshalPileupRow | pileup/snp/row.go:179-227 | computes Decode, with None where a cut runs past the end |
| BaseStrands.ZeroPile | pileup/snp/basestrand.go:186 | the zero pile has the Go array shape of four count pairs |
| BaseStrands.Encode | pileup/snp/basestrand.go:112-133 | a pile's record is 40 bytes |
| BaseStrands.Decode | pileup/snp/basestrand.go:190-199 | the pile read from 40 bytes has four count pairs |
| BaseStrands.RoundTrip | pileup/snp/basestrand.go:103-135 | UnmarshalBaseStrand reads back exactly the pile marshalBaseStrand wrote, whatever follows it |
| BaseStrands.EncodeInjective | pileup/snp/basestrand.go:103-135 | two piles with the same record are the same pile |
| BaseStrands.MarshalBaseStrand | pileup/snp/basestrand.go:103-135 | the returned slice (buffer t cut to n bytes) is exactly the 40-byte record; a scratch of 40 bytes or more is the buffer with the rest kept, a shorter one left alone for a fresh 40-byte buffer |
| BaseStrands.Int64Bytes | pileup/snp/basestrand.go:79-84 | binary.Write of an int64 writes 8 bytes |
| BaseStrands.Int64At | pileup/snp/basestrand.go:91-97 | binary.Read of an int64 gives a value in the int64 range |
| BaseStrands.Int64Of | pileup/snp/basestrand.go:79-97 | an int64 written little-endian reads back as itself |
| BaseStrands.Trailer | pileup/snp/basestrand.go:77-86 | the trailer is 16 bytes: the version, then the number of piles |
| BaseStrands.ParseTrailer | pileup/snp/basestrand.go:88-101 | accepted iff there are 16 bytes and the first number is version 1, and then the second number is returned; EOF errors otherwise |
| BaseStrands.TrailerRoundTrip | pileup/snp/basestrand.go:77-101 | the trailer written for n piles parses back to n |
| BaseStrands.BaseStrandUnmarshaller.constructor | pileup/snp/basestrand.go:171-174 | the zero value: a nil slice and offset 0 |
| BaseStrands.BaseStrandUnmarshaller.Init | pileup/snp/basestrand.go:176-181 | size zero piles, offset 0 |
| BaseStrands.BaseStrandUnmarshaller.UnmarshalBaseStrand | pileup/snp/basestrand.go:183-201 | the next slot (appended when init's slots are used up) receives the pile decoded from the first 40 bytes, and the offset moves on by one; the piles read so far grow by that pile |
| BaseStrands.ReadPiles | pileup/snp/basestrand.go:140-166 | scanning the records through one unmarshaller, with or without an init from the trailer of any size, returns the piles in order |
| BaseStrands.ChrId | pileup/snp/basestrand.go:401-422 | accepted iff the name after its first three characters is X, Y, M or a decimal in 1..22; the id is in 1..25, and a numeric id is that decimal |
| BaseStrands.ChrName | pileup/snp/basestrand.go:402-404 | a chromosome name starts with "chr" |
| BaseStrands.ChrIdOfName | pileup/snp/basestrand.go:401-422 | ChrId inverts naming: each id in 1..25 is read back from its name |
| FirstReads.FindMate | pileup/snp/firstread.go:144-151 | the first index of the bucket holding r's mate (same name, mate position equal to r's position), with no mate before it; None iff the bucket holds no mate |
| FirstReads.SwapRemove | pileup/snp/firstread.go:122-126 | removing one entry shortens the bucket by one |
| FirstReads.SwapRemoveMultiset | pileup/snp/firstread.go:122-126 | the swap-with-last removal takes out exactly entry i, as a multiset |
| FirstReads.FirstreadTable.CircPos | pileup/snp/firstread.go:106-108 | pos & (nCirc - 1) lies in 0..nCirc-1 |
| FirstReads.FirstreadTable.HashName | pileup/snp/firstread.go:99-103 | the name hash is below readNameHtableSize |
| FirstReads.FirstreadTable.constructor | pileup/snp/firstread.go:206-211 | nCirc rows of 1024 empty buckets and no nonempty bit, which keeps the bits-match-buckets invariant |
| FirstReads.FirstreadTable.Add | pileup/snp/firstread.go:105-115 | the record is appended to the bucket of its position and name hash, that bucket's bit is set, and every other bucket is unchanged |
| FirstReads.FirstreadTable.Remove | pileup/snp/firstread.go:118-130 | the bucket becomes SwapRemove of its entry i, its bit is cleared iff it becomes empty, and every other bucket is unchanged |
| FirstReads.FirstreadTable.TryRemove | pileup/snp/firstread.go:135-152 | the first mate in the bucket at r's mate position is removed and returned; without one, None and the table unchanged |
| FirstReads.FirstreadTable.AddOrRemove | pileup/snp/firstread.go:176-204 | no strand or no possible overlap: 1 and the table unchanged; at or after the mate with the mate stored: 2 with the mate removed; after the mate without it: 1 and unchanged; otherwise 0 with the read added to its bucket and its bit set; in every case every other bucket is unchanged and the bitmap marks exactly the nonempty buckets |
| GencodeRanges.Overlaps | fusion/parsegencode/parsegencode.go:44-74 | no overlap for an empty list; for closed ranges, an overlap iff the last range and r overlap or touch (gap of one), and then their hull |
| GencodeRanges.HullIsUnion | fusion/parsegencode/parsegencode.go:49-68 | the hull of two touching ranges holds exactly the positions of the two |
| GencodeRanges.MergeCovers | fusion/parsegencode/parsegencode.go:32-40 | merging adds r's positions and no others |
| GencodeRanges.CollapseCovers | fusion/parsegencode/parsegencode.go:77-83 | collapsing keeps exactly the positions of the ranges, and every collapsed range is a valid range |
| GencodeRanges.SeparatedAppend | fusion/parsegencode/parsegencode.go:39 | appending a range that starts more than one past the last stop keeps the list separated |
| GencodeRanges.SeparatedReplaceLast | fusion/parsegencode/parsegencode.go:35 | replacing the last range by a wider one with the same start keeps the list separated |
| GencodeRanges.CollapseSeparates | fusion/parsegencode/parsegencode.go:77-83 | collapsing ranges sorted by start yields ranges that neither overlap nor touch |
| GencodeRanges.Reversed | fusion/parsegencode/parsegencode.go:86-90 | the reversed list has the same length |
| GencodeRanges.ReversedTwice | fusion/parsegencode/parsegencode.go:86-90 | reversing twice gives the list back |
| GencodeRanges.GenomicRanges.constructor | fusion/parsegencode/parsegencode.go:29 | holds the given ranges |
| GencodeRanges.GenomicRanges.Merge | fusion/parsegencode/parsegencode.go:32-40 | without an overlap r is appended; with one only the last range changes, to the hull |
| GencodeRanges.GenomicRanges.Collapse | fusion/parsegencode/parsegencode.go:77-83 | the ranges become the ranges merged one by one into a new list |
| GencodeRanges.GenomicRanges.Reverse | fusion/parsegencode/parsegencode.go:86-90 | the swap loop leaves the ranges in reverse order |
| GencodeRanges.Complement | fusion/parsegencode/parsegencode.go:159-171 | a complement exists exactly for A, C, G, T and N in either case |
| GencodeRanges.ReverseComplementOf | fusion/parsegencode/parsegencode.go:155-175 | fatal exactly when a character is outside ACGTN in either case; otherwise as long as the input and again made of bases |
| GencodeRanges.ComplementTwice | fusion/parsegencode/parsegencode.go:159-169 | complementing twice gives the upper-case base |
| GencodeRanges.ReverseComplementAt | fusion/parsegencode/parsegencode.go:158-159 | position j of the result is the complement of position n-1-j of the input |
| GencodeRanges.ReverseComplementTwice | fusion/parsegencode/parsegencode.go:155-175 | the reverse complement of the reverse complement is the input in upper case |
| GencodeRanges.ReverseComplement | fusion/parsegencode/parsegencode.go:155-175 | the builder loop computes ReverseComplementOf |
| FilterExprs.NameOf | cmd/bio-pamtool/cmd/filter.go:415-462 | every field has an identifier, and the parser's identifier table maps it back to the field |
| FilterExprs.TypeOfIsVType | cmd/bio-pamtool/cmd/filter.go:304-467 | a well-typed expression carries its type in its vtype tag |
| FilterExprs.SetError | cmd/bio-pamtool/cmd/filter.go:292-296 | after setError with an error there is an error (the first one is kept) |
| FilterExprs.DoAssert | cmd/bio-pamtool/cmd/filter.go:298-302 | an existing error stays an error; no error afterwards iff there was none and the check held |
| FilterExprs.ParseNode | cmd/bio-pamtool/cmd/filter.go:304-467 | a parse that returns nil, or that started with an error, ends with an error |
| FilterExprs.ParseFilterExprWith | cmd/bio-pamtool/cmd/filter.go:480-494 | an accepted expression has type bool |
| FilterExprs.NotOfUnknownPanics | cmd/bio-pamtool/cmd/filter.go:335-345 | as written `!nosuchfield` dereferences the nil node and panics; with the nil check it is rejected |
| FilterExprs.ParseNeverPanics | cmd/bio-pamtool/cmd/filter.go:304-467 | with the nil check parse never panics |
| FilterExprs.ParseFilterExprNeverPanics | cmd/bio-pamtool/cmd/filter.go:480-494 | the corrected parseFilterExpr never panics |
| FilterExprs.ParsedIsWellTyped | cmd/bio-pamtool/cmd/filter.go:304-467 | a parse ending without error started without one and produced a well-typed expression whose tag is its type |
| FilterExprs.AcceptedIsBool | cmd/bio-pamtool/cmd/filter.go:480-494 | parseFilterExpr accepts only well-typed bool expressions |
| FilterExprs.TokenOf | cmd/bio-pamtool/cmd/filter.go:361-382 | each comparison operator has a token that parses to it |
| FilterExprs.ParseCmpStep | cmd/bio-pamtool/cmd/filter.go:361-392 | a comparison of printed well-typed operands of the types the checks demand parses back to the comparison |
| FilterExprs.ParseLogicStep | cmd/bio-pamtool/cmd/filter.go:355-360 | && and \|\| of printed bool operands parse back to And and Or |
| FilterExprs.ParseRegexStep | cmd/bio-pamtool/cmd/filter.go:314-333 | re() of a printed string operand and a string literal parses back to the regex match |
| FilterExprs.ParsePrint | cmd/bio-pamtool/cmd/filter.go:304-467 | every well-typed expression is what parse makes of its printed tree, without error: the typing rules are exactly the parser's checks |
| FilterExprs.FieldValue | cmd/bio-pamtool/cmd/filter.go:188-236 | a field's value has the type the parser gives the field |
| FilterExprs.BoolEqualityPanics | cmd/bio-pamtool/cmd/filter.go:361-367 | `paired == paired` is accepted; evaluate as written panics on it, the corrected evaluate gives true |
| FilterExprs.FieldMeaning | cmd/bio-pamtool/cmd/filter.go:188-236 | the typed meaning of a field is its evaluated value |
| FilterExprs.EvaluateIsMeaning | cmd/bio-pamtool/cmd/filter.go:178-290 | the corrected evaluate never panics on a well-typed expression and yields its meaning, of its type |
| FilterExprs.EvaluateFilterExpr | cmd/bio-pamtool/cmd/filter.go:498-502 | the bool an accepted filter yields is what evaluate yields, so the final assert never fires |
| LittleEndian.Decode | pileup/snp/row.go:183-187 | the value read from n bytes is below 256^n |
| LittleEndian.Encode | pileup/snp/row.go:138-141 | the encoding of a number in n bytes has n bytes |
| LittleEndian.DecodeEncode | pileup/snp/row.go:138-187 | reading back a number written in n bytes gives it back, for numbers below 256^n |
| LittleEndian.EncodeDecode | pileup/snp/row.go:138-187 | writing back the value read from some bytes gives the bytes back |
| LittleEndian.DecodeAppend | pileup/snp/row.go:183-187 | the value of a concatenation is the first part's value plus the second part's shifted by the first part's width |
| LittleEndian.Uint16At | pileup/snp/row.go:218-219 | Uint16 reads a value below 2^16 |
| LittleEndian.Uint32At | encoding/bam/unmarshal.go:132-137 | Uint32 reads a uint32 |
| LittleEndian.Int32At | encoding/bam/unmarshal.go:128-129 | int32(Uint32(...)) reads an int32 |
| LittleEndian.Int32AtWraps | encoding/bam/unmarshal.go:128-129 | that value is Go's int32 conversion of the uint32 read there |
| LittleEndian.Uint64At | pileup/snp/basestrand.go:91-97 | an 8-byte read gives a uint64 |
| LittleEndian.Uint16AtDecodes | pileup/snp/row.go:218-219 | the 2-byte reader is Decode on the two bytes it reads |
| LittleEndian.Uint32AtDecodes | pileup/snp/row.go:183-187 | the 4-byte reader is Decode on the four bytes it reads |
| LittleEndian.Uint64AtDecodes | pileup/snp/basestrand.go:91-97 | the 8-byte reader is Decode on the eight bytes it reads |
| LittleEndian.EncodeInt32 | encoding/bam/unmarshal.go:128-129 | an int32's two's-complement bit pattern takes 4 bytes |
| LittleEndian.Int32RoundTrip | encoding/bam/unmarshal.go:128-129 | an int32 written as its bit pattern reads back as itself |
| LittleEndian.Uint32RoundTrip | pileup/snp/basestrand.go:115-116 | a uint32 written with PutUint32 reads back as itself |
| LittleEndian.Uint64RoundTrip | pileup/snp/basestrand.go:79-97 | a uint64 written in 8 bytes reads back as itself |
| LittleEndian.Pow256Values | pileup/snp/row.go:138-187 | 256^2, 256^4 and 256^8 are 2^16, 2^32 and 2^64 |
| FusionPostprocess.CloseProximityIff | fusion/postprocess.go:30-64 | for genes whose start does not exceed their end: close proximity holds iff the chromosomes agree and either the positive gene-count limit bounds the index difference or the positive base limit bounds the gap between the genes (overlapping or nested genes always qualify under a positive base limit) |
| FusionPostprocess.CloseProximityNeedsChrom | fusion/postprocess.go:38-43 | genes on different chromosomes are never in close proximity, whatever the limits |
| FusionPostprocess.CloseProximityByIndex | fusion/postprocess.go:45-50 | on one chromosome, a positive maxProximityGenes at least the index difference makes the genes close whatever their coordinates |
| FusionPostprocess.CloseProximitySymmetric | fusion/postprocess.go:52-61 | for well-formed genes the result does not depend on which gene is the first of the fusion |
| FusionPostprocess.Select | fusion/postprocess.go:116-119 | the selected subsequence has one element per index, element k being the candidate at index k |
| FusionPostprocess.DistinctPermutation | fusion/postprocess.go:108-115 | reordering indices that have no repeat leaves none |
| FusionPostprocess.SortAscendingCorrect | fusion/postprocess.go:108-115 | sorting distinct in-range indices yields a permutation of them in strictly increasing order |
| FusionPostprocess.IncreasingAtLeastPosition | fusion/postprocess.go:116-118 | the k-th of strictly increasing non-negative indices is at least k, so the in-place copy never reads a slot already overwritten |
| FusionPostprocess.IncreasingUnique | fusion/postprocess.go:108-115 | two strictly increasing sequences with the same members are equal: the sorted order is unique |
| FusionPostprocess.SubsetCandidates | fusion/postprocess.go:107-120 | panics (None) iff an index repeats or is out of range; otherwise the indices end sorted ascending, the result length is the number of indices, the first candidates are the selected ones in increasing original index order and the rest of the slice is unchanged |
| FusionPostprocess.MoveToFront | fusion/postprocess.go:116-119 | for strictly increasing in-range indices, slot i ends holding the original candidate at index i of the list and the slots past the list are untouched |
| FusionPostprocess.WriteIndices | fusion/postprocess.go:107-120 | the index array ends holding exactly the given indices |
| FusionPostprocess.IndicesWhereCorrect | fusion/postprocess.go:216-232 | the positions below n satisfying a test are listed strictly increasing, in range, and a position is listed iff it satisfies the test |
| FusionPostprocess.FilterSelects | fusion/postprocess.go:216-232 | filtering a sequence keeps exactly the elements at the positions whose element passes, in increasing position order |
| FusionPostprocess.FilterMembers | fusion/postprocess.go:218-227 | an element is in the filtered sequence iff it is in the original and passes the test |
| FusionPostprocess.FilterPrefix | fusion/postprocess.go:218-226 | filtering one more element appends it exactly when it passes |
| FusionPostprocess.AddFusionLookup | fusion/postprocess.go:192-202 | recording a fusion adds h as a partner of g iff the fusion joins g and h in either order, and keeps every earlier partner |
| FusionPostprocess.AddFusionsIff | fusion/postprocess.go:199-204 | after recording a list of fusions, h is a partner of g iff it was before or some fusion of the list joins g and h |
| FusionPostprocess.AddFusionsAppend | fusion/postprocess.go:199-204 | recording a + b is recording a then b |
| FusionPostprocess.AllFusionsIff | fusion/postprocess.go:199-200 | a fusion is among all fusions iff some candidate has it |
| FusionPostprocess.PartnersIff | fusion/postprocess.go:190-204 | h is recorded as a partner of g exactly when some candidate has a fusion joining g and h (in either order) |
| FusionPostprocess.AddCandidateFusions | fusion/postprocess.go:200-203 | the inner loop leaves the partner map equal to recording the candidate's fusions in order |
| FusionPostprocess.BuildPartners | fusion/postprocess.go:190-204 | the first pass builds exactly the partner map of all the candidates' fusions |
| FusionPostprocess.Trims | fusion/postprocess.go:216-227 | one trimmed candidate per candidate, each keeping its fragment and losing its fusions with an abundant gene |
| FusionPostprocess.TrimIff | fusion/postprocess.go:208-226 | a fusion survives trimming iff the candidate had it and neither of its genes has more than maxGenePartners partners |
| FusionPostprocess.DiscardedCorrect | fusion/postprocess.go:185-237 | the kept candidates are those left with at least one fusion after trimming, in their original order (strictly increasing positions), each holding exactly its surviving fusions in order |
| FusionPostprocess.KeepFusions | fusion/postprocess.go:217-227 | the inner loop keeps, in order, exactly the fusions neither of whose genes is abundant |
| FusionPostprocess.CompactTrimmed | fusion/postprocess.go:211-232 | the compaction loop moves the trimmed candidates that keep a fusion to the front, in order, and returns their number |
| FusionPostprocess.CompactedStep | fusion/postprocess.go:228-231 | one more candidate extends the compacted prefix by its trimmed form exactly when that keeps a fusion |
| FusionPostprocess.CompactedIsFilter | fusion/postprocess.go:216-232 | compacting equals filtering the trimmed candidates for a nonempty fusion list |
| FusionPostprocess.DiscardAbundantPartners | fusion/postprocess.go:185-237 | the slice's new length is at most the old and its candidates are the discarded-partner result of the original candidates, with DiscardedCorrect stating what that result holds |
| FusionPostprocess.GenePairKeySwap | fusion/postprocess.go:87-94 | the gene-pair key does not depend on the order in which each fusion names its two genes |
| FusionPostprocess.GroupCorrect | fusion/postprocess.go:71-105 | a group lists, strictly increasing and in range, exactly the positions of the candidates with its key |
| FusionPostprocess.GroupUpToStep | fusion/postprocess.go:100-103 | one more candidate extends the group of its key by its position and no other group |
| FusionPostprocess.GroupsStep | fusion/postprocess.go:100-103 | the map after one more candidate holds the groups of the first i + 1 candidates |
| FusionPostprocess.AddToGroup | fusion/postprocess.go:101-102 | appending candidate i to the group of its key keeps the map equal to the groups of the first i + 1 candidates |
| FusionPostprocess.GroupsDone | fusion/postprocess.go:99-104 | once all candidates are added, a key is present iff its group is nonempty and it maps to that group |
| FusionPostprocess.GroupCandidatesByGenePair | fusion/postprocess.go:71-105 | every key of some candidate, and no other, maps to the strictly increasing positions of the candidates with that key |
| FusionPostprocess.KeysCover | fusion/postprocess.go:71-105 | every candidate's key is a key of the grouping |
| FusionPostprocess.HasGoodSpan | fusion/postprocess.go:249-256 | true iff every fusion has both spans at least minSpan |
| FusionPostprocess.CountGoodAppend | fusion/postprocess.go:283-287 | one more candidate raises the good-span count by one exactly when its fusions all have good spans |
| FusionPostprocess.Umis | fusion/postprocess.go:265-267 | one UMI per candidate, read by the fragment's UMI reader |
| FusionPostprocess.FirstOfUmiInRange | fusion/postprocess.go:265-275 | UMI collapsing keeps only in-range positions |
| FusionPostprocess.FirstOfUmiOrder | fusion/postprocess.go:265-275 | UMI collapsing keeps positions of the group, strictly increasing |
| FusionPostprocess.FirstOfUmiCovers | fusion/postprocess.go:265-275 | every UMI seen in the group is the UMI of a kept position, and no other UMI is |
| FusionPostprocess.FirstOfUmiDistinct | fusion/postprocess.go:265-275 | the kept positions have pairwise different UMIs |
| FusionPostprocess.CollapseStep | fusion/postprocess.go:268-274 | a UMI already seen leaves the seen set and the kept positions unchanged; a new one is added to the seen set and its position appended |
| FusionPostprocess.CollapseOne | fusion/postprocess.go:266-274 | panics (None) iff reading the candidate's UMI panics; otherwise returns the seen set, the kept positions and the good-span count after one more candidate |
| FusionPostprocess.ReadableBeforeIff | fusion/postprocess.go:265-267 | the first n UMIs of a group are readable iff each of them is |
| FusionPostprocess.CollapseUmis | fusion/postprocess.go:259-275 | panics (None) iff some UMI of the group is unreadable; otherwise returns the first candidate of each UMI in order and how many of them have good spans |
| FusionPostprocess.CountSpanSupport | fusion/postprocess.go:281-288 | counts the candidates of the group whose fusions all have good spans |
| FusionPostprocess.ScanGroup | fusion/postprocess.go:258-292 | panics (None) iff UMIs are used and one in the group is unreadable; otherwise the group's contribution: its UMI-collapsed (or all) positions when at least minReadSupport of them have good spans, nothing otherwise |
| FusionPostprocess.GroupKeptCorrect | fusion/postprocess.go:258-292 | a group contributes distinct positions of its own key, and a candidate of the group survives exactly when its group contributes it |
| FusionPostprocess.ValidStep | fusion/postprocess.go:276-278 | appending a group's contribution keeps the valid indices distinct and in range and makes them exactly the survivors of the groups done |
| FusionPostprocess.ReadableStep | fusion/postprocess.go:265-267 | after a group is scanned with UMIs, every candidate of the groups done has a readable UMI |
| FusionPostprocess.GatherGroup | fusion/postprocess.go:259-292 | one outer iteration: None only when a UMI of the group panics; otherwise the valid indices stay distinct and in range and are the survivors of the groups done |
| FusionPostprocess.ValidIndices | fusion/postprocess.go:245-293 | panics (None) iff UMIs are used and some candidate's UMI is unreadable; otherwise the valid indices are distinct, in range, and exactly the survivors |
| FusionPostprocess.SortedValidIndices | fusion/postprocess.go:294 | sorting the valid indices gives the survivors in increasing position order whatever order the map iteration produced |
| FusionPostprocess.FilterByMinSpan | fusion/postprocess.go:244-295 | panics (None) iff UMIs are used and some candidate's UMI is unreadable; otherwise the slice's first r candidates are the survivors in original order, a candidate surviving iff its gene-pair group (UMI-collapsed when UMIs are used) has at least minReadSupport candidates with both spans at least minSpan and it is among those kept |
| BamShard.StartCoord | encoding/bam/shard.go:174-176 | ShardToCoordRange's start: each field converted to int32, giving a valid coordinate |
| BamShard.LimitCoord | encoding/bam/shard.go:174-177 | ShardToCoordRange's limit: each field converted to int32, giving a valid coordinate |
| FastaIndexed.Int64Add | encoding/fasta/fasta_indexed.go:84 | off + int64(n) is an int64 equal to the exact sum up to one wrap-around by 2^64 |
| FastaIndexed.Resized | encoding/fasta/fasta_indexed.go:110-117 | resizeBuf leaves a buffer of exactly n bytes |
| FastaIndexed.IndexedFasta.constructor | encoding/fasta/fasta_indexed.go:31-52 | a new reader holds the file, the entries and the sorted names, with an empty cache at offset 0 |
| FastqScanner.Scanner.constructor | encoding/fastq/scanner.go:67-69 | NewScanner starts at the first line with no error recorded and the requested fields |
| FastqScanner.Scanner.NextLine | encoding/fastq/scanner.go:120-128 | a line is returned iff one remains; it is the next line and the position advances by one, otherwise nothing moves |
| FastqScanner.PairScanner.constructor | encoding/fastq/scanner.go:147-152 | both scanners start at their first line with the same fields and no error |
| FastqScanner.Fill | encoding/fastq/scanner.go:86-116 | with every field bit set the read becomes the record; with none it is left as it was |
| PamFileInfo.ParseNumber | encoding/pam/pamutil/file_info.go:62-68 | mustParseText then int32(): an error where strconv.Atoi fails, otherwise an int32 value |
| BamPairShardInfo.ShardInfo.constructor | encoding/bampair/shard_info.go:43-48 | newShardInfo: both the key tree and the index map are empty |
| BamPairShardInfo.ShardInfo.Len | encoding/bampair/shard_info.go:110-112 | the number of shards indexed |
| BamPairShardInfo.SetFileIndexes | encoding/bampair/shard_info.go:117-119 | the shard's first read index becomes the running count and its padding start that count minus the start padding, in uint64 arithmetic, its counts unchanged |
| BamPairShardInfo.Starts | encoding/bampair/shard_info.go:114-122 | one running uint64 sum per shard, the read count before it |
| BamRecords.ScanNul | encoding/bam/unmarshal.go:93-101 | the scan stops at a zero byte at or after k, or at the last byte when there is none |
| BamRecords.Advance | encoding/bam/unmarshal.go:86-113 | corrected: the field's length, always at least one byte so the walk makes progress, or errCorruptAuxField for an unknown field type, a short B header, or a B array whose element type is Z, H or B |
| BamRecords.FindNul | encoding/bam/unmarshal.go:93-101 | the Z/H loop finds where ScanNul stops |
| BamRecords.AuxStep | encoding/bam/unmarshal.go:86-113 | one turn of the count loop advances as Advance says |
| BamRecords.RefOf | encoding/bam/unmarshal.go:202-218 | no reference for -1, the reference for an ID in [0, nRefs), an error for every other ID |
| BamRecords.AuxOffset | encoding/bam/unmarshal.go:145-146 | the aux data starts after the fixed part and the read name at least |
| GIndexes.EncodeEntry | encoding/bam/gindex.go:156-158 | binary.Write of an entry produces 20 bytes |
| GIndexes.DecodeEntry | encoding/bam/gindex.go:300-332 | a 20-byte entry decodes to a valid entry |
| PyStrings.Split | fusion/benchmark/simulated_benchmark.py:74 | `split(sep)` gives at least one piece |
| PyStrings.Strip | fusion/benchmark/simulated_benchmark.py:51 | `strip()` gives a string no longer than its input that neither starts nor ends with whitespace |
| PyStrings.FirstWord | fusion/benchmark/simulated_benchmark.py:51 | `split()[0]`: a nonempty run of non-space characters, or IndexError (None) when there is none |
| SortCoords.SetLow | cmd/bio-bam-sort/sorter/sort.go:119-121 | `c \| 1` is odd and at most one above c |
| FieldWriters.CopyInto | encoding/pam/fieldio/writer.go:189-199 | copying into a slice of the data's length leaves exactly the data in it |
| FieldBuffers.ByteBuffer.Append | encoding/pam/fieldio/bytebuffer.go:120-140 | the copy into the room after n appends src to the written bytes, keeping the array |
| FusionUtil.ReverseComplement | fusion/util.go:26-30 | the reverse complement has the input's length |
| FusionUtil.FlipBucket | fusion/util.go:32-47 | complementing a byte moves it from bucket k to the complementary bucket, bucket 4 staying 4 |
| FusionKmer.RcValue | fusion/kmer.go:32-43 | the reverse-complement packing of k bases is below 4^k |
| FusionKmer.FirstNonBaseFrom | fusion/kmer.go:92-99 | the first non-base at or after i, every byte before it being a base; None iff every byte from i on is a base |
| FusionKmer.Kmerizer.constructor | fusion/kmer.go:72-77 | a new kmerizer for k-mers of length k, reset to the empty sequence at position 0 |
| CircularBitmap.Bitmap.StoreWord | circular/bitmap.go:111-127 | stores one word and its row's nonzero-word count, changing no other word and keeping the counts in step |
| CircularBitmap.Bitmap.Commit | circular/bitmap.go:111-127 | stores one word and moves the window to [first, last], keeping the bitmap valid and every other word unchanged |
| SimulatedBenchmark.BestOf | fusion/benchmark/simulated_benchmark.py:84-91 | the index found is -1 or a position of the multi-call |
| FusionFragment.Mismatches | fusion/fragment.go:72-77 | the number of differing positions is at most the length |
| Decimals.NatStr | interval/bedunion.go:517-527 | the partner of Atoi: the decimal rendering of a natural number is a string of digits |
| Decimals.IntStr | interval/bedunion.go:517-527 | a negative integer renders as '-' before digits, any other as digits |
| FusionKmer.NextAmbiguousAsWrittenRunsPast | fusion/kmer.go:92-99 | as written, a scan from 0 over a nonempty sequence of bases indexes past its end |

## Left out

- The `Unsafe` variants of the biosimd codecs (UnpackSeqUnsafe, PackSeqUnsafe, UnpackAndReplaceSeqUnsafe, ReverseComp8InplaceNoValidate, ReverseComp4UnsafeInplace) run the same loops as their safe twins without the length check; they are modelled by the safe methods. Writing past the end of a slice's length, into its spare capacity, is not modelled.
- MakeNibbleLookupTable and the simd vector-width globals: table construction and CPU feature detection.
- CircularBitmap: the bitset.NonzeroWordScanner returned by NewRowScanner is not modelled; FinishRowScan states what a full scan leaves behind (a zeroed row).
- BedUnions: scanBEDUnion, NewBEDUnion and NewBEDUnionFromPath read files (bufio.Scanner, gzip); only the per-line tokeniser getTokens and the entry-based builder are modelled.
- BedUnions.NameToIdData: the `refID != ref.ID()` panic is not modelled; the header is given as the list of reference names, so IDs are positions.
- fwdsearchPosType (interval/bedunion.go:98-124) is the same code as ExpsearchPosType and is modelled by it; searchPosType is SearchPosTypes.
- BedUnions.BEDUnion.ContainsByID: a chrID outside the header table panics in the source (index out of range); the model requires it to be in range or equal to the cached ID.
- BamShard: UniversalShard, CoordRangeToShard, NewShardChannel (a random shuffle into a channel), GetByteBasedShards and the BAM/index readers are not modelled; RecordInShard and RecordInPaddedShard are CoordInShard of the record's coordinate. A nil sam.Reference is modelled with ID and Len -1.
- BamShard.CoordGenerator.Generate: compares with the wrap-free Compare; the int32 subtraction of the source differs only for pos = MaxInt32 against the initial position -1. The int32 wrap of Seq++ is not modelled.
- GIndexes: the gzip layer is not modelled (ReadGIndex takes the decompressed bytes); WriteGIndex is not modelled because it reads a BGZF-compressed BAM file; gzip and I/O errors other than a short read are not modelled.
- GIndexes.CompareFilePosOrders: stated for voffsets below 2^63 only; above that the int64 difference of the source can wrap.
- BamIndexes: ReadIndex takes the whole file as bytes; io errors other than a short read are not modelled. Index.Magic is not kept, since a successful read always has "BAI\1" there. A negative count, which makes Go's make panic, is an error result.
- BamIndexOffsets.Sort: sort.SliceStable is modelled by insertion sort; the comparator is a total order on distinct offsets, so the result is the same.
- BamRecords: parseAux, which slices the aux data into sam.Aux values, is not modelled; the record keeps its aux bytes and the field count. UnmarshalHeader is not modelled (it calls sam.Header.DecodeBinary, which is not part of this model). The header is reduced to its number of references, and the record pool to fresh values.
- BamRecords.Unmarshal: the shadow buffer is a fresh array; the unsafe reinterpretation of its bytes as cigar words, doublets and slice headers is modelled by reading the same bytes back on a little-endian machine. The 24-byte slice header size is that of a 64-bit machine.
- PamUtil: Remove (file deletion) and the DefaultVersion and ShardIndexMagic constants are not modelled; error messages keep their fixed text but not the formatted values.
- PamFileInfo: file.Base and file.Dir are modelled as the part after and before the last '/', without path cleaning; ListIndexes, which lists a directory, is not modelled. The regular expression is modelled by a hand-written scanner for that one pattern. A strconv.Atoi panic on a number beyond 64 bits is an Err result; a number beyond 32 bits is truncated as the int32 conversion does.
- PamFileInfo.ParsePathRoundTrip: stated for a nonempty directory, non-negative coordinates or the infinity markers, and an extension without '/' or newline; other values are not written by the PAM writer.
- Varints: Go's encoding/binary is not part of this model's sources; Uvarint, PutUvarint, Varint and PutVarint are modelled from their documented behaviour (seven bits per byte, at most ten bytes, zig-zag for signed values, 0 bytes read on short input and a negative count on overflow).
- FieldBuffers: floats are modelled as their 64-bit patterns (math.Float64bits and Float64frombits are not modelled). A slice is an array whose length is its capacity, except for ByteSlice, which has its own length. RawBytes returns a copy rather than a view that aliases the buffer. A panic is a Panic or Err outcome that says how far the cursor had moved; the formatted text of panic(value) is not modelled.
- FieldBuffers.ByteBuffer.PutBytes: PutString is the same operation on a string's bytes and is not modelled separately.
- FieldBuffers.ResizeBuf: size is a nat; a nil slice is an empty array, so resizing a nil slice to 0 keeps an empty array where Go allocates one.
- FieldBuffers.PutThenRead: the package test writes through PutUint8, PutVarint64 and PutUvarint64 and reads back through a copy of the writer's struct; those names and that copy do not match bytebuffer.go, so the model writes with bytebuffer.go's writers and reads from a buffer over the written bytes.
- FieldWriters: writer.go calls its buffers through a slice-typed API (PutVarint64, PutUvarint64, len(buf)) that differs from the struct in bytebuffer.go; the model uses bytebuffer.go's writers. The Writer around fieldWriteBuf (recordio output, the asynchronous flusher, the buffer pool, block indexes) is not modelled. PutVarintDeltaField, PutVarintField, PutUint16Field, PutUint8Field, PutFloat64Field, putLengthPrefixedBytes, PutBytesField, PutVarint32sField, PutAuxField, PutCigarField and PutSeqField are not modelled; they repeat updateAddrBounds followed by writer calls modelled in FieldBuffers.
- FieldWriters.FieldWriteBuf.UpdateAddrBounds: the panic is an error result with its fixed text; the formatted addresses are left out. Coordinates are compared with Coords.LT.
- FastaIndex: the input is a string whose characters stand for bytes; the output is the sequence of rows the TSV writer is given, without the text formatting, and without the writer's own errors or reader errors other than end of file. The int64 counters are unbounded.
- FastaIndexed: the index regular expression and bufio's line splitting are not part of this model: index lines arrive already split and matched (Matched with the name and the four numbers, or Unmatched with the text). ParseUint's errors, which the source ignores, are not modelled: the numbers arrive parsed.
- FastaIndexed: the file is a byte sequence in memory; Seek fails only for a negative offset, and Read returns every available byte up to the buffer's length (no short reads by the operating system, no other read errors). The mutex is not modelled.
- FastaIndexed: the errors are values of FastaError rather than formatted messages (except Len's and the invalid-line message); a Go panic is the Panicked or ReadPanic outcome.
- FastaIndexed.IndexedFasta.SeqNames: it returns the sorted names field; its properties are NewIndexed's.
- FastaIndexed.GetReturnsBases: the layout assumes the last line of the sequence is followed by its terminator bytes (Laid), which the source's read also needs.
- FastqScanner: bufio.Scanner's line splitting (including the dropped carriage return and the token size limit) is not part of this model: the reader arrives as its lines and the error it reported after them, if any. Read is returned as a new value rather than written in place.
- BamPairShardInfo: the llrb tree is a map from start key to entry (llrb's Insert replaces an equal key). getInfoByRecord, getMateShard and getShardStartFileIdx are not modelled: they need the tree's Floor search and sam.Record, which are not part of this model. newShardInfo is the constructor.
- BamPairShardInfo.ShardInfo.ComputeFileIndexes: when it stops at a missing index, the model does not state that the entries past it are untouched.
- SortCoords: a recCoord is the uint64's value as an integer, and its shifts and or are written out on integers. The Sorter, its batches, sortshard.go and the merge into a BAM file are not part of this model (they are concurrent and file-bound). sam.Record is reduced to its reference id, position and flags.
- SortPam: sortKey and its compare method are not part of this model (their file is not among the sources modelled); SortPam.KeyCompare assumes the order by key, then by sequence number. The unit test's expected start offsets for keys at which a block starts exactly (pam_test.go:50-51,53) are those of the block before, which this assumption does not give; SortPam.FileOffsetExamples covers only the other cases.
- SortPam: the float64 arithmetic of computePAMShardBounds is exact here (record counts are scaled by the block count), so the model does not capture rounding of the running estimate. The int64 totals are exact: they could wrap only past 2^31 blocks. A nil result and an empty one are both the empty sequence.
- SortPam: generatePAMShard and the merge that writes the PAM shards are not part of this model (file I/O and goroutines).
- PyStrings: strings are sequences of code points; whitespace is the ASCII set Python's str.split() and str.strip() use, so non-ASCII whitespace is not modelled. Only the separators the scripts use (nonempty) are modelled for split and replace.
- SimulatedBenchmark: the two files arrive as their lines (None for a missing file); opening and reading them, argument parsing and main are not part of this model. Python's str hash is a parameter of Hash. A Python exception is an error message.
- SimulatedBenchmark.GenePairOrderFree: states order freedom only for names without '/' or '-', as gene names are written.
- BenchmarkUtil: re.match is not modelled. A log line arrives as the patterns it matches and the numbers they capture (LogLine), so the patterns' texts themselves are not checked. glob is the list of INFO files found, each given by its lines, and file reading is not modelled.
- BenchmarkUtil.ParseTime: the float result is kept exact, as whole microseconds, and the duration is also in microseconds. Floating-point rounding is not modelled.
- BenchmarkUtil: n_fragments2 is tracked but not returned, as in the source. The unused initial `duplicates` is not modelled.
- BenchmarkUtil.ParseBazelLabel: only ASCII line breaks ('\n') are treated as special, which matches Python's `.` and `$`. Of the labels with a leading ':', only ":a/b" has a lemma of its own (ColonPrefixRefused); the rest are covered by ParseBazelLabel's own contract.
- FusionPos: Pos is an unbounded integer; NewR2PosNoOverflow shows the one addition stays within int64.
- FusionUtil.IsLowComplexity: the float64 fraction lowComplexityFrac is given as an exact ratio num/den, and the float division's rounding is not modelled.
- FusionUtil.SortGenePair: the gene database is reduced to the set of COSMIC pairs and a map of gene names; log.Panicf is the None outcome.
- fusion/util.go abs and max are not modelled separately; they are plain arithmetic helpers.
- FusionFragment: Go strings are byte sequences; the kmers cache of a Fragment is not modelled. SubSeqCrossSplits assumes R1 is shorter than r2PosOffset.
- FusionKmer: kmer lengths are limited to 1..32, the range the uint64 encoding holds; the reused tmpSeq buffer is a fresh sequence; the mask is written as a remainder modulo 4^k.
- FusionKmer.Kmerizer.Scan: judges a window by its bytes rather than by comparing the packed value with invalidKmer (see Findings), and nextAmbiguousPosition is used with the loop bound it evidently intends.
- FusionPreprocess: Stats is reduced to the two counters preprocessing updates and is returned as a new value instead of being updated in place; the log message for a read without a UMI is not modelled. LowComplexityFraction is the ratio lcNum / lcDen.
- FusionStitcher: reads are assumed shorter than r2PosOffset (ShortReads), so every stitcher coordinate is an R1 position; the float test hd / overlap > 0.1 is written as 10 hd > overlap, which decides the same for these lengths.
- FusionStitcher.Stitcher.Stitch: does not build the fragment's kmer list (the kmers cache is not part of the Fragment model); Stats is reduced to its two stitching counters and returned as a value.
- FusionInfer: sort.Slice and sort.SliceStable are library code; the model states the order they produce (a strict order for gene range infos, a stable descending sort for fusion candidates) and proves that order determines the result. FusionInfo keeps only the gene IDs and spans; the ranges and FusionOrder of inferCandidatePair, and the rest of DetectFusion, are not modelled.
- CircularBitmap.Bitmap.NewBitmap: sizes are unbounded integers, so the int32 product nCirc*rowWidth that sizes the bits slice is not modelled. Where that product wraps to a negative value Go's make panics and the model builds the full bitmap; where it wraps to a smaller non-negative value Go builds a bitmap with too few words, which the model's nCirc × rowWidth array cannot represent. With nCirc = 0 and a negative rowWidth Go returns an empty bitmap, where the model returns null.
- CircularBitmap.Bitmap.Set: the source's Set checks nothing; the model requires the bound CheckPanic's code enforces after the set (lastPos - firstPos < nCirc - 1, from `firstPos+mask <= lastPos` panicking at circular/bitmap.go:216). CheckPanic's doc comment (circular/bitmap.go:200) allows a window one position wider; the model follows the code.
- CircularBitmap.ClearAsWritten: the lastPos retreat is modelled with the corrected IndexNonzeroRev; the as-written search is IndexNonzeroRevAsWritten, a separate finding. It requires the window invariant on entry, which an earlier as-written clear of an already-clear bit can break (ClearAsWrittenOnFreshBitmap).
- EndpointIndexes.Update: requires newPos < PosTypeMax. For newPos = PosTypeMax the source's newPos+1 wraps to the smallest int32, and the exponential search from the old index is not modelled for that argument.
- EndpointIndexes.UnionScanner.Valid: the scanner's invariant asks every endpoint to be below PosTypeMax, so a list bracketed by the PosTypeMax sentinel of an inverted union is not a valid scanner input in the model; scanning an inverted union is not modelled.
- DuplicateKeys, ReadPairs, DuplicateIndex: a sam.Record is reduced to the fields these functions read; the duplicate index itself (newDuplicateIndex, insertSingleton, insertPair, computeDupSets, groupByPosition, groupByPositionAndUmi, tryCorrectUmis, getUmiField, getCanonicalUmi, nextDupSet) is not modelled, because it drives BAM I/O, goroutines and the bagging of whole shards.
- DuplicateMetrics: counters are unbounded integers (Go's int does not overflow at these counts); Metrics.String, writeMetrics and writeOpticalHistogram are formatting and file output and are not modelled. The mutex Merge takes is left out, as is the concurrent use it guards.
- OpticalLocation: opticalDistance (a floating-point distance) and addOpticalDistances (which walks BAM records) are not modelled; only ParseLocation is.
- UmiCorrection: strings.ToUpper is modelled on ASCII letters only; the known-UMI file arrives as its lines, so the bufio.Scanner token limit is not modelled; validateUMI's byte(c) keeps only a rune's low byte, and the model's per-rune test uses that low byte (the rune modulo 256) too; whole lines holding non-ASCII runes are not modelled faithfully, as the next two lines say.
- UmiCorrection.KnownOf: known-UMI lines are modelled as ASCII; lengths count characters where Go's len counts UTF-8 bytes, so for a line with a non-ASCII rune ("Ł" is 2 bytes in Go, 1 character here) the UMI length k and the equal-length check can differ from Go's.
- UmiCorrection.ReadKnown: the same ASCII restriction as KnownOf, whose result it computes.
- Distance: strings are indexed by byte as in the source; the downstream bases come as strings the caller supplies.
- PileupColumns.ParseColsOf: the 64-bit column bitset is the set of its set bits; the errors are values of ColsError (mixed prefixes, a name not found, an empty term) rather than formatted messages.
- PileupStrand.GetStrand: sam.Reference values are compared by address in the source; the model gives each reference an integer identity.
- PileupRows: slices within their capacity are sequences, so a reslice beyond length but within capacity is not modelled; bytesReq is an unbounded integer, so an int overflow for huge rows is not modelled. PutCounts writes the count table with a loop where the source writes each field on its own line.
- BaseStrands.ChrId: the source's chr[3:] panics on a name shorter than three bytes; the model requires three bytes. The "chr" prefix itself is not checked, as in the source.
- BaseStrands.BaseStrandUnmarshaller.UnmarshalBaseStrand: in[:40] within the slice's capacity becomes the requirement of 40 bytes; the pile is returned as a value rather than as the address of its slot.
- BaseStrands.BaseStrandUnmarshaller.Init: the panics of a second init and of a negative size are requirements.
- BaseStrands: ReadBaseStrandsRio's recordio scanning, headers and reference names, WriteBaseStrandsRio and the TSV readers and writers are not modelled (file I/O); the record and trailer codecs they use are.
- FirstReads.FirstreadTable: the nonempty bitmap is a set of (row, bucket) pairs, and murmur3's Sum32 is the parameter nameHash; convertSamr and the seq8 conversion of the processed reads are not modelled.
- FirstReads.FirstreadTable.AddOrRemove: positions are unbounded integers, so the int32 overflow of matePos + maxReadSpan is not modelled.
- GencodeRanges: readRawGTF, ReadGTF, parseInfoFields, sortedTranscripts, isCodingBiotype and the Print functions are not modelled (GTF file parsing and output).
- GencodeRanges.ReverseComplement: strings are byte sequences, so the source's rune-by-rune loop over multi-byte characters is not modelled.
- FilterExprs: the go/parser front end is not modelled; the parser takes the tree it produces. A literal carries the value strconv.Unquote or strconv.ParseInt decoded (None when they fail), regexp compilation and matching are parameters, error messages keep their fixed text without astDebugString, and re() patterns are the decoded string constants.
- FusionPostprocess: FilterDuplicates (fusion/postprocess.go:123-182) is not modelled: its non-UMI branch uses a float64 5% distance threshold, and its UMI branch's replacement of near UMIs depends on the ReproduceBug switch.
- FusionPostprocess.GroupCandidatesByGenePair: the highwayhash of a candidate's gene pairs is replaced by the gene-pair sequence itself, so hash collisions are not modelled; log output of DiscardAbundantPartners is left out.

## Findings

| source | as written | input that shows it | evidently intended | confidence | as-written member | corrected member |
|---|---|---|---|---|---|---|
| circular/circular.go:7-10 | `2 << (63 - LeadingZeros64(uint64(x)))`; for x == 0 the shift count wraps to 2^32-1 and the result is 0 | x = 0 | a power of two strictly greater than x (1 for x = 0) | not executed | Circular.NextExp2AsWrittenAtZero | Circular.NextExp2 |
| biopb/coord.go:50-56 | Compare returns int32 differences, which wrap around | (0, MaxInt32) against (0, -1) | negative, zero or positive as r < r1, r = r1, r > r1 | not executed | Coords.CompareAsWrittenWraps | Coords.Compare |
| circular/bitmap.go:151-158 | Clear decrements wordPops whenever the word is zero after clearing, even if it was zero before | clearing bit 0 of row 0 of a fresh bitmap | the count drops only when a nonzero word becomes zero ("nothing bad happens if the bit was already clear") | not executed | CircularBitmap.ClearAsWrittenOnFreshBitmap | CircularBitmap.Bitmap.Clear |
| circular/bitmap.go:27-42 | after wrapping around, circPause stays 0 instead of circStop, so the search runs past stop | 8 slots, only slot 3 occupied, start 9, stop 6 | the nonzero position found searching backward from start, or stop | not executed | CircularBitmap.IndexNonzeroRevAsWrittenOvershoots | CircularBitmap.IndexNonzeroRev |
| interval/bedunion.go:531 | `end0 <= start1` refuses a 1-based inclusive range naming one base | "chr1:5-5" | [4, 5), the same base as "chr1:5" | not executed | BedUnions.ParseRegionStringAsWrittenRejectsSingleBase | BedUnions.ParseRegionString |
| interval/bedunion.go:255-262 | a reference strictly between start and limit whose list is present but empty counts as a hit; an empty limit list is indexed at [0] | entries chr1 [0,10), chr2 [5,5), chr3 [0,10); region chr1:20 to chr3:0 | false: no position of the region is in the union | not executed | BedUnions.IntersectsEmptyListExample | BedUnions.BEDUnion.Intersects |
| encoding/bam/unmarshal.go:105-112 | the element size of a B array is looked up in the same jumps table, so a Z, H or B element type gives -1 | aux bytes "XXBZ" followed by a count of 8 | an element type of size -1 (Z, H or B) is a corrupt field, as the source's errCorruptAuxField is for other bad types; an element type outside the table keeps its size 0, as written | not executed | BamRecords.AsWrittenStalls | BamRecords.CountAuxFields |
| encoding/bam/unmarshal.go:166-169 | the name length is nLen - 1 with no check that nLen is positive | a 32-byte record whose byte 8 is 0 | l_read_name counts the NUL, so 0 is a corrupt record | not executed | BamRecords.NameLengthAsWrittenNegative | BamRecords.Unmarshal |
| encoding/fasta/fasta_indexed.go:94-102 | on a short read, read returns before bufOff and the slice's length are updated, but the buffer already holds bytes read from the new offset | a 100-byte file whose bytes 0 and 50 differ: read(0, 10), then read(50, 60) fails, then read(0, 10) returns bytes 50..60 | the cache always holds the file's bytes at its window | not executed | FastaIndexed.ReadAsWrittenServesStaleBytes | FastaIndexed.IndexedFasta.Read |
| fusion/kmer.go:121-125 | a window is rejected when its packed value equals invalidKmer, which is also the packing of 32 T's; nextAmbiguousPosition then loops on `si < len(seq)` and indexes past the end | kmer length 32, sequence of 32 'T' (32 'A' reaches the "shoulnd't happen" panic instead) | the all-T window is reported like any other all-base window | not executed | FusionKmer.ScanAsWrittenPanicsOnAllT | FusionKmer.Kmerizer.Scan |
| fusion/kmer.go:92-99 | the loop tests `si < len(seq)`, which never changes, instead of `i < len(seq)`, so when no ambiguous base follows si the index runs past the end | any nonempty all-base sequence from si = 0, such as "ACGT" | the first ambiguous position at or after si, or len(seq) when there is none | not executed | FusionKmer.NextAmbiguousAsWrittenRunsPast | FusionKmer.NextAmbiguousPosition |
| cmd/bio-pamtool/cmd/filter.go:335-345 | the ! branch reads x.vtype before checking p.err, and parse returned nil for an unknown operand | the filter `!nosuchfield` | the "unknown expr type" error set for the operand is reported, as the binary branch does | not executed | FilterExprs.NotOfUnknownPanics | FilterExprs.ParseFilterExprNeverPanics |
| cmd/bio-pamtool/cmd/filter.go:361-367 | == and != are accepted on two bools, but evaluate compares only ints and strings and reaches log.Panicf at lines 284-285 | the filter `paired == paired` | true when the two bools are equal (false for !=) | not executed | FilterExprs.BoolEqualityPanics | FilterExprs.EvaluateIsMeaning |
