# Verification model of the GSYM library and its cache

LLVM GSYM files map addresses to functions, source lines, inline frames and call sites.
This project models the library that reads, writes and transforms them and the
process-safe cache that stores them, and proves that bytes, trees and address tables
agree with one simple semantic model.

The main results, each for every input or every run:

* **Codec.** LEB128 (section 7.6 of DWARF Version 5), the line program, the recursive
  FunctionInfo records and the version one and version two images decode to exactly what
  was encoded (`UlebRoundTrip`, `LineRoundTrip`, `FunctionRoundTrip`, `EncodeBuilder`).
  What the decoders accept is said exactly (`FunctionIsExact`, `V1HeaderIsExact`,
  `DirectoryIsExact`), and `FormatBytes` fixes the bytes themselves. The special-opcode
  window is optimal (`ChosenWindowIsOptimal`).
* **Verification.** The reader accepts exactly the images that decode to sound functions
  over readable files at sorted addresses (`CheckIsExact`, `VerifyIsExact`,
  `DecodedIsAdmissible`), and the builder refuses nothing that could be written and read
  back (`EncodedIsAdmissible`).
* **Lookup.** The binary search, the walk over equal starts, the early-stopping line
  interpreter and the streaming inline scan answer as a search of the decoded model would
  (`LookupAddress`, `ScanNode`); what that is, is said of the selected function itself
  (`LookupIsReport`).
* **Writer.** The in-place sort, deduplication, merging and repair (`SortByOrderingKey`,
  `DedupKeepsRichest`, `MergeLosesNothing`, `FinalizedEncodable`), and file renumbering
  (`BuilderFor`). Each policy has its own outcome (`FinalizedIs`), and the sort order is
  said measure by measure (`FunctionLeqMeans`). Segmentation is greedy packing (`Split`),
  because more functions never take fewer bytes when no file entry is repeated
  (`ModelGrows`). Decoding, renumbering and writing together keep the meaning of a whole image (`TranscodeImage`), and the bytes are
  a function of the model (`EncodeBuilder`, `TranscodeModel`).
* **Routing.** A segment answers for its span as the unsplit table does exactly when the
  runs of equal starts have the same records (`RoutingIsExact`), and then lookups in its
  bytes report what lookups in the unsplit image report (`SegmentLookup`,
  `DistinctSegmentLookup`); so do lookups in the image written again (`TranscodedLookup`).
* **DWARF shaping.** The stack walk builds the recursive forest, which the validator
  accepts (`CollectDescendants`, `ExtractDetails`), entry by entry (`NodeIsExact`,
  `ForestIsExact`), and row clamping keeps the line mapping (`ForRange`).
* **Cache.** Every interleaving of population, pruning and scrubbing is safe
  (`EveryRunIsSafe`), uninterrupted operations do what they are for (`BeginAlone`,
  `PublishAlone`, `ScrubAlone`, `RecordAlone`), and batched pruning is least-recently-used
  pruning (`Prune`, `EvictsShortestPrefix`, `OldestGoFirst`).

Six promises hold under hypotheses, each with the exact condition:

* strings must be free of NUL: `CutIdentity` and `NulFreeReadsBack` are equivalences;
* functions that start together must have the same records in the segment, which sorts
  them by end, as in the unsplit table, which need not: `RoutingIsExact` is an equivalence,
  distinct starts are enough (`DistinctStartsRoute`), `CutRunMisroutes` and
  `ResortedRunMisroutes` are counterexamples, and `CutRunHarmless` shows that not every cut
  inside such a run does harm;
* no function of the last run may be empty for the spans to cover every address the unsplit
  table resolves: `CoverageIsExact` is an equivalence, `EmptyFunctionUncovered` a
  counterexample (src/transform.rs:254-260 promises routing and coverage without either
  condition);
* for a segment, or an image written again, to give equal lookup results no inline name on
  the path may turn out empty: an image may give a nonzero offset to an empty string, which
  a lookup shows and writing the image again drops. `SameResults`, `SegmentLookup` and
  `TranscodedLookup` are equivalences, `LoseNulName` a counterexample;
* the sort is independent of input order exactly when no two different functions tie, for
  which distinct (range, name) pairs are enough: `OrderIndependentIff` and
  `SortOrderIndependent`, with `SortDependsOnTies` as a counterexample;
* a saturated prune total must not make a prefix of the evictable objects look enough:
  `PruneMeetsGoal` is an equivalence, `SaturationStopsEarly` a counterexample, and
  `ReportIsExact` says when the reported total is exact.

A seventh is a property of row clamping: `ForRange` keeps the location at the start of a range
exactly when the selected sequence covers the start, has a row there or has none before it.
The tree validator does not look at row order, but the encoder does (`AdmissibleEncodes`).

How the files are laid out: each codec has a specification over byte sequences (for example
`Leb`, `Line`, `InlineInfo`, `FunctionInfo`) and methods over the mutable `Cursor` and
`Encoder` classes that are proved to compute it (`LineCodec`, `InlineCodec`,
`FunctionCodec`). A `Result` plays the part of the source's errors; `:-` is its `?`. Lemma
bodies begin with `hide` where unfolding definitions would only slow the solver.

## Model

| member | source | states |
|---|---|---|
| Wire.FromToBytes | src/endian.rs:141-174 | reading the bytes of a fixed-width integer gives the integer, in either byte order and at every width |
| Wire.ToFromBytes | src/endian.rs:141-174 | and the bytes of the integer read are the bytes it was read from |
| Wire.BytesAre | src/endian.rs:238-290 | little-endian bytes come least significant first, big-endian ones last |
| FormatBytes.MagicBytes | src/format/v1.rs:84-122 | the four bytes that tell the byte order, in both orders |
| FormatBytes.LebBytes | src/format/leb.rs:163-188 | the bytes of small and of two-digit numbers, signed and unsigned |
| FormatBytes.V1HeaderBytes | src/format/v1.rs:84-144 | a version one header byte by byte |
| FormatBytes.V2HeaderBytes | src/format/v2.rs:78-124 | a version two header byte by byte |
| FormatBytes.SectionBytes | src/format/v2.rs:243-291 | a directory entry byte by byte |
| FormatBytes.LineProgramBytes | src/format/line.rs:141-194 | a line program byte by byte, its special opcodes included |
| FormatBytes.InlineBytes | src/format/function.rs:405-515 | a nested inline tree byte by byte |
| FormatBytes.CallSiteBytes | src/format/function.rs:587-652 | a call-site table byte by byte |
| FormatBytes.MergedBytes | src/format/function.rs:551-585 | a merged function behind its count and length |
| FormatBytes.FunctionBytes | src/format/function.rs:259-315 | a function record byte by byte: size, name, each info record with its number, the end marker |
| Wire.FromBytesPadded | src/endian.rs:158-173 | zero bytes on the most significant side leave the value alone, so reading an odd width through an eight-byte buffer is exact |
| Wire.ToBytesWindow | src/endian.rs:238-290 | the low-order window of the eight-byte encoding is the narrow encoding, so writing an odd width from it is exact |
| Wire.ReadWriteUint | src/endian.rs:141-290 | an integer that fits its width reads back as itself, whatever follows it |
| Endian.Cursor.Take | src/endian.rs:80-94 | takes exactly the next bytes or, when too few are left, fails with the position unchanged |
| Endian.Cursor.ReadUint | src/endian.rs:141-174 | every legal width agrees with the fixed-width specification in value, error and new position |
| Endian.Encoder.WriteUint | src/endian.rs:238-290 | appends the bytes of the specification or, for a value or width that does not fit, fails and appends nothing |
| Endian.Encoder.AlignTo | src/endian.rs:296-309 | appends zeros up to the next multiple and nothing else |
| Endian.Encoder.PatchU32 | src/endian.rs:311-330 | overwrites exactly the four bytes at the offset, or fails without a change when they do not exist |
| Leb.UlebRoundTrip | src/format/leb.rs:15-68 | section 7.6 of DWARF Version 5: the bounded reader returns what the writer wrote exactly for values of the requested width, and rejects every wider one |
| Leb.SlebRoundTrip | src/format/leb.rs:78-139 | the signed counterpart: two's-complement values of the width come back, all others are rejected |
| Leb.WriteUleb | src/format/leb.rs:163-175 | the writing loop appends the base-128 digits of the value |
| Leb.WriteSleb | src/format/leb.rs:177-188 | the same for signed values, stopping at the byte that carries the sign |
| Leb.ReadUlebBounded | src/format/leb.rs:15-57 | the reading loop, with its early exits on wide digits, returns what the digits denote and stops after them |
| Leb.ReadSlebBounded | src/format/leb.rs:78-123 | the same with sign extension |
| Leb.UlebFromParse | src/format/leb.rs:15-57 | accumulating digits from the least significant gives the number the encoding denotes |
| Leb.SlebFromParse | src/format/leb.rs:78-123 | setting every bit above the last payload is the two's-complement reading of its sign bit |
| Leb.WideDigitRejected | src/format/leb.rs:15-57 | stopping at a digit that leaves the 64-bit word loses nothing: the whole value would have been rejected |
| DeltaRange.ChosenWindowIsOptimal | src/format/line.rs:196-241 | the chosen window is at most 14 wide and no window that wide holds more of the line deltas, as far as the saturating 32-bit count can tell |
| DeltaRange.ChosenWindowIs | src/format/line.rs:196-241 | the window starts at the least delta whose 14 above hold most, ends at the greatest delta among them, and takes in zero when it is a single delta from 1 to 13 |
| DeltaRange.ChosenWindowIsExactlyOptimal | src/format/line.rs:196-241 | the window is optimal outright exactly when no window surpasses the first one that fills the saturating count, if one does |
| DeltaRange.FewRowsAreOptimal | src/format/line.rs:196-241 | so it is with at most 2^32 rows |
| DeltaRange.ScanSorted | src/format/line.rs:219-236 | the two-pointer scan finds the least start whose window scores highest, and the greatest delta in it |
| DeltaRange.ChooseDeltaRange | src/format/line.rs:196-241 | early exit, scan and widening to zero together compute the chosen window |
| Line.LineRoundTrip | src/format/line.rs:44-194 | decoding an encoded row list emits exactly those rows, one per row even where addresses repeat, whatever bytes follow |
| Line.EncodeRowsSucceeds | src/format/line.rs:141-194 | encoding succeeds exactly on non-empty, address-sorted rows at or above the base |
| Line.RowsFromSorted | src/format/line.rs:44-110 | decoded rows come out in address order, none below the base |
| Line.LookupFindsRowInEffect | src/format/line.rs:25-42 | on a payload that decodes, the early-stopping lookup finds the last decoded row at or below the address |
| Line.FeedSeeks | src/format/line.rs:25-110 | stopping the interpreter early finds the same row as searching the whole decoded table |
| Line.SpecialRowDecodes | src/format/line.rs:243-257 | a special opcode carries exactly the line and address deltas it was made from |
| Line.AdvanceDecodes | src/format/line.rs:171-190 | the opcodes that move one row on emit exactly that row, special opcode or not |
| LineCodec.ReadEffect | src/format/line.rs:63-108 | executes one opcode as specified and stops after its operands |
| LineCodec.ParseProgram | src/format/line.rs:44-110 | the interpreter loop with a callback that may stop it gives the outcome of the specification |
| LineCodec.LookupLine | src/format/line.rs:25-42 | on a payload that decodes, the row in effect at the address |
| LineCodec.EncodeLines | src/format/line.rs:141-194 | appends the program of the specification, or fails with its error |
| InlineInfo.RangesRoundTrip | src/format/function.rs:349-403 | an encoded range list decodes to itself and stops where it ends; neither the count check nor the order check can reject it |
| InlineInfo.InlineRoundTrip | src/format/function.rs:405-515 | a nested inline tree decodes to itself and stops where it ends: no count, order, containment or depth check of the decoder can reject it |
| InlineCodec.ReadInline | src/format/function.rs:405-467 | the recursive reader agrees with the specification in tree, error and position |
| InlineCodec.WriteInline | src/format/function.rs:469-515 | the recursive writer appends the specified bytes or fails with its error |
| FunctionInfo.FunctionRoundTrip | src/format/function.rs:177-337 | whenever encoding succeeds, decoding the bytes at the same start, whatever follows, gives the identical function with lines, inline tree, nested merged functions and call sites, and consumes exactly those bytes |
| FunctionInfo.ExactRoundTrip | src/format/function.rs:150-175 | the same for a record that must use up its input |
| FunctionInfo.RecordsRoundTrip | src/format/function.rs:198-237 | the record stream of a function, read from defaults, rebuilds it |
| FunctionInfo.MergedListRoundTrip | src/format/function.rs:517-585 | length-prefixed merged functions decode to themselves, and are long enough for their count to pass |
| FunctionInfo.CallSitesRoundTrip | src/format/function.rs:587-652 | a call-site table decodes to itself |
| AcceptedBytes.FunctionIsExact | src/format/function.rs:177-257 | a function decodes exactly from its size, its name, records of different known kinds that each say what it holds, and the end marker; no field is set without a record |
| AcceptedBytes.RecordsAre | src/format/function.rs:198-257 | a record stream that decodes is such a sequence of records |
| AcceptedBytes.CallSitesAreExact | src/format/function.rs:587-652 | a call-site table is accepted exactly as the sites whose encoding it is |
| AcceptedBytes.MergedIsExact | src/format/function.rs:517-585 | a merged table is accepted exactly when it is the count and then each function's own record behind its length |
| FunctionCodec.ReadFunction | src/format/function.rs:177-237 | the reader over the cursor agrees with the specification in function, error and position |
| FunctionCodec.ReadRecords | src/format/function.rs:198-237 | the record loop, with duplicate detection, agrees with the specification |
| FunctionCodec.ReadMergedTable | src/format/function.rs:517-549 | count, lengths and nested records agree with the specification |
| FunctionCodec.WriteFunction | src/format/function.rs:259-315 | appends the encoding of the specification or fails with its error |
| FunctionCodec.PatchLength | src/format/function.rs:317-337 | replaces a zero placeholder by the length of everything written after it, or reports a length past 32 bits |
| FunctionCodec.EndRecord | src/format/function.rs:317-337 | back-patching turns placeholder and payload into the record of the specification |
| FunctionCodec.WriteMergedPart | src/format/function.rs:551-585 | writes the count and the back-patched nested functions |
| InlineScan.ScanRanges | src/reader/lookup.rs:383-408 | streams a range list it never stores: same bytes consumed, first start, and whether some range holds the address |
| InlineScan.ScanNode | src/reader/lookup.rs:375-452 | whenever the payload decodes to a tree, scanning succeeds, consumes the same bytes and appends exactly the named nodes on the path that takes the first matching child at each level |
| InlineScan.ScanChildren | src/reader/lookup.rs:431-447 | the same for a list of children: only the first match contributes |
| Headers.V1HeaderRoundTrip | src/format/v1.rs:84-144 | a version one header reads back with its byte order |
| Headers.V2HeaderRoundTrip | src/format/v2.rs:78-124 | a version two header reads back with its byte order |
| AcceptedBytes.V1HeaderIsExact | src/format/v1.rs:84-144 | a version one header is accepted exactly when the file starts with its fields and has room for the build ID |
| AcceptedBytes.V2HeaderIsExact | src/format/v2.rs:78-124 | a version two header is accepted exactly when the file starts with its bytes |
| Headers.ReadV1Header | src/format/v1.rs:84-122 | the cursor reads what the specification says, with the same errors |
| Headers.ReadV2Header | src/format/v2.rs:78-106 | the cursor reads what the specification says, with the same errors |
| Layout.AcceptedSectionsAreApart | src/format/v2.rs:243-384 | in an accepted directory no two sections overlap each other, the header or the directory, whatever the order of the entries, and all end inside the file |
| AcceptedLayout.ChainedIsApart | src/format/v2.rs:358-384 | the running end accepts non-empty sections exactly when no two overlap and none starts before the end of the directory |
| AcceptedLayout.DirectoryIsExact | src/format/v2.rs:215-384 | a directory is accepted exactly when it lists no kind twice and every required one, all non-empty, inside the file, aligned, of the size their counts give, and apart |
| AcceptedLayout.V1LayoutIs | src/reader/layout.rs:41-70 | in a version one layout addresses, offsets, files, strings and functions follow one another to the end of the file |
| AcceptedLayout.V2LayoutIs | src/reader/layout.rs:72-113 | a version two layout takes each section from the entry of its own kind |
| Layout.ReadEntries | src/format/v2.rs:243-291 | the directory loop with its set of kinds seen agrees with the specification |
| Layout.CheckSections | src/format/v2.rs:293-384 | the checks with a running previous end decide exactly whether the sections are well formed and chain without overlap |
| Layout.ReadDirectory | src/format/v2.rs:243-291 | loop, required sections and validation together |
| Verified.VerifiedEntry | src/reader.rs:464-519 | each entry of a verified image is the checked function at its table address, and the addresses are sorted |
| Verified.CheckedResolves | src/reader/owned.rs:15-215 | validation covers everything the conversion to the owned model reads, so a checked function always converts |
| Verified.RawDecodes | src/reader/function.rs:23-116 | the raw view of a record shows the range and name of the decoded function, and its records decode from there |
| Reader.VerifyFile | src/reader/owned.rs:117-131 | the bitmap of verified files never changes the outcome of checking a file |
| Reader.ValidateAt | src/reader/owned.rs:15-46 | validating over the bitmap gives the outcome of the recursive check at every merged depth; what that accepts is `CheckIsExact` |
| Reader.VerifyTable | src/reader.rs:464-519 | one pass that checks an entry and hands it to the visitor gives the outcome of checking all and converting all |
| Reader.VerifyRemainingFiles | src/reader.rs:501-505 | skipping files already verified changes nothing |
| Reader.ReadAll | src/transform.rs:19-42 | decoding everything in one pass is verifying first and converting afterwards; what comes out is `DecodedIsAdmissible` |
| Acceptance.CheckIsExact | src/reader/owned.rs:15-215 | a record is accepted exactly when it converts and the function it converts to is sound: valid ranges, rows and call sites inside it, inline ranges inside their parents, merged functions over its own range, nested within the limit, and every file reference readable |
| Acceptance.VerifyIsExact | src/reader.rs:464-519 | an image is accepted exactly when the string table starts with NUL, the first file is empty, all files can be read, and each entry lies at a valid address no lower than the one before and is acceptable |
| Acceptance.DecodedIsAdmissible | src/transform.rs:19-42 | every decoded function is sound, within the merged depth and refers to files of the table, the starts are sorted, and the builder takes it back exactly when no function at any merged depth has an empty name |
| Lookup.FindAddressIndex | src/reader.rs:570-649 | on a verified image the typed binary search returns the last entry at or below the address, or none |
| Lookup.RunStart | src/reader/lookup.rs:178-198 | walking back reaches the first entry of the run of equal starts |
| Lookup.MatchInRun | src/reader/lookup.rs:178-198 | walking forward stops at the first match or where the run ends |
| Lookup.MatchingFunction | src/reader/lookup.rs:178-198 | on a verified image: the first function in table order that is empty or contains the address, among those with the greatest start at or below it |
| Lookup.LoadedAddressTable | src/reader/layout.rs:41-113 | a file that parses holds its whole address table |
| Frames.ScanRecords | src/reader/lookup.rs:303-340 | one pass over the records keeps the row in effect and the inline and call-site payloads of the decoded function |
| Frames.PrepareFrames | src/reader/lookup.rs:211-248 | name, location, inline path and call sites are those of the decoded function |
| Frames.EmitFrames | src/reader/lookup.rs:250-301 | frames come innermost first: the innermost at the row in effect, each other one where its callee was called from |
| Frames.ReadCallSitePatterns | src/reader/lookup.rs:454-479 | the patterns of exactly the call sites that return to the offset, in order |
| Frames.CheckedPath | src/reader/owned.rs:102-115 | on the path of a checked tree every name and call file resolves |
| Frames.LookupAddress | src/reader/lookup.rs:91-176 | on a verified image a lookup never fails, selects the function a search of the decoded table would, and reports the frames and patterns of the decoded function |
| Report.LookupIsReport | src/reader/lookup.rs:91-301 | what a lookup reports, said of the selected function alone: one frame per named node on the way down that always takes the first child holding the address, innermost first, each caller at its callee's call site; the innermost at the last row at or below the address; the patterns of the call sites at that offset and no other; each part only when asked for |
| Report.PathIs | src/reader/lookup.rs:375-452 | the inline frames of an address are those of the named nodes on that way down |
| Report.PatternsAre | src/reader/lookup.rs:454-479 | the patterns are those of the sites at the offset, in order |
| Validation.ValidateInline | src/validation.rs:104-135 | accepts exactly the admissible inline trees and returns the largest file reference in them |
| Validation.ValidateTree | src/validation.rs:48-102 | accepts exactly the admissible functions at every merged depth and returns the largest file reference at any inline or merged depth |
| Validation.AdmissibleIsSound | src/validation.rs:48-135 | whatever the builder accepts passes the reader's own recursive checks |
| Encodability.AdmissibleEncodes | src/format/function.rs:259-585 | a validated function is refused by the encoder only for a size when its rows are in order, and never encodes when they are not |
| Encodability.EncodedIsAdmissible | src/validation.rs:48-135 | conversely a sound function with names that encodes is one the validator accepts, so it refuses nothing that could be written and read back |
| Builder.GsymBuilder.AddFile | src/builder.rs:286-302 | returns the position of the file, appends it only if it is new, and fails only when the index space is used up |
| Builder.GsymBuilder.AddFunction | src/builder.rs:313-318 | appends exactly the functions the tree validator accepts |
| Builder.GsymBuilder.ValidateFileReferences | src/builder.rs:352-361 | the shortcut over the running maximum decides exactly whether every reference, at any inline or merged depth, lies in the table |
| Builder.ValidIsDistinct | src/builder.rs:286-302 | the interned table never holds the same file twice |
| Ordering.FunctionOrder | src/writer/finalize.rs:178-243 | range, richness, name and tiebreak form a total preorder |
| Ranking.FunctionLeqMeans | src/writer/finalize.rs:178-243 | the order measure by measure: start, end, then presence of an inline tree and its nodes, height and ranges, number of rows, of call sites, of merged functions and patterns, then the name |
| Ranking.QualityIs | src/writer/finalize.rs:203-243 | the measures of an inline tree are its number of nodes, the length of its longest path and its number of ranges |
| Ranking.LexMeans | src/writer/finalize.rs:178-201 | lists are compared at their first difference, a prefix first |
| Ordering.DeferredRankingAgrees | src/writer/finalize.rs:178-201 | measuring inline trees changes no comparison of aliases unless both have one |
| Ordering.SortOrderIndependent | src/writer/finalize.rs:21-80 | with distinct (range, name) pairs the sorted list does not depend on the input order |
| Ordering.OrderIndependentIff | src/writer/finalize.rs:21-80 | every input order gives the same sorted list exactly when no two different functions tie |
| Ordering.SortDependsOnTies | src/writer/finalize.rs:49-54 | the hypothesis is needed: two functions that differ only in what the key does not measure keep their input order |
| FinalizeSort.HasTwoInlines | src/writer/finalize.rs:36-45 | stopping at the second inline tree decides exactly whether two aliases have one |
| FinalizeSort.AliasesSortAlike | src/writer/finalize.rs:36-58 | within a run of equal ranges the deferred key sorts as the full key does |
| FinalizeSort.RankAliases | src/writer/finalize.rs:21-61 | re-sorting each run of equal ranges gives the order of the full key with ties by position |
| FinalizeSort.ApplyOrder | src/writer/finalize.rs:62-80 | following cycles with swaps puts every function in the place the order names, in the same array |
| FinalizeSort.SortByOrderingKey | src/writer/finalize.rs:21-80 | terminates with exactly the stable sort by range, full richness, name and tiebreak, in place |
| Finalize.CompactLineRows | src/normalize.rs:3-7 | drops exactly the rows whose location is that of the last kept row |
| Finalize.CompactKeepsLocation | src/normalize.rs:3-14 | compacting sorted rows changes the location in effect at no address |
| Finalize.Deduplicate | src/writer/finalize.rs:96-122 | the loop over the last kept record folds the list as specified |
| Finalize.SortedRichness | src/writer/finalize.rs:178-219 | among sorted aliases a record without detail never follows one with detail |
| Finalize.DedupKeepsRichest | src/writer/finalize.rs:96-122 | on a sorted list: strictly increasing ranges, no empty record where a later one starts, the same covered addresses, and each survivor is the last and richest of its range in everything but possibly the name |
| Finalize.MergeEqualRanges | src/writer/finalize.rs:82-94 | the loop over the last kept record merges as specified |
| Finalize.MergeLosesNothing | src/writer/finalize.rs:82-94 | one record per range, and every input function is kept, with all that was merged into it before, or merged into one that is |
| Finalize.RepairSound | src/writer/finalize.rs:124-172 | giving a record and everything merged into it a repaired range that keeps its records preserves the reader's semantic rules |
| Finalize.RepairedRange | src/writer/finalize.rs:124-144 | the repaired range starts where the function does and reaches to the end of the first executable range that holds the start, as far as 32 bits allow; it is empty when none does |
| Finalize.FinalizedEncodable | src/writer/finalize.rs:5-172 | whatever the policy and repair, functions that satisfy the reader's semantic rules still do, file references stay in the table, starts are sorted, and the result is empty only for an empty input |
| FinalizedSet.FinalizeFunctions | src/writer/finalize.rs:5-19 | the outcome per policy, of functions the reader would accept: deduplicated, the ranges are apart, every record is a survivor of its range, every range is represented and the same addresses covered; merged, every function is held by a record and the ranges strictly increase; preserved, the compacted functions in key order; and then the last range is repaired or not |
| FinalizedSet.FinalizedIs | src/writer/finalize.rs:5-19 | the composed specification has that outcome |
| FinalizedSet.CompactIs | src/normalize.rs:3-7 | compacting keeps exactly the rows whose location is not that of the row before |
| FinalizedSet.DedupIs | src/writer/finalize.rs:96-122 | deduplication keeps, of each run of equal ranges, the last record, which may take an alias's name, and no empty record where a later one starts |
| FinalizedSet.MergeIs | src/writer/finalize.rs:82-94 | merging keeps the first record of each run of equal ranges, with those that differ from the one before them merged into it |
| FinalizedSet.PolicyIs | src/writer/finalize.rs:13-17 | each policy gives its own outcome |
| FinalizedSet.LendsIs | src/writer/finalize.rs:96-122 | an alias lends its name exactly when the other name is empty and its own is not, or when it is a mangled name that spells the other, unmangled one behind its length |
| FinalizedSet.DigitsAreDecimal | src/writer/finalize.rs:96-122 | that length is in decimal, without leading zeros |
| FinalizedSet.RepairIs | src/writer/finalize.rs:124-172 | the last record moves exactly when it is empty, repair is wanted, its start lies in executable code and it is still sound over the repaired range |
| FinalizedSet.FitsIsSound | src/writer/finalize.rs:146-172 | the records of an empty function fit the repaired range exactly when the function over that range is sound |
| Strings.StringTable.Intern | src/writer/semantic.rs:48-80 | the string lies at the returned offset with a NUL behind it; a known string is found again and appends nothing, earlier offsets stay good; the table depends on the strings and their order alone |
| Strings.EncodeFunctionNames | src/writer/semantic.rs:102-159 | the encoded function is the function with an offset for each string at every inline and merged depth, interned in a fixed order; fails only for merged nesting or a full table |
| Strings.ListNamesTell | src/writer/semantic.rs:48-80 | the offset of a function or inline name is zero exactly where the name is empty |
| Strings.InternFiles | src/writer/semantic.rs:83-93 | every file's directory and basename lie at the recorded offsets, interned in table order |
| Sections.WriteTable | src/writer/encode.rs:222-255 | succeeds exactly when every value fits the width, and appends the table |
| Sections.UintTableReads | src/reader.rs:525-568 | reading entry i of a written table gives value i |
| Sections.WriteFunctionSection | src/writer/encode.rs:194-220 | lays the records out one after the other, failing only if one does not encode; each lies at its reported offset, a multiple of four in absolute file space |
| ImageLayout.V1Parses | src/reader/layout.rs:41-70 | parsing a version one file finds every section where the writer put it |
| ImageLayout.V2Parses | src/reader/layout.rs:72-113 | parsing a version two file accepts the writer's directory and finds every section where the writer put it |
| ImageLayout.DirectoryValid | src/format/v2.rs:293-384 | section validation accepts the writer's own directory |
| ImageLayout.DirectoryParses | src/format/v2.rs:243-291 | the parser reads back a valid directory, entry by entry |
| ImageLayout.VersionDispatches | src/reader/layout.rs:30-39 | the version field sends each file to its own parser |
| NulFree.CStringIdentity | src/reader/function.rs:146-171 | reading a stored string loses nothing exactly when it holds no NUL |
| NulFree.CutIdentity | src/reader/function.rs:146-171 | a function survives the string table unchanged exactly when none of its strings, at any inline or merged depth, holds a NUL |
| Storage.StoredString | src/reader/function.rs:146-171 | a stored string reads back up to its first NUL |
| Storage.StoredFunction | src/reader.rs:544-568 | the record at a written table entry decodes to the function that was encoded there |
| Storage.FunctionReads | src/reader/owned.rs:15-215 | a function written from a sound model passes every check of the reader and converts back to the model, strings cut at their first NUL |
| ImageRoundTrip.StoredDecodes | src/transform.rs:19-42 | verification accepts an image that stores a model, and decoding everything returns its header fields, file table and functions |
| Writer.AddressOffsetWidth | src/writer/encode.rs:22-32 | the least of the four legal widths that holds the largest offset |
| Writer.WriteAddressOffsets | src/writer/encode.rs:222-242 | succeeds exactly when no start precedes the base and every offset fits; appends padding and the table |
| Writer.WriteFileTable | src/writer/encode.rs:244-255 | succeeds exactly when count and offsets fit; appends count and table |
| Writer.WriteLayout | src/format/v2.rs:126-213 | the running offset places the sections of any parts of the given sizes, and overflow is reported exactly when the end leaves 64 bits |
| Writer.EncodeV1 | src/writer/encode.rs:34-99 | succeeds exactly when counts, positions, string offsets and build ID fit a version one file and the functions encode, and then the bytes load and store the content; they are those of the version one layout, section by section |
| Writer.EncodeV2 | src/writer/encode.rs:101-173 | succeeds exactly when counts and the end of the file fit and the functions encode, and then the bytes load and store the content; they are those of the version two layout, section by section |
| Writer.AssembleV2 | src/writer/encode.rs:128-173 | padding as it is written fills exactly the gaps of the layout |
| Writer.EncodeBuilder | src/writer/mod.rs:66-118 | if encoding succeeds, the parser accepts the bytes, verification passes, and decoding everything returns version, byte order, base address, build ID, file table and finalized functions, with offset zero exactly where a function or inline name is empty; it fails only for a model that cannot be written or content that does not fit the version; bytes and failure are a function of the files, the functions and the options; the finalized functions have the outcome of their policy and repair (`FinalizedIs`) |
| Writer.NulFreeReadsBack | src/writer/semantic.rs:48-58 | the model comes back unchanged exactly when none of its strings holds a NUL |
| Segments.Gallop | src/transform.rs:290-319 | doubling ends with a window that fits below and, unless everything fits, one that does not above |
| Segments.LinearEndIs | src/transform.rs:290-319 | the linear scan takes one function and then as many more as keep the window within the target; one more would not |
| Segments.SelectEnd | src/transform.rs:290-354 | a window of several functions is within the target however sizes behave, and its bytes decode to it; with sizes that never shrink the end is that of a linear scan; refining m candidates takes at most 3 times the bits of m probes |
| Segments.BitsIsLog | src/transform.rs:320-353 | the bits of n are one more than its binary logarithm |
| RecordSizes.FunctionGrows | src/format/function.rs:259-315 | whatever the string offsets, renumbering files upwards makes no record smaller, at any inline or merged depth |
| RecordSizes.RowsGrow | src/format/line.rs:141-194 | nor any line program: no opcode that sets a file is saved |
| StringSizes.TableSize | src/writer/semantic.rs:48-159 | the size of the string table is that of the set of strings of files and functions, in whatever order they are interned |
| RisingTables.TablesEmbed | src/transform.rs:206-213 | without repeats the file table of fewer functions lies in that of more, in the same order |
| RisingTables.CompactMoved | src/normalize.rs:3-14 | compacting and renumbering upwards commute |
| RisingTables.RepeatedFileFalls | src/transform.rs:206-213 | with a repeated entry an index can fall |
| WindowSizes.SectionSize | src/writer/encode.rs:194-220 | a function section ends within one padding of the aligned total of its records, which does not depend on their order |
| WindowSizes.V1Size | src/writer/encode.rs:34-99 | the size of a version one file in terms of its counts, strings and function section |
| WindowSizes.V2Size | src/writer/encode.rs:101-173 | the same for version two |
| WindowSizes.ModelGrows | src/transform.rs:290-319 | when no file entry is repeated, writing more of the functions of a model takes no fewer bytes |
| Segments.WindowsGrow | src/transform.rs:290-319 | so the sizes of the windows of a segment never shrink |
| Segments.EncodeWindow | src/transform.rs:290-297 | a window is renumbered and written on its own, and its bytes decode to its functions with their meanings; bytes and failure are a function of the window |
| Segments.Split | src/transform.rs:274-378 | consecutive windows of the sorted functions, each renumbered and written on its own with its span, equal to greedy packing wherever sizes never shrink, hence outright when every window can be written and no file entry is repeated, and no failure unless the target is zero, there is no function or some window cannot be written |
| Segments.SegmentsConserve | src/transform.rs:286-377 | the windows the splitter cut concatenate to the sorted functions of the model, the counts add up, and the bytes of each segment decode to its window with every meaning: nothing lost, duplicated or moved |
| Segments.SpansMeet | src/transform.rs:361-375 | a segment ends exactly where the next one starts |
| Segments.SegmentEndIs | src/transform.rs:361-375 | a segment ends where the next one starts, the last one at the greatest end of its functions, or at the largest address when its last function is empty |
| Segments.PositionsAreExact | src/transform.rs:361-375 | against the list in segment order, each segment answers with the same entry for every address of its span exactly when no cut separates functions with the same start |
| Segments.SplitRunMisroutes | src/transform.rs:361-375 | in segment order a cut inside a run of equal starts changes the entry found for the run's own address |
| Segments.SplitRunExample | src/transform.rs:361-375 | a concrete pair of functions cut apart whose entries differ |
| Segments.BelowFirstResolvesNowhere | src/reader/lookup.rs:178-198 | an address below the first span resolves nowhere |
| Routing.AnswerIsSelected | src/reader/lookup.rs:178-198 | the answer of a table, the first match in the run of the greatest start, is the function the search selects |
| Routing.NothingIsSelected | src/reader/lookup.rs:178-198 | where the search selects nothing there is no answer |
| Routing.RecordsDecide | src/reader/lookup.rs:178-198 | two runs of one start answer every address up to a limit alike exactly when they have the same records: the functions that end later than all before them, up to the first empty one |
| Routing.SpanIsExact | src/reader/lookup.rs:178-198 | a table that keeps some function of every run of a span answers for the whole span as the full table does exactly when the records of every run agree |
| Routing.RearrangedIsExact | src/reader/lookup.rs:178-198 | a rearranged table answers every address there is as before exactly when the records of every run agree |
| Routing.RoutingIsExact | src/transform.rs:254-375 | against the unsplit table in its own order, the written segment whose span holds an address answers with the same function for every address of the span exactly when the records of each run of the span agree in both orders |
| Routing.DistinctStartsRoute | src/transform.rs:254-375 | with distinct starts routing is exact wherever the cuts fall |
| Routing.WholeRunIsRearranged | src/transform.rs:292-297 | a run that no cut splits is in its segment as a rearrangement |
| Routing.CutRunMisroutes | src/transform.rs:361-375 | an input on which a cut through a run misroutes |
| Routing.ResortedRunMisroutes | src/transform.rs:277-284 | an input on which no cut splits a run, and sorting it by end misroutes |
| Routing.CutRunHarmless | src/transform.rs:361-375 | an input on which a cut splits a run, and every address is still answered alike |
| Routing.SpansAre | src/transform.rs:361-375 | the spans together hold exactly the addresses from the first start to the last end |
| Routing.AnsweredPastEnd | src/transform.rs:363-370 | past the last end the unsplit table still answers exactly when the last run holds an empty function |
| Routing.CoverageIsExact | src/transform.rs:254-375 | every address the unsplit table resolves lies in some span exactly when no function of the last run is empty |
| Routing.EmptyLastIsCovered | src/transform.rs:363-370 | when the last function is empty only the largest address is left out |
| Routing.EmptyFunctionUncovered | src/transform.rs:363-370 | an input with an empty function before the last one: the unsplit table resolves an address past the last end |
| RoutedLookup.ReportIsAnswer | src/reader/lookup.rs:91-176 | what a lookup reports shows the function that the decoded table answers with, or nothing where it has no answer |
| RoutedLookup.MeaningAnswers | src/reader/lookup.rs:178-198 | tables of the same meaning answer with functions of the same meaning |
| RoutedLookup.SameResults | src/reader/lookup.rs:200-301 | functions of the same meaning, the second in an image whose offsets are zero exactly for the empty names, give equal lookup results, frames and call-site patterns included, exactly when the first lookup meets no inline name that turns out empty |
| RoutedLookup.SameAnswerSameReport | src/reader/lookup.rs:91-176 | where two tables answer alike, lookups in two images of the same meaning report the same range and functions of the same meaning, and equal results exactly when the first lookup meets no inline name that turns out empty |
| RoutedLookup.SegmentLookup | src/transform.rs:254-375 | a lookup in the bytes of the segment whose span holds the address reports what a lookup in the unsplit image reports, where the records of the runs agree; the results are equal exactly when no inline name on the path turns out empty |
| RoutedLookup.DistinctSegmentLookup | src/transform.rs:254-375 | with distinct starts this holds of every segment and address |
| RoutedLookup.TranscodedLookup | src/transform.rs:251-253 | the same for the whole image written again in another version and byte order, where the records of the runs agree in the writer's order |
| RoutedLookup.WrittenIsExact | src/transform.rs:251-253 | written again, a table answers every address as before exactly when the records of its runs agree in the writer's order |
| RoutedLookup.DistinctTranscodedLookup | src/transform.rs:251-253 | with distinct starts a lookup of any address reports the same |
| RoutedLookup.TellingPathNamed | src/reader/lookup.rs:375-452 | where offset zero stands for the empty names, no path holds a frame without a name |
| NulName.InlinedWritten | src/validation.rs:104-135 | a function with an inline name that begins with NUL is accepted and written |
| NulName.NulNameIsLost | src/reader/lookup.rs:411-447 | the image of that function and the same image written again report different results |
| NulName.LoseNulName | src/transform.rs:251-253 | building, writing, looking up, writing again and looking up again in one run, with nothing refused on the way and different results |
| Renumber.MarkInlineFiles | src/transform.rs:454-461 | marks exactly the files an inline tree refers to; fails only for nesting or a reference past the table |
| Renumber.MarkFunctionFiles | src/transform.rs:463-479 | the same at every merged depth |
| Renumber.UsedFiles | src/transform.rs:410-428 | entry zero and exactly the files some function refers to |
| Renumber.InternUsed | src/transform.rs:206-213 | the used files go into the new table in their order and are found at their new index |
| Renumber.RemapMeans | src/transform.rs:481-517 | remapping keeps what each line, call site and merged function refers to |
| Renumber.RemapKeepsAdmissible | src/transform.rs:481-517 | renumbering changes nothing the tree validator looks at |
| Renumber.BuilderFor | src/transform.rs:189-219 | every reference resolves to the same directory and basename as before, the new table is the empty entry and the distinct referenced entries, and rebuilding succeeds exactly when the references lie in the table and the validator accepts the functions; table and functions are determined by the input |
| DecodedModel.DecodedIsRegular | src/transform.rs:19-42 | every decoded model has its line rows in address order at every merged depth and no NUL in any string |
| Transcode.CompactedMeans | src/normalize.rs:3-14 | renumbering and compacting keep a function's file and line at every address, its inline tree, merged functions and call sites |
| Transcode.RanksAre | src/writer/finalize.rs:178-243 | renumbering and compacting leave the sort key of every function what it is for rows compared by file and line |
| Transcode.SortedMeans | src/transform.rs:430-444 | under the preserving policy the functions come back in the order of the writer's key, each with its meaning: renumbering does not change the order |
| Transcode.TranscodeModel | src/transform.rs:251-253 | if a decoded model, or a window of one, can be written in the chosen version and byte order, the bytes verify and decode to the same base address, build ID and functions with the same meaning in the writer's order, over a table of exactly the files referred to, with offset zero for the empty names; bytes and failure are a function of the model |
| Transcode.WindowIsRegular | src/transform.rs:292-297 | what transcoding needs of a model holds of every window of its functions, so it covers each segment |
| Transcode.TranscodeImage | src/transform.rs:50-52 | the same from image to image |
| Dies.CoalesceRanges | src/convert/dwarf/dies.rs:246-256 | sorting and merging in place computes the coalesced list |
| Dies.CoalescedInsideParents | src/convert/dwarf/dies.rs:184-256 | each coalesced union lies inside a single parent range and the unions are again sorted with gaps |
| Dies.CoalescedHolds | src/convert/dwarf/dies.rs:246-256 | coalescing keeps exactly the addresses the ranges hold, whatever their order |
| Dies.ForestAdmissible | src/validation.rs:104-135 | every tree of the forest is one the validator accepts under its parents, unless it is too deep |
| DieForest.NodeIsExact | src/convert/dwarf/dies.rs:184-244 | an inlined entry makes a node exactly when it is named and some listed range with room lies inside a parent range; the node holds an address exactly when such a range does, and name, call file and call line are the entry's |
| DieForest.SiteIsExact | src/convert/dwarf/dies.rs:169-182 | a call-site entry gives a site exactly when its return address lies in the function, at that offset and with its patterns |
| DieForest.ForestIsExact | src/convert/dwarf/dies.rs:79-167 | from the root down the forest holds the nodes the entries make, in entry order, each below the nearest node made by an entry above it |
| DieForest.PostorderIsLeaving | src/convert/dwarf/dies.rs:79-182 | the call sites come in the order in which their entries are left |
| DieForest.LeavingIsOrder | src/convert/dwarf/dies.rs:152-182 | that order lists each entry once, before the entries that are left later |
| Dies.FinishInlines | src/convert/dwarf/dies.rs:152-167 | popping the frames the next entry leaves keeps the walk on its way to the recursive forest |
| Dies.FinishCallSites | src/convert/dwarf/dies.rs:169-182 | the same for call sites and their order |
| Dies.CollectDescendants | src/convert/dwarf/dies.rs:79-150 | the two stacks build exactly the forest and the postorder call-site list of the recursive reading of the entries; the walk fails exactly when the forest is too deep for the format; entry by entry they are `ForestIsExact` and `PostorderIsLeaving` |
| Dies.ExtractDetails | src/convert/dwarf/dies.rs:45-77 | the function's own node over that forest passes the tree validator, and the call sites lie inside the function |
| LineImport.CountBelow | src/convert/dwarf/lines.rs:63-120 | the cut point of the entries below an address |
| LineImport.ClampedLocation | src/convert/dwarf/lines.rs:85-110 | clamping the row in effect at the start keeps the location at every address of the range exactly when it happens or is not needed |
| LineImport.CompactedRows | src/normalize.rs:3-7 | compacting leaves sorted rows of the same list, no two neighbours alike, and the same location everywhere |
| LineImport.ForRange | src/convert/dwarf/lines.rs:63-120 | sorted rows inside the range without repeats; with or without a selected sequence, what is in effect at an address is the last row of the selection inside the range, or else what was in effect at the start in the sequence that covers it; for a selected sequence that is the location of its full row list at every address exactly when the location at the start is known; said of the entries alone: what is in effect at an address is the last entry of the selection at or below it inside the range, or else the row in effect at the start, and every row has the file and line of an entry of the selection; clamping looks at the first listed sequence that covers the start, and carries the selected number if one is selected |
| LineImport.ImportedIsLocated | src/convert/dwarf/lines.rs:63-120 | the rows the import specifies locate every address of the range by the entries |
| LineImport.ClampingIs | src/convert/dwarf/lines.rs:93-104 | the clamping sequence is the first listed one that covers the start and matches the selection; none only if there is none |
| LineImport.InEffectIsLast | src/convert/dwarf/lines.rs:84-110 | the row in effect is that of the last entry of the selection at or below the address |
| Population.RecordedFailureHonoured | gsym-cache/src/manage.rs:108-304 | a failure record is honoured with its kind from the moment it is recorded until it expires, never later, and rounds the lifetime up by less than a second |
| Population.ExpirationIs | gsym-cache/src/manage.rs:273-304 | a lifetime is refused exactly when it is zero, above a day, or expires past 64 bits of seconds; otherwise the record expires in the first whole second at or after it |
| Population.RecordHonoured | gsym-cache/src/manage.rs:108-166 | a record is honoured exactly before it expires and with less than a day and a second to go |
| Population.HonouredIsRecorded | gsym-cache/src/manage.rs:108-166 | whatever is honoured is the record of that kind and expiry, byte for byte |
| FormatBytes.FailureBytes | gsym-cache/src/manage.rs:108-166 | a failure record byte by byte |
| Population.EventKeeps | gsym-cache/src/manage.rs:70-182 | every step of begin, publish, record, prune and scrub, of any process at any time, keeps the invariants; what the steps achieve is said by the lemmas on uninterrupted operations |
| Population.EveryRunIsSafe | gsym-cache/src/manage.rs:476-719 | from an empty cache, in every interleaving: one holder per lock slot, no build with both an object and a failure record, only verified bytes linked, nothing overwritten, and objects removed only under their slot |
| Population.UndamagedObjectsAreValid | gsym-cache/src/manage.rs:625-661 | unless something outside damages a file, every object in the cache is valid for its build |
| Population.CachedImagesVerify | gsym-cache/src/manage.rs:625-646 | with the reader's own verification every object loads, carries its build ID and verifies |
| Population.BeginAlone | gsym-cache/src/manage.rs:70-106 | without interruption beginning a population ends within six steps: idle for a valid object, a current failure or a held slot, otherwise owning the slot with nothing of the build on disk |
| Population.PublishAlone | gsym-cache/src/manage.rs:476-497 | without interruption publishing links exactly the staged bytes if they are valid and nothing otherwise, and releases the slot |
| Population.PruneAlone | gsym-cache/src/maintenance.rs:930-955 | without interruption a prune candidate goes exactly when its slot is free and the object is still the one that was scanned |
| Population.ScrubAlone | gsym-cache/src/maintenance.rs:292-329 | without interruption a scrubbed object goes, with any failure record, exactly when its slot is free and it is present and not valid; otherwise the files stay |
| Population.ScrubRecordAlone | gsym-cache/src/maintenance.rs:292-329 | a scrubbed failure record goes exactly when its slot is free and it is present and not current |
| Population.RecordAlone | gsym-cache/src/manage.rs:273-304 | recording a failure writes exactly the record that will be honoured, or nothing when the lifetime is refused, and releases the slot |
| Population.StagesInOrder | gsym-cache/src/manage.rs:476-497 | staging appends what is written, in order |
| Population.PopulateAlone | gsym-cache/src/manage.rs:70-182 | begin, stage and publish together link exactly the concatenation of what was staged, if it is valid and the build was to be populated |
| Population.ClashAlone | gsym-cache/src/manage.rs:680-719 | publishing that finds an object in place leaves a valid one there and replaces any other by what was staged |
| Population.TouchSpares | gsym-cache/src/maintenance.rs:930-955 | an object used after it was listed is not pruned on the strength of that listing |
| Population.AbandonedIsTaken | gsym-cache/src/manage.rs:70-182 | a build given up by one process, crashed or not, is taken over by the next that asks for it |
| Naming.NamedIsRecognized | gsym-cache/src/maintenance.rs:577-831 | a scanned file is taken for the entry of a build exactly when it has the name that entry is stored under |
| Naming.FillKeyedName | gsym-cache/src/layout.rs:162-188 | fills the buffer with that name and leaves the rest of it alone |
| FormatBytes.NameBytes | gsym-cache/src/layout.rs:162-188 | the name of a build ID byte by byte: the first byte names the directory, the others the file, in lower-case hexadecimal |
| FormatBytes.HashBytes | gsym-cache/src/layout.rs:120-132 | a published vector of the 64-bit FNV-1a hash |
| FormatBytes.SlotBytes | gsym-cache/src/layout.rs:120-132 | and the slot it folds to |
| SlotSet.BusySlots.Contains | gsym-cache/src/maintenance.rs:865-869 | the bit of a slot says whether the slot is in the set |
| SlotSet.BusySlots.Insert | gsym-cache/src/maintenance.rs:871-880 | adds exactly the slot and reports whether it was new |
| SlotSet.RaiseReads | gsym-cache/src/maintenance.rs:864-881 | raising one flag of a 64-bit word leaves the others |
| Prune.RetainKeepsOldest | gsym-cache/src/maintenance.rs:687-717 | one step of the bounded heap keeps the oldest objects seen so far |
| Prune.OldestCandidates | gsym-cache/src/maintenance.rs:209-231 | a scan returns the oldest objects outside the slots known to be busy, in order |
| Prune.LowWatermark | gsym-cache/src/maintenance.rs:1045-1051 | dividing before multiplying still gives four fifths rounded down, without saturating |
| Prune.BatchSizeIsLeast | gsym-cache/src/maintenance.rs:1021-1043 | the batch is the least size from 256 to 65536 that holds the excess objects and the share of all objects that holds the excess bytes, or 65536 |
| Prune.ObjectTotals | gsym-cache/src/maintenance.rs:719-727 | adding up with saturation gives the saturated totals |
| Prune.ObjectStore.TryRemove | gsym-cache/src/maintenance.rs:930-955 | removes exactly the scanned object; busy exactly when its slot is held, changed exactly when it is no longer the same |
| Prune.PruneProgress.RecordBusy | gsym-cache/src/maintenance.rs:406-412 | counts each busy slot once |
| Prune.RunBatch | gsym-cache/src/maintenance.rs:236-264 | one batch takes the simple policy as far as its candidates go, always advances, and bounds the scans by remaining objects and unseen busy slots |
| Prune.Prune | gsym-cache/src/maintenance.rs:172-275 | with fixed busy slots the batches remove what the one-at-a-time policy removes and report its totals and counts, and the loop terminates |
| Prune.EvictsShortestPrefix | gsym-cache/src/maintenance.rs:188-274 | what goes is the shortest prefix, by last use, build ID and length, of the objects nobody is working on that meets the goal, or all of them |
| Eviction.OldestGoFirst | gsym-cache/src/maintenance.rs:627-717 | no evicted object is younger than one evicted after it, or than one that stays and whose slot is free; every evicted one was listed and had a free slot |
| Eviction.AgeMeans | gsym-cache/src/maintenance.rs:627-717 | the order of objects: last use, then the build identifiers at their first difference, then length |
| Prune.PruneMeetsGoal | gsym-cache/src/maintenance.rs:188-274 | in exact totals: every shorter prefix leaves a triggered dimension above four fifths of its limit; and the evicted one does not unless nothing evictable is left, exactly when no proper prefix of the evictable objects looks enough in the saturated totals without being enough |
| Prune.ExactTotalsNeverMislead | gsym-cache/src/maintenance.rs:719-727 | totals that fit 64 bits never make a prefix look enough too early |
| Prune.MisleadsInBytes | gsym-cache/src/maintenance.rs:719-727 | with a limit on bytes alone a prefix misleads exactly when the exact total leaves 64 bits and the prefix takes at least 2^64 - 1 less the low mark and less than the exact total less the low mark |
| Prune.ReportIsExact | gsym-cache/src/maintenance.rs:400-404 | the reported bytes are those of the survivors exactly when the total did not saturate or nothing with a length is left |
| Prune.EntriesAreExact | gsym-cache/src/maintenance.rs:400-404 | the same for the entry count |
| Prune.SaturationStopsEarly | gsym-cache/src/maintenance.rs:719-727 | two objects of the largest length for which a saturated total stops the run above its limit |
| Prune.SkipsBusySlots | gsym-cache/src/maintenance.rs:406-412 | the busy slots reported are those of the objects up to the last one visited |
| Prune.ListingOrderIrrelevant | gsym-cache/src/maintenance.rs:207-274 | the order in which directories are listed does not matter |

## Left out

- ELF parsing, relocation loading, debug-information download and companion discovery, the gimli, object, zerocopy, hashbrown, memmap2, rustix and tempfile libraries: foreign code and input/output.
- The command-line tool, scripts, benchmarks and fuzz targets.
- Error texts, payloads and byte offsets inside errors, warnings, verification and inline counts, capacity hints, `Debug` and `Display`.
- Machine sizes: `usize` is taken to be 64 bits wide, and memory never runs out. A file or string table whose size would leave 64 bits is an overflow error where the source would fail to allocate or report one.
- Hash tables are maps, the library's sorts are an insertion sort (stable, and the only sorted list where keys have no ties), the binary heap is a sorted list, and `partition_point` is counting.
- Locks and link-without-replace are atomic steps; a crash is a process that abandons its state and frees its lock. Failing file operations, directory walking, ownership and permission checks and fsync are not modelled.
- Staging files and their cleanup, age-based pruning while a directory is iterated, orphan access markers and access-marker clocks: they depend on directory-iteration semantics.
- `FileIndices`, `scan_line_sequence_offsets`, `split_path` and the path helpers of src/convert/dwarf/lines.rs: the sequence list and the file numbering are inputs of `ForRange`.
- Reading DIE attributes: the walk starts from a depth-first list of (depth, tag, ranges, name, call location).
- FunctionCodec.WriteFunction: does not model the alignment flag of `encode_into`, because every caller passes false.
- Leb.ReadUlebBounded: the single-byte fast path is folded into the loop.
- Builder options other than those the encoder reads.
- Which of several errors is reported first is fixed for the codecs, for `ReadAll` and for the section writer; elsewhere contracts say when an operation fails, not with which error.
- Frames.LookupAddress: says nothing about the answer on an image that loads but does not verify, because no decoded model exists to compare it with.
- Segments.Split: when a file entry is repeated, greedy packing is stated under the hypothesis that sizes never shrink, because one more function can then lower the index of a repeated file (`RepeatedFileFalls`).
- Population.EveryRunIsSafe: which bytes are valid for a build is a parameter; `CachedImagesVerify` instantiates it with image verification.
- Prune.Prune: other processes hold a fixed set of slots and change nothing else; interleavings with them are `EveryRunIsSafe`. The last-use time of an object is read off the object.
- FinalizeSort.SortByOrderingKey: the two library sorts are on index lists as in the source, the cycle-following swaps on the array of functions.
- Writer.EncodeBuilder: `validate_file_table` and the header encoders cannot fail on what the builder and the writer pass them, so their error branches are not written out.
