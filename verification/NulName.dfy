/** An inline name that begins with NUL: the builder accepts it, a lookup in the image
    shows a frame without a name, and writing the image again drops the frame. */
module NulName {
  import opened Words
  import opened Wrappers
  import opened Wire
  import opened Leb
  import opened Headers
  import opened Model
  import opened Sorting
  import opened InlineInfo
  import opened FunctionInfo
  import opened InlineScan
  import opened Layout
  import opened Image
  import opened Line
  import opened Encodability
  import opened DecodedModel
  import opened Builder
  import opened Validation
  import opened AddressSearch
  import L = Lookup
  import opened Frames
  import opened Ordering
  import opened Finalize
  import opened Strings
  import opened NulFree
  import opened ImageLayout
  import opened Sections
  import opened Storage
  import opened Renumber
  import opened Writer
  import opened Transcode
  import opened Routing
  import opened RoutedLookup

  const RANGE := AddressRange(16, 32)
  const NAME: seq<uint8> := [102]
  const INLINE_FRAMES := LookupOptions(true, true, false)

  /** A function whose inline tree is one node over its range. */
  function Inlined(name: seq<uint8>): Function {
    Function(RANGE, NAME, [], Some(InlineNode([RANGE], name, 0, 0, [])), [], [])
  }

  const NUL_INLINED := Inlined([0])

  function Version2(order: ByteOrder): WriterOptions {
    WriterOptions(V2, order, Some(16), [], Preserved, false, [])
  }

  // --------------------------------------------------------- the input can be written

  lemma InlinedAccepted(name: seq<uint8>)
    ensures Admissible(Inlined(name), None, 0) && FilesAtMost(Inlined(name), 0) && WithinMergedDepth(Inlined(name), 0)
  {
    assert RANGE in [RANGE];
  }

  function EncodedInlined(name: uint64): EncodedFunction {
    EncodedFunction(RANGE, 1, None, Some(EncodedInlineNode([RANGE], name, 0, 0, [])), [], [])
  }

  lemma NodeEncodes(name: uint64, order: ByteOrder)
    ensures
      var node := EncodeInline(EncodedInlineNode([RANGE], name, 0, 0, []), order, 8, 16, 0);
      node.Ok? && |node.value| <= 100
  {
    hide WriteUint;
    assert EncodeRangeList([], 16, 32) == Ok([]) && [RANGE][1..] == [];
    WrittenSize(order, name);
    UlebBytesSmall();
  }

  lemma UlebBytesSmall()
    ensures |UlebBytes(0)| == |UlebBytes(1)| == |UlebBytes(16)| == 1
  {
  }

  lemma WrittenSize(order: ByteOrder, value: uint64)
    ensures WriteUint(order, value, 8).Ok? && |WriteUint(order, value, 8).value| == 8
  {
  }

  lemma InlinedEncodes(name: uint64, order: ByteOrder)
    ensures EncodeFunction(EncodedInlined(name), order, 8, 0).Ok? && |EncodeFunction(EncodedInlined(name), order, 8, 0).value| <= 200
  {
    hide WriteUint, EncodeInline, WriteU32;
    NodeEncodes(name, order);
    WrittenSize(order, 1);
  }

  lemma SectionSmall(name: uint64, order: ByteOrder)
    ensures
      var section := SectionFrom([EncodedInlined(name)], order, 8, 0);
      section.Ok? && |section.value.1| <= 300
  {
    hide EncodeFunction;
    InlinedEncodes(name, order);
    var first := EncodeFunction(EncodedInlined(name), order, 8, 0).value;
    assert [EncodedInlined(name)][1..] == [];
    assert SectionFrom([], order, 8, |first|) == Ok(([], []));
  }

  /** The strings of the one file and the one function. */
  lemma InlinedNames(name: seq<uint8>)
    requires name == [0] || name == []
    ensures NamedFiles([EMPTY_FILE], EMPTY_TABLE) == Ok(([(0, 0)], EMPTY_TABLE))
    ensures
      var names := NamedList([Inlined(name)], EMPTY_TABLE, 0);
      names.Ok? && names.value.0 == [EncodedInlined(if name == [] then 0 else 3)] && |names.value.1.bytes| <= 10
  {
    hide WithinMergedDepth;
    NoFilesNamed();
    var f := Inlined(name);
    InlinedNamed(name);
    assert [f][1..] == [];
  }

  lemma NoFilesNamed()
    ensures NamedFiles([EMPTY_FILE], EMPTY_TABLE) == Ok(([(0, 0)], EMPTY_TABLE))
  {
    assert [EMPTY_FILE][..0] == [];
    assert NamedFiles([], EMPTY_TABLE) == Ok(([], EMPTY_TABLE));
    assert [] + [(0, 0)] == [(0, 0)];
    assert NamedPair(([], EMPTY_TABLE), EMPTY_FILE) == Ok(([(0, 0)], EMPTY_TABLE));
  }

  lemma InlinedNamed(name: seq<uint8>)
    requires name == [0] || name == []
    ensures
      var named := NamedFunction(Inlined(name), EMPTY_TABLE, 0);
      named.Ok? && named.value.0 == EncodedInlined(if name == [] then 0 else 3) && |named.value.1.bytes| <= 10
  {
    var table := Table([0] + NAME + [0], EMPTY_TABLE.entries[NAME := 1]);
    assert Interned(EMPTY_TABLE, NAME) == Ok((1, table));
    assert NAME != [0] && |table.bytes| == 3;
    var node := InlineNode([RANGE], name, 0, 0, []);
    assert NamedInlineList([], table) == Ok(([], table));
    var after := if name == [] then table else Table(table.bytes + [0] + [0], table.entries[[0] := 3]);
    assert NamedInline(node, table) == Ok((EncodedInlineNode([RANGE], if name == [] then 0 else 3, 0, 0, []), after));
    assert NamedList([], after, 1) == Ok(([], after)) && NamedSites([], after) == Ok(([], after));
  }

  lemma InlinedFits(name: uint64, order: ByteOrder, strings: seq<uint8>)
    requires |strings| <= 10
    ensures FileFits(Content(V2, order, 16, 1, [EncodedInlined(name)], [(0, 0)], strings, []), [])
  {
    hide EncodeFunction, SectionFrom, V2LayoutOf;
    SectionSmall(name, order);
    var functions := [EncodedInlined(name)];
    assert Offsets(functions, 16) == [0];
    NothingOffset();
    forall parts: Parts | Sized(parts, 1, 1, 1, |strings|, |SectionFrom(functions, order, 8, 0).value.1|)
      ensures V2LayoutOf(V2Header(1, 0, 16, 1), order, [], parts, 1).functions.end < U64_LIMIT
    {
      SmallLayout(order, parts);
    }
  }

  lemma NothingOffset()
    ensures Fits([0], 1)
  {
    ExpWidths();
  }

  lemma SmallLayout(order: ByteOrder, parts: Parts)
    requires |parts.addresses| + |parts.infos| + |parts.files| + |parts.strings| + |parts.functions| <= 1000
    ensures V2LayoutOf(V2Header(1, 0, 16, 1), order, [], parts, 1).functions.end < U64_LIMIT
  {
    hide AlignUp;
  }

  lemma InlinedWritten(name: seq<uint8>, order: ByteOrder)
    requires name == [0] || name == []
    ensures FinalFunctions([Inlined(name)], Version2(order)) == [Inlined(name)]
    ensures BuilderBytes([EMPTY_FILE], [Inlined(name)], Version2(order)).Ok?
  {
    hide FilesAtMost, FileFits, ContentBytes, NamedFiles, NamedList, Admissible, WithinMergedDepth;
    InlinedAccepted(name);
    InlinedFinal(name, order);
    InlinedNames(name);
    var table := NamedList([Inlined(name)], EMPTY_TABLE, 0).value.1;
    InlinedFits(if name == [] then 0 else 3, order, table.bytes);
  }

  lemma InlinedFinal(name: seq<uint8>, order: ByteOrder)
    ensures FinalFunctions([Inlined(name)], Version2(order)) == [Inlined(name)]
  {
    var f := Inlined(name);
    assert [f][1..] == [] && CompactList([]) == [];
    assert Compact(f) == f;
    assert Sort(FunctionLeq, [f]) == Insert(FunctionLeq, f, Sort(FunctionLeq, []));
  }

  /** The model it decodes to, with the name cut to nothing, can be written again. */
  lemma CutWritten(order: ByteOrder)
    ensures ModelBytes(DecodedGsym(V2, order, 16, [], [EMPTY_FILE], [Inlined([])]), V2, order).Ok?
  {
    hide BuilderBytes, Rebuildable, Rebuilt;
    CutRebuilt();
    InlinedWritten([], order);
  }

  lemma CutRebuilt()
    ensures Rebuildable([EMPTY_FILE], [Inlined([])]) && Rebuilt([EMPTY_FILE], [Inlined([])]) == ([EMPTY_FILE], [Inlined([])])
  {
    hide Admissible;
    var f := Inlined([]);
    InlinedAccepted([]);
    assert forall i: nat :: InlineRefersTo(f.inline.value, i) ==> i == 0;
    var used := UsedBy([EMPTY_FILE], [f]);
    var remap := RemapTo([EMPTY_FILE], used, [EMPTY_FILE]);
    assert TableFrom([EMPTY_FILE], used, 1) == [EMPTY_FILE];
    assert RemapInlineList([], remap) == [];
    assert RemapLines([], remap) == [] && RemapList([], remap) == [];
    assert Remap(f, remap) == f;
    assert [f][1..] == [] && RemapList([f], remap) == [f];
    assert Rebuilt([EMPTY_FILE], [f]) == ([EMPTY_FILE], RemapList([f], remap));
  }

  // ------------------------------------------------------------------ what is shown

  lemma CutInlined()
    ensures Cut(NUL_INLINED) == Inlined([]) && CutList([NUL_INLINED]) == [Inlined([])] && CutFiles([EMPTY_FILE]) == [EMPTY_FILE]
  {
    assert CString([0]) == [] && CString(NAME) == NAME && CString([]) == [];
    assert CutInlineList([]) == [] && CutList([]) == [] && CutSites([]) == [];
    assert [NUL_INLINED][1..] == [];
  }

  /** The model an image with the name decodes to. */
  lemma DecodedCut(data: seq<uint8>, order: ByteOrder)
    requires ReadsBack(data, Version2(order), [EMPTY_FILE], [NUL_INLINED])
    ensures DecodeAll(Load(data).value) == Ok(DecodedGsym(V2, order, 16, [], [EMPTY_FILE], [Inlined([])]))
  {
    hide Load, DecodeAll, Verify, AllTell, CutList, CutFiles;
    CutInlined();
  }

  /** The one entry keeps the name's offset. */
  lemma NulOffset(image: Image, d: DecodedGsym)
    requires Verify(image).Ok? && AllTell(Verify(image).value, [NUL_INLINED])
    requires DecodeAll(image) == Ok(d) && d.functions == [Inlined([])]
    ensures
      var es := Verify(image).value;
      && |es| == 1 && es[0].range == RANGE && es[0].inline.Some?
      && es[0].inline.value.name != 0 && es[0].inline.value.ranges == [RANGE]
      && StringAt(image, es[0].inline.value.name) == Ok([])
  {
    hide Verify, FilesFrom, StringAt, SitesAt;
    var es := Verify(image).value;
    ResolvedAt(image, es);
    assert Tells(es[0], NUL_INLINED);
    ResolvedParts(image, es[0], Inlined([]));
  }

  lemma FirstSelected(es: seq<EncodedFunction>)
    requires |es| == 1 && es[0].range == RANGE
    ensures Selected(L.RangesOf(es), 16, 0)
  {
  }

  lemma NulNameless(image: Image, d: DecodedGsym)
    requires Verify(image).Ok? && AllTell(Verify(image).value, [NUL_INLINED])
    requires DecodeAll(image) == Ok(d) && d.functions == [Inlined([])]
    ensures Nameless(image, 16, INLINE_FRAMES)
  {
    hide Verify, DecodeAll, StringAt, AllTell, Selected;
    NulOffset(image, d);
    var es := Verify(image).value;
    FirstSelected(es);
    var node := es[0].inline.value;
    assert RANGE in node.ranges;
    assert FrameOf(node)[0] in Path(node, 16);
    assert !Named(image, InlinePath(es[0], 16, INLINE_FRAMES));
  }

  /** The image and the image written again report different results at the start of the
      function. */
  lemma NulNameIsLost(
    order: ByteOrder, data: seq<uint8>, bytes: seq<uint8>, whole: Option<LookupResult>, part: Option<LookupResult>)
    requires ReadsBack(data, Version2(order), [EMPTY_FILE], [NUL_INLINED])
    requires Transcoded(bytes, DecodeAll(Load(data).value).value, V2, order)
    requires Finds(Load(data).value, Verify(Load(data).value).value, 16, INLINE_FRAMES, whole)
    requires Finds(Load(bytes).value, Verify(Load(bytes).value).value, 16, INLINE_FRAMES, part)
    ensures whole.Some? && part.Some? && whole != part
  {
    hide Load, DecodeAll, Verify, AllTell, CutList, CutFiles, Finds, Transcoded, Shows, SameMeaning, Nameless, Answer, Selected;
    DecodedCut(data, order);
    BackTells(data, order);
    var image := Load(data).value;
    var d := DecodeAll(image).value;
    NulNameless(image, d);
    NulOffset(image, d);
    FirstSelected(Verify(image).value);
    SelectedIsFound(image, whole);
    DistinctTranscodedLookup(image, d, bytes, V2, order, 16, INLINE_FRAMES, whole, part);
  }

  lemma BackTells(data: seq<uint8>, order: ByteOrder)
    requires ReadsBack(data, Version2(order), [EMPTY_FILE], [NUL_INLINED])
    ensures Verify(Load(data).value).Ok? && AllTell(Verify(Load(data).value).value, [NUL_INLINED])
  {
    hide Load, DecodeAll, Verify, AllTell, CutList, CutFiles;
  }

  lemma SelectedIsFound(image: Image, whole: Option<LookupResult>)
    requires Verify(image).Ok? && Selected(L.RangesOf(Verify(image).value), 16, 0)
    requires Finds(image, Verify(image).value, 16, INLINE_FRAMES, whole)
    ensures whole.Some?
  {
    hide Verify, Selected, Answers;
  }

  lemma LoadKeepsData(data: seq<uint8>)
    requires Load(data).Ok?
    ensures Load(Load(data).value.data) == Load(data)
  {
    hide ParseLayout;
  }

  /** All of it in one run: the builder accepts the function and writes it, and neither the
      image nor the image written again is refused anywhere. */
  method LoseNulName(order: ByteOrder) returns (whole: Option<LookupResult>, part: Option<LookupResult>)
    ensures whole.Some? && part.Some? && whole != part
  {
    hide Admissible, FinalFunctions, BuilderBytes, ModelBytes, ReadsBack, Transcoded, Regular, Load, DecodeAll, Verify, Finds, FilesAtMost,
      WithinMergedDepth, Unwritable, ContentOf, FileFits;
    InlinedAccepted([0]);
    InlinedWritten([0], order);
    CutWritten(order);
    var builder := new GsymBuilder();
    var added := builder.AddFunction(NUL_INLINED);
    assert [] + [NUL_INLINED] == [NUL_INLINED];
    ghost var c;
    var encoded;
    encoded, c := EncodeBuilder(builder, Version2(order));
    var data := encoded.value;
    DecodedCut(data, order);
    BackTells(data, order);
    BackLoads(data, order);
    var image := Load(data).value;
    LoadKeepsData(data);
    var found := LookupAddress(image, 16, INLINE_FRAMES);
    whole := found.value;
    var d := DecodedGsym(V2, order, 16, [], [EMPTY_FILE], [Inlined([])]);
    DecodedRegular(image);
    var written := TranscodeModel(d, None, None);
    var bytes := written.value;
    TranscodedLoads(bytes, d, order);
    var again := Load(bytes).value;
    LoadKeepsData(bytes);
    found := LookupAddress(again, 16, INLINE_FRAMES);
    part := found.value;
    NulNameIsLost(order, data, bytes, whole, part);
  }

  lemma BackLoads(data: seq<uint8>, order: ByteOrder)
    requires ReadsBack(data, Version2(order), [EMPTY_FILE], [NUL_INLINED])
    ensures Load(data).Ok?
  {
    hide Load, DecodeAll, Verify, AllTell, CutList, CutFiles;
  }

  lemma DecodedRegular(image: Image)
    requires DecodeAll(image).Ok?
    ensures Regular(DecodeAll(image).value)
  {
    hide DecodeAll, RowsInOrder, ListNulFree, FileNulFree;
    DecodedIsRegular(image);
  }

  lemma TranscodedLoads(bytes: seq<uint8>, d: DecodedGsym, order: ByteOrder)
    requires Transcoded(bytes, d, V2, order)
    ensures Load(bytes).Ok? && Verify(Load(bytes).value).Ok?
  {
    hide Load, DecodeAll, Verify, AllTell, TableOf, SameMeaningList, AsWritten;
  }
}
