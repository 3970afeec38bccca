/** Whole files as the writer lays them out, and that the parser finds every
    section where the writer put it. */
module ImageLayout {
  import opened Words
  import opened Wrappers
  import opened Wire
  import opened Sorting
  import opened Headers
  import opened Layout
  import opened Sections

  /** The five sections of a file, in file order. */
  datatype Parts = Parts(
    addresses: seq<uint8>, infos: seq<uint8>, files: seq<uint8>, strings: seq<uint8>, functions: seq<uint8>)

  /** Sizes the header fields promise. */
  ghost predicate Consistent(parts: Parts, order: ByteOrder, count: nat, width: nat, infoWidth: nat, fileCount: uint32, entrySize: nat) {
    && |parts.addresses| == count * width
    && |parts.infos| == count * infoWidth
    && |parts.files| == FileTableSize(fileCount, entrySize)
    && WriteU32(order, fileCount) <= parts.files
    && parts.strings != [] && parts.strings[0] == 0
  }

  predicate PartsAt(data: seq<uint8>, layout: ParsedLayout, parts: Parts) {
    && SectionIs(data, layout.addresses, parts.addresses)
    && SectionIs(data, layout.infos, parts.infos)
    && SectionIs(data, layout.files, parts.files)
    && SectionIs(data, layout.strings, parts.strings)
    && SectionIs(data, layout.functions, parts.functions)
  }

  // --------------------------------------------------------------- version one

  function V1Padding(addressesSize: nat): nat {
    AlignUp(V1_HEADER_SIZE + addressesSize, 4) - (V1_HEADER_SIZE + addressesSize)
  }

  function V1Body(parts: Parts): seq<uint8> {
    parts.addresses + (Zeros(V1Padding(|parts.addresses|)) + (parts.infos + (parts.files + (parts.strings + parts.functions))))
  }

  function V1StringOffset(parts: Parts): nat {
    AlignUp(V1_HEADER_SIZE + |parts.addresses|, 4) + |parts.infos| + |parts.files|
  }

  function V1LayoutOf(h: V1Header, order: ByteOrder, parts: Parts, fileCount: uint32): ParsedLayout {
    var infos := AlignUp(V1_HEADER_SIZE + |parts.addresses|, 4);
    var files := infos + |parts.infos|;
    var strings := files + |parts.files|;
    var functions := strings + |parts.strings|;
    ParsedLayout(
      V1, order, h.width, 4, h.base, h.count, Span(UUID_OFFSET, UUID_OFFSET + |h.uuid|),
      Span(V1_HEADER_SIZE, V1_HEADER_SIZE + |parts.addresses|), Span(infos, files), Span(files, strings),
      Span(strings, functions), Span(functions, functions + |parts.functions|), fileCount)
  }

  lemma HeaderSizeAligned(width: uint8)
    requires V1Width(width)
    ensures AlignUp(V1_HEADER_SIZE, width) == V1_HEADER_SIZE
  {
  }

  lemma AlignedStays(value: nat, alignment: nat)
    requires alignment > 0 && value % alignment == 0
    ensures AlignUp(value, alignment) == value
  {
  }

  lemma MultipleOfFour(value: nat, k: nat)
    requires value % 4 == 0
    ensures (value + k * 4) % 4 == 0
  {
  }

  /** The sections of the body, each where the layout says. */
  lemma V1PartsAt(header: seq<uint8>, h: V1Header, order: ByteOrder, parts: Parts, fileCount: uint32)
    requires |header| == V1_HEADER_SIZE
    ensures PartsAt(header + V1Body(parts), V1LayoutOf(h, order, parts, fileCount), parts)
    ensures |header + V1Body(parts)| == V1LayoutOf(h, order, parts, fileCount).functions.end
  {
    hide SectionIs, AlignUp;
    var zeros := Zeros(V1Padding(|parts.addresses|));
    var data := header + V1Body(parts);
    var fromStrings := parts.strings + parts.functions;
    var fromFiles := parts.files + fromStrings;
    var fromInfos := parts.infos + fromFiles;
    AppendAssociates(header, parts.addresses, zeros + fromInfos);
    SectionBetween(header, parts.addresses, zeros + fromInfos);
    var beforeInfos := header + parts.addresses + zeros;
    AppendAssociates(header + parts.addresses, zeros, fromInfos);
    AppendAssociates(beforeInfos, parts.infos, fromFiles);
    SectionBetween(beforeInfos, parts.infos, fromFiles);
    var beforeFiles := beforeInfos + parts.infos;
    AppendAssociates(beforeFiles, parts.files, fromStrings);
    SectionBetween(beforeFiles, parts.files, fromStrings);
    var beforeStrings := beforeFiles + parts.files;
    AppendAssociates(beforeStrings, parts.strings, parts.functions);
    SectionBetween(beforeStrings, parts.strings, parts.functions);
    SectionBetween(beforeStrings + parts.strings, parts.functions, []);
    assert beforeStrings + parts.strings + parts.functions + [] == beforeStrings + parts.strings + parts.functions;
  }

  /** The file table begins with its count, whatever follows. */
  lemma CountReads(data: seq<uint8>, span: Span, files: seq<uint8>, order: ByteOrder, count: uint32)
    requires SectionIs(data, span, files) && WriteU32(order, count) <= files
    ensures From(data, span.start).Ok?
    ensures ReadU32(order, From(data, span.start).value).Ok?
    ensures ReadU32(order, From(data, span.start).value).value.value == count
  {
    hide ReadU32, WriteU32;
    SectionSuffix(data, span, files, 0);
    var written := WriteU32(order, count);
    assert files == written + files[4..];
    AppendAssociates(written, files[4..], data[span.end..]);
    ReadWriteU32(order, count, files[4..] + data[span.end..]);
  }

  /** The parser computes the tables the writer placed. */
  lemma V1TablesAgree(h: V1Header, order: ByteOrder, parts: Parts, fileCount: uint32)
    requires V1Width(h.width)
    requires |parts.addresses| == h.count * h.width && |parts.infos| == h.count * 4
    ensures
      var layout := V1LayoutOf(h, order, parts, fileCount);
      TablesOf(h) == V1Tables(layout.addresses, layout.infos, layout.files.start)
  {
    var layout := V1LayoutOf(h, order, parts, fileCount);
    HeaderSizeAligned(h.width);
    MultipleOfFour(layout.infos.start, h.count);
    AlignedStays(layout.infos.end, 4);
    hide AlignUp;
  }

  /** What the version one parser does with a header it has read. */
  lemma V1Accepts(data: seq<uint8>, h: V1Header, order: ByteOrder, tables: V1Tables, fileCount: uint32)
    requires DecodeV1Header(data) == Ok((h, order)) && V1Width(h.width) && TablesOf(h) == tables
    requires tables.files + FileTableSize(fileCount, 8) == h.stringOffset && h.stringOffset + h.stringSize <= |data|
    requires From(data, tables.files).Ok? && ReadU32(order, From(data, tables.files).value).Ok?
    requires ReadU32(order, From(data, tables.files).value).value.value == fileCount
    ensures ParseV1(data) == Ok(ParsedLayout(
      V1, order, h.width, 4, h.base, h.count, Span(UUID_OFFSET, UUID_OFFSET + |h.uuid|),
      tables.addresses, tables.infos, Span(tables.files, h.stringOffset),
      Span(h.stringOffset, h.stringOffset + h.stringSize), Span(h.stringOffset + h.stringSize, |data|), fileCount))
  {
    hide DecodeV1Header, TablesOf, ReadU32, From;
  }

  lemma EncodedV1Width(h: V1Header, order: ByteOrder)
    requires |h.uuid| <= MAX_UUID_SIZE && EncodeV1Header(h, order).Ok?
    ensures V1Width(h.width)
  {
    hide Prefix, WriteU32;
  }

  /** Parsing a version one file finds the writer's layout. */
  lemma V1Parses(h: V1Header, order: ByteOrder, parts: Parts, fileCount: uint32)
    requires |h.uuid| <= MAX_UUID_SIZE && EncodeV1Header(h, order).Ok?
    requires Consistent(parts, order, h.count, h.width, 4, fileCount, 8)
    requires h.stringOffset == V1StringOffset(parts) && h.stringSize == |parts.strings|
    ensures ParseV1(EncodeV1Header(h, order).value + V1Body(parts)) == Ok(V1LayoutOf(h, order, parts, fileCount))
  {
    hide DecodeV1Header, EncodeV1Header, ReadU32, WriteU32, V1Body, AlignUp, From, TablesOf, ParseV1, SectionIs, V1Width;
    var header := EncodeV1Header(h, order).value;
    var data := header + V1Body(parts);
    var layout := V1LayoutOf(h, order, parts, fileCount);
    EncodedV1Width(h, order);
    V1PartsAt(header, h, order, parts, fileCount);
    V1HeaderRoundTrip(h, order, V1Body(parts));
    V1TablesAgree(h, order, parts, fileCount);
    CountReads(data, layout.files, parts.files, order, fileCount);
    V1Accepts(data, h, order, TablesOf(h), fileCount);
  }

  // --------------------------------------------------------------- version two

  function SectionOver(kind: uint32, span: Span): Section
    requires span.start <= span.end < U64_LIMIT
  {
    Section(kind, span.start, span.end - span.start)
  }

  function DirectoryEnd(uuid: seq<uint8>): nat {
    V2_HEADER_SIZE + 20 * (if uuid == [] then 6 else 7)
  }

  /** `write_layout`: each section after the one before it, aligned. */
  function V2LayoutOf(h: V2Header, order: ByteOrder, uuid: seq<uint8>, parts: Parts, fileCount: uint32): ParsedLayout
    requires V2Width(h.width)
  {
    var uuidEnd := DirectoryEnd(uuid) + |uuid|;
    var addresses := AlignUp(uuidEnd, h.width);
    var infos := AlignUp(addresses + |parts.addresses|, 8);
    var files := AlignUp(infos + |parts.infos|, 4);
    var strings := files + |parts.files|;
    var functions := AlignUp(strings + |parts.strings|, 4);
    ParsedLayout(
      V2, order, h.width, 8, h.base, h.count, if uuid == [] then Span(0, 0) else Span(DirectoryEnd(uuid), uuidEnd),
      Span(addresses, addresses + |parts.addresses|), Span(infos, infos + |parts.infos|), Span(files, strings),
      Span(strings, strings + |parts.strings|), Span(functions, functions + |parts.functions|), fileCount)
  }

  /** The sections lie one after the other. */
  predicate InOrder(layout: ParsedLayout, directoryEnd: nat) {
    && layout.buildId.start <= layout.buildId.end
    && (layout.buildId.start < layout.buildId.end ==> directoryEnd <= layout.buildId.start)
    && directoryEnd <= layout.addresses.start && layout.buildId.end <= layout.addresses.start
    && layout.addresses.start <= layout.addresses.end <= layout.infos.start <= layout.infos.end <= layout.files.start
    && layout.files.start <= layout.files.end <= layout.strings.start <= layout.strings.end <= layout.functions.start
    && layout.functions.start <= layout.functions.end < U64_LIMIT
  }

  /** The directory in file order: the build ID only if there is one. */
  function DirectoryOf(layout: ParsedLayout): seq<Section>
    requires InOrder(layout, 0)
  {
    var five := [
      SectionOver(GLOBAL_ADDRESSES, layout.addresses), SectionOver(GLOBAL_INFOS, layout.infos),
      SectionOver(GLOBAL_FILES, layout.files), SectionOver(GLOBAL_STRINGS, layout.strings),
      SectionOver(GLOBAL_FUNCTIONS, layout.functions)];
    if layout.buildId.start < layout.buildId.end then [SectionOver(GLOBAL_UUID, layout.buildId)] + five else five
  }

  function EntriesBytes(entries: seq<Section>, order: ByteOrder): (bytes: seq<uint8>)
    ensures |bytes| == 20 * |entries|
  {
    if entries == [] then [] else EncodeSection(entries[0], order) + EntriesBytes(entries[1..], order)
  }

  const TERMINATOR := Section(GLOBAL_END, 0, 0)

  lemma SectionRoundTrip(section: Section, order: ByteOrder, rest: seq<uint8>)
    ensures DecodeSection(EncodeSection(section, order) + rest, order) == Ok(Step(section, rest))
  {
    hide ReadU32, ReadU64, WriteU32, WriteU64;
    var kind, offset, size := WriteU32(order, section.kind), WriteU64(order, section.offset), WriteU64(order, section.size);
    ReadWriteU32(order, section.kind, offset + (size + rest));
    ReadWriteU64(order, section.offset, size + rest);
    ReadWriteU64(order, section.size, rest);
    AppendAssociates(kind + offset, size, rest);
    AppendAssociates(kind, offset, size + rest);
  }

  predicate DistinctKinds(entries: seq<Section>) {
    forall i, j :: 0 <= i < j < |entries| ==> entries[i].kind != entries[j].kind
  }

  predicate AllAdmitted(entries: seq<Section>, inputLength: nat, seen: set<uint32>) {
    forall i :: 0 <= i < |entries| ==> entries[i].kind != GLOBAL_END && Admit(entries[i], inputLength, seen).Ok?
  }

  lemma {:induction false} EntriesRoundTrip(
    entries: seq<Section>, order: ByteOrder, inputLength: nat, seen: set<uint32>, rest: seq<uint8>)
    requires DistinctKinds(entries) && AllAdmitted(entries, inputLength, seen)
    ensures DecodeEntries(EntriesBytes(entries, order) + (EncodeSection(TERMINATOR, order) + rest), order, inputLength, seen)
         == Ok(Step(entries, rest))
    decreases |entries|
  {
    hide DecodeSection, EncodeSection;
    var tail := EncodeSection(TERMINATOR, order) + rest;
    if entries == [] {
      SectionRoundTrip(TERMINATOR, order, rest);
      assert [] + tail == tail;
    } else {
      var first, others := entries[0], entries[1..];
      SectionRoundTrip(first, order, EntriesBytes(others, order) + tail);
      AppendAssociates(EncodeSection(first, order), EntriesBytes(others, order), tail);
      assert AllAdmitted(others, inputLength, seen + {first.kind});
      EntriesRoundTrip(others, order, inputLength, seen + {first.kind}, rest);
      assert [first] + others == entries;
    }
  }

  lemma {:induction false} FindFirst(entries: seq<Section>, i: nat)
    requires i < |entries| && DistinctKinds(entries)
    ensures Find(entries, entries[i].kind) == Some(entries[i])
  {
    if i > 0 {
      FindFirst(entries[1..], i - 1);
    }
  }

  lemma {:induction false} ChainedInOrder(entries: seq<Section>, previousEnd: nat)
    requires entries != [] ==> previousEnd <= entries[0].offset
    requires forall i :: 0 < i < |entries| ==> entries[i - 1].End() <= entries[i].offset
    ensures Chained(entries, previousEnd)
  {
    if entries != [] {
      ChainedInOrder(entries[1..], entries[0].End());
    }
  }

  /** A list that leaves no overlap is already sorted. */
  lemma ChainedSorts(entries: seq<Section>, previousEnd: nat)
    requires Chained(entries, previousEnd)
    ensures Sort(NotAfter, entries) == entries
  {
    ChainedApart(entries, previousEnd);
    SortAlreadySorted(NotAfter, entries);
  }

  lemma FindsAt(entries: seq<Section>, i: nat, kind: uint32, span: Span)
    requires DistinctKinds(entries) && i < |entries|
    requires span.start <= span.end < U64_LIMIT && entries[i] == SectionOver(kind, span)
    ensures SpanOf(entries, kind) == Ok(span) && Find(entries, kind).Some?
  {
    hide DistinctKinds, Find;
    FindFirst(entries, i);
  }

  /** Every section is found in the directory under its kind. */
  lemma DirectoryFinds(layout: ParsedLayout)
    requires InOrder(layout, 0)
    ensures DistinctKinds(DirectoryOf(layout))
    ensures SpanOf(DirectoryOf(layout), GLOBAL_ADDRESSES) == Ok(layout.addresses)
    ensures SpanOf(DirectoryOf(layout), GLOBAL_INFOS) == Ok(layout.infos)
    ensures SpanOf(DirectoryOf(layout), GLOBAL_FILES) == Ok(layout.files)
    ensures SpanOf(DirectoryOf(layout), GLOBAL_STRINGS) == Ok(layout.strings)
    ensures SpanOf(DirectoryOf(layout), GLOBAL_FUNCTIONS) == Ok(layout.functions)
    ensures Find(DirectoryOf(layout), GLOBAL_UUID)
         == if layout.buildId.start < layout.buildId.end then Some(SectionOver(GLOBAL_UUID, layout.buildId)) else None
    ensures Required(DirectoryOf(layout))
  {
    hide Find, SpanOf, SectionOver, DistinctKinds;
    var entries := DirectoryOf(layout);
    var shift := if layout.buildId.start < layout.buildId.end then 1 else 0;
    DirectoryKinds(layout);
    FindsAt(entries, shift, GLOBAL_ADDRESSES, layout.addresses);
    FindsAt(entries, shift + 1, GLOBAL_INFOS, layout.infos);
    FindsAt(entries, shift + 2, GLOBAL_FILES, layout.files);
    FindsAt(entries, shift + 3, GLOBAL_STRINGS, layout.strings);
    FindsAt(entries, shift + 4, GLOBAL_FUNCTIONS, layout.functions);
    if shift == 1 {
      FindFirst(entries, 0);
    }
  }

  lemma DirectoryKinds(layout: ParsedLayout)
    requires InOrder(layout, 0)
    ensures DistinctKinds(DirectoryOf(layout))
    ensures
      var entries := DirectoryOf(layout);
      if layout.buildId.start < layout.buildId.end then entries[0].kind == GLOBAL_UUID
      else forall e :: e in entries ==> e.kind != GLOBAL_UUID
  {
  }

  /** The header, the directory and the build ID. */
  function V2Front(h: V2Header, order: ByteOrder, uuid: seq<uint8>, layout: ParsedLayout): seq<uint8>
    requires InOrder(layout, 0) && EncodeV2Header(h, order).Ok?
  {
    EncodeV2Header(h, order).value + (EntriesBytes(DirectoryOf(layout), order) + (EncodeSection(TERMINATOR, order) + uuid))
  }

  /** The sections with their padding. */
  function V2Body(layout: ParsedLayout, frontSize: nat, parts: Parts): seq<uint8>
    requires InOrder(layout, 0) && frontSize <= layout.addresses.start
  {
    Zeros(layout.addresses.start - frontSize) + (parts.addresses
    + (Zeros(layout.infos.start - layout.addresses.end) + (parts.infos
    + (Zeros(layout.files.start - layout.infos.end) + (parts.files + (parts.strings
    + (Zeros(layout.functions.start - layout.strings.end) + parts.functions)))))))
  }

  /** A padded section and what precedes it. */
  lemma Place(before: seq<uint8>, padding: nat, section: seq<uint8>, after: seq<uint8>)
    ensures
      var data := before + (Zeros(padding) + (section + after));
      && SectionIs(data, Span(|before| + padding, |before| + padding + |section|), section)
      && data == before + Zeros(padding) + section + after
  {
    hide SectionIs;
    AppendAssociates(before, Zeros(padding), section + after);
    AppendAssociates(before + Zeros(padding), section, after);
    SectionBetween(before + Zeros(padding), section, after);
  }

  /** The sizes the layout was computed from. */
  predicate SizedFor(layout: ParsedLayout, parts: Parts) {
    && layout.addresses.end == layout.addresses.start + |parts.addresses|
    && layout.infos.end == layout.infos.start + |parts.infos|
    && layout.files.end == layout.files.start + |parts.files| == layout.strings.start
    && layout.strings.end == layout.strings.start + |parts.strings|
    && layout.functions.end == layout.functions.start + |parts.functions|
  }

  lemma V2PartsAt(front: seq<uint8>, layout: ParsedLayout, parts: Parts)
    requires InOrder(layout, 0) && |front| <= layout.addresses.start && SizedFor(layout, parts)
    ensures PartsAt(front + V2Body(layout, |front|, parts), layout, parts)
    ensures |front + V2Body(layout, |front|, parts)| == layout.functions.end
  {
    hide SectionIs;
    var z1, z2 := layout.addresses.start - |front|, layout.infos.start - layout.addresses.end;
    var z3, z4 := layout.files.start - layout.infos.end, layout.functions.start - layout.strings.end;
    var fromFunctions := Zeros(z4) + parts.functions;
    var fromStrings := parts.strings + fromFunctions;
    var fromFiles := Zeros(z3) + (parts.files + fromStrings);
    var fromInfos := Zeros(z2) + (parts.infos + fromFiles);
    Place(front, z1, parts.addresses, fromInfos);
    var f1 := front + Zeros(z1) + parts.addresses;
    Place(f1, z2, parts.infos, fromFiles);
    var f2 := f1 + Zeros(z2) + parts.infos;
    Place(f2, z3, parts.files, fromStrings);
    var f3 := f2 + Zeros(z3) + parts.files;
    SectionBetween(f3, parts.strings, fromFunctions);
    AppendAssociates(f3, parts.strings, fromFunctions);
    var f4 := f3 + parts.strings;
    assert parts.functions + [] == parts.functions;
    Place(f4, z4, parts.functions, []);
  }

  /** The size, alignment and content rules of the sections, for the writer's own. */
  lemma DirectoryWellFormed(data: seq<uint8>, h: V2Header, layout: ParsedLayout, parts: Parts, e: Section)
    requires V2Width(h.width) && InOrder(layout, 0) && SizedFor(layout, parts) && e in DirectoryOf(layout)
    requires SectionIs(data, layout.strings, parts.strings) && parts.strings != [] && parts.strings[0] == 0
    requires |parts.addresses| == h.count * h.width && |parts.infos| == h.count * 8
    requires |parts.files| >= 4 && (|parts.files| - 4) % 16 == 0
    requires layout.addresses.start % h.width == 0 && layout.infos.start % 8 == 0
    requires layout.files.start % 4 == 0 && layout.functions.start % 4 == 0
    ensures WellFormed(data, h, e)
  {
  }

  lemma DirectoryChained(layout: ParsedLayout, directoryEnd: nat)
    requires InOrder(layout, directoryEnd)
    ensures Chained(Sort(NotAfter, DirectoryOf(layout)), directoryEnd)
  {
    hide Chained;
    ChainedInOrder(DirectoryOf(layout), directoryEnd);
    ChainedSorts(DirectoryOf(layout), directoryEnd);
  }

  /** `validate_sections` accepts the writer's own directory. */
  lemma DirectoryValid(data: seq<uint8>, h: V2Header, layout: ParsedLayout, parts: Parts, directoryEnd: nat)
    requires V2Width(h.width) && InOrder(layout, directoryEnd) && SizedFor(layout, parts)
    requires SectionIs(data, layout.strings, parts.strings) && parts.strings != [] && parts.strings[0] == 0
    requires |parts.addresses| == h.count * h.width && |parts.infos| == h.count * 8
    requires |parts.files| >= 4 && (|parts.files| - 4) % 16 == 0
    requires layout.addresses.start % h.width == 0 && layout.infos.start % 8 == 0
    requires layout.files.start % 4 == 0 && layout.functions.start % 4 == 0
    ensures ValidSections(data, directoryEnd, h, DirectoryOf(layout))
  {
    hide Chained, WellFormed, DirectoryOf, SectionIs;
    DirectoryChained(layout, directoryEnd);
    forall e | e in DirectoryOf(layout)
      ensures WellFormed(data, h, e)
    {
      DirectoryWellFormed(data, h, layout, parts, e);
    }
  }

  lemma DirectoryAdmitted(layout: ParsedLayout, inputLength: nat)
    requires InOrder(layout, 0) && layout.functions.end <= inputLength
    requires layout.addresses.start < layout.addresses.end && layout.infos.start < layout.infos.end
    requires layout.files.start < layout.files.end && layout.strings.start < layout.strings.end
    requires layout.functions.start < layout.functions.end
    ensures AllAdmitted(DirectoryOf(layout), inputLength, {})
  {
  }

  /** The parser reads back the writer's directory. */
  lemma DirectoryParses(
    data: seq<uint8>, header: seq<uint8>, order: ByteOrder, h: V2Header, entries: seq<Section>, rest: seq<uint8>)
    requires V2Width(h.width) && |header| == V2_HEADER_SIZE
    requires data == header + (EntriesBytes(entries, order) + (EncodeSection(TERMINATOR, order) + rest))
    requires DistinctKinds(entries) && AllAdmitted(entries, |data|, {})
    requires Required(entries) && ValidSections(data, V2_HEADER_SIZE + 20 * (|entries| + 1), h, entries)
    ensures ParseDirectory(data, order, h) == Ok(entries)
  {
    hide DecodeEntries, EntriesBytes, EncodeSection, Required, ValidSections;
    assert data[V2_HEADER_SIZE..] == EntriesBytes(entries, order) + (EncodeSection(TERMINATOR, order) + rest);
    EntriesRoundTrip(entries, order, |data|, {}, rest);
  }

  /** What the version two parser does with a directory it has read. */
  lemma V2Accepts(data: seq<uint8>, h: V2Header, order: ByteOrder, layout: ParsedLayout)
    requires DecodeV2Header(data) == Ok((h, order)) && V2Width(h.width)
    requires InOrder(layout, 0) && ParseDirectory(data, order, h) == Ok(DirectoryOf(layout))
    requires layout.version == V2 && layout.order == order && layout.addressWidth == h.width && layout.stringWidth == 8
    requires layout.base == h.base && layout.count == h.count
    requires layout.buildId.start == layout.buildId.end ==> layout.buildId == Span(0, 0)
    requires layout.files.start + FileTableSize(layout.fileCount, 16) == layout.files.end
    requires From(data, layout.files.start).Ok? && ReadU32(order, From(data, layout.files.start).value).Ok?
    requires ReadU32(order, From(data, layout.files.start).value).value.value == layout.fileCount
    ensures ParseV2(data) == Ok(layout)
  {
    hide DecodeV2Header, ParseDirectory, DirectoryOf, ReadU32, From, Find, SpanOf;
    DirectoryFinds(layout);
    SpanFound(DirectoryOf(layout), GLOBAL_UUID);
  }

  lemma SpanFound(entries: seq<Section>, kind: uint32)
    ensures Find(entries, kind).Some? ==>
      SpanOf(entries, kind) == Ok(Span(Find(entries, kind).value.offset, Find(entries, kind).value.End()))
  {
  }

  /** What `write_layout` guarantees about its own sections. */
  lemma V2LayoutFacts(h: V2Header, order: ByteOrder, uuid: seq<uint8>, parts: Parts, fileCount: uint32)
    requires V2Width(h.width) && V2LayoutOf(h, order, uuid, parts, fileCount).functions.end < U64_LIMIT
    ensures
      var layout := V2LayoutOf(h, order, uuid, parts, fileCount);
      && InOrder(layout, DirectoryEnd(uuid)) && SizedFor(layout, parts)
      && DirectoryEnd(uuid) + |uuid| <= layout.addresses.start
      && layout.addresses.start % h.width == 0 && layout.infos.start % 8 == 0
      && layout.files.start % 4 == 0 && layout.functions.start % 4 == 0
      && |DirectoryOf(layout)| == (if uuid == [] then 5 else 6)
  {
    hide AlignUp;
  }

  /** Parsing a version two file finds the writer's layout. */
  lemma V2Parses(h: V2Header, order: ByteOrder, uuid: seq<uint8>, parts: Parts, fileCount: uint32)
    requires EncodeV2Header(h, order).Ok? && V2Width(h.width)
    requires Consistent(parts, order, h.count, h.width, 8, fileCount, 16) && h.count > 0 && parts.functions != []
    requires V2LayoutOf(h, order, uuid, parts, fileCount).functions.end < U64_LIMIT
    requires InOrder(V2LayoutOf(h, order, uuid, parts, fileCount), DirectoryEnd(uuid))
    requires DirectoryEnd(uuid) + |uuid| <= V2LayoutOf(h, order, uuid, parts, fileCount).addresses.start
    ensures
      var layout := V2LayoutOf(h, order, uuid, parts, fileCount);
      var front := V2Front(h, order, uuid, layout);
      var data := front + V2Body(layout, DirectoryEnd(uuid) + |uuid|, parts);
      ParseV2(data) == Ok(layout)
  {
    hide EncodeV2Header, DecodeV2Header, V2LayoutOf, V2Body, DirectoryOf, SectionIs, ReadU32, WriteU32, ParseV2, ParseDirectory,
      AllAdmitted, DistinctKinds, Required, ValidSections, From, EntriesBytes, EncodeSection;
    var layout := V2LayoutOf(h, order, uuid, parts, fileCount);
    var body := V2Body(layout, DirectoryEnd(uuid) + |uuid|, parts);
    var header := EncodeV2Header(h, order).value;
    var directory, end := EntriesBytes(DirectoryOf(layout), order), EncodeSection(TERMINATOR, order);
    var data := V2Front(h, order, uuid, layout) + body;
    V2LayoutFacts(h, order, uuid, parts, fileCount);
    V2LayoutFields(h, order, uuid, parts, fileCount);
    V2PartsAt(V2Front(h, order, uuid, layout), layout, parts);
    AppendAssociates(header, directory + (end + uuid), body);
    AppendAssociates(directory, end + uuid, body);
    AppendAssociates(end, uuid, body);
    V2HeaderRoundTrip(h, order, directory + (end + (uuid + body)));
    TablesNotEmpty(h.count, h.width);
    DirectoryFinds(layout);
    DirectoryAdmitted(layout, |data|);
    DirectoryValid(data, h, layout, parts, DirectoryEnd(uuid));
    DirectoryParses(data, header, order, h, DirectoryOf(layout), uuid + body);
    CountReads(data, layout.files, parts.files, order, fileCount);
    V2Accepts(data, h, order, layout);
  }

  lemma TablesNotEmpty(count: nat, width: nat)
    requires count > 0 && width > 0
    ensures count * width > 0
  {
  }

  lemma V2LayoutFields(h: V2Header, order: ByteOrder, uuid: seq<uint8>, parts: Parts, fileCount: uint32)
    requires V2Width(h.width)
    ensures
      var layout := V2LayoutOf(h, order, uuid, parts, fileCount);
      && layout.version == V2 && layout.order == order && layout.addressWidth == h.width && layout.stringWidth == 8
      && layout.base == h.base && layout.count == h.count && layout.fileCount == fileCount
      && layout.buildId == if uuid == [] then Span(0, 0) else Span(DirectoryEnd(uuid), DirectoryEnd(uuid) + |uuid|)
  {
    hide AlignUp;
  }

  /** The version field sends each file to its own parser. */
  lemma VersionDispatches(data: seq<uint8>)
    ensures ParseV1(data).Ok? ==> ParseLayout(data) == ParseV1(data)
    ensures ParseV2(data).Ok? ==> ParseLayout(data) == ParseV2(data)
  {
    hide DetectByteOrder, ReadU32, ReadU16, DecodeV1Body, DecodeV2Body, ParseDirectory, TablesOf, From, SpanOf, Find;
  }
}
