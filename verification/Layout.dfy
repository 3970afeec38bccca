/** Section layout of src/reader/layout.rs, src/format/v1.rs and src/format/v2.rs:
    where a file keeps its tables, and when that is accepted. */
module Layout {
  import opened Words
  import opened Wrappers
  import opened Wire
  import opened Endian
  import opened Headers
  import opened Sorting

  datatype Version = V1 | V2

  datatype Span = Span(start: nat, end: nat) {
    predicate InBounds(data: seq<uint8>) {
      start <= end <= |data|
    }

    function Of(data: seq<uint8>): seq<uint8>
      requires InBounds(data)
    {
      data[start..end]
    }
  }

  datatype ParsedLayout = ParsedLayout(
    version: Version, order: ByteOrder, addressWidth: uint8, stringWidth: uint8, base: uint64, count: uint32,
    buildId: Span, addresses: Span, infos: Span, files: Span, strings: Span, functions: Span, fileCount: uint32)

  // --------------------------------------------------------------- version one

  /** The fixed tables of a version one file, one after the other. */
  datatype V1Tables = V1Tables(addresses: Span, infos: Span, files: nat)

  function TablesOf(h: V1Header): V1Tables
    requires V1Width(h.width)
  {
    var addresses := AlignUp(V1_HEADER_SIZE, h.width);
    var addressesEnd := addresses + h.count * h.width;
    var infos := AlignUp(addressesEnd, 4);
    var infosEnd := infos + h.count * 4;
    V1Tables(Span(addresses, addressesEnd), Span(infos, infosEnd), AlignUp(infosEnd, 4))
  }

  function FileTableSize(count: uint32, entrySize: nat): nat {
    count * entrySize + 4
  }

  function ParseV1(data: seq<uint8>): Result<ParsedLayout> {
    var (h, order) :- DecodeV1Header(data);
    var tables := TablesOf(h);
    var stringsEnd := h.stringOffset + h.stringSize;
    if tables.files > h.stringOffset then Err(InvalidFormat)
    else if stringsEnd > |data| then Err(SectionOutOfBounds)
    else
      var s :- From(data, tables.files);
      var Step(fileCount, _) :- ReadU32(order, s);
      var filesEnd := tables.files + FileTableSize(fileCount, 8);
      if filesEnd > h.stringOffset then Err(InvalidFormat)
      else Ok(ParsedLayout(
                V1, order, h.width, 4, h.base, h.count, Span(UUID_OFFSET, UUID_OFFSET + |h.uuid|),
                tables.addresses, tables.infos, Span(tables.files, filesEnd), Span(h.stringOffset, stringsEnd),
                Span(stringsEnd, |data|), fileCount))
  }

  // --------------------------------------------------------------- version two

  datatype Section = Section(kind: uint32, offset: uint64, size: uint64) {
    function End(): nat {
      offset + size
    }
  }

  const GLOBAL_END: uint32 := 0
  const GLOBAL_ADDRESSES: uint32 := 1
  const GLOBAL_INFOS: uint32 := 2
  const GLOBAL_STRINGS: uint32 := 3
  const GLOBAL_FILES: uint32 := 4
  const GLOBAL_FUNCTIONS: uint32 := 5
  const GLOBAL_UUID: uint32 := 6

  function DecodeSection(s: seq<uint8>, order: ByteOrder): (r: Result<Step<Section>>)
    ensures r.Ok? ==> |r.value.rest| < |s|
  {
    var Step(kind, s) :- ReadU32(order, s);
    var Step(offset, s) :- ReadU64(order, s);
    var Step(size, s) :- ReadU64(order, s);
    Ok(Step(Section(kind, offset, size), s))
  }

  function EncodeSection(section: Section, order: ByteOrder): (bytes: seq<uint8>)
    ensures |bytes| == 20
  {
    WriteU32(order, section.kind) + WriteU64(order, section.offset) + WriteU64(order, section.size)
  }

  /** A directory entry other than the terminator. */
  function Admit(section: Section, inputLength: nat, seen: set<uint32>): Result<Unit> {
    if section.kind in seen then Err(DuplicateSection)
    else if section.size == 0 then Err(ZeroSizedSection)
    else if section.End() >= U64_LIMIT then Err(Overflow)
    else if section.End() > inputLength then Err(SectionOutOfBounds)
    else Ok(Unit)
  }

  /** The entries before the terminator. */
  function DecodeEntries(s: seq<uint8>, order: ByteOrder, inputLength: nat, seen: set<uint32>): (r: Result<Step<seq<Section>>>)
    ensures r.Ok? ==> |r.value.rest| <= |s|
    decreases |s|
  {
    var Step(section, s1) :- DecodeSection(s, order);
    if section.kind == GLOBAL_END then
      if section.offset != 0 || section.size != 0 then Err(InvalidFormat) else Ok(Step([], s1))
    else
      var _ :- Admit(section, inputLength, seen);
      var Step(tail, rest) :- DecodeEntries(s1, order, inputLength, seen + {section.kind});
      Ok(Step([section] + tail, rest))
  }

  predicate Required(entries: seq<Section>) {
    && Find(entries, GLOBAL_ADDRESSES).Some?
    && Find(entries, GLOBAL_INFOS).Some?
    && Find(entries, GLOBAL_STRINGS).Some?
    && Find(entries, GLOBAL_FILES).Some?
    && Find(entries, GLOBAL_FUNCTIONS).Some?
  }

  /** Size, alignment and first-byte rules of the known sections. */
  predicate WellFormed(data: seq<uint8>, h: V2Header, e: Section)
    requires V2Width(h.width)
  {
    if e.kind == GLOBAL_ADDRESSES then e.size == h.count * h.width && e.offset % h.width == 0
    else if e.kind == GLOBAL_INFOS then e.size == h.count * 8 && e.offset % 8 == 0
    else if e.kind == GLOBAL_FILES then e.size >= 4 && ((e.size as int) - 4) % 16 == 0 && e.offset % 4 == 0
    else if e.kind == GLOBAL_STRINGS then e.offset < |data| && data[e.offset] == 0
    else if e.kind == GLOBAL_FUNCTIONS then e.offset % 4 == 0
    else true
  }

  predicate NotAfter(a: Section, b: Section) {
    a.offset <= b.offset
  }

  /** Sections in this order leave no overlap after `previousEnd`. */
  predicate Chained(entries: seq<Section>, previousEnd: nat) {
    entries == [] || (previousEnd <= entries[0].offset && Chained(entries[1..], entries[0].End()))
  }

  predicate ValidSections(data: seq<uint8>, directoryEnd: nat, h: V2Header, entries: seq<Section>)
    requires V2Width(h.width)
  {
    && (forall e :: e in entries ==> WellFormed(data, h, e))
    && Chained(Sort(NotAfter, entries), directoryEnd)
  }

  /** The checks on the entries read. */
  function ParseEntries(data: seq<uint8>, h: V2Header, decoded: Result<Step<seq<Section>>>): Result<seq<Section>>
    requires V2Width(h.width) && (decoded.Ok? ==> |decoded.value.rest| <= |data|)
  {
    if decoded.Err? then Err(decoded.error)
    else if !Required(decoded.value.value) then Err(MissingSection)
    else if !ValidSections(data, |data| - |decoded.value.rest|, h, decoded.value.value) then Err(InvalidFormat)
    else Ok(decoded.value.value)
  }

  function ParseDirectory(data: seq<uint8>, order: ByteOrder, h: V2Header): Result<seq<Section>>
    requires V2Width(h.width)
  {
    var s :- From(data, V2_HEADER_SIZE);
    ParseEntries(data, h, DecodeEntries(s, order, |data|, {}))
  }

  function Find(entries: seq<Section>, kind: uint32): (found: Option<Section>)
    ensures found.Some? ==> found.value in entries && found.value.kind == kind
    ensures found.None? ==> forall e :: e in entries ==> e.kind != kind
  {
    if entries == [] then None
    else if entries[0].kind == kind then Some(entries[0])
    else Find(entries[1..], kind)
  }

  function SpanOf(entries: seq<Section>, kind: uint32): Result<Span> {
    match Find(entries, kind)
    case None => Err(MissingSection)
    case Some(section) => Ok(Span(section.offset, section.End()))
  }

  function ParseV2(data: seq<uint8>): Result<ParsedLayout> {
    var (h, order) :- DecodeV2Header(data);
    var entries :- ParseDirectory(data, order, h);
    var files :- SpanOf(entries, GLOBAL_FILES);
    var s :- From(data, files.start);
    var Step(fileCount, _) :- ReadU32(order, s);
    if files.start + FileTableSize(fileCount, 16) != files.end then Err(InvalidFormat)
    else
      var addresses :- SpanOf(entries, GLOBAL_ADDRESSES);
      var infos :- SpanOf(entries, GLOBAL_INFOS);
      var strings :- SpanOf(entries, GLOBAL_STRINGS);
      var functions :- SpanOf(entries, GLOBAL_FUNCTIONS);
      var buildId := match Find(entries, GLOBAL_UUID)
        case None => Span(0, 0)
        case Some(section) => Span(section.offset, section.End());
      Ok(ParsedLayout(V2, order, h.width, 8, h.base, h.count, buildId, addresses, infos, files, strings, functions, fileCount))
  }

  /** The version field picks the parser. */
  function ParseLayout(data: seq<uint8>): Result<ParsedLayout> {
    var order :- DetectByteOrder(data);
    var Step(_, s) :- ReadU32(order, data);
    var Step(version, _) :- ReadU16(order, s);
    if version == 1 then ParseV1(data)
    else if version == 2 then ParseV2(data)
    else Err(UnsupportedVersion)
  }

  // ------------------------------------------------------ what acceptance means

  lemma {:induction false} EntriesAdmitted(s: seq<uint8>, order: ByteOrder, inputLength: nat, seen: set<uint32>)
    requires DecodeEntries(s, order, inputLength, seen).Ok?
    ensures
      var entries := DecodeEntries(s, order, inputLength, seen).value.value;
      && (forall e :: e in entries ==> e.kind !in seen && e.kind != GLOBAL_END && 0 < e.size && e.End() <= inputLength)
      && (forall i, j :: 0 <= i < j < |entries| ==> entries[i].kind != entries[j].kind)
    decreases |s|
  {
    hide DecodeSection;
    var Step(section, s1) := DecodeSection(s, order).value;
    if section.kind != GLOBAL_END {
      EntriesAdmitted(s1, order, inputLength, seen + {section.kind});
      AdmittedNext(section, DecodeEntries(s1, order, inputLength, seen + {section.kind}).value.value, inputLength, seen);
    }
  }

  lemma AdmittedNext(section: Section, tail: seq<Section>, inputLength: nat, seen: set<uint32>)
    requires Admit(section, inputLength, seen).Ok? && section.kind != GLOBAL_END
    requires forall e :: e in tail ==> e.kind !in seen + {section.kind} && e.kind != GLOBAL_END && 0 < e.size && e.End() <= inputLength
    requires forall i, j :: 0 <= i < j < |tail| ==> tail[i].kind != tail[j].kind
    ensures
      var entries := [section] + tail;
      && (forall e :: e in entries ==> e.kind !in seen && e.kind != GLOBAL_END && 0 < e.size && e.End() <= inputLength)
      && (forall i, j :: 0 <= i < j < |entries| ==> entries[i].kind != entries[j].kind)
  {
    forall j | 0 <= j < |tail|
      ensures tail[j].kind != section.kind
    {
      assert tail[j] in tail;
    }
  }

  lemma {:induction false} ChainedApart(entries: seq<Section>, previousEnd: nat)
    requires Chained(entries, previousEnd)
    ensures forall i :: 0 <= i < |entries| ==> previousEnd <= entries[i].offset
    ensures forall i, j :: 0 <= i < j < |entries| ==> entries[i].End() <= entries[j].offset
  {
    if entries != [] {
      ChainedApart(entries[1..], entries[0].End());
      forall i, j | 0 <= i < j < |entries|
        ensures entries[i].End() <= entries[j].offset
      {
        assert entries[j] == entries[1..][j - 1];
        assert i > 0 ==> entries[i] == entries[1..][i - 1];
      }
    }
  }

  /** An accepted directory never lets two sections overlap each other, the
      header or the directory itself, whatever the order of its entries. */
  lemma AcceptedSectionsAreApart(data: seq<uint8>, order: ByteOrder, h: V2Header, i: nat, j: nat)
    requires V2Width(h.width) && ParseDirectory(data, order, h).Ok?
    requires i < |ParseDirectory(data, order, h).value| && j < |ParseDirectory(data, order, h).value| && i != j
    ensures
      var entries := ParseDirectory(data, order, h).value;
      && V2_HEADER_SIZE + 20 * (|entries| + 1) <= entries[i].offset < entries[i].End() <= |data|
      && (entries[i].End() <= entries[j].offset || entries[j].End() <= entries[i].offset)
  {
    hide ParseDirectory, Chained, Sort, NotAfter;
    DirectoryFacts(data, order, h);
    assert ParseDirectory(data, order, h).value[i] in ParseDirectory(data, order, h).value;
    SectionsApart(ParseDirectory(data, order, h).value, V2_HEADER_SIZE + 20 * (|ParseDirectory(data, order, h).value| + 1), i, j);
  }

  lemma SectionsApart(entries: seq<Section>, directoryEnd: nat, i: nat, j: nat)
    requires Chained(Sort(NotAfter, entries), directoryEnd)
    requires i < |entries| && j < |entries| && i != j
    requires entries[i].kind != entries[j].kind
    ensures directoryEnd <= entries[i].offset
    ensures entries[i].End() <= entries[j].offset || entries[j].End() <= entries[i].offset
  {
    hide Chained, Sort, NotAfter;
    var sorted := Sort(NotAfter, entries);
    SortMembers(NotAfter, entries);
    ChainedApart(sorted, directoryEnd);
    assert entries[i] in entries && entries[j] in entries;
    var p :| 0 <= p < |sorted| && sorted[p] == entries[i];
    var q :| 0 <= q < |sorted| && sorted[q] == entries[j];
  }

  lemma DirectoryFacts(data: seq<uint8>, order: ByteOrder, h: V2Header)
    requires V2Width(h.width) && ParseDirectory(data, order, h).Ok?
    ensures
      var entries := ParseDirectory(data, order, h).value;
      && Chained(Sort(NotAfter, entries), V2_HEADER_SIZE + 20 * (|entries| + 1))
      && (forall e :: e in entries ==> 0 < e.size && e.End() <= |data|)
      && (forall i, j :: 0 <= i < |entries| && 0 <= j < |entries| && i != j ==> entries[i].kind != entries[j].kind)
  {
    hide DecodeEntries, Chained, WellFormed, Required;
    var s := From(data, V2_HEADER_SIZE).value;
    EntriesLength(s, order, |data|, {});
    EntriesAdmitted(s, order, |data|, {});
  }

  lemma {:induction false} EntriesLength(s: seq<uint8>, order: ByteOrder, inputLength: nat, seen: set<uint32>)
    requires DecodeEntries(s, order, inputLength, seen).Ok?
    ensures
      var Step(entries, rest) := DecodeEntries(s, order, inputLength, seen).value;
      |s| - |rest| == 20 * (|entries| + 1)
    decreases |s|
  {
    var Step(section, s1) := DecodeSection(s, order).value;
    assert |s| == |s1| + 20;
    if section.kind != GLOBAL_END {
      EntriesLength(s1, order, inputLength, seen + {section.kind});
    }
  }

  // ------------------------------------------------------------ the cursor's way

  method ReadSection(cursor: Cursor) returns (r: Result<Section>)
    requires cursor.Valid()
    modifies cursor
    ensures cursor.Valid()
    ensures Agrees(r, DecodeSection(old(cursor.Rest()), cursor.order), cursor.Rest())
  {
    hide Wire.ReadU32, Wire.ReadU64;
    var kind :- cursor.ReadU32();
    var offset :- cursor.ReadU64();
    var size :- cursor.ReadU64();
    return Ok(Section(kind, offset, size));
  }

  /** The directory loop, with the kinds seen and the entries kept so far. */
  method ReadEntries(cursor: Cursor, inputLength: nat) returns (r: Result<seq<Section>>)
    requires cursor.Valid()
    modifies cursor
    ensures cursor.Valid()
    ensures Agrees(r, DecodeEntries(old(cursor.Rest()), cursor.order, inputLength, {}), cursor.Rest())
  {
    hide DecodeSection, Admit;
    ghost var decoded := DecodeEntries(cursor.Rest(), cursor.order, inputLength, {});
    var entries: seq<Section>, seen: set<uint32> := [], {};
    JoinedNothing(decoded);
    while true
      invariant cursor.Valid()
      invariant Joined(entries, DecodeEntries(cursor.Rest(), cursor.order, inputLength, seen)) == decoded
      decreases |cursor.Rest()|
    {
      var section :- ReadSection(cursor);
      if section.kind == GLOBAL_END {
        if section.offset != 0 || section.size != 0 {
          return Err(InvalidFormat);
        }
        assert entries + [] == entries;
        return Ok(entries);
      }
      var _ :- Admit(section, inputLength, seen);
      JoinedNext(entries, section, DecodeEntries(cursor.Rest(), cursor.order, inputLength, seen + {section.kind}));
      entries, seen := entries + [section], seen + {section.kind};
    }
  }

  method CheckSections(data: seq<uint8>, directoryEnd: nat, h: V2Header, entries: seq<Section>) returns (valid: bool)
    requires V2Width(h.width)
    ensures valid == ValidSections(data, directoryEnd, h, entries)
  {
    hide WellFormed;
    for i := 0 to |entries|
      invariant forall k :: 0 <= k < i ==> WellFormed(data, h, entries[k])
    {
      if !WellFormed(data, h, entries[i]) {
        return false;
      }
    }
    var sorted := Sort(NotAfter, entries);
    var previousEnd := directoryEnd;
    assert sorted[0..] == sorted;
    for i := 0 to |sorted|
      invariant Chained(sorted[i..], previousEnd) == Chained(sorted, directoryEnd)
    {
      assert sorted[i..][1..] == sorted[i + 1..];
      if sorted[i].offset < previousEnd {
        return false;
      }
      previousEnd := sorted[i].End();
    }
    return true;
  }

  method ReadDirectory(data: seq<uint8>, order: ByteOrder, h: V2Header) returns (r: Result<seq<Section>>)
    requires V2Width(h.width)
    ensures r == ParseDirectory(data, order, h)
  {
    hide DecodeEntries, ValidSections, Required, ParseDirectory;
    ParseDirectoryUnfolds(data, order, h);
    var s :- From(data, V2_HEADER_SIZE);
    var cursor := new Cursor(s, order);
    var entries :- ReadEntries(cursor, |data|);
    if !Required(entries) {
      return Err(MissingSection);
    }
    var valid := CheckSections(data, |data| - cursor.Remaining(), h, entries);
    return if valid then Ok(entries) else Err(InvalidFormat);
  }

  lemma ParseDirectoryUnfolds(data: seq<uint8>, order: ByteOrder, h: V2Header)
    requires V2Width(h.width)
    ensures ParseDirectory(data, order, h) ==
      if From(data, V2_HEADER_SIZE).Err? then Err(From(data, V2_HEADER_SIZE).error)
      else ParseEntries(data, h, DecodeEntries(From(data, V2_HEADER_SIZE).value, order, |data|, {}))
  {
    hide DecodeEntries, ValidSections, Required;
  }
}
