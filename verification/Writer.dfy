/** The image writer: src/writer/encode.rs and the pipeline of src/writer/mod.rs. */
module Writer {
  import opened Words
  import opened Wrappers
  import opened Wire
  import opened Endian
  import opened Headers
  import opened Layout
  import opened Model
  import opened FunctionInfo
  import opened Image
  import opened Validation
  import opened Builder
  import opened Finalize
  import opened FinalizedSet
  import opened Strings
  import opened NulFree
  import opened Sections
  import opened ImageLayout
  import opened Storage
  import opened ImageRoundTrip

  function AddressOffsetWidth(maximum: uint64): (width: uint8)
    ensures V1Width(width) && maximum < Exp(256, width)
    ensures forall other: uint8 :: V1Width(other) && maximum < Exp(256, other) ==> width <= other
  {
    ExpWidths();
    if maximum < 0x100 then 1 else if maximum < 0x1_0000 then 2 else if maximum < 0x1_0000_0000 then 4 else 8
  }

  // --------------------------------------------------- from laid-out parts to content

  /** The parts hold the tables of the content, with no regard to where. */
  ghost predicate Holds(parts: Parts, c: Content) {
    && |c.functions| == |c.infos| && |c.functions| < U32_LIMIT && |c.files| < U32_LIMIT
    && (forall i :: 0 <= i < |c.functions| ==> c.base <= c.functions[i].range.start)
    && parts.addresses == UintTable(c.order, Offsets(c.functions, c.base), c.width)
    && Fits(Offsets(c.functions, c.base), c.width)
    && parts.infos == UintTable(c.order, c.infos, InfoWidth(c.version)) && Fits(c.infos, InfoWidth(c.version))
    && parts.files == WriteU32(c.order, |c.files|) + UintTable(c.order, Flatten(c.files), StringWidth(c.version))
    && Fits(Flatten(c.files), StringWidth(c.version))
    && parts.strings == c.strings && c.strings != [] && c.strings[0] == 0
  }

  /** The functions lie in their section, which starts at `base` for the table. */
  ghost predicate FunctionsPlaced(parts: Parts, c: Content, base: nat)
    requires |c.functions| == |c.infos|
  {
    forall i :: 0 <= i < |c.functions| ==>
      && base <= c.infos[i] < base + |parts.functions|
      && FunctionAtPosition(parts.functions, c.infos[i] - base, c.functions[i], c.order, StringWidth(c.version))
  }

  lemma HoldsConsistent(parts: Parts, c: Content)
    requires Holds(parts, c)
    ensures Consistent(parts, c.order, |c.functions|, c.width, InfoWidth(c.version), |c.files|, 2 * StringWidth(c.version) as nat)
  {
    hide UintTable, Fits, WriteU32, Flatten;
    UintTableSize(c.order, Offsets(c.functions, c.base), c.width);
    UintTableSize(c.order, c.infos, InfoWidth(c.version));
    UintTableSize(c.order, Flatten(c.files), StringWidth(c.version));
    var width: nat := StringWidth(c.version);
    assert (2 * |c.files|) * width == |c.files| * (2 * width);
  }

  lemma HoldsTables(image: Image, parts: Parts, c: Content)
    requires Holds(parts, c) && PartsAt(image.data, image.layout, parts)
    ensures Tables(image, c)
  {
    hide UintTable, Fits, WriteU32, Flatten, SectionIs;
  }

  /** Placed functions are stored where their table entries say. */
  lemma PlacedStored(image: Image, parts: Parts, c: Content)
    requires Holds(parts, c) && PartsAt(image.data, image.layout, parts)
    requires FunctionsPlaced(parts, c, if c.version.V1? then image.layout.functions.start else 0)
    requires c.version.V2? ==> image.layout.functions.end < U64_LIMIT
    ensures forall i :: 0 <= i < |c.functions| ==> FunctionStored(image, c, i)
  {
    hide UintTable, Fits, WriteU32, Flatten, FunctionAtPosition;
  }

  /** A version one file built from the parts loads and stores the content. */
  lemma V1Stores(h: V1Header, parts: Parts, c: Content, fileCount: uint32)
    requires c.version == V1 && |h.uuid| <= MAX_UUID_SIZE && EncodeV1Header(h, c.order).Ok?
    requires h.base == c.base && h.width == c.width && h.count == |c.functions| && |c.files| == fileCount
    requires Holds(parts, c) && h.stringOffset == V1StringOffset(parts) && h.stringSize == |parts.strings|
    requires FunctionsPlaced(parts, c, V1StringOffset(parts) + |parts.strings|)
    ensures
      var data := EncodeV1Header(h, c.order).value + V1Body(parts);
      var image := Image(data, V1LayoutOf(h, c.order, parts, fileCount));
      Load(data) == Ok(image) && Stores(image, c) && BuildId(image) == h.uuid
  {
    hide EncodeV1Header, V1Body, V1StringOffset, ParseLayout, ParseV1, ParseV2, Holds, FunctionsPlaced, PartsAt, Tables, FunctionStored, Consistent,
      AlignUp;
    HoldsCounts(parts, c);
    var header := EncodeV1Header(h, c.order).value;
    var data := header + V1Body(parts);
    var layout := V1LayoutOf(h, c.order, parts, |c.files|);
    HoldsConsistent(parts, c);
    V1PartsAt(header, h, c.order, parts, |c.files|);
    V1Parses(h, c.order, parts, |c.files|);
    VersionDispatches(data);
    HoldsTables(Image(data, layout), parts, c);
    V1FunctionsStart(h, c.order, parts, |c.files|);
    PlacedStored(Image(data, layout), parts, c);
    EncodedV1Width(h, c.order);
    V1BuildId(h, c.order, V1Body(parts));
  }

  lemma HoldsCounts(parts: Parts, c: Content)
    requires Holds(parts, c)
    ensures |c.functions| == |c.infos| < U32_LIMIT && |c.files| < U32_LIMIT && c.strings != []
  {
    hide UintTable, Fits, WriteU32, Flatten;
  }

  lemma V1FunctionsStart(h: V1Header, order: ByteOrder, parts: Parts, fileCount: uint32)
    ensures V1LayoutOf(h, order, parts, fileCount).functions.start == V1StringOffset(parts) + |parts.strings|
  {
    hide AlignUp;
  }

  /** The build ID lies at its fixed offset in the header. */
  lemma V1BuildId(h: V1Header, order: ByteOrder, body: seq<uint8>)
    requires |h.uuid| <= MAX_UUID_SIZE && EncodeV1Header(h, order).Ok?
    ensures
      var data := EncodeV1Header(h, order).value + body;
      UUID_OFFSET + |h.uuid| <= |data| && data[UUID_OFFSET..UUID_OFFSET + |h.uuid|] == h.uuid
  {
    hide Prefix, WriteU32;
    var header := EncodeV1Header(h, order).value;
    assert header[UUID_OFFSET..] == h.uuid + Zeros(MAX_UUID_SIZE - |h.uuid|);
    assert (header + body)[UUID_OFFSET..UUID_OFFSET + |h.uuid|] == header[UUID_OFFSET..][..|h.uuid|];
  }

  /** A version two file built from the parts loads and stores the content. */
  lemma V2Stores(h: V2Header, uuid: seq<uint8>, parts: Parts, c: Content, fileCount: uint32)
    requires c.version == V2 && EncodeV2Header(h, c.order).Ok? && V2Width(h.width)
    requires h.base == c.base && h.width == c.width && h.count == |c.functions| > 0
    requires Holds(parts, c) && FunctionsPlaced(parts, c, 0)
    requires |c.files| == fileCount
    requires V2LayoutOf(h, c.order, uuid, parts, fileCount).functions.end < U64_LIMIT
    requires InOrder(V2LayoutOf(h, c.order, uuid, parts, fileCount), DirectoryEnd(uuid))
    requires DirectoryEnd(uuid) + |uuid| <= V2LayoutOf(h, c.order, uuid, parts, fileCount).addresses.start
    ensures
      var layout := V2LayoutOf(h, c.order, uuid, parts, fileCount);
      var data := V2Front(h, c.order, uuid, layout) + V2Body(layout, DirectoryEnd(uuid) + |uuid|, parts);
      Load(data) == Ok(Image(data, layout)) && Stores(Image(data, layout), c) && BuildId(Image(data, layout)) == uuid
  {
    hide EncodeV2Header, V2Front, V2Body, V2LayoutOf, ParseLayout, ParseV1, ParseV2, Holds, PartsAt, Tables, FunctionStored,
      Consistent, InOrder, DirectoryOf, FunctionAtPosition;
    HoldsCounts(parts, c);
    var layout := V2LayoutOf(h, c.order, uuid, parts, fileCount);
    InOrderFromStart(layout, DirectoryEnd(uuid));
    var front := V2Front(h, c.order, uuid, layout);
    var data := front + V2Body(layout, DirectoryEnd(uuid) + |uuid|, parts);
    HoldsConsistent(parts, c);
    assert FunctionAtPosition(parts.functions, c.infos[0] - 0, c.functions[0], c.order, 8);
    V2LayoutFacts(h, c.order, uuid, parts, fileCount);
    V2LayoutFields(h, c.order, uuid, parts, fileCount);
    V2FrontSize(h, c.order, uuid, layout);
    V2PartsAt(front, layout, parts);
    V2Parses(h, c.order, uuid, parts, fileCount);
    VersionDispatches(data);
    HoldsTables(Image(data, layout), parts, c);
    PlacedStored(Image(data, layout), parts, c);
  }

  lemma InOrderFromStart(layout: ParsedLayout, directoryEnd: nat)
    requires InOrder(layout, directoryEnd)
    ensures InOrder(layout, 0)
  {
  }

  /** The build ID ends the front of the file. */
  lemma V2FrontSize(h: V2Header, order: ByteOrder, uuid: seq<uint8>, layout: ParsedLayout)
    requires InOrder(layout, 0) && EncodeV2Header(h, order).Ok?
    requires |DirectoryOf(layout)| == if uuid == [] then 5 else 6
    ensures |V2Front(h, order, uuid, layout)| == DirectoryEnd(uuid) + |uuid|
    ensures V2Front(h, order, uuid, layout)[DirectoryEnd(uuid)..] == uuid
  {
    hide EncodeV2Header, DirectoryOf, EncodeSection;
  }

  // ------------------------------------------------------------- section by section

  /** No function starts below the base. */
  predicate StartsFrom(functions: seq<EncodedFunction>, base: uint64) {
    forall i :: 0 <= i < |functions| ==> base <= functions[i].range.start
  }

  method WriteAddressOffsets(output: Encoder, functions: seq<EncodedFunction>, base: uint64, width: uint8) returns (r: Result<Unit>)
    requires V1Width(width)
    modifies output
    ensures r.Ok? <==> StartsFrom(functions, base) && Fits(Offsets(functions, base), width)
    ensures r.Ok? ==>
      output.bytes == old(output.bytes) + Zeros(AlignUp(|old(output.bytes)|, width) - |old(output.bytes)|)
                         + UintTable(output.order, Offsets(functions, base), width)
  {
    hide AlignUp, UintTable, Fits;
    output.AlignTo(width);
    var offsets: seq<uint64> := [];
    for i := 0 to |functions|
      invariant |offsets| == i
      invariant forall k :: 0 <= k < i ==> base <= functions[k].range.start && offsets[k] == functions[k].range.start - base
    {
      if functions[i].range.start < base {
        return Err(InvalidModel);
      }
      offsets := offsets + [functions[i].range.start - base];
    }
    assert offsets == Offsets(functions, base);
    r := WriteTable(output, offsets, width);
  }

  method WriteFileTable(output: Encoder, files: seq<(uint64, uint64)>, width: uint8) returns (r: Result<Unit>)
    requires width == 4 || width == 8
    modifies output
    ensures r.Ok? <==> |files| < U32_LIMIT && Fits(Flatten(files), width)
    ensures r.Ok? ==>
      output.bytes == old(output.bytes) + (WriteU32(output.order, |files|) + UintTable(output.order, Flatten(files), width))
  {
    hide UintTable, Fits, Flatten, WriteU32;
    if |files| >= U32_LIMIT {
      return Err(Limit);
    }
    output.WriteU32(|files|);
    r := WriteTable(output, Flatten(files), width);
    AppendAssociates(old(output.bytes), WriteU32(output.order, |files|), UintTable(output.order, Flatten(files), width));
  }

  /** Offsets into a version one file must fit 32 bits. */
  method NarrowOffsets(offsets: seq<nat>) returns (r: Result<seq<uint64>>)
    ensures r.Ok? <==> forall i :: 0 <= i < |offsets| ==> offsets[i] < U32_LIMIT
    ensures r.Ok? ==> |r.value| == |offsets| && forall i :: 0 <= i < |offsets| ==> r.value[i] == offsets[i]
  {
    var narrowed: seq<uint64> := [];
    for i := 0 to |offsets|
      invariant |narrowed| == i
      invariant forall k :: 0 <= k < i ==> narrowed[k] == offsets[k] && offsets[k] < U32_LIMIT
    {
      if offsets[i] >= U32_LIMIT {
        return Err(V1LimitExceeded);
      }
      narrowed := narrowed + [offsets[i]];
    }
    return Ok(narrowed);
  }

  lemma NarrowFits(values: seq<uint64>, width: uint8)
    requires width == 8 || (width == 4 && forall i :: 0 <= i < |values| ==> values[i] < U32_LIMIT)
    ensures Fits(values, width)
  {
    ExpWidths();
  }

  /** The pieces in writing order make the file. */
  lemma AssembleV1(header: seq<uint8>, parts: Parts, padding: nat)
    requires padding == V1Padding(|parts.addresses|)
    ensures header + Zeros(0) + parts.addresses + Zeros(padding) + parts.infos + Zeros(0) + parts.files + parts.strings + parts.functions
         == header + V1Body(parts)
  {
    var zeros := Zeros(padding);
    assert header + Zeros(0) == header;
    var afterInfos := header + parts.addresses + zeros + parts.infos;
    assert afterInfos + Zeros(0) == afterInfos;
    AppendAssociates(afterInfos + parts.files, parts.strings, parts.functions);
    AppendAssociates(afterInfos, parts.files, parts.strings + parts.functions);
    AppendAssociates(header + parts.addresses + zeros, parts.infos, parts.files + (parts.strings + parts.functions));
    AppendAssociates(header + parts.addresses, zeros, parts.infos + (parts.files + (parts.strings + parts.functions)));
    AppendAssociates(header, parts.addresses, zeros + (parts.infos + (parts.files + (parts.strings + parts.functions))));
  }

  const NOTHING := Content(V1, Little, 0, 1, [], [], [], [])

  /** The file loads and holds the content. */
  ghost predicate Written(data: seq<uint8>, c: Content, buildId: seq<uint8>) {
    && Load(data).Ok?
    && Stores(Load(data).value, c)
    && BuildId(Load(data).value) == buildId
  }

  /** Everything before the function section of a version one file. */
  method WriteV1Prefix(header: seq<uint8>, order: ByteOrder, base: uint64, width: uint8, functions: seq<EncodedFunction>,
                       infos: seq<uint64>, files: seq<(uint64, uint64)>, strings: seq<uint8>, ghost section: seq<uint8>)
    returns (r: Result<seq<uint8>>, ghost parts: Parts)
    requires |header| == V1_HEADER_SIZE && V1Width(width) && |infos| == |functions| && strings != [] && strings[0] == 0
    requires |functions| < U32_LIMIT && forall i :: 0 <= i < |infos| ==> infos[i] < U32_LIMIT
    ensures r.Ok? <==>
      StartsFrom(functions, base) && Fits(Offsets(functions, base), width) && |files| < U32_LIMIT && Fits(Flatten(files), 4)
    ensures r.Ok? ==>
      && Holds(parts, Content(V1, order, base, width, functions, files, strings, infos))
      && parts.functions == section
      && r.value + section == header + V1Body(parts)
  {
    hide AlignUp, UintTable, Fits, Flatten, WriteU32, V1Body, Exp, Offsets;
    parts := Parts([], [], [], [], []);
    var output := new Encoder(order);
    output.WriteBytes(header);
    assert output.bytes == header;
    HeaderSizeAligned(width);
    var addresses := WriteAddressOffsets(output, functions, base, width);
    if addresses.Err? {
      r := Err(addresses.error);
      return;
    }
    ghost var addressTable := UintTable(order, Offsets(functions, base), width);
    ghost var infoTable := UintTable(order, infos, 4);
    UintTableSize(order, infos, 4);
    output.AlignTo(4);
    ghost var infoStart := |output.bytes|;
    NarrowFits(infos, 4);
    var _ := WriteTable(output, infos, 4);
    MultipleOfFour(infoStart, |infos|);
    AlignedStays(|output.bytes|, 4);
    output.AlignTo(4);
    var table := WriteFileTable(output, files, 4);
    if table.Err? {
      r := Err(table.error);
      return;
    }
    output.WriteBytes(strings);
    parts := Parts(addressTable, infoTable, WriteU32(order, |files|) + UintTable(order, Flatten(files), 4), strings, section);
    AssembleV1(header, parts, V1Padding(|addressTable|));
    r := Ok(output.bytes);
  }

  /** Where the strings of a version one file start. */
  function V1StringStart(functionCount: nat, width: nat, fileCount: nat): nat {
    var infoStart := AlignUp(V1_HEADER_SIZE + functionCount * width, 4);
    AlignUp(infoStart + functionCount * 4, 4) + 4 + fileCount * 8
  }

  lemma V1StringStartAgrees(parts: Parts, c: Content)
    requires Holds(parts, c) && c.version == V1
    ensures V1StringOffset(parts) == V1StringStart(|c.functions|, c.width, |c.files|)
  {
    hide UintTable, Fits, WriteU32, Flatten, AlignUp;
    UintTableSize(c.order, Offsets(c.functions, c.base), c.width);
    UintTableSize(c.order, c.infos, 4);
    UintTableSize(c.order, Flatten(c.files), 4);
    var infoStart := AlignUp(V1_HEADER_SIZE + |parts.addresses|, 4);
    MultipleOfFour(infoStart, |c.functions|);
    AlignedStays(infoStart + |parts.infos|, 4);
  }

  /** The placement the section writer reports, seen from the table entries. */
  lemma OffsetsPlaced(parts: Parts, c: Content, offsets: seq<nat>, base: nat)
    requires |c.functions| == |c.infos| == |offsets|
    requires forall i :: 0 <= i < |offsets| ==> c.infos[i] == offsets[i]
    requires forall i :: 0 <= i < |offsets| ==>
      && offsets[i] % 4 == 0 && base <= offsets[i] < base + |parts.functions|
      && FunctionAtPosition(parts.functions, offsets[i] - base, c.functions[i], c.order, StringWidth(c.version))
    ensures FunctionsPlaced(parts, c, base)
  {
    hide FunctionAtPosition;
  }

  /** What a version one file can hold: sizes, positions and string offsets within 32
      bits, a short build ID, and functions that encode. */
  ghost predicate V1Fits(
      order: ByteOrder, buildId: seq<uint8>, base: uint64, width: uint8, files: seq<(uint64, uint64)>, strings: seq<uint8>,
      functions: seq<EncodedFunction>)
    requires V1Width(width)
  {
    var stringStart := V1StringStart(|functions|, width, |files|);
    var section := SectionFrom(functions, order, 4, stringStart + |strings|);
    && |buildId| <= MAX_UUID_SIZE && |functions| < U32_LIMIT && |files| < U32_LIMIT
    && stringStart < U32_LIMIT && |strings| < U32_LIMIT
    && section.Ok? && (forall i :: 0 <= i < |section.value.0| ==> section.value.0[i] < U32_LIMIT)
    && StartsFrom(functions, base) && Fits(Offsets(functions, base), width) && Fits(Flatten(files), 4)
  }

  /** Offsets as table entries; a file that fits has none past 64 bits. */
  function Narrowed(offsets: seq<nat>): seq<uint64> {
    seq(|offsets|, i requires 0 <= i < |offsets| => if offsets[i] < U64_LIMIT then offsets[i] else 0)
  }

  /** The sections before their padding. */
  function PartsOf(c: Content, section: seq<uint8>): Parts
    requires StartsFrom(c.functions, c.base) && |c.files| < U32_LIMIT
  {
    Parts(UintTable(c.order, Offsets(c.functions, c.base), c.width), UintTable(c.order, c.infos, InfoWidth(c.version)),
          WriteU32(c.order, |c.files|) + UintTable(c.order, Flatten(c.files), StringWidth(c.version)), c.strings, section)
  }

  lemma HoldsParts(parts: Parts, c: Content)
    requires Holds(parts, c)
    ensures StartsFrom(c.functions, c.base) && |c.files| < U32_LIMIT && parts == PartsOf(c, parts.functions)
  {
    hide UintTable, Fits, Flatten, WriteU32;
  }

  /** The bytes of a version one file that fits. */
  ghost function V1File(
      order: ByteOrder, buildId: seq<uint8>, base: uint64, width: uint8, files: seq<(uint64, uint64)>, strings: seq<uint8>,
      functions: seq<EncodedFunction>): seq<uint8>
  {
    var stringStart := V1StringStart(|functions|, width, |files|);
    var section := SectionFrom(functions, order, 4, stringStart + |strings|);
    if section.Err? || !StartsFrom(functions, base) || |buildId| > MAX_UUID_SIZE || |functions| >= U32_LIMIT || |files| >= U32_LIMIT
       || |strings| >= U32_LIMIT || stringStart >= U32_LIMIT
    then []
    else
      var header := EncodeV1Header(V1Header(width, base, |functions|, stringStart, |strings|, buildId), order);
      var c := Content(V1, order, base, width, functions, files, strings, Narrowed(section.value.0));
      (if header.Ok? then header.value else []) + V1Body(PartsOf(c, section.value.1))
  }

  /** `encode_v1`. */
  method EncodeV1(
    order: ByteOrder, buildId: seq<uint8>, base: uint64, width: uint8, files: seq<(uint64, uint64)>, strings: seq<uint8>,
    functions: seq<EncodedFunction>) returns (r: Result<seq<uint8>>, ghost c: Content)
    requires strings != [] && strings[0] == 0 && V1Width(width)
    ensures r.Ok? <==> V1Fits(order, buildId, base, width, files, strings, functions)
    ensures r.Ok? ==> Written(r.value, c, buildId) && c == Content(V1, order, base, width, functions, files, strings, c.infos)
    ensures r.Ok? ==> r.value == V1File(order, buildId, base, width, files, strings, functions)
  {
    hide Written, Holds, FunctionsPlaced, FunctionAtPosition, V1StringStart, V1StringOffset, V1Body, V1Width, EncodeV1Header, AlignUp,
      SectionFrom, Fits, StartsFrom, PartsOf;
    c := NOTHING;
    if |buildId| > MAX_UUID_SIZE {
      r := Err(V1BuildIdTooLong);
      return;
    }
    if |functions| >= U32_LIMIT {
      r := Err(Limit);
      return;
    }
    var stringStart := V1StringStart(|functions|, width, |files|);
    var functionBase := stringStart + |strings|;
    var section := WriteFunctionSection(functions, order, 4, functionBase);
    if section.Err? {
      r := Err(section.error);
      return;
    }
    var (offsets, functionBytes) := section.value;
    if stringStart >= U32_LIMIT || |strings| >= U32_LIMIT {
      r := Err(V1LimitExceeded);
      return;
    }
    var h := V1Header(width, base, |functions|, stringStart, |strings|, buildId);
    HeaderEncodes(h, order);
    var header := WriteV1Header(h, order);
    var infos := NarrowOffsets(offsets);
    if infos.Err? {
      r := Err(infos.error);
      return;
    }
    ghost var parts;
    r, parts := WriteV1Prefix(header.value, order, base, width, functions, infos.value, files, strings, functionBytes);
    if r.Err? {
      return;
    }
    c := Content(V1, order, base, width, functions, files, strings, infos.value);
    OffsetsPlaced(parts, c, offsets, functionBase);
    r := Ok(r.value + functionBytes);
    V1Written(h, parts, c, |files|, r.value);
    HoldsParts(parts, c);
    assert c.infos == Narrowed(offsets);
  }

  /** The bytes written are those of a file that stores the content. */
  lemma V1Written(h: V1Header, parts: Parts, c: Content, fileCount: uint32, data: seq<uint8>)
    requires c.version == V1 && |h.uuid| <= MAX_UUID_SIZE && EncodeV1Header(h, c.order).Ok?
    requires h.base == c.base && h.width == c.width && h.count == |c.functions| && |c.files| == fileCount
    requires h.stringOffset == V1StringStart(|c.functions|, c.width, |c.files|) && h.stringSize == |c.strings|
    requires Holds(parts, c) && FunctionsPlaced(parts, c, h.stringOffset + |c.strings|)
    requires data == EncodeV1Header(h, c.order).value + V1Body(parts)
    ensures Written(data, c, h.uuid)
  {
    hide *;
    V1StringStartAgrees(parts, c);
    HoldsStrings(parts, c);
    V1Stores(h, parts, c, fileCount);
    StoresWritten(data, Image(data, V1LayoutOf(h, c.order, parts, fileCount)), c, h.uuid);
  }

  lemma HeaderEncodes(h: V1Header, order: ByteOrder)
    requires V1Width(h.width) && |h.uuid| <= MAX_UUID_SIZE
    ensures EncodeV1Header(h, order).Ok?
  {
  }

  lemma HoldsStrings(parts: Parts, c: Content)
    requires Holds(parts, c)
    ensures parts.strings == c.strings && |c.files| < U32_LIMIT
  {
    hide UintTable, Fits, WriteU32, Flatten;
  }

  lemma StoresWritten(data: seq<uint8>, image: Image, c: Content, buildId: seq<uint8>)
    requires Load(data) == Ok(image) && Stores(image, c) && BuildId(image) == buildId
    ensures Written(data, c, buildId)
  {
    hide Load, Stores, BuildId;
  }

  // --------------------------------------------------------------- version two

  /** The section sizes that determine a version two layout. */
  predicate Sized(parts: Parts, count: nat, width: nat, fileCount: uint32, stringsSize: nat, functionsSize: nat) {
    && |parts.addresses| == count * width && |parts.infos| == count * 8
    && |parts.files| == FileTableSize(fileCount, 16)
    && |parts.strings| == stringsSize && |parts.functions| == functionsSize
  }

  /** `write_layout`: one running offset, each section aligned in turn. */
  method WriteLayout(
    h: V2Header, order: ByteOrder, uuid: seq<uint8>, fileCount: uint32, stringsSize: nat, functionsSize: nat)
    returns (r: Result<ParsedLayout>)
    requires V2Width(h.width)
    ensures r.Ok? ==> r.value.functions.end < U64_LIMIT
    ensures r.Ok? ==> forall parts: Parts :: Sized(parts, h.count, h.width, fileCount, stringsSize, functionsSize) ==>
      V2LayoutOf(h, order, uuid, parts, fileCount) == r.value
    ensures r.Err? ==> r == Err(Overflow) && forall parts: Parts ::
      Sized(parts, h.count, h.width, fileCount, stringsSize, functionsSize) ==>
      V2LayoutOf(h, order, uuid, parts, fileCount).functions.end >= U64_LIMIT
  {
    hide AlignUp, V2LayoutOf, Sized, DirectoryEnd;
    var current := DirectoryEnd(uuid);
    var buildId := Span(0, 0);
    if uuid != [] {
      buildId := Span(current, current + |uuid|);
      current := buildId.end;
    }
    current := AlignUp(current, h.width);
    var addresses := Span(current, current + h.count * h.width);
    current := AlignUp(addresses.end, 8);
    var infos := Span(current, current + h.count * 8);
    current := AlignUp(infos.end, 4);
    var files := Span(current, current + FileTableSize(fileCount, 16));
    var strings := Span(files.end, files.end + stringsSize);
    current := AlignUp(strings.end, 4);
    var functions := Span(current, current + functionsSize);
    var layout := ParsedLayout(V2, order, h.width, 8, h.base, h.count, buildId, addresses, infos, files, strings, functions, fileCount);
    forall parts: Parts | Sized(parts, h.count, h.width, fileCount, stringsSize, functionsSize)
      ensures V2LayoutOf(h, order, uuid, parts, fileCount) == layout
    {
      LaidOutBySize(h, order, uuid, parts, fileCount, stringsSize, functionsSize, layout);
    }
    if functions.end >= U64_LIMIT {
      return Err(Overflow);
    }
    return Ok(layout);
  }

  /** The layout depends on the sizes of the parts only. */
  lemma LaidOutBySize(
    h: V2Header, order: ByteOrder, uuid: seq<uint8>, parts: Parts, fileCount: uint32, stringsSize: nat, functionsSize: nat,
    layout: ParsedLayout)
    requires V2Width(h.width) && Sized(parts, h.count, h.width, fileCount, stringsSize, functionsSize)
    requires layout.buildId == if uuid == [] then Span(0, 0) else Span(DirectoryEnd(uuid), DirectoryEnd(uuid) + |uuid|)
    requires layout.addresses.start == AlignUp(DirectoryEnd(uuid) + |uuid|, h.width)
    requires layout.addresses.end == layout.addresses.start + h.count * h.width
    requires layout.infos.start == AlignUp(layout.addresses.end, 8) && layout.infos.end == layout.infos.start + h.count * 8
    requires layout.files.start == AlignUp(layout.infos.end, 4) && layout.files.end == layout.files.start + FileTableSize(fileCount, 16)
    requires layout.strings == Span(layout.files.end, layout.files.end + stringsSize)
    requires layout.functions.start == AlignUp(layout.strings.end, 4) && layout.functions.end == layout.functions.start + functionsSize
    requires layout.version == V2 && layout.order == order && layout.addressWidth == h.width && layout.stringWidth == 8
    requires layout.base == h.base && layout.count == h.count && layout.fileCount == fileCount
    ensures V2LayoutOf(h, order, uuid, parts, fileCount) == layout
  {
    hide AlignUp, DirectoryEnd, FileTableSize;
  }

  lemma {:induction false} EntriesBytesSnoc(entries: seq<Section>, order: ByteOrder, section: Section)
    ensures EntriesBytes(entries + [section], order) == EntriesBytes(entries, order) + EncodeSection(section, order)
  {
    hide EncodeSection;
    if entries == [] {
      assert entries + [section] == [section] && [section][1..] == [];
    } else {
      EntriesBytesSnoc(entries[1..], order, section);
      assert (entries + [section])[1..] == entries[1..] + [section];
      AppendAssociates(EncodeSection(entries[0], order), EntriesBytes(entries[1..], order), EncodeSection(section, order));
    }
  }

  method WriteSection(output: Encoder, section: Section)
    modifies output
    ensures output.bytes == old(output.bytes) + EncodeSection(section, output.order)
  {
    hide Wire.WriteU32, Wire.WriteU64;
    output.WriteU32(section.kind);
    output.WriteU64(section.offset);
    output.WriteU64(section.size);
  }

  method WriteDirectory(output: Encoder, entries: seq<Section>)
    modifies output
    ensures output.bytes == old(output.bytes) + EntriesBytes(entries, output.order) + EncodeSection(TERMINATOR, output.order)
  {
    hide EncodeSection;
    for i := 0 to |entries|
      invariant output.bytes == old(output.bytes) + EntriesBytes(entries[..i], output.order)
    {
      assert entries[..i + 1] == entries[..i] + [entries[i]];
      EntriesBytesSnoc(entries[..i], output.order, entries[i]);
      AppendAssociates(old(output.bytes), EntriesBytes(entries[..i], output.order), EncodeSection(entries[i], output.order));
      WriteSection(output, entries[i]);
    }
    assert entries[..|entries|] == entries;
    WriteSection(output, TERMINATOR);
  }

  /** Zero bytes up to the next multiple. */
  function Padded(before: seq<uint8>, alignment: nat): seq<uint8>
    requires alignment > 0
  {
    before + Zeros(AlignUp(|before|, alignment) - |before|)
  }

  /** The sections in writing order, each after its padding. */
  function V2Sections(front: seq<uint8>, width: nat, parts: Parts): seq<uint8>
    requires width > 0
  {
    Padded(Padded(Padded(Padded(front, width) + parts.addresses, 8) + parts.infos, 4) + parts.files + parts.strings, 4)
  }

  /** The gaps of the layout are what aligning leaves. */
  lemma V2Gaps(h: V2Header, order: ByteOrder, uuid: seq<uint8>, parts: Parts, fileCount: uint32)
    requires V2Width(h.width)
    ensures
      var layout := V2LayoutOf(h, order, uuid, parts, fileCount);
      && layout.addresses.start == AlignUp(DirectoryEnd(uuid) + |uuid|, h.width)
      && layout.addresses.end == layout.addresses.start + |parts.addresses|
      && layout.infos.start == AlignUp(layout.addresses.end, 8) && layout.infos.end == layout.infos.start + |parts.infos|
      && layout.files.start == AlignUp(layout.infos.end, 4) && layout.files.end == layout.files.start + |parts.files|
      && layout.strings.start == layout.files.end && layout.strings.end == layout.strings.start + |parts.strings|
      && layout.functions.start == AlignUp(layout.strings.end, 4)
  {
    hide AlignUp;
  }

  /** Nine pieces, left to right. */
  lemma AppendNine(
    front: seq<uint8>, z1: seq<uint8>, a: seq<uint8>, z2: seq<uint8>, b: seq<uint8>, z3: seq<uint8>, c: seq<uint8>, d: seq<uint8>,
    z4: seq<uint8>, e: seq<uint8>)
    ensures front + z1 + a + z2 + b + z3 + c + d + z4 + e == front + (z1 + (a + (z2 + (b + (z3 + (c + (d + (z4 + e))))))))
  {
    hide *;
    AppendAssociates(front + z1 + a + z2 + b + z3 + c + d, z4, e);
    AppendAssociates(front + z1 + a + z2 + b + z3 + c, d, z4 + e);
    AppendAssociates(front + z1 + a + z2 + b + z3, c, d + (z4 + e));
    AppendAssociates(front + z1 + a + z2 + b, z3, c + (d + (z4 + e)));
    AppendAssociates(front + z1 + a + z2, b, z3 + (c + (d + (z4 + e))));
    AppendAssociates(front + z1 + a, z2, b + (z3 + (c + (d + (z4 + e)))));
    AppendAssociates(front + z1, a, z2 + (b + (z3 + (c + (d + (z4 + e))))));
    AppendAssociates(front, z1, a + (z2 + (b + (z3 + (c + (d + (z4 + e)))))));
  }

  /** Padding as it is written fills exactly the gaps of the layout. */
  lemma AssembleV2(h: V2Header, order: ByteOrder, uuid: seq<uint8>, parts: Parts, fileCount: uint32, front: seq<uint8>)
    requires V2Width(h.width) && |front| == DirectoryEnd(uuid) + |uuid|
    requires InOrder(V2LayoutOf(h, order, uuid, parts, fileCount), 0)
    requires |front| <= V2LayoutOf(h, order, uuid, parts, fileCount).addresses.start
    ensures V2Sections(front, h.width, parts) + parts.functions
         == front + V2Body(V2LayoutOf(h, order, uuid, parts, fileCount), |front|, parts)
  {
    hide *;
    var layout := V2LayoutOf(h, order, uuid, parts, fileCount);
    V2Gaps(h, order, uuid, parts, fileCount);
    InOrderGaps(layout);
    var z1, z2 := Zeros(layout.addresses.start - |front|), Zeros(layout.infos.start - layout.addresses.end);
    var z3, z4 := Zeros(layout.files.start - layout.infos.end), Zeros(layout.functions.start - layout.strings.end);
    PaddedPieces(front, h.width, layout, parts, z1, z2, z3, z4);
    AppendNine(front, z1, parts.addresses, z2, parts.infos, z3, parts.files, parts.strings, z4, parts.functions);
    BodyPieces(layout, |front|, parts, z1, z2, z3, z4);
  }

  lemma InOrderGaps(layout: ParsedLayout)
    requires InOrder(layout, 0)
    ensures layout.addresses.end <= layout.infos.start && layout.infos.end <= layout.files.start
    ensures layout.strings.end <= layout.functions.start
  {
  }

  lemma BodyPieces(layout: ParsedLayout, frontSize: nat, parts: Parts, z1: seq<uint8>, z2: seq<uint8>, z3: seq<uint8>, z4: seq<uint8>)
    requires InOrder(layout, 0) && frontSize <= layout.addresses.start
    requires z1 == Zeros(layout.addresses.start - frontSize) && z2 == Zeros(layout.infos.start - layout.addresses.end)
    requires z3 == Zeros(layout.files.start - layout.infos.end) && z4 == Zeros(layout.functions.start - layout.strings.end)
    ensures V2Body(layout, frontSize, parts)
      == z1 + (parts.addresses + (z2 + (parts.infos + (z3 + (parts.files + (parts.strings + (z4 + parts.functions)))))))
  {
    hide Zeros;
  }

  lemma PaddedPieces(front: seq<uint8>, width: nat, layout: ParsedLayout, parts: Parts, z1: seq<uint8>, z2: seq<uint8>, z3: seq<uint8>, z4: seq<uint8>)
    requires 0 < width && |front| <= layout.addresses.start
    requires layout.addresses.end <= layout.infos.start && layout.infos.end <= layout.files.start && layout.strings.end <= layout.functions.start
    requires z1 == Zeros(layout.addresses.start - |front|) && z2 == Zeros(layout.infos.start - layout.addresses.end)
    requires z3 == Zeros(layout.files.start - layout.infos.end) && z4 == Zeros(layout.functions.start - layout.strings.end)
    requires layout.addresses.start == AlignUp(|front|, width)
    requires layout.addresses.end == layout.addresses.start + |parts.addresses|
    requires layout.infos.start == AlignUp(layout.addresses.end, 8) && layout.infos.end == layout.infos.start + |parts.infos|
    requires layout.files.start == AlignUp(layout.infos.end, 4) && layout.files.end == layout.files.start + |parts.files|
    requires layout.strings.start == layout.files.end && layout.strings.end == layout.strings.start + |parts.strings|
    requires layout.functions.start == AlignUp(layout.strings.end, 4)
    ensures V2Sections(front, width, parts)
      == front + z1 + parts.addresses + z2 + parts.infos + z3 + parts.files + parts.strings + z4
  {
    hide AlignUp, Zeros;
    var first := front + z1 + parts.addresses;
    assert Padded(front, width) == front + z1 && |first| == layout.addresses.end;
    var second := first + z2 + parts.infos;
    assert Padded(first, 8) == first + z2 && |second| == layout.infos.end;
    var third := second + z3 + parts.files + parts.strings;
    assert Padded(second, 4) == second + z3 && |third| == layout.strings.end;
  }

  method WriteV2Front(header: seq<uint8>, h: V2Header, order: ByteOrder, uuid: seq<uint8>, layout: ParsedLayout) returns (output: Encoder)
    requires EncodeV2Header(h, order) == Ok(header) && InOrder(layout, 0)
    ensures fresh(output) && output.order == order && output.bytes == V2Front(h, order, uuid, layout)
  {
    hide EncodeV2Header, DirectoryOf, EntriesBytes, EncodeSection, InOrder;
    output := new Encoder(order);
    output.WriteBytes(header);
    assert output.bytes == header;
    var entries := DirectoryOf(layout);
    WriteDirectory(output, entries);
    output.WriteBytes(uuid);
    AppendAssociates(header + EntriesBytes(entries, order), EncodeSection(TERMINATOR, order), uuid);
    AppendAssociates(header, EntriesBytes(entries, order), EncodeSection(TERMINATOR, order) + uuid);
  }

  /** The tables and strings of a version two file, after its front. */
  method WriteV2Sections(output: Encoder, base: uint64, width: uint8, functions: seq<EncodedFunction>, infos: seq<uint64>,
                         files: seq<(uint64, uint64)>, strings: seq<uint8>, ghost section: seq<uint8>)
    returns (r: Result<Unit>, ghost parts: Parts)
    requires V1Width(width) && |infos| == |functions| < U32_LIMIT && strings != [] && strings[0] == 0
    modifies output
    ensures r.Ok? <==> StartsFrom(functions, base) && Fits(Offsets(functions, base), width) && |files| < U32_LIMIT
    ensures r.Ok? ==>
      && Holds(parts, Content(V2, output.order, base, width, functions, files, strings, infos))
      && parts.functions == section
      && output.bytes == V2Sections(old(output.bytes), width, parts)
  {
    hide AlignUp, UintTable, Fits, Flatten, WriteU32, Exp, Offsets;
    parts := Parts([], [], [], [], []);
    r := WriteAddressOffsets(output, functions, base, width);
    if r.Err? {
      return;
    }
    output.AlignTo(8);
    NarrowFits(infos, 8);
    var _ := WriteTable(output, infos, 8);
    output.AlignTo(4);
    NarrowFits(Flatten(files), 8);
    r := WriteFileTable(output, files, 8);
    if r.Err? {
      return;
    }
    output.WriteBytes(strings);
    output.AlignTo(4);
    parts := Parts(
      UintTable(output.order, Offsets(functions, base), width), UintTable(output.order, infos, 8),
      WriteU32(output.order, |files|) + UintTable(output.order, Flatten(files), 8), strings, section);
  }

  lemma HoldsSized(parts: Parts, c: Content)
    requires Holds(parts, c) && c.version == V2
    ensures |c.files| < U32_LIMIT && Sized(parts, |c.functions|, c.width, |c.files|, |c.strings|, |parts.functions|)
  {
    hide UintTable, Fits, WriteU32, Flatten;
    HoldsConsistent(parts, c);
  }

  /** Any parts of the given sizes. */
  lemma SizedExample(count: nat, width: nat, fileCount: uint32, strings: seq<uint8>, functions: seq<uint8>) returns (parts: Parts)
    ensures Sized(parts, count, width, fileCount, |strings|, |functions|)
  {
    parts := Parts(Zeros(count * width), Zeros(count * 8), Zeros(FileTableSize(fileCount, 16)), strings, functions);
  }

  /** Table positions of a version two file are relative to their section. */
  method WidenOffsets(offsets: seq<nat>, limit: nat) returns (infos: seq<uint64>)
    requires limit <= U64_LIMIT && forall i :: 0 <= i < |offsets| ==> offsets[i] < limit
    ensures |infos| == |offsets| && forall i :: 0 <= i < |offsets| ==> infos[i] == offsets[i]
  {
    infos := [];
    for i := 0 to |offsets|
      invariant |infos| == i && forall k :: 0 <= k < i ==> infos[k] == offsets[k]
    {
      infos := infos + [offsets[i]];
    }
  }

  lemma V2HeaderEncodes(h: V2Header, order: ByteOrder)
    requires V2Width(h.width) && h.encoding == 0
    ensures EncodeV2Header(h, order).Ok?
  {
  }

  /** What a version two file can hold: 32-bit counts, an end within 64 bits, and
      functions that encode. */
  ghost predicate V2Fits(
      order: ByteOrder, buildId: seq<uint8>, base: uint64, width: uint8, files: seq<(uint64, uint64)>, strings: seq<uint8>,
      functions: seq<EncodedFunction>)
    requires V1Width(width)
  {
    var section := SectionFrom(functions, order, 8, 0);
    && |functions| < U32_LIMIT && |files| < U32_LIMIT && section.Ok?
    && StartsFrom(functions, base) && Fits(Offsets(functions, base), width)
    && forall parts: Parts :: Sized(parts, |functions|, width, |files|, |strings|, |section.value.1|) ==>
         V2LayoutOf(V2Header(width, 0, base, |functions|), order, buildId, parts, |files|).functions.end < U64_LIMIT
  }

  /** The bytes of a version two file that fits. */
  ghost function V2File(
      order: ByteOrder, buildId: seq<uint8>, base: uint64, width: uint8, files: seq<(uint64, uint64)>, strings: seq<uint8>,
      functions: seq<EncodedFunction>): seq<uint8>
  {
    var section := SectionFrom(functions, order, 8, 0);
    if section.Err? || !StartsFrom(functions, base) || |functions| >= U32_LIMIT || |files| >= U32_LIMIT || !V2Width(width) then []
    else
      var c := Content(V2, order, base, width, functions, files, strings, Narrowed(section.value.0));
      V2Bytes(V2Header(width, 0, base, |functions|), order, buildId, PartsOf(c, section.value.1), |files|)
  }

  /** The front of the file and its sections, each after its padding. */
  ghost function V2Bytes(h: V2Header, order: ByteOrder, uuid: seq<uint8>, parts: Parts, fileCount: uint32): seq<uint8>
    requires V2Width(h.width)
  {
    var layout := V2LayoutOf(h, order, uuid, parts, fileCount);
    if !InOrder(layout, 0) || EncodeV2Header(h, order).Err? then []
    else V2Sections(V2Front(h, order, uuid, layout), h.width, parts) + parts.functions
  }

  lemma V2BytesAre(
    h: V2Header, order: ByteOrder, uuid: seq<uint8>, parts: Parts, fileCount: uint32, layout: ParsedLayout, front: seq<uint8>)
    requires V2Width(h.width) && EncodeV2Header(h, order).Ok? && layout == V2LayoutOf(h, order, uuid, parts, fileCount)
    requires InOrder(layout, 0) && front == V2Front(h, order, uuid, layout)
    ensures V2Bytes(h, order, uuid, parts, fileCount) == V2Sections(front, h.width, parts) + parts.functions
  {
    hide V2LayoutOf, InOrder, V2Front, V2Sections, EncodeV2Header;
  }

  /** `encode_v2`. */
  method EncodeV2(
    order: ByteOrder, buildId: seq<uint8>, base: uint64, width: uint8, files: seq<(uint64, uint64)>, strings: seq<uint8>,
    functions: seq<EncodedFunction>) returns (r: Result<seq<uint8>>, ghost c: Content)
    requires strings != [] && strings[0] == 0 && V1Width(width) && functions != []
    ensures r.Ok? <==> V2Fits(order, buildId, base, width, files, strings, functions)
    ensures r.Ok? ==> Written(r.value, c, buildId) && c == Content(V2, order, base, width, functions, files, strings, c.infos)
    ensures r.Ok? ==> r.value == V2File(order, buildId, base, width, files, strings, functions)
  {
    hide Written, Holds, FunctionsPlaced, FunctionAtPosition, V2Sections, V2Front, V2Body, V2LayoutOf, InOrder, Sized, EncodeV2Header,
      DirectoryOf, DirectoryEnd, SectionFrom, Fits, StartsFrom, V2Bytes, PartsOf;
    c := NOTHING;
    var section := WriteFunctionSection(functions, order, 8, 0);
    if section.Err? {
      r := Err(section.error);
      return;
    }
    var (offsets, functionBytes) := section.value;
    if |functions| >= U32_LIMIT || |files| >= U32_LIMIT {
      r := Err(Limit);
      return;
    }
    var h := V2Header(width, 0, base, |functions|);
    ghost var example := SizedExample(|functions|, width, |files|, strings, functionBytes);
    var planned := WriteLayout(h, order, buildId, |files|, |strings|, |functionBytes|);
    if planned.Err? {
      r := Err(planned.error);
      return;
    }
    var layout := planned.value;
    PlannedFacts(h, order, buildId, example, |files|);
    V2HeaderEncodes(h, order);
    var header := WriteV2Header(h, order);
    InOrderFromStart(layout, DirectoryEnd(buildId));
    var infos := WidenOffsets(offsets, |functionBytes|);
    var output := WriteV2Front(header.value, h, order, buildId, layout);
    ghost var front := output.bytes;
    var written;
    ghost var parts;
    written, parts := WriteV2Sections(output, base, width, functions, infos, files, strings, functionBytes);
    if written.Err? {
      r := Err(written.error);
      return;
    }
    c := Content(V2, order, base, width, functions, files, strings, infos);
    HoldsSized(parts, c);
    r := Ok(output.bytes + functionBytes);
    OffsetsPlaced(parts, c, offsets, 0);
    V2Written(h, buildId, parts, c, layout, front, |files|, r.value);
    HoldsParts(parts, c);
    V2BytesAre(h, order, buildId, parts, |files|, layout, front);
    assert c.infos == Narrowed(offsets);
  }

  /** The bytes written are those of a file that stores the content. */
  lemma V2Written(
    h: V2Header, uuid: seq<uint8>, parts: Parts, c: Content, layout: ParsedLayout, front: seq<uint8>, fileCount: uint32, data: seq<uint8>)
    requires c.version == V2 && V2Width(h.width) && EncodeV2Header(h, c.order).Ok?
    requires h.base == c.base && h.width == c.width && h.count == |c.functions| > 0
    requires Holds(parts, c) && FunctionsPlaced(parts, c, 0) && |c.files| == fileCount
    requires layout == V2LayoutOf(h, c.order, uuid, parts, fileCount) && layout.functions.end < U64_LIMIT && InOrder(layout, 0)
    requires front == V2Front(h, c.order, uuid, layout)
    requires data == V2Sections(front, h.width, parts) + parts.functions
    ensures Written(data, c, uuid)
  {
    hide *;
    PlannedFacts(h, c.order, uuid, parts, fileCount);
    V2FrontSize(h, c.order, uuid, layout);
    AssembleV2(h, c.order, uuid, parts, |c.files|, front);
    V2Stores(h, uuid, parts, c, fileCount);
    StoresWritten(data, Image(data, layout), c, uuid);
  }

  /** A layout that fits holds the facts the writer and the parser rely on. */
  lemma PlannedFacts(h: V2Header, order: ByteOrder, uuid: seq<uint8>, parts: Parts, fileCount: uint32)
    requires V2Width(h.width) && V2LayoutOf(h, order, uuid, parts, fileCount).functions.end < U64_LIMIT
    ensures
      var layout := V2LayoutOf(h, order, uuid, parts, fileCount);
      && InOrder(layout, DirectoryEnd(uuid)) && InOrder(layout, 0)
      && DirectoryEnd(uuid) + |uuid| <= layout.addresses.start
      && |DirectoryOf(layout)| == (if uuid == [] then 5 else 6)
      && |parts.functions| <= layout.functions.end
  {
    hide V2LayoutOf, DirectoryOf;
    V2LayoutFacts(h, order, uuid, parts, fileCount);
  }

  // ------------------------------------------------------------------- the pipeline

  datatype WriterOptions = WriterOptions(
    version: Version, order: ByteOrder, baseAddress: Option<uint64>, buildId: seq<uint8>, policy: FunctionSetPolicy, repair: bool,
    executable: seq<AddressRange>)

  function FinalFunctions(functions: seq<Function>, options: WriterOptions): seq<Function> {
    Finalized(functions, options.policy, options.repair, options.executable)
  }

  /** What reading the file back gives: the options, the file table and the
      finalized functions, each string cut at its first NUL, with offset zero in place of
      the empty names. */
  ghost predicate ReadsBack(data: seq<uint8>, options: WriterOptions, files: seq<FileEntry>, functions: seq<Function>) {
    && functions != []
    && Load(data).Ok?
    && Verify(Load(data).value).Ok? && AllTell(Verify(Load(data).value).value, functions)
    && DecodeAll(Load(data).value)
       == Ok(DecodedGsym(options.version, options.order, options.baseAddress.UnwrapOr(functions[0].range.start), options.buildId,
                         CutFiles(files), CutList(functions)))
  }

  lemma WrittenReadsBack(
    data: seq<uint8>, c: Content, options: WriterOptions, files: seq<FileEntry>, functions: seq<Function>)
    requires Written(data, c, options.buildId) && Represents(c, files, functions) && functions != []
    requires c.version == options.version && c.order == options.order
    requires c.base == options.baseAddress.UnwrapOr(functions[0].range.start)
    ensures ReadsBack(data, options, files, functions)
  {
    hide Load, Stores, Represents, Verify, DecodeAll, BuildId, CutFiles, CutList, AllTell;
    StoredDecodes(Load(data).value, c, files, functions);
    RepresentedTell(c, files, functions);
  }

  lemma RepresentedTell(c: Content, files: seq<FileEntry>, functions: seq<Function>)
    requires Represents(c, files, functions)
    ensures AllTell(c.functions, functions)
  {
    hide FileNames, ListNames, AllTell, SortedStarts, Encodable, WithinMergedDepth;
    ListNamesTell(c.strings, c.functions, functions);
  }

  lemma AdmittedEncodable(functions: seq<Function>, limit: int)
    requires forall f :: f in functions ==> Admissible(f, None, 0) && FilesAtMost(f, limit)
    ensures AllEncodable(functions, limit)
  {
    hide Admissible, Sound, FilesAtMost;
    forall f | f in functions
      ensures Encodable(f, limit)
    {
      AdmissibleIsSound(f, None, 0);
    }
  }

  /** The content can be written in its version. */
  ghost predicate FileFits(c: Content, buildId: seq<uint8>) {
    && V1Width(c.width)
    && match c.version
       case V1 => V1Fits(c.order, buildId, c.base, c.width, c.files, c.strings, c.functions)
       case V2 => V2Fits(c.order, buildId, c.base, c.width, c.files, c.strings, c.functions)
  }

  ghost function ContentBytes(c: Content, buildId: seq<uint8>): seq<uint8>
    requires FileFits(c, buildId)
  {
    match c.version
    case V1 => V1File(c.order, buildId, c.base, c.width, c.files, c.strings, c.functions)
    case V2 => V2File(c.order, buildId, c.base, c.width, c.files, c.strings, c.functions)
  }

  /** The width that the distance from the base to the last start needs. */
  function WidthFor(functions: seq<Function>, base: uint64): (width: uint8)
    requires functions != []
    ensures V1Width(width)
  {
    var last := functions[|functions| - 1].range.start;
    AddressOffsetWidth(if last < base then 0 else last - base)
  }

  /** Offsets for the strings of the files, then for those of the functions. */
  ghost function PlannedContent(options: WriterOptions, files: seq<FileEntry>, functions: seq<Function>, base: uint64): Result<Content>
    requires functions != []
  {
    var pairs :- NamedFiles(files, EMPTY_TABLE);
    var names :- NamedList(functions, pairs.1, 0);
    Ok(Content(options.version, options.order, base, WidthFor(functions, base), names.0, pairs.0, names.1.bytes, []))
  }

  ghost function FinalBytes(options: WriterOptions, files: seq<FileEntry>, functions: seq<Function>, base: uint64): Result<seq<uint8>>
    requires functions != []
  {
    var c :- PlannedContent(options, files, functions, base);
    if FileFits(c, options.buildId) then Ok(ContentBytes(c, options.buildId)) else Err(InvalidModel)
  }

  /** The bytes written for a model, a function of the model and the options alone; the
      error stands for any. */
  ghost function BuilderBytes(files: seq<FileEntry>, functions: seq<Function>, options: WriterOptions): Result<seq<uint8>> {
    var final := FinalFunctions(functions, options);
    if (exists f :: f in functions && !FilesAtMost(f, |files| - 1)) || final == [] then Err(InvalidModel)
    else
      var base := options.baseAddress.UnwrapOr(final[0].range.start);
      if exists f :: f in final && f.range.start < base then Err(InvalidModel) else FinalBytes(options, files, final, base)
  }

  /** Both fail, or both give the same bytes. */
  predicate SameOutcome(r: Result<seq<uint8>>, want: Result<seq<uint8>>) {
    r.Ok? == want.Ok? && (r.Ok? ==> r.value == want.value)
  }

  /** Why a model cannot be written at all. */
  ghost predicate Unwritable(builder: GsymBuilder, options: WriterOptions)
    reads builder
  {
    var functions := FinalFunctions(builder.functions, options);
    || (exists f :: f in builder.functions && !FilesAtMost(f, |builder.files| - 1))
    || functions == []
    || (options.baseAddress.Some? && exists f :: f in functions && f.range.start < options.baseAddress.value)
    || (exists f :: f in functions && !WithinMergedDepth(f, 0))
  }

  /** What is to be written in the file, with offsets for its strings. */
  ghost predicate ContentOf(c: Content, options: WriterOptions, files: seq<FileEntry>, functions: seq<Function>) {
    && Represents(c, files, functions) && functions != []
    && c.version == options.version && c.order == options.order
    && c.base == options.baseAddress.UnwrapOr(functions[0].range.start)
  }

  lemma WrittenIs(
    data: seq<uint8>, c: Content, options: WriterOptions, files: seq<FileEntry>, functions: seq<Function>)
    requires Written(data, c, options.buildId) && ContentOf(c, options, files, functions)
    ensures ReadsBack(data, options, files, functions)
  {
    hide Written, ReadsBack, Represents;
    WrittenReadsBack(data, c, options, files, functions);
  }

  /** Strings, tables and the file itself, for final functions at or above the base. */
  method EncodeFunctions(options: WriterOptions, files: seq<FileEntry>, functions: seq<Function>, base: uint64)
    returns (r: Result<seq<uint8>>, ghost c: Content)
    requires files != [] && files[0] == EMPTY_FILE && functions != []
    requires SortedStarts(functions) && base == options.baseAddress.UnwrapOr(functions[0].range.start)
    requires forall f :: f in functions ==> Encodable(f, |files| - 1)
    ensures r.Ok? ==> ReadsBack(r.value, options, files, functions)
    ensures r.Ok? ==> forall f :: f in functions ==> WithinMergedDepth(f, 0)
    ensures r.Err? ==>
      || |c.strings| >= U64_LIMIT
      || (exists f :: f in functions && !WithinMergedDepth(f, 0))
      || (ContentOf(c, options, files, functions) && !FileFits(c, options.buildId))
    ensures SameOutcome(r, FinalBytes(options, files, functions, base))
  {
    hide Encodable, WithinMergedDepth, ListNames, FileNames, Written, ReadsBack, FileFits, ContentBytes, NamedFiles, NamedList, Represents,
      WidthFor;
    c := NOTHING;
    var width := WidthFor(functions, base);
    var strings := new StringTable();
    var encodedFiles := InternFiles(files, strings);
    c := c.(strings := strings.bytes);
    if encodedFiles.Err? {
      r := Err(encodedFiles.error);
      return;
    }
    ghost var interned := strings.bytes;
    var encoded := EncodeListNames(functions, strings, 0);
    var names := strings.bytes;
    c := Content(options.version, options.order, base, width, [], encodedFiles.value, names, []);
    if encoded.Err? {
      r := Err(encoded.error);
      return;
    }
    FileNamesGrow(interned, names, encodedFiles.value, files);
    assert names[0] == 0;
    c := c.(functions := encoded.value);
    ListNamesAt(names, encoded.value, functions, 0);
    PlannedRepresents(c, files, functions);
    FinalBytesAre(options, files, functions, base, c);
    ghost var planned := c;
    r, c := EncodeContent(options, encodedFiles.value, names, encoded.value, base, width, c);
    FitsWithout(planned, c, options.buildId);
    RepresentsWithout(planned, c, files, functions);
    if r.Ok? {
      WrittenIs(r.value, c, options, files, functions);
    }
  }

  lemma PlannedRepresents(c: Content, files: seq<FileEntry>, functions: seq<Function>)
    requires c.strings != [] && c.strings[0] == 0 && files != [] && files[0] == EMPTY_FILE
    requires FileNames(c.strings, c.files, files) && ListNames(c.strings, c.functions, functions) && SortedStarts(functions)
    requires forall f :: f in functions ==> Encodable(f, |files| - 1) && WithinMergedDepth(f, 0)
    ensures Represents(c, files, functions)
  {
  }

  /** What the content represents and whether it fits do not depend on table entries. */
  lemma RepresentsWithout(planned: Content, c: Content, files: seq<FileEntry>, functions: seq<Function>)
    requires c == planned.(infos := c.infos)
    ensures Represents(c, files, functions) == Represents(planned, files, functions)
  {
    hide FileNames, ListNames, Encodable, WithinMergedDepth, SortedStarts;
  }

  lemma FitsWithout(planned: Content, c: Content, buildId: seq<uint8>)
    requires c == planned.(infos := c.infos)
    ensures FileFits(c, buildId) == FileFits(planned, buildId)
  {
    hide V1Fits, V2Fits;
  }

  lemma FinalBytesAre(options: WriterOptions, files: seq<FileEntry>, functions: seq<Function>, base: uint64, c: Content)
    requires functions != [] && PlannedContent(options, files, functions, base) == Ok(c)
    ensures FinalBytes(options, files, functions, base)
      == if FileFits(c, options.buildId) then Ok(ContentBytes(c, options.buildId)) else Err(InvalidModel)
  {
    hide FileFits, ContentBytes, PlannedContent;
  }

  /** The encoder of the version. */
  method EncodeContent(
    options: WriterOptions, files: seq<(uint64, uint64)>, strings: seq<uint8>, functions: seq<EncodedFunction>, base: uint64,
    width: uint8, ghost planned: Content) returns (r: Result<seq<uint8>>, ghost c: Content)
    requires planned == Content(options.version, options.order, base, width, functions, files, strings, planned.infos)
    requires strings != [] && strings[0] == 0 && V1Width(width) && functions != []
    ensures r.Ok? <==> FileFits(planned, options.buildId)
    ensures r.Ok? ==> r.value == ContentBytes(planned, options.buildId)
    ensures c == planned.(infos := c.infos)
    ensures r.Ok? ==> Written(r.value, c, options.buildId)
  {
    hide Written, V1Fits, V2Fits, V1File, V2File;
    c := planned;
    ghost var written;
    if options.version == V1 {
      r, written := EncodeV1(options.order, options.buildId, base, width, files, strings, functions);
    } else {
      r, written := EncodeV2(options.order, options.buildId, base, width, files, strings, functions);
    }
    if r.Ok? {
      c := written;
    }
  }

  /** `encode_builder`: whatever the version, byte order and function-set policy,
      if encoding succeeds then the parser accepts the bytes, verification passes
      and decoding everything returns what was written.  It fails only for a model
      that cannot be written at all, or whose content does not fit the version. */
  method EncodeBuilder(builder: GsymBuilder, options: WriterOptions) returns (r: Result<seq<uint8>>, ghost c: Content)
    requires builder.Valid()
    ensures r.Ok? ==> ReadsBack(r.value, options, builder.files, FinalFunctions(builder.functions, options))
    ensures FinalOutcome(builder.functions, options.policy, options.repair, options.executable, FinalFunctions(builder.functions, options))
    ensures r.Ok? ==> !Unwritable(builder, options)
    ensures r.Err? ==>
      || Unwritable(builder, options)
      || |c.strings| >= U64_LIMIT
      || (ContentOf(c, options, builder.files, FinalFunctions(builder.functions, options)) && !FileFits(c, options.buildId))
    ensures SameOutcome(r, BuilderBytes(builder.files, builder.functions, options))
  {
    hide Admissible, FilesAtMost, Finalized, Encodable, WithinMergedDepth, ReadsBack, ContentOf, FileFits, FinalBytes, BuilderBytes, Unwritable,
      FinalOutcome, Sound;
    c := NOTHING;
    // `validate_file_table` cannot fail here: a valid builder keeps the empty file first.
    var files := builder.files;
    BuilderOutcome(builder, options);
    var checked := builder.ValidateFileReferences();
    if checked.Err? {
      ReferencesMissing(builder, options);
      r := Err(checked.error);
      return;
    }
    AdmittedEncodable(builder.functions, |files| - 1);
    FinalizedEncodable(builder.functions, options.policy, options.repair, options.executable, |files| - 1);
    var functions := FinalizeFunctions(builder.functions, options.policy, options.repair, options.executable);
    if functions == [] {
      NothingToWrite(builder, options);
      r := Err(InvalidModel);
      return;
    }
    var base := options.baseAddress.UnwrapOr(functions[0].range.start);
    for i := 0 to |functions|
      invariant forall k :: 0 <= k < i ==> base <= functions[k].range.start
    {
      if functions[i].range.start < base {
        BelowBase(builder, options, functions[i]);
        r := Err(InvalidModel);
        return;
      }
    }
    r, c := EncodeFunctions(options, files, functions, base);
    WritableParts(builder, options, functions, base);
  }

  lemma BuilderOutcome(builder: GsymBuilder, options: WriterOptions)
    requires builder.Valid()
    ensures FinalOutcome(builder.functions, options.policy, options.repair, options.executable, FinalFunctions(builder.functions, options))
  {
    hide Admissible, Sound, Finalized, FinalOutcome, FilesAtMost;
    forall f | f in builder.functions
      ensures Sound(f, None)
    {
      AdmissibleIsSound(f, None, 0);
    }
    FinalizedIs(builder.functions, options.policy, options.repair, options.executable);
  }

  lemma ReferencesMissing(builder: GsymBuilder, options: WriterOptions)
    requires exists f :: f in builder.functions && !FilesAtMost(f, |builder.files| - 1)
    ensures Unwritable(builder, options) && BuilderBytes(builder.files, builder.functions, options).Err?
  {
    hide FilesAtMost, WithinMergedDepth, FinalBytes;
  }

  lemma NothingToWrite(builder: GsymBuilder, options: WriterOptions)
    requires FinalFunctions(builder.functions, options) == []
    ensures Unwritable(builder, options) && BuilderBytes(builder.files, builder.functions, options).Err?
  {
    hide FilesAtMost, WithinMergedDepth, FinalBytes;
  }

  lemma BelowBase(builder: GsymBuilder, options: WriterOptions, f: Function)
    requires
      var functions := FinalFunctions(builder.functions, options);
      functions != [] && SortedStarts(functions) && f in functions && f.range.start < options.baseAddress.UnwrapOr(functions[0].range.start)
    ensures Unwritable(builder, options) && BuilderBytes(builder.files, builder.functions, options).Err?
  {
    hide FilesAtMost, WithinMergedDepth, FinalBytes, Finalized;
  }

  lemma WritableParts(builder: GsymBuilder, options: WriterOptions, functions: seq<Function>, base: uint64)
    requires forall f :: f in builder.functions ==> FilesAtMost(f, |builder.files| - 1)
    requires functions == FinalFunctions(builder.functions, options) && functions != []
    requires base == options.baseAddress.UnwrapOr(functions[0].range.start)
    requires forall k :: 0 <= k < |functions| ==> base <= functions[k].range.start
    ensures BuilderBytes(builder.files, builder.functions, options) == FinalBytes(options, builder.files, functions, base)
    ensures Unwritable(builder, options) <==> exists f :: f in functions && !WithinMergedDepth(f, 0)
  {
    hide FilesAtMost, WithinMergedDepth, FinalBytes, Finalized;
  }

  /** The model comes back unchanged exactly when none of its strings holds a NUL. */
  lemma NulFreeReadsBack(files: seq<FileEntry>, functions: seq<Function>)
    ensures CutFiles(files) == files && CutList(functions) == functions
       <==> && ListNulFree(functions)
            && forall i :: 0 <= i < |files| ==> IsNulFree(files[i].directory) && IsNulFree(files[i].basename)
  {
    hide *;
    CutFilesIdentity(files);
    CutListIdentity(functions);
  }
}
