/** What an image holds, and that the reader's verification and conversion give
    it back. */
module Storage {
  import opened Words
  import opened Wrappers
  import opened Wire
  import opened Headers
  import opened Layout
  import opened Model
  import opened InlineInfo
  import opened FunctionInfo
  import opened Image
  import opened Verified
  import opened Validation
  import opened Strings
  import opened NulFree
  import opened Sections
  import opened ImageLayout

  /** The encoded contents of a file, and the table of where functions lie. */
  datatype Content = Content(
    version: Version, order: ByteOrder, base: uint64, width: uint8,
    functions: seq<EncodedFunction>, files: seq<(uint64, uint64)>, strings: seq<uint8>, infos: seq<uint64>)

  function StringWidth(version: Version): uint8 {
    if version.V1? then 4 else 8
  }

  function Offsets(functions: seq<EncodedFunction>, base: uint64): seq<uint64>
    requires forall i :: 0 <= i < |functions| ==> base <= functions[i].range.start
  {
    seq(|functions|, i requires 0 <= i < |functions| => functions[i].range.start - base)
  }

  /** Table entries are absolute in version one and relative in version two. */
  function Position(c: Content, layout: ParsedLayout, i: nat): nat
    requires i < |c.infos|
  {
    if c.version.V1? then c.infos[i] else c.infos[i] + layout.functions.start
  }

  predicate Fields(layout: ParsedLayout, c: Content) {
    && layout.version == c.version && layout.order == c.order && layout.base == c.base
    && layout.addressWidth == c.width && 1 <= c.width <= 8
    && layout.stringWidth == StringWidth(c.version)
    && layout.count == |c.functions| == |c.infos| && layout.fileCount == |c.files|
  }

  ghost predicate Tables(image: Image, c: Content) {
    && (forall i :: 0 <= i < |c.functions| ==> c.base <= c.functions[i].range.start)
    && SectionIs(image.data, image.layout.addresses, UintTable(c.order, Offsets(c.functions, c.base), c.width))
    && Fits(Offsets(c.functions, c.base), c.width)
    && SectionIs(image.data, image.layout.infos, UintTable(c.order, c.infos, InfoWidth(c.version)))
    && Fits(c.infos, InfoWidth(c.version))
    && |c.files| < U32_LIMIT
    && SectionIs(image.data, image.layout.files,
                 WriteU32(c.order, |c.files|) + UintTable(c.order, Flatten(c.files), StringWidth(c.version)))
    && Fits(Flatten(c.files), StringWidth(c.version))
    && SectionIs(image.data, image.layout.strings, c.strings)
  }

  ghost predicate FunctionStored(image: Image, c: Content, i: nat)
    requires i < |c.functions| == |c.infos|
  {
    var layout := image.layout;
    && layout.functions.InBounds(image.data)
    && layout.functions.start <= Position(c, layout, i) < layout.functions.end
    && (c.version.V2? ==> layout.functions.end < U64_LIMIT)
    && FunctionAtPosition(layout.functions.Of(image.data), Position(c, layout, i) - layout.functions.start,
                          c.functions[i], c.order, StringWidth(c.version))
  }

  ghost predicate Stores(image: Image, c: Content) {
    && Fields(image.layout, c)
    && Tables(image, c)
    && forall i :: 0 <= i < |c.functions| ==> FunctionStored(image, c, i)
  }

  // -------------------------------------------------------------------- addresses

  /** Entry `i` of a table section. */
  lemma EntryReads(image: Image, span: Span, values: seq<uint64>, width: uint8, i: nat)
    requires SectionIs(image.data, span, UintTable(image.layout.order, values, width))
    requires 1 <= width <= 8 && Fits(values, width) && i < |values|
    ensures UintAt(image, span.start + i * width, width) == Ok(values[i])
  {
    hide UintTable, ReadUint;
    var table := UintTable(image.layout.order, values, width);
    UintTableReads(image.layout.order, values, width, i, image.data[span.end..]);
    SectionSuffix(image.data, span, table, i * width);
  }

  lemma StoredAddress(image: Image, c: Content, i: nat)
    requires Stores(image, c) && i < |c.functions|
    ensures AddressAt(image, i) == Ok(c.functions[i].range.start)
  {
    hide UintTable, UintAt, FunctionStored, SectionIs;
    EntryReads(image, image.layout.addresses, Offsets(c.functions, c.base), c.width, i);
  }

  lemma StoredOffset(image: Image, c: Content, i: nat)
    requires Stores(image, c) && i < |c.functions|
    ensures FunctionOffset(image, i) == Ok(Position(c, image.layout, i))
  {
    hide UintTable, UintAt, SectionIs, FunctionAtPosition;
    assert FunctionStored(image, c, i);
    EntryReads(image, image.layout.infos, c.infos, InfoWidth(c.version), i);
  }

  // -------------------------------------------------------------------- functions

  /** The header of an encoded function, read before anything else. */
  lemma HeaderReads(f: EncodedFunction, order: ByteOrder, width: nat, rest: seq<uint8>)
    requires EncodeFunctionHeader(f, order, width).Ok?
    ensures f.name != 0 && f.range.start <= f.range.end
    ensures
      var name := WriteUint(order, f.name, width);
      && name.Ok?
      && ReadU32(order, EncodeFunctionHeader(f, order, width).value + rest) == Ok(Step(f.range.end - f.range.start, name.value + rest))
      && ReadUint(order, width, name.value + rest) == Ok(Step(f.name, rest))
  {
    hide ReadU32, WriteU32, ReadUint, WriteUint;
    var size, name := WriteU32(order, f.range.Size()), WriteUint(order, f.name, width).value;
    AppendAssociates(size, name, rest);
    ReadWriteU32(order, f.range.Size(), name + rest);
    ReadWriteUint(order, f.name, width, rest);
  }

  lemma EncodedHeader(f: EncodedFunction, order: ByteOrder, width: nat)
    requires EncodeFunction(f, order, width, 0).Ok?
    ensures EncodeFunctionHeader(f, order, width).Ok?
    ensures EncodeFunctionHeader(f, order, width).value <= EncodeFunction(f, order, width, 0).value
  {
    hide EncodeFunctionHeader, EncodeLinesPart, EncodeInlinePart, EncodeMergedPart, EncodeCallSitesPart, EndMarker;
  }

  lemma PrefixSplits(whole: seq<uint8>, prefix: seq<uint8>, rest: seq<uint8>)
    requires prefix <= whole
    ensures whole + rest == prefix + (whole[|prefix|..] + rest)
  {
  }

  /** The record of function `i` begins the rest of the section. */
  lemma StoredData(image: Image, c: Content, i: nat)
    requires Stores(image, c) && i < |c.functions|
    ensures
      var encoded := EncodeFunction(c.functions[i], c.order, StringWidth(c.version), 0);
      var position := Position(c, image.layout, i);
      && encoded.Ok?
      && image.layout.functions.start <= position < image.layout.functions.end <= |image.data|
      && var data := image.data[position..image.layout.functions.end];
      encoded.value <= data && data == encoded.value + data[|encoded.value|..]
  {
    hide EncodeFunction, Tables;
    assert FunctionStored(image, c, i);
    var section := image.layout.functions.Of(image.data);
    var offset := Position(c, image.layout, i) - image.layout.functions.start;
    var encoded := EncodeFunction(c.functions[i], c.order, StringWidth(c.version), 0).value;
    assert image.data[Position(c, image.layout, i)..image.layout.functions.end] == section[offset..];
    assert section[offset..][..|encoded|] == encoded;
  }

  /** The raw view of function `i` and its decoded record. */
  lemma StoredFunction(image: Image, c: Content, i: nat)
    requires Stores(image, c) && i < |c.functions|
    ensures
      var raw := RawFunctionAt(image, i, c.functions[i].range.start);
      && raw.Ok? && raw.value.name == c.functions[i].name && raw.value.range == c.functions[i].range
      && DecodeRaw(image, raw.value) == Ok(c.functions[i])
  {
    hide EncodeFunction, EncodeFunctionHeader, DecodeFunction, FunctionOffset, ReadU32, ReadUint, WriteUint, Tables, FunctionStored;
    var f, width := c.functions[i], StringWidth(c.version);
    StoredOffset(image, c, i);
    StoredData(image, c, i);
    var data := image.data[Position(c, image.layout, i)..image.layout.functions.end];
    var encoded := EncodeFunction(f, c.order, width, 0).value;
    EncodedHeader(f, c.order, width);
    var header := EncodeFunctionHeader(f, c.order, width).value;
    PrefixSplits(encoded, header, data[|encoded|..]);
    HeaderReads(f, c.order, width, encoded[|header|..] + data[|encoded|..]);
    FunctionRoundTrip(f, c.order, width, 0, data[|encoded|..]);
  }

  // ---------------------------------------------------------- strings and files

  lemma {:induction false} NulIndexStops(s: seq<uint8>, rest: seq<uint8>)
    ensures NulIndex(s + ([0] + rest)) == NulIndex(s)
    ensures NulIndex(s + ([0] + rest)) < |s + ([0] + rest)|
  {
    if s != [] && s[0] != 0 {
      NulIndexStops(s[1..], rest);
      assert (s + ([0] + rest))[1..] == s[1..] + ([0] + rest);
    } else if s == [] {
      assert s + ([0] + rest) == [0] + rest;
    }
  }

  lemma StoredSplits(bytes: seq<uint8>, offset: nat, s: seq<uint8>)
    requires Stored(bytes, offset, s)
    ensures bytes[offset..] == s + ([0] + bytes[offset + |s| + 1..])
  {
  }

  /** A stored string reads back up to its first NUL. */
  lemma StoredString(image: Image, strings: seq<uint8>, offset: uint64, s: seq<uint8>)
    requires SectionIs(image.data, image.layout.strings, strings) && Stored(strings, offset, s)
    ensures StringAt(image, offset) == Ok(CString(s))
  {
    var rest := strings[offset + |s| + 1..];
    var tail := image.data[image.layout.strings.start + offset..image.layout.strings.end];
    assert tail == strings[offset..];
    StoredSplits(strings, offset, s);
    NulIndexStops(s, rest);
    assert tail[..NulIndex(s)] == s[..NulIndex(s)];
  }

  /** Two entries in a row. */
  lemma PairReads(order: ByteOrder, values: seq<uint64>, width: nat, i: nat, rest: seq<uint8>)
    requires i + 1 < |values| && 1 <= width <= 8 && Fits(values, width)
    ensures i * width + 2 * width <= |UintTable(order, values, width)|
    ensures
      var s := UintTable(order, values, width)[i * width..] + rest;
      var first := ReadUint(order, width, s);
      && first.Ok? && first.value.value == values[i]
      && ReadUint(order, width, first.value.rest).Ok?
      && ReadUint(order, width, first.value.rest).value.value == values[i + 1]
  {
    hide ReadUint, UintTable;
    UintTableSize(order, values, width);
    UintTableReads(order, values, width, i, rest);
    UintTableReads(order, values[i + 1..], width, 0, rest);
    assert UintTable(order, values[i + 1..], width)[0 * width..] == UintTable(order, values[i + 1..], width);
    EntryBelow(i + 1, |values|, width);
    assert (i + 1) * width == i * width + width && (i + 2) * width == i * width + 2 * width;
    assert (|values| - (i + 2)) * width >= 0;
  }

  lemma FilesSuffix(data: seq<uint8>, span: Span, count: seq<uint8>, table: seq<uint8>, k: nat)
    requires SectionIs(data, span, count + table) && |count| == 4 && k <= |table|
    ensures span.end <= |data| && span.start + 4 + |table| == span.end
    ensures data[span.start + 4 + k..] == table[k..] + data[span.end..]
  {
    SectionSuffix(data, span, count + table, 4 + k);
    assert (count + table)[4 + k..] == table[k..];
  }

  lemma StoredPair(image: Image, c: Content, i: nat)
    requires Stores(image, c) && i < |c.files|
    ensures FilePairAt(image, i) == Ok(c.files[i])
  {
    hide UintTable, ReadUint, WriteU32, FunctionStored, Fits, SectionIs;
    var layout, values, width := image.layout, Flatten(c.files), StringWidth(c.version) as nat;
    var count, table := WriteU32(c.order, |c.files|), UintTable(c.order, values, width);
    UintTableSize(c.order, values, width);
    FilesSuffix(image.data, layout.files, count, table, 0);
    PairReads(c.order, values, width, 2 * i, image.data[layout.files.end..]);
    assert (2 * i) * width == i * (2 * width);
    FilesSuffix(image.data, layout.files, count, table, i * (2 * width));
  }

  // ------------------------------------------------------------ checks and the model

  /** Files below the limit can be read. */
  ghost predicate FilesReadable(image: Image, limit: int) {
    forall i: FileIndex :: i <= limit ==> FileAt(image, i).Ok?
  }

  lemma {:induction false} LinesCheck(image: Image, lines: seq<LineEntry>, limit: int)
    requires FilesReadable(image, limit) && forall line :: line in lines ==> line.file <= limit
    ensures CheckLineFiles(image, lines).Ok?
    decreases |lines|
  {
    hide FileAt;
    if lines != [] {
      assert lines[0] in lines;
      LinesCheck(image, lines[1..], limit);
    }
  }

  lemma {:induction false} InlineReads(image: Image, strings: seq<uint8>, e: EncodedInlineNode, node: InlineNode, limit: int)
    requires SectionIs(image.data, image.layout.strings, strings) && FilesReadable(image, limit)
    requires InlineNames(strings, e, node) && InlineFilesAtMost(node, limit)
    ensures CheckInline(image, e).Ok? && ResolveInline(image, e) == Ok(CutInline(node))
    decreases e, 1
  {
    hide StringAt, FileAt, SectionIs, Stored, CString;
    StoredString(image, strings, e.name, node.name);
    InlineListReads(image, strings, e.children, node.children, limit);
    CutEmpty(node.name);
  }

  lemma CutEmpty(s: seq<uint8>)
    ensures s == [] ==> CString(s) == []
  {
  }

  lemma {:induction false} InlineListReads(
    image: Image, strings: seq<uint8>, es: seq<EncodedInlineNode>, nodes: seq<InlineNode>, limit: int)
    requires SectionIs(image.data, image.layout.strings, strings) && FilesReadable(image, limit)
    requires InlineListNames(strings, es, nodes) && forall node :: node in nodes ==> InlineFilesAtMost(node, limit)
    ensures CheckInlineList(image, es).Ok? && ResolveInlineList(image, es) == Ok(CutInlineList(nodes))
    decreases es, 0
  {
    hide CheckInline, ResolveInline, InlineNames, CutInline, SectionIs;
    if es != [] {
      assert nodes[0] in nodes;
      InlineReads(image, strings, es[0], nodes[0], limit);
      InlineListReads(image, strings, es[1..], nodes[1..], limit);
    }
  }

  lemma {:induction false} StringsRead(image: Image, strings: seq<uint8>, offsets: seq<uint64>, list: seq<seq<uint8>>)
    requires SectionIs(image.data, image.layout.strings, strings) && StringNames(strings, offsets, list)
    ensures StringsAt(image, offsets) == Ok(CutStrings(list))
    decreases |offsets|
  {
    hide StringAt, SectionIs, Stored, CString;
    if offsets != [] {
      StoredString(image, strings, offsets[0], list[0]);
      StringsRead(image, strings, offsets[1..], list[1..]);
    }
  }

  lemma {:induction false} SitesRead(image: Image, strings: seq<uint8>, es: seq<EncodedCallSite>, sites: seq<CallSite>)
    requires SectionIs(image.data, image.layout.strings, strings) && SiteNames(strings, es, sites)
    ensures SitesAt(image, es) == Ok(CutSites(sites))
    decreases |es|
  {
    hide StringsAt, StringNames, SectionIs, CutStrings;
    if es != [] {
      StringsRead(image, strings, es[0].matchRegex, sites[0].matchRegex);
      SitesRead(image, strings, es[1..], sites[1..]);
    }
  }

  lemma {:induction false} SitesValid(strings: seq<uint8>, es: seq<EncodedCallSite>, sites: seq<CallSite>, range: AddressRange)
    requires SiteNames(strings, es, sites) && SitesInside(sites, range)
    ensures forall e :: e in es ==> range.Size() != 0 ==> e.returnOffset < range.Size()
    decreases |es|
  {
    hide StringNames;
    if es != [] {
      assert sites[0] in sites;
      SitesValid(strings, es[1..], sites[1..], range);
    }
  }

  lemma {:induction false} InlineValid(strings: seq<uint8>, e: EncodedInlineNode, node: InlineNode, parents: seq<AddressRange>)
    requires InlineNames(strings, e, node) && SoundInline(node, parents)
    ensures ValidInline(e, parents)
    decreases e, 1
  {
    hide NameAt, Within;
    InlineListValid(strings, e.children, node.children, node.ranges);
  }

  lemma {:induction false} InlineListValid(
    strings: seq<uint8>, es: seq<EncodedInlineNode>, nodes: seq<InlineNode>, parents: seq<AddressRange>)
    requires InlineListNames(strings, es, nodes) && forall node :: node in nodes ==> SoundInline(node, parents)
    ensures forall e :: e in es ==> ValidInline(e, parents)
    decreases es, 0
  {
    hide InlineNames, SoundInline, ValidInline;
    if es != [] {
      assert nodes[0] in nodes;
      InlineValid(strings, es[0], nodes[0], parents);
      InlineListValid(strings, es[1..], nodes[1..], parents);
    }
  }

  lemma FunctionValid(strings: seq<uint8>, e: EncodedFunction, f: Function, parent: Option<AddressRange>)
    requires Names(strings, e, f) && Sound(f, parent)
    ensures ValidFunction(e, parent) && LinesOf(e) == f.lines
  {
    hide NameAt, InlineNames, ValidInline, SoundInline, SiteNames, ListNames, SitesInside;
    SitesValid(strings, e.callSites, f.callSites, f.range);
    if e.inline.Some? {
      InlineValid(strings, e.inline.value, f.inline.value, [f.range]);
    }
  }

  /** A function encoded from a sound model passes every check of the reader and
      converts back to the model, its strings cut at their first NUL. */
  lemma {:induction false} FunctionReads(
    image: Image, strings: seq<uint8>, e: EncodedFunction, f: Function, parent: Option<AddressRange>, depth: nat, limit: int)
    requires SectionIs(image.data, image.layout.strings, strings) && FilesReadable(image, limit)
    requires Names(strings, e, f) && Sound(f, parent) && FilesAtMost(f, limit) && WithinMergedDepth(f, depth)
    ensures Check(image, e, parent, depth).Ok? && Resolve(image, e) == Ok(Cut(f))
    decreases e, 1
  {
    hide StringAt, SectionIs, FilesReadable, Stored, InlineNames, SoundInline, SiteNames, ValidFunction, CheckInline, ResolveInline,
      SitesAt, CheckLineFiles, InlineFilesAtMost, CString, CutInline, CutSites, LinesInside, SitesInside, LinesOf, CheckList,
      ResolveList, ListNames, CutList;
    FunctionValid(strings, e, f, parent);
    StoredString(image, strings, e.name, f.name);
    LinesCheck(image, f.lines, limit);
    if e.inline.Some? {
      InlineReads(image, strings, e.inline.value, f.inline.value, limit);
    }
    SitesRead(image, strings, e.callSites, f.callSites);
    ListReads(image, strings, e.merged, f.merged, f.range, depth + 1, limit);
  }

  lemma {:induction false} ListReads(
    image: Image, strings: seq<uint8>, es: seq<EncodedFunction>, functions: seq<Function>, parent: AddressRange, depth: nat, limit: int)
    requires SectionIs(image.data, image.layout.strings, strings) && FilesReadable(image, limit)
    requires ListNames(strings, es, functions)
    requires forall f :: f in functions ==> Sound(f, Some(parent)) && FilesAtMost(f, limit) && WithinMergedDepth(f, depth)
    ensures CheckList(image, es, parent, depth).Ok? && ResolveList(image, es) == Ok(CutList(functions))
    decreases es, 0
  {
    hide SectionIs, FilesReadable, Names, Sound, FilesAtMost, WithinMergedDepth, Check, Resolve, Cut;
    if es != [] {
      assert functions[0] in functions;
      FunctionReads(image, strings, es[0], functions[0], Some(parent), depth, limit);
      ListReads(image, strings, es[1..], functions[1..], parent, depth, limit);
    }
  }
}
