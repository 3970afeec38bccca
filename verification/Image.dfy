/** A parsed file and its tables: src/reader.rs, src/reader/function.rs and
    src/reader/owned.rs. */
module Image {
  import opened Words
  import opened Wrappers
  import opened Wire
  import opened Headers
  import opened Layout
  import opened Model
  import opened InlineInfo
  import opened FunctionInfo

  datatype Image = Image(data: seq<uint8>, layout: ParsedLayout)

  function Load(data: seq<uint8>): Result<Image> {
    var layout :- ParseLayout(data);
    Ok(Image(data, layout))
  }

  // --------------------------------------------------------------------- strings

  /** Position of the first NUL, or the length if there is none. */
  function NulIndex(s: seq<uint8>): (n: nat)
    ensures n <= |s|
    ensures n < |s| ==> s[n] == 0
    ensures forall i :: 0 <= i < n ==> s[i] != 0
  {
    if s == [] || s[0] == 0 then 0 else 1 + NulIndex(s[1..])
  }

  function StringAt(image: Image, offset: uint64): Result<seq<uint8>> {
    var table := image.layout.strings;
    var start := table.start + offset;
    if start >= table.end then Err(InvalidOffset)
    else if table.end > |image.data| then Err(InvalidFormat)
    else
      var tail := image.data[start..table.end];
      var end := NulIndex(tail);
      if end == |tail| then Err(InvalidFormat) else Ok(tail[..end])
  }

  function FilePairAt(image: Image, index: FileIndex): Result<(uint64, uint64)> {
    var layout := image.layout;
    var width: nat := layout.stringWidth;
    var offset: nat := layout.files.start + 4 + index * (2 * width);
    if index >= layout.fileCount then Err(OutOfRange)
    else if offset + 2 * width > |image.data| then Err(UnexpectedEof)
    else if width != 4 && width != 8 then Err(OutOfRange)
    else
      var Step(directory, s) :- ReadUint(layout.order, width, image.data[offset..]);
      var Step(basename, _) :- ReadUint(layout.order, width, s);
      Ok((directory, basename))
  }

  function FileAt(image: Image, index: FileIndex): Result<FileEntry> {
    var (directory, basename) :- FilePairAt(image, index);
    var directory :- StringAt(image, directory);
    var basename :- StringAt(image, basename);
    Ok(FileEntry(directory, basename))
  }

  // ---------------------------------------------------------------------- tables

  function UintAt(image: Image, offset: nat, width: uint8): Result<uint64> {
    var s :- From(image.data, offset);
    var Step(value, _) :- ReadUint(image.layout.order, width, s);
    Ok(value)
  }

  function AddressAt(image: Image, index: nat): Result<uint64> {
    var layout := image.layout;
    var offset :- UintAt(image, layout.addresses.start + index * layout.addressWidth, layout.addressWidth);
    if layout.base + offset >= U64_LIMIT then Err(Overflow) else Ok(layout.base + offset)
  }

  function InfoWidth(version: Version): uint8 {
    if version.V1? then 4 else 8
  }

  function FunctionOffset(image: Image, index: nat): Result<nat> {
    var layout := image.layout;
    var width := InfoWidth(layout.version);
    var relative :- UintAt(image, layout.infos.start + index * width, width);
    if layout.version.V1? then Ok(relative)
    else if relative + layout.functions.start >= U64_LIMIT then Err(Overflow)
    else Ok(relative + layout.functions.start)
  }

  datatype RawFunction = RawFunction(range: AddressRange, name: uint64, data: seq<uint8>, records: seq<uint8>)

  function RawFunctionAt(image: Image, index: nat, start: uint64): Result<RawFunction> {
    var layout := image.layout;
    var offset :- FunctionOffset(image, index);
    if offset < layout.functions.start || offset >= layout.functions.end || layout.functions.end > |image.data| then
      Err(InvalidOffset)
    else
      var data := image.data[offset..layout.functions.end];
      var Step(size, s) :- ReadU32(layout.order, data);
      var Step(name, s) :- ReadUint(layout.order, layout.stringWidth, s);
      if name == 0 then Err(ZeroNameOffset)
      else if start + size >= U64_LIMIT then Err(Overflow)
      else Ok(RawFunction(AddressRange(start, start + size), name, data, s))
  }

  /** `function(index)` for an index below the count: the record and its name. */
  function FunctionAt(image: Image, index: nat, start: uint64): Result<RawFunction> {
    var raw :- RawFunctionAt(image, index, start);
    var _ :- StringAt(image, raw.name);
    Ok(raw)
  }

  /** The record decoded whole; what follows it in the section is ignored. */
  function DecodeRaw(image: Image, raw: RawFunction): Result<EncodedFunction> {
    var Step(f, _) :- DecodeFunction(raw.data, image.layout.order, image.layout.stringWidth, raw.range.start, 0);
    Ok(f)
  }

  // ------------------------------------------------------------------ validation

  predicate ValidLines(lines: seq<LineEntry>, range: AddressRange) {
    forall line :: line in lines ==> range.start <= line.address && (range.IsEmpty() || line.address < range.end)
  }

  function LinesOf(f: EncodedFunction): seq<LineEntry> {
    f.lines.UnwrapOr([])
  }

  predicate ValidRange(range: AddressRange, parents: seq<AddressRange>) {
    range.IsValid() && !range.IsEmpty() && Within(range, parents)
  }

  /** `validate_inline_ranges`. */
  predicate ValidInline(node: EncodedInlineNode, parents: seq<AddressRange>)
    decreases node
  {
    && node.ranges != []
    && (forall range :: range in node.ranges ==> ValidRange(range, parents))
    && (forall child :: child in node.children ==> ValidInline(child, node.ranges))
  }

  /** `validate_semantics`. */
  predicate ValidFunction(f: EncodedFunction, parent: Option<AddressRange>) {
    && f.range.IsValid()
    && (parent.Some? ==> f.range == parent.value)
    && ValidLines(LinesOf(f), f.range)
    && (f.inline.Some? ==> ValidInline(f.inline.value, [f.range]))
    && (forall site :: site in f.callSites ==> f.range.Size() != 0 ==> site.returnOffset < f.range.Size())
  }

  // First-error order matters, so the reference checks are kept as results.

  function CheckLineFiles(image: Image, lines: seq<LineEntry>): Result<Unit> {
    if lines == [] then Ok(Unit)
    else
      var _ :- FileAt(image, lines[0].file);
      CheckLineFiles(image, lines[1..])
  }

  function CheckInline(image: Image, node: EncodedInlineNode): Result<Unit>
    decreases node, 1
  {
    var _ :- if node.name != 0 then StringAt(image, node.name) else Ok([]);
    var _ :- FileAt(image, node.callFile);
    CheckInlineList(image, node.children)
  }

  function CheckInlineList(image: Image, nodes: seq<EncodedInlineNode>): Result<Unit>
    decreases nodes, 0
  {
    if nodes == [] then Ok(Unit)
    else
      var _ :- CheckInline(image, nodes[0]);
      CheckInlineList(image, nodes[1..])
  }

  function StringsAt(image: Image, offsets: seq<uint64>): Result<seq<seq<uint8>>> {
    if offsets == [] then Ok([])
    else
      var first :- StringAt(image, offsets[0]);
      var rest :- StringsAt(image, offsets[1..]);
      Ok([first] + rest)
  }

  function SitesAt(image: Image, sites: seq<EncodedCallSite>): Result<seq<CallSite>> {
    if sites == [] then Ok([])
    else
      var regexes :- StringsAt(image, sites[0].matchRegex);
      var rest :- SitesAt(image, sites[1..]);
      Ok([CallSite(sites[0].returnOffset, sites[0].flags, regexes)] + rest)
  }

  /** `validate_at`: structure, strings and file references, merged functions last. */
  function Check(image: Image, f: EncodedFunction, parent: Option<AddressRange>, depth: nat): Result<Unit>
    decreases f, 1
  {
    if depth > MAX_MERGED_DEPTH then Err(Limit)
    else if !ValidFunction(f, parent) then Err(InvalidFormat)
    else
      var _ :- StringAt(image, f.name);
      var _ :- CheckLineFiles(image, LinesOf(f));
      var _ :- if f.inline.Some? then CheckInline(image, f.inline.value) else Ok(Unit);
      var _ :- SitesAt(image, f.callSites);
      CheckList(image, f.merged, f.range, depth + 1)
  }

  function CheckList(image: Image, functions: seq<EncodedFunction>, parent: AddressRange, depth: nat): Result<Unit>
    decreases functions, 0
  {
    if functions == [] then Ok(Unit)
    else
      var _ :- Check(image, functions[0], Some(parent), depth);
      CheckList(image, functions[1..], parent, depth)
  }

  // ------------------------------------------------------------- the owned model

  function ResolveInline(image: Image, node: EncodedInlineNode): Result<InlineNode>
    decreases node, 1
  {
    var name :- if node.name == 0 then Ok([]) else StringAt(image, node.name);
    var children :- ResolveInlineList(image, node.children);
    Ok(InlineNode(node.ranges, name, node.callFile, node.callLine, children))
  }

  function ResolveInlineList(image: Image, nodes: seq<EncodedInlineNode>): Result<seq<InlineNode>>
    decreases nodes, 0
  {
    if nodes == [] then Ok([])
    else
      var first :- ResolveInline(image, nodes[0]);
      var rest :- ResolveInlineList(image, nodes[1..]);
      Ok([first] + rest)
  }

  function ResolveOptional(image: Image, inline: Option<EncodedInlineNode>): Result<Option<InlineNode>> {
    match inline
    case None => Ok(None)
    case Some(node) =>
      var resolved :- ResolveInline(image, node);
      Ok(Some(resolved))
  }

  /** `decode_at` after validation. */
  function Resolve(image: Image, f: EncodedFunction): Result<Function>
    decreases f, 1
  {
    var merged :- ResolveList(image, f.merged);
    var sites :- SitesAt(image, f.callSites);
    var name :- StringAt(image, f.name);
    var inline :- ResolveOptional(image, f.inline);
    Ok(Function(f.range, name, LinesOf(f), inline, merged, sites))
  }

  function ResolveList(image: Image, functions: seq<EncodedFunction>): Result<seq<Function>>
    decreases functions, 0
  {
    if functions == [] then Ok([])
    else
      var first :- Resolve(image, functions[0]);
      var rest :- ResolveList(image, functions[1..]);
      Ok([first] + rest)
  }

  // ---------------------------------------------------------------- whole images

  /** The function at an index, checked and decoded. */
  function VerifiedAt(image: Image, index: nat, address: uint64): Result<EncodedFunction> {
    var raw :- FunctionAt(image, index, address);
    var f :- DecodeRaw(image, raw);
    var _ :- Check(image, f, None, 0);
    Ok(f)
  }

  /** Functions from `index` on, in table order and at sorted addresses. */
  function VerifyFrom(image: Image, index: nat, previous: Option<uint64>): Result<seq<EncodedFunction>>
    requires index <= image.layout.count
    decreases image.layout.count - index
  {
    if index == image.layout.count then Ok([])
    else
      var address :- AddressAt(image, index);
      if previous.Some? && address < previous.value then Err(InvalidFormat)
      else
        var first :- VerifiedAt(image, index, address);
        var rest :- VerifyFrom(image, index + 1, Some(address));
        Ok([first] + rest)
  }

  function FilesFrom(image: Image, index: nat): Result<seq<FileEntry>>
    requires index <= image.layout.fileCount
    decreases image.layout.fileCount - index
  {
    if index == image.layout.fileCount then Ok([])
    else
      var first :- FileAt(image, index);
      var rest :- FilesFrom(image, index + 1);
      Ok([first] + rest)
  }

  /** Before the functions: the empty string and the reserved file. */
  function CheckReserved(image: Image): Result<Unit> {
    if image.layout.strings.start >= |image.data| || image.data[image.layout.strings.start] != 0 then Err(InvalidFormat)
    else if image.layout.fileCount == 0 then Ok(Unit)
    else
      var file :- FileAt(image, 0);
      if file != EMPTY_FILE then Err(InvalidFormat) else Ok(Unit)
  }

  /** `verify`, with the decoded functions for its visitor. */
  function Verify(image: Image): Result<seq<EncodedFunction>> {
    var _ :- CheckReserved(image);
    var functions :- VerifyFrom(image, 0, None);
    var _ :- FilesFrom(image, 0);
    Ok(functions)
  }

  datatype DecodedGsym = DecodedGsym(
    version: Version, order: ByteOrder, base: uint64, buildId: seq<uint8>, files: seq<FileEntry>, functions: seq<Function>)

  /** `build_id`: empty when its span is outside the data. */
  function BuildId(image: Image): seq<uint8> {
    if image.layout.buildId.InBounds(image.data) then image.layout.buildId.Of(image.data) else []
  }

  /** `decode_all`: every function resolved, every file read; a file without a
      file table gets the reserved entry. */
  function DecodeAll(image: Image): Result<DecodedGsym> {
    var encoded :- Verify(image);
    var functions :- ResolveList(image, encoded);
    var files :- FilesFrom(image, 0);
    var layout := image.layout;
    Ok(DecodedGsym(layout.version, layout.order, layout.base, BuildId(image),
                   if layout.fileCount == 0 then [EMPTY_FILE] else files, functions))
  }
}
