/** The source frames of a lookup: record scan, frame preparation and emission
    in src/reader/lookup.rs. */
module Frames {
  import opened Words
  import opened Wrappers
  import opened Wire
  import opened Endian
  import opened Model
  import opened Line
  import opened LineCodec
  import opened InlineInfo
  import opened FunctionInfo
  import opened FunctionCodec
  import opened InlineScan
  import opened Headers
  import opened Layout
  import opened Image
  import opened Verified
  import opened AddressSearch
  import opened Lookup

  datatype LookupOptions = LookupOptions(lineInformation: bool, inlineFrames: bool, callSites: bool)

  datatype LookupFrame = LookupFrame(name: seq<uint8>, file: FileEntry, line: uint32, offset: uint64, inlined: bool)

  datatype LookupResult = LookupResult(range: AddressRange, frames: seq<LookupFrame>, patterns: seq<seq<uint8>>)

  function SaturatingSub(x: uint64, y: uint64): uint64 {
    if x < y then 0 else x - y
  }

  // ------------------------------------------- the answer in terms of the model

  function RowAt(f: EncodedFunction, address: uint64, options: LookupOptions): Option<LineEntry> {
    if options.lineInformation then InEffect(LinesOf(f), address) else None
  }

  function InlinePath(f: EncodedFunction, address: uint64, options: LookupOptions): seq<RawInlineFrame> {
    if options.inlineFrames && f.inline.Some? then Path(f.inline.value, address) else []
  }

  /** The frame's location is that of a line row, or empty without one. */
  predicate AtRow(image: Image, row: Option<LineEntry>, frame: LookupFrame) {
    match row
    case None => frame.file == EMPTY_FILE && frame.line == 0
    case Some(entry) => FileAt(image, entry.file) == Ok(frame.file) && frame.line == entry.line
  }

  /** Frame `k`, counted from the innermost, of the inline path: named after its
      node, at the row in effect if innermost and otherwise where its callee was
      called from. */
  predicate DescribesNode(
    image: Image, path: seq<RawInlineFrame>, row: Option<LineEntry>, address: uint64, k: nat, frame: LookupFrame)
    requires k < |path|
  {
    var node := path[|path| - 1 - k];
    && StringAt(image, node.name) == Ok(frame.name)
    && frame.offset == SaturatingSub(address, node.start)
    && frame.inlined == (k + 1 < |path|)
    && if k == 0 then AtRow(image, row, frame)
       else
         var callee := path[|path| - k];
         FileAt(image, callee.callFile) == Ok(frame.file) && frame.line == callee.callLine
  }

  /** The frames of an address in a function, innermost first. */
  predicate Describes(image: Image, f: EncodedFunction, address: uint64, options: LookupOptions, frames: seq<LookupFrame>) {
    var path := InlinePath(f, address, options);
    var row := RowAt(f, address, options);
    if path == [] then
      && |frames| == 1
      && StringAt(image, f.name) == Ok(frames[0].name)
      && frames[0].offset == SaturatingSub(address, f.range.start)
      && !frames[0].inlined
      && AtRow(image, row, frames[0])
    else
      && |frames| == |path|
      && forall k: nat :: k < |path| ==> DescribesNode(image, path, row, address, k, frames[k])
  }

  /** The patterns of the call sites that return to this offset. */
  function PatternsAt(image: Image, sites: seq<EncodedCallSite>, offset: uint64): Result<seq<seq<uint8>>> {
    if sites == [] then Ok([])
    else if sites[0].returnOffset != offset then PatternsAt(image, sites[1..], offset)
    else
      var first :- StringsAt(image, sites[0].matchRegex);
      var rest :- PatternsAt(image, sites[1..], offset);
      Ok(first + rest)
  }

  // ------------------------------------------------------------------- record scan

  /** What one pass over the records keeps. */
  datatype Scanned = Scanned(line: Option<LineEntry>, inline: Option<seq<uint8>>, callSites: Option<seq<uint8>>)

  const NOTHING := Scanned(None, None, None)

  /** The scan of the records that `f` was decoded from. */
  predicate Reflects(image: Image, f: EncodedFunction, address: uint64, options: LookupOptions, scanned: Scanned)
    requires ValidStringWidth(image.layout.stringWidth)
  {
    var order, width := image.layout.order, image.layout.stringWidth;
    && scanned.line == RowAt(f, address, options)
    && (match scanned.inline
        case None => options.inlineFrames ==> f.inline == None
        case Some(payload) =>
          && options.inlineFrames && f.inline.Some?
          && DecodeInlinePayload(payload, order, width, f.range.start) == Ok(f.inline.value))
    && (match scanned.callSites
        case None => options.callSites ==> f.callSites == []
        case Some(payload) => options.callSites && DecodeCallSites(payload, order, width) == Ok(f.callSites))
  }

  /** What the scan keeps of a record; `row` is the outcome of its line lookup. */
  function Keep(record: Record, row: Option<LineEntry>, options: LookupOptions, scanned: Scanned): Scanned {
    if record.kind == INFO_LINE_TABLE && options.lineInformation then scanned.(line := row)
    else if record.kind == INFO_INLINE && options.inlineFrames then scanned.(inline := Some(record.payload))
    else if record.kind == INFO_CALL_SITE && options.callSites then scanned.(callSites := Some(record.payload))
    else scanned
  }

  lemma KeepReflects(
    image: Image, record: Record, f: EncodedFunction, address: uint64, options: LookupOptions, row: Option<LineEntry>,
    scanned: Scanned)
    requires ValidStringWidth(image.layout.stringWidth) && Reflects(image, f, address, options, scanned)
    requires DecodeRecord(record, image.layout.order, image.layout.stringWidth, 0, f).Ok?
    requires
      var rows := DecodeRows(record.payload, f.range.start);
      record.kind == INFO_LINE_TABLE && options.lineInformation && rows.Ok? ==> row == InEffect(rows.value, address)
    ensures
      var after := DecodeRecord(record, image.layout.order, image.layout.stringWidth, 0, f).value;
      after.range == f.range && Reflects(image, after, address, options, Keep(record, row, options, scanned))
  {
    hide DecodeRows, DecodeInlinePayload, DecodeCallSites, DecodeMerged, InEffect;
  }

  /** `scan_records` looks at each record once and builds no function. */
  method ScanRecords(image: Image, raw: RawFunction, address: uint64, options: LookupOptions) returns (r: Result<Scanned>)
    requires ValidStringWidth(image.layout.stringWidth)
    ensures
      var blank := EncodedFunction(raw.range, raw.name, None, None, [], []);
      var decoded := DecodeRecords(raw.records, image.layout.order, image.layout.stringWidth, 0, {}, blank);
      decoded.Ok? ==> r.Ok? && Reflects(image, decoded.value.value, address, options, r.value)
  {
    hide DecodeRows, DecodeInlinePayload, DecodeCallSites, DecodeRecord, NextRecord, Observe;
    if !options.lineInformation && !options.inlineFrames && !options.callSites {
      return Ok(NOTHING);
    }
    ghost var partial := EncodedFunction(raw.range, raw.name, None, None, [], []);
    ghost var seen: set<uint32> := {};
    ghost var decoded := DecodeRecords(raw.records, image.layout.order, image.layout.stringWidth, 0, seen, partial);
    var scanned := NOTHING;
    var cursor := new Cursor(raw.records, image.layout.order);
    while true
      invariant cursor.Valid()
      invariant decoded.Ok? ==>
        && DecodeRecords(cursor.Rest(), image.layout.order, image.layout.stringWidth, 0, seen, partial) == decoded
        && Reflects(image, partial, address, options, scanned) && partial.range == raw.range
      decreases |cursor.Rest()|
    {
      var next :- ReadRecord(cursor);
      if next.None? {
        return Ok(scanned);
      }
      var record, row := next.value, None;
      if decoded.Ok? && record.kind == INFO_LINE_TABLE {
        LinesDecode(image, record, partial);
      }
      if record.kind == INFO_LINE_TABLE && options.lineInformation {
        row :- LookupLine(record.payload, image.layout.order, raw.range.start, address);
      }
      if decoded.Ok? {
        KeepReflects(image, record, partial, address, options, row, scanned);
        seen := Observe(record.kind, seen).value;
        partial := DecodeRecord(record, image.layout.order, image.layout.stringWidth, 0, partial).value;
      }
      scanned := Keep(record, row, options, scanned);
    }
  }

  lemma LinesDecode(image: Image, record: Record, f: EncodedFunction)
    requires ValidStringWidth(image.layout.stringWidth) && record.kind == INFO_LINE_TABLE
    requires DecodeRecord(record, image.layout.order, image.layout.stringWidth, 0, f).Ok?
    ensures DecodeRows(record.payload, f.range.start).Ok?
  {
    hide DecodeRows, DecodeInlinePayload, DecodeCallSites, DecodeMerged;
  }

  // -------------------------------------------------------- what verification gives

  lemma {:induction false} CheckedLineFile(image: Image, lines: seq<LineEntry>, line: LineEntry)
    requires CheckLineFiles(image, lines).Ok? && line in lines
    ensures FileAt(image, line.file).Ok?
    decreases |lines|
  {
    hide FileAt;
    if line != lines[0] {
      CheckedLineFile(image, lines[1..], line);
    }
  }

  lemma {:induction false} InEffectIsRow(lines: seq<LineEntry>, address: uint64)
    ensures InEffect(lines, address).Some? ==> InEffect(lines, address).value in lines
    decreases |lines|
  {
    if lines != [] {
      InEffectIsRow(lines[..|lines| - 1], address);
    }
  }

  /** Frames on the path of a checked tree are named, and their names and call
      files resolve. */
  lemma {:induction false} CheckedPath(image: Image, node: EncodedInlineNode, address: uint64)
    requires CheckInline(image, node).Ok?
    ensures forall frame :: frame in Path(node, address) ==>
      frame.name != 0 && StringAt(image, frame.name).Ok? && FileAt(image, frame.callFile).Ok?
    decreases node, 1
  {
    hide StringAt, FileAt, Covers;
    CheckedPathBelow(image, node.children, address);
  }

  lemma {:induction false} CheckedPathBelow(image: Image, nodes: seq<EncodedInlineNode>, address: uint64)
    requires CheckInlineList(image, nodes).Ok?
    ensures forall frame :: frame in PathBelow(nodes, address) ==>
      frame.name != 0 && StringAt(image, frame.name).Ok? && FileAt(image, frame.callFile).Ok?
    decreases nodes, 0
  {
    hide StringAt, FileAt, Covers;
    if nodes != [] {
      CheckedPath(image, nodes[0], address);
      CheckedPathBelow(image, nodes[1..], address);
    }
  }

  lemma {:induction false} CheckedPatterns(image: Image, sites: seq<EncodedCallSite>, offset: uint64)
    requires SitesAt(image, sites).Ok?
    ensures PatternsAt(image, sites, offset).Ok?
    decreases |sites|
  {
    hide StringsAt;
    if sites != [] {
      CheckedPatterns(image, sites[1..], offset);
    }
  }

  /** Everything a lookup in a checked function reads resolves. */
  ghost predicate Resolvable(image: Image, f: EncodedFunction, address: uint64, options: LookupOptions) {
    && StringAt(image, f.name).Ok?
    && (RowAt(f, address, options).Some? ==> FileAt(image, RowAt(f, address, options).value.file).Ok?)
    && (forall frame :: frame in InlinePath(f, address, options) ==>
          frame.name != 0 && StringAt(image, frame.name).Ok? && FileAt(image, frame.callFile).Ok?)
    && PatternsAt(image, f.callSites, SaturatingSub(address, f.range.start)).Ok?
  }

  lemma CheckedResolvable(image: Image, f: EncodedFunction, address: uint64, options: LookupOptions)
    requires Check(image, f, None, 0).Ok?
    ensures Resolvable(image, f, address, options)
  {
    hide StringAt, FileAt, CheckLineFiles, CheckInline, CheckList, SitesAt, PatternsAt, Path, InEffect, ValidFunction;
    CheckedPatterns(image, f.callSites, SaturatingSub(address, f.range.start));
    InEffectIsRow(LinesOf(f), address);
    if RowAt(f, address, options).Some? {
      CheckedLineFile(image, LinesOf(f), RowAt(f, address, options).value);
    }
    if f.inline.Some? {
      CheckedPath(image, f.inline.value, address);
    }
  }

  // -------------------------------------------------------------- frame preparation

  datatype Prepared = Prepared(
    name: seq<uint8>, file: FileEntry, line: uint32, callSites: Option<seq<uint8>>, nodes: seq<RawInlineFrame>)

  /** The scratch frames of an inline payload, which must hold one whole tree. */
  method ScanInlinePayload(image: Image, payload: seq<uint8>, base: uint64, address: uint64)
    returns (r: Result<seq<RawInlineFrame>>)
    ensures
      var decoded := DecodeInlinePayload(payload, image.layout.order, image.layout.stringWidth, base);
      decoded.Ok? ==> r == Ok(Path(decoded.value, address))
  {
    hide DecodeInline, Path, Covers;
    var cursor := new Cursor(payload, image.layout.order);
    var scan := new Scan(image.layout.stringWidth, address);
    var outcome :- ScanNode(cursor, base, true, 0, scan);
    ghost var decoded := DecodeInline(payload, image.layout.order, image.layout.stringWidth, base, 0);
    if decoded.Ok? {
      assert [] + Path(decoded.value.value, address) == Path(decoded.value.value, address);
    }
    if !outcome.0 || !cursor.IsEmpty() {
      return Err(InvalidFormat);
    }
    return Ok(scan.frames);
  }

  method PrepareFrames(image: Image, raw: RawFunction, address: uint64, options: LookupOptions, ghost f: EncodedFunction)
    returns (r: Result<Prepared>)
    requires ValidStringWidth(image.layout.stringWidth)
    ensures
      var blank := EncodedFunction(raw.range, raw.name, None, None, [], []);
      var decoded := DecodeRecords(raw.records, image.layout.order, image.layout.stringWidth, 0, {}, blank);
      decoded.Ok? && decoded.value.value == f && f.range == raw.range && f.name == raw.name
        && Resolvable(image, f, address, options) ==>
        && r.Ok?
        && StringAt(image, f.name) == Ok(r.value.name)
        && AtRow(image, RowAt(f, address, options), LookupFrame([], r.value.file, r.value.line, 0, false))
        && r.value.nodes == InlinePath(f, address, options)
        && match r.value.callSites
           case None => options.callSites ==> f.callSites == []
           case Some(payload) =>
             options.callSites
             && DecodeCallSites(payload, image.layout.order, image.layout.stringWidth) == Ok(f.callSites)
  {
    hide DecodeRecords, DecodeInlinePayload, DecodeCallSites, StringAt, FileAt, PatternsAt, Path, InEffect;
    var scanned :- ScanRecords(image, raw, address, options);
    var name :- StringAt(image, raw.name);
    var file, line := EMPTY_FILE, 0;
    if scanned.line.Some? {
      file :- FileAt(image, scanned.line.value.file);
      line := scanned.line.value.line;
    }
    var nodes: seq<RawInlineFrame> := [];
    if scanned.inline.Some? {
      nodes :- ScanInlinePayload(image, scanned.inline.value, raw.range.start, address);
    }
    return Ok(Prepared(name, file, line, scanned.callSites, nodes));
  }

  // ---------------------------------------------------------------------- emission

  /** `emit_frames`: from the innermost node outwards, each caller located at the
      call site of its callee. */
  method EmitFrames(
    image: Image, start: uint64, address: uint64, prepared: Prepared, ghost f: EncodedFunction, ghost options: LookupOptions)
    returns (r: Result<seq<LookupFrame>>)
    ensures
      && f.range.start == start && Resolvable(image, f, address, options)
      && StringAt(image, f.name) == Ok(prepared.name)
      && AtRow(image, RowAt(f, address, options), LookupFrame([], prepared.file, prepared.line, 0, false))
      && prepared.nodes == InlinePath(f, address, options) ==>
        r.Ok? && Describes(image, f, address, options, r.value)
  {
    hide StringAt, FileAt, PatternsAt, RowAt, InlinePath;
    var nodes := prepared.nodes;
    if nodes == [] {
      return Ok([LookupFrame(prepared.name, prepared.file, prepared.line, SaturatingSub(address, start), false)]);
    }
    ghost var row := RowAt(f, address, options);
    ghost var located :=
      && AtRow(image, row, LookupFrame([], prepared.file, prepared.line, 0, false))
      && forall frame :: frame in nodes ==> frame.name != 0;
    var frames: seq<LookupFrame> := [];
    while |frames| < |nodes|
      invariant |frames| <= |nodes|
      invariant located ==> forall k: nat :: k < |frames| ==> DescribesNode(image, nodes, row, address, k, frames[k])
    {
      var index := |nodes| - 1 - |frames|;
      var node := nodes[index];
      assert node in nodes;
      var file, line := prepared.file, prepared.line;
      if index + 1 < |nodes| {
        assert nodes[index + 1] in nodes;
        file :- FileAt(image, nodes[index + 1].callFile);
        line := nodes[index + 1].callLine;
      }
      var name := prepared.name;
      if node.name != 0 {
        name :- StringAt(image, node.name);
      }
      frames := frames + [LookupFrame(name, file, line, SaturatingSub(address, node.start), index != 0)];
    }
    return Ok(frames);
  }

  // ----------------------------------------------------------- call-site patterns

  lemma StringsSnoc(image: Image, offsets: seq<uint64>, offset: uint64)
    requires StringsAt(image, offsets).Ok? && StringAt(image, offset).Ok?
    ensures StringsAt(image, offsets + [offset]) == Ok(StringsAt(image, offsets).value + [StringAt(image, offset).value])
    decreases |offsets|
  {
    hide StringAt;
    if offsets == [] {
      assert offsets + [offset] == [offset] && [offset][1..] == [];
      assert StringsAt(image, []) == Ok([]);
      assert [StringAt(image, offset).value] + [] == [] + [StringAt(image, offset).value];
    } else {
      StringsSnoc(image, offsets[1..], offset);
      assert (offsets + [offset])[1..] == offsets[1..] + [offset];
      var first, rest := StringAt(image, offsets[0]).value, StringsAt(image, offsets[1..]).value;
      assert [first] + rest + [StringAt(image, offset).value] == [first] + (rest + [StringAt(image, offset).value]);
    }
  }

  /** The patterns of one call site, appended to the output when it matches. */
  method ReadSitePatterns(image: Image, cursor: Cursor, count: nat, collect: bool) returns (r: Result<seq<seq<uint8>>>)
    requires cursor.Valid() && cursor.order == image.layout.order
    modifies cursor
    ensures cursor.Valid()
    ensures
      var offsets := DecodeOffsets(old(cursor.Rest()), image.layout.order, image.layout.stringWidth, count);
      offsets.Ok? && (collect ==> StringsAt(image, offsets.value.value).Ok?) ==>
        r == (if collect then StringsAt(image, offsets.value.value) else Ok([])) && cursor.Rest() == offsets.value.rest
  {
    hide Wire.ReadUint, StringAt, StringsAt;
    NoStrings(image);
    ghost var width := image.layout.stringWidth;
    ghost var all := DecodeOffsets(cursor.Rest(), image.layout.order, width, count);
    ghost var done: seq<uint64> := [];
    var output: seq<seq<uint8>> := [];
    JoinedNothing(all);
    for i := 0 to count
      invariant cursor.Valid()
      invariant Joined(done, DecodeOffsets(cursor.Rest(), image.layout.order, width, count - i)) == all
      invariant if collect then StringsAt(image, done) == Ok(output) else output == []
    {
      var offset :- cursor.ReadUint(image.layout.stringWidth);
      JoinedNext(done, offset, DecodeOffsets(cursor.Rest(), image.layout.order, width, count - i - 1));
      if collect {
        if all.Ok? && StringsAt(image, all.value.value).Ok? {
          OffsetResolves(image, done, offset, DecodeOffsets(cursor.Rest(), image.layout.order, width, count - i - 1));
        }
        var pattern :- StringAt(image, offset);
        StringsSnoc(image, done, offset);
        output := output + [pattern];
      }
      done := done + [offset];
    }
    OffsetsEnd(done, cursor.Rest(), image.layout.order, width);
    return Ok(output);
  }

  lemma NoStrings(image: Image)
    ensures StringsAt(image, []) == Ok([])
  {
  }

  lemma OffsetsEnd(done: seq<uint64>, s: seq<uint8>, order: ByteOrder, width: nat)
    ensures Joined(done, DecodeOffsets(s, order, width, 0)) == Ok(Step(done, s))
  {
    assert done + [] == done;
  }

  lemma OffsetResolves(image: Image, done: seq<uint64>, offset: uint64, rest: Result<Step<seq<uint64>>>)
    requires Joined(done + [offset], rest).Ok? && StringsAt(image, Joined(done + [offset], rest).value.value).Ok?
    ensures StringAt(image, offset).Ok?
  {
    hide StringAt, StringsAt;
    var all := Joined(done + [offset], rest).value.value;
    assert all == done + [offset] + rest.value.value && all[|done|] == offset;
    MemberResolves(image, all, |done|);
  }

  lemma {:induction false} MemberResolves(image: Image, offsets: seq<uint64>, i: nat)
    requires StringsAt(image, offsets).Ok? && i < |offsets|
    ensures StringAt(image, offsets[i]).Ok?
  {
    hide StringAt;
    if i > 0 {
      MemberResolves(image, offsets[1..], i - 1);
    }
  }

  function SitePatterns(image: Image, site: EncodedCallSite, returnOffset: uint64): Result<seq<seq<uint8>>> {
    if site.returnOffset == returnOffset then StringsAt(image, site.matchRegex) else Ok([])
  }

  method ReadSite(image: Image, cursor: Cursor, returnOffset: uint64) returns (r: Result<seq<seq<uint8>>>)
    requires cursor.Valid() && cursor.order == image.layout.order && ValidStringWidth(image.layout.stringWidth)
    modifies cursor
    ensures cursor.Valid()
    ensures
      var site := DecodeCallSite(old(cursor.Rest()), image.layout.order, image.layout.stringWidth);
      site.Ok? && SitePatterns(image, site.value.value, returnOffset).Ok? ==>
        r == SitePatterns(image, site.value.value, returnOffset) && cursor.Rest() == site.value.rest
  {
    hide StringsAt, Wire.ReadU32, Wire.ReadU64, DecodeOffsets;
    var candidate :- cursor.ReadU64();
    var _ :- cursor.ReadU8();
    var count :- cursor.ReadU32();
    r := ReadSitePatterns(image, cursor, count, candidate == returnOffset);
  }

  lemma SiteListStep(image: Image, s: seq<uint8>, order: ByteOrder, width: nat, count: nat, returnOffset: uint64)
    requires ValidStringWidth(width) && count > 0
    requires DecodeCallSiteList(s, order, width, count).Ok?
    requires PatternsAt(image, DecodeCallSiteList(s, order, width, count).value.value, returnOffset).Ok?
    ensures
      var Step(sites, rest) := DecodeCallSiteList(s, order, width, count).value;
      var site := DecodeCallSite(s, order, width);
      && sites != []
      && site.Ok? && SitePatterns(image, site.value.value, returnOffset).Ok?
      && DecodeCallSiteList(site.value.rest, order, width, count - 1) == Ok(Step(sites[1..], rest))
      && PatternsAt(image, sites[1..], returnOffset).Ok?
      && PatternsAt(image, sites, returnOffset)
         == Collected(SitePatterns(image, site.value.value, returnOffset).value, PatternsAt(image, sites[1..], returnOffset))
  {
    hide DecodeCallSite, StringsAt;
    var sites := DecodeCallSiteList(s, order, width, count).value.value;
    CollectedNothing(PatternsAt(image, sites[1..], returnOffset));
  }

  lemma CallSitesBegin(payload: seq<uint8>, order: ByteOrder, width: nat)
    requires ValidStringWidth(width) && DecodeCallSites(payload, order, width).Ok?
    ensures
      var count := ReadU32(order, payload);
      && count.Ok?
      && DecodeCallSiteList(count.value.rest, order, width, count.value.value)
         == Ok(Step(DecodeCallSites(payload, order, width).value, []))
  {
    hide DecodeCallSiteList, ReadU32;
    var table := DecodeCallSiteTable(payload, order, width);
    assert table.value.rest == [] && table.value.value == DecodeCallSites(payload, order, width).value;
  }

  /** `read_call_site_patterns`. */
  method ReadCallSitePatterns(image: Image, payload: seq<uint8>, returnOffset: uint64) returns (r: Result<seq<seq<uint8>>>)
    requires ValidStringWidth(image.layout.stringWidth)
    ensures
      var sites := DecodeCallSites(payload, image.layout.order, image.layout.stringWidth);
      sites.Ok? && PatternsAt(image, sites.value, returnOffset).Ok? ==> r == PatternsAt(image, sites.value, returnOffset)
  {
    hide DecodeCallSites, DecodeCallSiteList, DecodeCallSite, SitePatterns, PatternsAt, Collected, Wire.ReadU32;
    ghost var order, width := image.layout.order, image.layout.stringWidth;
    ghost var sites := DecodeCallSites(payload, order, width);
    ghost var good := sites.Ok? && PatternsAt(image, sites.value, returnOffset).Ok?;
    if good {
      CallSitesBegin(payload, order, width);
      CollectedNothing(PatternsAt(image, sites.value, returnOffset));
    }
    var cursor := new Cursor(payload, image.layout.order);
    var count :- cursor.ReadU32();
    ghost var left: seq<EncodedCallSite> := if good then sites.value else [];
    var output: seq<seq<uint8>> := [];
    for i := 0 to count
      invariant cursor.Valid() && cursor.order == image.layout.order
      invariant good ==>
        && DecodeCallSiteList(cursor.Rest(), order, width, count - i) == Ok(Step(left, []))
        && PatternsAt(image, left, returnOffset).Ok?
        && Collected(output, PatternsAt(image, left, returnOffset)) == PatternsAt(image, sites.value, returnOffset)
    {
      if good {
        SiteListStep(image, cursor.Rest(), order, width, count - i, returnOffset);
        left := left[1..];
      }
      var patterns :- ReadSite(image, cursor, returnOffset);
      CollectedNext(output, patterns, PatternsAt(image, left, returnOffset));
      output := output + patterns;
    }
    CollectedAll(output);
    PatternsEnd(image, cursor.Rest(), order, width, returnOffset);
    if !cursor.IsEmpty() {
      return Err(InvalidFormat);
    }
    return Ok(output);
  }

  lemma CollectedAll(output: seq<seq<uint8>>)
    ensures Collected(output, Ok([])) == Ok(output)
  {
    assert output + [] == output;
  }

  lemma PatternsEnd(image: Image, s: seq<uint8>, order: ByteOrder, width: nat, returnOffset: uint64)
    requires ValidStringWidth(width)
    ensures DecodeCallSiteList(s, order, width, 0) == Ok(Step([], s))
    ensures PatternsAt(image, [], returnOffset) == Ok([])
  {
  }

  // ------------------------------------------------------------------------ lookup

  /** What a lookup that selects `f` reports. */
  predicate Answers(image: Image, f: EncodedFunction, address: uint64, options: LookupOptions, hit: LookupResult) {
    && hit.range == f.range
    && Describes(image, f, address, options, hit.frames)
    && if options.callSites then PatternsAt(image, f.callSites, SaturatingSub(address, hit.range.start)) == Ok(hit.patterns)
       else hit.patterns == []
  }

  /** The answer of a plain search over the decoded functions. */
  ghost predicate Finds(
      image: Image, functions: seq<EncodedFunction>, address: uint64, options: LookupOptions, answer: Option<LookupResult>) {
    match answer
    case None => forall i: nat :: !Selected(RangesOf(functions), address, i)
    case Some(hit) =>
      exists index: nat ::
        && Selected(RangesOf(functions), address, index)
        && Answers(image, functions[index], address, options, hit)
  }

  /** `lookup_with_options`.  On a verified image it finds the first function in
      table order that is empty or contains the address, among those with the
      greatest start at or below it, or nothing if there is none; its frames and
      patterns are those of a plain search over the decoded function. */
  method LookupAddress(image: Image, address: uint64, options: LookupOptions)
    returns (r: Result<Option<LookupResult>>)
    requires Load(image.data) == Ok(image)
    ensures Verify(image).Ok? ==> r.Ok? && Finds(image, Verify(image).value, address, options, r.value)
  {
    hide Load, Verify, RawFunctionAt, DecodeRaw, DecodeRecords, DecodeCallSites, Check, StringAt, Selected, Describes, PatternsAt,
      AtRow, InlinePath, RowAt;
    LoadedStringWidth(image);
    var matching;
    ghost var index;
    matching, index := MatchingFunction(image, address);
    if matching.Err? {
      r := Err(matching.error);
      return;
    }
    if matching.value.None? {
      r := Ok(None);
      return;
    }
    var raw := matching.value.value;
    ghost var f := EncodedFunction(raw.range, raw.name, None, None, [], []);
    if Verify(image).Ok? {
      SelectedInTable(Verify(image).value, address, index);
      f := Verify(image).value[index];
      VerifiedRaw(image, Verify(image).value, index);
      RawDecodes(image, index, f.range.start);
      CheckedResolvable(image, f, address, options);
      ResolvablePatterns(image, f, address, options);
    }
    hide Resolvable;
    var prepared := PrepareFrames(image, raw, address, options, f);
    if prepared.Err? {
      r := Err(prepared.error);
      return;
    }
    var frames := EmitFrames(image, raw.range.start, address, prepared.value, f, options);
    if frames.Err? {
      r := Err(frames.error);
      return;
    }
    var patterns: seq<seq<uint8>> := [];
    if prepared.value.callSites.Some? {
      var read :=
        ReadCallSitePatterns(image, prepared.value.callSites.value, SaturatingSub(address, raw.range.start));
      if read.Err? {
        r := Err(read.error);
        return;
      }
      patterns := read.value;
    }
    r := Ok(Some(LookupResult(raw.range, frames.value, patterns)));
  }

  lemma SelectedInTable(functions: seq<EncodedFunction>, address: uint64, index: nat)
    requires Selected(RangesOf(functions), address, index)
    ensures index < |functions|
  {
  }

  lemma ResolvablePatterns(image: Image, f: EncodedFunction, address: uint64, options: LookupOptions)
    requires Resolvable(image, f, address, options)
    ensures PatternsAt(image, f.callSites, SaturatingSub(address, f.range.start)).Ok?
    ensures PatternsAt(image, [], SaturatingSub(address, f.range.start)) == Ok([])
  {
    hide StringAt, FileAt, RowAt, InlinePath;
  }

  lemma LoadedStringWidth(image: Image)
    requires Load(image.data) == Ok(image)
    ensures image.layout.stringWidth == 4 || image.layout.stringWidth == 8
  {
    hide DetectByteOrder, ReadU16, ReadU32, DecodeV1Header, DecodeV2Header, ParseDirectory, TablesOf, SpanOf, Find;
  }
}
