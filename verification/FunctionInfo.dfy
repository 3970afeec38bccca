/** The `FunctionInfo` record stream of src/format/function.rs: a header,
    type-length-value records, nested merged functions and call sites. */
module FunctionInfo {
  import opened Words
  import opened Wrappers
  import opened Wire
  import opened Leb
  import opened Model
  import opened Line
  import opened InlineInfo

  const INFO_END: uint32 := 0
  const INFO_LINE_TABLE: uint32 := 1
  const INFO_INLINE: uint32 := 2
  const INFO_MERGED: uint32 := 3
  const INFO_CALL_SITE: uint32 := 4

  datatype EncodedCallSite = EncodedCallSite(returnOffset: uint64, flags: uint8, matchRegex: seq<uint64>)

  datatype EncodedFunction = EncodedFunction(
    range: AddressRange,
    name: uint64,
    lines: Option<seq<LineEntry>>,
    inline: Option<EncodedInlineNode>,
    merged: seq<EncodedFunction>,
    callSites: seq<EncodedCallSite>
  )

  predicate ValidStringWidth(width: nat) {
    width == 1 || width == 2 || width == 4 || width == 8
  }

  // ------------------------------------------------------------------ call sites

  function DecodeOffsets(s: seq<uint8>, order: ByteOrder, width: nat, count: nat): (r: Result<Step<seq<uint64>>>)
    ensures r.Ok? ==> |r.value.rest| <= |s|
    decreases count
  {
    if count == 0 then Ok(Step([], s))
    else
      var Step(offset, s1) :- ReadUint(order, width, s);
      var Step(tail, rest) :- DecodeOffsets(s1, order, width, count - 1);
      Ok(Step([offset] + tail, rest))
  }

  function DecodeCallSite(s: seq<uint8>, order: ByteOrder, width: nat): (r: Result<Step<EncodedCallSite>>)
    requires ValidStringWidth(width)
    ensures r.Ok? ==> |r.value.rest| <= |s|
  {
    var Step(returnOffset, s) :- ReadU64(order, s);
    var Step(flags, s) :- ReadU8(s);
    var Step(count, s) :- ReadU32(order, s);
    if count > |s| / width then Err(InvalidFormat)
    else
      var Step(regexes, s) :- DecodeOffsets(s, order, width, count);
      Ok(Step(EncodedCallSite(returnOffset, flags, regexes), s))
  }

  function DecodeCallSiteList(s: seq<uint8>, order: ByteOrder, width: nat, count: nat): Result<Step<seq<EncodedCallSite>>>
    requires ValidStringWidth(width)
    decreases count
  {
    if count == 0 then Ok(Step([], s))
    else
      var Step(site, s1) :- DecodeCallSite(s, order, width);
      var Step(tail, rest) :- DecodeCallSiteList(s1, order, width, count - 1);
      Ok(Step([site] + tail, rest))
  }

  /** The smallest call site: an offset, the flags and an empty pattern list. */
  const MINIMUM_CALL_SITE_SIZE: nat := 13

  /** A leading element count, which the input must be long enough for. */
  function DecodeCount(payload: seq<uint8>, order: ByteOrder, minimumSize: nat): (r: Result<Step<uint32>>)
    requires minimumSize > 0
    ensures r.Ok? ==> |r.value.rest| < |payload|
  {
    var Step(count, s) :- ReadU32(order, payload);
    if count > |s| / minimumSize then Err(InvalidFormat) else Ok(Step(count, s))
  }

  lemma CountRoundTrip(count: uint32, order: ByteOrder, minimumSize: nat, list: seq<uint8>)
    requires minimumSize > 0 && |list| >= minimumSize * count
    ensures DecodeCount(WriteU32(order, count) + list, order, minimumSize) == Ok(Step(count, list))
  {
    hide ReadU32, WriteU32;
    ReadWriteU32(order, count, list);
    QuotientAtLeast(count, minimumSize, |list|);
  }

  lemma QuotientAtLeast(count: nat, divisor: nat, size: nat)
    requires divisor > 0 && divisor * count <= size
    ensures count <= size / divisor
  {
    var quotient, remainder := size / divisor, size % divisor;
    assert divisor * (count - quotient) == divisor * count - divisor * quotient <= remainder;
    if quotient < count {
      ProductBound(divisor, count - quotient);
    }
  }

  function DecodeCallSiteTable(s: seq<uint8>, order: ByteOrder, width: nat): Result<Step<seq<EncodedCallSite>>>
    requires ValidStringWidth(width)
  {
    var Step(count, s) :- DecodeCount(s, order, MINIMUM_CALL_SITE_SIZE);
    DecodeCallSiteList(s, order, width, count)
  }

  function DecodeCallSites(payload: seq<uint8>, order: ByteOrder, width: nat): Result<seq<EncodedCallSite>>
    requires ValidStringWidth(width)
  {
    AllConsumed(DecodeCallSiteTable(payload, order, width))
  }

  function EncodeOffsets(offsets: seq<uint64>, order: ByteOrder, width: nat): Result<seq<uint8>> {
    if offsets == [] then Ok([])
    else
      var first :- WriteUint(order, offsets[0], width);
      var rest :- EncodeOffsets(offsets[1..], order, width);
      Ok(first + rest)
  }

  function EncodeCallSite(site: EncodedCallSite, order: ByteOrder, width: nat): Result<seq<uint8>> {
    if |site.matchRegex| >= U32_LIMIT then Err(Limit)
    else
      var regexes :- EncodeOffsets(site.matchRegex, order, width);
      Ok(WriteU64(order, site.returnOffset) + [site.flags] + WriteU32(order, |site.matchRegex|) + regexes)
  }

  function EncodeCallSiteList(sites: seq<EncodedCallSite>, order: ByteOrder, width: nat): Result<seq<uint8>> {
    if sites == [] then Ok([])
    else
      var first :- EncodeCallSite(sites[0], order, width);
      var rest :- EncodeCallSiteList(sites[1..], order, width);
      Ok(first + rest)
  }

  function EncodeCallSites(sites: seq<EncodedCallSite>, order: ByteOrder, width: nat): Result<seq<uint8>> {
    if |sites| >= U32_LIMIT then Err(Limit)
    else
      var list :- EncodeCallSiteList(sites, order, width);
      Ok(WriteU32(order, |sites|) + list)
  }

  lemma {:induction false} EncodedOffsetsSize(offsets: seq<uint64>, order: ByteOrder, width: nat)
    requires EncodeOffsets(offsets, order, width).Ok?
    ensures |EncodeOffsets(offsets, order, width).value| == |offsets| * width
  {
    hide WriteUint;
    if offsets != [] {
      WrittenSize(order, offsets[0], width);
      EncodedOffsetsSize(offsets[1..], order, width);
      OneMore(|offsets| - 1, width);
    }
  }

  lemma OneMore(n: nat, width: nat)
    ensures (n + 1) * width == width + n * width
  {
  }

  lemma WrittenSize(order: ByteOrder, value: uint64, width: nat)
    ensures WriteUint(order, value, width).Ok? ==> |WriteUint(order, value, width).value| == width
  {
  }

  lemma {:induction false} OffsetsRoundTrip(offsets: seq<uint64>, order: ByteOrder, width: nat, rest: seq<uint8>)
    requires EncodeOffsets(offsets, order, width).Ok?
    ensures DecodeOffsets(EncodeOffsets(offsets, order, width).value + rest, order, width, |offsets|)
         == Ok(Step(offsets, rest))
  {
    if offsets == [] {
      assert [] + rest == rest;
    } else {
      hide ReadUint, WriteUint;
      var first := WriteUint(order, offsets[0], width).value;
      var tail := EncodeOffsets(offsets[1..], order, width).value;
      ReadWriteUint(order, offsets[0], width, tail + rest);
      OffsetsRoundTrip(offsets[1..], order, width, rest);
      AppendAssociates(first, tail, rest);
      assert [offsets[0]] + offsets[1..] == offsets;
    }
  }

  lemma CallSiteRoundTrip(site: EncodedCallSite, order: ByteOrder, width: nat, rest: seq<uint8>)
    requires ValidStringWidth(width) && EncodeCallSite(site, order, width).Ok?
    ensures DecodeCallSite(EncodeCallSite(site, order, width).value + rest, order, width) == Ok(Step(site, rest))
    ensures |EncodeCallSite(site, order, width).value| >= MINIMUM_CALL_SITE_SIZE
  {
    var regexes := EncodeOffsets(site.matchRegex, order, width).value;
    EncodedOffsetsSize(site.matchRegex, order, width);
    QuotientAtLeast(|site.matchRegex|, width, |regexes + rest|);
    hide ReadU64, ReadU32, WriteU64, WriteU32, EncodeOffsets, DecodeOffsets;
    OffsetsRoundTrip(site.matchRegex, order, width, rest);
    var offset, flags, count := WriteU64(order, site.returnOffset), [site.flags], WriteU32(order, |site.matchRegex|);
    ReadWriteU32(order, |site.matchRegex|, regexes + rest);
    ReadWriteU64(order, site.returnOffset, flags + (count + (regexes + rest)));
    AppendAssociates(offset + flags + count, regexes, rest);
    AppendAssociates(offset + flags, count, regexes + rest);
    AppendAssociates(offset, flags, count + (regexes + rest));
  }

  lemma {:induction false} EncodedCallSiteListSize(sites: seq<EncodedCallSite>, order: ByteOrder, width: nat)
    requires ValidStringWidth(width) && EncodeCallSiteList(sites, order, width).Ok?
    ensures |EncodeCallSiteList(sites, order, width).value| >= MINIMUM_CALL_SITE_SIZE * |sites|
  {
    if sites != [] {
      hide EncodeCallSite, DecodeCallSite;
      CallSiteRoundTrip(sites[0], order, width, []);
      EncodedCallSiteListSize(sites[1..], order, width);
    }
  }

  lemma {:induction false} CallSiteListRoundTrip(sites: seq<EncodedCallSite>, order: ByteOrder, width: nat, rest: seq<uint8>)
    requires ValidStringWidth(width) && EncodeCallSiteList(sites, order, width).Ok?
    ensures DecodeCallSiteList(EncodeCallSiteList(sites, order, width).value + rest, order, width, |sites|)
         == Ok(Step(sites, rest))
  {
    if sites == [] {
      assert [] + rest == rest;
    } else {
      var first := EncodeCallSite(sites[0], order, width).value;
      var tail := EncodeCallSiteList(sites[1..], order, width).value;
      assert EncodeCallSiteList(sites, order, width).value == first + tail;
      hide *;
      CallSiteRoundTrip(sites[0], order, width, tail + rest);
      CallSiteListRoundTrip(sites[1..], order, width, rest);
      CallSiteListStep(sites, order, width, first + (tail + rest), tail + rest, rest);
      AppendAssociates(first, tail, rest);
    }
  }

  lemma CallSiteListStep(
    sites: seq<EncodedCallSite>, order: ByteOrder, width: nat, s: seq<uint8>, s1: seq<uint8>, rest: seq<uint8>)
    requires ValidStringWidth(width) && sites != []
    requires DecodeCallSite(s, order, width) == Ok(Step(sites[0], s1))
    requires DecodeCallSiteList(s1, order, width, |sites| - 1) == Ok(Step(sites[1..], rest))
    ensures DecodeCallSiteList(s, order, width, |sites|) == Ok(Step(sites, rest))
  {
    hide DecodeCallSite;
    assert [sites[0]] + sites[1..] == sites;
  }

  lemma CallSitesRoundTrip(sites: seq<EncodedCallSite>, order: ByteOrder, width: nat)
    requires ValidStringWidth(width) && EncodeCallSites(sites, order, width).Ok?
    ensures DecodeCallSites(EncodeCallSites(sites, order, width).value, order, width) == Ok(sites)
  {
    hide DecodeCount, WriteU32, EncodeCallSiteList, DecodeCallSiteList;
    var list := EncodeCallSiteList(sites, order, width).value;
    EncodedCallSiteListSize(sites, order, width);
    CallSiteListRoundTrip(sites, order, width, []);
    assert list + [] == list;
    CountRoundTrip(|sites|, order, MINIMUM_CALL_SITE_SIZE, list);
  }

  // -------------------------------------------------------------------- records

  datatype Record = Record(kind: uint32, payload: seq<uint8>)

  /** The next record, or `None` at the end marker. */
  function NextRecord(s: seq<uint8>, order: ByteOrder): (r: Result<Step<Option<Record>>>)
    ensures r.Ok? ==> |r.value.rest| < |s|
    ensures r.Ok? && r.value.value.Some? ==> |r.value.value.value.payload| < |s|
  {
    var Step(kind, s) :- ReadU32(order, s);
    var Step(length, s) :- ReadU32(order, s);
    if kind == INFO_END then
      if length != 0 then Err(InvalidFormat) else Ok(Step(None, s))
    else
      var Step(payload, s) :- TakeBytes(s, length);
      Ok(Step(Some(Record(kind, payload)), s))
  }

  function EncodeRecord(kind: uint32, payload: seq<uint8>, order: ByteOrder): Result<seq<uint8>> {
    if |payload| >= U32_LIMIT then Err(Limit)
    else Ok(WriteU32(order, kind) + WriteU32(order, |payload|) + payload)
  }

  function EndMarker(order: ByteOrder): seq<uint8> {
    WriteU32(order, INFO_END) + WriteU32(order, 0)
  }

  lemma RecordRoundTrip(kind: uint32, payload: seq<uint8>, order: ByteOrder, rest: seq<uint8>)
    requires kind != INFO_END && EncodeRecord(kind, payload, order).Ok?
    ensures NextRecord(EncodeRecord(kind, payload, order).value + rest, order)
         == Ok(Step(Some(Record(kind, payload)), rest))
  {
    hide ReadU32, WriteU32;
    var tag, length := WriteU32(order, kind), WriteU32(order, |payload|);
    ReadWriteU32(order, kind, length + (payload + rest));
    ReadWriteU32(order, |payload|, payload + rest);
    AppendAssociates(tag + length, payload, rest);
    AppendAssociates(tag, length, payload + rest);
    assert (payload + rest)[..|payload|] == payload && (payload + rest)[|payload|..] == rest;
  }

  lemma EndMarkerRoundTrip(order: ByteOrder, rest: seq<uint8>)
    ensures NextRecord(EndMarker(order) + rest, order) == Ok(Step(None, rest))
  {
    hide ReadU32, WriteU32;
    var tag, length := WriteU32(order, INFO_END), WriteU32(order, 0);
    ReadWriteU32(order, INFO_END, length + rest);
    ReadWriteU32(order, 0, rest);
    AppendAssociates(tag, length, rest);
  }

  // -------------------------------------------------------------------- decoding

  function DecodeInlinePayload(payload: seq<uint8>, order: ByteOrder, width: nat, base: uint64): Result<EncodedInlineNode> {
    var Step(node, rest) :- DecodeInline(payload, order, width, base, 0);
    if node.ranges == [] || rest != [] then Err(InvalidFormat) else Ok(node)
  }

  /** The function with the record's contents filled in.  The fields of the
      kinds not yet seen keep their defaults. */
  function DecodeRecord(record: Record, order: ByteOrder, width: nat, depth: nat, f: EncodedFunction): Result<EncodedFunction>
    requires ValidStringWidth(width)
    decreases |record.payload|, 4
  {
    if record.kind == INFO_LINE_TABLE then
      var lines :- DecodeRows(record.payload, f.range.start);
      Ok(f.(lines := Some(lines)))
    else if record.kind == INFO_INLINE then
      var inline :- DecodeInlinePayload(record.payload, order, width, f.range.start);
      Ok(f.(inline := Some(inline)))
    else if record.kind == INFO_MERGED then
      var merged :- DecodeMerged(record.payload, order, width, f.range.start, depth + 1);
      Ok(f.(merged := merged))
    else if record.kind == INFO_CALL_SITE then
      var sites :- DecodeCallSites(record.payload, order, width);
      Ok(f.(callSites := sites))
    else Err(UnsupportedInfoType)
  }

  /** A known record kind may occur once. */
  function Observe(kind: uint32, seen: set<uint32>): Result<set<uint32>> {
    if kind in seen then Err(InvalidFormat)
    else if INFO_LINE_TABLE <= kind <= INFO_CALL_SITE then Ok(seen + {kind})
    else Ok(seen)
  }

  function DecodeRecords(
      s: seq<uint8>, order: ByteOrder, width: nat, depth: nat, seen: set<uint32>, f: EncodedFunction):
      Result<Step<EncodedFunction>>
    requires ValidStringWidth(width)
    decreases |s|, 5
  {
    var Step(next, rest) :- NextRecord(s, order);
    match next
    case None => Ok(Step(f, rest))
    case Some(record) =>
      var seen' :- Observe(record.kind, seen);
      var f' :- DecodeRecord(record, order, width, depth, f);
      DecodeRecords(rest, order, width, depth, seen', f')
  }

  function DecodeFunction(s: seq<uint8>, order: ByteOrder, width: nat, base: uint64, depth: nat): Result<Step<EncodedFunction>>
    decreases |s|, 6
  {
    if depth > MAX_MERGED_DEPTH then Err(Limit)
    else if !ValidStringWidth(width) then Err(OutOfRange)
    else
      var Step(size, s1) :- ReadU32(order, s);
      var Step(name, s2) :- ReadUint(order, width, s1);
      if name == 0 then Err(ZeroNameOffset)
      else if base + size >= U64_LIMIT then Err(Overflow)
      else
        var f := EncodedFunction(AddressRange(base, base + size), name, None, None, [], []);
        DecodeRecords(s2, order, width, depth, {}, f)
  }

  function DecodeExact(s: seq<uint8>, order: ByteOrder, width: nat, base: uint64, depth: nat): Result<EncodedFunction>
    decreases |s|, 7
  {
    AllConsumed(DecodeFunction(s, order, width, base, depth))
  }

  function DecodeMergedList(s: seq<uint8>, order: ByteOrder, width: nat, base: uint64, depth: nat, count: nat):
      Result<Step<seq<EncodedFunction>>>
    decreases |s|, 1
  {
    if count == 0 then Ok(Step([], s))
    else
      var Step(length, s1) :- ReadU32(order, s);
      var Step(chunk, s2) :- TakeBytes(s1, length);
      var first :- DecodeExact(chunk, order, width, base, depth);
      var Step(tail, rest) :- DecodeMergedList(s2, order, width, base, depth, count - 1);
      Ok(Step([first] + tail, rest))
  }

  function DecodeMergedTable(s: seq<uint8>, order: ByteOrder, width: nat, base: uint64, depth: nat):
      Result<Step<seq<EncodedFunction>>>
    decreases |s|, 2
  {
    var Step(count, s) :- DecodeCount(s, order, 4);
    DecodeMergedList(s, order, width, base, depth, count)
  }

  function DecodeMerged(payload: seq<uint8>, order: ByteOrder, width: nat, base: uint64, depth: nat): Result<seq<EncodedFunction>>
    decreases |payload|, 3
  {
    AllConsumed(DecodeMergedTable(payload, order, width, base, depth))
  }

  // -------------------------------------------------------------------- encoding

  ghost function EncodeLinesPart(f: EncodedFunction, order: ByteOrder): Result<seq<uint8>> {
    match f.lines
    case None => Ok([])
    case Some(lines) =>
      var payload :- EncodeRows(lines, f.range.start);
      EncodeRecord(INFO_LINE_TABLE, payload, order)
  }

  function EncodeInlinePart(f: EncodedFunction, order: ByteOrder, width: nat): Result<seq<uint8>> {
    match f.inline
    case None => Ok([])
    case Some(inline) =>
      var payload :- EncodeInline(inline, order, width, f.range.start, 0);
      EncodeRecord(INFO_INLINE, payload, order)
  }

  ghost function EncodeMergedPart(f: EncodedFunction, order: ByteOrder, width: nat, depth: nat): Result<seq<uint8>>
    decreases f, 1
  {
    if f.merged == [] then Ok([])
    else if |f.merged| >= U32_LIMIT then Err(Limit)
    else
      var list :- EncodeMergedList(f.merged, order, width, f.range.start, depth + 1);
      EncodeRecord(INFO_MERGED, WriteU32(order, |f.merged|) + list, order)
  }

  function EncodeCallSitesPart(f: EncodedFunction, order: ByteOrder, width: nat): Result<seq<uint8>> {
    if f.callSites == [] then Ok([])
    else
      var payload :- EncodeCallSites(f.callSites, order, width);
      EncodeRecord(INFO_CALL_SITE, payload, order)
  }

  function EncodeFunctionHeader(f: EncodedFunction, order: ByteOrder, width: nat): Result<seq<uint8>> {
    if f.name == 0 then Err(ZeroNameOffset)
    else if f.range.end < f.range.start then Err(InvalidModel)
    else if f.range.Size() >= U32_LIMIT then Err(Limit)
    else
      var name :- WriteUint(order, f.name, width);
      Ok(WriteU32(order, f.range.Size()) + name)
  }

  ghost function EncodeFunction(f: EncodedFunction, order: ByteOrder, width: nat, depth: nat): Result<seq<uint8>>
    decreases f, 2
  {
    if depth > MAX_MERGED_DEPTH then Err(Limit)
    else if !ValidStringWidth(width) then Err(OutOfRange)
    else
      var header :- EncodeFunctionHeader(f, order, width);
      var lines :- EncodeLinesPart(f, order);
      var inline :- EncodeInlinePart(f, order, width);
      var merged :- EncodeMergedPart(f, order, width, depth);
      var sites :- EncodeCallSitesPart(f, order, width);
      Ok(header + lines + inline + merged + sites + EndMarker(order))
  }

  ghost function EncodeMergedList(
      merged: seq<EncodedFunction>, order: ByteOrder, width: nat, base: uint64, depth: nat): Result<seq<uint8>>
    decreases merged, 0
  {
    if merged == [] then Ok([])
    else if merged[0].range.start != base then Err(InvalidModel)
    else
      var first :- EncodeFunction(merged[0], order, width, depth);
      if |first| >= U32_LIMIT then Err(Limit)
      else
        var rest :- EncodeMergedList(merged[1..], order, width, base, depth);
        Ok(WriteU32(order, |first|) + first + rest)
  }

  // ------------------------------------------------------------------ round trip

  /** The kinds seen after a part that is written only when present. */
  function Mark(present: bool, kind: uint32, seen: set<uint32>): (after: set<uint32>)
    ensures forall k :: k in after ==> k in seen || k == kind
  {
    if present then seen + {kind} else seen
  }

  /** One record of a kind not yet seen, read back. */
  lemma RecordFills(
    kind: uint32, payload: seq<uint8>, order: ByteOrder, width: nat, depth: nat, seen: set<uint32>,
    f: EncodedFunction, filled: EncodedFunction, rest: seq<uint8>)
    requires ValidStringWidth(width)
    requires INFO_LINE_TABLE <= kind <= INFO_CALL_SITE && kind !in seen
    requires EncodeRecord(kind, payload, order).Ok?
    requires DecodeRecord(Record(kind, payload), order, width, depth, f) == Ok(filled)
    ensures DecodeRecords(EncodeRecord(kind, payload, order).value + rest, order, width, depth, seen, f)
         == DecodeRecords(rest, order, width, depth, seen + {kind}, filled)
  {
    hide NextRecord, EncodeRecord, DecodeRecord;
    RecordRoundTrip(kind, payload, order, rest);
  }

  lemma LinesPartFills(f: EncodedFunction, done: EncodedFunction, order: ByteOrder, width: nat, depth: nat, rest: seq<uint8>)
    requires ValidStringWidth(width) && EncodeLinesPart(f, order).Ok?
    requires done.range == f.range && done.lines == None
    ensures DecodeRecords(EncodeLinesPart(f, order).value + rest, order, width, depth, {}, done)
         == DecodeRecords(rest, order, width, depth, Mark(f.lines.Some?, INFO_LINE_TABLE, {}), done.(lines := f.lines))
  {
    hide DecodeRecords, EncodeRecord;
    match f.lines
    case None =>
      assert [] + rest == rest;
      assert done.(lines := f.lines) == done;
    case Some(lines) =>
      hide EncodeRows, DecodeRows;
      var payload := EncodeRows(lines, f.range.start).value;
      LineRoundTrip(lines, f.range.start, []);
      assert payload + [] == payload;
      RecordFills(INFO_LINE_TABLE, payload, order, width, depth, {}, done, done.(lines := f.lines), rest);
  }

  lemma InlinePartFills(
    f: EncodedFunction, done: EncodedFunction, order: ByteOrder, width: nat, depth: nat, seen: set<uint32>, rest: seq<uint8>)
    requires ValidStringWidth(width) && EncodeInlinePart(f, order, width).Ok?
    requires done.range == f.range && done.inline == None && INFO_INLINE !in seen
    ensures DecodeRecords(EncodeInlinePart(f, order, width).value + rest, order, width, depth, seen, done)
         == DecodeRecords(rest, order, width, depth, Mark(f.inline.Some?, INFO_INLINE, seen), done.(inline := f.inline))
  {
    hide DecodeRecords, EncodeRecord;
    match f.inline
    case None =>
      assert [] + rest == rest;
      assert done.(inline := f.inline) == done;
    case Some(node) =>
      hide EncodeInline, DecodeInline;
      var payload := EncodeInline(node, order, width, f.range.start, 0).value;
      InlineRoundTrip(node, order, width, f.range.start, 0, []);
      EncodedWithinDepth(node, order, width, f.range.start, 0);
      assert payload + [] == payload;
      RecordFills(INFO_INLINE, payload, order, width, depth, seen, done, done.(inline := f.inline), rest);
  }

  lemma MergedPartFills(
    f: EncodedFunction, done: EncodedFunction, order: ByteOrder, width: nat, depth: nat, seen: set<uint32>, rest: seq<uint8>)
    requires ValidStringWidth(width) && EncodeMergedPart(f, order, width, depth).Ok?
    requires done.range == f.range && done.merged == [] && INFO_MERGED !in seen
    ensures DecodeRecords(EncodeMergedPart(f, order, width, depth).value + rest, order, width, depth, seen, done)
         == DecodeRecords(rest, order, width, depth, Mark(f.merged != [], INFO_MERGED, seen), done.(merged := f.merged))
    decreases f, 1
  {
    hide DecodeRecords, EncodeRecord;
    if f.merged == [] {
      assert [] + rest == rest;
      assert done.(merged := f.merged) == done;
    } else {
      hide EncodeMergedList, DecodeMerged, DecodeMergedList, WriteU32;
      var list := EncodeMergedList(f.merged, order, width, f.range.start, depth + 1).value;
      var payload := WriteU32(order, |f.merged|) + list;
      assert EncodeMergedPart(f, order, width, depth) == EncodeRecord(INFO_MERGED, payload, order);
      assert |f.merged| < U32_LIMIT;
      hide *;
      MergedListRoundTrip(f.merged, order, width, f.range.start, depth + 1);
      MergedDecodes(f.merged, order, width, f.range.start, depth + 1, list);
      RecordFills(INFO_MERGED, payload, order, width, depth, seen, done, done.(merged := f.merged), rest);
    }
  }

  lemma MergedDecodes(merged: seq<EncodedFunction>, order: ByteOrder, width: nat, base: uint64, depth: nat, list: seq<uint8>)
    requires |merged| < U32_LIMIT && |list| >= 4 * |merged|
    requires DecodeMergedList(list, order, width, base, depth, |merged|) == Ok(Step(merged, []))
    ensures DecodeMerged(WriteU32(order, |merged|) + list, order, width, base, depth) == Ok(merged)
  {
    hide DecodeCount, WriteU32, DecodeMergedList;
    CountRoundTrip(|merged|, order, 4, list);
  }

  lemma CallSitesPartFills(
    f: EncodedFunction, done: EncodedFunction, order: ByteOrder, width: nat, depth: nat, seen: set<uint32>, rest: seq<uint8>)
    requires ValidStringWidth(width) && EncodeCallSitesPart(f, order, width).Ok?
    requires done.callSites == [] && INFO_CALL_SITE !in seen
    ensures DecodeRecords(EncodeCallSitesPart(f, order, width).value + rest, order, width, depth, seen, done)
         == DecodeRecords(rest, order, width, depth, Mark(f.callSites != [], INFO_CALL_SITE, seen), done.(callSites := f.callSites))
  {
    hide DecodeRecords, EncodeRecord;
    if f.callSites == [] {
      assert [] + rest == rest;
      assert done.(callSites := f.callSites) == done;
    } else {
      hide EncodeCallSites, DecodeCallSites;
      var payload := EncodeCallSites(f.callSites, order, width).value;
      CallSitesRoundTrip(f.callSites, order, width);
      RecordFills(INFO_CALL_SITE, payload, order, width, depth, seen, done, done.(callSites := f.callSites), rest);
    }
  }

  lemma EndMarkerFinishes(order: ByteOrder, width: nat, depth: nat, seen: set<uint32>, f: EncodedFunction, rest: seq<uint8>)
    requires ValidStringWidth(width)
    ensures DecodeRecords(EndMarker(order) + rest, order, width, depth, seen, f) == Ok(Step(f, rest))
  {
    hide NextRecord, EndMarker;
    EndMarkerRoundTrip(order, rest);
  }

  /** The record stream of an encoded function, read from defaults. */
  lemma RecordsRoundTrip(f: EncodedFunction, order: ByteOrder, width: nat, depth: nat, rest: seq<uint8>)
    requires ValidStringWidth(width)
    requires EncodeLinesPart(f, order).Ok? && EncodeInlinePart(f, order, width).Ok?
    requires EncodeMergedPart(f, order, width, depth).Ok? && EncodeCallSitesPart(f, order, width).Ok?
    ensures
      var blank := EncodedFunction(f.range, f.name, None, None, [], []);
      var tail := EncodeLinesPart(f, order).value
        + (EncodeInlinePart(f, order, width).value
           + (EncodeMergedPart(f, order, width, depth).value
              + (EncodeCallSitesPart(f, order, width).value + (EndMarker(order) + rest))));
      DecodeRecords(tail, order, width, depth, {}, blank) == Ok(Step(f, rest))
    decreases f, 2
  {
    var s1 := Mark(f.lines.Some?, INFO_LINE_TABLE, {});
    var s2 := Mark(f.inline.Some?, INFO_INLINE, s1);
    var s3 := Mark(f.merged != [], INFO_MERGED, s2);
    var s4 := Mark(f.callSites != [], INFO_CALL_SITE, s3);
    assert INFO_INLINE !in s1 && INFO_MERGED !in s2 && INFO_CALL_SITE !in s3;
    hide *;
    var f0 := EncodedFunction(f.range, f.name, None, None, [], []);
    var f1 := f0.(lines := f.lines);
    var f2 := f1.(inline := f.inline);
    var f3 := f2.(merged := f.merged);
    assert f3.(callSites := f.callSites) == f;
    var end := EndMarker(order) + rest;
    var sites := EncodeCallSitesPart(f, order, width).value + end;
    var merged := EncodeMergedPart(f, order, width, depth).value + sites;
    var inline := EncodeInlinePart(f, order, width).value + merged;
    LinesPartFills(f, f0, order, width, depth, inline);
    InlinePartFills(f, f1, order, width, depth, s1, merged);
    MergedPartFills(f, f2, order, width, depth, s2, sites);
    CallSitesPartFills(f, f3, order, width, depth, s3, end);
    EndMarkerFinishes(order, width, depth, s4, f, rest);
  }

  lemma HeaderDecodes(f: EncodedFunction, order: ByteOrder, width: nat, depth: nat, rest: seq<uint8>)
    requires depth <= MAX_MERGED_DEPTH && ValidStringWidth(width) && EncodeFunctionHeader(f, order, width).Ok?
    ensures DecodeFunction(EncodeFunctionHeader(f, order, width).value + rest, order, width, f.range.start, depth)
         == DecodeRecords(rest, order, width, depth, {}, EncodedFunction(f.range, f.name, None, None, [], []))
  {
    hide ReadU32, WriteU32, ReadUint, WriteUint, DecodeRecords;
    var size, name := WriteU32(order, f.range.Size()), WriteUint(order, f.name, width).value;
    ReadWriteU32(order, f.range.Size(), name + rest);
    ReadWriteUint(order, f.name, width, rest);
    AppendAssociates(size, name, rest);
    assert f.range == AddressRange(f.range.start, f.range.start + f.range.Size());
  }

  lemma AppendSix(a: seq<uint8>, b: seq<uint8>, c: seq<uint8>, d: seq<uint8>, e: seq<uint8>, g: seq<uint8>, rest: seq<uint8>)
    ensures a + b + c + d + e + g + rest == a + (b + (c + (d + (e + (g + rest)))))
  {
    AppendAssociates(a + b + c + d + e, g, rest);
    AppendAssociates(a + b + c + d, e, g + rest);
    AppendAssociates(a + b + c, d, e + (g + rest));
    AppendAssociates(a + b, c, d + (e + (g + rest)));
    AppendAssociates(a, b, c + (d + (e + (g + rest))));
  }

  /** Whenever encoding a function succeeds, decoding the bytes at its start
      address returns the identical function, lines, inline tree, merged
      functions and call sites included, and consumes exactly those bytes. */
  lemma {:induction false} FunctionRoundTrip(f: EncodedFunction, order: ByteOrder, width: nat, depth: nat, rest: seq<uint8>)
    requires EncodeFunction(f, order, width, depth).Ok?
    ensures DecodeFunction(EncodeFunction(f, order, width, depth).value + rest, order, width, f.range.start, depth)
         == Ok(Step(f, rest))
    decreases f, 3
  {
    var header := EncodeFunctionHeader(f, order, width).value;
    var lines, inline := EncodeLinesPart(f, order).value, EncodeInlinePart(f, order, width).value;
    var merged, sites := EncodeMergedPart(f, order, width, depth).value, EncodeCallSitesPart(f, order, width).value;
    var end := EndMarker(order);
    assert EncodeFunction(f, order, width, depth).value == header + lines + inline + merged + sites + end;
    hide *;
    RecordsRoundTrip(f, order, width, depth, rest);
    AppendSix(header, lines, inline, merged, sites, end, rest);
    HeaderDecodes(f, order, width, depth, lines + (inline + (merged + (sites + (end + rest)))));
  }

  lemma ExactRoundTrip(f: EncodedFunction, order: ByteOrder, width: nat, depth: nat)
    requires EncodeFunction(f, order, width, depth).Ok?
    ensures DecodeExact(EncodeFunction(f, order, width, depth).value, order, width, f.range.start, depth) == Ok(f)
    decreases f, 4
  {
    hide EncodeFunction, DecodeFunction;
    var bytes := EncodeFunction(f, order, width, depth).value;
    FunctionRoundTrip(f, order, width, depth, []);
    assert bytes + [] == bytes;
  }

  lemma {:induction false} MergedListRoundTrip(merged: seq<EncodedFunction>, order: ByteOrder, width: nat, base: uint64, depth: nat)
    requires EncodeMergedList(merged, order, width, base, depth).Ok?
    ensures DecodeMergedList(EncodeMergedList(merged, order, width, base, depth).value, order, width, base, depth, |merged|)
         == Ok(Step(merged, []))
    ensures |EncodeMergedList(merged, order, width, base, depth).value| >= 4 * |merged|
    decreases merged, 0
  {
    hide *;
    if merged == [] {
      MergedListEmpty(order, width, base, depth);
    } else {
      MergedListUnfolds(merged, order, width, base, depth);
      var first := EncodeFunction(merged[0], order, width, depth).value;
      var rest := EncodeMergedList(merged[1..], order, width, base, depth).value;
      ExactRoundTrip(merged[0], order, width, depth);
      MergedListRoundTrip(merged[1..], order, width, base, depth);
      MergedListStep(merged, order, width, base, depth, first, rest);
    }
  }

  lemma MergedListEmpty(order: ByteOrder, width: nat, base: uint64, depth: nat)
    ensures EncodeMergedList([], order, width, base, depth) == Ok([])
    ensures DecodeMergedList([], order, width, base, depth, 0) == Ok(Step([], []))
  {
  }

  lemma {:induction false} MergedListUnfolds(merged: seq<EncodedFunction>, order: ByteOrder, width: nat, base: uint64, depth: nat)
    requires merged != [] && EncodeMergedList(merged, order, width, base, depth).Ok?
    ensures EncodeFunction(merged[0], order, width, depth).Ok? && EncodeMergedList(merged[1..], order, width, base, depth).Ok?
    ensures
      var first := EncodeFunction(merged[0], order, width, depth).value;
      && |first| < U32_LIMIT && merged[0].range.start == base
      && EncodeMergedList(merged, order, width, base, depth).value
        == WriteU32(order, |first|) + first + EncodeMergedList(merged[1..], order, width, base, depth).value
  {
    hide EncodeFunction, WriteU32;
  }

  lemma MergedListStep(
    merged: seq<EncodedFunction>, order: ByteOrder, width: nat, base: uint64, depth: nat, first: seq<uint8>, rest: seq<uint8>)
    requires merged != [] && |first| < U32_LIMIT
    requires DecodeExact(first, order, width, base, depth) == Ok(merged[0])
    requires DecodeMergedList(rest, order, width, base, depth, |merged| - 1) == Ok(Step(merged[1..], []))
    ensures DecodeMergedList(WriteU32(order, |first|) + first + rest, order, width, base, depth, |merged|)
         == Ok(Step(merged, []))
  {
    hide ReadU32, WriteU32, DecodeExact;
    ReadWriteU32(order, |first|, first + rest);
    AppendAssociates(WriteU32(order, |first|), first, rest);
    assert (first + rest)[..|first|] == first && (first + rest)[|first|..] == rest;
    assert [merged[0]] + merged[1..] == merged;
  }
}
