/** The `FunctionInfo` reader and the back-patching writer of
    src/format/function.rs, proved against the functions of FunctionInfo. */
module FunctionCodec {
  import opened Words
  import opened Wrappers
  import opened Wire
  import opened Endian
  import opened Leb
  import opened Model
  import opened Line
  import opened LineCodec
  import opened InlineInfo
  import opened InlineCodec
  import opened FunctionInfo

  // --------------------------------------------------------------------- reading

  method ReadOffsets(cursor: Cursor, width: uint8, count: nat) returns (r: Result<seq<uint64>>)
    requires cursor.Valid()
    modifies cursor
    ensures cursor.Valid()
    ensures Agrees(r, DecodeOffsets(old(cursor.Rest()), cursor.order, width, count), cursor.Rest())
  {
    hide Wire.ReadUint;
    ghost var all := DecodeOffsets(cursor.Rest(), cursor.order, width, count);
    var offsets: seq<uint64> := [];
    JoinedNothing(all);
    for i := 0 to count
      invariant cursor.Valid()
      invariant Joined(offsets, DecodeOffsets(cursor.Rest(), cursor.order, width, count - i)) == all
    {
      var offset :- cursor.ReadUint(width);
      JoinedNext(offsets, offset, DecodeOffsets(cursor.Rest(), cursor.order, width, count - i - 1));
      offsets := offsets + [offset];
    }
    assert offsets + [] == offsets;
    return Ok(offsets);
  }

  method ReadCallSite(cursor: Cursor, width: uint8) returns (r: Result<EncodedCallSite>)
    requires cursor.Valid() && ValidStringWidth(width)
    modifies cursor
    ensures cursor.Valid()
    ensures Agrees(r, DecodeCallSite(old(cursor.Rest()), cursor.order, width), cursor.Rest())
  {
    hide Wire.ReadU64, Wire.ReadU32, DecodeOffsets;
    var returnOffset :- cursor.ReadU64();
    var flags :- cursor.ReadU8();
    var count :- cursor.ReadU32();
    if count > cursor.Remaining() / width {
      return Err(InvalidFormat);
    }
    var regexes :- ReadOffsets(cursor, width, count);
    return Ok(EncodedCallSite(returnOffset, flags, regexes));
  }

  method ReadCount(cursor: Cursor, minimumSize: nat) returns (r: Result<uint32>)
    requires cursor.Valid() && minimumSize > 0
    modifies cursor
    ensures cursor.Valid()
    ensures Agrees(r, DecodeCount(old(cursor.Rest()), cursor.order, minimumSize), cursor.Rest())
  {
    hide Wire.ReadU32;
    var count :- cursor.ReadU32();
    if count > cursor.Remaining() / minimumSize {
      return Err(InvalidFormat);
    }
    return Ok(count);
  }

  method ReadCallSiteList(cursor: Cursor, width: uint8, count: nat) returns (r: Result<seq<EncodedCallSite>>)
    requires cursor.Valid() && ValidStringWidth(width)
    modifies cursor
    ensures cursor.Valid()
    ensures Agrees(r, DecodeCallSiteList(old(cursor.Rest()), cursor.order, width, count), cursor.Rest())
  {
    hide DecodeCallSite;
    ghost var all := DecodeCallSiteList(cursor.Rest(), cursor.order, width, count);
    var sites: seq<EncodedCallSite> := [];
    JoinedNothing(all);
    for i := 0 to count
      invariant cursor.Valid()
      invariant Joined(sites, DecodeCallSiteList(cursor.Rest(), cursor.order, width, count - i)) == all
    {
      var site :- ReadCallSite(cursor, width);
      JoinedNext(sites, site, DecodeCallSiteList(cursor.Rest(), cursor.order, width, count - i - 1));
      sites := sites + [site];
    }
    assert sites + [] == sites;
    return Ok(sites);
  }

  method ReadCallSiteTable(cursor: Cursor, width: uint8) returns (r: Result<seq<EncodedCallSite>>)
    requires cursor.Valid() && ValidStringWidth(width)
    modifies cursor
    ensures cursor.Valid()
    ensures Agrees(r, DecodeCallSiteTable(old(cursor.Rest()), cursor.order, width), cursor.Rest())
  {
    hide DecodeCount, DecodeCallSiteList;
    var count :- ReadCount(cursor, MINIMUM_CALL_SITE_SIZE);
    r := ReadCallSiteList(cursor, width, count);
  }

  method ReadCallSites(payload: seq<uint8>, order: ByteOrder, width: uint8) returns (r: Result<seq<EncodedCallSite>>)
    requires ValidStringWidth(width)
    ensures r == DecodeCallSites(payload, order, width)
  {
    hide DecodeCallSiteTable, DecodeCallSiteList, DecodeCallSite, DecodeCount;
    var cursor := new Cursor(payload, order);
    ghost var want := DecodeCallSiteTable(payload, order, width);
    assert DecodeCallSites(payload, order, width) == AllConsumed(want);
    var sites :- ReadCallSiteTable(cursor, width);
    if !cursor.IsEmpty() {
      return Err(InvalidFormat);
    }
    return Ok(sites);
  }

  /** The next record, or `None` at the end marker. */
  method ReadRecord(cursor: Cursor) returns (r: Result<Option<Record>>)
    requires cursor.Valid()
    modifies cursor
    ensures cursor.Valid()
    ensures Agrees(r, NextRecord(old(cursor.Rest()), cursor.order), cursor.Rest())
  {
    hide Wire.ReadU32;
    var kind :- cursor.ReadU32();
    var length :- cursor.ReadU32();
    if kind == INFO_END {
      if length != 0 {
        return Err(InvalidFormat);
      }
      return Ok(None);
    }
    var payload :- cursor.Take(length);
    return Ok(Some(Record(kind, payload)));
  }

  method ReadInlinePayload(payload: seq<uint8>, order: ByteOrder, width: uint8, base: uint64)
    returns (r: Result<EncodedInlineNode>)
    ensures r == DecodeInlinePayload(payload, order, width, base)
  {
    hide DecodeInline;
    var data := new Cursor(payload, order);
    var inline :- ReadInline(data, width, base, 0);
    if inline.ranges == [] {
      return Err(InvalidFormat);
    }
    if !data.IsEmpty() {
      return Err(InvalidFormat);
    }
    return Ok(inline);
  }

  method ReadPayload(record: Record, order: ByteOrder, width: uint8, depth: nat, f: EncodedFunction)
    returns (r: Result<EncodedFunction>)
    requires ValidStringWidth(width)
    ensures r == DecodeRecord(record, order, width, depth, f)
    decreases |record.payload|, 4
  {
    hide DecodeRows, DecodeInlinePayload, DecodeMerged, DecodeCallSites;
    if record.kind == INFO_LINE_TABLE {
      var lines :- DecodeLines(record.payload, order, f.range.start);
      return Ok(f.(lines := Some(lines)));
    } else if record.kind == INFO_INLINE {
      var inline :- ReadInlinePayload(record.payload, order, width, f.range.start);
      return Ok(f.(inline := Some(inline)));
    } else if record.kind == INFO_MERGED {
      var merged :- ReadMerged(record.payload, order, width, f.range.start, depth + 1);
      return Ok(f.(merged := merged));
    } else if record.kind == INFO_CALL_SITE {
      var sites :- ReadCallSites(record.payload, order, width);
      return Ok(f.(callSites := sites));
    } else {
      return Err(UnsupportedInfoType);
    }
  }

  method ReadRecords(cursor: Cursor, width: uint8, depth: nat, blank: EncodedFunction) returns (r: Result<EncodedFunction>)
    requires cursor.Valid() && ValidStringWidth(width)
    modifies cursor
    ensures cursor.Valid()
    ensures Agrees(r, DecodeRecords(old(cursor.Rest()), cursor.order, width, depth, {}, blank), cursor.Rest())
    decreases |cursor.Rest()|, 5
  {
    hide NextRecord, DecodeRecord, Observe;
    ghost var all := DecodeRecords(cursor.Rest(), cursor.order, width, depth, {}, blank);
    var f, seen := blank, {};
    while true
      invariant cursor.Valid() && |cursor.Rest()| <= |old(cursor.Rest())|
      invariant DecodeRecords(cursor.Rest(), cursor.order, width, depth, seen, f) == all
      decreases |cursor.Rest()|
    {
      var next :- ReadRecord(cursor);
      match next
      case None =>
        return Ok(f);
      case Some(record) =>
        seen :- Observe(record.kind, seen);
        f :- ReadPayload(record, cursor.order, width, depth, f);
    }
  }

  method ReadFunction(cursor: Cursor, width: uint8, base: uint64, depth: nat) returns (r: Result<EncodedFunction>)
    requires cursor.Valid()
    modifies cursor
    ensures cursor.Valid()
    ensures Agrees(r, DecodeFunction(old(cursor.Rest()), cursor.order, width, base, depth), cursor.Rest())
    decreases |cursor.Rest()|, 6
  {
    hide Wire.ReadU32, Wire.ReadUint, DecodeRecords;
    if depth > MAX_MERGED_DEPTH {
      return Err(Limit);
    }
    if !ValidStringWidth(width) {
      return Err(OutOfRange);
    }
    var size :- cursor.ReadU32();
    var name :- cursor.ReadUint(width);
    if name == 0 {
      return Err(ZeroNameOffset);
    }
    if base + size >= U64_LIMIT {
      return Err(Overflow);
    }
    r := ReadRecords(
      cursor, width, depth, EncodedFunction(AddressRange(base, base + size), name, None, None, [], []));
  }

  method ReadExact(bytes: seq<uint8>, order: ByteOrder, width: uint8, base: uint64, depth: nat) returns (r: Result<EncodedFunction>)
    ensures r == DecodeExact(bytes, order, width, base, depth)
    decreases |bytes|, 7
  {
    hide DecodeFunction;
    var cursor := new Cursor(bytes, order);
    var f :- ReadFunction(cursor, width, base, depth);
    if !cursor.IsEmpty() {
      return Err(InvalidFormat);
    }
    return Ok(f);
  }

  method ReadMergedList(cursor: Cursor, width: uint8, base: uint64, depth: nat, count: nat)
    returns (r: Result<seq<EncodedFunction>>)
    requires cursor.Valid()
    modifies cursor
    ensures cursor.Valid()
    ensures Agrees(r, DecodeMergedList(old(cursor.Rest()), cursor.order, width, base, depth, count), cursor.Rest())
    decreases |cursor.Rest()|, 1
  {
    hide Wire.ReadU32, DecodeExact;
    ghost var all := DecodeMergedList(cursor.Rest(), cursor.order, width, base, depth, count);
    var functions: seq<EncodedFunction> := [];
    JoinedNothing(all);
    for i := 0 to count
      invariant cursor.Valid() && |cursor.Rest()| <= |old(cursor.Rest())|
      invariant Joined(functions, DecodeMergedList(cursor.Rest(), cursor.order, width, base, depth, count - i)) == all
    {
      var length :- cursor.ReadU32();
      var data :- cursor.Take(length);
      var f :- ReadExact(data, cursor.order, width, base, depth);
      JoinedNext(functions, f, DecodeMergedList(cursor.Rest(), cursor.order, width, base, depth, count - i - 1));
      functions := functions + [f];
    }
    assert functions + [] == functions;
    return Ok(functions);
  }

  method ReadMergedTable(cursor: Cursor, width: uint8, base: uint64, depth: nat) returns (r: Result<seq<EncodedFunction>>)
    requires cursor.Valid()
    modifies cursor
    ensures cursor.Valid()
    ensures Agrees(r, DecodeMergedTable(old(cursor.Rest()), cursor.order, width, base, depth), cursor.Rest())
    decreases |cursor.Rest()|, 2
  {
    hide DecodeCount, DecodeMergedList;
    var count :- ReadCount(cursor, 4);
    r := ReadMergedList(cursor, width, base, depth, count);
  }

  method ReadMerged(payload: seq<uint8>, order: ByteOrder, width: uint8, base: uint64, depth: nat)
    returns (r: Result<seq<EncodedFunction>>)
    ensures r == DecodeMerged(payload, order, width, base, depth)
    decreases |payload|, 3
  {
    hide DecodeMergedTable;
    var cursor := new Cursor(payload, order);
    var functions :- ReadMergedTable(cursor, width, base, depth);
    if !cursor.IsEmpty() {
      return Err(InvalidFormat);
    }
    return Ok(functions);
  }

  // --------------------------------------------------------------------- writing

  /** Opens a record whose length is not known yet. */
  method BeginRecord(output: Encoder, kind: uint32) returns (lengthOffset: nat)
    modifies output
    ensures lengthOffset == |old(output.bytes)| + 4
    ensures output.bytes == old(output.bytes) + WriteU32(output.order, kind) + WriteU32(output.order, 0)
  {
    output.WriteU32(kind);
    lengthOffset := |output.bytes|;
    output.WriteU32(0);
  }

  /** Patches the length of everything written after a placeholder. */
  method PatchLength(output: Encoder, lengthOffset: nat, ghost before: seq<uint8>, ghost payload: seq<uint8>)
    returns (r: Result<Unit>)
    requires lengthOffset == |before|
    requires output.bytes == before + WriteU32(output.order, 0) + payload
    modifies output
    ensures r == if |payload| < U32_LIMIT then Ok(Unit) else Err(Limit)
    ensures r.Ok? ==> output.bytes == before + WriteU32(output.order, |payload|) + payload
  {
    hide WriteU32;
    var length := |output.bytes| - (lengthOffset + 4);
    if length >= U32_LIMIT {
      return Err(Limit);
    }
    PatchedBytes(before, WriteU32(output.order, 0), payload);
    r := output.PatchU32(lengthOffset, length);
  }

  lemma PatchedBytes(before: seq<uint8>, placeholder: seq<uint8>, payload: seq<uint8>)
    requires |placeholder| == 4
    ensures (before + placeholder + payload)[..|before|] == before
    ensures (before + placeholder + payload)[|before| + 4..] == payload
  {
  }

  method EndRecord(output: Encoder, kind: uint32, lengthOffset: nat, ghost before: seq<uint8>, ghost payload: seq<uint8>)
    returns (r: Result<Unit>)
    requires lengthOffset == |before| + 4
    requires output.bytes == before + WriteU32(output.order, kind) + WriteU32(output.order, 0) + payload
    modifies output
    ensures Wrote(r, EncodeRecord(kind, payload, output.order), before, output.bytes)
  {
    hide WriteU32;
    ghost var tagged := before + WriteU32(output.order, kind);
    r := PatchLength(output, lengthOffset, tagged, payload);
    ThreeParts(before, WriteU32(output.order, kind), WriteU32(output.order, |payload| % U32_LIMIT), payload);
  }

  lemma ThreeParts(a: seq<uint8>, b: seq<uint8>, c: seq<uint8>, d: seq<uint8>)
    ensures a + b + c + d == a + (b + c + d)
  {
  }

  method WriteOffsets(output: Encoder, offsets: seq<uint64>, width: uint8) returns (r: Result<Unit>)
    modifies output
    ensures Wrote(r, EncodeOffsets(offsets, output.order, width), old(output.bytes), output.bytes)
  {
    hide Wire.WriteUint;
    ghost var all := EncodeOffsets(offsets, output.order, width);
    ghost var done: seq<uint8> := [];
    AppendedNothing(all);
    assert offsets[0..] == offsets;
    for i := 0 to |offsets|
      invariant output.bytes == old(output.bytes) + done
      invariant Appended(done, EncodeOffsets(offsets[i..], output.order, width)) == all
    {
      assert offsets[i..][1..] == offsets[i + 1..];
      ghost var written := Wire.WriteUint(output.order, offsets[i], width);
      var _ :- output.WriteUint(offsets[i], width);
      AppendedNext(done, written.value, EncodeOffsets(offsets[i + 1..], output.order, width));
      done := done + written.value;
    }
    return Ok(Unit);
  }

  method WriteCallSite(output: Encoder, site: EncodedCallSite, width: uint8) returns (r: Result<Unit>)
    modifies output
    ensures Wrote(r, EncodeCallSite(site, output.order, width), old(output.bytes), output.bytes)
  {
    hide Wire.WriteU64, Wire.WriteU32, EncodeOffsets;
    output.WriteU64(site.returnOffset);
    output.WriteU8(site.flags);
    if |site.matchRegex| >= U32_LIMIT {
      return Err(Limit);
    }
    output.WriteU32(|site.matchRegex|);
    var _ :- WriteOffsets(output, site.matchRegex, width);
    return Ok(Unit);
  }

  method WriteCallSites(output: Encoder, sites: seq<EncodedCallSite>, width: uint8) returns (r: Result<Unit>)
    modifies output
    ensures Wrote(r, EncodeCallSites(sites, output.order, width), old(output.bytes), output.bytes)
  {
    hide Wire.WriteU32, EncodeCallSite;
    if |sites| >= U32_LIMIT {
      return Err(Limit);
    }
    output.WriteU32(|sites|);
    ghost var header := output.bytes;
    ghost var all := EncodeCallSiteList(sites, output.order, width);
    ghost var done: seq<uint8> := [];
    AppendedNothing(all);
    assert sites[0..] == sites;
    for i := 0 to |sites|
      invariant output.bytes == header + done
      invariant Appended(done, EncodeCallSiteList(sites[i..], output.order, width)) == all
    {
      assert sites[i..][1..] == sites[i + 1..];
      ghost var written := EncodeCallSite(sites[i], output.order, width);
      var _ :- WriteCallSite(output, sites[i], width);
      AppendedNext(done, written.value, EncodeCallSiteList(sites[i + 1..], output.order, width));
      done := done + written.value;
    }
    return Ok(Unit);
  }

  method WriteLinesPart(output: Encoder, f: EncodedFunction) returns (r: Result<Unit>)
    modifies output
    ensures Wrote(r, EncodeLinesPart(f, output.order), old(output.bytes), output.bytes)
  {
    hide EncodeRows, EncodeRecord, WriteU32;
    match f.lines
    case None =>
      assert output.bytes + [] == output.bytes;
      return Ok(Unit);
    case Some(lines) =>
      ghost var payload := EncodeRows(lines, f.range.start);
      var lengthOffset := BeginRecord(output, INFO_LINE_TABLE);
      var _ :- EncodeLines(lines, output, f.range.start);
      r := EndRecord(output, INFO_LINE_TABLE, lengthOffset, old(output.bytes), payload.value);
  }

  method WriteInlinePart(output: Encoder, f: EncodedFunction, width: uint8) returns (r: Result<Unit>)
    modifies output
    ensures Wrote(r, EncodeInlinePart(f, output.order, width), old(output.bytes), output.bytes)
  {
    hide EncodeInline, EncodeRecord, WriteU32;
    match f.inline
    case None =>
      assert output.bytes + [] == output.bytes;
      return Ok(Unit);
    case Some(node) =>
      ghost var payload := EncodeInline(node, output.order, width, f.range.start, 0);
      var lengthOffset := BeginRecord(output, INFO_INLINE);
      var _ :- WriteInline(output, node, width, f.range.start, 0);
      r := EndRecord(output, INFO_INLINE, lengthOffset, old(output.bytes), payload.value);
  }

  method WriteMergedPart(output: Encoder, f: EncodedFunction, width: uint8, depth: nat) returns (r: Result<Unit>)
    modifies output
    ensures Wrote(r, EncodeMergedPart(f, output.order, width, depth), old(output.bytes), output.bytes)
    decreases f, 1
  {
    hide EncodeMergedList, EncodeRecord, WriteU32;
    if f.merged == [] {
      assert output.bytes + [] == output.bytes;
      return Ok(Unit);
    }
    var lengthOffset := BeginRecord(output, INFO_MERGED);
    if |f.merged| >= U32_LIMIT {
      return Err(Limit);
    }
    ghost var started := output.bytes;
    ghost var list := EncodeMergedList(f.merged, output.order, width, f.range.start, depth + 1);
    output.WriteU32(|f.merged|);
    var _ :- WriteMergedList(output, f.merged, width, f.range.start, depth + 1);
    ghost var payload := WriteU32(output.order, |f.merged|) + list.value;
    AppendAssociates(started, WriteU32(output.order, |f.merged|), list.value);
    r := EndRecord(output, INFO_MERGED, lengthOffset, old(output.bytes), payload);
  }

  method WriteCallSitesPart(output: Encoder, f: EncodedFunction, width: uint8) returns (r: Result<Unit>)
    modifies output
    ensures Wrote(r, EncodeCallSitesPart(f, output.order, width), old(output.bytes), output.bytes)
  {
    hide EncodeCallSites, EncodeRecord, WriteU32;
    if f.callSites == [] {
      assert output.bytes + [] == output.bytes;
      return Ok(Unit);
    }
    ghost var payload := EncodeCallSites(f.callSites, output.order, width);
    var lengthOffset := BeginRecord(output, INFO_CALL_SITE);
    var _ :- WriteCallSites(output, f.callSites, width);
    r := EndRecord(output, INFO_CALL_SITE, lengthOffset, old(output.bytes), payload.value);
  }

  method WriteFunctionHeader(output: Encoder, f: EncodedFunction, width: uint8) returns (r: Result<Unit>)
    modifies output
    ensures Wrote(r, EncodeFunctionHeader(f, output.order, width), old(output.bytes), output.bytes)
  {
    hide Wire.WriteUint, Wire.WriteU32;
    if f.name == 0 {
      return Err(ZeroNameOffset);
    }
    if f.range.end < f.range.start {
      return Err(InvalidModel);
    }
    var size := f.range.Size();
    if size >= U32_LIMIT {
      return Err(Limit);
    }
    output.WriteU32(size);
    var _ :- output.WriteUint(f.name, width);
    return Ok(Unit);
  }

  /** `encode_into_at` without the alignment flag, which no caller sets. */
  method WriteFunction(output: Encoder, f: EncodedFunction, width: uint8, depth: nat) returns (r: Result<Unit>)
    modifies output
    ensures Wrote(r, EncodeFunction(f, output.order, width, depth), old(output.bytes), output.bytes)
    decreases f, 2
  {
    hide EncodeFunctionHeader, EncodeLinesPart, EncodeInlinePart, EncodeMergedPart, EncodeCallSitesPart, WriteU32;
    if depth > MAX_MERGED_DEPTH {
      return Err(Limit);
    }
    if !ValidStringWidth(width) {
      return Err(OutOfRange);
    }
    ghost var start := output.bytes;
    var _ :- WriteFunctionHeader(output, f, width);
    var _ :- WriteLinesPart(output, f);
    var _ :- WriteInlinePart(output, f, width);
    var _ :- WriteMergedPart(output, f, width, depth);
    var _ :- WriteCallSitesPart(output, f, width);
    output.WriteU32(INFO_END);
    output.WriteU32(0);
    return Ok(Unit);
  }

  method WriteMergedList(output: Encoder, merged: seq<EncodedFunction>, width: uint8, base: uint64, depth: nat)
    returns (r: Result<Unit>)
    modifies output
    ensures Wrote(r, EncodeMergedList(merged, output.order, width, base, depth), old(output.bytes), output.bytes)
    decreases merged, 0
  {
    hide EncodeFunction, WriteU32;
    ghost var all := EncodeMergedList(merged, output.order, width, base, depth);
    ghost var done: seq<uint8> := [];
    AppendedNothing(all);
    assert merged[0..] == merged;
    for i := 0 to |merged|
      invariant output.bytes == old(output.bytes) + done
      invariant Appended(done, EncodeMergedList(merged[i..], output.order, width, base, depth)) == all
    {
      var f := merged[i];
      assert merged[i..][1..] == merged[i + 1..];
      if f.range.start != base {
        return Err(InvalidModel);
      }
      ghost var before := output.bytes;
      ghost var first := EncodeFunction(f, output.order, width, depth);
      var lengthOffset := |output.bytes|;
      output.WriteU32(0);
      var _ :- WriteFunction(output, f, width, depth);
      var _ :- PatchLength(output, lengthOffset, before, first.value);
      ghost var written := WriteU32(output.order, |first.value|) + first.value;
      AppendedNext(done, written, EncodeMergedList(merged[i + 1..], output.order, width, base, depth));
      AppendAssociates(before, WriteU32(output.order, |first.value|), first.value);
      AppendAssociates(old(output.bytes), done, written);
      done := done + written;
    }
    return Ok(Unit);
  }
}
