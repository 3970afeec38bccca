/** The recursive inline-tree reader and writer of src/format/function.rs over
    the cursor and the encoder, proved against the functions of InlineInfo. */
module InlineCodec {
  import opened Words
  import opened Wrappers
  import opened Wire
  import opened Endian
  import opened Leb
  import opened Model
  import opened InlineInfo

  function LastEnd(ranges: seq<AddressRange>): uint64 {
    if ranges == [] then 0 else ranges[|ranges| - 1].end
  }

  method ReadRanges(cursor: Cursor, base: uint64) returns (r: Result<seq<AddressRange>>)
    requires cursor.Valid()
    modifies cursor
    ensures cursor.Valid()
    ensures Agrees(r, DecodeRanges(old(cursor.Rest()), base), cursor.Rest())
  {
    hide ReadUlebBits;
    var count :- ReadUlebBounded(cursor, 64);
    if count > cursor.Remaining() / 2 {
      return Err(InvalidFormat);
    }
    r := ReadRangeList(cursor, count, base);
  }

  method ReadRange(cursor: Cursor, base: uint64) returns (r: Result<AddressRange>)
    requires cursor.Valid()
    modifies cursor
    ensures cursor.Valid()
    ensures Agrees(r, DecodeRange(old(cursor.Rest()), base), cursor.Rest())
  {
    hide ReadUlebBits;
    var offset :- ReadUlebBounded(cursor, 64);
    if base + offset >= U64_LIMIT {
      return Err(Overflow);
    }
    var start := base + offset;
    var size :- ReadUlebBounded(cursor, 64);
    if start + size >= U64_LIMIT {
      return Err(Overflow);
    }
    return Ok(AddressRange(start, start + size));
  }

  method ReadRangeList(cursor: Cursor, count: nat, base: uint64) returns (r: Result<seq<AddressRange>>)
    requires cursor.Valid()
    modifies cursor
    ensures cursor.Valid()
    ensures Agrees(r, DecodeRangeList(old(cursor.Rest()), count, base, 0), cursor.Rest())
  {
    hide DecodeRange;
    ghost var all := DecodeRangeList(cursor.Rest(), count, base, 0);
    var ranges: seq<AddressRange> := [];
    JoinedNothing(all);
    for i := 0 to count
      invariant cursor.Valid()
      invariant Joined(ranges, DecodeRangeList(cursor.Rest(), count - i, base, LastEnd(ranges))) == all
    {
      var range :- ReadRange(cursor, base);
      if ranges != [] && range.start < ranges[|ranges| - 1].end {
        return Err(InvalidFormat);
      }
      JoinedNext(ranges, range, DecodeRangeList(cursor.Rest(), count - i - 1, base, range.end));
      ranges := ranges + [range];
    }
    assert ranges + [] == ranges;
    return Ok(ranges);
  }

  method WriteRanges(output: Encoder, ranges: seq<AddressRange>, base: uint64) returns (r: Result<Unit>)
    modifies output
    ensures Wrote(r, EncodeRanges(ranges, base), old(output.bytes), output.bytes)
  {
    hide UlebBytes;
    if |ranges| >= U64_LIMIT {
      return Err(Overflow);
    }
    WriteUleb(output, |ranges|);
    ghost var all := EncodeRangeList(ranges, base, 0);
    ghost var header := output.bytes;
    ghost var done: seq<uint8> := [];
    var previousEnd: uint64 := 0;
    AppendedNothing(all);
    assert ranges[0..] == ranges;
    for i := 0 to |ranges|
      invariant output.bytes == header + done
      invariant Appended(done, EncodeRangeList(ranges[i..], base, previousEnd)) == all
    {
      var range := ranges[i];
      assert ranges[i..][1..] == ranges[i + 1..];
      if range.start < base || range.end < range.start {
        return Err(InvalidModel);
      }
      if range.start < previousEnd {
        return Err(InvalidModel);
      }
      WriteUleb(output, range.start - base);
      WriteUleb(output, range.end - range.start);
      ghost var written := UlebBytes(range.start - base) + UlebBytes(range.end - range.start);
      AppendedNext(done, written, EncodeRangeList(ranges[i + 1..], base, range.end));
      done := done + written;
      previousEnd := range.end;
    }
    return Ok(Unit);
  }

  method ReadRawHeader(cursor: Cursor, width: uint8) returns (r: Result<RawHeader>)
    requires cursor.Valid()
    modifies cursor
    ensures cursor.Valid()
    ensures Agrees(r, DecodeRawHeader(old(cursor.Rest()), cursor.order, width), cursor.Rest())
  {
    hide ReadUlebBits, Wire.ReadUint;
    var flag :- cursor.ReadU8();
    var name :- cursor.ReadUint(width);
    var callFile :- ReadUlebBounded(cursor, 64);
    var callLine :- ReadUlebBounded(cursor, 64);
    return Ok(RawHeader(flag != 0, name, callFile, callLine));
  }

  method ReadHeader(cursor: Cursor, width: uint8) returns (r: Result<Header>)
    requires cursor.Valid()
    modifies cursor
    ensures cursor.Valid()
    ensures Agrees(r, DecodeHeader(old(cursor.Rest()), cursor.order, width), cursor.Rest())
  {
    hide DecodeRawHeader;
    var raw :- ReadRawHeader(cursor, width);
    var header :- Narrow(raw);
    return Ok(header);
  }

  method WriteHeader(output: Encoder, header: Header, width: uint8) returns (r: Result<Unit>)
    modifies output
    ensures Wrote(r, EncodeHeader(header, output.order, width), old(output.bytes), output.bytes)
  {
    hide UlebBytes, Wire.WriteUint;
    output.WriteU8(if header.hasChildren then 1 else 0);
    var _ :- output.WriteUint(header.name, width);
    WriteUleb(output, header.callFile);
    WriteUleb(output, header.callLine);
    return Ok(Unit);
  }

  method ReadInline(cursor: Cursor, width: uint8, base: uint64, depth: nat) returns (r: Result<EncodedInlineNode>)
    requires cursor.Valid()
    modifies cursor
    ensures cursor.Valid()
    ensures Agrees(r, DecodeInline(old(cursor.Rest()), cursor.order, width, base, depth), cursor.Rest())
    decreases |cursor.Rest()|, 0
  {
    hide DecodeRanges, DecodeHeader, DecodeChildren;
    if depth > MAX_INLINE_DEPTH {
      return Err(Limit);
    }
    var ranges :- ReadRanges(cursor, base);
    if ranges == [] {
      return Ok(TERMINATOR);
    }
    var header :- ReadHeader(cursor, width);
    var children: seq<EncodedInlineNode> := [];
    if header.hasChildren {
      children :- ReadChildren(cursor, width, ranges, depth + 1);
    }
    return Ok(EncodedInlineNode(ranges, header.name, header.callFile, header.callLine, children));
  }

  method ReadChildren(cursor: Cursor, width: uint8, parents: seq<AddressRange>, depth: nat)
    returns (r: Result<seq<EncodedInlineNode>>)
    requires cursor.Valid() && parents != []
    modifies cursor
    ensures cursor.Valid()
    ensures Agrees(r, DecodeChildren(old(cursor.Rest()), cursor.order, width, parents, depth), cursor.Rest())
    decreases |cursor.Rest()|, 1
  {
    hide DecodeInline, AllWithin;
    ghost var all := DecodeChildren(cursor.Rest(), cursor.order, width, parents, depth);
    var children: seq<EncodedInlineNode> := [];
    JoinedNothing(all);
    while true
      invariant cursor.Valid() && |cursor.Rest()| <= |old(cursor.Rest())|
      invariant Joined(children, DecodeChildren(cursor.Rest(), cursor.order, width, parents, depth)) == all
      decreases |cursor.Rest()|
    {
      ghost var before := cursor.Rest();
      var child :- ReadInline(cursor, width, parents[0].start, depth);
      if child.ranges == [] {
        break;
      }
      if !AllWithin(child.ranges, parents) {
        return Err(InvalidFormat);
      }
      JoinedNext(children, child, DecodeChildren(cursor.Rest(), cursor.order, width, parents, depth));
      children := children + [child];
    }
    assert children + [] == children;
    return Ok(children);
  }

  method WriteInline(output: Encoder, node: EncodedInlineNode, width: uint8, base: uint64, depth: nat) returns (r: Result<Unit>)
    modifies output
    ensures Wrote(r, EncodeInline(node, output.order, width, base, depth), old(output.bytes), output.bytes)
    decreases node, 1
  {
    hide EncodeRanges, EncodeHeader, EncodeChildren;
    if depth > MAX_INLINE_DEPTH {
      return Err(Limit);
    }
    if node.ranges == [] {
      return Err(InvalidModel);
    }
    var _ :- WriteRanges(output, node.ranges, base);
    var _ :- WriteHeader(output, HeaderOf(node), width);
    if node.children != [] {
      var _ :- WriteChildren(output, node.children, width, node.ranges, depth + 1);
    }
    return Ok(Unit);
  }

  method WriteChildren(output: Encoder, children: seq<EncodedInlineNode>, width: uint8, parents: seq<AddressRange>, depth: nat)
    returns (r: Result<Unit>)
    requires parents != []
    modifies output
    ensures Wrote(r, EncodeChildren(children, output.order, width, parents, depth), old(output.bytes), output.bytes)
    decreases children, 0
  {
    hide EncodeInline, AllWithin, UlebBytes;
    ghost var all := EncodeChildren(children, output.order, width, parents, depth);
    ghost var done: seq<uint8> := [];
    AppendedNothing(all);
    assert children[0..] == children;
    for i := 0 to |children|
      invariant output.bytes == old(output.bytes) + done
      invariant Appended(done, EncodeChildren(children[i..], output.order, width, parents, depth)) == all
    {
      var child := children[i];
      assert children[i..][1..] == children[i + 1..];
      if !AllWithin(child.ranges, parents) {
        return Err(InvalidModel);
      }
      ghost var written := EncodeInline(child, output.order, width, parents[0].start, depth);
      var _ :- WriteInline(output, child, width, parents[0].start, depth);
      AppendedNext(done, written.value, EncodeChildren(children[i + 1..], output.order, width, parents, depth));
      done := done + written.value;
    }
    WriteUleb(output, 0);
    return Ok(Unit);
  }
}
