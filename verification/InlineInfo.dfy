/** The terminator-delimited inline tree of src/format/function.rs. */
module InlineInfo {
  import opened Words
  import opened Wrappers
  import opened Wire
  import opened Leb
  import opened Model

  /** An inline node whose name is a string-table offset. */
  datatype EncodedInlineNode = EncodedInlineNode(
    ranges: seq<AddressRange>,
    name: uint64,
    callFile: uint32,
    callLine: uint32,
    children: seq<EncodedInlineNode>
  )

  const TERMINATOR := EncodedInlineNode([], 0, 0, 0, [])

  // ------------------------------------------------------------ address ranges

  function DecodeRange(s: seq<uint8>, base: uint64): (r: Result<Step<AddressRange>>)
    ensures r.Ok? ==> |r.value.rest| < |s|
  {
    var Step(offset, s) :- ReadUleb(s);
    if base + offset >= U64_LIMIT then Err(Overflow)
    else
      var Step(size, s) :- ReadUleb(s);
      if base + offset + size >= U64_LIMIT then Err(Overflow)
      else Ok(Step(AddressRange(base + offset, base + offset + size), s))
  }

  /** `count` ranges relative to `base`, none starting below `floor`. */
  function DecodeRangeList(s: seq<uint8>, count: nat, base: uint64, floor: uint64): (r: Result<Step<seq<AddressRange>>>)
    ensures r.Ok? ==> |r.value.rest| <= |s| && |r.value.value| == count
    decreases count
  {
    if count == 0 then Ok(Step([], s))
    else
      var Step(range, s1) :- DecodeRange(s, base);
      if range.start < floor then Err(InvalidFormat)
      else
        var Step(tail, rest) :- DecodeRangeList(s1, count - 1, base, range.end);
        Ok(Step([range] + tail, rest))
  }

  function DecodeRanges(s: seq<uint8>, base: uint64): (r: Result<Step<seq<AddressRange>>>)
    ensures r.Ok? ==> |r.value.rest| < |s|
  {
    var Step(count, s) :- ReadUleb(s);
    if count > |s| / 2 then Err(InvalidFormat) else DecodeRangeList(s, count, base, 0)
  }

  function EncodeRangeList(ranges: seq<AddressRange>, base: uint64, floor: uint64): (r: Result<seq<uint8>>)
    decreases |ranges|
  {
    if ranges == [] then Ok([])
    else
      var range := ranges[0];
      if range.start < base || range.end < range.start || range.start < floor then Err(InvalidModel)
      else
        var tail :- EncodeRangeList(ranges[1..], base, range.end);
        Ok(UlebBytes(range.start - base) + UlebBytes(range.end - range.start) + tail)
  }

  function EncodeRanges(ranges: seq<AddressRange>, base: uint64): Result<seq<uint8>> {
    if |ranges| >= U64_LIMIT then Err(Overflow)
    else
      var list :- EncodeRangeList(ranges, base, 0);
      Ok(UlebBytes(|ranges|) + list)
  }

  lemma {:induction false} EncodedRangeListSize(ranges: seq<AddressRange>, base: uint64, floor: uint64)
    requires EncodeRangeList(ranges, base, floor).Ok?
    ensures |EncodeRangeList(ranges, base, floor).value| >= 2 * |ranges|
    decreases |ranges|
  {
    if ranges != [] {
      EncodedRangeListSize(ranges[1..], base, ranges[0].end);
    }
  }

  lemma RangeDecodes(range: AddressRange, base: uint64, rest: seq<uint8>)
    requires base <= range.start <= range.end
    ensures DecodeRange(UlebBytes(range.start - base) + (UlebBytes(range.end - range.start) + rest), base)
         == Ok(Step(range, rest))
  {
    hide UlebBytes, ReadUleb;
    UlebInverse(range.start - base, UlebBytes(range.end - range.start) + rest);
    UlebInverse(range.end - range.start, rest);
  }

  lemma OneRangeDecodes(range: AddressRange, base: uint64, floor: uint64, count: nat, rest: seq<uint8>)
    requires base <= range.start <= range.end && floor <= range.start && count > 0
    ensures
      DecodeRangeList(UlebBytes(range.start - base) + (UlebBytes(range.end - range.start) + rest), count, base, floor)
        == Joined([range], DecodeRangeList(rest, count - 1, base, range.end))
  {
    hide UlebBytes, DecodeRange;
    RangeDecodes(range, base, rest);
  }

  lemma {:induction false} RangeListRoundTrip(ranges: seq<AddressRange>, base: uint64, floor: uint64, rest: seq<uint8>)
    requires EncodeRangeList(ranges, base, floor).Ok?
    ensures DecodeRangeList(EncodeRangeList(ranges, base, floor).value + rest, |ranges|, base, floor)
         == Ok(Step(ranges, rest))
    decreases |ranges|
  {
    hide UlebBytes, EncodeRangeList, DecodeRangeList;
    if ranges == [] {
      NoRangesDecode(base, floor, rest);
    } else {
      var range := ranges[0];
      RangeListParts(ranges, base, floor);
      var tail := EncodeRangeList(ranges[1..], base, range.end).value;
      var start, size := UlebBytes(range.start - base), UlebBytes(range.end - range.start);
      RangeListRoundTrip(ranges[1..], base, range.end, rest);
      OneRangeDecodes(range, base, floor, |ranges|, tail + rest);
      AppendAssociates(start + size, tail, rest);
      AppendAssociates(start, size, tail + rest);
      assert [range] + ranges[1..] == ranges;
    }
  }

  lemma NoRangesDecode(base: uint64, floor: uint64, rest: seq<uint8>)
    ensures EncodeRangeList([], base, floor) == Ok([])
    ensures DecodeRangeList([] + rest, 0, base, floor) == Ok(Step([], rest))
  {
    assert [] + rest == rest;
  }

  /** An encoded list is its first range, start and size, before the others. */
  lemma RangeListParts(ranges: seq<AddressRange>, base: uint64, floor: uint64)
    requires ranges != [] && EncodeRangeList(ranges, base, floor).Ok?
    ensures
      var range := ranges[0];
      && base <= range.start <= range.end && floor <= range.start
      && EncodeRangeList(ranges[1..], base, range.end).Ok?
      && EncodeRangeList(ranges, base, floor).value
         == UlebBytes(range.start - base) + UlebBytes(range.end - range.start) + EncodeRangeList(ranges[1..], base, range.end).value
  {
    hide UlebBytes;
  }

  lemma RangesRoundTrip(ranges: seq<AddressRange>, base: uint64, rest: seq<uint8>)
    requires EncodeRanges(ranges, base).Ok?
    ensures DecodeRanges(EncodeRanges(ranges, base).value + rest, base) == Ok(Step(ranges, rest))
  {
    hide UlebBytes, ReadUleb, DecodeRangeList, EncodeRangeList;
    var list := EncodeRangeList(ranges, base, 0).value;
    EncodedRangeListSize(ranges, base, 0);
    RangeListRoundTrip(ranges, base, 0, rest);
    UlebInverse(|ranges|, list + rest);
    AppendAssociates(UlebBytes(|ranges|), list, rest);
  }

  // ------------------------------------------------------------------ the tree

  /** What follows the ranges of a node and precedes its children. */
  datatype Header = Header(hasChildren: bool, name: uint64, callFile: uint32, callLine: uint32)

  /** The same fields before the call site is narrowed to 32 bits. */
  datatype RawHeader = RawHeader(hasChildren: bool, name: uint64, callFile: uint64, callLine: uint64)

  function DecodeRawHeader(s: seq<uint8>, order: ByteOrder, width: nat): (r: Result<Step<RawHeader>>)
    ensures r.Ok? ==> |r.value.rest| < |s|
  {
    var Step(flag, s) :- ReadU8(s);
    var Step(name, s) :- ReadUint(order, width, s);
    var Step(callFile, s) :- ReadUleb(s);
    var Step(callLine, s) :- ReadUleb(s);
    Ok(Step(RawHeader(flag != 0, name, callFile, callLine), s))
  }

  function Narrow(raw: RawHeader): Result<Header> {
    if raw.callFile >= U32_LIMIT || raw.callLine >= U32_LIMIT then Err(OutOfRange)
    else Ok(Header(raw.hasChildren, raw.name, raw.callFile, raw.callLine))
  }

  function DecodeHeader(s: seq<uint8>, order: ByteOrder, width: nat): (r: Result<Step<Header>>)
    ensures r.Ok? ==> |r.value.rest| < |s|
  {
    var Step(raw, s) :- DecodeRawHeader(s, order, width);
    var header :- Narrow(raw);
    Ok(Step(header, s))
  }

  function EncodeHeader(header: Header, order: ByteOrder, width: nat): Result<seq<uint8>> {
    var name :- WriteUint(order, header.name, width);
    Ok([if header.hasChildren then 1 else 0] + name + UlebBytes(header.callFile) + UlebBytes(header.callLine))
  }

  predicate AllWithin(ranges: seq<AddressRange>, parents: seq<AddressRange>) {
    forall range :: range in ranges ==> Within(range, parents)
  }

  function DecodeInline(s: seq<uint8>, order: ByteOrder, width: nat, base: uint64, depth: nat): (r: Result<Step<EncodedInlineNode>>)
    ensures r.Ok? ==> |r.value.rest| < |s|
    decreases |s|, 0
  {
    if depth > MAX_INLINE_DEPTH then Err(Limit)
    else
      var Step(ranges, s1) :- DecodeRanges(s, base);
      if ranges == [] then Ok(Step(TERMINATOR, s1))
      else
        var Step(header, s2) :- DecodeHeader(s1, order, width);
        var Step(children, rest) :-
          if header.hasChildren then DecodeChildren(s2, order, width, ranges, depth + 1) else Ok(Step([], s2));
        Ok(Step(EncodedInlineNode(ranges, header.name, header.callFile, header.callLine, children), rest))
  }

  /** Children up to the terminator, each inside the ranges of the parent. */
  function DecodeChildren(s: seq<uint8>, order: ByteOrder, width: nat, parents: seq<AddressRange>, depth: nat):
      (r: Result<Step<seq<EncodedInlineNode>>>)
    requires parents != []
    ensures r.Ok? ==> |r.value.rest| <= |s|
    decreases |s|, 1
  {
    var Step(child, s1) :- DecodeInline(s, order, width, parents[0].start, depth);
    if child.ranges == [] then Ok(Step([], s1))
    else if !AllWithin(child.ranges, parents) then Err(InvalidFormat)
    else
      var Step(siblings, rest) :- DecodeChildren(s1, order, width, parents, depth);
      Ok(Step([child] + siblings, rest))
  }

  function HeaderOf(node: EncodedInlineNode): Header {
    Header(node.children != [], node.name, node.callFile, node.callLine)
  }

  function EncodeInline(node: EncodedInlineNode, order: ByteOrder, width: nat, base: uint64, depth: nat): Result<seq<uint8>>
    decreases node, 1
  {
    if depth > MAX_INLINE_DEPTH then Err(Limit)
    else if node.ranges == [] then Err(InvalidModel)
    else
      var ranges :- EncodeRanges(node.ranges, base);
      var header :- EncodeHeader(HeaderOf(node), order, width);
      if node.children == [] then Ok(ranges + header)
      else
        var children :- EncodeChildren(node.children, order, width, node.ranges, depth + 1);
        Ok(ranges + header + children)
  }

  function EncodeChildren(
      children: seq<EncodedInlineNode>, order: ByteOrder, width: nat, parents: seq<AddressRange>, depth: nat): Result<seq<uint8>>
    requires parents != []
    decreases children, 0
  {
    if children == [] then Ok(UlebBytes(0))
    else if !AllWithin(children[0].ranges, parents) then Err(InvalidModel)
    else
      var first :- EncodeInline(children[0], order, width, parents[0].start, depth);
      var rest :- EncodeChildren(children[1..], order, width, parents, depth);
      Ok(first + rest)
  }

  lemma HeaderRoundTrip(header: Header, order: ByteOrder, width: nat, rest: seq<uint8>)
    requires EncodeHeader(header, order, width).Ok?
    ensures DecodeHeader(EncodeHeader(header, order, width).value + rest, order, width) == Ok(Step(header, rest))
  {
    hide UlebBytes, ReadUleb, ReadUint, WriteUint;
    var name := WriteUint(order, header.name, width).value;
    var flag := [if header.hasChildren then 1 else 0];
    var file, line := UlebBytes(header.callFile), UlebBytes(header.callLine);
    UlebInverse(header.callLine, rest);
    UlebInverse(header.callFile, line + rest);
    ReadWriteUint(order, header.name, width, file + (line + rest));
    AppendAssociates(flag + name + file, line, rest);
    AppendAssociates(flag + name, file, line + rest);
    AppendAssociates(flag, name, file + (line + rest));
  }

  /** The node depth limit leaves room for the terminator of its children. */
  lemma TerminatorDecodes(order: ByteOrder, width: nat, base: uint64, depth: nat, rest: seq<uint8>)
    requires depth <= MAX_INLINE_DEPTH
    ensures DecodeInline(UlebBytes(0) + rest, order, width, base, depth) == Ok(Step(TERMINATOR, rest))
  {
    RangesRoundTrip([], base, rest);
    assert EncodeRanges([], base).value == UlebBytes(0);
  }

  /** What a successful encoding says about the depth of the node. */
  lemma EncodedWithinDepth(node: EncodedInlineNode, order: ByteOrder, width: nat, base: uint64, depth: nat)
    requires EncodeInline(node, order, width, base, depth).Ok?
    ensures depth <= MAX_INLINE_DEPTH
    ensures node.children != [] ==> depth + 1 <= MAX_INLINE_DEPTH
    ensures node.ranges != []
  {
    hide EncodeRanges, EncodeHeader;
    if node.children != [] {
      assert EncodeChildren(node.children, order, width, node.ranges, depth + 1).Ok?;
      assert EncodeInline(node.children[0], order, width, node.ranges[0].start, depth + 1).Ok?;
    }
  }

  /** Decoding an encoded inline tree gives the tree back and stops where it
      ends; none of the decoder's own checks can reject it. */
  lemma {:induction false} InlineRoundTrip(
    node: EncodedInlineNode, order: ByteOrder, width: nat, base: uint64, depth: nat, rest: seq<uint8>)
    requires EncodeInline(node, order, width, base, depth).Ok?
    ensures DecodeInline(EncodeInline(node, order, width, base, depth).value + rest, order, width, base, depth)
         == Ok(Step(node, rest))
    decreases node, 1
  {
    EncodedWithinDepth(node, order, width, base, depth);
    var ranges := EncodeRanges(node.ranges, base).value;
    var header := EncodeHeader(HeaderOf(node), order, width).value;
    var children :=
      if node.children == [] then [] else EncodeChildren(node.children, order, width, node.ranges, depth + 1).value;
    assert EncodeInline(node, order, width, base, depth).value == ranges + header + children by {
      assert ranges + header + [] == ranges + header;
    }
    if node.children != [] {
      ChildrenRoundTrip(node.children, order, width, node.ranges, depth + 1, rest);
    }
    InlineDecodes(node, order, width, base, depth, ranges, header, children, rest);
  }

  /** Putting the three parts of a node together. */
  lemma InlineDecodes(
    node: EncodedInlineNode, order: ByteOrder, width: nat, base: uint64, depth: nat,
    ranges: seq<uint8>, header: seq<uint8>, children: seq<uint8>, rest: seq<uint8>)
    requires depth <= MAX_INLINE_DEPTH && node.ranges != []
    requires EncodeRanges(node.ranges, base) == Ok(ranges)
    requires EncodeHeader(HeaderOf(node), order, width) == Ok(header)
    requires node.children == [] ==> children == []
    requires node.children != [] ==>
               DecodeChildren(children + rest, order, width, node.ranges, depth + 1) == Ok(Step(node.children, rest))
    ensures DecodeInline(ranges + header + children + rest, order, width, base, depth) == Ok(Step(node, rest))
  {
    hide EncodeRanges, EncodeHeader, DecodeRanges, DecodeHeader, DecodeChildren;
    RangesRoundTrip(node.ranges, base, header + (children + rest));
    HeaderRoundTrip(HeaderOf(node), order, width, children + rest);
    AppendAssociates(ranges + header, children, rest);
    AppendAssociates(ranges, header, children + rest);
    if node.children == [] {
      assert children + rest == rest;
    }
  }

  lemma {:induction false} ChildrenRoundTrip(
    children: seq<EncodedInlineNode>, order: ByteOrder, width: nat, parents: seq<AddressRange>, depth: nat, rest: seq<uint8>)
    requires parents != [] && depth <= MAX_INLINE_DEPTH
    requires EncodeChildren(children, order, width, parents, depth).Ok?
    ensures DecodeChildren(EncodeChildren(children, order, width, parents, depth).value + rest, order, width, parents, depth)
         == Ok(Step(children, rest))
    decreases children, 0
  {
    if children == [] {
      TerminatorDecodes(order, width, parents[0].start, depth, rest);
    } else {
      var first := EncodeInline(children[0], order, width, parents[0].start, depth).value;
      var tail := EncodeChildren(children[1..], order, width, parents, depth).value;
      hide EncodeInline, DecodeInline, EncodeChildren;
      EncodedWithinDepth(children[0], order, width, parents[0].start, depth);
      InlineRoundTrip(children[0], order, width, parents[0].start, depth, tail + rest);
      ChildrenRoundTrip(children[1..], order, width, parents, depth, rest);
      AppendAssociates(first, tail, rest);
      assert [children[0]] + children[1..] == children;
    }
  }
}
