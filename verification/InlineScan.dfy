/** The streaming inline scanner of src/reader/lookup.rs: it reports the frames
    of an address without building the tree. */
module InlineScan {
  import opened Words
  import opened Wrappers
  import opened Wire
  import opened Endian
  import opened Leb
  import opened Model
  import opened InlineInfo
  import opened InlineCodec

  datatype RawInlineFrame = RawInlineFrame(name: uint64, callFile: FileIndex, callLine: uint32, start: uint64)

  // ------------------------------------------------- what a tree search reports

  predicate Covers(ranges: seq<AddressRange>, address: uint64) {
    exists range :: range in ranges && range.start <= address < range.end
  }

  function FrameOf(node: EncodedInlineNode): (frames: seq<RawInlineFrame>) {
    if node.name != 0 && node.ranges != []
    then [RawInlineFrame(node.name, node.callFile, node.callLine, node.ranges[0].start)]
    else []
  }

  /** The named nodes on the path from `node` that takes the first matching
      child at each level; nothing if `node` itself does not match. */
  function Path(node: EncodedInlineNode, address: uint64): seq<RawInlineFrame>
    decreases node, 1
  {
    if Covers(node.ranges, address) then FrameOf(node) + PathBelow(node.children, address) else []
  }

  function PathBelow(children: seq<EncodedInlineNode>, address: uint64): seq<RawInlineFrame>
    decreases children, 0
  {
    if children == [] then []
    else if Covers(children[0].ranges, address) then Path(children[0], address)
    else PathBelow(children[1..], address)
  }

  // -------------------------------------------------------------------- the scan

  /** What scanning a range list tells: where it starts and whether some range
      holds the address. */
  datatype RangeScan = RangeScan(firstStart: uint64, contains: bool)

  method ScanRanges(cursor: Cursor, count: nat, base: uint64, collect: bool, address: uint64) returns (r: Result<RangeScan>)
    requires cursor.Valid() && count > 0
    modifies cursor
    ensures cursor.Valid()
    ensures r.Ok? ==> |cursor.Rest()| <= |old(cursor.Rest())|
    ensures
      var decoded := DecodeRangeList(old(cursor.Rest()), count, base, 0);
      decoded.Ok? ==>
        && r == Ok(RangeScan(decoded.value.value[0].start, collect && Covers(decoded.value.value, address)))
        && cursor.Rest() == decoded.value.rest
  {
    hide DecodeRange, Covers;
    ghost var decoded := DecodeRangeList(cursor.Rest(), count, base, 0);
    var firstStart: Option<uint64> := None;
    var contains := false;
    ghost var floor: uint64, done: seq<AddressRange> := 0, [];
    JoinedNothing(decoded);
    CoversNothing(address);
    for i := 0 to count
      invariant cursor.Valid() && |cursor.Rest()| <= |old(cursor.Rest())|
      invariant |done| == i && firstStart == if i == 0 then None else Some(done[0].start)
      invariant contains == (collect && Covers(done, address))
      invariant decoded.Ok? ==> Joined(done, DecodeRangeList(cursor.Rest(), count - i, base, floor)) == decoded
    {
      var range :- ReadRange(cursor, base);
      JoinedNext(done, range, DecodeRangeList(cursor.Rest(), count - i - 1, base, range.end));
      CoversSnoc(done, range, address);
      if firstStart.None? {
        firstStart := Some(range.start);
      }
      if collect {
        contains := contains || range.start <= address < range.end;
      }
      done, floor := done + [range], range.end;
    }
    assert done + [] == done;
    return Ok(RangeScan(firstStart.value, contains));
  }

  lemma CoversNothing(address: uint64)
    ensures !Covers([], address)
  {
  }

  /** A terminator covers nothing, and nothing lies below it. */
  lemma NoRanges(s: seq<uint8>, base: uint64, address: uint64)
    ensures DecodeRangeList(s, 0, base, 0) == Ok(Step([], s))
    ensures !Covers([], address)
    ensures forall node: EncodedInlineNode :: node.ranges == [] ==> Path(node, address) == []
    ensures PathBelow([], address) == []
  {
    hide FrameOf;
  }

  lemma CoversSnoc(done: seq<AddressRange>, range: AddressRange, address: uint64)
    ensures Covers(done + [range], address) <==> Covers(done, address) || range.start <= address < range.end
  {
    if Covers(done, address) {
      var other :| other in done && other.start <= address < other.end;
      assert other in done + [range];
    }
    if range.start <= address < range.end {
      assert range in done + [range];
    }
  }

  /** The scratch storage of a lookup: frames outermost first. */
  class Scan {
    const width: uint8
    const address: uint64
    var frames: seq<RawInlineFrame>

    constructor (width: uint8, address: uint64)
      ensures frames == [] && this.width == width && this.address == address
    {
      this.width := width;
      this.address := address;
      this.frames := [];
    }
  }

  /** `outcome` is what scanning the node `decoded` must report: whether there
      is a node, whether it matched, and its path appended to `frames`. */
  ghost predicate Reports(
    decoded: Result<Step<EncodedInlineNode>>, address: uint64, collect: bool,
    before: seq<RawInlineFrame>, outcome: Result<(bool, bool)>, after: seq<RawInlineFrame>, remaining: seq<uint8>)
  {
    decoded.Ok? ==>
      var node := decoded.value.value;
      && outcome == Ok((node.ranges != [], collect && Covers(node.ranges, address)))
      && remaining == decoded.value.rest
      && after == before + if collect then Path(node, address) else []
  }

  ghost predicate ReportsChildren(
    decoded: Result<Step<seq<EncodedInlineNode>>>, address: uint64, collect: bool,
    before: seq<RawInlineFrame>, outcome: Result<Unit>, after: seq<RawInlineFrame>, remaining: seq<uint8>)
  {
    decoded.Ok? ==>
      && outcome == Ok(Unit)
      && remaining == decoded.value.rest
      && after == before + if collect then PathBelow(decoded.value.value, address) else []
  }

  /** The node that decoding makes of its ranges, its header and what follows. */
  function Assembled(ranges: seq<AddressRange>, raw: RawHeader, s: seq<uint8>, order: ByteOrder, width: nat, depth: nat):
      Result<Step<EncodedInlineNode>>
    requires ranges != []
  {
    var header :- Narrow(raw);
    var Step(children, rest) :-
      if header.hasChildren then DecodeChildren(s, order, width, ranges, depth + 1) else Ok(Step([], s));
    Ok(Step(EncodedInlineNode(ranges, header.name, header.callFile, header.callLine, children), rest))
  }

  /** The header is read: push the frame, descend, and drop what a node that
      does not match has left behind. */
  method ScanBelow(
    cursor: Cursor, header: RawHeader, firstStart: uint64, ghost ranges: seq<AddressRange>, matched: bool, depth: nat, scan: Scan)
    returns (r: Result<Unit>)
    requires cursor.Valid() && ranges != [] && ranges[0].start == firstStart
    modifies cursor, scan
    ensures cursor.Valid()
    ensures r.Ok? ==> |cursor.Rest()| <= |old(cursor.Rest())|
    ensures old(scan.frames) <= scan.frames
    ensures
      var node := Assembled(ranges, header, old(cursor.Rest()), cursor.order, scan.width, depth);
      node.Ok? ==>
        && r == Ok(Unit) && cursor.Rest() == node.value.rest
        && scan.frames == old(scan.frames)
             + if matched then FrameOf(node.value.value) + PathBelow(node.value.value.children, scan.address) else []
    decreases |cursor.Rest()|, 2
  {
    hide DecodeChildren;
    var originalLength := |scan.frames|;
    if matched && header.name != 0 {
      if header.callFile >= U32_LIMIT || header.callLine >= U32_LIMIT {
        return Err(OutOfRange);
      }
      scan.frames := scan.frames + [RawInlineFrame(header.name, header.callFile, header.callLine, firstStart)];
    }
    if header.hasChildren {
      var _ :- ScanChildren(cursor, firstStart, ranges, matched, depth + 1, scan);
    }
    if !matched {
      scan.frames := scan.frames[..originalLength];
    }
    return Ok(Unit);
  }

  /** Whenever the payload decodes to a tree, scanning it succeeds, consumes the
      same bytes and appends exactly the matching path of that tree. */
  method ScanNode(cursor: Cursor, base: uint64, collect: bool, depth: nat, scan: Scan) returns (r: Result<(bool, bool)>)
    requires cursor.Valid()
    modifies cursor, scan
    ensures cursor.Valid()
    ensures r.Ok? ==> |cursor.Rest()| < |old(cursor.Rest())|
    ensures old(scan.frames) <= scan.frames
    ensures Reports(DecodeInline(old(cursor.Rest()), cursor.order, scan.width, base, depth), scan.address, collect,
                    old(scan.frames), r, scan.frames, cursor.Rest())
    decreases |cursor.Rest()|, 0
  {
    hide ReadUlebBits, DecodeRawHeader, DecodeRangeList, DecodeChildren, Narrow, Covers, PathBelow, FrameOf;
    if depth > MAX_INLINE_DEPTH {
      return Err(Limit);
    }
    var count :- ReadUlebBounded(cursor, 64);
    if count == 0 {
      NoRanges(cursor.Rest(), base, scan.address);
      return Ok((false, false));
    }
    if count > cursor.Remaining() / 2 {
      return Err(InvalidFormat);
    }
    ghost var list := DecodeRangeList(cursor.Rest(), count, base, 0);
    var ranges :- ScanRanges(cursor, count, base, collect, scan.address);
    ghost var parents :=
      if list.Ok? then list.value.value else [AddressRange(ranges.firstStart, ranges.firstStart)];
    var header :- ReadRawHeader(cursor, scan.width);
    var matched := collect && ranges.contains;
    var _ :- ScanBelow(cursor, header, ranges.firstStart, parents, matched, depth, scan);
    return Ok((true, matched));
  }

  /** Decoding the children decodes the next child, and either ends there or
      goes on with the children after it. */
  lemma ChildrenContinue(s: seq<uint8>, order: ByteOrder, width: nat, parents: seq<AddressRange>, depth: nat)
    requires parents != [] && DecodeChildren(s, order, width, parents, depth).Ok?
    ensures
      var child := DecodeInline(s, order, width, parents[0].start, depth);
      var all := DecodeChildren(s, order, width, parents, depth);
      && child.Ok?
      && if child.value.value.ranges == [] then all == Ok(Step([], child.value.rest))
         else
           && DecodeChildren(child.value.rest, order, width, parents, depth).Ok?
           && all == Joined([child.value.value], DecodeChildren(child.value.rest, order, width, parents, depth))
  {
    hide DecodeInline, AllWithin;
  }

  lemma PathBelowNext(child: EncodedInlineNode, siblings: seq<EncodedInlineNode>, address: uint64)
    ensures PathBelow([child] + siblings, address)
         == if Covers(child.ranges, address) then Path(child, address) else PathBelow(siblings, address)
    ensures !Covers(child.ranges, address) ==> Path(child, address) == []
  {
    hide Covers;
    assert ([child] + siblings)[1..] == siblings;
  }

  method ScanChildren(
    cursor: Cursor, base: uint64, ghost parents: seq<AddressRange>, collect: bool, depth: nat, scan: Scan) returns (r: Result<Unit>)
    requires cursor.Valid() && parents != [] && parents[0].start == base
    modifies cursor, scan
    ensures cursor.Valid()
    ensures r.Ok? ==> |cursor.Rest()| <= |old(cursor.Rest())|
    ensures old(scan.frames) <= scan.frames
    ensures ReportsChildren(DecodeChildren(old(cursor.Rest()), cursor.order, scan.width, parents, depth), scan.address,
                            collect, old(scan.frames), r, scan.frames, cursor.Rest())
    decreases |cursor.Rest()|, 1
  {
    hide DecodeInline, DecodeChildren, Covers, Path, PathBelow;
    ghost var decoded := DecodeChildren(cursor.Rest(), cursor.order, scan.width, parents, depth);
    var found := false;
    while true
      invariant cursor.Valid() && |cursor.Rest()| <= |old(cursor.Rest())|
      invariant old(scan.frames) <= scan.frames
      invariant decoded.Ok? ==>
        var left := DecodeChildren(cursor.Rest(), cursor.order, scan.width, parents, depth);
        && left.Ok? && left.value.rest == decoded.value.rest
        && scan.frames + (if collect && !found then PathBelow(left.value.value, scan.address) else [])
           == old(scan.frames) + if collect then PathBelow(decoded.value.value, scan.address) else []
      decreases |cursor.Rest()|
    {
      if decoded.Ok? {
        ChildrenContinue(cursor.Rest(), cursor.order, scan.width, parents, depth);
        ghost var child := DecodeInline(cursor.Rest(), cursor.order, scan.width, base, depth).value;
        if child.value.ranges != [] {
          var siblings := DecodeChildren(child.rest, cursor.order, scan.width, parents, depth).value.value;
          PathBelowNext(child.value, siblings, scan.address);
        }
        NoRanges(cursor.Rest(), base, scan.address);
      }
      var child :- ScanNode(cursor, base, collect && !found, depth, scan);
      if !child.0 {
        break;
      }
      found := found || child.1;
    }
    return Ok(Unit);
  }
}
