/** What the record encoder of src/format/function.rs can refuse once
    src/validation.rs has accepted a function: rows out of order, and sizes. */
module Encodability {
  import opened Words
  import opened Wrappers
  import opened Wire
  import opened Model
  import opened Leb
  import opened Line
  import opened InlineInfo
  import opened FunctionInfo
  import opened Validation
  import opened Strings

  /** Refused, if at all, because something does not fit its field. */
  predicate OnlyTooBig(r: Result<seq<uint8>>) {
    r.Ok? || r.error == Limit || r.error == OutOfRange || r.error == Overflow
  }

  /** Line rows in address order, at every merged depth. */
  ghost predicate RowsInOrder(f: Function)
    decreases f
  {
    SortedRows(f.lines) && forall g :: g in f.merged ==> RowsInOrder(g)
  }

  predicate AllFrom(ranges: seq<AddressRange>, base: uint64) {
    forall range :: range in ranges ==> base <= range.start
  }

  lemma WithinFrom(range: AddressRange, parents: seq<AddressRange>, base: uint64)
    requires Within(range, parents) && AllFrom(parents, base)
    ensures base <= range.start
  {
  }

  lemma {:induction false} RangeListEncodes(ranges: seq<AddressRange>, parents: seq<AddressRange>, base: uint64, floor: uint64)
    requires OrderedRanges(ranges, parents) && AllFrom(parents, base)
    requires ranges != [] ==> floor <= ranges[0].start
    ensures EncodeRangeList(ranges, base, floor).Ok?
    decreases |ranges|
  {
    hide Within;
    if ranges != [] {
      assert ranges[0] in ranges;
      WithinFrom(ranges[0], parents, base);
      var rest := ranges[1..];
      forall i | 0 < i < |rest|
        ensures rest[i - 1].end <= rest[i].start
      {
        assert rest[i - 1] == ranges[i] && rest[i] == ranges[i + 1];
      }
      RangeListEncodes(rest, parents, base, ranges[0].end);
    }
  }

  lemma {:induction false} FirstStartsLowest(ranges: seq<AddressRange>, parents: seq<AddressRange>)
    requires ranges != [] && OrderedRanges(ranges, parents)
    ensures AllFrom(ranges, ranges[0].start)
    decreases |ranges|
  {
    hide Within;
    if |ranges| > 1 {
      var rest := ranges[1..];
      forall i | 0 < i < |rest|
        ensures rest[i - 1].end <= rest[i].start
      {
        assert rest[i - 1] == ranges[i] && rest[i] == ranges[i + 1];
      }
      FirstStartsLowest(rest, parents);
      assert ranges[0] in ranges && ranges[0].end <= ranges[1].start;
      assert ranges == [ranges[0]] + rest;
    }
  }

  lemma RangesEncode(ranges: seq<AddressRange>, parents: seq<AddressRange>, base: uint64)
    requires OrderedRanges(ranges, parents) && AllFrom(parents, base)
    ensures OnlyTooBig(EncodeRanges(ranges, base))
  {
    hide OrderedRanges, EncodeRangeList, AllFrom;
    RangeListEncodes(ranges, parents, base, 0);
  }

  lemma {:induction false} OffsetsEncode(offsets: seq<uint64>, order: ByteOrder, width: nat)
    ensures OnlyTooBig(EncodeOffsets(offsets, order, width))
  {
    hide ToBytes, Exp;
    if offsets != [] {
      OffsetsEncode(offsets[1..], order, width);
    }
  }

  lemma {:induction false} SiteListEncodes(sites: seq<EncodedCallSite>, order: ByteOrder, width: nat)
    ensures OnlyTooBig(EncodeCallSiteList(sites, order, width))
  {
    hide EncodeOffsets, WriteU32, WriteU64;
    if sites != [] {
      OffsetsEncode(sites[0].matchRegex, order, width);
      SiteListEncodes(sites[1..], order, width);
    }
  }

  lemma SitesPartEncodes(f: EncodedFunction, order: ByteOrder, width: nat)
    ensures OnlyTooBig(EncodeCallSitesPart(f, order, width))
  {
    hide EncodeCallSiteList, WriteU32;
    SiteListEncodes(f.callSites, order, width);
  }

  lemma HeaderEncodes(node: EncodedInlineNode, order: ByteOrder, width: nat)
    ensures OnlyTooBig(EncodeHeader(HeaderOf(node), order, width))
  {
    hide UlebBytes, ToBytes, Exp;
  }

  lemma {:induction false} InlineEncodes(
    bytes: seq<uint8>, e: EncodedInlineNode, node: InlineNode, order: ByteOrder, width: nat, parents: seq<AddressRange>, base: uint64,
    depth: nat)
    requires InlineNames(bytes, e, node) && AdmissibleInline(node, parents, depth) && AllFrom(parents, base)
    ensures OnlyTooBig(EncodeInline(e, order, width, base, depth))
    decreases e, 1
  {
    hide NameAt, OrderedRanges, EncodeRanges, EncodeHeader, EncodeChildren, AllFrom;
    RangesEncode(node.ranges, parents, base);
    HeaderEncodes(e, order, width);
    FirstStartsLowest(node.ranges, parents);
    ChildrenEncode(bytes, e.children, node.children, order, width, node.ranges, depth + 1);
  }

  lemma {:induction false} ChildrenEncode(
    bytes: seq<uint8>, es: seq<EncodedInlineNode>, nodes: seq<InlineNode>, order: ByteOrder, width: nat, parents: seq<AddressRange>,
    depth: nat)
    requires InlineListNames(bytes, es, nodes) && parents != [] && AllFrom(parents, parents[0].start)
    requires forall node :: node in nodes ==> AdmissibleInline(node, parents, depth)
    ensures OnlyTooBig(EncodeChildren(es, order, width, parents, depth))
    decreases es, 0
  {
    hide EncodeInline, AllFrom, UlebBytes;
    if es != [] {
      assert nodes[0] in nodes;
      InlineEncodes(bytes, es[0], nodes[0], order, width, parents, parents[0].start, depth);
      ChildrenEncode(bytes, es[1..], nodes[1..], order, width, parents, depth);
      RangesWithin(bytes, es[0], nodes[0], parents, depth);
    }
  }

  lemma RangesWithin(bytes: seq<uint8>, e: EncodedInlineNode, node: InlineNode, parents: seq<AddressRange>, depth: nat)
    requires InlineNames(bytes, e, node) && AdmissibleInline(node, parents, depth)
    ensures AllWithin(e.ranges, parents)
  {
    hide Within, NameAt, InlineListNames;
  }

  lemma LinesPartEncodes(f: EncodedFunction, lines: seq<LineEntry>, order: ByteOrder)
    requires f.lines == if lines == [] then None else Some(lines)
    requires LinesInside(lines, f.range)
    ensures EncodeLinesPart(f, order).Ok? ==> SortedRows(lines)
    ensures SortedRows(lines) ==> OnlyTooBig(EncodeLinesPart(f, order))
  {
    hide EncodeRows, WriteU32;
    EncodeRowsSucceeds(lines, f.range.start);
  }

  lemma InlinePartEncodes(bytes: seq<uint8>, e: EncodedFunction, f: Function, order: ByteOrder, width: nat)
    requires e.range == f.range
    requires match e.inline case None => f.inline == None
             case Some(node) => f.inline.Some? && InlineNames(bytes, node, f.inline.value)
    requires f.inline.Some? ==> AdmissibleInline(f.inline.value, [f.range], 0)
    ensures OnlyTooBig(EncodeInlinePart(e, order, width))
  {
    hide EncodeInline, InlineNames, AdmissibleInline, WriteU32;
    if e.inline.Some? {
      InlineEncodes(bytes, e.inline.value, f.inline.value, order, width, [f.range], f.range.start, 0);
    }
  }

  lemma HeaderPartEncodes(bytes: seq<uint8>, e: EncodedFunction, f: Function, order: ByteOrder, width: nat)
    requires e.range == f.range && NameAt(bytes, e.name, f.name) && f.name != [] && f.range.IsValid()
    ensures OnlyTooBig(EncodeFunctionHeader(e, order, width))
  {
    hide ToBytes, Exp, Stored;
  }

  /** A function the validator accepts is refused only for a size when its rows are in
      order, and never encodes when they are not. */
  lemma {:induction false} AdmissibleEncodes(
    bytes: seq<uint8>, e: EncodedFunction, f: Function, order: ByteOrder, width: nat, parent: Option<AddressRange>, depth: nat)
    requires Names(bytes, e, f) && Admissible(f, parent, depth) && ValidStringWidth(width)
    ensures RowsInOrder(f) ==> OnlyTooBig(EncodeFunction(e, order, width, depth))
    ensures EncodeFunction(e, order, width, depth).Ok? ==> RowsInOrder(f)
    decreases e, 1
  {
    hide NameAt, InlineNames, AdmissibleInline, SiteNames, LinesInside, SitesInside, SortedRows, EncodeFunctionHeader, EncodeLinesPart,
      EncodeInlinePart, EncodeMergedPart, EncodeCallSitesPart, WriteU32, ListNames;
    HeaderPartEncodes(bytes, e, f, order, width);
    LinesPartEncodes(e, f.lines, order);
    InlinePartEncodes(bytes, e, f, order, width);
    MergedPartEncodes(bytes, e, f, order, width, depth);
    SitesPartEncodes(e, order, width);
  }

  lemma {:induction false} MergedPartEncodes(bytes: seq<uint8>, e: EncodedFunction, f: Function, order: ByteOrder, width: nat, depth: nat)
    requires e.range == f.range && ListNames(bytes, e.merged, f.merged) && ValidStringWidth(width)
    requires forall g :: g in f.merged ==> Admissible(g, Some(f.range), depth + 1)
    ensures (forall g :: g in f.merged ==> RowsInOrder(g)) ==> OnlyTooBig(EncodeMergedPart(e, order, width, depth))
    ensures EncodeMergedPart(e, order, width, depth).Ok? ==> forall g :: g in f.merged ==> RowsInOrder(g)
    decreases e, 0
  {
    hide EncodeMergedList, Admissible, RowsInOrder, WriteU32;
    MergedListEncodes(bytes, e.merged, f.merged, order, width, f.range, depth + 1);
  }

  lemma {:induction false} MergedListEncodes(
    bytes: seq<uint8>, es: seq<EncodedFunction>, functions: seq<Function>, order: ByteOrder, width: nat, range: AddressRange, depth: nat)
    requires ListNames(bytes, es, functions) && ValidStringWidth(width)
    requires forall g :: g in functions ==> Admissible(g, Some(range), depth)
    ensures (forall g :: g in functions ==> RowsInOrder(g)) ==> OnlyTooBig(EncodeMergedList(es, order, width, range.start, depth))
    ensures EncodeMergedList(es, order, width, range.start, depth).Ok? ==> forall g :: g in functions ==> RowsInOrder(g)
    decreases es, 0
  {
    hide EncodeFunction, RowsInOrder, WriteU32;
    if es != [] {
      assert functions[0] in functions;
      AdmissibleEncodes(bytes, es[0], functions[0], order, width, Some(range), depth);
      MergedListEncodes(bytes, es[1..], functions[1..], order, width, range, depth);
      assert functions == [functions[0]] + functions[1..];
    }
  }

  // ----------------------------------------------------------------- the other way

  lemma {:induction false} EncodedRangesOrdered(ranges: seq<AddressRange>, base: uint64, floor: uint64)
    requires EncodeRangeList(ranges, base, floor).Ok?
    ensures ranges != [] ==> floor <= ranges[0].start
    ensures forall i :: 0 < i < |ranges| ==> ranges[i - 1].end <= ranges[i].start
    decreases |ranges|
  {
    hide UlebBytes;
    if ranges != [] {
      EncodedRangesOrdered(ranges[1..], base, ranges[0].end);
    }
  }

  lemma {:induction false} EncodedInlineAdmissible(
    bytes: seq<uint8>, e: EncodedInlineNode, node: InlineNode, order: ByteOrder, width: nat, parents: seq<AddressRange>, base: uint64,
    depth: nat)
    requires InlineNames(bytes, e, node) && SoundInline(node, parents) && EncodeInline(e, order, width, base, depth).Ok?
    ensures AdmissibleInline(node, parents, depth)
    decreases e, 1
  {
    hide NameAt, EncodeRangeList, EncodeHeader, EncodeChildren, Within, UlebBytes;
    EncodedRangesOrdered(node.ranges, base, 0);
    if e.children != [] {
      EncodedChildrenAdmissible(bytes, e.children, node.children, order, width, node.ranges, depth + 1);
    }
  }

  lemma {:induction false} EncodedChildrenAdmissible(
    bytes: seq<uint8>, es: seq<EncodedInlineNode>, nodes: seq<InlineNode>, order: ByteOrder, width: nat, parents: seq<AddressRange>,
    depth: nat)
    requires InlineListNames(bytes, es, nodes) && parents != [] && EncodeChildren(es, order, width, parents, depth).Ok?
    requires forall node :: node in nodes ==> SoundInline(node, parents)
    ensures forall node :: node in nodes ==> AdmissibleInline(node, parents, depth)
    decreases es, 0
  {
    hide EncodeInline, InlineNames, SoundInline, AdmissibleInline, AllWithin;
    if es != [] {
      assert nodes[0] in nodes && nodes == [nodes[0]] + nodes[1..];
      EncodedInlineAdmissible(bytes, es[0], nodes[0], order, width, parents, parents[0].start, depth);
      EncodedChildrenAdmissible(bytes, es[1..], nodes[1..], order, width, parents, depth);
    }
  }

  /** What encodes and is sound for the reader is accepted by the validator: it refuses
      nothing else. */
  lemma {:induction false} EncodedIsAdmissible(
    bytes: seq<uint8>, e: EncodedFunction, f: Function, order: ByteOrder, width: nat, parent: Option<AddressRange>, depth: nat)
    requires Names(bytes, e, f) && Sound(f, parent) && EncodeFunction(e, order, width, depth).Ok?
    ensures Admissible(f, parent, depth)
    decreases e, 1
  {
    hide Stored, InlineNames, SoundInline, AdmissibleInline, SiteNames, LinesInside, SitesInside, EncodeInline, EncodeRows, EncodeCallSitesPart,
      EncodeMergedList, EncodeRecord, WriteU32, WriteUint, ListNames;
    if e.inline.Some? {
      EncodedInlineAdmissible(bytes, e.inline.value, f.inline.value, order, width, [f.range], f.range.start, 0);
    }
    SameLengthNames(bytes, e.merged, f.merged);
    if e.merged != [] {
      EncodedListAdmissible(bytes, e.merged, f.merged, order, width, f.range, depth + 1);
    }
  }

  lemma SameLengthNames(bytes: seq<uint8>, es: seq<EncodedFunction>, functions: seq<Function>)
    requires ListNames(bytes, es, functions)
    ensures es == [] <==> functions == []
  {
  }

  lemma {:induction false} EncodedListAdmissible(
    bytes: seq<uint8>, es: seq<EncodedFunction>, functions: seq<Function>, order: ByteOrder, width: nat, parent: AddressRange, depth: nat)
    requires ListNames(bytes, es, functions) && EncodeMergedList(es, order, width, parent.start, depth).Ok?
    requires forall f :: f in functions ==> Sound(f, Some(parent))
    ensures forall f :: f in functions ==> Admissible(f, Some(parent), depth)
    decreases es, 0
  {
    hide Names, EncodeFunction, Sound, Admissible, WriteU32;
    if es != [] {
      assert functions[0] in functions && functions == [functions[0]] + functions[1..];
      EncodedIsAdmissible(bytes, es[0], functions[0], order, width, Some(parent), depth);
      EncodedListAdmissible(bytes, es[1..], functions[1..], order, width, parent, depth);
    }
  }
}
