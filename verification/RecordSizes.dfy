/** The encoded size of a function under renumbering: whatever its strings' offsets, and
    never smaller when file indices only rise. */
module RecordSizes {
  import opened Words
  import opened Wrappers
  import opened Wire
  import opened Leb
  import opened Model
  import opened DeltaRange
  import opened Line
  import opened InlineInfo
  import opened FunctionInfo
  import opened Validation
  import opened Finalize
  import opened Renumber

  // ------------------------------------------------------------- rising renumberings

  /** Up to the limit the renumbering keeps the order of indices, and zero. */
  ghost predicate Rising(up: seq<FileIndex>, limit: int) {
    && RemapIndex(0, up) == 0
    && forall i: FileIndex, j: FileIndex :: i < j <= limit ==> RemapIndex(i, up) < RemapIndex(j, up)
  }

  lemma {:induction false} RisesAbove(up: seq<FileIndex>, limit: int, i: FileIndex)
    requires Rising(up, limit) && i <= limit
    ensures i <= RemapIndex(i, up)
    decreases i
  {
    if i > 0 {
      RisesAbove(up, limit, i - 1);
    }
  }

  /** Different indices stay different, and none but one becomes one. */
  lemma RisesApart(up: seq<FileIndex>, limit: int, i: FileIndex)
    requires Rising(up, limit) && i <= limit
    ensures forall j: FileIndex :: j <= limit && RemapIndex(i, up) == RemapIndex(j, up) ==> i == j
    ensures RemapIndex(i, up) == 1 ==> i == 1
  {
    RisesAbove(up, limit, i);
  }

  lemma RisesNowhere(limit: int)
    ensures Rising([], limit)
  {
  }

  // ------------------------------------------------------------------- line programs

  lemma {:induction false} UlebGrows(m: nat, n: nat)
    requires m <= n
    ensures |UlebBytes(m)| <= |UlebBytes(n)|
  {
    if m >= 128 {
      UlebGrows(m / 128, n / 128);
    }
  }

  /** A row that keeps the file of the one before it keeps it under renumbering. */
  lemma FileBytesGrow(previous: LineEntry, other: LineEntry, row: LineEntry, up: seq<FileIndex>, limit: int)
    requires Rising(up, limit) && row.file <= limit
    requires row.file != previous.file ==> RemapIndex(row.file, up) != other.file
    ensures |FileBytes(previous, row)| <= |FileBytes(other, row.(file := RemapIndex(row.file, up)))|
  {
    RisesAbove(up, limit, row.file);
    UlebGrows(row.file, RemapIndex(row.file, up));
  }

  lemma {:induction false} RowsBytesGrow(
    w: Window, base: uint64, previous: LineEntry, other: LineEntry, lines: seq<LineEntry>, up: seq<FileIndex>, limit: int)
    requires Rising(up, limit) && forall line :: line in lines ==> line.file <= limit
    requires previous.address == other.address && previous.line == other.line
    requires forall i: FileIndex :: i <= limit && i != previous.file ==> RemapIndex(i, up) != other.file
    requires RowsBytes(w, base, previous, lines).Ok?
    ensures RowsBytes(w, base, other, RemapLines(lines, up)).Ok?
    ensures |RowsBytes(w, base, previous, lines).value| <= |RowsBytes(w, base, other, RemapLines(lines, up)).value|
    decreases |lines|
  {
    hide FileBytes, AdvanceBytes, Rising, RemapIndex;
    if lines != [] {
      var row := lines[0];
      var moved := row.(file := RemapIndex(row.file, up));
      assert row in lines;
      FileBytesGrow(previous, other, row, up, limit);
      forall i: FileIndex | i <= limit && i != row.file
        ensures RemapIndex(i, up) != moved.file
      {
        RisesApart(up, limit, row.file);
      }
      RowsBytesGrow(w, base, row, moved, lines[1..], up, limit);
      assert RemapLines(lines, up)[0] == moved && RemapLines(lines, up)[1..] == RemapLines(lines[1..], up);
    }
  }

  lemma SameDeltas(lines: seq<LineEntry>, up: seq<FileIndex>)
    ensures Deltas(RemapLines(lines, up)) == Deltas(lines)
    ensures ChosenWindow(RemapLines(lines, up)) == ChosenWindow(lines)
  {
    hide BestStart, Top, Deltas, RemapIndex;
    var moved := RemapLines(lines, up);
    assert |Deltas(moved)| == |Deltas(lines)|;
    forall i | 0 <= i < |Deltas(lines)|
      ensures Deltas(moved)[i] == Deltas(lines)[i]
    {
      assert moved[i].line == lines[i].line && moved[i + 1].line == lines[i + 1].line;
    }
  }

  lemma RowsGrow(lines: seq<LineEntry>, base: uint64, up: seq<FileIndex>, limit: int)
    requires Rising(up, limit) && forall line :: line in lines ==> line.file <= limit
    requires EncodeRows(lines, base).Ok?
    ensures EncodeRows(RemapLines(lines, up), base).Ok?
    ensures |EncodeRows(lines, base).value| <= |EncodeRows(RemapLines(lines, up), base).value|
  {
    hide RowsBytes, ChosenWindow, Rising, RemapIndex, UlebBytes, SlebBytes;
    SameDeltas(lines, up);
    var start := LineEntry(base, 1, lines[0].line);
    forall i: FileIndex | i <= limit && i != 1
      ensures RemapIndex(i, up) != 1
    {
      RisesApart(up, limit, i);
    }
    RowsBytesGrow(ChosenWindow(lines), base, start, start, lines, up, limit);
  }

  // ------------------------------------------------------------------------ outlines

  // An encoded function is an outline of the function whatever its string offsets are.

  predicate NodeOutline(e: EncodedInlineNode, node: InlineNode)
    decreases e, 1
  {
    && e.ranges == node.ranges && e.callFile == node.callFile && e.callLine == node.callLine
    && NodesOutline(e.children, node.children)
  }

  predicate NodesOutline(es: seq<EncodedInlineNode>, nodes: seq<InlineNode>)
    decreases es, 0
  {
    if es == [] || nodes == [] then es == [] && nodes == []
    else NodeOutline(es[0], nodes[0]) && NodesOutline(es[1..], nodes[1..])
  }

  predicate SitesOutline(es: seq<EncodedCallSite>, sites: seq<CallSite>) {
    |es| == |sites| && forall i :: 0 <= i < |es| ==> |es[i].matchRegex| == |sites[i].matchRegex|
  }

  predicate InlineOutline(e: EncodedFunction, f: Function) {
    match e.inline
    case None => f.inline == None
    case Some(node) => f.inline.Some? && NodeOutline(node, f.inline.value)
  }

  predicate Outline(e: EncodedFunction, f: Function)
    decreases e, 1
  {
    && e.range == f.range && e.lines == (if f.lines == [] then None else Some(f.lines))
    && InlineOutline(e, f)
    && SitesOutline(e.callSites, f.callSites)
    && OutlineList(e.merged, f.merged)
  }

  predicate OutlineList(es: seq<EncodedFunction>, functions: seq<Function>)
    decreases es, 0
  {
    if es == [] || functions == [] then es == [] && functions == []
    else Outline(es[0], functions[0]) && OutlineList(es[1..], functions[1..])
  }

  // ---------------------------------------------------------------------- inline trees

  lemma HeaderGrows(e: EncodedInlineNode, other: EncodedInlineNode, order: ByteOrder, width: nat)
    requires e.callFile <= other.callFile && e.callLine == other.callLine
    requires EncodeHeader(HeaderOf(e), order, width).Ok? && EncodeHeader(HeaderOf(other), order, width).Ok?
    ensures |EncodeHeader(HeaderOf(e), order, width).value| <= |EncodeHeader(HeaderOf(other), order, width).value|
  {
    hide WriteUint, UlebBytes;
    FunctionInfo.WrittenSize(order, e.name, width);
    FunctionInfo.WrittenSize(order, other.name, width);
    UlebGrows(e.callFile, other.callFile);
  }

  lemma {:induction false} NodeGrows(
    e: EncodedInlineNode, other: EncodedInlineNode, node: InlineNode, up: seq<FileIndex>, limit: int,
    order: ByteOrder, width: nat, base: uint64, depth: nat)
    requires Rising(up, limit) && InlineFilesAtMost(node, limit)
    requires NodeOutline(e, node) && NodeOutline(other, RemapInline(node, up))
    requires EncodeInline(e, order, width, base, depth).Ok? && EncodeInline(other, order, width, base, depth).Ok?
    ensures |EncodeInline(e, order, width, base, depth).value| <= |EncodeInline(other, order, width, base, depth).value|
    decreases e, 1
  {
    hide Rising, EncodeHeader, EncodeRanges, EncodeChildren, RemapIndex, NodesOutline, RemapInlineList;
    RisesAbove(up, limit, node.callFile);
    HeaderGrows(e, other, order, width);
    NoChildren(e, other, node, up);
    if e.children != [] {
      NodesGrow(e.children, other.children, node.children, up, limit, order, width, node.ranges, depth + 1);
    }
  }

  lemma NoChildren(e: EncodedInlineNode, other: EncodedInlineNode, node: InlineNode, up: seq<FileIndex>)
    requires NodeOutline(e, node) && NodeOutline(other, RemapInline(node, up))
    ensures e.children == [] <==> other.children == []
    ensures e.ranges == other.ranges
    ensures NodesOutline(e.children, node.children) && NodesOutline(other.children, RemapInlineList(node.children, up))
  {
    assert NodesOutline(e.children, node.children) && NodesOutline(other.children, RemapInlineList(node.children, up));
    assert |RemapInlineList(node.children, up)| == 0 <==> node.children == [];
  }

  lemma {:induction false} NodesGrow(
    es: seq<EncodedInlineNode>, others: seq<EncodedInlineNode>, nodes: seq<InlineNode>, up: seq<FileIndex>, limit: int,
    order: ByteOrder, width: nat, parents: seq<AddressRange>, depth: nat)
    requires Rising(up, limit) && parents != [] && forall node :: node in nodes ==> InlineFilesAtMost(node, limit)
    requires NodesOutline(es, nodes) && NodesOutline(others, RemapInlineList(nodes, up))
    requires EncodeChildren(es, order, width, parents, depth).Ok? && EncodeChildren(others, order, width, parents, depth).Ok?
    ensures |EncodeChildren(es, order, width, parents, depth).value| <= |EncodeChildren(others, order, width, parents, depth).value|
    decreases es, 0
  {
    hide Rising, EncodeInline, NodeOutline, RemapInline, InlineFilesAtMost, AllWithin;
    if es != [] {
      assert nodes[0] in nodes;
      NodeGrows(es[0], others[0], nodes[0], up, limit, order, width, parents[0].start, depth);
      NodesGrow(es[1..], others[1..], nodes[1..], up, limit, order, width, parents, depth);
    }
  }

  // ------------------------------------------------------------------------ call sites

  lemma SiteSize(site: EncodedCallSite, order: ByteOrder, width: nat)
    requires EncodeCallSite(site, order, width).Ok?
    ensures |EncodeCallSite(site, order, width).value| == 13 + |site.matchRegex| * width
  {
    hide EncodeOffsets;
    EncodedOffsetsSize(site.matchRegex, order, width);
  }

  lemma {:induction false} SitesSize(es: seq<EncodedCallSite>, others: seq<EncodedCallSite>, sites: seq<CallSite>, order: ByteOrder, width: nat)
    requires SitesOutline(es, sites) && SitesOutline(others, sites)
    requires EncodeCallSiteList(es, order, width).Ok? && EncodeCallSiteList(others, order, width).Ok?
    ensures |EncodeCallSiteList(es, order, width).value| == |EncodeCallSiteList(others, order, width).value|
    decreases |es|
  {
    hide EncodeCallSite;
    if es != [] {
      SiteSize(es[0], order, width);
      SiteSize(others[0], order, width);
      SitesSize(es[1..], others[1..], sites[1..], order, width);
    }
  }

  // ------------------------------------------------------------------------- functions

  /** Both encode, the first in no more bytes. */
  predicate NoLarger(a: Result<seq<uint8>>, b: Result<seq<uint8>>) {
    a.Ok? && b.Ok? ==> |a.value| <= |b.value|
  }

  lemma RecordGrows(kind: uint32, payload: seq<uint8>, other: seq<uint8>, order: ByteOrder)
    requires |payload| <= |other|
    ensures NoLarger(EncodeRecord(kind, payload, order), EncodeRecord(kind, other, order))
  {
  }

  lemma LinesPartGrows(e: EncodedFunction, other: EncodedFunction, f: Function, up: seq<FileIndex>, limit: int, order: ByteOrder)
    requires Rising(up, limit) && FilesAtMost(f, limit)
    requires Outline(e, f) && Outline(other, Remap(f, up))
    ensures NoLarger(EncodeLinesPart(e, order), EncodeLinesPart(other, order))
  {
    hide Rising, EncodeRows, EncodeRecord, InlineOutline, SitesOutline, OutlineList, RemapInline, RemapList;
    if f.lines != [] && EncodeLinesPart(e, order).Ok? {
      RowsGrow(f.lines, f.range.start, up, limit);
      RecordGrows(INFO_LINE_TABLE, EncodeRows(f.lines, f.range.start).value, EncodeRows(RemapLines(f.lines, up), f.range.start).value, order);
    }
  }

  lemma InlinePartGrows(
    e: EncodedFunction, other: EncodedFunction, f: Function, up: seq<FileIndex>, limit: int, order: ByteOrder, width: nat)
    requires Rising(up, limit) && FilesAtMost(f, limit)
    requires Outline(e, f) && Outline(other, Remap(f, up))
    ensures NoLarger(EncodeInlinePart(e, order, width), EncodeInlinePart(other, order, width))
  {
    hide Rising, EncodeInline, EncodeRecord, NodeOutline, SitesOutline, OutlineList, RemapInline, RemapList, RemapLines, InlineFilesAtMost;
    if e.inline.Some? && EncodeInlinePart(e, order, width).Ok? && EncodeInlinePart(other, order, width).Ok? {
      NodeGrows(e.inline.value, other.inline.value, f.inline.value, up, limit, order, width, f.range.start, 0);
      RecordGrows(INFO_INLINE, EncodeInline(e.inline.value, order, width, f.range.start, 0).value,
                  EncodeInline(other.inline.value, order, width, f.range.start, 0).value, order);
    }
  }

  lemma SitesPartGrows(e: EncodedFunction, other: EncodedFunction, f: Function, up: seq<FileIndex>, order: ByteOrder, width: nat)
    requires Outline(e, f) && Outline(other, Remap(f, up))
    ensures NoLarger(EncodeCallSitesPart(e, order, width), EncodeCallSitesPart(other, order, width))
  {
    hide EncodeCallSiteList, EncodeRecord, InlineOutline, OutlineList, RemapInline, RemapList, RemapLines, WriteU32;
    if e.callSites != [] && EncodeCallSitesPart(e, order, width).Ok? && EncodeCallSitesPart(other, order, width).Ok? {
      SitesSize(e.callSites, other.callSites, f.callSites, order, width);
      RecordGrows(INFO_CALL_SITE, EncodeCallSites(e.callSites, order, width).value, EncodeCallSites(other.callSites, order, width).value, order);
    }
  }

  lemma HeaderSame(e: EncodedFunction, other: EncodedFunction, order: ByteOrder, width: nat)
    ensures NoLarger(EncodeFunctionHeader(e, order, width), EncodeFunctionHeader(other, order, width))
  {
    hide WriteUint;
    FunctionInfo.WrittenSize(order, e.name, width);
    FunctionInfo.WrittenSize(order, other.name, width);
  }

  /** Renumbering upwards makes no record smaller, whatever the string offsets. */
  lemma {:induction false} FunctionGrows(
    e: EncodedFunction, other: EncodedFunction, f: Function, up: seq<FileIndex>, limit: int, order: ByteOrder, width: nat, depth: nat)
    requires Rising(up, limit) && FilesAtMost(f, limit)
    requires Outline(e, f) && Outline(other, Remap(f, up))
    ensures NoLarger(EncodeFunction(e, order, width, depth), EncodeFunction(other, order, width, depth))
    decreases e, 2
  {
    hide Rising, FilesAtMost, EncodeFunctionHeader, EncodeLinesPart, EncodeInlinePart, EncodeMergedPart, EncodeCallSitesPart, Outline, EndMarker;
    HeaderSame(e, other, order, width);
    LinesPartGrows(e, other, f, up, limit, order);
    InlinePartGrows(e, other, f, up, limit, order, width);
    MergedPartGrows(e, other, f, up, limit, order, width, depth);
    SitesPartGrows(e, other, f, up, order, width);
  }

  lemma MergedOutline(e: EncodedFunction, f: Function, up: seq<FileIndex>)
    requires Outline(e, Remap(f, up))
    ensures e.range == f.range && OutlineList(e.merged, RemapList(f.merged, up))
  {
    hide InlineOutline, SitesOutline;
  }

  lemma {:induction false} OutlineLength(es: seq<EncodedFunction>, functions: seq<Function>, up: seq<FileIndex>)
    requires OutlineList(es, RemapList(functions, up))
    ensures |es| == |functions|
    decreases |functions|
  {
    hide Outline, Remap;
    if functions != [] {
      OutlineLength(es[1..], functions[1..], up);
    }
  }

  lemma {:induction false} MergedPartGrows(
    e: EncodedFunction, other: EncodedFunction, f: Function, up: seq<FileIndex>, limit: int, order: ByteOrder, width: nat, depth: nat)
    requires Rising(up, limit) && FilesAtMost(f, limit)
    requires Outline(e, f) && Outline(other, Remap(f, up))
    ensures NoLarger(EncodeMergedPart(e, order, width, depth), EncodeMergedPart(other, order, width, depth))
    decreases e, 1
  {
    hide Rising, EncodeRecord, EncodeMergedList, InlineOutline, SitesOutline, WriteU32, RemapLines, RemapInline;
    MergedOutline(other, f, up);
    if e.merged != [] && EncodeMergedPart(e, order, width, depth).Ok? && EncodeMergedPart(other, order, width, depth).Ok? {
      OutlineLength(other.merged, f.merged, up);
      OutlineSame(e.merged, f.merged);
      MergedGrow(e.merged, other.merged, f.merged, up, limit, order, width, f.range.start, depth + 1);
      RecordGrows(INFO_MERGED,
                  WriteU32(order, |e.merged|) + EncodeMergedList(e.merged, order, width, f.range.start, depth + 1).value,
                  WriteU32(order, |other.merged|) + EncodeMergedList(other.merged, order, width, f.range.start, depth + 1).value, order);
    }
  }

  lemma {:induction false} OutlineSame(es: seq<EncodedFunction>, functions: seq<Function>)
    requires OutlineList(es, functions)
    ensures |es| == |functions|
    ensures forall i :: 0 <= i < |es| ==> Outline(es[i], functions[i])
    decreases |functions|
  {
    hide Outline;
    if functions != [] {
      OutlineSame(es[1..], functions[1..]);
    }
  }

  lemma {:induction false} MergedGrow(
    es: seq<EncodedFunction>, others: seq<EncodedFunction>, functions: seq<Function>, up: seq<FileIndex>, limit: int,
    order: ByteOrder, width: nat, base: uint64, depth: nat)
    requires Rising(up, limit) && forall f :: f in functions ==> FilesAtMost(f, limit)
    requires OutlineList(es, functions) && OutlineList(others, RemapList(functions, up))
    ensures NoLarger(EncodeMergedList(es, order, width, base, depth), EncodeMergedList(others, order, width, base, depth))
    decreases es, 0
  {
    hide Rising, EncodeFunction, Outline, Remap, FilesAtMost, WriteU32;
    if es != [] {
      assert functions[0] in functions;
      FunctionGrows(es[0], others[0], functions[0], up, limit, order, width, depth);
      MergedGrow(es[1..], others[1..], functions[1..], up, limit, order, width, base, depth);
    }
  }
}
