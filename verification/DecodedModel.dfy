/** What every model decoded from an image has: line rows in address order and
    strings without NULs, at every inline and merged depth. */
module DecodedModel {
  import opened Words
  import opened Wrappers
  import opened Wire
  import opened Model
  import opened Line
  import opened FunctionInfo
  import opened InlineInfo
  import opened Image
  import opened Verified
  import opened NulFree
  import opened Encodability

  // -------------------------------------------------------------------- row order

  ghost predicate EncodedInOrder(e: EncodedFunction)
    decreases e
  {
    (e.lines.Some? ==> SortedRows(e.lines.value)) && forall g :: g in e.merged ==> EncodedInOrder(g)
  }

  lemma DecodedRowsSorted(s: seq<uint8>, base: uint64)
    requires DecodeRows(s, base).Ok?
    ensures SortedRows(DecodeRows(s, base).value)
  {
    hide DecodeRows, SortedRows;
    LookupFindsRowInEffect(s, base, 0);
  }

  lemma {:induction false} RecordsInOrder(
    s: seq<uint8>, order: ByteOrder, width: nat, depth: nat, seen: set<uint32>, f: EncodedFunction)
    requires ValidStringWidth(width) && EncodedInOrder(f) && DecodeRecords(s, order, width, depth, seen, f).Ok?
    ensures EncodedInOrder(DecodeRecords(s, order, width, depth, seen, f).value.value)
    decreases |s|, 5
  {
    hide EncodedInOrder, NextRecord, DecodeRecord;
    var Step(next, rest) := NextRecord(s, order).value;
    if next.Some? {
      RecordInOrder(next.value, order, width, depth, f);
      RecordsInOrder(rest, order, width, depth, Observe(next.value.kind, seen).value, DecodeRecord(next.value, order, width, depth, f).value);
    }
  }

  lemma {:induction false} RecordInOrder(record: Record, order: ByteOrder, width: nat, depth: nat, f: EncodedFunction)
    requires ValidStringWidth(width) && EncodedInOrder(f) && DecodeRecord(record, order, width, depth, f).Ok?
    ensures EncodedInOrder(DecodeRecord(record, order, width, depth, f).value)
    decreases |record.payload|, 4
  {
    hide SortedRows, DecodeRows, DecodeInlinePayload, DecodeMerged, DecodeCallSites;
    if record.kind == INFO_LINE_TABLE {
      DecodedRowsSorted(record.payload, f.range.start);
    } else if record.kind == INFO_MERGED {
      MergedInOrder(record.payload, order, width, f.range.start, depth + 1);
    }
  }

  lemma {:induction false} FunctionInOrder(s: seq<uint8>, order: ByteOrder, width: nat, base: uint64, depth: nat)
    requires DecodeFunction(s, order, width, base, depth).Ok?
    ensures EncodedInOrder(DecodeFunction(s, order, width, base, depth).value.value)
    decreases |s|, 6
  {
    hide DecodeRecords, ReadU32, ReadUint;
    var Step(size, s1) := ReadU32(order, s).value;
    var Step(name, s2) := ReadUint(order, width, s1).value;
    RecordsInOrder(s2, order, width, depth, {}, EncodedFunction(AddressRange(base, base + size), name, None, None, [], []));
  }

  lemma {:induction false} MergedListInOrder(s: seq<uint8>, order: ByteOrder, width: nat, base: uint64, depth: nat, count: nat)
    requires DecodeMergedList(s, order, width, base, depth, count).Ok?
    ensures forall g :: g in DecodeMergedList(s, order, width, base, depth, count).value.value ==> EncodedInOrder(g)
    decreases |s|, 1
  {
    hide EncodedInOrder, DecodeFunction, ReadU32;
    if count > 0 {
      var Step(length, s1) := ReadU32(order, s).value;
      var Step(chunk, s2) := TakeBytes(s1, length).value;
      FunctionInOrder(chunk, order, width, base, depth);
      MergedListInOrder(s2, order, width, base, depth, count - 1);
    }
  }

  lemma {:induction false} MergedInOrder(payload: seq<uint8>, order: ByteOrder, width: nat, base: uint64, depth: nat)
    requires DecodeMerged(payload, order, width, base, depth).Ok?
    ensures forall g :: g in DecodeMerged(payload, order, width, base, depth).value ==> EncodedInOrder(g)
    decreases |payload|, 3
  {
    hide EncodedInOrder, DecodeMergedList, DecodeCount;
    var Step(count, s) := DecodeCount(payload, order, 4).value;
    MergedListInOrder(s, order, width, base, depth, count);
  }

  lemma {:induction false} ResolvedInOrder(image: Image, e: EncodedFunction)
    requires EncodedInOrder(e) && Resolve(image, e).Ok?
    ensures RowsInOrder(Resolve(image, e).value)
    decreases e, 1
  {
    hide SortedRows, ResolveList, SitesAt, StringAt, ResolveOptional;
    NoRowsSorted();
    ResolvedListInOrder(image, e.merged);
  }

  lemma NoRowsSorted()
    ensures SortedRows([])
  {
  }

  lemma {:induction false} ResolvedListInOrder(image: Image, es: seq<EncodedFunction>)
    requires (forall e :: e in es ==> EncodedInOrder(e)) && ResolveList(image, es).Ok?
    ensures forall f :: f in ResolveList(image, es).value ==> RowsInOrder(f)
    decreases es, 0
  {
    hide EncodedInOrder, RowsInOrder, Resolve;
    if es != [] {
      ResolvedInOrder(image, es[0]);
      ResolvedListInOrder(image, es[1..]);
    }
  }

  // ----------------------------------------------------------------------- strings

  lemma StringIsNulFree(image: Image, offset: uint64)
    requires StringAt(image, offset).Ok?
    ensures IsNulFree(StringAt(image, offset).value)
  {
  }

  lemma {:induction false} StringsAreNulFree(image: Image, offsets: seq<uint64>)
    requires StringsAt(image, offsets).Ok?
    ensures StringsNulFree(StringsAt(image, offsets).value)
  {
    hide StringAt, IsNulFree;
    if offsets != [] {
      StringIsNulFree(image, offsets[0]);
      StringsAreNulFree(image, offsets[1..]);
    }
  }

  lemma {:induction false} SitesAreNulFree(image: Image, sites: seq<EncodedCallSite>)
    requires SitesAt(image, sites).Ok?
    ensures SitesNulFree(SitesAt(image, sites).value)
  {
    hide StringsAt, StringsNulFree;
    if sites != [] {
      StringsAreNulFree(image, sites[0].matchRegex);
      SitesAreNulFree(image, sites[1..]);
    }
  }

  lemma {:induction false} InlineIsNulFree(image: Image, node: EncodedInlineNode)
    requires ResolveInline(image, node).Ok?
    ensures InlineNulFree(ResolveInline(image, node).value)
    decreases node, 1
  {
    hide StringAt, ResolveInlineList, InlineListNulFree;
    if node.name != 0 {
      StringIsNulFree(image, node.name);
    }
    InlineListIsNulFree(image, node.children);
  }

  lemma {:induction false} InlineListIsNulFree(image: Image, nodes: seq<EncodedInlineNode>)
    requires ResolveInlineList(image, nodes).Ok?
    ensures InlineListNulFree(ResolveInlineList(image, nodes).value)
    decreases nodes, 0
  {
    hide ResolveInline, InlineNulFree;
    if nodes != [] {
      InlineIsNulFree(image, nodes[0]);
      InlineListIsNulFree(image, nodes[1..]);
    }
  }

  lemma {:induction false} FunctionIsNulFree(image: Image, e: EncodedFunction)
    requires Resolve(image, e).Ok?
    ensures FunctionNulFree(Resolve(image, e).value)
    decreases e, 1
  {
    hide StringAt, ResolveList, SitesAt, ResolveInline, InlineNulFree, SitesNulFree, ListNulFree, IsNulFree;
    StringIsNulFree(image, e.name);
    SitesAreNulFree(image, e.callSites);
    FunctionListIsNulFree(image, e.merged);
    if e.inline.Some? {
      InlineIsNulFree(image, e.inline.value);
    }
  }

  lemma {:induction false} FunctionListIsNulFree(image: Image, es: seq<EncodedFunction>)
    requires ResolveList(image, es).Ok?
    ensures ListNulFree(ResolveList(image, es).value)
    decreases es, 0
  {
    hide Resolve, FunctionNulFree;
    if es != [] {
      FunctionIsNulFree(image, es[0]);
      FunctionListIsNulFree(image, es[1..]);
    }
  }

  predicate FileNulFree(file: FileEntry) {
    IsNulFree(file.directory) && IsNulFree(file.basename)
  }

  lemma {:induction false} FilesAreNulFree(image: Image, index: nat)
    requires index <= image.layout.fileCount && FilesFrom(image, index).Ok?
    ensures forall file :: file in FilesFrom(image, index).value ==> FileNulFree(file)
    ensures |FilesFrom(image, index).value| == image.layout.fileCount - index
    decreases image.layout.fileCount - index
  {
    hide StringAt, FilePairAt, IsNulFree;
    if index < image.layout.fileCount {
      var pair := FilePairAt(image, index).value;
      StringIsNulFree(image, pair.0);
      StringIsNulFree(image, pair.1);
      FilesAreNulFree(image, index + 1);
    }
  }

  /** Every decoded model has sorted rows, no NUL in any string, and no more files than an
      index can tell apart. */
  lemma DecodedIsRegular(image: Image)
    requires DecodeAll(image).Ok?
    ensures
      var d := DecodeAll(image).value;
      && (forall f :: f in d.functions ==> RowsInOrder(f))
      && ListNulFree(d.functions)
      && (forall file :: file in d.files ==> FileNulFree(file))
      && |d.files| <= U32_LIMIT
  {
    hide RowsInOrder, FunctionNulFree, EncodedInOrder, Verify, ResolveList, FilesFrom;
    var encoded := Verify(image).value;
    FunctionListIsNulFree(image, encoded);
    FilesAreNulFree(image, 0);
    ReservedIsNulFree();
    VerifiedAllInOrder(image, encoded);
    ResolvedListInOrder(image, encoded);
  }

  lemma ReservedIsNulFree()
    ensures FileNulFree(EMPTY_FILE)
  {
  }

  lemma VerifiedAllInOrder(image: Image, encoded: seq<EncodedFunction>)
    requires Verify(image) == Ok(encoded)
    ensures forall e :: e in encoded ==> EncodedInOrder(e)
  {
    hide *;
    VerifyWalksTable(image);
    VerifiedLength(image, 0, None, encoded);
    forall e | e in encoded
      ensures EncodedInOrder(e)
    {
      var i :| 0 <= i < |encoded| && encoded[i] == e;
      VerifiedEntry(image, encoded, i);
      VerifiedInOrder(image, i, e);
    }
  }

  lemma {:induction false} VerifiedInOrder(image: Image, i: nat, e: EncodedFunction)
    requires VerifiedAt(image, i, e.range.start) == Ok(e)
    ensures EncodedInOrder(e)
  {
    hide EncodedInOrder, FunctionAt, Check, DecodeFunction;
    var raw := FunctionAt(image, i, e.range.start).value;
    FunctionInOrder(raw.data, image.layout.order, image.layout.stringWidth, raw.range.start, 0);
  }
}
