/** What a successful `verify` of src/reader.rs guarantees, and its loop with the
    bitmap of files already checked. */
module Verified {
  import opened Words
  import opened Wrappers
  import opened Wire
  import opened Headers
  import opened Layout
  import opened Model
  import opened Line
  import opened InlineInfo
  import opened FunctionInfo
  import opened Image

  // ------------------------------------------------------------- decoded records

  lemma {:induction false} RecordsKeepRange(
    s: seq<uint8>, order: ByteOrder, width: nat, depth: nat, seen: set<uint32>, f: EncodedFunction)
    requires ValidStringWidth(width) && DecodeRecords(s, order, width, depth, seen, f).Ok?
    ensures
      var g := DecodeRecords(s, order, width, depth, seen, f).value.value;
      g.range == f.range && g.name == f.name
    decreases |s|
  {
    hide DecodeRows, DecodeInlinePayload, DecodeMerged, DecodeCallSites, NextRecord;
    var Step(next, rest) := NextRecord(s, order).value;
    if next.Some? {
      var record := next.value;
      var f' := DecodeRecord(record, order, width, depth, f).value;
      RecordsKeepRange(rest, order, width, depth, Observe(record.kind, seen).value, f');
    }
  }

  /** The header of a record is what the raw view shows of it, and its records
      decode from there. */
  lemma RawDecodes(image: Image, index: nat, start: uint64)
    requires RawFunctionAt(image, index, start).Ok?
    ensures
      var raw := RawFunctionAt(image, index, start).value;
      var blank := EncodedFunction(raw.range, raw.name, None, None, [], []);
      var f := DecodeRaw(image, raw);
      && raw.range.start == start
      && (f.Ok? ==>
            && f.value.range == raw.range && f.value.name == raw.name
            && ValidStringWidth(image.layout.stringWidth)
            && var records := DecodeRecords(raw.records, image.layout.order, image.layout.stringWidth, 0, {}, blank);
            && records.Ok? && records.value.value == f.value)
  {
    hide DecodeRecords, ReadU32, ReadUint, FunctionOffset;
    var raw := RawFunctionAt(image, index, start).value;
    if DecodeRaw(image, raw).Ok? {
      RecordsKeepRange(raw.records, image.layout.order, image.layout.stringWidth, 0, {},
                       EncodedFunction(raw.range, raw.name, None, None, [], []));
    }
  }

  /** One step of the table. */
  lemma EntryStep(image: Image, index: nat, previous: Option<uint64>, functions: seq<EncodedFunction>)
    requires index < image.layout.count && VerifyFrom(image, index, previous) == Ok(functions)
    ensures functions != []
    ensures AddressAt(image, index) == Ok(functions[0].range.start)
    ensures VerifiedAt(image, index, functions[0].range.start) == Ok(functions[0])
    ensures previous.Some? ==> previous.value <= functions[0].range.start
    ensures VerifyFrom(image, index + 1, Some(functions[0].range.start)) == Ok(functions[1..])
  {
    VerifiedRange(image, index, AddressAt(image, index).value);
    hide AddressAt, VerifiedAt;
  }

  /** Entry `i` of a table verified from `index` on. */
  lemma {:induction false} EntryFrom(
    image: Image, index: nat, previous: Option<uint64>, functions: seq<EncodedFunction>, i: nat)
    requires index <= i < image.layout.count && VerifyFrom(image, index, previous) == Ok(functions)
    ensures |functions| > i - index
    ensures AddressAt(image, i) == Ok(functions[i - index].range.start)
    ensures VerifiedAt(image, i, functions[i - index].range.start) == Ok(functions[i - index])
    ensures previous.Some? ==> previous.value <= functions[i - index].range.start
    decreases i - index
  {
    hide *;
    EntryStep(image, index, previous, functions);
    if index < i {
      EntryFrom(image, index + 1, Some(functions[0].range.start), functions[1..], i);
    }
  }

  lemma {:induction false} EntriesSorted(
    image: Image, index: nat, previous: Option<uint64>, functions: seq<EncodedFunction>, j: nat, i: nat)
    requires index <= j < i < image.layout.count && VerifyFrom(image, index, previous) == Ok(functions)
    ensures |functions| > i - index
    ensures functions[j - index].range.start <= functions[i - index].range.start
    decreases j - index
  {
    hide *;
    EntryStep(image, index, previous, functions);
    if index < j {
      EntriesSorted(image, index + 1, Some(functions[0].range.start), functions[1..], j, i);
    } else {
      EntryFrom(image, index + 1, Some(functions[0].range.start), functions[1..], i);
    }
  }

  lemma VerifiedRange(image: Image, index: nat, address: uint64)
    requires VerifiedAt(image, index, address).Ok?
    ensures VerifiedAt(image, index, address).value.range.start == address
  {
    hide RawFunctionAt, DecodeRaw, StringAt, Check;
    RawDecodes(image, index, address);
  }

  lemma {:induction false} VerifiedLength(
    image: Image, index: nat, previous: Option<uint64>, functions: seq<EncodedFunction>)
    requires index <= image.layout.count && VerifyFrom(image, index, previous) == Ok(functions)
    ensures |functions| == image.layout.count - index
    decreases image.layout.count - index
  {
    hide AddressAt, VerifiedAt;
    if index < image.layout.count {
      EntryStep(image, index, previous, functions);
      VerifiedLength(image, index + 1, Some(functions[0].range.start), functions[1..]);
    }
  }

  lemma VerifyWalksTable(image: Image)
    requires Verify(image).Ok?
    ensures Verify(image) == VerifyFrom(image, 0, None)
  {
    hide CheckReserved, VerifyFrom, FilesFrom;
  }

  /** Each entry of a verified image is the function at its index, fully
      checked, and the entries are sorted by start address. */
  lemma VerifiedEntry(image: Image, functions: seq<EncodedFunction>, i: nat)
    requires Verify(image) == Ok(functions) && i < image.layout.count
    ensures |functions| == image.layout.count
    ensures AddressAt(image, i) == Ok(functions[i].range.start)
    ensures VerifiedAt(image, i, functions[i].range.start) == Ok(functions[i])
    ensures forall j :: 0 <= j < i ==> functions[j].range.start <= functions[i].range.start
  {
    hide *;
    VerifyWalksTable(image);
    VerifiedLength(image, 0, None, functions);
    EntryFrom(image, 0, None, functions, i);
    forall j | 0 <= j < i
      ensures functions[j].range.start <= functions[i].range.start
    {
      EntriesSorted(image, 0, None, functions, j, i);
    }
  }

  // ------------------------------------- checked functions resolve to the model

  lemma {:induction false} CheckedInlineResolves(image: Image, node: EncodedInlineNode)
    requires CheckInline(image, node).Ok?
    ensures ResolveInline(image, node).Ok?
    decreases node, 1
  {
    hide StringAt, FileAt;
    CheckedInlineListResolves(image, node.children);
  }

  lemma {:induction false} CheckedInlineListResolves(image: Image, nodes: seq<EncodedInlineNode>)
    requires CheckInlineList(image, nodes).Ok?
    ensures ResolveInlineList(image, nodes).Ok?
    decreases nodes, 0
  {
    if nodes != [] {
      CheckedInlineResolves(image, nodes[0]);
      CheckedInlineListResolves(image, nodes[1..]);
    }
  }

  /** Validation covers everything the conversion to the owned model reads, so
      a checked function always converts. */
  lemma {:induction false} CheckedResolves(image: Image, f: EncodedFunction, parent: Option<AddressRange>, depth: nat)
    requires Check(image, f, parent, depth).Ok?
    ensures Resolve(image, f).Ok?
    decreases f, 1
  {
    hide StringAt, CheckLineFiles, CheckInline, SitesAt, ValidFunction, ResolveInline;
    if f.inline.Some? {
      CheckedInlineResolves(image, f.inline.value);
    }
    CheckedListResolves(image, f.merged, f.range, depth + 1);
  }

  lemma {:induction false} CheckedListResolves(image: Image, functions: seq<EncodedFunction>, parent: AddressRange, depth: nat)
    requires CheckList(image, functions, parent, depth).Ok?
    ensures ResolveList(image, functions).Ok?
    decreases functions, 0
  {
    if functions != [] {
      CheckedResolves(image, functions[0], Some(parent), depth);
      CheckedListResolves(image, functions[1..], parent, depth);
    }
  }
}
