/** What the reader accepts, in terms of the model: src/reader/owned.rs. */
module Acceptance {
  import opened Words
  import opened Wrappers
  import opened Wire
  import opened Leb
  import opened Model
  import opened Line
  import opened InlineInfo
  import opened FunctionInfo
  import opened Layout
  import opened Image
  import opened Verified
  import opened Validation
  import opened Strings
  import opened DecodedModel

  // ------------------------------------------------------------- a checked function

  /** Every file the function refers to, at any inline or merged depth, can be read. */
  ghost predicate FilesRead(image: Image, f: Function) {
    forall i: FileIndex :: RefersTo(f, i) ==> FileAt(image, i).Ok?
  }

  ghost predicate InlineFilesRead(image: Image, node: InlineNode) {
    forall i: FileIndex :: InlineRefersTo(node, i) ==> FileAt(image, i).Ok?
  }

  lemma {:induction false} InlineCheckIsExact(image: Image, e: EncodedInlineNode)
    ensures CheckInline(image, e).Ok? <==> ResolveInline(image, e).Ok? && InlineFilesRead(image, ResolveInline(image, e).value)
    decreases e, 1
  {
    hide StringAt, FileAt;
    InlineListCheckIsExact(image, e.children);
    if ResolveInline(image, e).Ok? {
      var node := ResolveInline(image, e).value;
      assert InlineRefersTo(node, e.callFile);
      assert forall child, i: FileIndex :: child in node.children && InlineRefersTo(child, i) ==> InlineRefersTo(node, i);
    }
  }

  lemma {:induction false} InlineListCheckIsExact(image: Image, es: seq<EncodedInlineNode>)
    ensures CheckInlineList(image, es).Ok? <==>
      ResolveInlineList(image, es).Ok? && forall node :: node in ResolveInlineList(image, es).value ==> InlineFilesRead(image, node)
    decreases es, 0
  {
    hide CheckInline, ResolveInline, InlineFilesRead;
    if es != [] {
      InlineCheckIsExact(image, es[0]);
      InlineListCheckIsExact(image, es[1..]);
      if ResolveInlineList(image, es).Ok? {
        var nodes := ResolveInlineList(image, es).value;
        assert nodes == [nodes[0]] + nodes[1..];
      }
    }
  }

  lemma {:induction false} InlineValidIsSound(image: Image, e: EncodedInlineNode, parents: seq<AddressRange>)
    requires ResolveInline(image, e).Ok?
    ensures ValidInline(e, parents) <==> SoundInline(ResolveInline(image, e).value, parents)
    decreases e, 1
  {
    hide StringAt, Within;
    InlineListValidIsSound(image, e.children, e.ranges);
  }

  lemma {:induction false} InlineListValidIsSound(image: Image, es: seq<EncodedInlineNode>, parents: seq<AddressRange>)
    requires ResolveInlineList(image, es).Ok?
    ensures (forall e :: e in es ==> ValidInline(e, parents))
       <==> (forall node :: node in ResolveInlineList(image, es).value ==> SoundInline(node, parents))
    decreases es, 0
  {
    hide ResolveInline, ValidInline, SoundInline;
    if es != [] {
      InlineValidIsSound(image, es[0], parents);
      InlineListValidIsSound(image, es[1..], parents);
      var nodes := ResolveInlineList(image, es).value;
      assert nodes == [nodes[0]] + nodes[1..] && es == [es[0]] + es[1..];
    }
  }

  lemma {:induction false} LinesCheckIsExact(image: Image, lines: seq<LineEntry>)
    ensures CheckLineFiles(image, lines).Ok? <==> forall line :: line in lines ==> FileAt(image, line.file).Ok?
    decreases |lines|
  {
    hide FileAt;
    if lines != [] {
      LinesCheckIsExact(image, lines[1..]);
      assert lines == [lines[0]] + lines[1..];
    }
  }

  lemma {:induction false} SitesResolved(image: Image, es: seq<EncodedCallSite>, range: AddressRange)
    requires SitesAt(image, es).Ok?
    ensures (forall e :: e in es ==> range.Size() != 0 ==> e.returnOffset < range.Size()) <==> SitesInside(SitesAt(image, es).value, range)
    decreases |es|
  {
    hide StringsAt;
    if es != [] {
      SitesResolved(image, es[1..], range);
      var sites := SitesAt(image, es).value;
      assert sites == [sites[0]] + sites[1..] && es == [es[0]] + es[1..];
    }
  }

  /** The parts of a resolved function. */
  lemma ResolvedAs(image: Image, e: EncodedFunction)
    requires Resolve(image, e).Ok?
    ensures
      var f := Resolve(image, e).value;
      && f.range == e.range && f.lines == LinesOf(e) && StringAt(image, e.name) == Ok(f.name)
      && SitesAt(image, e.callSites) == Ok(f.callSites) && ResolveList(image, e.merged) == Ok(f.merged)
      && match e.inline case None => f.inline == None
         case Some(node) => f.inline.Some? && ResolveInline(image, node) == Ok(f.inline.value)
  {
    hide StringAt, SitesAt, ResolveInline, ResolveList;
  }

  /** The structure the reader demands of one record is what the model calls sound. */
  lemma LocallyExact(image: Image, e: EncodedFunction, parent: Option<AddressRange>)
    requires Resolve(image, e).Ok?
    ensures
      var f := Resolve(image, e).value;
      Sound(f, parent) <==> ValidFunction(e, parent) && forall g :: g in f.merged ==> Sound(g, Some(f.range))
  {
    hide StringAt, SitesAt, ResolveInline, ResolveList, Resolve, ValidInline, SoundInline;
    ResolvedAs(image, e);
    var f := Resolve(image, e).value;
    SitesResolved(image, e.callSites, e.range);
    if e.inline.Some? {
      InlineValidIsSound(image, e.inline.value, [e.range]);
    }
  }

  lemma FilesReadParts(image: Image, f: Function)
    ensures FilesRead(image, f) <==>
      && (forall line :: line in f.lines ==> FileAt(image, line.file).Ok?)
      && (f.inline.Some? ==> InlineFilesRead(image, f.inline.value))
      && (forall g :: g in f.merged ==> FilesRead(image, g))
  {
    hide FileAt, InlineRefersTo;
    if FilesRead(image, f) {
      assert forall line :: line in f.lines ==> RefersTo(f, line.file);
      assert f.inline.Some? ==> forall i: FileIndex :: InlineRefersTo(f.inline.value, i) ==> RefersTo(f, i);
      assert forall g, i: FileIndex :: g in f.merged && RefersTo(g, i) ==> RefersTo(f, i);
    }
  }

  /** The reader accepts a record exactly when it converts to the model, the model is
      sound, merged functions nest within the limit, and every file referred to can be
      read. */
  lemma {:induction false} CheckIsExact(image: Image, e: EncodedFunction, parent: Option<AddressRange>, depth: nat)
    ensures Check(image, e, parent, depth).Ok? <==>
      && Resolve(image, e).Ok?
      && var f := Resolve(image, e).value;
      Sound(f, parent) && WithinMergedDepth(f, depth) && FilesRead(image, f)
    decreases e, 1
  {
    hide StringAt, SitesAt, FileAt, ResolveInline, ResolveOptional, CheckInline, CheckLineFiles, CheckList, ResolveList, ValidFunction, Sound,
      FilesRead, InlineFilesRead;
    CheckParts(image, e, parent, depth);
    if e.inline.Some? {
      InlineCheckIsExact(image, e.inline.value);
    }
    LinesCheckIsExact(image, LinesOf(e));
    ListCheckIsExact(image, e.merged, e.range, depth + 1);
    ResolveParts(image, e);
    if Resolve(image, e).Ok? {
      ResolvedAs(image, e);
      LocallyExact(image, e, parent);
      FilesReadParts(image, Resolve(image, e).value);
    }
  }

  lemma CheckParts(image: Image, e: EncodedFunction, parent: Option<AddressRange>, depth: nat)
    ensures Check(image, e, parent, depth).Ok? <==>
      && depth <= MAX_MERGED_DEPTH && ValidFunction(e, parent) && StringAt(image, e.name).Ok?
      && CheckLineFiles(image, LinesOf(e)).Ok? && (e.inline.Some? ==> CheckInline(image, e.inline.value).Ok?)
      && SitesAt(image, e.callSites).Ok? && CheckList(image, e.merged, e.range, depth + 1).Ok?
  {
    hide StringAt, SitesAt, FileAt, CheckInline, CheckLineFiles, CheckList, ValidFunction;
  }

  lemma ResolveParts(image: Image, e: EncodedFunction)
    ensures Resolve(image, e).Ok? <==>
      && StringAt(image, e.name).Ok? && SitesAt(image, e.callSites).Ok? && ResolveList(image, e.merged).Ok?
      && (e.inline.Some? ==> ResolveInline(image, e.inline.value).Ok?)
  {
    hide StringAt, SitesAt, ResolveInline, ResolveList;
  }

  lemma {:induction false} ListCheckIsExact(image: Image, es: seq<EncodedFunction>, parent: AddressRange, depth: nat)
    ensures CheckList(image, es, parent, depth).Ok? <==>
      && ResolveList(image, es).Ok?
      && forall f :: f in ResolveList(image, es).value ==> Sound(f, Some(parent)) && WithinMergedDepth(f, depth) && FilesRead(image, f)
    decreases es, 0
  {
    hide Check, Resolve, Sound, WithinMergedDepth, FilesRead;
    if es != [] {
      CheckIsExact(image, es[0], Some(parent), depth);
      ListCheckIsExact(image, es[1..], parent, depth);
      if ResolveList(image, es).Ok? {
        var fs := ResolveList(image, es).value;
        assert fs == [fs[0]] + fs[1..];
      }
    }
  }

  // ------------------------------------------------- what decoding alone guarantees

  predicate InOrder(ranges: seq<AddressRange>) {
    forall i :: 0 < i < |ranges| ==> ranges[i - 1].end <= ranges[i].start
  }

  /** Ranges in order at every node, and no node too deep. */
  predicate InlineShaped(e: EncodedInlineNode, depth: nat)
    decreases e
  {
    depth <= MAX_INLINE_DEPTH && InOrder(e.ranges) && forall child :: child in e.children ==> InlineShaped(child, depth + 1)
  }

  /** Sizes of 32 bits and shaped inline trees, at every merged depth. */
  predicate Shaped(e: EncodedFunction)
    decreases e
  {
    && e.range.Size() < U32_LIMIT
    && (e.inline.Some? ==> InlineShaped(e.inline.value, 0))
    && forall g :: g in e.merged ==> Shaped(g)
  }

  lemma {:induction false} RangesDecodeInOrder(s: seq<uint8>, count: nat, base: uint64, floor: uint64)
    requires DecodeRangeList(s, count, base, floor).Ok?
    ensures
      var ranges := DecodeRangeList(s, count, base, floor).value.value;
      InOrder(ranges) && (ranges != [] ==> floor <= ranges[0].start)
    decreases count
  {
    hide DecodeRange;
    if count > 0 {
      var Step(range, s1) := DecodeRange(s, base).value;
      RangesDecodeInOrder(s1, count - 1, base, range.end);
      var tail := DecodeRangeList(s1, count - 1, base, range.end).value.value;
      assert DecodeRangeList(s, count, base, floor).value.value == [range] + tail;
    }
  }

  lemma {:induction false} InlineDecodesShaped(s: seq<uint8>, order: ByteOrder, width: nat, base: uint64, depth: nat)
    requires DecodeInline(s, order, width, base, depth).Ok?
    ensures InlineShaped(DecodeInline(s, order, width, base, depth).value.value, depth)
    decreases |s|, 0
  {
    hide DecodeRangeList, DecodeHeader, DecodeChildren, ReadUleb, InOrder;
    var Step(count, s0) := ReadUleb(s).value;
    RangesDecodeInOrder(s0, count, base, 0);
    var Step(ranges, s1) := DecodeRanges(s, base).value;
    NoRangesInOrder();
    if ranges != [] {
      var Step(header, s2) := DecodeHeader(s1, order, width).value;
      if header.hasChildren {
        ChildrenDecodeShaped(s2, order, width, ranges, depth + 1);
      }
    }
  }

  lemma NoRangesInOrder()
    ensures InOrder([])
  {
  }

  lemma {:induction false} ChildrenDecodeShaped(s: seq<uint8>, order: ByteOrder, width: nat, parents: seq<AddressRange>, depth: nat)
    requires parents != [] && DecodeChildren(s, order, width, parents, depth).Ok?
    ensures forall child :: child in DecodeChildren(s, order, width, parents, depth).value.value ==> InlineShaped(child, depth)
    decreases |s|, 1
  {
    hide DecodeInline, InlineShaped, AllWithin;
    InlineDecodesShaped(s, order, width, parents[0].start, depth);
    var Step(child, s1) := DecodeInline(s, order, width, parents[0].start, depth).value;
    if child.ranges != [] {
      ChildrenDecodeShaped(s1, order, width, parents, depth);
      var siblings := DecodeChildren(s1, order, width, parents, depth).value.value;
      assert DecodeChildren(s, order, width, parents, depth).value.value == [child] + siblings;
    }
  }

  lemma RecordDecodesShaped(record: Record, order: ByteOrder, width: nat, depth: nat, f: EncodedFunction)
    requires ValidStringWidth(width) && Shaped(f) && DecodeRecord(record, order, width, depth, f).Ok?
    ensures Shaped(DecodeRecord(record, order, width, depth, f).value)
    decreases |record.payload|, 4
  {
    hide DecodeRows, DecodeInline, DecodeCallSites, DecodeMerged, InlineShaped;
    if record.kind == INFO_INLINE {
      InlineDecodesShaped(record.payload, order, width, f.range.start, 0);
    } else if record.kind == INFO_MERGED {
      MergedDecodesShaped(record.payload, order, width, f.range.start, depth + 1);
    }
  }

  lemma {:induction false} RecordsDecodeShaped(s: seq<uint8>, order: ByteOrder, width: nat, depth: nat, seen: set<uint32>, f: EncodedFunction)
    requires ValidStringWidth(width) && Shaped(f) && DecodeRecords(s, order, width, depth, seen, f).Ok?
    ensures Shaped(DecodeRecords(s, order, width, depth, seen, f).value.value)
    decreases |s|, 5
  {
    hide NextRecord, Observe, DecodeRecord, Shaped;
    var Step(next, rest) := NextRecord(s, order).value;
    if next.Some? {
      RecordDecodesShaped(next.value, order, width, depth, f);
      RecordsDecodeShaped(rest, order, width, depth, Observe(next.value.kind, seen).value, DecodeRecord(next.value, order, width, depth, f).value);
    }
  }

  lemma {:induction false} FunctionDecodesShaped(s: seq<uint8>, order: ByteOrder, width: nat, base: uint64, depth: nat)
    requires DecodeFunction(s, order, width, base, depth).Ok?
    ensures Shaped(DecodeFunction(s, order, width, base, depth).value.value)
    decreases |s|, 6
  {
    hide DecodeRecords, ReadU32, ReadUint;
    var Step(size, s1) := ReadU32(order, s).value;
    var Step(name, s2) := ReadUint(order, width, s1).value;
    RecordsDecodeShaped(s2, order, width, depth, {}, EncodedFunction(AddressRange(base, base + size), name, None, None, [], []));
  }

  lemma {:induction false} MergedDecodesShaped(payload: seq<uint8>, order: ByteOrder, width: nat, base: uint64, depth: nat)
    requires DecodeMerged(payload, order, width, base, depth).Ok?
    ensures forall g :: g in DecodeMerged(payload, order, width, base, depth).value ==> Shaped(g)
    decreases |payload|, 3
  {
    hide DecodeMergedList, ReadU32, Shaped;
    var Step(count, s) := DecodeCount(payload, order, 4).value;
    MergedListDecodesShaped(s, order, width, base, depth, count);
  }

  lemma {:induction false} MergedListDecodesShaped(s: seq<uint8>, order: ByteOrder, width: nat, base: uint64, depth: nat, count: nat)
    requires DecodeMergedList(s, order, width, base, depth, count).Ok?
    ensures forall g :: g in DecodeMergedList(s, order, width, base, depth, count).value.value ==> Shaped(g)
    decreases |s|, 1
  {
    hide DecodeFunction, ReadU32, TakeBytes, Shaped;
    if count > 0 {
      var Step(length, s1) := ReadU32(order, s).value;
      var Step(chunk, s2) := TakeBytes(s1, length).value;
      ChunkShorter(s, order);
      FunctionDecodesShaped(chunk, order, width, base, depth);
      MergedListDecodesShaped(s2, order, width, base, depth, count - 1);
      var tail := DecodeMergedList(s2, order, width, base, depth, count - 1).value.value;
      assert DecodeMergedList(s, order, width, base, depth, count).value.value == [DecodeExact(chunk, order, width, base, depth).value] + tail;
    }
  }

  lemma ChunkShorter(s: seq<uint8>, order: ByteOrder)
    requires ReadU32(order, s).Ok?
    ensures
      var Step(length, s1) := ReadU32(order, s).value;
      TakeBytes(s1, length).Ok? ==> |TakeBytes(s1, length).value.value| < |s| && |TakeBytes(s1, length).value.rest| < |s|
  {
    hide ReadU32;
  }

  // ------------------------------------------------------------ what a decoded model is

  /** The function has a name, and so have those merged into it. */
  predicate FunctionsNamed(f: Function)
    decreases f
  {
    f.name != [] && forall g :: g in f.merged ==> FunctionsNamed(g)
  }

  lemma {:induction false} InlineAdmissible(image: Image, e: EncodedInlineNode, parents: seq<AddressRange>, depth: nat)
    requires ResolveInline(image, e).Ok? && InlineShaped(e, depth)
    requires SoundInline(ResolveInline(image, e).value, parents)
    ensures AdmissibleInline(ResolveInline(image, e).value, parents, depth)
    decreases e, 1
  {
    hide StringAt, Within;
    InlineListAdmissible(image, e.children, e.ranges, depth + 1);
  }

  lemma {:induction false} InlineListAdmissible(image: Image, es: seq<EncodedInlineNode>, parents: seq<AddressRange>, depth: nat)
    requires ResolveInlineList(image, es).Ok? && forall e :: e in es ==> InlineShaped(e, depth)
    requires forall node :: node in ResolveInlineList(image, es).value ==> SoundInline(node, parents)
    ensures forall node :: node in ResolveInlineList(image, es).value ==> AdmissibleInline(node, parents, depth)
    decreases es, 0
  {
    hide ResolveInline, InlineShaped, SoundInline, AdmissibleInline;
    if es != [] {
      var nodes := ResolveInlineList(image, es).value;
      assert nodes == [nodes[0]] + nodes[1..];
      InlineAdmissible(image, es[0], parents, depth);
      InlineListAdmissible(image, es[1..], parents, depth);
    }
  }

  /** A sound record that decoded is one the builder takes, names apart. */
  lemma {:induction false} ShapedIsAdmissible(image: Image, e: EncodedFunction, parent: Option<AddressRange>, depth: nat)
    requires Resolve(image, e).Ok? && Shaped(e)
    requires Sound(Resolve(image, e).value, parent) && WithinMergedDepth(Resolve(image, e).value, depth)
    ensures Admissible(Resolve(image, e).value, parent, depth) <==> FunctionsNamed(Resolve(image, e).value)
    decreases e, 1
  {
    hide StringAt, SitesAt, ResolveInline, ResolveList, Resolve, LinesInside, SitesInside, SoundInline, AdmissibleInline, InlineShaped;
    ResolvedAs(image, e);
    if e.inline.Some? {
      InlineAdmissible(image, e.inline.value, [e.range], 0);
    }
    ShapedListAdmissible(image, e.merged, e.range, depth + 1);
  }

  lemma {:induction false} ShapedListAdmissible(image: Image, es: seq<EncodedFunction>, parent: AddressRange, depth: nat)
    requires ResolveList(image, es).Ok? && forall e :: e in es ==> Shaped(e)
    requires forall f :: f in ResolveList(image, es).value ==> Sound(f, Some(parent)) && WithinMergedDepth(f, depth)
    ensures (forall f :: f in ResolveList(image, es).value ==> Admissible(f, Some(parent), depth))
       <==> (forall f :: f in ResolveList(image, es).value ==> FunctionsNamed(f))
    decreases es, 0
  {
    hide Resolve, Shaped, Sound, WithinMergedDepth, Admissible, FunctionsNamed;
    if es != [] {
      var fs := ResolveList(image, es).value;
      assert fs == [fs[0]] + fs[1..] && fs[0] == Resolve(image, es[0]).value;
      ShapedIsAdmissible(image, es[0], Some(parent), depth);
      ShapedListAdmissible(image, es[1..], parent, depth);
    }
  }

  // ------------------------------------------------------------------- a whole image

  /** Entry `i` of the table decodes at its address to an acceptable function. */
  ghost predicate EntryAccepted(image: Image, i: nat) {
    && AddressAt(image, i).Ok?
    && var raw := FunctionAt(image, i, AddressAt(image, i).value);
    && raw.Ok? && DecodeRaw(image, raw.value).Ok?
    && var e := DecodeRaw(image, raw.value).value;
    && Resolve(image, e).Ok?
    && var f := Resolve(image, e).value;
    Sound(f, None) && WithinMergedDepth(f, 0) && FilesRead(image, f)
  }

  lemma EntryIsExact(image: Image, i: nat)
    requires AddressAt(image, i).Ok?
    ensures VerifiedAt(image, i, AddressAt(image, i).value).Ok? <==> EntryAccepted(image, i)
  {
    hide AddressAt, FunctionAt, DecodeRaw, Check, Resolve, Sound, WithinMergedDepth, FilesRead;
    var raw := FunctionAt(image, i, AddressAt(image, i).value);
    if raw.Ok? && DecodeRaw(image, raw.value).Ok? {
      CheckIsExact(image, DecodeRaw(image, raw.value).value, None, 0);
    }
  }

  /** Entry `i` starts no earlier than the address. */
  predicate NotBefore(image: Image, previous: Option<uint64>, i: nat) {
    AddressAt(image, i).Ok? && (previous.Some? ==> previous.value <= AddressAt(image, i).value)
  }

  /** Entry `i` starts no earlier than the one before it. */
  predicate Rises(image: Image, i: nat) {
    i > 0 ==> AddressAt(image, i - 1).Ok? && NotBefore(image, Some(AddressAt(image, i - 1).value), i)
  }

  lemma {:induction false} VerifyFromIsExact(image: Image, index: nat, previous: Option<uint64>)
    requires index <= image.layout.count
    ensures VerifyFrom(image, index, previous).Ok? <==>
      && (forall i :: index <= i < image.layout.count ==> EntryAccepted(image, i))
      && (forall i :: index < i < image.layout.count ==> Rises(image, i))
      && (index < image.layout.count ==> NotBefore(image, previous, index))
    decreases image.layout.count - index
  {
    hide AddressAt, VerifiedAt, EntryAccepted, NotBefore;
    if index < image.layout.count {
      if EntryAccepted(image, index) {
        EntryHasAddress(image, index);
      }
      if AddressAt(image, index).Ok? {
        EntryIsExact(image, index);
        var address := AddressAt(image, index).value;
        VerifyFromIsExact(image, index + 1, Some(address));
        assert Rises(image, index + 1) <==> NotBefore(image, Some(address), index + 1);
        VerifyStep(image, index, previous);
      }
    }
  }

  lemma VerifyStep(image: Image, index: nat, previous: Option<uint64>)
    requires index < image.layout.count && AddressAt(image, index).Ok?
    ensures VerifyFrom(image, index, previous).Ok? <==>
      && NotBefore(image, previous, index)
      && VerifiedAt(image, index, AddressAt(image, index).value).Ok?
      && VerifyFrom(image, index + 1, Some(AddressAt(image, index).value)).Ok?
  {
    hide AddressAt, VerifiedAt;
  }

  lemma EntryHasAddress(image: Image, i: nat)
    requires EntryAccepted(image, i)
    ensures AddressAt(image, i).Ok?
  {
    hide AddressAt, FunctionAt, DecodeRaw, Resolve, Sound, WithinMergedDepth, FilesRead;
  }

  lemma {:induction false} FilesFromIsExact(image: Image, index: nat)
    requires index <= image.layout.fileCount
    ensures FilesFrom(image, index).Ok? <==> forall i :: index <= i < image.layout.fileCount ==> FileAt(image, i).Ok?
    decreases image.layout.fileCount - index
  {
    hide FileAt;
    if index < image.layout.fileCount {
      FilesFromIsExact(image, index + 1);
    }
  }

  /** Verification accepts exactly the images whose string table begins with a NUL, whose
      first file is the empty one, whose files can all be read, and whose table entries lie
      at rising addresses and are acceptable. */
  lemma VerifyIsExact(image: Image)
    ensures Verify(image).Ok? <==>
      && image.layout.strings.start < |image.data| && image.data[image.layout.strings.start] == 0
      && (image.layout.fileCount > 0 ==> FileAt(image, 0) == Ok(EMPTY_FILE))
      && (forall i :: 0 <= i < image.layout.fileCount ==> FileAt(image, i).Ok?)
      && (forall i :: 0 <= i < image.layout.count ==> EntryAccepted(image, i) && Rises(image, i))
  {
    hide FileAt, EntryAccepted, AddressAt, VerifyFrom, FilesFrom, Rises, NotBefore;
    VerifyFromIsExact(image, 0, None);
    FilesFromIsExact(image, 0);
    if image.layout.count > 0 {
      FirstIsInTurn(image);
    }
  }

  lemma FirstIsInTurn(image: Image)
    ensures Rises(image, 0) && (EntryAccepted(image, 0) ==> NotBefore(image, None, 0))
  {
    hide AddressAt, EntryAccepted;
    if EntryAccepted(image, 0) {
      EntryHasAddress(image, 0);
    }
  }

  lemma {:induction false} ListResolvedAt(image: Image, es: seq<EncodedFunction>)
    requires ResolveList(image, es).Ok?
    ensures
      var fs := ResolveList(image, es).value;
      |fs| == |es| && forall i :: 0 <= i < |es| ==> Resolve(image, es[i]) == Ok(fs[i])
    decreases |es|
  {
    hide Resolve;
    if es != [] {
      ListResolvedAt(image, es[1..]);
    }
  }

  lemma EntryAdmissible(image: Image, i: nat, e: EncodedFunction, f: Function, limit: int)
    requires VerifiedAt(image, i, e.range.start) == Ok(e) && Resolve(image, e) == Ok(f)
    requires forall i: FileIndex :: FileAt(image, i).Ok? ==> i <= limit
    ensures Sound(f, None) && WithinMergedDepth(f, 0) && FilesAtMost(f, limit)
    ensures Admissible(f, None, 0) <==> FunctionsNamed(f)
    ensures f.range == e.range
  {
    hide FunctionAt, DecodeFunction, Check, Resolve, Sound, WithinMergedDepth, FileAt, Admissible, FunctionsNamed, FilesAtMost, Shaped, RefersTo;
    var raw := FunctionAt(image, i, e.range.start).value;
    FunctionDecodesShaped(raw.data, image.layout.order, image.layout.stringWidth, raw.range.start, 0);
    CheckIsExact(image, e, None, 0);
    ShapedIsAdmissible(image, e, None, 0);
    FilesBelow(f, limit);
    ResolvedAs(image, e);
  }

  lemma {:induction false} FilesFromAre(image: Image, index: nat)
    requires index <= image.layout.fileCount && FilesFrom(image, index).Ok?
    ensures |FilesFrom(image, index).value| == image.layout.fileCount - index
    ensures index < image.layout.fileCount ==> FileAt(image, index) == Ok(FilesFrom(image, index).value[0])
    decreases image.layout.fileCount - index
  {
    hide FileAt;
    if index < image.layout.fileCount {
      FilesFromAre(image, index + 1);
    }
  }

  lemma DecodedFilesAre(image: Image)
    requires DecodeAll(image).Ok?
    ensures
      var d := DecodeAll(image).value;
      && d.files != [] && d.files[0] == EMPTY_FILE
      && forall i: FileIndex :: FileAt(image, i).Ok? ==> i <= |d.files| - 1
  {
    hide StringAt, ResolveList, VerifyFrom, ReadUint;
    FilesFromAre(image, 0);
  }

  /** What decodes is a model the builder would take, but for functions whose name is an
      empty string: every function is sound, refers to files of the table, and starts no
      earlier than the one before. */
  lemma DecodedIsAdmissible(image: Image)
    requires DecodeAll(image).Ok?
    ensures
      var d := DecodeAll(image).value;
      && d.files != [] && d.files[0] == EMPTY_FILE && |d.functions| == image.layout.count
      && (forall f :: f in d.functions ==>
            && Sound(f, None) && WithinMergedDepth(f, 0) && FilesAtMost(f, |d.files| - 1)
            && (Admissible(f, None, 0) <==> FunctionsNamed(f)))
      && (forall i, j :: 0 <= i < j < |d.functions| ==> d.functions[i].range.start <= d.functions[j].range.start)
  {
    hide Verify, FilesFrom, FileAt, AddressAt, ResolveList, Sound, WithinMergedDepth, FilesAtMost, Admissible, FunctionsNamed, BuildId, VerifiedAt,
      Resolve;
    var d := DecodeAll(image).value;
    var es := Verify(image).value;
    DecodedFilesAre(image);
    ListResolvedAt(image, es);
    VerifiedCount(image);
    forall i: nat | i < |es|
      ensures
        var f := d.functions[i];
        && Sound(f, None) && WithinMergedDepth(f, 0) && FilesAtMost(f, |d.files| - 1)
        && (Admissible(f, None, 0) <==> FunctionsNamed(f)) && f.range == es[i].range
    {
      VerifiedEntry(image, es, i);
      EntryAdmissible(image, i, es[i], d.functions[i], |d.files| - 1);
    }
    forall i: nat, j: nat | i < j < |es|
      ensures d.functions[i].range.start <= d.functions[j].range.start
    {
      VerifiedEntry(image, es, j);
    }
  }

  lemma {:induction false} VerifiedCountFrom(image: Image, index: nat, previous: Option<uint64>)
    requires index <= image.layout.count && VerifyFrom(image, index, previous).Ok?
    ensures |VerifyFrom(image, index, previous).value| == image.layout.count - index
    decreases image.layout.count - index
  {
    hide AddressAt, VerifiedAt;
    if index < image.layout.count {
      VerifiedCountFrom(image, index + 1, Some(AddressAt(image, index).value));
    }
  }

  lemma VerifiedCount(image: Image)
    requires Verify(image).Ok?
    ensures |Verify(image).value| == image.layout.count
  {
    hide VerifyFrom, FilesFrom, CheckReserved;
    VerifiedCountFrom(image, 0, None);
  }
}
