/** `Gsym::transcode` of src/transform.rs: a whole image decoded, renumbered and
    written again in a chosen version and byte order. */
module Transcode {
  import opened Words
  import opened Wrappers
  import opened Wire
  import opened Headers
  import opened Layout
  import opened Model
  import opened Line
  import opened Image
  import opened Reader
  import opened Sorting
  import opened Ordering
  import opened FinalizeSort
  import opened Finalize
  import opened Builder
  import opened Strings
  import opened NulFree
  import opened Encodability
  import opened DecodedModel
  import opened Renumber
  import opened Writer

  // ---------------------------------------------------------------------- meaning

  /** The file entry and line in effect at an address. */
  function NamedAt(rows: seq<LineEntry>, files: seq<FileEntry>, address: uint64): Option<(FileEntry, uint32)> {
    match LocationAt(rows, address)
    case None => None
    case Some((file, line)) => if file < |files| then Some((files[file], line)) else None
  }

  ghost predicate SameLocations(rows: seq<LineEntry>, files: seq<FileEntry>, others: seq<LineEntry>, otherFiles: seq<FileEntry>) {
    forall address: uint64 :: NamedAt(rows, files, address) == NamedAt(others, otherFiles, address)
  }

  /** Two functions that answer every question alike: range, name, the file and line at
      every address, the inline tree, the merged functions and the call sites. */
  ghost predicate SameMeaning(f: Function, files: seq<FileEntry>, g: Function, otherFiles: seq<FileEntry>)
    decreases f, 1
  {
    && f.range == g.range && f.name == g.name && f.callSites == g.callSites
    && SameLocations(f.lines, files, g.lines, otherFiles)
    && (match f.inline case None => g.inline == None
        case Some(node) => g.inline.Some? && SameInline(node, files, g.inline.value, otherFiles))
    && SameMeaningList(f.merged, files, g.merged, otherFiles)
  }

  ghost predicate SameMeaningList(functions: seq<Function>, files: seq<FileEntry>, others: seq<Function>, otherFiles: seq<FileEntry>)
    decreases functions, 0
  {
    if functions == [] || others == [] then functions == [] && others == []
    else SameMeaning(functions[0], files, others[0], otherFiles) && SameMeaningList(functions[1..], files, others[1..], otherFiles)
  }

  lemma {:induction false} SameRowsInEffect(
    rows: seq<LineEntry>, files: seq<FileEntry>, others: seq<LineEntry>, otherFiles: seq<FileEntry>, address: uint64)
    requires SameLines(rows, files, others, otherFiles)
    ensures NamedAt(rows, files, address) == NamedAt(others, otherFiles, address)
    decreases |rows|
  {
    if rows != [] && rows[|rows| - 1].address > address {
      SameRowsInEffect(rows[..|rows| - 1], files, others[..|rows| - 1], otherFiles, address);
    }
  }

  lemma CompactedNames(rows: seq<LineEntry>, files: seq<FileEntry>, others: seq<LineEntry>, otherFiles: seq<FileEntry>)
    requires SameLines(rows, files, others, otherFiles) && SortedRows(rows)
    ensures SameLocations(rows, files, CompactRows(others), otherFiles)
  {
    hide InEffect, CompactRows, LocationAt;
    assert SortedRows(others);
    forall address: uint64
      ensures NamedAt(rows, files, address) == NamedAt(CompactRows(others), otherFiles, address)
    {
      SameRowsInEffect(rows, files, others, otherFiles, address);
      CompactKeepsLocation(others, address);
    }
  }

  /** Compacting a renumbered function keeps its meaning. */
  lemma {:induction false} CompactedMeans(f: Function, files: seq<FileEntry>, g: Function, otherFiles: seq<FileEntry>)
    requires SameFunction(f, files, g, otherFiles) && RowsInOrder(f)
    ensures SameMeaning(f, files, Compact(g), otherFiles)
    decreases f, 1
  {
    hide SameLines, SortedRows, SameLocations, CompactRows, SameInline;
    CompactedNames(f.lines, files, g.lines, otherFiles);
    CompactedListMeans(f.merged, files, g.merged, otherFiles);
  }

  lemma {:induction false} CompactedListMeans(
    functions: seq<Function>, files: seq<FileEntry>, others: seq<Function>, otherFiles: seq<FileEntry>)
    requires SameFunctionList(functions, files, others, otherFiles) && forall f :: f in functions ==> RowsInOrder(f)
    ensures SameMeaningList(functions, files, CompactList(others), otherFiles)
    decreases functions, 0
  {
    hide SameFunction, SameMeaning, RowsInOrder, Compact;
    if functions != [] {
      CompactedMeans(functions[0], files, others[0], otherFiles);
      CompactedListMeans(functions[1..], files, others[1..], otherFiles);
    }
  }

  lemma {:induction false} MeaningAt(functions: seq<Function>, files: seq<FileEntry>, others: seq<Function>, otherFiles: seq<FileEntry>)
    requires SameMeaningList(functions, files, others, otherFiles)
    ensures |functions| == |others|
    ensures forall i :: 0 <= i < |functions| ==> SameMeaning(functions[i], files, others[i], otherFiles)
    decreases functions
  {
    hide SameMeaning;
    if functions != [] {
      MeaningAt(functions[1..], files, others[1..], otherFiles);
    }
  }

  // ----------------------------------------------------------------------- strings

  lemma {:induction false} SameInlineNulFree(node: InlineNode, files: seq<FileEntry>, other: InlineNode, otherFiles: seq<FileEntry>)
    requires SameInline(node, files, other, otherFiles) && InlineNulFree(node)
    ensures InlineNulFree(other)
    decreases node, 1
  {
    hide IsNulFree;
    SameInlineListNulFree(node.children, files, other.children, otherFiles);
  }

  lemma {:induction false} SameInlineListNulFree(
    nodes: seq<InlineNode>, files: seq<FileEntry>, others: seq<InlineNode>, otherFiles: seq<FileEntry>)
    requires SameInlineList(nodes, files, others, otherFiles) && InlineListNulFree(nodes)
    ensures InlineListNulFree(others)
    decreases nodes, 0
  {
    hide SameInline, InlineNulFree;
    if nodes != [] {
      SameInlineNulFree(nodes[0], files, others[0], otherFiles);
      SameInlineListNulFree(nodes[1..], files, others[1..], otherFiles);
    }
  }

  lemma {:induction false} CompactedNulFree(f: Function, files: seq<FileEntry>, g: Function, otherFiles: seq<FileEntry>)
    requires SameFunction(f, files, g, otherFiles) && FunctionNulFree(f)
    ensures FunctionNulFree(Compact(g))
    decreases f, 1
  {
    hide IsNulFree, SameInline, InlineNulFree, SameLines, SitesNulFree, CompactRows;
    if f.inline.Some? {
      SameInlineNulFree(f.inline.value, files, g.inline.value, otherFiles);
    }
    CompactedListNulFree(f.merged, files, g.merged, otherFiles);
  }

  lemma {:induction false} CompactedListNulFree(
    functions: seq<Function>, files: seq<FileEntry>, others: seq<Function>, otherFiles: seq<FileEntry>)
    requires SameFunctionList(functions, files, others, otherFiles) && ListNulFree(functions)
    ensures ListNulFree(CompactList(others))
    decreases functions, 0
  {
    hide SameFunction, FunctionNulFree, Compact;
    if functions != [] {
      CompactedNulFree(functions[0], files, others[0], otherFiles);
      CompactedListNulFree(functions[1..], files, others[1..], otherFiles);
    }
  }

  lemma {:induction false} NulFreeMembers(functions: seq<Function>)
    ensures ListNulFree(functions) <==> forall f :: f in functions ==> FunctionNulFree(f)
  {
    hide FunctionNulFree;
    if functions != [] {
      NulFreeMembers(functions[1..]);
      assert functions == [functions[0]] + functions[1..] && functions[0] in functions;
      assert forall f :: f in functions[1..] ==> f in functions;
    }
  }

  lemma SortedNulFree(functions: seq<Function>)
    requires ListNulFree(functions)
    ensures ListNulFree(Sort(FunctionLeq, functions))
  {
    hide FunctionNulFree, ListNulFree, Sort, FunctionLeq;
    NulFreeMembers(functions);
    NulFreeMembers(Sort(FunctionLeq, functions));
    SortMembers(FunctionLeq, functions);
  }

  lemma TableNulFree(newFiles: seq<FileEntry>, files: seq<FileEntry>, functions: seq<Function>)
    requires TableOf(newFiles, files, functions) && forall file :: file in files ==> FileNulFree(file)
    ensures forall i :: 0 <= i < |newFiles| ==> IsNulFree(newFiles[i].directory) && IsNulFree(newFiles[i].basename)
  {
    hide AnyRefersTo, Distinct, IsNulFree;
    ReservedIsNulFree();
    forall i | 0 <= i < |newFiles|
      ensures FileNulFree(newFiles[i])
    {
      assert newFiles[i] in newFiles;
    }
  }

  // ------------------------------------------------------------------- transcoding

  /** A row with the first index of its file entry. */
  function CanonicalRow(row: LineEntry, files: seq<FileEntry>): LineEntry {
    if row.file < |files| then row.(file := IndexIn(files, files[row.file])) else row
  }

  function CanonicalRows(rows: seq<LineEntry>, files: seq<FileEntry>): seq<LineEntry> {
    seq(|rows|, i requires 0 <= i < |rows| => CanonicalRow(rows[i], files))
  }

  /** The function as the writer ranks it: rows that name the same file entry and line in
      a row count once. */
  function Ranked(f: Function, files: seq<FileEntry>): Function {
    f.(lines := CompactRows(CanonicalRows(f.lines, files)))
  }

  function WrittenLeq(files: seq<FileEntry>): (Function, Function) -> bool {
    (f: Function, g: Function) => FunctionLeq(Ranked(f, files), Ranked(g, files))
  }

  /** The order in which functions that refer to these files are written. */
  function AsWritten(functions: seq<Function>, files: seq<FileEntry>): seq<Function> {
    Sort(WrittenLeq(files), functions)
  }

  /** Both pairs of rows have one location, or neither. */
  lemma SameStep(row: LineEntry, last: LineEntry, files: seq<FileEntry>, other: LineEntry, otherLast: LineEntry, otherFiles: seq<FileEntry>)
    requires Distinct(otherFiles)
    requires SameFile(row.file, files, other.file, otherFiles) && row.line == other.line
    requires SameFile(last.file, files, otherLast.file, otherFiles) && last.line == otherLast.line
    ensures SameLocation(CanonicalRow(row, files), CanonicalRow(last, files)) == SameLocation(other, otherLast)
  {
  }

  lemma {:induction false} SameCountAfter(
    last: LineEntry, rows: seq<LineEntry>, files: seq<FileEntry>, otherLast: LineEntry, others: seq<LineEntry>, otherFiles: seq<FileEntry>)
    requires Distinct(otherFiles) && SameLines(rows, files, others, otherFiles)
    requires SameFile(last.file, files, otherLast.file, otherFiles) && last.line == otherLast.line
    ensures |CompactAfter(CanonicalRow(last, files), CanonicalRows(rows, files))| == |CompactAfter(otherLast, others)|
    decreases |rows|
  {
    hide SameLocation, CanonicalRow, Distinct;
    if rows != [] {
      SameStep(rows[0], last, files, others[0], otherLast, otherFiles);
      assert CanonicalRows(rows, files)[1..] == CanonicalRows(rows[1..], files);
      SameCountAfter(last, rows[1..], files, otherLast, others[1..], otherFiles);
      SameCountAfter(rows[0], rows[1..], files, others[0], others[1..], otherFiles);
    }
  }

  lemma SameCount(rows: seq<LineEntry>, files: seq<FileEntry>, others: seq<LineEntry>, otherFiles: seq<FileEntry>)
    requires Distinct(otherFiles) && SameLines(rows, files, others, otherFiles)
    ensures |CompactRows(CanonicalRows(rows, files))| == |CompactRows(others)|
  {
    hide CanonicalRow, Distinct;
    if rows != [] {
      assert CanonicalRows(rows, files)[1..] == CanonicalRows(rows[1..], files);
      SameCountAfter(rows[0], rows[1..], files, others[0], others[1..], otherFiles);
    }
  }

  lemma {:induction false} SameQuality(node: InlineNode, files: seq<FileEntry>, other: InlineNode, otherFiles: seq<FileEntry>)
    requires SameInline(node, files, other, otherFiles)
    ensures InlineQuality(node) == InlineQuality(other) && |node.children| == |other.children|
    decreases node, 1
  {
    SameQualities((1, |node.ranges|, 1), node.children, files, other.children, otherFiles);
  }

  lemma {:induction false} SameQualities(
    total: (nat, nat, nat), nodes: seq<InlineNode>, files: seq<FileEntry>, others: seq<InlineNode>, otherFiles: seq<FileEntry>)
    requires SameInlineList(nodes, files, others, otherFiles)
    ensures AddChildren(total, nodes) == AddChildren(total, others) && |nodes| == |others|
    decreases nodes, 0
  {
    hide SameInline, InlineQuality;
    if nodes != [] {
      SameQuality(nodes[0], files, others[0], otherFiles);
      var child := InlineQuality(nodes[0]);
      SameQualities((total.0 + child.0, total.1 + child.1, Max(total.2, child.2 + 1)), nodes[1..], files, others[1..], otherFiles);
    }
  }

  lemma {:induction false} SameLength(functions: seq<Function>, files: seq<FileEntry>, others: seq<Function>, otherFiles: seq<FileEntry>)
    requires SameFunctionList(functions, files, others, otherFiles)
    ensures |functions| == |others|
    decreases functions
  {
    hide SameFunction;
    if functions != [] {
      SameLength(functions[1..], files, others[1..], otherFiles);
    }
  }

  /** Renumbering over a table without repeats and compacting give the rank. */
  lemma RankIs(f: Function, files: seq<FileEntry>, g: Function, otherFiles: seq<FileEntry>)
    requires SameFunction(f, files, g, otherFiles) && Distinct(otherFiles)
    ensures FullKey(Compact(g), true) == FullKey(Ranked(f, files), true)
  {
    hide Distinct, CompactRows, CanonicalRows, InlineQuality, SameInline, SameLines, SameFunctionList, CompactList;
    SameCount(f.lines, files, g.lines, otherFiles);
    SameLength(f.merged, files, g.merged, otherFiles);
    if f.inline.Some? {
      SameQuality(f.inline.value, files, g.inline.value, otherFiles);
    }
  }

  lemma {:induction false} RanksAre(functions: seq<Function>, files: seq<FileEntry>, others: seq<Function>, otherFiles: seq<FileEntry>)
    requires SameFunctionList(functions, files, others, otherFiles) && Distinct(otherFiles)
    ensures |functions| == |others| == |CompactList(others)|
    ensures forall i :: 0 <= i < |functions| ==> FullKey(CompactList(others)[i], true) == FullKey(Ranked(functions[i], files), true)
    decreases functions
  {
    hide SameFunction, Distinct, FullKey, Ranked, Compact;
    if functions != [] {
      RankIs(functions[0], files, others[0], otherFiles);
      RanksAre(functions[1..], files, others[1..], otherFiles);
    }
  }

  function Pairs(functions: seq<Function>, others: seq<Function>): seq<(Function, Function)>
    requires |functions| == |others|
  {
    seq(|functions|, i requires 0 <= i < |functions| => (functions[i], others[i]))
  }

  function First(pair: (Function, Function)): Function {
    pair.0
  }

  function Second(pair: (Function, Function)): Function {
    pair.1
  }

  lemma MeaningList(functions: seq<Function>, files: seq<FileEntry>, others: seq<Function>, otherFiles: seq<FileEntry>)
    requires |functions| == |others| && forall i :: 0 <= i < |functions| ==> SameMeaning(functions[i], files, others[i], otherFiles)
    ensures SameMeaningList(functions, files, others, otherFiles)
    decreases functions
  {
    hide SameMeaning;
    if functions != [] {
      MeaningList(functions[1..], files, others[1..], otherFiles);
    }
  }

  /** Sorting the written functions is sorting the functions they come from. */
  lemma SortedMeans(functions: seq<Function>, files: seq<FileEntry>, others: seq<Function>, otherFiles: seq<FileEntry>)
    requires SameMeaningList(functions, files, others, otherFiles) && |functions| == |others|
    requires forall i :: 0 <= i < |functions| ==> FullKey(others[i], true) == FullKey(Ranked(functions[i], files), true)
    ensures SameMeaningList(AsWritten(functions, files), files, Sort(FunctionLeq, others), otherFiles)
  {
    hide SameMeaning, SameMeaningList, FunctionLeq, FullKey, Ranked, Sort, WrittenLeq;
    MeaningAt(functions, files, others, otherFiles);
    var pairs := Pairs(functions, others);
    var leq := (p: (Function, Function), q: (Function, Function)) => FunctionLeq(p.1, q.1);
    forall p, q | p in pairs && q in pairs
      ensures leq(p, q) == WrittenLeq(files)(First(p), First(q))
    {
      KeysDecide(p.1, q.1, p.0, q.0, files);
    }
    SortMapped(leq, WrittenLeq(files), First, pairs);
    SortMapped(leq, FunctionLeq, Second, pairs);
    assert Mapped(First, pairs) == functions && Mapped(Second, pairs) == others;
    var sorted := Sort(leq, pairs);
    SortMembers(leq, pairs);
    forall i | 0 <= i < |sorted|
      ensures SameMeaning(Mapped(First, sorted)[i], files, Mapped(Second, sorted)[i], otherFiles)
    {
      assert sorted[i] in pairs;
    }
    MeaningList(Mapped(First, sorted), files, Mapped(Second, sorted), otherFiles);
  }

  lemma KeysDecide(f: Function, g: Function, f': Function, g': Function, files: seq<FileEntry>)
    requires FullKey(f, true) == FullKey(Ranked(f', files), true) && FullKey(g, true) == FullKey(Ranked(g', files), true)
    ensures FunctionLeq(f, g) == WrittenLeq(files)(f', g')
  {
    hide FullKey, Ranked, KeyLeq;
  }

  /** What reading the transcoded bytes gives, compared with the model `d`; offset zero
      stands for the empty names. */
  ghost predicate Transcoded(bytes: seq<uint8>, d: DecodedGsym, version: Version, order: ByteOrder) {
    && Load(bytes).Ok? && Verify(Load(bytes).value).Ok? && DecodeAll(Load(bytes).value).Ok?
    && var back := DecodeAll(Load(bytes).value).value;
    && back.version == version && back.order == order && back.base == d.base && back.buildId == d.buildId
    && TableOf(back.files, d.files, d.functions)
    && SameMeaningList(AsWritten(d.functions, d.files), d.files, back.functions, back.files)
    && AllTell(Verify(Load(bytes).value).value, back.functions)
  }

  function OptionsFor(d: DecodedGsym, version: Version, order: ByteOrder): WriterOptions {
    WriterOptions(version, order, Some(d.base), d.buildId, Preserved, false, [])
  }

  lemma ReadsBackTranscoded(
    bytes: seq<uint8>, d: DecodedGsym, version: Version, order: ByteOrder, newFiles: seq<FileEntry>, renumbered: seq<Function>)
    requires (forall f :: f in d.functions ==> RowsInOrder(f)) && ListNulFree(d.functions)
    requires forall file :: file in d.files ==> FileNulFree(file)
    requires TableOf(newFiles, d.files, d.functions) && SameFunctionList(d.functions, d.files, renumbered, newFiles)
    requires ReadsBack(bytes, OptionsFor(d, version, order), newFiles, FinalFunctions(renumbered, OptionsFor(d, version, order)))
    ensures Transcoded(bytes, d, version, order)
  {
    hide RowsInOrder, ListNulFree, FileNulFree, SameFunctionList, SameMeaningList, TableOf, CompactList, Sort, CutFiles, AsWritten, FullKey, Ranked,
      CutList, Verify, DecodeAll, Load, IsNulFree, FunctionLeq, AllTell;
    var final := Sort(FunctionLeq, CompactList(renumbered));
    PreservedOnlySorts(renumbered, d, version, order);
    TableDistinct(newFiles, d.files, d.functions);
    CompactedListMeans(d.functions, d.files, renumbered, newFiles);
    CompactedListNulFree(d.functions, d.files, renumbered, newFiles);
    SortedNulFree(CompactList(renumbered));
    TableNulFree(newFiles, d.files, d.functions);
    NulFreeReadsBack(newFiles, final);
    RanksAre(d.functions, d.files, renumbered, newFiles);
    SortedMeans(d.functions, d.files, CompactList(renumbered), newFiles);
  }

  lemma TableDistinct(newFiles: seq<FileEntry>, files: seq<FileEntry>, functions: seq<Function>)
    requires TableOf(newFiles, files, functions)
    ensures Distinct(newFiles)
  {
    hide Distinct, AnyRefersTo;
  }

  lemma PreservedOnlySorts(functions: seq<Function>, d: DecodedGsym, version: Version, order: ByteOrder)
    ensures FinalFunctions(functions, OptionsFor(d, version, order)) == Sort(FunctionLeq, CompactList(functions))
  {
    hide Sort, CompactList, FunctionLeq;
  }

  /** What `DecodedIsRegular` shows of a decoded model, and so of any window of it. */
  ghost predicate Regular(d: DecodedGsym) {
    && (forall f :: f in d.functions ==> RowsInOrder(f))
    && ListNulFree(d.functions)
    && (forall file :: file in d.files ==> FileNulFree(file))
    && |d.files| <= U32_LIMIT
  }

  /** The bytes a model is transcoded to, if it can be: a function of the model and the
      choices alone. */
  ghost function ModelBytes(d: DecodedGsym, version: Version, order: ByteOrder): Result<seq<uint8>> {
    if !Rebuildable(d.files, d.functions) then Err(InvalidModel)
    else BuilderBytes(Rebuilt(d.files, d.functions).0, Rebuilt(d.files, d.functions).1, OptionsFor(d, version, order))
  }

  /** `DecodedGsym::transcode`, and what `segments` does with each window of the
      functions: renumber into a builder, then write. */
  method TranscodeModel(d: DecodedGsym, version: Option<Version>, order: Option<ByteOrder>) returns (r: Result<seq<uint8>>)
    requires Regular(d)
    ensures r.Ok? ==> Transcoded(r.value, d, version.UnwrapOr(d.version), order.UnwrapOr(d.order))
    ensures SameOutcome(r, ModelBytes(d, version.UnwrapOr(d.version), order.UnwrapOr(d.order)))
  {
    hide BuilderBytes, Rebuilt, Transcoded, RowsInOrder, ListNulFree, FileNulFree, TableOf, SameFunctionList, ReadsBack, FinalFunctions, Rebuildable;
    var builder := BuilderFor(d.files, d.functions);
    if builder.Err? {
      return Err(builder.error);
    }
    var chosenVersion, chosenOrder := version.UnwrapOr(d.version), order.UnwrapOr(d.order);
    ghost var c;
    r, c := EncodeBuilder(builder.value, OptionsFor(d, chosenVersion, chosenOrder));
    if r.Ok? {
      ReadsBackTranscoded(r.value, d, chosenVersion, chosenOrder, builder.value.files, builder.value.functions);
    }
  }

  /** A window of a regular model is regular. */
  lemma WindowIsRegular(d: DecodedGsym, sorted: seq<Function>, a: nat, b: nat)
    requires Regular(d) && a <= b <= |sorted| && forall f :: f in sorted ==> f in d.functions
    ensures Regular(d.(functions := sorted[a..b]))
  {
    hide RowsInOrder, ListNulFree, FunctionNulFree, FileNulFree;
    NulFreeMembers(d.functions);
    NulFreeMembers(sorted[a..b]);
  }

  /** `Gsym::transcode`: whatever image decodes, if it can be written in the chosen
      version and byte order then the result verifies and means the same: base
      address, build ID, and every function with the same file and line at every
      address, the same inline tree, merged functions and call sites, over a table of
      exactly the files referred to. */
  method TranscodeImage(image: Image, version: Option<Version>, order: Option<ByteOrder>) returns (r: Result<seq<uint8>>)
    ensures r.Ok? ==>
      && DecodeAll(image).Ok?
      && var d := DecodeAll(image).value;
      Transcoded(r.value, d, version.UnwrapOr(d.version), order.UnwrapOr(d.order))
  {
    hide DecodeAll, Transcoded, RowsInOrder, ListNulFree, FileNulFree;
    var decoded := ReadAll(image);
    if decoded.Err? {
      return Err(decoded.error);
    }
    DecodedIsRegular(image);
    r := TranscodeModel(decoded.value, version, order);
  }
}
