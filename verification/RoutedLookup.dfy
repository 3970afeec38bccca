/** Lookups in the bytes of a segment, or of any transcoded image, compared with lookups
    in the image it was made from. */
module RoutedLookup {
  import opened Words
  import opened Wrappers
  import opened Wire
  import opened Model
  import opened Line
  import opened InlineInfo
  import opened FunctionInfo
  import opened InlineScan
  import opened Layout
  import opened Image
  import opened AddressSearch
  import L = Lookup
  import opened Frames
  import opened Finalize
  import opened Renumber
  import opened Sorting
  import opened Transcode
  import opened DecodedModel
  import opened Strings
  import S = Segments
  import opened Routing

  // ------------------------------------------------- a report in terms of the model

  /** Entry `i` of the table is selected, decodes to `f` and is what the lookup reports. */
  ghost predicate ShowsAt(
      image: Image, es: seq<EncodedFunction>, i: nat, f: Function, address: uint64, options: LookupOptions, hit: LookupResult) {
    && i < |es| && Selected(L.RangesOf(es), address, i)
    && Resolve(image, es[i]) == Ok(f) && Answers(image, es[i], address, options, hit)
  }

  /** The selected entry decodes to `f` and is what the lookup reports. */
  ghost predicate Shows(image: Image, f: Function, address: uint64, options: LookupOptions, hit: LookupResult) {
    Verify(image).Ok? && exists i: nat :: ShowsAt(image, Verify(image).value, i, f, address, options, hit)
  }

  lemma {:induction false} ResolvedAt(image: Image, es: seq<EncodedFunction>)
    requires ResolveList(image, es).Ok?
    ensures
      var fs := ResolveList(image, es).value;
      |fs| == |es| && forall i :: 0 <= i < |es| ==> Resolve(image, es[i]) == Ok(fs[i]) && es[i].range == fs[i].range
    decreases es
  {
    hide Resolve;
    if es != [] {
      ResolvedAt(image, es[1..]);
      ResolvedRange(image, es[0]);
    }
  }

  lemma ResolvedRange(image: Image, e: EncodedFunction)
    requires Resolve(image, e).Ok?
    ensures Resolve(image, e).value.range == e.range
  {
    hide ResolveList, SitesAt, StringAt, ResolveOptional;
  }

  /** A report names the function that answers in the decoded model. */
  lemma ReportIsAnswer(image: Image, d: DecodedGsym, address: uint64, options: LookupOptions, answer: Option<LookupResult>)
    requires Verify(image).Ok? && DecodeAll(image) == Ok(d) && Finds(image, Verify(image).value, address, options, answer)
    ensures answer.Some? <==> Answer(d.functions, address).Some?
    ensures answer.Some? ==> Shows(image, Answer(d.functions, address).value, address, options, answer.value)
  {
    hide Verify, FilesFrom, Resolve, ResolveList, Answer, Selected, Answers;
    var es := Verify(image).value;
    ResolvedAt(image, es);
    assert L.RangesOf(es) == S.RangesOf(d.functions);
    if answer.None? {
      NothingIsSelected(d.functions, address);
    } else {
      forall i: nat | Selected(L.RangesOf(es), address, i)
        ensures i < |es|
      {
        SelectedInTable(es, address, i);
      }
      var index: nat :| Selected(L.RangesOf(es), address, index) && Answers(image, es[index], address, options, answer.value);
      AnswerIsSelected(d.functions, address, index);
      assert ShowsAt(image, es, index, d.functions[index], address, options, answer.value);
    }
  }

  /** Tables of the same meaning answer with the same meaning. */
  lemma MeaningAnswers(
    functions: seq<Function>, files: seq<FileEntry>, others: seq<Function>, otherFiles: seq<FileEntry>, address: uint64)
    requires SameMeaningList(functions, files, others, otherFiles)
    ensures
      var answer, other := Answer(functions, address), Answer(others, address);
      && (answer.Some? <==> other.Some?)
      && (answer.Some? ==> SameMeaning(answer.value, files, other.value, otherFiles))
  {
    hide SameMeaningList, Answer, Selected;
    MeaningAt(functions, files, others, otherFiles);
    SameRanges(functions, files, others, otherFiles);
    if i: nat :| Selected(S.RangesOf(functions), address, i) {
      AnswerIsSelected(functions, address, i);
      AnswerIsSelected(others, address, i);
    } else {
      NothingIsSelected(functions, address);
      NothingIsSelected(others, address);
    }
  }

  lemma SameRanges(functions: seq<Function>, files: seq<FileEntry>, others: seq<Function>, otherFiles: seq<FileEntry>)
    requires |functions| == |others| && forall i :: 0 <= i < |functions| ==> SameMeaning(functions[i], files, others[i], otherFiles)
    ensures S.RangesOf(functions) == S.RangesOf(others)
  {
    hide SameLocations, SameInline, SameMeaningList;
    forall i | 0 <= i < |functions|
      ensures functions[i].range == others[i].range
    {
      assert SameMeaning(functions[i], files, others[i], otherFiles);
    }
  }

  // --------------------------------------------------------------- the same results

  /** Two decoded images: file references resolve to the entries of their models. */
  ghost predicate FilesOf(image: Image, files: seq<FileEntry>) {
    forall i: FileIndex :: FileAt(image, i).Ok? ==> i < |files| && FileAt(image, i).value == files[i]
  }

  lemma {:induction false} FilesFromAt(image: Image, index: nat)
    requires index <= image.layout.fileCount && FilesFrom(image, index).Ok?
    ensures
      var files := FilesFrom(image, index).value;
      && |files| == image.layout.fileCount - index
      && forall i :: index <= i < image.layout.fileCount ==> FileAt(image, i) == Ok(files[i - index])
    decreases image.layout.fileCount - index
  {
    hide FileAt;
    if index < image.layout.fileCount {
      FilesFromAt(image, index + 1);
    }
  }

  lemma DecodedFiles(image: Image, d: DecodedGsym)
    requires DecodeAll(image) == Ok(d)
    ensures FilesOf(image, d.files)
  {
    hide Verify, ResolveList, FilesFrom, StringAt;
    FilesFromAt(image, 0);
    forall i: FileIndex | FileAt(image, i).Ok?
      ensures i < |d.files| && FileAt(image, i).value == d.files[i]
    {
      ReadableIndex(image, i);
    }
  }

  lemma ReadableIndex(image: Image, i: FileIndex)
    requires FileAt(image, i).Ok?
    ensures i < image.layout.fileCount
  {
    hide StringAt;
  }

  /** The named nodes on the path through a decoded tree. */
  function NodeStep(node: InlineNode): seq<InlineNode> {
    if node.name != [] && node.ranges != [] then [node] else []
  }

  function NodePath(node: InlineNode, address: uint64): seq<InlineNode>
    decreases node, 1
  {
    if Covers(node.ranges, address) then NodeStep(node) + NodePathBelow(node.children, address) else []
  }

  function NodePathBelow(children: seq<InlineNode>, address: uint64): seq<InlineNode>
    decreases children, 0
  {
    if children == [] then []
    else if Covers(children[0].ranges, address) then NodePath(children[0], address)
    else NodePathBelow(children[1..], address)
  }

  /** No frame of the path has a string that turns out empty. */
  predicate Named(image: Image, path: seq<RawInlineFrame>) {
    forall frame :: frame in path ==> StringAt(image, frame.name).Ok? && StringAt(image, frame.name).value != []
  }

  predicate StepShows(image: Image, frame: RawInlineFrame, node: InlineNode) {
    && StringAt(image, frame.name) == Ok(node.name) && frame.callFile == node.callFile && frame.callLine == node.callLine
    && node.ranges != [] && frame.start == node.ranges[0].start
  }

  predicate PathShows(image: Image, path: seq<RawInlineFrame>, nodes: seq<InlineNode>) {
    |path| == |nodes| && forall k :: 0 <= k < |path| ==> StepShows(image, path[k], nodes[k])
  }

  lemma PathJoins(image: Image, a: seq<RawInlineFrame>, b: seq<RawInlineFrame>, x: seq<InlineNode>, y: seq<InlineNode>)
    requires PathShows(image, a, x) && PathShows(image, b, y)
    ensures PathShows(image, a + b, x + y)
  {
    hide StepShows;
  }

  lemma FrameShows(image: Image, e: EncodedInlineNode, node: InlineNode)
    requires ResolveInline(image, e) == Ok(node) && Named(image, FrameOf(e))
    ensures PathShows(image, FrameOf(e), NodeStep(node))
  {
    hide StringAt, ResolveInlineList;
  }

  lemma {:induction false} PathIsShown(image: Image, e: EncodedInlineNode, node: InlineNode, address: uint64)
    requires ResolveInline(image, e) == Ok(node) && Named(image, Path(e, address))
    ensures PathShows(image, Path(e, address), NodePath(node, address))
    decreases e, 1
  {
    hide StringAt, Covers, ResolveInlineList, FrameOf, NodeStep, PathShows;
    SameShape(image, e, node);
    if Covers(e.ranges, address) {
      FrameShows(image, e, node);
      PathBelowIsShown(image, e.children, node.children, address);
      PathJoins(image, FrameOf(e), PathBelow(e.children, address), NodeStep(node), NodePathBelow(node.children, address));
    } else {
      NothingShown(image);
    }
  }

  lemma NothingShown(image: Image)
    ensures PathShows(image, [], [])
  {
  }

  lemma SameShape(image: Image, e: EncodedInlineNode, node: InlineNode)
    requires ResolveInline(image, e) == Ok(node)
    ensures e.ranges == node.ranges && ResolveInlineList(image, e.children) == Ok(node.children)
  {
    hide StringAt, ResolveInlineList;
  }

  lemma {:induction false} PathBelowIsShown(image: Image, es: seq<EncodedInlineNode>, nodes: seq<InlineNode>, address: uint64)
    requires ResolveInlineList(image, es) == Ok(nodes) && Named(image, PathBelow(es, address))
    ensures PathShows(image, PathBelow(es, address), NodePathBelow(nodes, address))
    decreases es, 0
  {
    hide StringAt, Covers, ResolveInline, PathShows;
    if es == [] {
      NothingShown(image);
    } else {
      SameShape(image, es[0], nodes[0]);
      if Covers(es[0].ranges, address) {
        PathIsShown(image, es[0], nodes[0], address);
      } else {
        PathBelowIsShown(image, es[1..], nodes[1..], address);
      }
    }
  }

  predicate SameStep(node: InlineNode, files: seq<FileEntry>, other: InlineNode, otherFiles: seq<FileEntry>) {
    && node.ranges == other.ranges && node.name == other.name && node.callLine == other.callLine
    && SameFile(node.callFile, files, other.callFile, otherFiles)
  }

  predicate SamePath(nodes: seq<InlineNode>, files: seq<FileEntry>, others: seq<InlineNode>, otherFiles: seq<FileEntry>) {
    |nodes| == |others| && forall k :: 0 <= k < |nodes| ==> SameStep(nodes[k], files, others[k], otherFiles)
  }

  lemma SamePathJoins(
    a: seq<InlineNode>, b: seq<InlineNode>, files: seq<FileEntry>, x: seq<InlineNode>, y: seq<InlineNode>, otherFiles: seq<FileEntry>)
    requires SamePath(a, files, x, otherFiles) && SamePath(b, files, y, otherFiles)
    ensures SamePath(a + b, files, x + y, otherFiles)
  {
    hide SameStep;
  }

  /** Trees of the same meaning have the same path. */
  lemma {:induction false} SameTreeSamePath(
    node: InlineNode, files: seq<FileEntry>, other: InlineNode, otherFiles: seq<FileEntry>, address: uint64)
    requires SameInline(node, files, other, otherFiles)
    ensures SamePath(NodePath(node, address), files, NodePath(other, address), otherFiles)
    decreases node, 1
  {
    hide Covers, SameInlineList;
    if Covers(node.ranges, address) {
      SameListSamePath(node.children, files, other.children, otherFiles, address);
      SamePathJoins(NodeStep(node), NodePathBelow(node.children, address), files,
                    NodeStep(other), NodePathBelow(other.children, address), otherFiles);
    }
  }

  lemma {:induction false} SameListSamePath(
    nodes: seq<InlineNode>, files: seq<FileEntry>, others: seq<InlineNode>, otherFiles: seq<FileEntry>, address: uint64)
    requires SameInlineList(nodes, files, others, otherFiles)
    ensures SamePath(NodePathBelow(nodes, address), files, NodePathBelow(others, address), otherFiles)
    decreases nodes, 0
  {
    hide Covers, SameInline;
    if nodes != [] {
      SameHead(nodes[0], files, others[0], otherFiles);
      if Covers(nodes[0].ranges, address) {
        SameTreeSamePath(nodes[0], files, others[0], otherFiles, address);
      } else {
        SameListSamePath(nodes[1..], files, others[1..], otherFiles, address);
      }
    }
  }

  lemma SameHead(node: InlineNode, files: seq<FileEntry>, other: InlineNode, otherFiles: seq<FileEntry>)
    requires SameInline(node, files, other, otherFiles)
    ensures node.ranges == other.ranges
  {
  }

  /** The locations two rows in effect give are the same. */
  lemma SameRow(
    image: Image, files: seq<FileEntry>, rows: seq<LineEntry>, frame: LookupFrame,
    segment: Image, otherFiles: seq<FileEntry>, others: seq<LineEntry>, other: LookupFrame, address: uint64)
    requires FilesOf(image, files) && FilesOf(segment, otherFiles)
    requires NamedAt(rows, files, address) == NamedAt(others, otherFiles, address)
    requires AtRow(image, InEffect(rows, address), frame) && AtRow(segment, InEffect(others, address), other)
    ensures frame.file == other.file && frame.line == other.line
  {
    hide FileAt, InEffect;
  }

  lemma SameRowAt(
    image: Image, files: seq<FileEntry>, e: EncodedFunction, frame: LookupFrame,
    segment: Image, otherFiles: seq<FileEntry>, o: EncodedFunction, other: LookupFrame, address: uint64, options: LookupOptions)
    requires FilesOf(image, files) && FilesOf(segment, otherFiles)
    requires NamedAt(LinesOf(e), files, address) == NamedAt(LinesOf(o), otherFiles, address)
    requires AtRow(image, RowAt(e, address, options), frame) && AtRow(segment, RowAt(o, address, options), other)
    ensures frame.file == other.file && frame.line == other.line
  {
    hide FileAt, InEffect, NamedAt, FilesOf;
    if options.lineInformation {
      SameRow(image, files, LinesOf(e), frame, segment, otherFiles, LinesOf(o), other, address);
    }
  }

  lemma ResolvedParts(image: Image, e: EncodedFunction, f: Function)
    requires Resolve(image, e) == Ok(f)
    ensures f.range == e.range && f.lines == LinesOf(e) && StringAt(image, e.name) == Ok(f.name)
    ensures SitesAt(image, e.callSites) == Ok(f.callSites)
    ensures match e.inline case None => f.inline == None
            case Some(node) => f.inline.Some? && ResolveInline(image, node) == Ok(f.inline.value)
  {
    hide ResolveList, SitesAt, StringAt, ResolveInline;
  }

  /** The frames show a name each. */
  predicate AllNamed(frames: seq<LookupFrame>) {
    forall frame :: frame in frames ==> frame.name != []
  }

  /** Of a function with a name, the frames show one each exactly when the inline path
      holds no string that turns out empty. */
  lemma NamedFrames(image: Image, e: EncodedFunction, address: uint64, options: LookupOptions, frames: seq<LookupFrame>)
    requires Describes(image, e, address, options, frames) && StringAt(image, e.name).Ok? && StringAt(image, e.name).value != []
    ensures AllNamed(frames) <==> Named(image, InlinePath(e, address, options))
  {
    hide StringAt, AtRow, FileAt, InlinePath;
    var path := InlinePath(e, address, options);
    if AllNamed(frames) {
      forall frame | frame in path
        ensures StringAt(image, frame.name).Ok? && StringAt(image, frame.name).value != []
      {
        var i :| 0 <= i < |path| && path[i] == frame;
        var k: nat := |path| - 1 - i;
        assert DescribesNode(image, path, RowAt(e, address, options), address, k, frames[k]);
        assert frames[k] in frames;
      }
    }
    if Named(image, path) && path != [] {
      forall frame | frame in frames
        ensures frame.name != []
      {
        var k: nat :| k < |frames| && frames[k] == frame;
        assert DescribesNode(image, path, RowAt(e, address, options), address, k, frames[k]);
        assert path[|path| - 1 - k] in path;
      }
    }
  }

  /** Where offset zero stands for the empty names, no path holds one. */
  lemma {:induction false} TellingPathNamed(image: Image, e: EncodedInlineNode, node: InlineNode, address: uint64)
    requires ResolveInline(image, e) == Ok(node) && NodeTells(e, node)
    ensures Named(image, Path(e, address))
    decreases e, 1
  {
    hide StringAt, Covers, ResolveInlineList, NodesTell;
    if Covers(e.ranges, address) {
      TellingBelowNamed(image, e.children, node.children, address);
    }
  }

  lemma {:induction false} TellingBelowNamed(image: Image, es: seq<EncodedInlineNode>, nodes: seq<InlineNode>, address: uint64)
    requires ResolveInlineList(image, es) == Ok(nodes) && NodesTell(es, nodes)
    ensures Named(image, PathBelow(es, address))
    decreases es, 0
  {
    hide StringAt, Covers, ResolveInline, NodeTells;
    if es != [] {
      if Covers(es[0].ranges, address) {
        TellingPathNamed(image, es[0], nodes[0], address);
      } else {
        TellingBelowNamed(image, es[1..], nodes[1..], address);
      }
    }
  }

  lemma TellingNamed(image: Image, e: EncodedFunction, f: Function, address: uint64, options: LookupOptions)
    requires Resolve(image, e) == Ok(f) && Tells(e, f)
    ensures Named(image, InlinePath(e, address, options))
  {
    hide StringAt, ResolveInline, Path, NodeTells, Resolve;
    ResolvedParts(image, e, f);
    if options.inlineFrames && e.inline.Some? {
      TellingPathNamed(image, e.inline.value, f.inline.value, address);
    }
  }

  /** The path of a function: nothing when inline frames are not asked for. */
  function NodesOf(f: Function, address: uint64, options: LookupOptions): seq<InlineNode> {
    if options.inlineFrames && f.inline.Some? then NodePath(f.inline.value, address) else []
  }

  lemma PathOfIsShown(image: Image, e: EncodedFunction, f: Function, address: uint64, options: LookupOptions)
    requires Resolve(image, e) == Ok(f) && Named(image, InlinePath(e, address, options))
    ensures PathShows(image, InlinePath(e, address, options), NodesOf(f, address, options))
  {
    hide StringAt, ResolveInline, PathShows, Named, Path, NodePath, Resolve;
    ResolvedParts(image, e, f);
    NothingShown(image);
    if options.inlineFrames && e.inline.Some? {
      PathIsShown(image, e.inline.value, f.inline.value, address);
    }
  }

  lemma SameNodes(f: Function, files: seq<FileEntry>, g: Function, otherFiles: seq<FileEntry>, address: uint64, options: LookupOptions)
    requires SameMeaning(f, files, g, otherFiles)
    ensures SamePath(NodesOf(f, address, options), files, NodesOf(g, address, options), otherFiles)
  {
    hide SameLocations, SameInline, SameMeaningList, NodePath, SameStep;
    if options.inlineFrames && f.inline.Some? {
      SameTreeSamePath(f.inline.value, files, g.inline.value, otherFiles, address);
    }
  }

  /** One frame of the path in both images. */
  lemma SameNodeFrame(
    image: Image, files: seq<FileEntry>, path: seq<RawInlineFrame>, nodes: seq<InlineNode>, row: Option<LineEntry>, frame: LookupFrame,
    segment: Image, otherFiles: seq<FileEntry>, others: seq<RawInlineFrame>, otherNodes: seq<InlineNode>, otherRow: Option<LineEntry>,
    other: LookupFrame, address: uint64, k: nat)
    requires FilesOf(image, files) && FilesOf(segment, otherFiles)
    requires PathShows(image, path, nodes) && PathShows(segment, others, otherNodes) && SamePath(nodes, files, otherNodes, otherFiles)
    requires k < |path| == |others|
    requires DescribesNode(image, path, row, address, k, frame) && DescribesNode(segment, others, otherRow, address, k, other)
    requires k == 0 ==> frame.file == other.file && frame.line == other.line
    ensures frame == other
  {
    hide StringAt, FileAt, AtRow;
    var i := |path| - 1 - k;
    assert StepShows(image, path[i], nodes[i]) && StepShows(segment, others[i], otherNodes[i]);
    assert SameStep(nodes[i], files, otherNodes[i], otherFiles);
    if k > 0 {
      assert StepShows(image, path[i + 1], nodes[i + 1]) && StepShows(segment, others[i + 1], otherNodes[i + 1]);
      assert SameStep(nodes[i + 1], files, otherNodes[i + 1], otherFiles);
    }
  }

  lemma SameFrames(
    image: Image, files: seq<FileEntry>, e: EncodedFunction, f: Function, frames: seq<LookupFrame>,
    segment: Image, otherFiles: seq<FileEntry>, o: EncodedFunction, g: Function, others: seq<LookupFrame>,
    address: uint64, options: LookupOptions)
    requires FilesOf(image, files) && FilesOf(segment, otherFiles)
    requires Resolve(image, e) == Ok(f) && Resolve(segment, o) == Ok(g) && SameMeaning(f, files, g, otherFiles)
    requires Describes(image, e, address, options, frames) && Named(image, InlinePath(e, address, options))
    requires Describes(segment, o, address, options, others) && Named(segment, InlinePath(o, address, options))
    ensures frames == others
  {
    hide FilesOf, Resolve, SameMeaning, PathShows, SamePath, InlinePath, NodesOf, RowAt, AtRow, StringAt, Named, DescribesNode,
      NamedAt;
    ResolvedParts(image, e, f);
    ResolvedParts(segment, o, g);
    PathOfIsShown(image, e, f, address, options);
    PathOfIsShown(segment, o, g, address, options);
    SameNodes(f, files, g, otherFiles, address, options);
    var path, otherPath := InlinePath(e, address, options), InlinePath(o, address, options);
    SameLengths(image, path, NodesOf(f, address, options), files, segment, otherPath, NodesOf(g, address, options), otherFiles);
    MeaningParts(f, files, g, otherFiles, address);
    InnermostRows(image, e, address, options, frames);
    InnermostRows(segment, o, address, options, others);
    SameRowAt(image, files, e, frames[0], segment, otherFiles, o, others[0], address, options);
    if path != [] {
      forall k: nat | k < |path|
        ensures frames[k] == others[k]
      {
        SameNodeFrame(image, files, path, NodesOf(f, address, options), RowAt(e, address, options), frames[k],
                      segment, otherFiles, otherPath, NodesOf(g, address, options), RowAt(o, address, options), others[k], address, k);
      }
    }
  }

  lemma SameLengths(
    image: Image, path: seq<RawInlineFrame>, nodes: seq<InlineNode>, files: seq<FileEntry>,
    segment: Image, others: seq<RawInlineFrame>, otherNodes: seq<InlineNode>, otherFiles: seq<FileEntry>)
    requires PathShows(image, path, nodes) && PathShows(segment, others, otherNodes) && SamePath(nodes, files, otherNodes, otherFiles)
    ensures |path| == |others|
  {
  }

  lemma MeaningParts(f: Function, files: seq<FileEntry>, g: Function, otherFiles: seq<FileEntry>, address: uint64)
    requires SameMeaning(f, files, g, otherFiles)
    ensures f.range == g.range && f.name == g.name && f.callSites == g.callSites
    ensures NamedAt(f.lines, files, address) == NamedAt(g.lines, otherFiles, address)
  {
    hide SameInline, SameMeaningList, NamedAt;
  }

  lemma InnermostRows(image: Image, e: EncodedFunction, address: uint64, options: LookupOptions, frames: seq<LookupFrame>)
    requires Describes(image, e, address, options, frames)
    ensures frames != [] && AtRow(image, RowAt(e, address, options), frames[0])
  {
    hide AtRow, StringAt, FileAt, InlinePath, RowAt;
    var path := InlinePath(e, address, options);
    if path != [] {
      assert DescribesNode(image, path, RowAt(e, address, options), address, 0, frames[0]);
    }
  }

  /** The patterns of the decoded call sites that return to this offset. */
  function ModelPatterns(sites: seq<CallSite>, offset: uint64): seq<seq<uint8>> {
    if sites == [] then []
    else if sites[0].returnOffset != offset then ModelPatterns(sites[1..], offset)
    else sites[0].matchRegex + ModelPatterns(sites[1..], offset)
  }

  lemma {:induction false} PatternsAre(image: Image, sites: seq<EncodedCallSite>, resolved: seq<CallSite>, offset: uint64)
    requires SitesAt(image, sites) == Ok(resolved)
    ensures PatternsAt(image, sites, offset) == Ok(ModelPatterns(resolved, offset))
  {
    hide StringsAt;
    if sites != [] {
      PatternsAre(image, sites[1..], resolved[1..], offset);
    }
  }

  // ------------------------------------------------------------------ the conclusion

  /** In the function a lookup selects, some inline node on the path to the address has a
      name that is not left out but whose string is empty. */
  ghost predicate Nameless(image: Image, address: uint64, options: LookupOptions)
    requires Verify(image).Ok?
  {
    var es := Verify(image).value;
    exists i: nat :: i < |es| && Selected(L.RangesOf(es), address, i) && !Named(image, InlinePath(es[i], address, options))
  }

  lemma OneSelected(ranges: seq<AddressRange>, address: uint64, i: nat, j: nat)
    requires Selected(ranges, address, i) && Selected(ranges, address, j)
    ensures i == j
  {
    hide Candidate;
  }

  lemma NamelessIs(image: Image, address: uint64, options: LookupOptions, i: nat)
    requires Verify(image).Ok? && i < |Verify(image).value| && Selected(L.RangesOf(Verify(image).value), address, i)
    ensures Nameless(image, address, options) <==> !Named(image, InlinePath(Verify(image).value[i], address, options))
  {
    hide Verify, Selected, Named, InlinePath;
    var es := Verify(image).value;
    if j: nat :| j < |es| && Selected(L.RangesOf(es), address, j) && !Named(image, InlinePath(es[j], address, options)) {
      OneSelected(L.RangesOf(es), address, i, j);
    }
  }

  /** Verified functions have a name offset. */
  lemma VerifiedNamed(image: Image, i: nat)
    requires Verify(image).Ok? && i < |Verify(image).value|
    ensures Verify(image).value[i].name != 0
  {
    hide Verify, DecodeRaw, StringAt, FunctionOffset, ReadU32, ReadUint, Check;
    L.VerifiedRaw(image, Verify(image).value, i);
  }

  lemma TellsAt(image: Image, d: DecodedGsym, i: nat)
    requires Verify(image).Ok? && DecodeAll(image) == Ok(d) && AllTell(Verify(image).value, d.functions)
    requires i < |Verify(image).value|
    ensures i < |d.functions| && Tells(Verify(image).value[i], d.functions[i])
    ensures Resolve(image, Verify(image).value[i]) == Ok(d.functions[i])
    ensures d.functions[i].name != []
  {
    hide Verify, FilesFrom, Resolve, ResolveList, NodeTells;
    ResolvedAt(image, Verify(image).value);
    VerifiedNamed(image, i);
  }

  /** The result of an entry in terms of its function. */
  lemma SamePatterns(
    image: Image, e: EncodedFunction, f: Function, hit: LookupResult, segment: Image, o: EncodedFunction, g: Function, other: LookupResult,
    address: uint64, options: LookupOptions)
    requires Resolve(image, e) == Ok(f) && Answers(image, e, address, options, hit)
    requires Resolve(segment, o) == Ok(g) && Answers(segment, o, address, options, other)
    requires f.range == g.range && f.callSites == g.callSites
    ensures hit.range == other.range && hit.patterns == other.patterns
  {
    hide Resolve, Describes, PatternsAt;
    ResolvedParts(image, e, f);
    ResolvedParts(segment, o, g);
    PatternsAre(image, e.callSites, f.callSites, SaturatingSub(address, hit.range.start));
    PatternsAre(segment, o.callSites, g.callSites, SaturatingSub(address, hit.range.start));
  }

  /** Two lookups in functions of the same meaning, the second in an image whose offsets
      tell its names, give the same result exactly when the first shows a name for every
      inline frame. */
  lemma SameResults(
    image: Image, d: DecodedGsym, f: Function, hit: LookupResult, other: Image, back: DecodedGsym, g: Function, part: LookupResult,
    address: uint64, options: LookupOptions)
    requires DecodeAll(image) == Ok(d) && DecodeAll(other) == Ok(back) && SameMeaning(f, d.files, g, back.files)
    requires Shows(image, f, address, options, hit) && Shows(other, g, address, options, part)
    requires AllTell(Verify(other).value, back.functions)
    ensures hit == part <==> !Nameless(image, address, options)
  {
    hide DecodeAll, Verify, SameMeaning, Resolve, Answers, Describes, AllNamed, PatternsAt, FilesOf, Selected, Named, InlinePath, AllTell, Tells,
      Nameless;
    DecodedFiles(image, d);
    DecodedFiles(other, back);
    var es, os := Verify(image).value, Verify(other).value;
    var i: nat :| ShowsAt(image, es, i, f, address, options, hit);
    var j: nat :| ShowsAt(other, os, j, g, address, options, part);
    NamelessIs(image, address, options, i);
    TellsAt(other, back, j);
    MeaningParts(f, d.files, g, back.files, address);
    SamePatterns(image, es[i], f, hit, other, os[j], g, part, address, options);
    TellingNamed(other, os[j], g, address, options);
    AnswerFrames(image, es[i], f, address, options, hit);
    AnswerFrames(other, os[j], g, address, options, part);
    if Named(image, InlinePath(es[i], address, options)) {
      SameFrames(image, d.files, es[i], f, hit.frames, other, back.files, os[j], g, part.frames, address, options);
    }
  }

  lemma AnswerFrames(image: Image, e: EncodedFunction, f: Function, address: uint64, options: LookupOptions, hit: LookupResult)
    requires Resolve(image, e) == Ok(f) && f.name != [] && Answers(image, e, address, options, hit)
    ensures Describes(image, e, address, options, hit.frames)
    ensures AllNamed(hit.frames) <==> Named(image, InlinePath(e, address, options))
  {
    hide Resolve, Describes, PatternsAt, StringAt, AllNamed, Named, InlinePath;
    ResolvedParts(image, e, f);
    NamedFrames(image, e, address, options, hit.frames);
  }

  /** What two lookups of one address have in common: both find nothing, or both report the
      range and functions of the same meaning.  The results are the same exactly when the
      first meets no inline frame whose name turns out empty. */
  ghost predicate SameReport(
      image: Image, d: DecodedGsym, whole: Option<LookupResult>, other: Image, back: DecodedGsym, part: Option<LookupResult>,
      address: uint64, options: LookupOptions)
    requires Verify(image).Ok?
  {
    && (whole.Some? <==> part.Some?)
    && (whole == part <==> !Nameless(image, address, options))
    && (whole.Some? ==>
        && whole.value.range == part.value.range
        && var f, g := Answer(d.functions, address), Answer(back.functions, address);
        && f.Some? && g.Some? && SameMeaning(f.value, d.files, g.value, back.files)
        && Shows(image, f.value, address, options, whole.value) && Shows(other, g.value, address, options, part.value))
  }

  lemma ShownRange(image: Image, f: Function, address: uint64, options: LookupOptions, hit: LookupResult)
    requires Shows(image, f, address, options, hit)
    ensures hit.range == f.range
  {
    hide Resolve, Describes, PatternsAt, Verify, Selected;
    var i: nat :| ShowsAt(image, Verify(image).value, i, f, address, options, hit);
    ResolvedRange(image, Verify(image).value[i]);
  }

  lemma NothingNameless(image: Image, address: uint64, options: LookupOptions)
    requires Verify(image).Ok? && Finds(image, Verify(image).value, address, options, None)
    ensures !Nameless(image, address, options)
  {
    hide Verify, Selected, Named, InlinePath;
  }

  /** Where the two tables answer alike, so do lookups in the bytes. */
  lemma SameAnswerSameReport(
    image: Image, d: DecodedGsym, other: Image, back: DecodedGsym, table: seq<Function>, address: uint64, options: LookupOptions,
    whole: Option<LookupResult>, part: Option<LookupResult>)
    requires Verify(image).Ok? && DecodeAll(image) == Ok(d) && Finds(image, Verify(image).value, address, options, whole)
    requires Verify(other).Ok? && DecodeAll(other) == Ok(back) && Finds(other, Verify(other).value, address, options, part)
    requires SameMeaningList(table, d.files, back.functions, back.files) && AllTell(Verify(other).value, back.functions)
    requires Answer(table, address) == Answer(d.functions, address)
    ensures SameReport(image, d, whole, other, back, part, address, options)
  {
    hide Verify, DecodeAll, Finds, Answer, SameMeaningList, SameMeaning, Shows, AllTell, Nameless;
    ReportIsAnswer(image, d, address, options, whole);
    ReportIsAnswer(other, back, address, options, part);
    MeaningAnswers(table, d.files, back.functions, back.files, address);
    if whole.Some? {
      var f, g := Answer(d.functions, address).value, Answer(back.functions, address).value;
      ShownRange(image, f, address, options, whole.value);
      ShownRange(other, g, address, options, part.value);
      MeaningParts(f, d.files, g, back.files, address);
      SameResults(image, d, f, whole.value, other, back, g, part.value, address, options);
    } else {
      NothingNameless(image, address, options);
    }
  }

  /** Segment `k` holds its window, and says its span. */
  lemma SegmentFacts(d: DecodedGsym, version: Version, order: ByteOrder, target: nat, cuts: seq<nat>, segments: seq<S.Segment>, k: nat)
    requires S.Segmented(S.JobFor(d, version, order), target, cuts, segments) && k < |segments|
    ensures
      var sorted := Sort(S.RangeFirst, d.functions);
      && S.Cuts(cuts, |sorted|) && k + 1 < |cuts|
      && segments[k].first == SpanStart(sorted, cuts, k) && segments[k].end == SpanEnd(sorted, cuts, k)
      && Load(segments[k].bytes).Ok? && Verify(Load(segments[k].bytes).value).Ok? && DecodeAll(Load(segments[k].bytes).value).Ok?
      && var back := DecodeAll(Load(segments[k].bytes).value).value;
      && SameMeaningList(SegmentTable(sorted, d.files, cuts, k), d.files, back.functions, back.files)
      && AllTell(Verify(Load(segments[k].bytes).value).value, back.functions)
  {
    hide Sort, S.RangeFirst, S.SegmentEnd, S.WindowBytes, SameMeaningList, Load, DecodeAll, Verify, AsWritten, TableOf, AllTell;
    assert S.Covers(S.JobFor(d, version, order), target, cuts[k], cuts[k + 1], segments[k]);
  }

  /** A lookup in the bytes of the segment whose span holds the address gives what a lookup
      in the unsplit image gives, for every address of the span, exactly as far as the
      runs of the span agree. */
  lemma SegmentLookup(
    image: Image, d: DecodedGsym, version: Version, order: ByteOrder, target: nat, cuts: seq<nat>, segments: seq<S.Segment>, k: nat,
    address: uint64, options: LookupOptions, whole: Option<LookupResult>, part: Option<LookupResult>)
    requires Verify(image).Ok? && DecodeAll(image) == Ok(d) && Finds(image, Verify(image).value, address, options, whole)
    requires S.Segmented(S.JobFor(d, version, order), target, cuts, segments) && k < |segments|
    requires segments[k].first <= address < segments[k].end
    requires Load(segments[k].bytes).Ok? && Verify(Load(segments[k].bytes).value).Ok? && DecodeAll(Load(segments[k].bytes).value).Ok?
    requires Finds(Load(segments[k].bytes).value, Verify(Load(segments[k].bytes).value).value, address, options, part)
    requires S.Cuts(cuts, |d.functions|) && k + 1 < |cuts|
    requires
      var sorted := Sort(S.RangeFirst, d.functions);
      RunsAgree(d.functions, SegmentTable(sorted, d.files, cuts, k), segments[k].first, segments[k].end)
    ensures
      var segment := Load(segments[k].bytes).value;
      SameReport(image, d, whole, segment, DecodeAll(segment).value, part, address, options)
  {
    hide Sort, S.RangeFirst, S.Segmented, SameMeaningList, Load, DecodeAll, Verify, SegmentTable, SpanStart, SpanEnd, Finds, SameReport, AllTell,
      RunsAgree, Answer;
    SegmentFacts(d, version, order, target, cuts, segments, k);
    RoutingIsExact(d.functions, d.files, cuts, k);
    var segment := Load(segments[k].bytes).value;
    var table := SegmentTable(Sort(S.RangeFirst, d.functions), d.files, cuts, k);
    assert Answer(table, address) == Answer(d.functions, address);
    SameAnswerSameReport(image, d, segment, DecodeAll(segment).value, table, address, options, whole, part);
  }

  /** In particular for distinct starts, wherever the cuts fall. */
  lemma DistinctSegmentLookup(
    image: Image, d: DecodedGsym, version: Version, order: ByteOrder, target: nat, cuts: seq<nat>, segments: seq<S.Segment>, k: nat,
    address: uint64, options: LookupOptions, whole: Option<LookupResult>, part: Option<LookupResult>)
    requires Verify(image).Ok? && DecodeAll(image) == Ok(d) && Finds(image, Verify(image).value, address, options, whole)
    requires DistinctStarts(d.functions)
    requires S.Segmented(S.JobFor(d, version, order), target, cuts, segments) && k < |segments|
    requires segments[k].first <= address < segments[k].end
    requires Load(segments[k].bytes).Ok? && Verify(Load(segments[k].bytes).value).Ok? && DecodeAll(Load(segments[k].bytes).value).Ok?
    requires Finds(Load(segments[k].bytes).value, Verify(Load(segments[k].bytes).value).value, address, options, part)
    ensures
      var segment := Load(segments[k].bytes).value;
      SameReport(image, d, whole, segment, DecodeAll(segment).value, part, address, options)
  {
    hide Sort, S.RangeFirst, S.Segmented, SameMeaningList, Load, DecodeAll, Verify, SegmentTable, SpanStart, SpanEnd, Finds, SameReport, AllTell,
      RunsAgree, SameAnswers, DistinctStarts;
    SegmentFacts(d, version, order, target, cuts, segments, k);
    DistinctStartsRoute(d.functions, d.files, cuts, k);
    RoutingIsExact(d.functions, d.files, cuts, k);
    SegmentLookup(image, d, version, order, target, cuts, segments, k, address, options, whole, part);
  }

  lemma DistinctAnswers(functions: seq<Function>, files: seq<FileEntry>, address: uint64)
    requires DistinctStarts(functions)
    ensures Answer(AsWritten(functions, files), address) == Answer(functions, address)
  {
    hide Sort, WrittenLeq, Run, FirstMatch, DistinctStarts, GreatestStart;
    var table := AsWritten(functions, files);
    SortMultiset(WrittenLeq(files), functions);
    SortMembers(WrittenLeq(files), functions);
    var greatest, own := GreatestStart(functions, address), GreatestStart(table, address);
    if greatest.Some? {
      var f :| f in functions && f.range.start == greatest.value;
      var i :| 0 <= i < |functions| && functions[i] == f;
      assert f in table;
      SingleRun(functions, i);
      RunInPart(functions, table, i);
      GreatestIs(functions, address, f);
      GreatestIs(table, address, f);
    }
  }

  /** Written again, a table answers every address as before exactly when the records of
      every run are the same in the writer's order. */
  lemma WrittenIsExact(functions: seq<Function>, files: seq<FileEntry>)
    ensures SameAnswers(functions, AsWritten(functions, files), 0, U64_LIMIT)
       <==> RunsAgree(functions, AsWritten(functions, files), 0, U64_LIMIT)
  {
    hide Sort, WrittenLeq, SameAnswers, RunsAgree;
    SortMembers(WrittenLeq(files), functions);
    RearrangedIsExact(functions, AsWritten(functions, files));
  }

  /** A whole image in another version and byte order reports every address as before where
      the records of the runs agree. */
  lemma TranscodedLookup(
    image: Image, d: DecodedGsym, bytes: seq<uint8>, version: Version, order: ByteOrder, address: uint64, options: LookupOptions,
    whole: Option<LookupResult>, part: Option<LookupResult>)
    requires Verify(image).Ok? && DecodeAll(image) == Ok(d) && Finds(image, Verify(image).value, address, options, whole)
    requires RunsAgree(d.functions, AsWritten(d.functions, d.files), 0, U64_LIMIT) && Transcoded(bytes, d, version, order)
    requires Finds(Load(bytes).value, Verify(Load(bytes).value).value, address, options, part)
    ensures
      var other := Load(bytes).value;
      SameReport(image, d, whole, other, DecodeAll(other).value, part, address, options)
  {
    hide Load, DecodeAll, Verify, SameMeaningList, AsWritten, Finds, SameReport, RunsAgree, TableOf, Answer, AllTell;
    WrittenIsExact(d.functions, d.files);
    var other := Load(bytes).value;
    SameAnswerSameReport(image, d, other, DecodeAll(other).value, AsWritten(d.functions, d.files), address, options, whole, part);
  }

  /** In particular for distinct starts. */
  lemma DistinctTranscodedLookup(
    image: Image, d: DecodedGsym, bytes: seq<uint8>, version: Version, order: ByteOrder, address: uint64, options: LookupOptions,
    whole: Option<LookupResult>, part: Option<LookupResult>)
    requires Verify(image).Ok? && DecodeAll(image) == Ok(d) && Finds(image, Verify(image).value, address, options, whole)
    requires DistinctStarts(d.functions) && Transcoded(bytes, d, version, order)
    requires Finds(Load(bytes).value, Verify(Load(bytes).value).value, address, options, part)
    ensures
      var other := Load(bytes).value;
      SameReport(image, d, whole, other, DecodeAll(other).value, part, address, options)
  {
    hide Load, DecodeAll, Verify, AsWritten, Finds, SameReport, DistinctStarts, Transcoded, Answer, RunsAgree;
    forall a: uint64 | 0 <= a < U64_LIMIT
      ensures Answer(AsWritten(d.functions, d.files), a) == Answer(d.functions, a)
    {
      DistinctAnswers(d.functions, d.files, a);
    }
    WrittenIsExact(d.functions, d.files);
    TranscodedLookup(image, d, bytes, version, order, address, options, whole, part);
  }
}
