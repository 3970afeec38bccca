/** What a lookup reports, said of the decoded function itself: the nodes of the inline
    tree that hold the address, the last row at or below it, and the call sites there. */
module Report {
  import opened Words
  import opened Wrappers
  import opened Model
  import opened Line
  import opened FunctionInfo
  import opened InlineInfo
  import opened InlineScan
  import opened Image
  import opened AddressSearch
  import opened Lookup
  import opened Frames

  // -------------------------------------------------------------- the way down a tree

  predicate Inside(node: EncodedInlineNode, address: uint64) {
    exists i :: 0 <= i < |node.ranges| && node.ranges[i].start <= address < node.ranges[i].end
  }

  /** The first of the children that holds the address. */
  predicate FirstInside(children: seq<EncodedInlineNode>, address: uint64, child: EncodedInlineNode) {
    exists j :: 0 <= j < |children| && children[j] == child && Inside(child, address)
                && forall k :: 0 <= k < j ==> !Inside(children[k], address)
  }

  /** From a node that holds the address, always to the first child that does, to one
      none of whose children does. */
  predicate Trail(trail: seq<EncodedInlineNode>, address: uint64) {
    && trail != []
    && Inside(trail[0], address)
    && (forall k, n :: 0 <= k && n == k + 1 < |trail| ==> FirstInside(trail[k].children, address, trail[n]))
    && (forall child :: child in trail[|trail| - 1].children ==> !Inside(child, address))
  }

  function NamedNodes(trail: seq<EncodedInlineNode>): seq<EncodedInlineNode> {
    if trail == [] then [] else (if trail[0].name != 0 then [trail[0]] else []) + NamedNodes(trail[1..])
  }

  predicate IsFrame(frame: RawInlineFrame, node: EncodedInlineNode) {
    && node.ranges != [] && frame.name == node.name && frame.callFile == node.callFile && frame.callLine == node.callLine
    && frame.start == node.ranges[0].start
  }

  predicate AreFrames(frames: seq<RawInlineFrame>, nodes: seq<EncodedInlineNode>) {
    |frames| == |nodes| && forall k :: 0 <= k < |frames| ==> IsFrame(frames[k], nodes[k])
  }

  lemma InsideIs(node: EncodedInlineNode, address: uint64)
    ensures Covers(node.ranges, address) <==> Inside(node, address)
  {
    if Covers(node.ranges, address) {
      var range :| range in node.ranges && range.start <= address < range.end;
      var i :| 0 <= i < |node.ranges| && node.ranges[i] == range;
    }
  }

  lemma FramesJoin(a: seq<RawInlineFrame>, b: seq<RawInlineFrame>, x: seq<EncodedInlineNode>, y: seq<EncodedInlineNode>)
    requires AreFrames(a, x) && AreFrames(b, y)
    ensures AreFrames(a + b, x + y)
  {
    hide IsFrame;
  }

  lemma FrameIs(node: EncodedInlineNode)
    requires node.ranges != []
    ensures AreFrames(FrameOf(node), if node.name != 0 then [node] else [])
  {
  }

  /** The frames of a tree are those of the named nodes on the way down. */
  lemma {:induction false} PathIs(node: EncodedInlineNode, address: uint64) returns (trail: seq<EncodedInlineNode>)
    requires Inside(node, address)
    ensures trail != [] && Trail(trail, address) && trail[0] == node
    ensures AreFrames(Path(node, address), NamedNodes(trail))
    decreases node, 1
  {
    hide Inside, FirstInside, FrameOf, AreFrames, Covers;
    InsideIs(node, address);
    SomeRange(node, address);
    FrameIs(node);
    var below := PathBelowIs(node.children, address);
    trail := [node] + below;
    assert trail[1..] == below;
    FramesJoin(FrameOf(node), PathBelow(node.children, address), if node.name != 0 then [node] else [], NamedNodes(below));
  }

  lemma SomeRange(node: EncodedInlineNode, address: uint64)
    requires Inside(node, address)
    ensures node.ranges != []
  {
  }

  lemma {:induction false} PathBelowIs(children: seq<EncodedInlineNode>, address: uint64) returns (trail: seq<EncodedInlineNode>)
    ensures trail == [] ==> forall child :: child in children ==> !Inside(child, address)
    ensures trail != [] ==> Trail(trail, address) && FirstInside(children, address, trail[0])
    ensures AreFrames(PathBelow(children, address), NamedNodes(trail))
    decreases children, 0
  {
    hide Inside, Path, Trail, Covers;
    if children == [] {
      trail := [];
    } else {
      InsideIs(children[0], address);
      if Inside(children[0], address) {
        trail := PathIs(children[0], address);
      } else {
        trail := PathBelowIs(children[1..], address);
        if trail != [] {
          FirstAfter(children, address, trail[0]);
        }
        assert children == [children[0]] + children[1..];
      }
    }
  }

  lemma FirstAfter(children: seq<EncodedInlineNode>, address: uint64, child: EncodedInlineNode)
    requires children != [] && !Inside(children[0], address) && FirstInside(children[1..], address, child)
    ensures FirstInside(children, address, child)
  {
    hide Inside;
    var rest := children[1..];
    var j :| 0 <= j < |rest| && rest[j] == child && forall k :: 0 <= k < j ==> !Inside(rest[k], address);
    var n := j + 1;
    assert children[n] == child;
    forall k | 0 <= k < n
      ensures !Inside(children[k], address)
    {
      if k > 0 {
        assert children[k] == rest[k - 1];
      }
    }
  }

  // --------------------------------------------------------------------- rows and sites

  /** The location is that of the last row at or below the address, or empty without one. */
  predicate Located(image: Image, rows: seq<LineEntry>, address: uint64, file: FileEntry, line: uint32) {
    if exists i :: 0 <= i < |rows| && rows[i].address <= address then
      exists i :: 0 <= i < |rows| && rows[i].address <= address && FileAt(image, rows[i].file) == Ok(file) && rows[i].line == line
                  && forall j :: i < j < |rows| ==> rows[j].address > address
    else file == EMPTY_FILE && line == 0
  }

  lemma {:induction false} InEffectIs(rows: seq<LineEntry>, address: uint64) returns (i: nat)
    ensures InEffect(rows, address).None? ==> forall j :: 0 <= j < |rows| ==> rows[j].address > address
    ensures InEffect(rows, address).Some? ==> i < |rows| && rows[i].address <= address && InEffect(rows, address).value == rows[i]
    ensures InEffect(rows, address).Some? ==> forall j :: i < j < |rows| ==> rows[j].address > address
    decreases |rows|
  {
    if rows == [] {
      i := 0;
    } else if rows[|rows| - 1].address <= address {
      i := |rows| - 1;
    } else {
      i := InEffectIs(rows[..|rows| - 1], address);
    }
  }

  lemma LocatedIs(image: Image, rows: seq<LineEntry>, address: uint64, frame: LookupFrame)
    requires AtRow(image, InEffect(rows, address), frame)
    ensures Located(image, rows, address, frame.file, frame.line)
  {
    hide FileAt, InEffect;
    var i := InEffectIs(rows, address);
  }

  lemma NotLocated(image: Image, frame: LookupFrame, address: uint64)
    requires AtRow(image, None, frame)
    ensures Located(image, [], address, frame.file, frame.line)
  {
  }

  /** The strings at the offsets, one after the other. */
  predicate Strings(image: Image, offsets: seq<uint64>, strings: seq<seq<uint8>>) {
    |strings| == |offsets| && forall i :: 0 <= i < |offsets| ==> StringAt(image, offsets[i]) == Ok(strings[i])
  }

  function OffsetsOf(sites: seq<EncodedCallSite>, offset: uint64): seq<uint64> {
    if sites == [] then []
    else OffsetsOf(sites[..|sites| - 1], offset)
         + if sites[|sites| - 1].returnOffset == offset then sites[|sites| - 1].matchRegex else []
  }

  lemma {:induction false} StringsAre(image: Image, offsets: seq<uint64>)
    requires StringsAt(image, offsets).Ok?
    ensures Strings(image, offsets, StringsAt(image, offsets).value)
    decreases |offsets|
  {
    hide StringAt;
    if offsets != [] {
      StringsAre(image, offsets[1..]);
    }
  }

  lemma StringsJoin(image: Image, a: seq<uint64>, b: seq<uint64>, x: seq<seq<uint8>>, y: seq<seq<uint8>>)
    requires Strings(image, a, x) && Strings(image, b, y)
    ensures Strings(image, a + b, x + y)
  {
    hide StringAt;
  }

  lemma {:induction false} OffsetsSplit(site: EncodedCallSite, sites: seq<EncodedCallSite>, offset: uint64)
    ensures OffsetsOf([site] + sites, offset) == (if site.returnOffset == offset then site.matchRegex else []) + OffsetsOf(sites, offset)
    decreases |sites|
  {
    var all := [site] + sites;
    if sites == [] {
      assert all[..0] == [];
    } else {
      var n := |sites| - 1;
      OffsetsSplit(site, sites[..n], offset);
      assert all[..n + 1] == [site] + sites[..n];
    }
  }

  /** The patterns are those of the sites at the offset and of no other, in order. */
  lemma {:induction false} PatternsAre(image: Image, sites: seq<EncodedCallSite>, offset: uint64)
    requires PatternsAt(image, sites, offset).Ok?
    ensures Strings(image, OffsetsOf(sites, offset), PatternsAt(image, sites, offset).value)
    decreases |sites|
  {
    hide StringsAt, Strings, OffsetsOf;
    if sites == [] {
      NoPatterns(image, offset);
    } else {
      var site, rest := sites[0], sites[1..];
      assert sites == [site] + rest;
      OffsetsSplit(site, rest, offset);
      PatternsAre(image, rest, offset);
      if site.returnOffset == offset {
        StringsAre(image, site.matchRegex);
        StringsJoin(image, site.matchRegex, OffsetsOf(rest, offset), StringsAt(image, site.matchRegex).value,
                    PatternsAt(image, rest, offset).value);
      } else {
        assert [] + OffsetsOf(rest, offset) == OffsetsOf(rest, offset);
      }
    }
  }

  lemma NoPatterns(image: Image, offset: uint64)
    ensures Strings(image, OffsetsOf([], offset), [])
  {
  }

  // --------------------------------------------------------------------------- a report

  /** How far the address lies past a start; zero when it lies before. */
  predicate IsOffset(offset: uint64, address: uint64, start: uint64) {
    if start <= address then offset + start == address else offset == 0
  }

  /** Frame `k` of the nodes on the way down, counted from the innermost: a caller is
      where the next one in was called. */
  predicate ShowsNode(image: Image, nodes: seq<EncodedInlineNode>, address: uint64, frame: LookupFrame, k: nat, n: nat)
    requires k + n + 1 == |nodes|
  {
    && StringAt(image, nodes[n].name) == Ok(frame.name)
    && nodes[n].ranges != [] && IsOffset(frame.offset, address, nodes[n].ranges[0].start)
    && (frame.inlined <==> n > 0)
    && (k > 0 ==> FileAt(image, nodes[n + 1].callFile) == Ok(frame.file) && frame.line == nodes[n + 1].callLine)
  }

  predicate ShowsFunction(image: Image, f: EncodedFunction, address: uint64, frame: LookupFrame) {
    StringAt(image, f.name) == Ok(frame.name) && IsOffset(frame.offset, address, f.range.start) && !frame.inlined
  }

  /** One frame per named node on the way down, innermost first; of the function alone if
      there is none. */
  ghost predicate ShowsTrail(image: Image, f: EncodedFunction, trail: seq<EncodedInlineNode>, address: uint64, frames: seq<LookupFrame>) {
    var nodes := NamedNodes(trail);
    if nodes == [] then |frames| == 1 && ShowsFunction(image, f, address, frames[0])
    else |frames| == |nodes|
         && forall k: nat, n: nat :: k + n + 1 == |nodes| ==> ShowsNode(image, nodes, address, frames[k], k, n)
  }

  predicate Wanted(f: EncodedFunction, address: uint64, options: LookupOptions) {
    options.inlineFrames && f.inline.Some? && Inside(f.inline.value, address)
  }

  ghost predicate Reported(image: Image, f: EncodedFunction, address: uint64, options: LookupOptions, hit: LookupResult) {
    && hit.range == f.range && hit.frames != []
    && Located(image, if options.lineInformation then LinesOf(f) else [], address, hit.frames[0].file, hit.frames[0].line)
    && (if Wanted(f, address, options)
        then exists trail :: Trail(trail, address) && trail[0] == f.inline.value && ShowsTrail(image, f, trail, address, hit.frames)
        else ShowsTrail(image, f, [], address, hit.frames))
    && (if !options.callSites then hit.patterns == []
        else address >= f.range.start ==> Strings(image, OffsetsOf(f.callSites, address - f.range.start), hit.patterns))
  }

  lemma InnermostIs(image: Image, f: EncodedFunction, address: uint64, options: LookupOptions, hit: LookupResult)
    requires Answers(image, f, address, options, hit)
    ensures hit.frames != []
    ensures Located(image, if options.lineInformation then LinesOf(f) else [], address, hit.frames[0].file, hit.frames[0].line)
  {
    hide FileAt, StringAt, InEffect, Located, InlinePath, PatternsAt, AtRow;
    var path := InlinePath(f, address, options);
    if path != [] {
      assert DescribesNode(image, path, RowAt(f, address, options), address, 0, hit.frames[0]);
    }
    if options.lineInformation {
      LocatedIs(image, LinesOf(f), address, hit.frames[0]);
    } else {
      NotLocated(image, hit.frames[0], address);
    }
  }

  lemma TrailShows(
    image: Image, f: EncodedFunction, trail: seq<EncodedInlineNode>, address: uint64, options: LookupOptions, frames: seq<LookupFrame>)
    requires Describes(image, f, address, options, frames)
    requires AreFrames(InlinePath(f, address, options), NamedNodes(trail))
    ensures ShowsTrail(image, f, trail, address, frames)
  {
    hide FileAt, StringAt, AtRow, InlinePath, NamedNodes, RowAt, Trail;
    var path, nodes := InlinePath(f, address, options), NamedNodes(trail);
    if nodes != [] {
      forall k: nat, n: nat | k + n + 1 == |nodes|
        ensures ShowsNode(image, nodes, address, frames[k], k, n)
      {
        assert DescribesNode(image, path, RowAt(f, address, options), address, k, frames[k]);
        assert path[|path| - 1 - k] == path[n] && IsFrame(path[n], nodes[n]);
        if k > 0 {
          var callee := n + 1;
          assert path[|path| - k] == path[callee] && IsFrame(path[callee], nodes[callee]);
        }
      }
    }
  }

  lemma FramesAre(image: Image, f: EncodedFunction, address: uint64, options: LookupOptions, frames: seq<LookupFrame>)
    requires Describes(image, f, address, options, frames)
    ensures Wanted(f, address, options) ==>
      exists trail :: Trail(trail, address) && trail[0] == f.inline.value && ShowsTrail(image, f, trail, address, frames)
    ensures !Wanted(f, address, options) ==> ShowsTrail(image, f, [], address, frames)
  {
    hide Describes, Inside, Trail, AreFrames, ShowsTrail, NamedNodes, Path;
    if Wanted(f, address, options) {
      var trail := PathIs(f.inline.value, address);
      TrailShows(image, f, trail, address, options, frames);
    } else {
      if f.inline.Some? {
        PathOutside(f.inline.value, address);
      }
      NoFrames();
      TrailShows(image, f, [], address, options, frames);
    }
  }

  lemma PathOutside(node: EncodedInlineNode, address: uint64)
    ensures !Inside(node, address) ==> Path(node, address) == []
  {
    hide Inside, Covers;
    InsideIs(node, address);
  }

  lemma NoFrames()
    ensures AreFrames([], NamedNodes([]))
  {
  }

  /** A found function is reported as its own rows, inline tree and call sites say. */
  lemma AnswerIsReport(image: Image, f: EncodedFunction, address: uint64, options: LookupOptions, hit: LookupResult)
    requires Answers(image, f, address, options, hit)
    ensures Reported(image, f, address, options, hit)
  {
    hide Describes, PatternsAt, Located, Trail, ShowsTrail, Wanted, Strings, OffsetsOf;
    InnermostIs(image, f, address, options, hit);
    FramesAre(image, f, address, options, hit.frames);
    if options.callSites {
      PatternsAre(image, f.callSites, SaturatingSub(address, hit.range.start));
    }
  }

  /** A lookup reports the selected function so, and nothing only where none is selected. */
  lemma LookupIsReport(
    image: Image, functions: seq<EncodedFunction>, address: uint64, options: LookupOptions, answer: Option<LookupResult>)
    requires Finds(image, functions, address, options, answer)
    ensures answer.None? ==> forall i: nat :: !Selected(RangesOf(functions), address, i)
    ensures answer.Some? ==> exists i: nat ::
      i < |functions| && Selected(RangesOf(functions), address, i) && Reported(image, functions[i], address, options, answer.value)
  {
    hide Selected, Answers, Reported;
    if answer.Some? {
      var i: nat :| Selected(RangesOf(functions), address, i)
                    && (i < |functions| ==> Answers(image, functions[i], address, options, answer.value));
      SelectedInTable(functions, address, i);
      AnswerIsReport(image, functions[i], address, options, answer.value);
    }
  }
}
