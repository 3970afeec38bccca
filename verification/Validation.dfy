/** The tree rules of src/validation.rs and how they relate to those the reader
    applies in src/reader/owned.rs. */
module Validation {
  import opened Words
  import opened Wrappers
  import opened Model

  // ------------------------------------------------------------ the builder's rules

  predicate OrderedRanges(ranges: seq<AddressRange>, parents: seq<AddressRange>) {
    && (forall range :: range in ranges ==> range.IsValid() && !range.IsEmpty() && Within(range, parents))
    && (forall i :: 0 < i < |ranges| ==> ranges[i - 1].end <= ranges[i].start)
  }

  /** `validate_inline` accepts the tree. */
  predicate AdmissibleInline(node: InlineNode, parents: seq<AddressRange>, depth: nat)
    decreases node
  {
    && depth <= MAX_INLINE_DEPTH
    && node.ranges != []
    && OrderedRanges(node.ranges, parents)
    && (forall child :: child in node.children ==> AdmissibleInline(child, node.ranges, depth + 1))
  }

  predicate LinesInside(lines: seq<LineEntry>, range: AddressRange) {
    forall line :: line in lines ==> range.start <= line.address && (range.IsEmpty() || line.address < range.end)
  }

  predicate SitesInside(sites: seq<CallSite>, range: AddressRange) {
    forall site :: site in sites ==> range.Size() != 0 ==> site.returnOffset < range.Size()
  }

  /** `validate_function_tree` accepts the function. */
  predicate Admissible(f: Function, parent: Option<AddressRange>, depth: nat)
    decreases f
  {
    && depth <= MAX_MERGED_DEPTH
    && f.name != []
    && f.range.IsValid()
    && f.range.Size() < U32_LIMIT
    && (parent.Some? ==> f.range == parent.value)
    && LinesInside(f.lines, f.range)
    && (f.inline.Some? ==> AdmissibleInline(f.inline.value, [f.range], 0))
    && SitesInside(f.callSites, f.range)
    && (forall g :: g in f.merged ==> Admissible(g, Some(f.range), depth + 1))
  }

  /** No line or inline call site at any depth refers to a file above
      `limit`. */
  predicate InlineFilesAtMost(node: InlineNode, limit: int)
    decreases node
  {
    node.callFile <= limit && forall child :: child in node.children ==> InlineFilesAtMost(child, limit)
  }

  predicate FilesAtMost(f: Function, limit: int)
    decreases f
  {
    && (forall line :: line in f.lines ==> line.file <= limit)
    && (f.inline.Some? ==> InlineFilesAtMost(f.inline.value, limit))
    && (forall g :: g in f.merged ==> FilesAtMost(g, limit))
  }

  predicate InlineRefersTo(node: InlineNode, index: nat)
    decreases node
  {
    node.callFile == index || exists child :: child in node.children && InlineRefersTo(child, index)
  }

  /** Some line or inline call site, at any inline or merged depth, is in the file. */
  predicate RefersTo(f: Function, index: nat)
    decreases f
  {
    || (exists line :: line in f.lines && line.file == index)
    || (f.inline.Some? && InlineRefersTo(f.inline.value, index))
    || (exists g :: g in f.merged && RefersTo(g, index))
  }

  lemma {:induction false} InlineFilesBelow(node: InlineNode, limit: int)
    requires forall i: FileIndex :: InlineRefersTo(node, i) ==> i <= limit
    ensures InlineFilesAtMost(node, limit)
    decreases node
  {
    assert InlineRefersTo(node, node.callFile);
    forall child | child in node.children
      ensures InlineFilesAtMost(child, limit)
    {
      assert forall i: FileIndex :: InlineRefersTo(child, i) ==> InlineRefersTo(node, i);
      InlineFilesBelow(child, limit);
    }
  }

  lemma {:induction false} FilesBelow(f: Function, limit: int)
    requires forall i: FileIndex :: RefersTo(f, i) ==> i <= limit
    ensures FilesAtMost(f, limit)
    decreases f
  {
    hide InlineRefersTo, InlineFilesAtMost;
    assert forall line :: line in f.lines ==> RefersTo(f, line.file);
    if f.inline.Some? {
      assert forall i: FileIndex :: InlineRefersTo(f.inline.value, i) ==> RefersTo(f, i);
      InlineFilesBelow(f.inline.value, limit);
    }
    forall g | g in f.merged
      ensures FilesAtMost(g, limit)
    {
      assert forall i: FileIndex :: RefersTo(g, i) ==> RefersTo(f, i);
      FilesBelow(g, limit);
    }
  }

  lemma {:induction false} InlineFilesAtMostGrows(node: InlineNode, limit: int, more: int)
    requires InlineFilesAtMost(node, limit) && limit <= more
    ensures InlineFilesAtMost(node, more)
    decreases node
  {
    forall child | child in node.children
      ensures InlineFilesAtMost(child, more)
    {
      InlineFilesAtMostGrows(child, limit, more);
    }
  }

  lemma {:induction false} FilesAtMostGrows(f: Function, limit: int, more: int)
    requires FilesAtMost(f, limit) && limit <= more
    ensures FilesAtMost(f, more)
    decreases f
  {
    if f.inline.Some? {
      InlineFilesAtMostGrows(f.inline.value, limit, more);
    }
    forall g | g in f.merged
      ensures FilesAtMost(g, more)
    {
      FilesAtMostGrows(g, limit, more);
    }
  }

  // ------------------------------------------------------------- the validator's way

  method ValidateRanges(ranges: seq<AddressRange>, parents: seq<AddressRange>) returns (valid: bool)
    ensures valid == OrderedRanges(ranges, parents)
  {
    hide Within;
    var previousEnd: Option<uint64> := None;
    for i := 0 to |ranges|
      invariant previousEnd == if i == 0 then None else Some(ranges[i - 1].end)
      invariant OrderedRanges(ranges[..i], parents)
    {
      var range := ranges[i];
      assert ranges[..i + 1] == ranges[..i] + [range];
      if !range.IsValid() || range.IsEmpty() || !Within(range, parents) {
        return false;
      }
      if previousEnd.Some? && range.start < previousEnd.value {
        return false;
      }
      previousEnd := Some(range.end);
    }
    assert ranges[..|ranges|] == ranges;
    return true;
  }

  /** The largest file index of an admissible inline tree. */
  method ValidateInline(node: InlineNode, parents: seq<AddressRange>, depth: nat) returns (r: Result<FileIndex>)
    ensures r.Ok? <==> AdmissibleInline(node, parents, depth)
    ensures r.Ok? ==> InlineFilesAtMost(node, r.value) && InlineRefersTo(node, r.value)
    decreases node
  {
    hide OrderedRanges;
    if depth > MAX_INLINE_DEPTH {
      return Err(Limit);
    }
    if node.ranges == [] {
      return Err(InvalidModel);
    }
    var ordered := ValidateRanges(node.ranges, parents);
    if !ordered {
      return Err(InvalidModel);
    }
    var maximum := node.callFile;
    for i := 0 to |node.children|
      invariant node.callFile <= maximum
      invariant forall k :: 0 <= k < i ==>
        AdmissibleInline(node.children[k], node.ranges, depth + 1) && InlineFilesAtMost(node.children[k], maximum)
      invariant InlineRefersTo(node, maximum)
    {
      var found := ValidateInline(node.children[i], node.ranges, depth + 1);
      if found.Err? {
        assert node.children[i] in node.children;
        return Err(found.error);
      }
      ghost var before := maximum;
      assert node.children[i] in node.children && InlineRefersTo(node, found.value);
      maximum := if found.value > maximum then found.value else maximum;
      forall k | 0 <= k <= i
        ensures InlineFilesAtMost(node.children[k], maximum)
      {
        InlineFilesAtMostGrows(node.children[k], if k < i then before else found.value, maximum);
      }
    }
    return Ok(maximum);
  }

  method ValidateLines(lines: seq<LineEntry>, range: AddressRange) returns (r: Option<FileIndex>)
    ensures r.Some? <==> LinesInside(lines, range)
    ensures r.Some? ==> forall line :: line in lines ==> line.file <= r.value
    ensures r.Some? ==> r.value == 0 || exists line :: line in lines && line.file == r.value
  {
    var maximum: FileIndex := 0;
    for i := 0 to |lines|
      invariant forall k :: 0 <= k < i ==> LinesInside([lines[k]], range) && lines[k].file <= maximum
      invariant maximum == 0 || exists line :: line in lines && line.file == maximum
    {
      var line := lines[i];
      if line.address < range.start || (!range.IsEmpty() && line.address >= range.end) {
        return None;
      }
      maximum := if line.file > maximum then line.file else maximum;
    }
    forall line | line in lines
      ensures range.start <= line.address && (range.IsEmpty() || line.address < range.end) && line.file <= maximum
    {
      var k :| 0 <= k < |lines| && lines[k] == line;
      assert line in [lines[k]];
    }
    return Some(maximum);
  }

  /** `validate_function_tree`: acceptance, and the largest file reference in the
      tree. */
  method ValidateTree(f: Function, parent: Option<AddressRange>, depth: nat) returns (r: Result<FileIndex>)
    ensures r.Ok? <==> Admissible(f, parent, depth)
    ensures r.Ok? ==> FilesAtMost(f, r.value) && (r.value == 0 || RefersTo(f, r.value))
    decreases f
  {
    hide LinesInside, SitesInside, AdmissibleInline;
    if depth > MAX_MERGED_DEPTH {
      return Err(Limit);
    }
    if f.name == [] || !f.range.IsValid() {
      return Err(InvalidModel);
    }
    if f.range.Size() >= U32_LIMIT {
      return Err(Limit);
    }
    if parent.Some? && f.range != parent.value {
      return Err(InvalidModel);
    }
    var lineFiles := ValidateLines(f.lines, f.range);
    if lineFiles.None? {
      return Err(InvalidModel);
    }
    var maximum: FileIndex := lineFiles.value;
    if f.inline.Some? {
      var inlineFiles := ValidateInline(f.inline.value, [f.range], 0);
      if inlineFiles.Err? {
        return Err(inlineFiles.error);
      }
      maximum := if inlineFiles.value > maximum then inlineFiles.value else maximum;
      InlineFilesAtMostGrows(f.inline.value, inlineFiles.value, maximum);
    }
    if !SitesInside(f.callSites, f.range) {
      return Err(InvalidModel);
    }
    ghost var own := maximum;
    for i := 0 to |f.merged|
      invariant own <= maximum
      invariant forall k :: 0 <= k < i ==>
        Admissible(f.merged[k], Some(f.range), depth + 1) && FilesAtMost(f.merged[k], maximum)
      invariant maximum == 0 || RefersTo(f, maximum)
    {
      var found := ValidateTree(f.merged[i], Some(f.range), depth + 1);
      if found.Err? {
        assert f.merged[i] in f.merged;
        return Err(found.error);
      }
      ghost var before := maximum;
      assert f.merged[i] in f.merged && (found.value == 0 || RefersTo(f, found.value));
      maximum := if found.value > maximum then found.value else maximum;
      forall k | 0 <= k <= i
        ensures FilesAtMost(f.merged[k], maximum)
      {
        FilesAtMostGrows(f.merged[k], if k < i then before else found.value, maximum);
      }
    }
    if f.inline.Some? {
      InlineFilesAtMostGrows(f.inline.value, own, maximum);
    }
    return Ok(maximum);
  }

  // ------------------------------------------------------------- the reader's rules

  /** `validate_inline_ranges` on the model. */
  predicate SoundInline(node: InlineNode, parents: seq<AddressRange>)
    decreases node
  {
    && node.ranges != []
    && (forall range :: range in node.ranges ==> range.IsValid() && !range.IsEmpty() && Within(range, parents))
    && (forall child :: child in node.children ==> SoundInline(child, node.ranges))
  }

  /** `validate_semantics` at every merged depth. */
  predicate Sound(f: Function, parent: Option<AddressRange>)
    decreases f
  {
    && f.range.IsValid()
    && (parent.Some? ==> f.range == parent.value)
    && LinesInside(f.lines, f.range)
    && (f.inline.Some? ==> SoundInline(f.inline.value, [f.range]))
    && SitesInside(f.callSites, f.range)
    && (forall g :: g in f.merged ==> Sound(g, Some(f.range)))
  }

  lemma {:induction false} AdmissibleInlineIsSound(node: InlineNode, parents: seq<AddressRange>, depth: nat)
    requires AdmissibleInline(node, parents, depth)
    ensures SoundInline(node, parents)
    decreases node
  {
    hide Within;
    forall child | child in node.children
      ensures SoundInline(child, node.ranges)
    {
      AdmissibleInlineIsSound(child, node.ranges, depth + 1);
    }
  }

  /** Whatever the builder lets in, the reader's semantic checks accept. */
  lemma {:induction false} AdmissibleIsSound(f: Function, parent: Option<AddressRange>, depth: nat)
    requires Admissible(f, parent, depth)
    ensures Sound(f, parent)
    decreases f
  {
    hide LinesInside, SitesInside;
    if f.inline.Some? {
      AdmissibleInlineIsSound(f.inline.value, [f.range], 0);
    }
    forall g | g in f.merged
      ensures Sound(g, Some(f.range))
    {
      AdmissibleIsSound(g, Some(f.range), depth + 1);
    }
  }
}
