/** File renumbering of src/transform.rs: mark the files a model refers to,
    intern those, and point every reference at its new place. */
module Renumber {
  import opened Words
  import opened Wrappers
  import opened Model
  import opened Validation
  import opened Builder

  // -------------------------------------------------------------------- references

  /** The depths the marking pass accepts. */
  predicate InlineWithin(node: InlineNode, depth: nat)
    decreases node
  {
    depth <= MAX_INLINE_DEPTH && forall child :: child in node.children ==> InlineWithin(child, depth + 1)
  }

  predicate FunctionWithin(f: Function, depth: nat)
    decreases f
  {
    && depth <= MAX_MERGED_DEPTH
    && (f.inline.Some? ==> InlineWithin(f.inline.value, 0))
    && forall g :: g in f.merged ==> FunctionWithin(g, depth + 1)
  }

  method MarkInlineFiles(node: InlineNode, used: array<bool>, depth: nat) returns (r: Result<Unit>)
    modifies used
    ensures r.Ok? ==> forall i: nat :: InlineRefersTo(node, i) ==> i < used.Length
    ensures InlineWithin(node, depth) && (forall i: nat :: InlineRefersTo(node, i) ==> i < used.Length) ==> r.Ok?
    ensures r.Ok? ==> forall i: nat :: i < used.Length ==> used[i] == (old(used[i]) || InlineRefersTo(node, i))
    decreases node
  {
    if depth > MAX_INLINE_DEPTH {
      return Err(Limit);
    }
    if node.callFile >= used.Length {
      assert InlineRefersTo(node, node.callFile);
      return Err(InvalidModel);
    }
    used[node.callFile] := true;
    for k := 0 to |node.children|
      invariant forall i: nat, c :: 0 <= c < k && InlineRefersTo(node.children[c], i) ==> i < used.Length
      invariant forall i: nat :: i < used.Length ==>
        used[i] == (old(used[i]) || node.callFile == i || exists c :: 0 <= c < k && InlineRefersTo(node.children[c], i))
    {
      var marked := MarkInlineFiles(node.children[k], used, depth + 1);
      if marked.Err? {
        assert node.children[k] in node.children;
        assert forall i: nat :: InlineRefersTo(node.children[k], i) ==> InlineRefersTo(node, i);
        return marked;
      }
    }
    return Ok(Unit);
  }

  method MarkFunctionFiles(f: Function, used: array<bool>, depth: nat) returns (r: Result<Unit>)
    modifies used
    ensures r.Ok? ==> forall i: nat :: RefersTo(f, i) ==> i < used.Length
    ensures FunctionWithin(f, depth) && (forall i: nat :: RefersTo(f, i) ==> i < used.Length) ==> r.Ok?
    ensures r.Ok? ==> forall i: nat :: i < used.Length ==> used[i] == (old(used[i]) || RefersTo(f, i))
    decreases f
  {
    hide InlineRefersTo;
    if depth > MAX_MERGED_DEPTH {
      return Err(Limit);
    }
    for k := 0 to |f.lines|
      invariant forall l :: 0 <= l < k ==> f.lines[l].file < used.Length
      invariant forall i: nat :: i < used.Length ==>
        used[i] == (old(used[i]) || exists l :: 0 <= l < k && f.lines[l].file == i)
    {
      if f.lines[k].file >= used.Length {
        assert f.lines[k] in f.lines && RefersTo(f, f.lines[k].file);
        return Err(InvalidModel);
      }
      used[f.lines[k].file] := true;
    }
    if f.inline.Some? {
      var marked := MarkInlineFiles(f.inline.value, used, 0);
      if marked.Err? {
        assert forall i: nat :: InlineRefersTo(f.inline.value, i) ==> RefersTo(f, i);
        return marked;
      }
    }
    label marked:
    for k := 0 to |f.merged|
      invariant forall i: nat, c :: 0 <= c < k && RefersTo(f.merged[c], i) ==> i < used.Length
      invariant forall i: nat :: i < used.Length ==>
        used[i] == (old@marked(used[i]) || exists c :: 0 <= c < k && RefersTo(f.merged[c], i))
    {
      var marked := MarkFunctionFiles(f.merged[k], used, depth + 1);
      if marked.Err? {
        assert f.merged[k] in f.merged;
        assert forall i: nat :: RefersTo(f.merged[k], i) ==> RefersTo(f, i);
        return marked;
      }
    }
    return Ok(Unit);
  }

  // --------------------------------------------------------------------- remapping

  function RemapInline(node: InlineNode, remap: seq<FileIndex>): InlineNode
    decreases node, 1
  {
    node.(callFile := RemapIndex(node.callFile, remap), children := RemapInlineList(node.children, remap))
  }

  function RemapInlineList(nodes: seq<InlineNode>, remap: seq<FileIndex>): seq<InlineNode>
    decreases nodes, 0
  {
    if nodes == [] then [] else [RemapInline(nodes[0], remap)] + RemapInlineList(nodes[1..], remap)
  }

  /** The marking pass has rejected every index outside the table. */
  function RemapIndex(index: FileIndex, remap: seq<FileIndex>): FileIndex {
    if index < |remap| then remap[index] else index
  }

  function RemapLines(lines: seq<LineEntry>, remap: seq<FileIndex>): seq<LineEntry> {
    seq(|lines|, i requires 0 <= i < |lines| => lines[i].(file := RemapIndex(lines[i].file, remap)))
  }

  function RemapOption(inline: Option<InlineNode>, remap: seq<FileIndex>): Option<InlineNode> {
    match inline case None => None case Some(node) => Some(RemapInline(node, remap))
  }

  function Remap(f: Function, remap: seq<FileIndex>): Function
    decreases f, 1
  {
    f.(lines := RemapLines(f.lines, remap), inline := RemapOption(f.inline, remap), merged := RemapList(f.merged, remap))
  }

  function RemapList(functions: seq<Function>, remap: seq<FileIndex>): seq<Function>
    decreases functions, 0
  {
    if functions == [] then [] else [Remap(functions[0], remap)] + RemapList(functions[1..], remap)
  }

  // ------------------------------------------------------------------ what is meant

  /** Both indices name the same directory and basename. */
  predicate SameFile(index: FileIndex, files: seq<FileEntry>, other: FileIndex, otherFiles: seq<FileEntry>) {
    index < |files| && other < |otherFiles| && files[index] == otherFiles[other]
  }

  predicate SameInline(node: InlineNode, files: seq<FileEntry>, other: InlineNode, otherFiles: seq<FileEntry>)
    decreases node, 1
  {
    && node.ranges == other.ranges && node.name == other.name && node.callLine == other.callLine
    && SameFile(node.callFile, files, other.callFile, otherFiles)
    && SameInlineList(node.children, files, other.children, otherFiles)
  }

  predicate SameInlineList(nodes: seq<InlineNode>, files: seq<FileEntry>, others: seq<InlineNode>, otherFiles: seq<FileEntry>)
    decreases nodes, 0
  {
    if nodes == [] || others == [] then nodes == [] && others == []
    else SameInline(nodes[0], files, others[0], otherFiles) && SameInlineList(nodes[1..], files, others[1..], otherFiles)
  }

  predicate SameLines(lines: seq<LineEntry>, files: seq<FileEntry>, others: seq<LineEntry>, otherFiles: seq<FileEntry>) {
    && |lines| == |others|
    && forall i :: 0 <= i < |lines| ==>
         && lines[i].address == others[i].address && lines[i].line == others[i].line
         && SameFile(lines[i].file, files, others[i].file, otherFiles)
  }

  /** The same function, every file reference resolving to the same entry. */
  predicate SameFunction(f: Function, files: seq<FileEntry>, g: Function, otherFiles: seq<FileEntry>)
    decreases f, 1
  {
    && f.range == g.range && f.name == g.name && f.callSites == g.callSites
    && SameLines(f.lines, files, g.lines, otherFiles)
    && (match f.inline case None => g.inline == None
        case Some(node) => g.inline.Some? && SameInline(node, files, g.inline.value, otherFiles))
    && SameFunctionList(f.merged, files, g.merged, otherFiles)
  }

  predicate SameFunctionList(functions: seq<Function>, files: seq<FileEntry>, others: seq<Function>, otherFiles: seq<FileEntry>)
    decreases functions, 0
  {
    if functions == [] || others == [] then functions == [] && others == []
    else SameFunction(functions[0], files, others[0], otherFiles) && SameFunctionList(functions[1..], files, others[1..], otherFiles)
  }

  /** The index names the same file through the remap table. */
  predicate Renamed(i: nat, files: seq<FileEntry>, remap: seq<FileIndex>, newFiles: seq<FileEntry>) {
    i < |files| == |remap| && remap[i] < |newFiles| && newFiles[remap[i]] == files[i]
  }

  ghost predicate RenamesInline(node: InlineNode, files: seq<FileEntry>, remap: seq<FileIndex>, newFiles: seq<FileEntry>) {
    forall i: nat :: InlineRefersTo(node, i) ==> Renamed(i, files, remap, newFiles)
  }

  ghost predicate Renames(f: Function, files: seq<FileEntry>, remap: seq<FileIndex>, newFiles: seq<FileEntry>) {
    forall i: nat :: RefersTo(f, i) ==> Renamed(i, files, remap, newFiles)
  }

  lemma {:induction false} RemapInlineMeans(node: InlineNode, files: seq<FileEntry>, remap: seq<FileIndex>, newFiles: seq<FileEntry>)
    requires RenamesInline(node, files, remap, newFiles)
    ensures SameInline(node, files, RemapInline(node, remap), newFiles)
    decreases node, 1
  {
    assert InlineRefersTo(node, node.callFile);
    forall child | child in node.children
      ensures RenamesInline(child, files, remap, newFiles)
    {
      assert forall i: nat :: InlineRefersTo(child, i) ==> InlineRefersTo(node, i);
    }
    RemapInlineListMeans(node.children, files, remap, newFiles);
  }

  lemma {:induction false} RemapInlineListMeans(
    nodes: seq<InlineNode>, files: seq<FileEntry>, remap: seq<FileIndex>, newFiles: seq<FileEntry>)
    requires forall node :: node in nodes ==> RenamesInline(node, files, remap, newFiles)
    ensures SameInlineList(nodes, files, RemapInlineList(nodes, remap), newFiles)
    decreases nodes, 0
  {
    hide InlineRefersTo, SameInline, RemapInline;
    if nodes != [] {
      RemapInlineMeans(nodes[0], files, remap, newFiles);
      RemapInlineListMeans(nodes[1..], files, remap, newFiles);
    }
  }

  /** Remapping through a table that renames every referenced file keeps what each
      line, call site and merged function refers to. */
  lemma {:induction false} RemapMeans(f: Function, files: seq<FileEntry>, remap: seq<FileIndex>, newFiles: seq<FileEntry>)
    requires Renames(f, files, remap, newFiles)
    ensures SameFunction(f, files, Remap(f, remap), newFiles)
    decreases f, 1
  {
    hide SameInline, RemapInline, InlineRefersTo;
    forall i | 0 <= i < |f.lines|
      ensures SameFile(f.lines[i].file, files, RemapIndex(f.lines[i].file, remap), newFiles)
    {
      assert f.lines[i] in f.lines && RefersTo(f, f.lines[i].file);
    }
    if f.inline.Some? {
      assert forall i: nat :: InlineRefersTo(f.inline.value, i) ==> RefersTo(f, i);
      RemapInlineMeans(f.inline.value, files, remap, newFiles);
    }
    forall g | g in f.merged
      ensures Renames(g, files, remap, newFiles)
    {
      assert forall i: nat :: RefersTo(g, i) ==> RefersTo(f, i);
    }
    RemapListMeans(f.merged, files, remap, newFiles);
  }

  lemma {:induction false} RemapListMeans(
    functions: seq<Function>, files: seq<FileEntry>, remap: seq<FileIndex>, newFiles: seq<FileEntry>)
    requires forall f :: f in functions ==> Renames(f, files, remap, newFiles)
    ensures SameFunctionList(functions, files, RemapList(functions, remap), newFiles)
    decreases functions, 0
  {
    hide RefersTo, SameFunction, Remap;
    if functions != [] {
      RemapMeans(functions[0], files, remap, newFiles);
      RemapListMeans(functions[1..], files, remap, newFiles);
    }
  }

  // ------------------------------------------------------------------- the builder

  ghost predicate AnyRefersTo(functions: seq<Function>, index: nat) {
    exists f :: f in functions && RefersTo(f, index)
  }

  ghost function UsedBy(files: seq<FileEntry>, functions: seq<Function>): seq<bool> {
    seq(|files|, i requires 0 <= i < |files| => i == 0 || AnyRefersTo(functions, i))
  }

  /** The file table and functions of the rebuilt model. */
  ghost function Rebuilt(files: seq<FileEntry>, functions: seq<Function>): (seq<FileEntry>, seq<Function>) {
    var used := UsedBy(files, functions);
    var table := TableFrom(files, used, |files|);
    (table, RemapList(functions, RemapTo(files, used, table)))
  }

  /** `used_files`: entry zero, and whatever the functions refer to. */
  method UsedFiles(files: seq<FileEntry>, functions: seq<Function>) returns (r: Result<seq<bool>>)
    ensures r.Ok? ==>
      && files != [] && files[0] == EMPTY_FILE && |r.value| == |files|
      && (forall i: nat :: AnyRefersTo(functions, i) ==> i < |files|)
      && (forall i: nat :: i < |files| ==> r.value[i] == (i == 0 || AnyRefersTo(functions, i)))
      && r.value == UsedBy(files, functions)
    ensures r.Err? ==>
      || files == [] || files[0] != EMPTY_FILE
      || (exists i: nat :: AnyRefersTo(functions, i) && i >= |files|)
      || (exists f :: f in functions && !FunctionWithin(f, 0))
  {
    hide RefersTo, FunctionWithin;
    if files == [] || files[0] != EMPTY_FILE {
      return Err(InvalidModel);
    }
    var used := new bool[|files|](i => i == 0);
    for k := 0 to |functions|
      invariant forall i: nat, c :: 0 <= c < k && RefersTo(functions[c], i) ==> i < |files|
      invariant forall i: nat :: i < used.Length ==> used[i] == (i == 0 || exists c :: 0 <= c < k && RefersTo(functions[c], i))
    {
      var marked := MarkFunctionFiles(functions[k], used, 0);
      if marked.Err? {
        assert functions[k] in functions;
        assert forall i: nat :: RefersTo(functions[k], i) ==> AnyRefersTo(functions, i);
        return Err(marked.error);
      }
    }
    forall i: nat | AnyRefersTo(functions, i)
      ensures i < |files|
    {
      var f :| f in functions && RefersTo(f, i);
      var c :| 0 <= c < |functions| && functions[c] == f;
    }
    forall i: nat | i < |files|
      ensures used[i] == (i == 0 || AnyRefersTo(functions, i))
    {
      if AnyRefersTo(functions, i) {
        var f :| f in functions && RefersTo(f, i);
        var c :| 0 <= c < |functions| && functions[c] == f;
      }
    }
    return Ok(used[..]);
  }

  /** The new table: the empty entry and the referenced ones, each once. */
  ghost predicate TableOf(newFiles: seq<FileEntry>, files: seq<FileEntry>, functions: seq<Function>) {
    && newFiles != [] && newFiles[0] == EMPTY_FILE && Distinct(newFiles)
    && (forall i: nat :: i < |files| && AnyRefersTo(functions, i) ==> files[i] in newFiles)
    && (forall file :: file in newFiles ==>
          file == EMPTY_FILE || exists i: nat :: i < |files| && files[i] == file && AnyRefersTo(functions, i))
  }

  /** The table after the first `n` files: each used one joins unless it is there. */
  function TableFrom(files: seq<FileEntry>, used: seq<bool>, n: nat): (table: seq<FileEntry>)
    requires n <= |files| == |used|
    ensures table != [] && table[0] == EMPTY_FILE
  {
    if n <= 1 then [EMPTY_FILE]
    else
      var before := TableFrom(files, used, n - 1);
      if used[n - 1] && files[n - 1] !in before then before + [files[n - 1]] else before
  }

  /** Where the file is in the table, or its length. */
  function IndexIn(table: seq<FileEntry>, file: FileEntry): (index: nat)
    ensures index <= |table|
    ensures index < |table| ==> table[index] == file
    ensures index == |table| <==> file !in table
    ensures forall i :: 0 <= i < |table| && table[i] == file ==> index <= i
  {
    if table == [] then 0 else if table[0] == file then 0 else 1 + IndexIn(table[1..], file)
  }

  lemma IndexIsUnique(table: seq<FileEntry>, index: nat)
    requires Distinct(table) && index < |table|
    ensures IndexIn(table, table[index]) == index
  {
  }

  lemma {:induction false} IndexStays(table: seq<FileEntry>, more: seq<FileEntry>, file: FileEntry)
    requires file in table
    ensures IndexIn(table + more, file) == IndexIn(table, file)
  {
    assert (table + more)[0] == table[0];
    if table[0] != file {
      assert (table + more)[1..] == table[1..] + more;
      assert file in table[1..];
      IndexStays(table[1..], more, file);
    }
  }

  /** The new index of entry `i`: unused entries are left at zero. */
  function NewIndex(files: seq<FileEntry>, used: seq<bool>, table: seq<FileEntry>, i: nat): FileIndex
    requires i < |files| == |used|
  {
    if i > 0 && used[i] && IndexIn(table, files[i]) < U32_LIMIT then IndexIn(table, files[i]) else 0
  }

  function RemapTo(files: seq<FileEntry>, used: seq<bool>, table: seq<FileEntry>): seq<FileIndex>
    requires |used| == |files|
  {
    seq(|files|, i requires 0 <= i < |files| => NewIndex(files, used, table, i))
  }

  /** Interning the used files in table order. */
  method InternUsed(files: seq<FileEntry>, used: seq<bool>, builder: GsymBuilder) returns (r: Result<seq<FileIndex>>)
    requires builder.Valid() && builder.files == [EMPTY_FILE] && builder.functions == []
    requires |used| == |files| && files != [] && files[0] == EMPTY_FILE && used[0]
    modifies builder
    ensures builder.Valid() && builder.functions == []
    ensures |files| <= U32_LIMIT ==> r.Ok?
    ensures r.Ok? ==> builder.files == TableFrom(files, used, |files|) && r.value == RemapTo(files, used, builder.files)
    ensures r.Ok? ==>
      && |r.value| == |files|
      && (forall i :: 0 <= i < |files| && used[i] ==> r.value[i] < |builder.files| && builder.files[r.value[i]] == files[i])
      && (forall file :: file in builder.files ==>
            file == EMPTY_FILE || exists i :: 0 <= i < |files| && files[i] == file && used[i])
  {
    hide *;
    TableStarts(files, used);
    var remap: seq<FileIndex> := seq(|files|, _ => 0);
    StartsAtZero(files, used, remap);
    for entry := 1 to |files|
      invariant builder.Valid() && builder.functions == [] && |builder.files| <= entry
      invariant builder.files == TableFrom(files, used, entry)
      invariant |remap| == |files| && RemapSoFar(files, used, remap, entry)
    {
      TableNext(files, used, entry);
      if used[entry] {
        var added := builder.AddFile(files[entry]);
        if added.Err? {
          return Err(added.error);
        }
        ValidIsDistinct(builder);
        UsedJoins(files, used, remap, entry, added.value);
        remap := remap[entry := added.value];
      } else {
        UnusedStays(files, used, remap, entry);
      }
    }
    RemapIs(files, used, remap);
    ValidBound(builder);
    TableHolds(files, used, |files|);
    forall i | 0 <= i < |files| && used[i]
      ensures remap[i] < |builder.files| && builder.files[remap[i]] == files[i]
    {
      RemapFinds(files, used, i);
    }
    return Ok(remap);
  }

  lemma TableStarts(files: seq<FileEntry>, used: seq<bool>)
    requires 1 <= |files| == |used|
    ensures TableFrom(files, used, 1) == [EMPTY_FILE]
  {
  }

  lemma TableNext(files: seq<FileEntry>, used: seq<bool>, n: nat)
    requires 1 <= n < |files| == |used|
    ensures
      var before := TableFrom(files, used, n);
      TableFrom(files, used, n + 1) == if used[n] && files[n] !in before then before + [files[n]] else before
  {
  }

  /** The first `n` entries of the renumbering, for the table after `n` files. */
  ghost predicate RemapSoFar(files: seq<FileEntry>, used: seq<bool>, remap: seq<FileIndex>, n: nat)
    requires n <= |files| == |used| == |remap|
  {
    && (forall i :: 0 <= i < n ==> remap[i] == NewIndex(files, used, TableFrom(files, used, n), i))
    && (forall i :: n <= i < |files| ==> remap[i] == 0)
  }

  lemma RemapIs(files: seq<FileEntry>, used: seq<bool>, remap: seq<FileIndex>)
    requires |used| == |files| == |remap| && RemapSoFar(files, used, remap, |files|)
    ensures remap == RemapTo(files, used, TableFrom(files, used, |files|))
  {
    hide NewIndex, TableFrom;
  }

  lemma ValidBound(builder: GsymBuilder)
    requires builder.Valid()
    ensures |builder.files| <= U32_LIMIT
  {
  }

  lemma StartsAtZero(files: seq<FileEntry>, used: seq<bool>, remap: seq<FileIndex>)
    requires 1 <= |files| == |used| == |remap| && forall i :: 0 <= i < |remap| ==> remap[i] == 0
    ensures RemapSoFar(files, used, remap, 1)
  {
    hide TableFrom, IndexIn;
  }

  lemma UsedJoins(files: seq<FileEntry>, used: seq<bool>, remap: seq<FileIndex>, n: nat, index: FileIndex)
    requires 0 < n < |files| == |used| == |remap| && files[0] == EMPTY_FILE && used[n]
    requires RemapSoFar(files, used, remap, n)
    requires
      var table := TableFrom(files, used, n + 1);
      Distinct(table) && index < |table| && table[index] == files[n]
    ensures RemapSoFar(files, used, remap[n := index], n + 1)
  {
    hide TableFrom, NewIndex, IndexIn, Distinct;
    NewEntryIndex(files, used, TableFrom(files, used, n + 1), n, index);
    EarlierStay(files, used, n);
  }

  lemma UnusedStays(files: seq<FileEntry>, used: seq<bool>, remap: seq<FileIndex>, n: nat)
    requires 0 < n < |files| == |used| == |remap| && files[0] == EMPTY_FILE && !used[n]
    requires RemapSoFar(files, used, remap, n)
    ensures RemapSoFar(files, used, remap, n + 1)
  {
    hide TableFrom, IndexIn;
    EarlierStay(files, used, n);
  }

  lemma EarlierStay(files: seq<FileEntry>, used: seq<bool>, n: nat)
    requires 0 < n < |files| == |used| && files[0] == EMPTY_FILE
    ensures forall i :: 0 <= i < n ==>
      NewIndex(files, used, TableFrom(files, used, n + 1), i) == NewIndex(files, used, TableFrom(files, used, n), i)
  {
    hide TableFrom, NewIndex, IndexIn;
    TableNext(files, used, n);
    TableHolds(files, used, n);
    forall i | 0 <= i < n
      ensures NewIndex(files, used, TableFrom(files, used, n + 1), i) == NewIndex(files, used, TableFrom(files, used, n), i)
    {
      NewIndexStays(files, used, TableFrom(files, used, n), TableFrom(files, used, n + 1), i);
    }
  }

  lemma NewEntryIndex(files: seq<FileEntry>, used: seq<bool>, table: seq<FileEntry>, i: nat, index: FileIndex)
    requires 0 < i < |files| == |used| && used[i] && Distinct(table) && index < |table| && table[index] == files[i]
    ensures NewIndex(files, used, table, i) == index
  {
    hide IndexIn, Distinct;
    IndexIsUnique(table, index);
  }

  lemma NewIndexStays(files: seq<FileEntry>, used: seq<bool>, before: seq<FileEntry>, after: seq<FileEntry>, i: nat)
    requires i < |files| == |used| && before <= after && (i > 0 && used[i] ==> files[i] in before)
    ensures NewIndex(files, used, after, i) == NewIndex(files, used, before, i)
  {
    hide IndexIn;
    if i > 0 && used[i] {
      assert after == before + after[|before|..];
      IndexStays(before, after[|before|..], files[i]);
    }
  }

  /** Every used file is in the table and found there, and nothing else is in it. */
  lemma {:induction false} TableHolds(files: seq<FileEntry>, used: seq<bool>, n: nat)
    requires n <= |files| == |used| && files != [] && files[0] == EMPTY_FILE
    ensures
      var table := TableFrom(files, used, n);
      && |table| <= Max(n, 1)
      && (forall i :: 0 <= i < n && (i == 0 || used[i]) ==> files[i] in table)
      && (forall file :: file in table ==> file == EMPTY_FILE || exists i :: 0 < i < n && files[i] == file && used[i])
  {
    if n > 1 {
      TableHolds(files, used, n - 1);
    }
  }

  lemma RemapFinds(files: seq<FileEntry>, used: seq<bool>, i: nat)
    requires i < |files| == |used| && files[0] == EMPTY_FILE && (i == 0 || used[i])
    requires |TableFrom(files, used, |files|)| <= U32_LIMIT
    ensures
      var table := TableFrom(files, used, |files|);
      var remap := RemapTo(files, used, table);
      remap[i] < |table| && table[remap[i]] == files[i]
  {
    hide IndexIn, TableFrom;
    TableHolds(files, used, |files|);
  }

  // Renumbering touches nothing the validator looks at.

  lemma {:induction false} RemapInlineListAt(nodes: seq<InlineNode>, remap: seq<FileIndex>)
    ensures |RemapInlineList(nodes, remap)| == |nodes|
    ensures forall i :: 0 <= i < |nodes| ==> RemapInlineList(nodes, remap)[i] == RemapInline(nodes[i], remap)
  {
    hide RemapInline;
    if nodes != [] {
      RemapInlineListAt(nodes[1..], remap);
    }
  }

  lemma {:induction false} RemapKeepsInline(node: InlineNode, remap: seq<FileIndex>, parents: seq<AddressRange>, depth: nat)
    ensures AdmissibleInline(RemapInline(node, remap), parents, depth) == AdmissibleInline(node, parents, depth)
    decreases node
  {
    hide OrderedRanges;
    var children := RemapInlineList(node.children, remap);
    RemapInlineListAt(node.children, remap);
    forall i | 0 <= i < |children|
      ensures AdmissibleInline(children[i], node.ranges, depth + 1) == AdmissibleInline(node.children[i], node.ranges, depth + 1)
    {
      RemapKeepsInline(node.children[i], remap, node.ranges, depth + 1);
    }
    assert forall child :: child in node.children ==> exists i :: 0 <= i < |children| && node.children[i] == child;
    assert forall i :: 0 <= i < |children| ==> children[i] in children && node.children[i] in node.children;
  }

  lemma RemapKeepsLines(lines: seq<LineEntry>, remap: seq<FileIndex>, range: AddressRange)
    ensures LinesInside(RemapLines(lines, remap), range) == LinesInside(lines, range)
  {
    var moved := RemapLines(lines, remap);
    assert forall i :: 0 <= i < |lines| ==> moved[i].address == lines[i].address && moved[i] in moved && lines[i] in lines;
  }

  lemma {:induction false} RemapKeepsAdmissible(f: Function, remap: seq<FileIndex>, parent: Option<AddressRange>, depth: nat)
    ensures Admissible(Remap(f, remap), parent, depth) == Admissible(f, parent, depth)
    decreases f, 1
  {
    hide RemapInline, AdmissibleInline, LinesInside, RemapLines, SitesInside, RemapList;
    RemapKeepsLines(f.lines, remap, f.range);
    if f.inline.Some? {
      RemapKeepsInline(f.inline.value, remap, [f.range], 0);
    }
    RemapKeepsList(f.merged, remap, Some(f.range), depth + 1);
  }

  lemma {:induction false} RemapKeepsList(functions: seq<Function>, remap: seq<FileIndex>, parent: Option<AddressRange>, depth: nat)
    ensures (forall g :: g in RemapList(functions, remap) ==> Admissible(g, parent, depth))
       <==> (forall g :: g in functions ==> Admissible(g, parent, depth))
    decreases functions, 0
  {
    hide Admissible, Remap;
    if functions != [] {
      RemapKeepsAdmissible(functions[0], remap, parent, depth);
      RemapKeepsList(functions[1..], remap, parent, depth);
      assert functions == [functions[0]] + functions[1..];
    }
  }

  lemma {:induction false} AdmissibleInlineWithin(node: InlineNode, parents: seq<AddressRange>, depth: nat)
    requires AdmissibleInline(node, parents, depth)
    ensures InlineWithin(node, depth)
    decreases node
  {
    hide OrderedRanges;
    forall child | child in node.children
      ensures InlineWithin(child, depth + 1)
    {
      AdmissibleInlineWithin(child, node.ranges, depth + 1);
    }
  }

  lemma {:induction false} AdmissibleWithin(f: Function, parent: Option<AddressRange>, depth: nat)
    requires Admissible(f, parent, depth)
    ensures FunctionWithin(f, depth)
    decreases f
  {
    hide LinesInside, SitesInside;
    if f.inline.Some? {
      AdmissibleInlineWithin(f.inline.value, [f.range], 0);
    }
    forall g | g in f.merged
      ensures FunctionWithin(g, depth + 1)
    {
      AdmissibleWithin(g, Some(f.range), depth + 1);
    }
  }

  /** What a decoded model must satisfy to be rebuilt. */
  ghost predicate Rebuildable(files: seq<FileEntry>, functions: seq<Function>) {
    && files != [] && files[0] == EMPTY_FILE
    && (forall i: nat :: AnyRefersTo(functions, i) ==> i < |files|)
    && (forall f :: f in functions ==> Admissible(f, None, 0))
  }

  /** `into_builder` and `builder_for_functions`: every function comes back with the
      same meaning, and the table holds exactly what is referred to.  With file
      indices of 32 bits it succeeds exactly when the references lie in the table
      and the validator accepts the functions. */
  method BuilderFor(files: seq<FileEntry>, functions: seq<Function>) returns (r: Result<GsymBuilder>)
    ensures r.Ok? ==>
      && fresh(r.value) && r.value.Valid()
      && TableOf(r.value.files, files, functions)
      && SameFunctionList(functions, files, r.value.functions, r.value.files)
    ensures |files| <= U32_LIMIT ==> (r.Ok? <==> Rebuildable(files, functions))
    ensures r.Ok? ==> (r.value.files, r.value.functions) == Rebuilt(files, functions)
  {
    hide RefersTo, SameFunction, Remap, RemapList, SameFunctionList, Admissible, FilesAtMost, FunctionWithin, AnyRefersTo, TableFrom,
      RemapTo, UsedBy;
    var marked := UsedFiles(files, functions);
    if marked.Err? {
      NotRebuildable(files, functions);
      return Err(marked.error);
    }
    var used := marked.value;
    var builder := new GsymBuilder();
    var interned := InternUsed(files, used, builder);
    if interned.Err? {
      return Err(interned.error);
    }
    var remap := interned.value;
    var added := AddRemapped(builder, functions, remap);
    if added.Err? {
      return Err(added.error);
    }
    UsedMeans(files, functions, used, remap, builder.files);
    ValidIsDistinct(builder);
    return Ok(builder);
  }

  lemma RemapNothing(remap: seq<FileIndex>)
    ensures RemapList([], remap) == []
  {
  }

  /** The functions with their references renumbered, in order. */
  method AddRemapped(builder: GsymBuilder, functions: seq<Function>, remap: seq<FileIndex>) returns (r: Result<Unit>)
    requires builder.Valid() && builder.functions == []
    modifies builder
    ensures builder.Valid() && builder.files == old(builder.files)
    ensures r.Ok? <==> forall f :: f in functions ==> Admissible(f, None, 0)
    ensures r.Ok? ==> builder.functions == RemapList(functions, remap)
  {
    hide *;
    RemapNothing(remap);
    for k := 0 to |functions|
      invariant builder.Valid() && builder.files == old(builder.files)
      invariant builder.functions == RemapList(functions[..k], remap)
      invariant forall c :: 0 <= c < k ==> Admissible(functions[c], None, 0)
    {
      RemapKeepsAdmissible(functions[k], remap, None, 0);
      var added := builder.AddFunction(Remap(functions[k], remap));
      if added.Err? {
        assert functions[k] in functions;
        return added;
      }
      RemapListSnoc(functions[..k], functions[k], remap);
      assert functions[..k + 1] == functions[..k] + [functions[k]];
    }
    assert functions[..|functions|] == functions;
    return Ok(Unit);
  }

  /** A table that holds the used files renames every reference. */
  lemma UsedMeans(files: seq<FileEntry>, functions: seq<Function>, used: seq<bool>, remap: seq<FileIndex>, newFiles: seq<FileEntry>)
    requires |used| == |files| == |remap|
    requires forall i: nat :: AnyRefersTo(functions, i) ==> i < |files|
    requires forall i: nat :: i < |files| && AnyRefersTo(functions, i) ==> used[i]
    requires forall i :: 0 <= i < |files| && used[i] ==> remap[i] < |newFiles| && newFiles[remap[i]] == files[i]
    ensures SameFunctionList(functions, files, RemapList(functions, remap), newFiles)
  {
    hide RefersTo, SameFunction, Remap;
    forall f | f in functions
      ensures Renames(f, files, remap, newFiles)
    {
      forall i: nat | RefersTo(f, i)
        ensures Renamed(i, files, remap, newFiles)
      {
        assert AnyRefersTo(functions, i);
      }
    }
    RemapListMeans(functions, files, remap, newFiles);
  }

  lemma NotRebuildable(files: seq<FileEntry>, functions: seq<Function>)
    requires
      || files == [] || files[0] != EMPTY_FILE
      || (exists i: nat :: AnyRefersTo(functions, i) && i >= |files|)
      || (exists f :: f in functions && !FunctionWithin(f, 0))
    ensures !Rebuildable(files, functions)
  {
    hide Admissible, FunctionWithin, AnyRefersTo;
    if f :| f in functions && !FunctionWithin(f, 0) {
      if Admissible(f, None, 0) {
        AdmissibleWithin(f, None, 0);
      }
    }
  }

  lemma {:induction false} RemapListSnoc(functions: seq<Function>, f: Function, remap: seq<FileIndex>)
    ensures RemapList(functions + [f], remap) == RemapList(functions, remap) + [Remap(f, remap)]
    decreases |functions|
  {
    hide Remap;
    if functions == [] {
      assert functions + [f] == [f] && [f][1..] == [];
    } else {
      RemapListSnoc(functions[1..], f, remap);
      assert (functions + [f])[1..] == functions[1..] + [f];
    }
  }
}
