/** String interning and the semantic encoder of src/writer/semantic.rs. */
module Strings {
  import opened Words
  import opened Wrappers
  import opened Model
  import opened InlineInfo
  import opened FunctionInfo

  /** The string lies at the offset, followed by a NUL. */
  predicate Stored(bytes: seq<uint8>, offset: nat, s: seq<uint8>) {
    && offset + |s| < |bytes|
    && bytes[offset..offset + |s|] == s
    && bytes[offset + |s|] == 0
  }

  /** A reference to the string; offset zero stands for the empty one only. */
  predicate NameAt(bytes: seq<uint8>, offset: uint64, s: seq<uint8>) {
    Stored(bytes, offset, s) && (offset == 0 <==> s == [])
  }

  lemma StoredGrows(bytes: seq<uint8>, more: seq<uint8>, offset: nat, s: seq<uint8>)
    requires Stored(bytes, offset, s) && bytes <= more
    ensures Stored(more, offset, s)
  {
    assert more[..|bytes|] == bytes;
    assert more[offset..offset + |s|] == bytes[offset..offset + |s|];
  }

  /** What a string table holds: its bytes, and where each string starts. */
  datatype Table = Table(bytes: seq<uint8>, entries: map<seq<uint8>, uint64>)

  const EMPTY_TABLE := Table([0], map[[] := 0])

  function Interned(table: Table, s: seq<uint8>): Result<(uint64, Table)> {
    if s in table.entries then Ok((table.entries[s], table))
    else if |table.bytes| >= U64_LIMIT then Err(Overflow)
    else Ok((|table.bytes|, Table(table.bytes + s + [0], table.entries[s := |table.bytes|])))
  }

  /** A result and the table after it are the ones wanted. */
  predicate Did<T(==)>(r: Result<T>, want: Result<(T, Table)>, after: Table) {
    match want
    case Ok(both) => r == Ok(both.0) && after == both.1
    case Err(error) => r == Err(error)
  }

  /** Bytes in order of first insertion, and where each string starts. */
  class StringTable {
    var bytes: seq<uint8>
    var entries: map<seq<uint8>, uint64>

    ghost predicate Valid()
      reads this
    {
      && [] in entries
      && forall s :: s in entries ==> NameAt(bytes, entries[s], s)
    }

    function View(): Table
      reads this
    {
      Table(bytes, entries)
    }

    constructor ()
      ensures Valid() && View() == EMPTY_TABLE
    {
      bytes := [0];
      entries := map[[] := 0];
    }

    /** Where the string is, appending it with one NUL if it is new. */
    method Intern(s: seq<uint8>) returns (r: Result<uint64>)
      requires Valid()
      modifies this
      ensures Valid() && old(bytes) <= bytes
      ensures r.Ok? <==> s in old(entries) || |old(bytes)| < U64_LIMIT
      ensures r.Ok? ==> NameAt(bytes, r.value, s)
      ensures bytes == if s in old(entries) || r.Err? then old(bytes) else old(bytes) + s + [0]
      ensures entries == if r.Ok? then old(entries)[s := r.value] else old(entries)
      ensures Did(r, Interned(old(View()), s), View())
    {
      hide Stored, NameAt;
      if s in entries {
        return Ok(entries[s]);
      }
      var offset := |bytes|;
      if offset >= U64_LIMIT {
        return Err(Overflow);
      }
      ghost var before := bytes;
      bytes := bytes + s + [0];
      NewString(before, entries[[]], s);
      forall other | other in entries
        ensures NameAt(bytes, entries[other], other)
      {
        NameGrows(before, bytes, entries[other], other);
      }
      entries := entries[s := offset];
      return Ok(offset);
    }
  }

  /** A string appended to a table that holds the empty one lies past offset zero. */
  lemma NewString(before: seq<uint8>, empty: uint64, s: seq<uint8>)
    requires NameAt(before, empty, []) && |before| < U64_LIMIT && s != []
    ensures before <= before + s + [0] && NameAt(before + s + [0], |before|, s)
  {
    var bytes := before + s + [0];
    assert bytes[..|before|] == before;
    assert bytes[|before|..|before| + |s|] == s;
  }

  // The strings of a function are interned in this order: name, inline tree from the
  // root down, merged functions, call sites.

  function NamedInline(node: InlineNode, table: Table): Result<(EncodedInlineNode, Table)>
    decreases node, 1
  {
    var name :- Interned(table, node.name);
    var children :- NamedInlineList(node.children, name.1);
    Ok((EncodedInlineNode(node.ranges, name.0, node.callFile, node.callLine, children.0), children.1))
  }

  function NamedInlineList(nodes: seq<InlineNode>, table: Table): Result<(seq<EncodedInlineNode>, Table)>
    decreases nodes, 0
  {
    if nodes == [] then Ok(([], table))
    else
      var first :- NamedInline(nodes[0], table);
      var rest :- NamedInlineList(nodes[1..], first.1);
      Ok(([first.0] + rest.0, rest.1))
  }

  function NamedStrings(list: seq<seq<uint8>>, table: Table): Result<(seq<uint64>, Table)>
    decreases |list|
  {
    if list == [] then Ok(([], table))
    else
      var first :- Interned(table, list[0]);
      var rest :- NamedStrings(list[1..], first.1);
      Ok(([first.0] + rest.0, rest.1))
  }

  function NamedSites(sites: seq<CallSite>, table: Table): Result<(seq<EncodedCallSite>, Table)>
    decreases |sites|
  {
    if sites == [] then Ok(([], table))
    else
      var regexes :- NamedStrings(sites[0].matchRegex, table);
      var rest :- NamedSites(sites[1..], regexes.1);
      Ok(([EncodedCallSite(sites[0].returnOffset, sites[0].flags, regexes.0)] + rest.0, rest.1))
  }

  function NamedOption(inline: Option<InlineNode>, table: Table): Result<(Option<EncodedInlineNode>, Table)> {
    if inline.None? then Ok((None, table))
    else
      var node :- NamedInline(inline.value, table);
      Ok((Some(node.0), node.1))
  }

  function NamedFunction(f: Function, table: Table, depth: nat): Result<(EncodedFunction, Table)>
    decreases f, 1
  {
    if depth > MAX_MERGED_DEPTH then Err(Limit)
    else
      var name :- Interned(table, f.name);
      var inline :- NamedOption(f.inline, name.1);
      var merged :- NamedList(f.merged, inline.1, depth + 1);
      var sites :- NamedSites(f.callSites, merged.1);
      Ok((EncodedFunction(f.range, name.0, if f.lines == [] then None else Some(f.lines), inline.0, merged.0, sites.0), sites.1))
  }

  function NamedList(functions: seq<Function>, table: Table, depth: nat): Result<(seq<EncodedFunction>, Table)>
    decreases functions, 0
  {
    if functions == [] then Ok(([], table))
    else
      var first :- NamedFunction(functions[0], table, depth);
      var rest :- NamedList(functions[1..], first.1, depth);
      Ok(([first.0] + rest.0, rest.1))
  }

  function NamedFiles(files: seq<FileEntry>, table: Table): Result<(seq<(uint64, uint64)>, Table)>
    decreases |files|
  {
    if files == [] then Ok(([], table))
    else
      var before :- NamedFiles(files[..|files| - 1], table);
      NamedPair(before, files[|files| - 1])
  }

  // --------------------------------------------------- what an encoding represents

  predicate InlineNames(bytes: seq<uint8>, e: EncodedInlineNode, node: InlineNode)
    decreases e, 1
  {
    && e.ranges == node.ranges && e.callFile == node.callFile && e.callLine == node.callLine
    && NameAt(bytes, e.name, node.name)
    && InlineListNames(bytes, e.children, node.children)
  }

  predicate InlineListNames(bytes: seq<uint8>, es: seq<EncodedInlineNode>, nodes: seq<InlineNode>)
    decreases es, 0
  {
    if es == [] || nodes == [] then es == [] && nodes == []
    else InlineNames(bytes, es[0], nodes[0]) && InlineListNames(bytes, es[1..], nodes[1..])
  }

  predicate StringNames(bytes: seq<uint8>, offsets: seq<uint64>, strings: seq<seq<uint8>>) {
    if offsets == [] || strings == [] then offsets == [] && strings == []
    else NameAt(bytes, offsets[0], strings[0]) && StringNames(bytes, offsets[1..], strings[1..])
  }

  predicate SiteNames(bytes: seq<uint8>, es: seq<EncodedCallSite>, sites: seq<CallSite>) {
    if es == [] || sites == [] then es == [] && sites == []
    else
      && es[0].returnOffset == sites[0].returnOffset && es[0].flags == sites[0].flags
      && StringNames(bytes, es[0].matchRegex, sites[0].matchRegex)
      && SiteNames(bytes, es[1..], sites[1..])
  }

  /** `e` is the function with offsets in place of its strings. */
  predicate Names(bytes: seq<uint8>, e: EncodedFunction, f: Function)
    decreases e, 1
  {
    && e.range == f.range
    && NameAt(bytes, e.name, f.name)
    && e.lines == (if f.lines == [] then None else Some(f.lines))
    && (match e.inline case None => f.inline == None
        case Some(node) => f.inline.Some? && InlineNames(bytes, node, f.inline.value))
    && SiteNames(bytes, e.callSites, f.callSites)
    && ListNames(bytes, e.merged, f.merged)
  }

  predicate ListNames(bytes: seq<uint8>, es: seq<EncodedFunction>, functions: seq<Function>)
    decreases es, 0
  {
    if es == [] || functions == [] then es == [] && functions == []
    else Names(bytes, es[0], functions[0]) && ListNames(bytes, es[1..], functions[1..])
  }

  // A lookup looks at offsets, the model at strings: offset zero stands for no name.

  predicate NodeTells(e: EncodedInlineNode, node: InlineNode)
    decreases e, 1
  {
    (e.name == 0 <==> node.name == []) && NodesTell(e.children, node.children)
  }

  predicate NodesTell(es: seq<EncodedInlineNode>, nodes: seq<InlineNode>)
    decreases es, 0
  {
    if es == [] || nodes == [] then es == [] && nodes == []
    else NodeTells(es[0], nodes[0]) && NodesTell(es[1..], nodes[1..])
  }

  /** The offset of the function, and of every node of its inline tree, is zero exactly
      where its string is empty. */
  predicate Tells(e: EncodedFunction, f: Function) {
    && (e.name == 0 <==> f.name == [])
    && match e.inline
       case None => f.inline == None
       case Some(node) => f.inline.Some? && NodeTells(node, f.inline.value)
  }

  predicate AllTell(es: seq<EncodedFunction>, functions: seq<Function>) {
    |es| == |functions| && forall i :: 0 <= i < |es| ==> Tells(es[i], functions[i])
  }

  lemma {:induction false} InlineNamesTell(bytes: seq<uint8>, e: EncodedInlineNode, node: InlineNode)
    requires InlineNames(bytes, e, node)
    ensures NodeTells(e, node)
    decreases e, 1
  {
    hide Stored;
    InlineListNamesTell(bytes, e.children, node.children);
  }

  lemma {:induction false} InlineListNamesTell(bytes: seq<uint8>, es: seq<EncodedInlineNode>, nodes: seq<InlineNode>)
    requires InlineListNames(bytes, es, nodes)
    ensures NodesTell(es, nodes)
    decreases es, 0
  {
    hide InlineNames, NodeTells;
    if es != [] {
      InlineNamesTell(bytes, es[0], nodes[0]);
      InlineListNamesTell(bytes, es[1..], nodes[1..]);
    }
  }

  lemma NamesTell(bytes: seq<uint8>, e: EncodedFunction, f: Function)
    requires Names(bytes, e, f)
    ensures Tells(e, f)
  {
    hide Stored, InlineNames, NodeTells, SiteNames, ListNames;
    if e.inline.Some? {
      InlineNamesTell(bytes, e.inline.value, f.inline.value);
    }
  }

  lemma {:induction false} ListNamesTell(bytes: seq<uint8>, es: seq<EncodedFunction>, functions: seq<Function>)
    requires ListNames(bytes, es, functions)
    ensures AllTell(es, functions)
    decreases |es|
  {
    hide Names, Tells;
    if es != [] {
      NamesTell(bytes, es[0], functions[0]);
      ListNamesTell(bytes, es[1..], functions[1..]);
    }
  }

  // Growing the table keeps every reference made before.

  lemma {:induction false} InlineNamesGrow(bytes: seq<uint8>, more: seq<uint8>, e: EncodedInlineNode, node: InlineNode)
    requires InlineNames(bytes, e, node) && bytes <= more
    ensures InlineNames(more, e, node)
    decreases e, 1
  {
    hide Stored;
    StoredGrows(bytes, more, e.name, node.name);
    InlineListNamesGrow(bytes, more, e.children, node.children);
  }

  lemma {:induction false} InlineListNamesGrow(bytes: seq<uint8>, more: seq<uint8>, es: seq<EncodedInlineNode>, nodes: seq<InlineNode>)
    requires InlineListNames(bytes, es, nodes) && bytes <= more
    ensures InlineListNames(more, es, nodes)
    decreases es, 0
  {
    if es != [] {
      InlineNamesGrow(bytes, more, es[0], nodes[0]);
      InlineListNamesGrow(bytes, more, es[1..], nodes[1..]);
    }
  }

  lemma {:induction false} StringNamesGrow(bytes: seq<uint8>, more: seq<uint8>, offsets: seq<uint64>, strings: seq<seq<uint8>>)
    requires StringNames(bytes, offsets, strings) && bytes <= more
    ensures StringNames(more, offsets, strings)
    decreases |offsets|
  {
    hide Stored;
    if offsets != [] {
      StoredGrows(bytes, more, offsets[0], strings[0]);
      StringNamesGrow(bytes, more, offsets[1..], strings[1..]);
    }
  }

  lemma {:induction false} SiteNamesGrow(bytes: seq<uint8>, more: seq<uint8>, es: seq<EncodedCallSite>, sites: seq<CallSite>)
    requires SiteNames(bytes, es, sites) && bytes <= more
    ensures SiteNames(more, es, sites)
    decreases |es|
  {
    if es != [] {
      StringNamesGrow(bytes, more, es[0].matchRegex, sites[0].matchRegex);
      SiteNamesGrow(bytes, more, es[1..], sites[1..]);
    }
  }

  lemma {:induction false} NamesGrow(bytes: seq<uint8>, more: seq<uint8>, e: EncodedFunction, f: Function)
    requires Names(bytes, e, f) && bytes <= more
    ensures Names(more, e, f)
    decreases e, 1
  {
    hide Stored, InlineNames;
    StoredGrows(bytes, more, e.name, f.name);
    if e.inline.Some? {
      InlineNamesGrow(bytes, more, e.inline.value, f.inline.value);
    }
    SiteNamesGrow(bytes, more, e.callSites, f.callSites);
    ListNamesGrow(bytes, more, e.merged, f.merged);
  }

  lemma {:induction false} ListNamesGrow(bytes: seq<uint8>, more: seq<uint8>, es: seq<EncodedFunction>, functions: seq<Function>)
    requires ListNames(bytes, es, functions) && bytes <= more
    ensures ListNames(more, es, functions)
    decreases es, 0
  {
    if es != [] {
      NamesGrow(bytes, more, es[0], functions[0]);
      ListNamesGrow(bytes, more, es[1..], functions[1..]);
    }
  }

  // ------------------------------------------------------------------- the encoder

  method EncodeInlineNames(node: InlineNode, strings: StringTable) returns (r: Result<EncodedInlineNode>)
    requires strings.Valid()
    modifies strings
    ensures strings.Valid() && old(strings.bytes) <= strings.bytes
    ensures r.Ok? ==> InlineNames(strings.bytes, r.value, node)
    ensures Did(r, NamedInline(node, old(strings.View())), strings.View())
    ensures r.Err? ==> |strings.bytes| >= U64_LIMIT
    decreases node, 1
  {
    hide Stored, NameAt, InlineListNames;
    var name :- strings.Intern(node.name);
    ghost var interned := strings.bytes;
    var children :- EncodeInlineListNames(node.children, strings);
    NameGrows(interned, strings.bytes, name, node.name);
    return Ok(EncodedInlineNode(node.ranges, name, node.callFile, node.callLine, children));
  }

  lemma NameGrows(bytes: seq<uint8>, more: seq<uint8>, offset: uint64, s: seq<uint8>)
    requires NameAt(bytes, offset, s) && bytes <= more
    ensures NameAt(more, offset, s)
  {
    StoredGrows(bytes, more, offset, s);
  }

  method EncodeInlineListNames(nodes: seq<InlineNode>, strings: StringTable) returns (r: Result<seq<EncodedInlineNode>>)
    requires strings.Valid()
    modifies strings
    ensures strings.Valid() && old(strings.bytes) <= strings.bytes
    ensures r.Ok? ==> InlineListNames(strings.bytes, r.value, nodes)
    ensures Did(r, NamedInlineList(nodes, old(strings.View())), strings.View())
    ensures r.Err? ==> |strings.bytes| >= U64_LIMIT
    decreases nodes, 0
  {
    hide InlineNames;
    if nodes == [] {
      return Ok([]);
    }
    var first :- EncodeInlineNames(nodes[0], strings);
    ghost var before := strings.bytes;
    var rest :- EncodeInlineListNames(nodes[1..], strings);
    InlineNamesGrow(before, strings.bytes, first, nodes[0]);
    return Ok([first] + rest);
  }

  method EncodeStrings(list: seq<seq<uint8>>, strings: StringTable) returns (r: Result<seq<uint64>>)
    requires strings.Valid()
    modifies strings
    ensures strings.Valid() && old(strings.bytes) <= strings.bytes
    ensures r.Ok? ==> StringNames(strings.bytes, r.value, list)
    ensures Did(r, NamedStrings(list, old(strings.View())), strings.View())
    ensures r.Err? ==> |strings.bytes| >= U64_LIMIT
    decreases |list|
  {
    hide NameAt;
    if list == [] {
      return Ok([]);
    }
    var first :- strings.Intern(list[0]);
    ghost var before := strings.bytes;
    var rest :- EncodeStrings(list[1..], strings);
    NameGrows(before, strings.bytes, first, list[0]);
    return Ok([first] + rest);
  }

  method EncodeSites(sites: seq<CallSite>, strings: StringTable) returns (r: Result<seq<EncodedCallSite>>)
    requires strings.Valid()
    modifies strings
    ensures strings.Valid() && old(strings.bytes) <= strings.bytes
    ensures r.Ok? ==> SiteNames(strings.bytes, r.value, sites)
    ensures Did(r, NamedSites(sites, old(strings.View())), strings.View())
    ensures r.Err? ==> |strings.bytes| >= U64_LIMIT
    decreases |sites|
  {
    hide StringNames;
    if sites == [] {
      return Ok([]);
    }
    var regexes :- EncodeStrings(sites[0].matchRegex, strings);
    ghost var before := strings.bytes;
    var rest :- EncodeSites(sites[1..], strings);
    StringNamesGrow(before, strings.bytes, regexes, sites[0].matchRegex);
    return Ok([EncodedCallSite(sites[0].returnOffset, sites[0].flags, regexes)] + rest);
  }

  /** The merged functions nest no deeper than the format allows. */
  predicate WithinMergedDepth(f: Function, depth: nat)
    decreases f
  {
    depth <= MAX_MERGED_DEPTH && forall g :: g in f.merged ==> WithinMergedDepth(g, depth + 1)
  }

  method EncodeInlineOption(inline: Option<InlineNode>, strings: StringTable) returns (r: Result<Option<EncodedInlineNode>>)
    requires strings.Valid()
    modifies strings
    ensures strings.Valid() && old(strings.bytes) <= strings.bytes
    ensures r.Ok? ==> match r.value
      case None => inline == None
      case Some(node) => inline.Some? && InlineNames(strings.bytes, node, inline.value)
    ensures r.Err? ==> |strings.bytes| >= U64_LIMIT
    ensures Did(r, NamedOption(inline, old(strings.View())), strings.View())
  {
    hide InlineNames;
    if inline.None? {
      return Ok(None);
    }
    var node :- EncodeInlineNames(inline.value, strings);
    return Ok(Some(node));
  }

  /** `encode_function_at`: name, inline tree, merged functions and call sites, in
      this order. */
  method EncodeFunctionNames(f: Function, strings: StringTable, depth: nat) returns (r: Result<EncodedFunction>)
    requires strings.Valid()
    modifies strings
    ensures strings.Valid() && old(strings.bytes) <= strings.bytes
    ensures r.Ok? ==> Names(strings.bytes, r.value, f) && WithinMergedDepth(f, depth)
    ensures Did(r, NamedFunction(f, old(strings.View()), depth), strings.View())
    ensures r.Err? ==> |strings.bytes| >= U64_LIMIT || !WithinMergedDepth(f, depth)
    decreases f, 1
  {
    hide NameAt, InlineNames, SiteNames, ListNames, NamedOption, NamedList, NamedSites, Interned;
    if depth > MAX_MERGED_DEPTH {
      return Err(Limit);
    }
    var name :- strings.Intern(f.name);
    ghost var named := strings.bytes;
    var inline :- EncodeInlineOption(f.inline, strings);
    ghost var inlined := strings.bytes;
    var merged :- EncodeListNames(f.merged, strings, depth + 1);
    ghost var mergedBytes := strings.bytes;
    var sites :- EncodeSites(f.callSites, strings);
    NameGrows(named, strings.bytes, name, f.name);
    if inline.Some? {
      InlineNamesGrow(inlined, strings.bytes, inline.value, f.inline.value);
    }
    ListNamesGrow(mergedBytes, strings.bytes, merged, f.merged);
    return Ok(EncodedFunction(f.range, name, if f.lines == [] then None else Some(f.lines), inline, merged, sites));
  }

  method EncodeListNames(functions: seq<Function>, strings: StringTable, depth: nat) returns (r: Result<seq<EncodedFunction>>)
    requires strings.Valid()
    modifies strings
    ensures strings.Valid() && old(strings.bytes) <= strings.bytes
    ensures r.Ok? ==>
      && ListNames(strings.bytes, r.value, functions)
      && forall f :: f in functions ==> WithinMergedDepth(f, depth)
    ensures Did(r, NamedList(functions, old(strings.View()), depth), strings.View())
    ensures r.Err? ==> |strings.bytes| >= U64_LIMIT || exists f :: f in functions && !WithinMergedDepth(f, depth)
    decreases functions, 0
  {
    hide Names, WithinMergedDepth;
    if functions == [] {
      return Ok([]);
    }
    var first :- EncodeFunctionNames(functions[0], strings, depth);
    ghost var before := strings.bytes;
    var rest :- EncodeListNames(functions[1..], strings, depth);
    NamesGrow(before, strings.bytes, first, functions[0]);
    return Ok([first] + rest);
  }

  predicate FileNames(bytes: seq<uint8>, pairs: seq<(uint64, uint64)>, files: seq<FileEntry>) {
    && |pairs| == |files|
    && forall i :: 0 <= i < |files| ==>
         NameAt(bytes, pairs[i].0, files[i].directory) && NameAt(bytes, pairs[i].1, files[i].basename)
  }

  lemma FileNamesGrow(bytes: seq<uint8>, more: seq<uint8>, pairs: seq<(uint64, uint64)>, files: seq<FileEntry>)
    requires FileNames(bytes, pairs, files) && bytes <= more
    ensures FileNames(more, pairs, files)
  {
    hide NameAt;
    forall i | 0 <= i < |files|
      ensures NameAt(more, pairs[i].0, files[i].directory) && NameAt(more, pairs[i].1, files[i].basename)
    {
      NameGrows(bytes, more, pairs[i].0, files[i].directory);
      NameGrows(bytes, more, pairs[i].1, files[i].basename);
    }
  }

  method InternFiles(files: seq<FileEntry>, strings: StringTable) returns (r: Result<seq<(uint64, uint64)>>)
    requires strings.Valid()
    modifies strings
    ensures strings.Valid() && old(strings.bytes) <= strings.bytes
    ensures r.Ok? ==> FileNames(strings.bytes, r.value, files)
    ensures Did(r, NamedFiles(files, old(strings.View())), strings.View())
    ensures r.Err? ==> |strings.bytes| >= U64_LIMIT
  {
    hide NameAt, FileNames, Interned, NamedFiles;
    ghost var start := strings.View();
    var pairs: seq<(uint64, uint64)> := [];
    NoFileNames(strings.bytes);
    NamedNoFiles(start);
    for i := 0 to |files|
      invariant strings.Valid() && old(strings.bytes) <= strings.bytes
      invariant FileNames(strings.bytes, pairs, files[..i])
      invariant NamedFiles(files[..i], start) == Ok((pairs, strings.View()))
    {
      NamedFilesNext(files, i, start);
      ghost var before := strings.bytes;
      var directory := strings.Intern(files[i].directory);
      if directory.Err? {
        NamedFilesFail(files, i + 1, start);
        return Err(directory.error);
      }
      ghost var middle := strings.bytes;
      var basename := strings.Intern(files[i].basename);
      if basename.Err? {
        NamedFilesFail(files, i + 1, start);
        return Err(basename.error);
      }
      NameGrows(middle, strings.bytes, directory.value, files[i].directory);
      FileNamesGrow(before, strings.bytes, pairs, files[..i]);
      FileNamesNext(strings.bytes, pairs, files, i, directory.value, basename.value);
      pairs := pairs + [(directory.value, basename.value)];
    }
    assert files[..|files|] == files;
    return Ok(pairs);
  }

  lemma NamedNoFiles(table: Table)
    ensures NamedFiles([], table) == Ok(([], table))
  {
  }

  lemma NamedFilesNext(files: seq<FileEntry>, i: nat, table: Table)
    requires i < |files|
    ensures NamedFiles(files[..i + 1], table) ==
      if NamedFiles(files[..i], table).Err? then Err(NamedFiles(files[..i], table).error)
      else NamedPair(NamedFiles(files[..i], table).value, files[i])
  {
    hide Interned;
    assert files[..i + 1][..i] == files[..i];
  }

  function NamedPair(before: (seq<(uint64, uint64)>, Table), file: FileEntry): Result<(seq<(uint64, uint64)>, Table)> {
    var directory :- Interned(before.1, file.directory);
    var basename :- Interned(directory.1, file.basename);
    Ok((before.0 + [(directory.0, basename.0)], basename.1))
  }

  lemma {:induction false} NamedFilesFail(files: seq<FileEntry>, n: nat, table: Table)
    requires n <= |files| && NamedFiles(files[..n], table).Err?
    ensures NamedFiles(files, table) == Err(NamedFiles(files[..n], table).error)
    decreases |files|
  {
    hide Interned;
    if n == |files| {
      assert files[..n] == files;
    } else {
      assert files[..|files| - 1][..n] == files[..n];
      NamedFilesFail(files[..|files| - 1], n, table);
    }
  }

  lemma NoFileNames(bytes: seq<uint8>)
    ensures FileNames(bytes, [], [])
  {
  }

  lemma FileNamesNext(bytes: seq<uint8>, pairs: seq<(uint64, uint64)>, files: seq<FileEntry>, i: nat, directory: uint64, basename: uint64)
    requires i < |files| && FileNames(bytes, pairs, files[..i])
    requires NameAt(bytes, directory, files[i].directory) && NameAt(bytes, basename, files[i].basename)
    ensures FileNames(bytes, pairs + [(directory, basename)], files[..i + 1])
  {
    hide NameAt;
    assert files[..i + 1] == files[..i] + [files[i]];
  }
}
