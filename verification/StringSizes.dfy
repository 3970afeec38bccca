/** The size of the string table: it depends on the set of strings alone, and what an
    encoding keeps of a model besides offsets. */
module StringSizes {
  import opened Words
  import opened Wrappers
  import opened Model
  import opened InlineInfo
  import opened FunctionInfo
  import opened Sorting
  import opened Finalize
  import opened Renumber
  import opened Strings
  import opened RecordSizes

  // ------------------------------------------------------------------ sums over strings

  /** Each string and the NUL after it. */
  ghost function StoredSize(strings: set<seq<uint8>>): nat
    decreases |strings|
  {
    if strings == {} then 0
    else
      var s :| s in strings;
      |s| + 1 + StoredSize(strings - {s})
  }

  lemma {:induction false} WithString(strings: set<seq<uint8>>, s: seq<uint8>)
    requires s in strings
    ensures StoredSize(strings) == |s| + 1 + StoredSize(strings - {s})
    decreases |strings|
  {
    var t :| t in strings && StoredSize(strings) == |t| + 1 + StoredSize(strings - {t});
    if t != s {
      WithString(strings - {t}, s);
      WithString(strings - {s}, t);
      assert strings - {t} - {s} == strings - {s} - {t};
    }
  }

  lemma {:induction false} MoreStrings(a: set<seq<uint8>>, b: set<seq<uint8>>)
    requires a <= b
    ensures StoredSize(a) <= StoredSize(b)
    decreases |a|
  {
    if s :| s in a {
      WithString(a, s);
      WithString(b, s);
      MoreStrings(a - {s}, b - {s});
    }
  }

  /** The bytes are those of the strings, whatever their order. */
  ghost predicate Packed(table: Table) {
    |table.bytes| == StoredSize(table.entries.Keys)
  }

  lemma EmptyPacked()
    ensures Packed(EMPTY_TABLE) && EMPTY_TABLE.entries.Keys == {[]}
  {
    WithString({[]}, []);
  }

  /** The table after it is packed and holds these strings as well. */
  ghost predicate Joins(before: Table, strings: set<seq<uint8>>, after: Table) {
    Packed(after) && after.entries.Keys == before.entries.Keys + strings
  }

  lemma InternedJoins(table: Table, s: seq<uint8>)
    requires Packed(table) && Interned(table, s).Ok?
    ensures Joins(table, {s}, Interned(table, s).value.1)
  {
    if s !in table.entries {
      var keys := table.entries.Keys + {s};
      WithString(keys, s);
      assert keys - {s} == table.entries.Keys;
      assert table.entries[s := |table.bytes|].Keys == keys;
    } else {
      assert table.entries.Keys + {s} == table.entries.Keys;
    }
  }

  lemma JoinsTwice(a: Table, x: set<seq<uint8>>, b: Table, y: set<seq<uint8>>, c: Table)
    requires Joins(a, x, b) && Joins(b, y, c)
    ensures Joins(a, x + y, c)
  {
  }

  // ------------------------------------------------------------- the strings of a model

  ghost function InlineStrings(node: InlineNode): set<seq<uint8>>
    decreases node, 1
  {
    {node.name} + InlineListStrings(node.children)
  }

  ghost function InlineListStrings(nodes: seq<InlineNode>): set<seq<uint8>>
    decreases nodes, 0
  {
    if nodes == [] then {} else InlineStrings(nodes[0]) + InlineListStrings(nodes[1..])
  }

  ghost function OptionStrings(inline: Option<InlineNode>): set<seq<uint8>> {
    match inline case None => {} case Some(node) => InlineStrings(node)
  }

  ghost function PatternStrings(list: seq<seq<uint8>>): set<seq<uint8>> {
    if list == [] then {} else {list[0]} + PatternStrings(list[1..])
  }

  ghost function SiteStrings(sites: seq<CallSite>): set<seq<uint8>> {
    if sites == [] then {} else PatternStrings(sites[0].matchRegex) + SiteStrings(sites[1..])
  }

  ghost function FunctionStrings(f: Function): set<seq<uint8>>
    decreases f, 1
  {
    {f.name} + OptionStrings(f.inline) + ListStrings(f.merged) + SiteStrings(f.callSites)
  }

  ghost function ListStrings(functions: seq<Function>): set<seq<uint8>>
    decreases functions, 0
  {
    if functions == [] then {} else FunctionStrings(functions[0]) + ListStrings(functions[1..])
  }

  ghost function FileStrings(files: seq<FileEntry>): set<seq<uint8>>
    decreases |files|
  {
    if files == [] then {}
    else FileStrings(files[..|files| - 1]) + ({files[|files| - 1].directory} + {files[|files| - 1].basename})
  }

  // ------------------------------------------- interning joins them, and keeps the rest

  lemma {:induction false} InlineJoins(node: InlineNode, table: Table)
    requires Packed(table) && NamedInline(node, table).Ok?
    ensures Joins(table, InlineStrings(node), NamedInline(node, table).value.1)
    ensures NodeOutline(NamedInline(node, table).value.0, node)
    decreases node, 1
  {
    hide Interned, Joins, NodesOutline, InlineListStrings, NamedInlineList, Packed;
    InternedJoins(table, node.name);
    var named := Interned(table, node.name).value.1;
    JoinsPacked(table, {node.name}, named);
    InlineListJoins(node.children, named);
    JoinsTwice(table, {node.name}, named, InlineListStrings(node.children), NamedInline(node, table).value.1);
  }

  lemma JoinsPacked(before: Table, strings: set<seq<uint8>>, after: Table)
    requires Joins(before, strings, after)
    ensures Packed(after)
  {
  }

  lemma JoinsNothing(table: Table)
    requires Packed(table)
    ensures Joins(table, {}, table)
  {
  }

  lemma {:induction false} InlineListJoins(nodes: seq<InlineNode>, table: Table)
    requires Packed(table) && NamedInlineList(nodes, table).Ok?
    ensures Joins(table, InlineListStrings(nodes), NamedInlineList(nodes, table).value.1)
    ensures NodesOutline(NamedInlineList(nodes, table).value.0, nodes)
    decreases nodes, 0
  {
    hide Joins, NodeOutline, InlineStrings, NamedInline, Packed;
    if nodes == [] {
      JoinsNothing(table);
    } else {
      InlineJoins(nodes[0], table);
      var first := NamedInline(nodes[0], table).value.1;
      JoinsPacked(table, InlineStrings(nodes[0]), first);
      InlineListJoins(nodes[1..], first);
      JoinsTwice(table, InlineStrings(nodes[0]), first, InlineListStrings(nodes[1..]), NamedInlineList(nodes, table).value.1);
    }
  }

  lemma OptionJoins(inline: Option<InlineNode>, table: Table)
    requires Packed(table) && NamedOption(inline, table).Ok?
    ensures Joins(table, OptionStrings(inline), NamedOption(inline, table).value.1)
    ensures
      match NamedOption(inline, table).value.0
      case None => inline == None
      case Some(node) => inline.Some? && NodeOutline(node, inline.value)
  {
    hide Joins, NodeOutline, InlineStrings, NamedInline, Packed;
    if inline.Some? {
      InlineJoins(inline.value, table);
    } else {
      JoinsNothing(table);
    }
  }

  lemma {:induction false} PatternsJoin(list: seq<seq<uint8>>, table: Table)
    requires Packed(table) && NamedStrings(list, table).Ok?
    ensures Joins(table, PatternStrings(list), NamedStrings(list, table).value.1)
    ensures |NamedStrings(list, table).value.0| == |list|
    decreases |list|
  {
    hide Joins, Interned, Packed;
    if list == [] {
      JoinsNothing(table);
    } else {
      InternedJoins(table, list[0]);
      var first := Interned(table, list[0]).value.1;
      JoinsPacked(table, {list[0]}, first);
      PatternsJoin(list[1..], first);
      JoinsTwice(table, {list[0]}, first, PatternStrings(list[1..]), NamedStrings(list, table).value.1);
    }
  }

  lemma {:induction false} SitesJoin(sites: seq<CallSite>, table: Table)
    requires Packed(table) && NamedSites(sites, table).Ok?
    ensures Joins(table, SiteStrings(sites), NamedSites(sites, table).value.1)
    ensures SitesOutline(NamedSites(sites, table).value.0, sites)
    decreases |sites|
  {
    hide Joins, NamedStrings, PatternStrings, Packed;
    if sites == [] {
      JoinsNothing(table);
    } else {
      PatternsJoin(sites[0].matchRegex, table);
      var first := NamedStrings(sites[0].matchRegex, table).value.1;
      JoinsPacked(table, PatternStrings(sites[0].matchRegex), first);
      SitesJoin(sites[1..], first);
      JoinsTwice(table, PatternStrings(sites[0].matchRegex), first, SiteStrings(sites[1..]), NamedSites(sites, table).value.1);
    }
  }

  lemma {:induction false} FunctionJoins(f: Function, table: Table, depth: nat)
    requires Packed(table) && NamedFunction(f, table, depth).Ok?
    ensures Joins(table, FunctionStrings(f), NamedFunction(f, table, depth).value.1)
    ensures Outline(NamedFunction(f, table, depth).value.0, f)
    decreases f, 1
  {
    hide Joins, Interned, NamedOption, NamedList, NamedSites, NodeOutline, SitesOutline, OutlineList, OptionStrings, ListStrings, SiteStrings,
      Packed;
    InternedJoins(table, f.name);
    var named := Interned(table, f.name).value.1;
    JoinsPacked(table, {f.name}, named);
    OptionJoins(f.inline, named);
    var inlined := NamedOption(f.inline, named).value.1;
    JoinsPacked(named, OptionStrings(f.inline), inlined);
    ListJoins(f.merged, inlined, depth + 1);
    var merged := NamedList(f.merged, inlined, depth + 1).value.1;
    JoinsPacked(inlined, ListStrings(f.merged), merged);
    SitesJoin(f.callSites, merged);
    var after := NamedFunction(f, table, depth).value.1;
    JoinsTwice(table, {f.name}, named, OptionStrings(f.inline), inlined);
    JoinsTwice(table, {f.name} + OptionStrings(f.inline), inlined, ListStrings(f.merged), merged);
    JoinsTwice(table, {f.name} + OptionStrings(f.inline) + ListStrings(f.merged), merged, SiteStrings(f.callSites), after);
  }

  lemma {:induction false} ListJoins(functions: seq<Function>, table: Table, depth: nat)
    requires Packed(table) && NamedList(functions, table, depth).Ok?
    ensures Joins(table, ListStrings(functions), NamedList(functions, table, depth).value.1)
    ensures OutlineList(NamedList(functions, table, depth).value.0, functions)
    decreases functions, 0
  {
    hide Joins, NamedFunction, Outline, FunctionStrings, Packed;
    if functions == [] {
      JoinsNothing(table);
    } else {
      FunctionJoins(functions[0], table, depth);
      var first := NamedFunction(functions[0], table, depth).value.1;
      JoinsPacked(table, FunctionStrings(functions[0]), first);
      ListJoins(functions[1..], first, depth);
      JoinsTwice(table, FunctionStrings(functions[0]), first, ListStrings(functions[1..]), NamedList(functions, table, depth).value.1);
    }
  }

  lemma {:induction false} FilesJoin(files: seq<FileEntry>, table: Table)
    requires Packed(table) && NamedFiles(files, table).Ok?
    ensures Joins(table, FileStrings(files), NamedFiles(files, table).value.1)
    ensures |NamedFiles(files, table).value.0| == |files|
    decreases |files|
  {
    hide Joins, Interned, Packed;
    if files == [] {
      JoinsNothing(table);
    } else {
      var last := files[|files| - 1];
      var rest := files[..|files| - 1];
      FilesJoin(rest, table);
      var before := NamedFiles(rest, table).value.1;
      JoinsPacked(table, FileStrings(rest), before);
      InternedJoins(before, last.directory);
      var middle := Interned(before, last.directory).value.1;
      JoinsPacked(before, {last.directory}, middle);
      InternedJoins(middle, last.basename);
      JoinsTwice(before, {last.directory}, middle, {last.basename}, NamedFiles(files, table).value.1);
      JoinsTwice(table, FileStrings(rest), before, {last.directory} + {last.basename}, NamedFiles(files, table).value.1);
    }
  }

  // ---------------------------------------------- what leaves the strings of a model alone

  lemma {:induction false} InlineStringsStay(node: InlineNode, remap: seq<FileIndex>)
    ensures InlineStrings(RemapInline(node, remap)) == InlineStrings(node)
    decreases node, 1
  {
    hide RemapIndex;
    InlineListStringsStay(node.children, remap);
  }

  lemma {:induction false} InlineListStringsStay(nodes: seq<InlineNode>, remap: seq<FileIndex>)
    ensures InlineListStrings(RemapInlineList(nodes, remap)) == InlineListStrings(nodes)
    decreases nodes, 0
  {
    hide RemapInline, InlineStrings;
    if nodes != [] {
      InlineStringsStay(nodes[0], remap);
      InlineListStringsStay(nodes[1..], remap);
    }
  }

  /** Renumbering and compacting change no string. */
  lemma {:induction false} StringsStay(f: Function, remap: seq<FileIndex>)
    ensures FunctionStrings(Compact(Remap(f, remap))) == FunctionStrings(f)
    decreases f, 1
  {
    hide RemapInline, InlineStrings, CompactRows, RemapLines, SiteStrings;
    if f.inline.Some? {
      InlineStringsStay(f.inline.value, remap);
    }
    ListStringsStay(f.merged, remap);
  }

  lemma {:induction false} ListStringsStay(functions: seq<Function>, remap: seq<FileIndex>)
    ensures ListStrings(CompactList(RemapList(functions, remap))) == ListStrings(functions)
    decreases functions, 0
  {
    hide Compact, Remap, FunctionStrings;
    if functions != [] {
      StringsStay(functions[0], remap);
      ListStringsStay(functions[1..], remap);
    }
  }

  lemma {:induction false} ListStringsAre(functions: seq<Function>, s: seq<uint8>)
    ensures s in ListStrings(functions) <==> exists f :: f in functions && s in FunctionStrings(f)
    decreases |functions|
  {
    hide FunctionStrings;
    if functions != [] {
      ListStringsAre(functions[1..], s);
      assert functions[0] in functions;
      if s in ListStrings(functions[1..]) {
        var f :| f in functions[1..] && s in FunctionStrings(f);
        assert f in functions;
      }
      if f :| f in functions && s in FunctionStrings(f) {
        assert f == functions[0] || f in functions[1..];
      }
    }
  }

  /** More functions, more strings; their order does not matter. */
  lemma ListStringsGrow(functions: seq<Function>, more: seq<Function>)
    requires forall f :: f in functions ==> f in more
    ensures ListStrings(functions) <= ListStrings(more)
  {
    hide ListStrings, FunctionStrings;
    forall s | s in ListStrings(functions)
      ensures s in ListStrings(more)
    {
      ListStringsAre(functions, s);
      ListStringsAre(more, s);
    }
  }

  lemma {:induction false} FileStringsAre(files: seq<FileEntry>, s: seq<uint8>)
    ensures s in FileStrings(files) <==> exists file :: file in files && (s == file.directory || s == file.basename)
    decreases |files|
  {
    if files != [] {
      FileStringsAre(files[..|files| - 1], s);
      assert files == files[..|files| - 1] + [files[|files| - 1]];
    }
  }

  lemma FileStringsGrow(files: seq<FileEntry>, more: seq<FileEntry>)
    requires forall file :: file in files ==> file in more
    ensures FileStrings(files) <= FileStrings(more)
  {
    hide FileStrings;
    forall s | s in FileStrings(files)
      ensures s in FileStrings(more)
    {
      FileStringsAre(files, s);
      FileStringsAre(more, s);
    }
  }

  /** The size of a table of the strings of files and functions. */
  lemma TableSize(files: seq<FileEntry>, functions: seq<Function>)
    requires NamedFiles(files, EMPTY_TABLE).Ok?
    requires NamedList(functions, NamedFiles(files, EMPTY_TABLE).value.1, 0).Ok?
    ensures
      var names := NamedList(functions, NamedFiles(files, EMPTY_TABLE).value.1, 0).value;
      && |names.1.bytes| == StoredSize({[]} + FileStrings(files) + ListStrings(functions))
      && OutlineList(names.0, functions) && |NamedFiles(files, EMPTY_TABLE).value.0| == |files|
  {
    hide NamedFiles, NamedList, StoredSize, FileStrings, ListStrings, OutlineList;
    EmptyPacked();
    FilesJoin(files, EMPTY_TABLE);
    ListJoins(functions, NamedFiles(files, EMPTY_TABLE).value.1, 0);
  }
}
