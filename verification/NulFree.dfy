/** What a NUL-terminated string table keeps of a string, and of the models that
    hold strings. */
module NulFree {
  import opened Words
  import opened Wrappers
  import opened Model
  import opened Image

  /** What reading a stored string returns: the part before its first NUL. */
  function CString(s: seq<uint8>): seq<uint8> {
    s[..NulIndex(s)]
  }

  predicate IsNulFree(s: seq<uint8>) {
    0 !in s
  }

  /** Nothing is lost exactly when the string has no NUL. */
  lemma CStringIdentity(s: seq<uint8>)
    ensures CString(s) == s <==> IsNulFree(s)
  {
  }

  function CutStrings(strings: seq<seq<uint8>>): seq<seq<uint8>> {
    if strings == [] then [] else [CString(strings[0])] + CutStrings(strings[1..])
  }

  function CutSites(sites: seq<CallSite>): seq<CallSite> {
    if sites == [] then [] else [sites[0].(matchRegex := CutStrings(sites[0].matchRegex))] + CutSites(sites[1..])
  }

  function CutInline(node: InlineNode): InlineNode
    decreases node, 1
  {
    node.(name := CString(node.name), children := CutInlineList(node.children))
  }

  function CutInlineList(nodes: seq<InlineNode>): seq<InlineNode>
    decreases nodes, 0
  {
    if nodes == [] then [] else [CutInline(nodes[0])] + CutInlineList(nodes[1..])
  }

  function CutInlineOption(inline: Option<InlineNode>): Option<InlineNode> {
    match inline case None => None case Some(node) => Some(CutInline(node))
  }

  function Cut(f: Function): Function
    decreases f, 1
  {
    f.(name := CString(f.name), inline := CutInlineOption(f.inline), merged := CutList(f.merged), callSites := CutSites(f.callSites))
  }

  function CutList(functions: seq<Function>): seq<Function>
    decreases functions, 0
  {
    if functions == [] then [] else [Cut(functions[0])] + CutList(functions[1..])
  }

  function CutFile(file: FileEntry): FileEntry {
    FileEntry(CString(file.directory), CString(file.basename))
  }

  function CutFiles(files: seq<FileEntry>): seq<FileEntry> {
    seq(|files|, i requires 0 <= i < |files| => CutFile(files[i]))
  }

  // ------------------------------------------------------- models without any NUL

  predicate StringsNulFree(strings: seq<seq<uint8>>) {
    strings == [] || (IsNulFree(strings[0]) && StringsNulFree(strings[1..]))
  }

  predicate SitesNulFree(sites: seq<CallSite>) {
    sites == [] || (StringsNulFree(sites[0].matchRegex) && SitesNulFree(sites[1..]))
  }

  predicate InlineNulFree(node: InlineNode)
    decreases node, 1
  {
    IsNulFree(node.name) && InlineListNulFree(node.children)
  }

  predicate InlineListNulFree(nodes: seq<InlineNode>)
    decreases nodes, 0
  {
    nodes == [] || (InlineNulFree(nodes[0]) && InlineListNulFree(nodes[1..]))
  }

  predicate FunctionNulFree(f: Function)
    decreases f, 1
  {
    && IsNulFree(f.name)
    && (f.inline.Some? ==> InlineNulFree(f.inline.value))
    && ListNulFree(f.merged)
    && SitesNulFree(f.callSites)
  }

  predicate ListNulFree(functions: seq<Function>)
    decreases functions, 0
  {
    functions == [] || (FunctionNulFree(functions[0]) && ListNulFree(functions[1..]))
  }

  lemma {:induction false} CutStringsIdentity(strings: seq<seq<uint8>>)
    ensures CutStrings(strings) == strings <==> StringsNulFree(strings)
  {
    if strings != [] {
      CStringIdentity(strings[0]);
      CutStringsIdentity(strings[1..]);
      ConsEqual(CString(strings[0]), CutStrings(strings[1..]), strings);
    }
  }

  lemma ConsEqual<T>(head: T, tail: seq<T>, s: seq<T>)
    requires s != []
    ensures [head] + tail == s <==> head == s[0] && tail == s[1..]
  {
    if [head] + tail == s {
      assert ([head] + tail)[1..] == tail;
    }
    if head == s[0] && tail == s[1..] {
      assert [s[0]] + s[1..] == s;
    }
  }

  lemma {:induction false} CutSitesIdentity(sites: seq<CallSite>)
    ensures CutSites(sites) == sites <==> SitesNulFree(sites)
  {
    if sites != [] {
      CutStringsIdentity(sites[0].matchRegex);
      CutSitesIdentity(sites[1..]);
      ConsEqual(sites[0].(matchRegex := CutStrings(sites[0].matchRegex)), CutSites(sites[1..]), sites);
    }
  }

  lemma {:induction false} CutInlineIdentity(node: InlineNode)
    ensures CutInline(node) == node <==> InlineNulFree(node)
    decreases node, 1
  {
    hide CString, IsNulFree;
    CStringIdentity(node.name);
    CutInlineListIdentity(node.children);
  }

  lemma {:induction false} CutInlineListIdentity(nodes: seq<InlineNode>)
    ensures CutInlineList(nodes) == nodes <==> InlineListNulFree(nodes)
    decreases nodes, 0
  {
    hide CutInline, InlineNulFree;
    if nodes != [] {
      CutInlineIdentity(nodes[0]);
      CutInlineListIdentity(nodes[1..]);
      ConsEqual(CutInline(nodes[0]), CutInlineList(nodes[1..]), nodes);
    }
  }

  /** A function survives the string table unchanged exactly when none of its
      strings, at any inline or merged depth, holds a NUL. */
  lemma {:induction false} CutIdentity(f: Function)
    ensures Cut(f) == f <==> FunctionNulFree(f)
    decreases f, 1
  {
    hide CString, IsNulFree, CutInline, InlineNulFree;
    CStringIdentity(f.name);
    if f.inline.Some? {
      CutInlineIdentity(f.inline.value);
    }
    CutListIdentity(f.merged);
    CutSitesIdentity(f.callSites);
  }

  lemma {:induction false} CutListIdentity(functions: seq<Function>)
    ensures CutList(functions) == functions <==> ListNulFree(functions)
    decreases functions, 0
  {
    hide Cut, FunctionNulFree;
    if functions != [] {
      CutIdentity(functions[0]);
      CutListIdentity(functions[1..]);
      ConsEqual(Cut(functions[0]), CutList(functions[1..]), functions);
    }
  }

  lemma CutFilesIdentity(files: seq<FileEntry>)
    ensures CutFiles(files) == files
       <==> forall i :: 0 <= i < |files| ==> IsNulFree(files[i].directory) && IsNulFree(files[i].basename)
  {
    hide CString, IsNulFree;
    forall i | 0 <= i < |files|
      ensures CutFile(files[i]) == files[i] <==> IsNulFree(files[i].directory) && IsNulFree(files[i].basename)
    {
      CStringIdentity(files[i].directory);
      CStringIdentity(files[i].basename);
    }
    if CutFiles(files) == files {
      forall i | 0 <= i < |files|
        ensures CutFile(files[i]) == files[i]
      {
        assert CutFiles(files)[i] == files[i];
      }
    }
  }
}
