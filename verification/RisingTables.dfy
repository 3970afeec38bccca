/** File tables of two sets of functions, one within the other: the larger set keeps the
    order of the smaller one's files and only raises their indices. */
module RisingTables {
  import opened Words
  import opened Wrappers
  import opened Model
  import opened Builder
  import opened Validation
  import opened Finalize
  import opened Renumber
  import opened RecordSizes

  // ---------------------------------------------------------------------- compaction

  function MovedRow(row: LineEntry, up: seq<FileIndex>): LineEntry {
    row.(file := RemapIndex(row.file, up))
  }

  lemma {:induction false} CompactAfterMoved(last: LineEntry, rows: seq<LineEntry>, up: seq<FileIndex>, limit: int)
    requires Rising(up, limit) && last.file <= limit && forall row :: row in rows ==> row.file <= limit
    ensures CompactAfter(MovedRow(last, up), RemapLines(rows, up)) == RemapLines(CompactAfter(last, rows), up)
    decreases |rows|
  {
    hide Rising, RemapIndex;
    if rows != [] {
      assert rows[0] in rows;
      RisesApart(up, limit, last.file);
      MovedCons(rows, up);
      CompactAfterMoved(last, rows[1..], up, limit);
      CompactAfterMoved(rows[0], rows[1..], up, limit);
      MovedHead(rows[0], CompactAfter(rows[0], rows[1..]), up);
    }
  }

  lemma MovedCons(rows: seq<LineEntry>, up: seq<FileIndex>)
    requires rows != []
    ensures RemapLines(rows, up) != [] && RemapLines(rows, up)[0] == MovedRow(rows[0], up)
    ensures RemapLines(rows, up)[1..] == RemapLines(rows[1..], up)
  {
    hide RemapIndex;
  }

  lemma MovedHead(row: LineEntry, rows: seq<LineEntry>, up: seq<FileIndex>)
    ensures RemapLines([row] + rows, up) == [MovedRow(row, up)] + RemapLines(rows, up)
  {
    hide RemapIndex;
  }

  lemma CompactRowsMoved(rows: seq<LineEntry>, up: seq<FileIndex>, limit: int)
    requires Rising(up, limit) && forall row :: row in rows ==> row.file <= limit
    ensures CompactRows(RemapLines(rows, up)) == RemapLines(CompactRows(rows), up)
    ensures forall row :: row in CompactRows(rows) ==> row.file <= limit
  {
    hide Rising, MovedRow, CompactAfter, RemapLines;
    CompactRowsMember(rows);
    if rows == [] {
      NothingMoved(up);
    } else {
      MovedCons(rows, up);
      CompactAfterMoved(rows[0], rows[1..], up, limit);
      MovedHead(rows[0], CompactAfter(rows[0], rows[1..]), up);
    }
  }

  lemma NothingMoved(up: seq<FileIndex>)
    ensures RemapLines([], up) == []
  {
  }

  /** Compacting and renumbering upwards commute. */
  lemma {:induction false} CompactMoved(f: Function, up: seq<FileIndex>, limit: int)
    requires Rising(up, limit) && FilesAtMost(f, limit)
    ensures Compact(Remap(f, up)) == Remap(Compact(f), up) && FilesAtMost(Compact(f), limit)
    decreases f, 1
  {
    hide Rising, CompactRows, RemapLines, RemapInline, InlineFilesAtMost;
    CompactRowsMoved(f.lines, up, limit);
    CompactListMoved(f.merged, up, limit);
  }

  lemma {:induction false} CompactListMoved(functions: seq<Function>, up: seq<FileIndex>, limit: int)
    requires Rising(up, limit) && forall f :: f in functions ==> FilesAtMost(f, limit)
    ensures CompactList(RemapList(functions, up)) == RemapList(CompactList(functions), up)
    ensures forall f :: f in CompactList(functions) ==> FilesAtMost(f, limit)
    decreases functions, 0
  {
    hide Rising, Compact, Remap, FilesAtMost;
    if functions != [] {
      assert functions[0] in functions;
      CompactMoved(functions[0], up, limit);
      CompactListMoved(functions[1..], up, limit);
    }
  }

  // ---------------------------------------------------------------- renumbering twice

  /** What the first two renumberings make of an index that matters, the third does. */
  predicate Composes(index: FileIndex, first: seq<FileIndex>, up: seq<FileIndex>, both: seq<FileIndex>, limit: int) {
    RemapIndex(index, first) <= limit && RemapIndex(RemapIndex(index, first), up) == RemapIndex(index, both)
  }

  lemma {:induction false} InlineTwice(node: InlineNode, first: seq<FileIndex>, up: seq<FileIndex>, both: seq<FileIndex>, limit: int)
    requires forall i: FileIndex :: InlineRefersTo(node, i) ==> Composes(i, first, up, both, limit)
    ensures RemapInline(RemapInline(node, first), up) == RemapInline(node, both)
    ensures InlineFilesAtMost(RemapInline(node, first), limit)
    decreases node, 1
  {
    hide RemapIndex;
    assert InlineRefersTo(node, node.callFile) && Composes(node.callFile, first, up, both, limit);
    InlineListTwice(node.children, first, up, both, limit);
  }

  lemma {:induction false} InlineListTwice(
    nodes: seq<InlineNode>, first: seq<FileIndex>, up: seq<FileIndex>, both: seq<FileIndex>, limit: int)
    requires forall node, i: FileIndex :: node in nodes && InlineRefersTo(node, i) ==> Composes(i, first, up, both, limit)
    ensures RemapInlineList(RemapInlineList(nodes, first), up) == RemapInlineList(nodes, both)
    ensures forall node :: node in RemapInlineList(nodes, first) ==> InlineFilesAtMost(node, limit)
    decreases nodes, 0
  {
    hide RemapInline, InlineRefersTo, Composes, InlineFilesAtMost;
    if nodes != [] {
      assert nodes[0] in nodes;
      InlineTwice(nodes[0], first, up, both, limit);
      InlineListTwice(nodes[1..], first, up, both, limit);
    }
  }

  lemma LinesTwice(lines: seq<LineEntry>, first: seq<FileIndex>, up: seq<FileIndex>, both: seq<FileIndex>, limit: int)
    requires forall line :: line in lines ==> Composes(line.file, first, up, both, limit)
    ensures RemapLines(RemapLines(lines, first), up) == RemapLines(lines, both)
    ensures forall line :: line in RemapLines(lines, first) ==> line.file <= limit
  {
    hide RemapIndex;
    forall i | 0 <= i < |lines|
      ensures Composes(lines[i].file, first, up, both, limit)
    {
      assert lines[i] in lines;
    }
  }

  lemma {:induction false} FunctionTwice(f: Function, first: seq<FileIndex>, up: seq<FileIndex>, both: seq<FileIndex>, limit: int)
    requires forall i: FileIndex :: RefersTo(f, i) ==> Composes(i, first, up, both, limit)
    ensures Remap(Remap(f, first), up) == Remap(f, both)
    ensures FilesAtMost(Remap(f, first), limit)
    decreases f, 1
  {
    hide Composes, RemapInline, InlineFilesAtMost, RemapLines, InlineRefersTo;
    LinesTwice(f.lines, first, up, both, limit);
    if f.inline.Some? {
      InlineTwice(f.inline.value, first, up, both, limit);
    }
    FunctionsTwice(f.merged, first, up, both, limit);
  }

  lemma {:induction false} FunctionsTwice(
    functions: seq<Function>, first: seq<FileIndex>, up: seq<FileIndex>, both: seq<FileIndex>, limit: int)
    requires forall f, i: FileIndex :: f in functions && RefersTo(f, i) ==> Composes(i, first, up, both, limit)
    ensures RemapList(RemapList(functions, first), up) == RemapList(functions, both)
    ensures forall f :: f in RemapList(functions, first) ==> FilesAtMost(f, limit)
    decreases functions, 0
  {
    hide Remap, RefersTo, Composes, FilesAtMost;
    if functions != [] {
      assert functions[0] in functions;
      FunctionTwice(functions[0], first, up, both, limit);
      FunctionsTwice(functions[1..], first, up, both, limit);
    }
  }

  // -------------------------------------------------------------------------- tables

  /** Without repeats each used file joins the table in its turn, and none twice. */
  lemma {:induction false} TableOfDistinct(files: seq<FileEntry>, used: seq<bool>, n: nat)
    requires Distinct(files) && 1 <= n <= |files| == |used| && files[0] == EMPTY_FILE
    ensures forall i :: 0 <= i < |files| && files[i] in TableFrom(files, used, n) ==> i < n && (i == 0 || used[i])
    ensures Distinct(TableFrom(files, used, n))
    decreases n
  {
    if n > 1 {
      TableOfDistinct(files, used, n - 1);
    }
  }

  /** What is in the smaller table is in the larger one, in the same order. */
  ghost predicate Embeds(small: seq<FileEntry>, large: seq<FileEntry>) {
    && (forall p :: 0 <= p < |small| ==> small[p] in large)
    && (forall p, q :: 0 <= p < q < |small| ==> IndexIn(large, small[p]) < IndexIn(large, small[q]))
  }

  lemma EmbedsSnoc(small: seq<FileEntry>, large: seq<FileEntry>, file: FileEntry, both: bool)
    requires Embeds(small, large) && file !in large
    ensures Embeds(if both then small + [file] else small, large + [file])
  {
    hide IndexIn;
    forall p | 0 <= p < |small|
      ensures IndexIn(large + [file], small[p]) == IndexIn(large, small[p]) < |large|
    {
      IndexStays(large, [file], small[p]);
    }
    LastIndex(large, file);
  }

  lemma {:induction false} LastIndex(table: seq<FileEntry>, file: FileEntry)
    requires file !in table
    ensures IndexIn(table + [file], file) == |table|
  {
    assert (table + [file])[|table|] == file;
    assert forall i :: 0 <= i < |table| ==> (table + [file])[i] == table[i];
  }

  lemma {:induction false} TablesEmbed(files: seq<FileEntry>, used: seq<bool>, more: seq<bool>, n: nat)
    requires Distinct(files) && 1 <= n <= |files| == |used| == |more| && files[0] == EMPTY_FILE
    requires forall i :: 0 <= i < |files| && used[i] ==> more[i]
    ensures Embeds(TableFrom(files, used, n), TableFrom(files, more, n))
    decreases n
  {
    hide IndexIn, TableFrom, Distinct;
    if n > 1 {
      TablesEmbed(files, used, more, n - 1);
      TableNext(files, used, n - 1);
      TableNext(files, more, n - 1);
      var small, large := TableFrom(files, used, n - 1), TableFrom(files, more, n - 1);
      TableOfDistinct(files, used, n - 1);
      TableOfDistinct(files, more, n - 1);
      if more[n - 1] {
        EmbedsSnoc(small, large, files[n - 1], used[n - 1]);
      }
    } else {
      TableStarts(files, used);
      TableStarts(files, more);
      FirstIndex();
    }
  }

  lemma FirstIndex()
    ensures Embeds([EMPTY_FILE], [EMPTY_FILE])
  {
  }

  /** Where the files of the smaller table are in the larger one. */
  function Raised(small: seq<FileEntry>, large: seq<FileEntry>): seq<FileIndex> {
    seq(|small|, p requires 0 <= p < |small| =>
      var index := IndexIn(large, small[p]);
      if index < U32_LIMIT then index else 0)
  }

  lemma RaisedRises(small: seq<FileEntry>, large: seq<FileEntry>)
    requires Embeds(small, large) && |large| <= U32_LIMIT
    requires small != [] && large != [] && small[0] == EMPTY_FILE == large[0]
    ensures Rising(Raised(small, large), |small| - 1)
  {
    hide IndexIn;
    assert IndexIn(large, small[0]) == 0;
  }

  lemma EmbedsFewer(small: seq<FileEntry>, large: seq<FileEntry>)
    requires Embeds(small, large)
    ensures |small| <= |large|
  {
    hide IndexIn;
    if small != [] {
      IndexAtLeast(small, large, |small| - 1);
    }
  }

  lemma {:induction false} IndexAtLeast(small: seq<FileEntry>, large: seq<FileEntry>, p: nat)
    requires Embeds(small, large) && p < |small|
    ensures p <= IndexIn(large, small[p]) < |large|
    decreases p
  {
    hide IndexIn;
    if p > 0 {
      IndexAtLeast(small, large, p - 1);
    }
  }

  /** Renumbering for the smaller set and then upwards is renumbering for the larger. */
  lemma RaisedComposes(files: seq<FileEntry>, used: seq<bool>, more: seq<bool>, i: FileIndex)
    requires Distinct(files) && 1 <= |files| == |used| == |more| && files[0] == EMPTY_FILE
    requires forall k :: 0 <= k < |files| && used[k] ==> more[k]
    requires i < |files| && used[i]
    requires |TableFrom(files, more, |files|)| <= U32_LIMIT
    ensures
      var small, large := TableFrom(files, used, |files|), TableFrom(files, more, |files|);
      Composes(i, RemapTo(files, used, small), Raised(small, large), RemapTo(files, more, large), |small| - 1)
  {
    hide IndexIn, TableFrom, Distinct;
    var small, large := TableFrom(files, used, |files|), TableFrom(files, more, |files|);
    TablesEmbed(files, used, more, |files|);
    EmbedsFewer(small, large);
    TableHolds(files, used, |files|);
    TableHolds(files, more, |files|);
    FirstOf(small);
    FirstOf(large);
    assert IndexIn(small, files[i]) < |small| && small[IndexIn(small, files[i])] == files[i];
    assert IndexIn(large, files[i]) < |large|;
  }

  lemma FirstOf(table: seq<FileEntry>)
    requires table != [] && table[0] == EMPTY_FILE
    ensures IndexIn(table, EMPTY_FILE) == 0
  {
  }

  const FIRST_FILE := FileEntry([1], [1])
  const OTHER_FILE := FileEntry([2], [2])
  const REPEATED := [EMPTY_FILE, FIRST_FILE, OTHER_FILE, FIRST_FILE]
  const WITHOUT_FIRST := [true, false, true, true]
  const WITH_FIRST := [true, true, true, true]

  lemma RepeatedTables()
    ensures TableFrom(REPEATED, WITHOUT_FIRST, 4) == [EMPTY_FILE, OTHER_FILE, FIRST_FILE]
    ensures TableFrom(REPEATED, WITH_FIRST, 4) == [EMPTY_FILE, FIRST_FILE, OTHER_FILE]
  {
    hide TableFrom;
    TableStarts(REPEATED, WITHOUT_FIRST);
    TableNext(REPEATED, WITHOUT_FIRST, 1);
    TableNext(REPEATED, WITHOUT_FIRST, 2);
    TableNext(REPEATED, WITHOUT_FIRST, 3);
    TableStarts(REPEATED, WITH_FIRST);
    TableNext(REPEATED, WITH_FIRST, 1);
    TableNext(REPEATED, WITH_FIRST, 2);
    TableNext(REPEATED, WITH_FIRST, 3);
  }

  /** With a repeated entry an index can fall: while its first occurrence is not used it
      comes after the entry in between. */
  lemma RepeatedFileFalls()
    ensures RemapTo(REPEATED, WITHOUT_FIRST, TableFrom(REPEATED, WITHOUT_FIRST, 4))[3] == 2
    ensures RemapTo(REPEATED, WITH_FIRST, TableFrom(REPEATED, WITH_FIRST, 4))[3] == 1
  {
    hide TableFrom, IndexIn;
    RepeatedTables();
    assert [EMPTY_FILE, OTHER_FILE, FIRST_FILE][2] == FIRST_FILE && [EMPTY_FILE, FIRST_FILE, OTHER_FILE][1] == FIRST_FILE;
    IndexIsUnique([EMPTY_FILE, OTHER_FILE, FIRST_FILE], 2);
    IndexIsUnique([EMPTY_FILE, FIRST_FILE, OTHER_FILE], 1);
  }
}
