/** The model builder of src/builder.rs: an interned file table and admitted
    functions. */
module Builder {
  import opened Words
  import opened Wrappers
  import opened Model
  import opened Validation

  /** No two entries of the table are equal. */
  predicate Distinct(files: seq<FileEntry>) {
    forall i, j :: 0 <= i < j < |files| ==> files[i] != files[j]
  }

  class GsymBuilder {
    var files: seq<FileEntry>
    var fileIndex: map<FileEntry, FileIndex>
    var functions: seq<Function>
    var maximumFileIndex: FileIndex

    /** The index is the inverse of the table, entry zero is the empty file, and
        the running maximum bounds every reference made so far. */
    ghost predicate Valid()
      reads this
    {
      && files != [] && files[0] == EMPTY_FILE && |files| <= U32_LIMIT
      && (forall file :: file in fileIndex ==> fileIndex[file] < |files| && files[fileIndex[file]] == file)
      && (forall i :: 0 <= i < |files| ==> files[i] in fileIndex && fileIndex[files[i]] == i)
      && (forall f :: f in functions ==> Admissible(f, None, 0) && FilesAtMost(f, maximumFileIndex))
    }

    constructor ()
      ensures Valid() && files == [EMPTY_FILE] && functions == []
    {
      files := [EMPTY_FILE];
      fileIndex := map[EMPTY_FILE := 0];
      functions := [];
      maximumFileIndex := 0;
    }

    /** The position of the file, which joins the end of the table if it is new. */
    method AddFile(file: FileEntry) returns (r: Result<FileIndex>)
      requires Valid()
      modifies this
      ensures Valid() && functions == old(functions)
      ensures r.Ok? <==> file in old(files) || |old(files)| < U32_LIMIT
      ensures files == if file in old(files) || r.Err? then old(files) else old(files) + [file]
      ensures r.Ok? ==> r.value < |files| && files[r.value] == file
    {
      if file in fileIndex {
        return Ok(fileIndex[file]);
      }
      assert file !in files;
      if |files| >= U32_LIMIT {
        return Err(Limit);
      }
      var index := |files|;
      files := files + [file];
      fileIndex := fileIndex[file := index];
      return Ok(index);
    }

    /** Only functions the tree rules accept get in. */
    method AddFunction(f: Function) returns (r: Result<Unit>)
      requires Valid()
      modifies this
      ensures Valid() && files == old(files)
      ensures r.Ok? <==> Admissible(f, None, 0)
      ensures functions == if r.Ok? then old(functions) + [f] else old(functions)
    {
      hide Admissible, FilesAtMost;
      var maximum :- ValidateTree(f, None, 0);
      var before := maximumFileIndex;
      maximumFileIndex := if maximum > before then maximum else before;
      functions := functions + [f];
      forall g | g in functions
        ensures Admissible(g, None, 0) && FilesAtMost(g, maximumFileIndex)
      {
        FilesAtMostGrows(g, if g in old(functions) then before else maximum, maximumFileIndex);
      }
      return Ok(Unit);
    }

    /** The shortcut over the running maximum decides exactly what visiting every
        reference would: whether some line or call site, at any inline or merged
        depth, refers past the file table. */
    method ValidateFileReferences() returns (r: Result<Unit>)
      requires Valid()
      ensures r.Ok? <==> forall f :: f in functions ==> FilesAtMost(f, |files| - 1)
    {
      hide Admissible, FilesAtMost;
      if maximumFileIndex >= |files| {
        for i := 0 to |functions|
          invariant forall k :: 0 <= k < i ==> FilesAtMost(functions[k], |files| - 1)
        {
          if !FilesAtMost(functions[i], |files| - 1) {
            assert functions[i] in functions;
            return Err(InvalidModel);
          }
        }
      } else {
        forall f | f in functions
          ensures FilesAtMost(f, |files| - 1)
        {
          FilesAtMostGrows(f, maximumFileIndex, |files| - 1);
        }
      }
      return Ok(Unit);
    }
  }

  /** The interned table never holds the same file twice. */
  lemma ValidIsDistinct(b: GsymBuilder)
    requires b.Valid()
    ensures Distinct(b.files)
  {
  }
}
