/** An image that stores a model verifies and decodes back to it. */
module ImageRoundTrip {
  import opened Words
  import opened Wrappers
  import opened Wire
  import opened Layout
  import opened Model
  import opened FunctionInfo
  import opened Image
  import opened Validation
  import opened Finalize
  import opened Strings
  import opened NulFree
  import opened ImageLayout
  import opened Sections
  import opened Storage

  /** The model an image was written from. */
  ghost predicate Represents(c: Content, files: seq<FileEntry>, functions: seq<Function>) {
    && c.strings != [] && c.strings[0] == 0
    && files != [] && files[0] == EMPTY_FILE
    && FileNames(c.strings, c.files, files)
    && ListNames(c.strings, c.functions, functions)
    && SortedStarts(functions)
    && forall f :: f in functions ==> Encodable(f, |files| - 1) && WithinMergedDepth(f, 0)
  }

  lemma StoredFile(image: Image, c: Content, files: seq<FileEntry>, i: nat)
    requires Stores(image, c) && FileNames(c.strings, c.files, files) && i < |files|
    ensures i < image.layout.fileCount && FileAt(image, i) == Ok(CutFile(files[i]))
  {
    hide FilePairAt, StringAt, FunctionStored, UintTable, Fits, SectionIs, Stored, CString;
    StoredPair(image, c, i);
    StoredString(image, c.strings, c.files[i].0, files[i].directory);
    StoredString(image, c.strings, c.files[i].1, files[i].basename);
  }

  lemma {:induction false} StoredFiles(image: Image, c: Content, files: seq<FileEntry>, i: nat)
    requires Stores(image, c) && FileNames(c.strings, c.files, files) && i <= |files| == image.layout.fileCount
    ensures FilesFrom(image, i) == Ok(CutFiles(files)[i..])
    decreases |files| - i
  {
    hide FileAt, FunctionStored, Tables, FileNames, CutFile;
    if i < |files| {
      StoredFile(image, c, files, i);
      StoredFiles(image, c, files, i + 1);
      assert CutFiles(files)[i..] == [CutFile(files[i])] + CutFiles(files)[i + 1..];
    } else {
      assert CutFiles(files)[i..] == [];
    }
  }

  lemma AllFilesReadable(image: Image, c: Content, files: seq<FileEntry>)
    requires Stores(image, c) && FileNames(c.strings, c.files, files)
    ensures FilesReadable(image, |files| - 1)
  {
    hide FileAt, FileNames, Stores;
    forall i: FileIndex | i <= |files| - 1
      ensures FileAt(image, i).Ok?
    {
      StoredFile(image, c, files, i);
    }
  }

  lemma {:induction false} ListNamesAt(bytes: seq<uint8>, es: seq<EncodedFunction>, functions: seq<Function>, i: nat)
    requires ListNames(bytes, es, functions)
    ensures |es| == |functions|
    ensures i < |es| ==> Names(bytes, es[i], functions[i])
    decreases |es|
  {
    hide Names;
    if es != [] {
      ListNamesAt(bytes, es[1..], functions[1..], if i > 0 then i - 1 else 0);
    }
  }

  /** Entry `i` verifies and converts. */
  lemma StoredEntry(image: Image, c: Content, files: seq<FileEntry>, functions: seq<Function>, i: nat)
    requires Stores(image, c) && Represents(c, files, functions) && i < |functions|
    ensures |c.functions| == |functions| && c.functions[i].range == functions[i].range
    ensures VerifiedAt(image, i, functions[i].range.start) == Ok(c.functions[i])
    ensures Resolve(image, c.functions[i]) == Ok(Cut(functions[i]))
  {
    hide RawFunctionAt, DecodeRaw, StringAt, Check, Resolve, Names, ListNames, FileNames, Sound, FilesAtMost, WithinMergedDepth,
      FunctionStored, FilesReadable, SectionIs, UintTable, Fits, Cut;
    ListNamesAt(c.strings, c.functions, functions, i);
    assert functions[i] in functions && Encodable(functions[i], |files| - 1);
    NamesBasics(c.strings, c.functions[i], functions[i]);
    StoredFunction(image, c, i);
    StoredString(image, c.strings, c.functions[i].name, functions[i].name);
    AllFilesReadable(image, c, files);
    FunctionReads(image, c.strings, c.functions[i], functions[i], None, 0, |files| - 1);
  }

  lemma NamesBasics(bytes: seq<uint8>, e: EncodedFunction, f: Function)
    requires Names(bytes, e, f)
    ensures e.range == f.range && Stored(bytes, e.name, f.name)
  {
    hide Stored, InlineNames, SiteNames, ListNames;
  }

  lemma {:induction false} StoredTable(
    image: Image, c: Content, files: seq<FileEntry>, functions: seq<Function>, i: nat, previous: Option<uint64>)
    requires Stores(image, c) && Represents(c, files, functions) && i <= |functions| == |c.functions| == image.layout.count
    requires previous.Some? && i < |functions| ==> previous.value <= functions[i].range.start
    ensures VerifyFrom(image, i, previous) == Ok(c.functions[i..])
    decreases |functions| - i
  {
    hide AddressAt, VerifiedAt, Resolve, Stores, Encodable, WithinMergedDepth, ListNames, FileNames, Cut;
    if i < |functions| {
      StoredEntry(image, c, files, functions, i);
      StoredAddress(image, c, i);
      StoredTable(image, c, files, functions, i + 1, Some(functions[i].range.start));
      assert c.functions[i..] == [c.functions[i]] + c.functions[i + 1..];
    } else {
      assert c.functions[i..] == [];
    }
  }

  lemma {:induction false} StoredModel(image: Image, c: Content, files: seq<FileEntry>, functions: seq<Function>, i: nat)
    requires Stores(image, c) && Represents(c, files, functions) && i <= |functions| == |c.functions|
    ensures ResolveList(image, c.functions[i..]) == Ok(CutList(functions[i..]))
    decreases |functions| - i
  {
    hide Resolve, VerifiedAt, Stores, Represents, Cut;
    if i < |functions| {
      StoredEntry(image, c, files, functions, i);
      StoredModel(image, c, files, functions, i + 1);
      assert c.functions[i..][1..] == c.functions[i + 1..];
      assert functions[i..][1..] == functions[i + 1..];
    }
  }

  lemma StoredReserved(image: Image, c: Content, files: seq<FileEntry>, functions: seq<Function>)
    requires Stores(image, c) && Represents(c, files, functions)
    ensures CheckReserved(image).Ok?
  {
    hide FileAt, FunctionStored, UintTable, Fits, ListNames, FileNames, Encodable, WithinMergedDepth, SortedStarts;
    StoredFile(image, c, files, 0);
    var strings := image.layout.strings;
    assert image.data[strings.start..strings.end][0] == c.strings[0];
  }

  lemma RepresentsCounts(image: Image, c: Content, files: seq<FileEntry>, functions: seq<Function>)
    requires Stores(image, c) && Represents(c, files, functions)
    ensures |functions| == |c.functions| == image.layout.count
    ensures |files| == image.layout.fileCount > 0
    ensures FileNames(c.strings, c.files, files)
    ensures Fields(image.layout, c)
  {
    hide ListNames, Encodable, WithinMergedDepth, SortedStarts, Tables, FunctionStored;
    ListNamesAt(c.strings, c.functions, functions, 0);
  }

  /** Verification accepts the image, and decoding everything returns the header
      fields, the file table and the functions it was written from, with every
      string cut at its first NUL. */
  lemma StoredDecodes(image: Image, c: Content, files: seq<FileEntry>, functions: seq<Function>)
    requires Stores(image, c) && Represents(c, files, functions)
    ensures Verify(image) == Ok(c.functions)
    ensures DecodeAll(image)
         == Ok(DecodedGsym(c.version, c.order, c.base, BuildId(image), CutFiles(files), CutList(functions)))
  {
    hide CheckReserved, VerifyFrom, ResolveList, FilesFrom, Stores, Represents, CutFiles, CutList, FileNames, BuildId;
    RepresentsCounts(image, c, files, functions);
    StoredReserved(image, c, files, functions);
    StoredTable(image, c, files, functions, 0, None);
    StoredModel(image, c, files, functions, 0);
    StoredFiles(image, c, files, 0);
    assert c.functions[0..] == c.functions && functions[0..] == functions;
    assert CutFiles(files)[0..] == CutFiles(files);
  }
}
