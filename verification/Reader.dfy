/** The verification and decoding loops of src/reader.rs and src/transform.rs,
    with the bitmap of file entries already read. */
module Reader {
  import opened Words
  import opened Wrappers
  import opened Wire
  import opened Layout
  import opened Model
  import opened InlineInfo
  import opened FunctionInfo
  import opened Image
  import opened Verified

  /** The check without its value. */
  function Checked<T>(r: Result<T>): Result<Unit> {
    match r
    case Ok(_) => Ok(Unit)
    case Err(error) => Err(error)
  }

  /** A marked file entry has been read successfully. */
  ghost predicate Marked(image: Image, verified: array<bool>)
    reads verified
  {
    && verified.Length == image.layout.fileCount
    && forall i: nat :: i < verified.Length && verified[i] ==> FileAt(image, i).Ok?
  }

  method VerifyFile(image: Image, index: FileIndex, verified: array<bool>) returns (r: Result<Unit>)
    requires Marked(image, verified)
    modifies verified
    ensures Marked(image, verified)
    ensures r == Checked(FileAt(image, index))
  {
    hide FilePairAt, StringAt;
    if index < verified.Length && verified[index] {
      return Ok(Unit);
    }
    var _ :- FileAt(image, index);
    if index < verified.Length {
      verified[index] := true;
    }
    return Ok(Unit);
  }

  method VerifyLineFiles(image: Image, lines: seq<LineEntry>, verified: array<bool>) returns (r: Result<Unit>)
    requires Marked(image, verified)
    modifies verified
    ensures Marked(image, verified)
    ensures r == CheckLineFiles(image, lines)
  {
    hide FileAt, Marked;
    assert lines[0..] == lines;
    for i := 0 to |lines|
      invariant Marked(image, verified)
      invariant CheckLineFiles(image, lines[i..]) == CheckLineFiles(image, lines)
    {
      assert lines[i..][1..] == lines[i + 1..];
      var _ :- VerifyFile(image, lines[i].file, verified);
    }
    return Ok(Unit);
  }

  method ValidateInline(image: Image, node: EncodedInlineNode, verified: array<bool>) returns (r: Result<Unit>)
    requires Marked(image, verified)
    modifies verified
    ensures Marked(image, verified)
    ensures r == CheckInline(image, node)
    decreases node
  {
    hide StringAt, FileAt, Marked;
    if node.name != 0 {
      var _ :- StringAt(image, node.name);
    }
    var _ :- VerifyFile(image, node.callFile, verified);
    var children := node.children;
    assert children[0..] == children;
    for i := 0 to |children|
      invariant Marked(image, verified)
      invariant CheckInlineList(image, children[i..]) == CheckInlineList(image, children)
    {
      assert children[i..][1..] == children[i + 1..];
      var _ :- ValidateInline(image, children[i], verified);
    }
    return Ok(Unit);
  }

  method ValidateAt(image: Image, f: EncodedFunction, parent: Option<AddressRange>, depth: nat, verified: array<bool>)
    returns (r: Result<Unit>)
    requires Marked(image, verified)
    modifies verified
    ensures Marked(image, verified)
    ensures r == Check(image, f, parent, depth)
    decreases f
  {
    hide StringAt, CheckLineFiles, CheckInline, SitesAt, ValidFunction, Marked;
    if depth > MAX_MERGED_DEPTH {
      return Err(Limit);
    }
    if !ValidFunction(f, parent) {
      return Err(InvalidFormat);
    }
    var _ :- StringAt(image, f.name);
    var _ :- VerifyLineFiles(image, LinesOf(f), verified);
    if f.inline.Some? {
      var _ :- ValidateInline(image, f.inline.value, verified);
    }
    var _ :- SitesAt(image, f.callSites);
    var merged := f.merged;
    assert merged[0..] == merged;
    for i := 0 to |merged|
      invariant Marked(image, verified)
      invariant CheckList(image, merged[i..], f.range, depth + 1) == CheckList(image, merged, f.range, depth + 1)
    {
      assert merged[i..][1..] == merged[i + 1..];
      var _ :- ValidateAt(image, merged[i], Some(f.range), depth + 1, verified);
    }
    return Ok(Unit);
  }

  /** One entry of the table: the record, decoded and checked. */
  method VerifyEntry(image: Image, index: nat, address: uint64, verified: array<bool>) returns (r: Result<EncodedFunction>)
    requires Marked(image, verified)
    modifies verified
    ensures Marked(image, verified)
    ensures r == VerifiedAt(image, index, address)
  {
    hide FunctionAt, DecodeRaw, Check, Marked;
    var raw :- FunctionAt(image, index, address);
    var f :- DecodeRaw(image, raw);
    var _ :- ValidateAt(image, f, None, 0, verified);
    return Ok(f);
  }

  lemma {:induction false} ResolveListAppends(
    image: Image, encoded: seq<EncodedFunction>, f: EncodedFunction, functions: seq<Function>, resolved: Function)
    requires ResolveList(image, encoded) == Ok(functions) && Resolve(image, f) == Ok(resolved)
    ensures ResolveList(image, encoded + [f]) == Ok(functions + [resolved])
    decreases |encoded|
  {
    hide Resolve;
    if encoded == [] {
      assert encoded + [f] == [f] && [f][1..] == [];
      assert functions + [resolved] == [resolved] + [];
    } else {
      ResolveListAppends(image, encoded[1..], f, functions[1..], resolved);
      assert (encoded + [f])[1..] == encoded[1..] + [f];
      assert functions + [resolved] == [functions[0]] + (functions[1..] + [resolved]);
    }
  }

  lemma VerifyFromStep(image: Image, index: nat, previous: Option<uint64>, address: uint64)
    requires index < image.layout.count && AddressAt(image, index) == Ok(address)
    requires previous.Some? ==> previous.value <= address
    ensures match VerifiedAt(image, index, address)
      case Err(error) => VerifyFrom(image, index, previous) == Err(error)
      case Ok(f) =>
        && VerifyFrom(image, index, previous) == Collected([f], VerifyFrom(image, index + 1, Some(address)))
        && Resolve(image, f).Ok?
  {
    if VerifiedAt(image, index, address).Ok? {
      VerifiedResolves(image, index, address);
    }
    hide AddressAt, VerifiedAt, Resolve;
  }

  lemma VerifiedResolves(image: Image, index: nat, address: uint64)
    requires VerifiedAt(image, index, address).Ok?
    ensures Resolve(image, VerifiedAt(image, index, address).value).Ok?
  {
    hide FunctionAt, DecodeRaw, Check, Resolve;
    CheckedResolves(image, VerifiedAt(image, index, address).value, None, 0);
  }

  /** The table loop of `verify_with` under `decode_all_verified`: validate an
      entry, then hand it to the visitor, which converts it. */
  method VerifyTable(image: Image, verified: array<bool>) returns (r: Result<seq<Function>>, ghost encoded: seq<EncodedFunction>)
    requires Marked(image, verified)
    modifies verified
    ensures Marked(image, verified)
    ensures match VerifyFrom(image, 0, None)
      case Err(error) => r == Err(error)
      case Ok(all) => encoded == all && r.Ok? && ResolveList(image, encoded) == r
  {
    hide AddressAt, VerifiedAt, VerifyFrom, Resolve, Marked;
    var functions: seq<Function>, previous: Option<uint64> := [], None;
    encoded := [];
    CollectedNothing(VerifyFrom(image, 0, None));
    for index := 0 to image.layout.count
      invariant Marked(image, verified)
      invariant Collected(encoded, VerifyFrom(image, index, previous)) == VerifyFrom(image, 0, None)
      invariant ResolveList(image, encoded) == Ok(functions)
    {
      var fetched := AddressAt(image, index);
      VerifyFromStops(image, index, previous);
      if fetched.Err? {
        r := Err(fetched.error);
        return;
      }
      var address := fetched.value;
      if previous.Some? && address < previous.value {
        r := Err(InvalidFormat);
        return;
      }
      VerifyFromStep(image, index, previous, address);
      var entry := VerifyEntry(image, index, address, verified);
      if entry.Err? {
        r := Err(entry.error);
        return;
      }
      var f := entry.value;
      var resolved := Resolve(image, f).value;
      CollectedNext(encoded, [f], VerifyFrom(image, index + 1, Some(address)));
      ResolveListAppends(image, encoded, f, functions, resolved);
      encoded, functions, previous := encoded + [f], functions + [resolved], Some(address);
    }
    VerifyFromEnds(image, previous);
    assert encoded + [] == encoded;
    r := Ok(functions);
  }

  lemma VerifyFromStops(image: Image, index: nat, previous: Option<uint64>)
    requires index < image.layout.count
    ensures match AddressAt(image, index)
      case Err(error) => VerifyFrom(image, index, previous) == Err(error)
      case Ok(address) => previous.Some? && address < previous.value ==> VerifyFrom(image, index, previous) == Err(InvalidFormat)
  {
    hide AddressAt, VerifiedAt;
  }

  lemma VerifyFromEnds(image: Image, previous: Option<uint64>)
    ensures VerifyFrom(image, image.layout.count, previous) == Ok([])
  {
    hide AddressAt, VerifiedAt;
  }

  lemma {:induction false} FilesFromFails(image: Image, index: nat, failing: nat)
    requires index <= failing < image.layout.fileCount
    requires forall k: nat :: index <= k < failing ==> FileAt(image, k).Ok?
    requires FileAt(image, failing).Err?
    ensures FilesFrom(image, index) == Err(FileAt(image, failing).error)
    decreases failing - index
  {
    hide FileAt;
    if index < failing {
      FilesFromFails(image, index + 1, failing);
    }
  }

  lemma {:induction false} FilesFromSucceeds(image: Image, index: nat)
    requires index <= image.layout.fileCount
    requires forall k: nat :: index <= k < image.layout.fileCount ==> FileAt(image, k).Ok?
    ensures FilesFrom(image, index).Ok?
    decreases image.layout.fileCount - index
  {
    hide FileAt;
    if index < image.layout.fileCount {
      FilesFromSucceeds(image, index + 1);
    }
  }

  /** The files no function referred to. */
  method VerifyRemainingFiles(image: Image, verified: array<bool>) returns (r: Result<Unit>)
    requires Marked(image, verified)
    ensures r == Checked(FilesFrom(image, 0))
  {
    hide FileAt;
    for index := 0 to verified.Length
      invariant forall k: nat :: k < index ==> FileAt(image, k).Ok?
    {
      if !verified[index] {
        var file := FileAt(image, index);
        if file.Err? {
          FilesFromFails(image, 0, index);
          return Err(file.error);
        }
      }
    }
    FilesFromSucceeds(image, 0);
    return Ok(Unit);
  }

  /** `decode_all`: one pass that verifies and converts, then the file table.
      The result is that of verifying first and converting afterwards. */
  method ReadAll(image: Image) returns (r: Result<DecodedGsym>)
    ensures r == DecodeAll(image)
  {
    hide VerifyFrom, ResolveList, FilesFrom, FileAt;
    var layout := image.layout;
    var _ :- CheckReserved(image);
    var verified := new bool[layout.fileCount];
    forall i | 0 <= i < verified.Length {
      verified[i] := i == 0;
    }
    assert Marked(image, verified);
    var table, encoded := VerifyTable(image, verified);
    var functions :- table;
    var _ :- VerifyRemainingFiles(image, verified);
    var files := FilesFrom(image, 0).value;
    return Ok(DecodedGsym(layout.version, layout.order, layout.base, BuildId(image),
                          if layout.fileCount == 0 then [EMPTY_FILE] else files, functions));
  }
}
