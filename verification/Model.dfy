/** The version-independent values of src/model.rs. */
module Model {
  import opened Words
  import opened Wrappers

  /** A half-open address range; the endpoints are not checked on construction. */
  datatype AddressRange = AddressRange(start: uint64, end: uint64) {
    function Size(): uint64 {
      if start <= end then end - start else 0
    }

    predicate IsValid() {
      start <= end
    }

    predicate IsEmpty() {
      Size() == 0
    }

    predicate Contains(address: uint64) {
      IsValid() && start <= address < end
    }

    predicate ContainsRange(other: AddressRange) {
      IsValid() && other.IsValid() && start <= other.start && other.end <= end
    }
  }

  /** Some range of `parents` fully contains `range`. */
  predicate Within(range: AddressRange, parents: seq<AddressRange>) {
    exists parent :: parent in parents && parent.ContainsRange(range)
  }

  datatype FileEntry = FileEntry(directory: seq<uint8>, basename: seq<uint8>)

  const EMPTY_FILE := FileEntry([], [])

  type FileIndex = uint32

  datatype LineEntry = LineEntry(address: uint64, file: FileIndex, line: uint32)

  datatype InlineNode = InlineNode(
    ranges: seq<AddressRange>,
    name: seq<uint8>,
    callFile: FileIndex,
    callLine: uint32,
    children: seq<InlineNode>
  )

  datatype CallSite = CallSite(returnOffset: uint64, flags: uint8, matchRegex: seq<seq<uint8>>)

  datatype Function = Function(
    range: AddressRange,
    name: seq<uint8>,
    lines: seq<LineEntry>,
    inline: Option<InlineNode>,
    merged: seq<Function>,
    callSites: seq<CallSite>
  )

  /** A tree node, its children and theirs never nest deeper than this. */
  const MAX_INLINE_DEPTH: nat := 256

  /** Likewise for merged functions. */
  const MAX_MERGED_DEPTH: nat := 16
}
