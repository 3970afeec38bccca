/** Address lookup: src/reader/lookup.rs and the address search of src/reader.rs. */
module Lookup {
  import opened Words
  import opened Wrappers
  import opened Wire
  import opened Headers
  import opened Layout
  import opened Model
  import opened Line
  import opened FunctionInfo
  import opened Image
  import opened Verified
  import opened AddressSearch

  // ------------------------------------------------------- what a search should find

  function RangesOf(functions: seq<EncodedFunction>): seq<AddressRange> {
    seq(|functions|, i requires 0 <= i < |functions| => functions[i].range)
  }

  /** `index` is the last entry at or below the address. */
  ghost predicate Splits(functions: seq<EncodedFunction>, address: uint64, index: Option<nat>) {
    match index
    case None => forall k :: 0 <= k < |functions| ==> functions[k].range.start > address
    case Some(i) =>
      && i < |functions|
      && (forall k :: 0 <= k <= i ==> functions[k].range.start <= address)
      && (forall k :: i < k < |functions| ==> functions[k].range.start > address)
  }

  // ---------------------------------------------------------------- binary search

  /** The address table is in the file, an entry of legal width per function. */
  predicate HasAddressTable(data: seq<uint8>, layout: ParsedLayout) {
    && layout.addresses.InBounds(data)
    && layout.addresses.end == layout.addresses.start + layout.count * layout.addressWidth
    && 1 <= layout.addressWidth <= 8
  }

  lemma V1AddressTable(data: seq<uint8>)
    requires ParseV1(data).Ok?
    ensures HasAddressTable(data, ParseV1(data).value)
  {
    hide DetectByteOrder, DecodeMagic, ReadU32, ReadU64, AlignUp;
  }

  lemma V2AddressTable(data: seq<uint8>)
    requires ParseV2(data).Ok?
    ensures HasAddressTable(data, ParseV2(data).value)
  {
    hide *;
    var h, order, section := V2Parts(data);
    SectionAccepted(data, order, h, GLOBAL_ADDRESSES);
    AddressSpan(data, ParseV2(data).value, h, section);
  }

  /** The address section behind a parsed layout. */
  lemma V2Parts(data: seq<uint8>) returns (h: V2Header, order: ByteOrder, section: Section)
    requires ParseV2(data).Ok?
    ensures V2Width(h.width) && ParseDirectory(data, order, h).Ok?
    ensures Find(ParseDirectory(data, order, h).value, GLOBAL_ADDRESSES) == Some(section) && section.kind == GLOBAL_ADDRESSES
    ensures
      var layout := ParseV2(data).value;
      layout.addresses == Span(section.offset, section.End()) && layout.count == h.count && layout.addressWidth == h.width
  {
    hide DetectByteOrder, DecodeMagic, DecodeV2Body, ReadU32, ParseDirectory, Find;
    V2HeaderWidth(data);
    h, order := DecodeV2Header(data).value.0, DecodeV2Header(data).value.1;
    section := Find(ParseDirectory(data, order, h).value, GLOBAL_ADDRESSES).value;
  }

  lemma V2HeaderWidth(data: seq<uint8>)
    requires DecodeV2Header(data).Ok?
    ensures V2Width(DecodeV2Header(data).value.0.width)
  {
    hide DetectByteOrder, DecodeMagic;
  }

  lemma AddressSpan(data: seq<uint8>, layout: ParsedLayout, h: V2Header, section: Section)
    requires V2Width(h.width) && WellFormed(data, h, section) && section.kind == GLOBAL_ADDRESSES && section.End() <= |data|
    requires layout.addresses == Span(section.offset, section.End()) && layout.count == h.count && layout.addressWidth == h.width
    ensures HasAddressTable(data, layout)
  {
  }

  lemma SectionAccepted(data: seq<uint8>, order: ByteOrder, h: V2Header, kind: uint32)
    requires V2Width(h.width) && ParseDirectory(data, order, h).Ok?
    ensures
      var found := Find(ParseDirectory(data, order, h).value, kind);
      found.Some? ==> WellFormed(data, h, found.value) && found.value.End() <= |data|
  {
    hide DecodeEntries, Chained, Required, WellFormed;
    DirectoryFacts(data, order, h);
  }

  /** A parsed file holds its whole address table. */
  lemma LoadedAddressTable(image: Image)
    requires Load(image.data) == Ok(image)
    ensures HasAddressTable(image.data, image.layout)
  {
    hide DetectByteOrder, ReadU16, ReadU32, ParseV1, ParseV2, HasAddressTable;
    if ParseV1(image.data) == Ok(image.layout) {
      V1AddressTable(image.data);
    } else {
      V2AddressTable(image.data);
    }
  }

  /** Every entry of the address table can be read. */
  lemma OffsetReadable(image: Image, index: nat)
    requires HasAddressTable(image.data, image.layout) && index < image.layout.count
    ensures UintAt(image, image.layout.addresses.start + index * image.layout.addressWidth, image.layout.addressWidth).Ok?
  {
    hide UintAt;
    var layout := image.layout;
    EntryInTable(layout.count, layout.addressWidth, index);
    UintReadable(image, layout.addresses.start + index * layout.addressWidth, layout.addressWidth);
  }

  lemma UintReadable(image: Image, offset: nat, width: uint8)
    requires 1 <= width <= 8 && offset + width <= |image.data|
    ensures UintAt(image, offset, width).Ok?
  {
  }

  lemma EntryInTable(count: nat, width: nat, index: nat)
    requires index < count
    ensures index * width + width <= count * width
  {
    assert (count - index - 1) * width >= 0;
    assert count * width == index * width + width + (count - index - 1) * width;
  }

  lemma VerifiedSorted(image: Image, functions: seq<EncodedFunction>)
    requires Verify(image) == Ok(functions)
    ensures |functions| == image.layout.count
    ensures forall i, j :: 0 <= i < j < |functions| ==> functions[i].range.start <= functions[j].range.start
  {
    hide *;
    VerifyWalksTable(image);
    VerifiedLength(image, 0, None, functions);
    forall i, j | 0 <= i < j < |functions|
      ensures functions[i].range.start <= functions[j].range.start
    {
      VerifiedEntry(image, functions, j);
    }
  }

  /** Comparing a table entry with the relative address, without adding the
      base, is comparing the addresses. */
  lemma OffsetCompares(image: Image, index: nat, start: uint64, address: uint64)
    requires AddressAt(image, index) == Ok(start)
    ensures image.layout.base <= start
    ensures
      var layout := image.layout;
      var offset := UintAt(image, layout.addresses.start + index * layout.addressWidth, layout.addressWidth);
      offset.Ok? && (address >= layout.base ==> (offset.value <= address - layout.base <==> start <= address))
  {
    hide UintAt;
  }

  /** Both halves of a bisection around `middle`. */
  lemma Bisects(functions: seq<EncodedFunction>, address: uint64, low: nat, middle: nat, high: nat)
    requires low <= middle < high <= |functions|
    requires forall i, j :: 0 <= i < j < |functions| ==> functions[i].range.start <= functions[j].range.start
    ensures functions[middle].range.start <= address ==> forall k :: 0 <= k <= middle ==> functions[k].range.start <= address
    ensures functions[middle].range.start > address ==> forall k :: middle <= k < |functions| ==> functions[k].range.start > address
  {
  }

  /** `find_address_index`.  The power-of-two widths compare table entries with
      the relative address; the others add the base to each entry. */
  method FindAddressIndex(image: Image, address: uint64) returns (r: Result<Option<nat>>)
    requires Load(image.data) == Ok(image)
    ensures r.Ok? && r.value.Some? ==> r.value.value < image.layout.count && image.layout.base <= address
    ensures Verify(image).Ok? ==> r.Ok? && Splits(Verify(image).value, address, r.value)
  {
    hide Load, Verify, UintAt, AddressAt, VerifiedAt, HasAddressTable;
    var layout := image.layout;
    LoadedAddressTable(image);
    ghost var verified := Verify(image).Ok?;
    ghost var functions := if verified then Verify(image).value else [];
    if verified {
      VerifiedSorted(image, functions);
    }
    if address < layout.base || layout.count == 0 {
      if verified {
        NoneBelowBase(image, functions, address);
      }
      return Ok(None);
    }
    var relative := address - layout.base;
    var width := layout.addressWidth;
    var low, high := 0, layout.count;
    while low < high
      invariant 0 <= low <= high <= layout.count
      invariant verified ==> forall k :: 0 <= k < low ==> functions[k].range.start <= address
      invariant verified ==> forall k :: high <= k < |functions| ==> functions[k].range.start > address
    {
      var middle: nat := low + (high - low) / 2;
      if verified {
        VerifiedEntry(image, functions, middle);
        OffsetCompares(image, middle, functions[middle].range.start, address);
        Bisects(functions, address, low, middle, high);
      }
      var below;
      if V1Width(width) {
        OffsetReadable(image, middle);
        below := UintAt(image, layout.addresses.start + middle * width, width).value <= relative;
      } else {
        var start :- AddressAt(image, middle);
        below := start <= address;
      }
      if below {
        low := middle + 1;
      } else {
        high := middle;
      }
    }
    if verified {
      SplitsHere(functions, address, low);
    }
    return Ok(if low == 0 then None else Some(low - 1));
  }

  lemma SplitsHere(functions: seq<EncodedFunction>, address: uint64, low: nat)
    requires low <= |functions|
    requires forall k :: 0 <= k < low ==> functions[k].range.start <= address
    requires forall k :: low <= k < |functions| ==> functions[k].range.start > address
    ensures Splits(functions, address, if low == 0 then None else Some(low - 1))
  {
  }

  lemma NoneBelowBase(image: Image, functions: seq<EncodedFunction>, address: uint64)
    requires Verify(image) == Ok(functions) && (address < image.layout.base || image.layout.count == 0)
    ensures Splits(functions, address, None)
  {
    hide Verify, VerifiedAt, AddressAt;
    VerifiedSorted(image, functions);
    forall k | 0 <= k < |functions|
      ensures functions[k].range.start > address
    {
      VerifiedEntry(image, functions, k);
      OffsetCompares(image, k, functions[k].range.start, address);
    }
  }

  // ------------------------------------------------------------ matching function

  /** What the raw view of a verified entry shows. */
  lemma EntryRaw(image: Image, i: nat, start: uint64, f: EncodedFunction)
    requires VerifiedAt(image, i, start) == Ok(f)
    ensures RawFunctionAt(image, i, start).Ok?
    ensures StringAt(image, f.name).Ok?
    ensures
      var raw := RawFunctionAt(image, i, start).value;
      raw.range == f.range && raw.name == f.name && DecodeRaw(image, raw) == Ok(f)
    ensures Check(image, f, None, 0).Ok?
  {
    hide DecodeRaw, Check, RawFunctionAt, StringAt;
    RawDecodes(image, i, start);
  }

  lemma VerifiedRaw(image: Image, functions: seq<EncodedFunction>, i: nat)
    requires Verify(image) == Ok(functions) && i < |functions|
    ensures |functions| == image.layout.count
    ensures AddressAt(image, i) == Ok(functions[i].range.start)
    ensures RawFunctionAt(image, i, functions[i].range.start).Ok?
    ensures
      var raw := RawFunctionAt(image, i, functions[i].range.start).value;
      raw.range == functions[i].range && raw.name == functions[i].name && DecodeRaw(image, raw) == Ok(functions[i])
    ensures Check(image, functions[i], None, 0).Ok?
  {
    hide *;
    VerifiedSorted(image, functions);
    VerifiedEntry(image, functions, i);
    EntryRaw(image, i, functions[i].range.start, functions[i]);
  }

  /** Only the run of equal starts up to `last` is in question, and nothing in it
      matches. */
  lemma RunHasNoMatch(functions: seq<EncodedFunction>, address: uint64, low: nat, last: nat, next: nat)
    requires low <= last < |functions| && low < next && Splits(functions, address, Some(last))
    requires last < next
    requires forall k :: 0 <= k < low ==> functions[k].range.start < functions[last].range.start
    requires forall k :: low <= k < next && k < |functions| ==>
      !functions[k].range.IsEmpty() && !functions[k].range.Contains(address)
    ensures forall i: nat :: !Selected(RangesOf(functions), address, i)
  {
    var ranges := RangesOf(functions);
    forall i: nat
      ensures !Candidate(ranges, address, i)
    {
      if i < low {
        assert ranges[last].start == functions[last].range.start;
      }
    }
  }

  lemma NothingBelow(functions: seq<EncodedFunction>, address: uint64)
    requires Splits(functions, address, None)
    ensures forall i: nat :: !Selected(RangesOf(functions), address, i)
  {
  }

  /** The first entry of the run of equal starts that ends at `last`. */
  method RunStart(image: Image, last: nat, start: uint64) returns (r: Result<nat>)
    ensures r.Ok? ==> r.value <= last
    ensures Verify(image).Ok? && last < image.layout.count && AddressAt(image, last) == Ok(start) ==>
      var functions := Verify(image).value;
      && |functions| == image.layout.count && r.Ok?
      && (forall k :: 0 <= k < r.value ==> functions[k].range.start < start)
      && functions[r.value].range.start == start
  {
    hide *;
    ghost var verified := Verify(image).Ok? && last < image.layout.count && AddressAt(image, last) == Ok(start);
    ghost var functions := if verified then Verify(image).value else [];
    if verified {
      VerifiedSorted(image, functions);
      VerifiedRaw(image, functions, last);
    }
    var low := last;
    while low > 0
      invariant 0 <= low <= last
      invariant verified ==> functions[low].range.start == start
    {
      if verified {
        VerifiedRaw(image, functions, low - 1);
      }
      var before := AddressAt(image, low - 1);
      if before.Err? {
        return Err(before.error);
      }
      if before.value != start {
        break;
      }
      low := low - 1;
    }
    return Ok(low);
  }

  /** The first match from `low` on, while the starts stay the same. */
  method MatchInRun(image: Image, address: uint64, low: nat, start: uint64) returns (r: Result<Option<RawFunction>>, ghost index: nat, ghost next: nat)
    requires low < image.layout.count
    ensures Verify(image).Ok? && AddressAt(image, low) == Ok(start) ==>
      var functions := Verify(image).value;
      && |functions| == image.layout.count && r.Ok? && low <= index < next <= |functions|
      && (forall k :: low <= k < next ==> functions[k].range.start == start)
      && (forall k :: low <= k < index ==> !functions[k].range.IsEmpty() && !functions[k].range.Contains(address))
      && match r.value
         case None =>
           && index == next - 1 && !functions[index].range.IsEmpty() && !functions[index].range.Contains(address)
           && (next < |functions| ==> functions[next].range.start != start)
         case Some(raw) =>
           && (functions[index].range.IsEmpty() || functions[index].range.Contains(address))
           && RawFunctionAt(image, index, start) == Ok(raw)
  {
    hide AddressAt, Verify, RawFunctionAt, DecodeRaw, Check;
    index, next := low, low + 1;
    ghost var verified := Verify(image).Ok? && AddressAt(image, low) == Ok(start);
    ghost var functions := if verified then Verify(image).value else [];
    if verified {
      VerifiedSorted(image, functions);
      VerifiedRaw(image, functions, low);
    }
    var at := low;
    while true
      invariant low <= at < image.layout.count
      invariant verified ==> forall k :: low <= k <= at ==> functions[k].range.start == start
      invariant verified ==> forall k :: low <= k < at ==>
        !functions[k].range.IsEmpty() && !functions[k].range.Contains(address)
      decreases image.layout.count - at
    {
      index, next := at, at + 1;
      if verified {
        VerifiedRaw(image, functions, at);
      }
      var raw := RawFunctionAt(image, at, start);
      if raw.Err? {
        r := Err(raw.error);
        return;
      }
      if raw.value.range.IsEmpty() || raw.value.range.Contains(address) {
        r := Ok(Some(raw.value));
        return;
      }
      if at + 1 >= image.layout.count {
        break;
      }
      if verified {
        VerifiedRaw(image, functions, at + 1);
      }
      var after := AddressAt(image, at + 1);
      if after.Err? {
        r := Err(after.error);
        return;
      }
      if after.value != start {
        break;
      }
      at := at + 1;
    }
    r := Ok(None);
  }

  /** The match is the entry to select. */
  lemma RunMatch(functions: seq<EncodedFunction>, address: uint64, low: nat, last: nat, index: nat)
    requires low <= last < |functions| && low <= index < |functions| && Splits(functions, address, Some(last))
    requires functions[low].range.start == functions[last].range.start == functions[index].range.start
    requires forall k :: 0 <= k < low ==> functions[k].range.start < functions[last].range.start
    requires forall k :: low <= k < index ==> !functions[k].range.IsEmpty() && !functions[k].range.Contains(address)
    requires functions[index].range.IsEmpty() || functions[index].range.Contains(address)
    requires forall i, j :: 0 <= i < j < |functions| ==> functions[i].range.start <= functions[j].range.start
    ensures Selected(RangesOf(functions), address, index)
  {
    var ranges := RangesOf(functions);
    assert index <= last;
    forall i: nat | Candidate(ranges, address, i)
      ensures ranges[i].start < ranges[index].start || index <= i
    {
      assert ranges[i] == functions[i].range;
    }
  }

  /** `matching_function`: back to the first of the equal starts, then forward
      to the first match. */
  method MatchingFunction(image: Image, address: uint64) returns (r: Result<Option<RawFunction>>, ghost index: nat)
    requires Load(image.data) == Ok(image)
    ensures Verify(image).Ok? ==>
      var functions := Verify(image).value;
      && r.Ok?
      && match r.value
         case None => forall i: nat :: !Selected(RangesOf(functions), address, i)
         case Some(raw) =>
           && Selected(RangesOf(functions), address, index)
           && RawFunctionAt(image, index, functions[index].range.start) == Ok(raw)
  {
    hide Load, Verify, AddressAt, RawFunctionAt, DecodeRaw, Check, HasAddressTable, Selected, Splits;
    index := 0;
    var found := FindAddressIndex(image, address);
    if found.Err? {
      r := Err(found.error);
      return;
    }
    ghost var verified := Verify(image).Ok?;
    ghost var functions := if verified then Verify(image).value else [];
    if found.value.None? {
      if verified {
        NothingBelow(functions, address);
      }
      r := Ok(None);
      return;
    }
    var last := found.value.value;
    if verified {
      VerifiedSorted(image, functions);
      VerifiedRaw(image, functions, last);
    }
    var start := AddressAt(image, last);
    if start.Err? {
      r := Err(start.error);
      return;
    }
    var low := RunStart(image, last, start.value);
    if low.Err? {
      r := Err(low.error);
      return;
    }
    if verified {
      VerifiedRaw(image, functions, low.value);
    }
    ghost var next;
    r, index, next := MatchInRun(image, address, low.value, start.value);
    if verified {
      if r.value.Some? {
        RunMatch(functions, address, low.value, last, index);
      } else {
        RunEnds(functions, low.value, last, next);
        RunHasNoMatch(functions, address, low.value, last, next);
      }
    }
  }

  /** The run does not end before the entry the search found. */
  lemma RunEnds(functions: seq<EncodedFunction>, low: nat, last: nat, next: nat)
    requires low <= last < |functions| && low < next <= |functions|
    requires functions[low].range.start == functions[last].range.start
    requires next < |functions| ==> functions[next].range.start != functions[low].range.start
    requires forall i, j :: 0 <= i < j < |functions| ==> functions[i].range.start <= functions[j].range.start
    ensures last < next
  {
  }
}
