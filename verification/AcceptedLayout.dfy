/** What a layout that parses is: src/format/v1.rs and src/format/v2.rs. */
module AcceptedLayout {
  import opened Words
  import opened Wrappers
  import opened Wire
  import opened Headers
  import opened Sorting
  import opened Layout
  import opened ImageLayout

  // ------------------------------------------------------------------- no overlap

  /** One of the sections ends before the other starts. */
  predicate Apart(a: Section, b: Section) {
    a.offset + a.size <= b.offset || b.offset + b.size <= a.offset
  }

  ghost predicate AllApart(entries: seq<Section>) {
    forall i, j :: 0 <= i < |entries| && 0 <= j < |entries| && i != j ==> Apart(entries[i], entries[j])
  }

  lemma SortedDiffer(entries: seq<Section>, p: nat, q: nat)
    requires DistinctKinds(entries) && p < q < |entries|
    ensures Sort(NotAfter, entries)[p] != Sort(NotAfter, entries)[q]
  {
    hide Sort;
    var sorted := Sort(NotAfter, entries);
    SortMultiset(NotAfter, entries);
    Once(entries, sorted[p]);
    if sorted[p] == sorted[q] {
      Twice(sorted, p, q);
    }
  }

  lemma Twice(s: seq<Section>, p: nat, q: nat)
    requires p < q < |s| && s[p] == s[q]
    ensures multiset(s)[s[p]] >= 2
  {
    assert s == s[..q] + s[q..] && s[p] in s[..q] && s[q] in s[q..];
  }

  lemma {:induction false} Once(entries: seq<Section>, e: Section)
    requires DistinctKinds(entries)
    ensures multiset(entries)[e] <= 1
    decreases |entries|
  {
    if entries != [] {
      Once(entries[1..], e);
      assert entries == [entries[0]] + entries[1..];
      forall i | 0 <= i < |entries[1..]|
        ensures entries[1..][i] != entries[0]
      {
        assert entries[i + 1].kind != entries[0].kind;
      }
    }
  }

  /** In offset order the sections follow each other behind the directory exactly when each
      starts behind it and no two overlap. */
  lemma ChainedIsApart(entries: seq<Section>, directoryEnd: nat)
    requires DistinctKinds(entries) && forall e :: e in entries ==> e.size > 0
    ensures Chained(Sort(NotAfter, entries), directoryEnd)
       <==> (forall e :: e in entries ==> directoryEnd <= e.offset) && AllApart(entries)
  {
    hide Chained, Sort, DistinctKinds;
    var sorted := Sort(NotAfter, entries);
    SortMembers(NotAfter, entries);
    if Chained(sorted, directoryEnd) {
      ChainedApart(sorted, directoryEnd);
      forall e | e in entries
        ensures directoryEnd <= e.offset
      {
        var p :| 0 <= p < |sorted| && sorted[p] == e;
      }
      forall i, j | 0 <= i < |entries| && 0 <= j < |entries| && i != j
        ensures Apart(entries[i], entries[j])
      {
        KindsDiffer(entries, i, j);
        SectionsApart(entries, directoryEnd, i, j);
      }
    }
    if (forall e :: e in entries ==> directoryEnd <= e.offset) && AllApart(entries) {
      NotAfterOrder();
      SortSorted(NotAfter, entries);
      forall p | 0 < p < |sorted|
        ensures sorted[p - 1].End() <= sorted[p].offset
      {
        SortedDiffer(entries, p - 1, p);
        assert sorted[p - 1] in entries && sorted[p] in entries;
        var i :| 0 <= i < |entries| && entries[i] == sorted[p - 1];
        var j :| 0 <= j < |entries| && entries[j] == sorted[p];
        assert Apart(entries[i], entries[j]) && NotAfter(sorted[p - 1], sorted[p]);
      }
      assert sorted != [] ==> sorted[0] in entries;
      ChainedInOrder(sorted, directoryEnd);
    }
  }

  lemma KindsDiffer(entries: seq<Section>, i: nat, j: nat)
    requires DistinctKinds(entries) && i < |entries| && j < |entries| && i != j
    ensures entries[i].kind != entries[j].kind
  {
  }

  lemma NotAfterOrder()
    ensures TotalPreorder(NotAfter)
  {
  }

  // ------------------------------------------------------------- what each section is

  /** Sizes and alignment by kind, one table row per function. */
  predicate Shaped(data: seq<uint8>, count: nat, width: nat, e: Section)
    requires width > 0
  {
    && (e.kind == 1 ==> e.size == count * width && e.offset % width == 0)
    && (e.kind == 2 ==> e.size == count * 8 && e.offset % 8 == 0)
    && (e.kind == 3 ==> e.offset < |data| && data[e.offset] == 0)
    && (e.kind == 4 ==> 4 <= e.size && (e.size - 4) % 16 == 0 && e.offset % 4 == 0)
    && (e.kind == 5 ==> e.offset % 4 == 0)
  }

  lemma WellFormedIs(data: seq<uint8>, h: V2Header, e: Section)
    requires V2Width(h.width)
    ensures WellFormed(data, h, e) <==> Shaped(data, h.count, h.width, e)
  {
  }

  predicate HasKind(entries: seq<Section>, kind: uint32) {
    exists i :: 0 <= i < |entries| && entries[i].kind == kind
  }

  lemma RequiredIs(entries: seq<Section>)
    ensures Required(entries) <==>
      HasKind(entries, 1) && HasKind(entries, 2) && HasKind(entries, 3) && HasKind(entries, 4) && HasKind(entries, 5)
  {
    hide Find, HasKind;
    FindIs(entries, GLOBAL_ADDRESSES);
    FindIs(entries, GLOBAL_INFOS);
    FindIs(entries, GLOBAL_STRINGS);
    FindIs(entries, GLOBAL_FILES);
    FindIs(entries, GLOBAL_FUNCTIONS);
  }

  lemma FindIs(entries: seq<Section>, kind: uint32)
    ensures Find(entries, kind).Some? <==> HasKind(entries, kind)
  {
    hide Find;
    if Find(entries, kind).Some? {
      var i :| 0 <= i < |entries| && entries[i] == Find(entries, kind).value;
    }
  }

  /** No kind twice or among those seen, no end marker, nothing empty or outside. */
  predicate Admissible(entries: seq<Section>, inputLength: nat, seen: set<uint32>) {
    && (forall e :: e in entries ==>
          e.kind !in seen && e.kind != 0 && 0 < e.size && e.offset + e.size < U64_LIMIT && e.offset + e.size <= inputLength)
    && (forall i, j :: 0 <= i < j < |entries| ==> entries[i].kind != entries[j].kind)
  }

  /** The entries one after the other, then an entry of zeros. */
  predicate Listed(s: seq<uint8>, order: ByteOrder, entries: seq<Section>)
    decreases |entries|
  {
    var next := DecodeSection(s, order);
    && next.Ok?
    && if entries == [] then next.value.value == Section(0, 0, 0)
       else next.value.value == entries[0] && Listed(next.value.rest, order, entries[1..])
  }

  lemma AdmissibleCons(section: Section, tail: seq<Section>, inputLength: nat, seen: set<uint32>)
    requires section.kind != GLOBAL_END
    ensures Admissible([section] + tail, inputLength, seen) <==>
      Admit(section, inputLength, seen).Ok? && Admissible(tail, inputLength, seen + {section.kind})
  {
    var entries := [section] + tail;
    if Admissible(entries, inputLength, seen) {
      assert section in entries;
      forall e | e in tail
        ensures e in entries && e.kind != section.kind
      {
        var i :| 0 <= i < |tail| && tail[i] == e;
        assert entries[0].kind != entries[i + 1].kind;
      }
      forall i, j | 0 <= i < j < |tail|
        ensures tail[i].kind != tail[j].kind
      {
        assert entries[i + 1].kind != entries[j + 1].kind;
      }
    }
    if Admit(section, inputLength, seen).Ok? && Admissible(tail, inputLength, seen + {section.kind}) {
      forall j | 0 <= j < |tail|
        ensures tail[j].kind != section.kind
      {
        assert tail[j] in tail;
      }
    }
  }

  lemma {:induction false} EntriesAreExact(s: seq<uint8>, order: ByteOrder, inputLength: nat, seen: set<uint32>, entries: seq<Section>)
    ensures DecodeEntries(s, order, inputLength, seen).Ok? && DecodeEntries(s, order, inputLength, seen).value.value == entries
       <==> Listed(s, order, entries) && Admissible(entries, inputLength, seen)
    decreases |s|
  {
    hide DecodeSection, Admissible, Admit;
    NothingAdmissible(inputLength, seen);
    var next := DecodeSection(s, order);
    if next.Ok? && next.value.value.kind == GLOBAL_END {
      if entries != [] && entries[0] == next.value.value {
        EndInadmissible(entries, inputLength, seen);
      }
    } else if next.Ok? {
      var section, s1 := next.value.value, next.value.rest;
      if entries == [] {
      } else {
        EntriesAreExact(s1, order, inputLength, seen + {section.kind}, entries[1..]);
        if entries[0] == section {
          assert entries == [section] + entries[1..];
          AdmissibleCons(section, entries[1..], inputLength, seen);
        }
        FirstEntry(s, order, inputLength, seen, section, s1);
      }
    }
  }

  lemma NothingAdmissible(inputLength: nat, seen: set<uint32>)
    ensures Admissible([], inputLength, seen)
  {
  }

  lemma EndInadmissible(entries: seq<Section>, inputLength: nat, seen: set<uint32>)
    requires entries != [] && entries[0].kind == GLOBAL_END
    ensures !Admissible(entries, inputLength, seen)
  {
  }

  lemma FirstEntry(s: seq<uint8>, order: ByteOrder, inputLength: nat, seen: set<uint32>, section: Section, s1: seq<uint8>)
    requires DecodeSection(s, order) == Ok(Step(section, s1)) && section.kind != GLOBAL_END
    ensures
      var tail := DecodeEntries(s1, order, inputLength, seen + {section.kind});
      && (DecodeEntries(s, order, inputLength, seen).Ok? <==> Admit(section, inputLength, seen).Ok? && tail.Ok?)
      && (DecodeEntries(s, order, inputLength, seen).Ok? ==> DecodeEntries(s, order, inputLength, seen).value.value == [section] + tail.value.value)
  {
    hide DecodeSection, Admit;
  }

  /** Which entries a directory may have: the five kinds that are needed, each kind once, none
      empty or outside the file, each in shape and behind the directory, no two overlapping. */
  ghost predicate Acceptable(data: seq<uint8>, h: V2Header, entries: seq<Section>)
    requires V2Width(h.width)
  {
    && HasKind(entries, 1) && HasKind(entries, 2) && HasKind(entries, 3) && HasKind(entries, 4) && HasKind(entries, 5)
    && Admissible(entries, |data|, {})
    && (forall e :: e in entries ==> V2_HEADER_SIZE + 20 * (|entries| + 1) <= e.offset && Shaped(data, h.count, h.width, e))
    && AllApart(entries)
  }

  /** A directory is accepted exactly when its entries are listed behind the header and are
      acceptable. */
  lemma DirectoryIsExact(data: seq<uint8>, order: ByteOrder, h: V2Header, entries: seq<Section>)
    requires V2Width(h.width)
    ensures ParseDirectory(data, order, h) == Ok(entries) <==>
      |data| >= V2_HEADER_SIZE && Listed(data[V2_HEADER_SIZE..], order, entries) && Acceptable(data, h, entries)
  {
    hide DecodeEntries, Listed, Required, HasKind, Chained, WellFormed, Shaped, Sort, AllApart;
    ParseDirectoryUnfolds(data, order, h);
    if |data| >= V2_HEADER_SIZE {
      var s := data[V2_HEADER_SIZE..];
      EntriesAreExact(s, order, |data|, {}, entries);
      var decoded := DecodeEntries(s, order, |data|, {});
      if decoded.Ok? && decoded.value.value == entries {
        EntriesLength(s, order, |data|, {});
        RequiredIs(entries);
        DirectoryShaped(data, h, entries);
        ChainedIsApart(entries, V2_HEADER_SIZE + 20 * (|entries| + 1));
      }
    }
  }

  lemma DirectoryShaped(data: seq<uint8>, h: V2Header, entries: seq<Section>)
    requires V2Width(h.width)
    ensures (forall e :: e in entries ==> WellFormed(data, h, e)) <==> (forall e :: e in entries ==> Shaped(data, h.count, h.width, e))
  {
    hide WellFormed, Shaped;
    forall e | e in entries
      ensures WellFormed(data, h, e) <==> Shaped(data, h.count, h.width, e)
    {
      WellFormedIs(data, h, e);
    }
  }

  // ------------------------------------------------------------------ the two layouts

  /** The section of a kind, from its entry. */
  predicate IsSection(entries: seq<Section>, kind: uint32, span: Span) {
    exists i :: 0 <= i < |entries| && entries[i].kind == kind && span.start == entries[i].offset
                && span.end == entries[i].offset + entries[i].size
  }

  lemma SpanIs(entries: seq<Section>, kind: uint32)
    ensures SpanOf(entries, kind).Ok? ==> IsSection(entries, kind, SpanOf(entries, kind).value)
    ensures SpanOf(entries, kind).Ok? <==> HasKind(entries, kind)
  {
    hide Find;
    FindIs(entries, kind);
    if Find(entries, kind).Some? {
      var i :| 0 <= i < |entries| && entries[i] == Find(entries, kind).value;
    }
  }

  lemma V2WidthOf(data: seq<uint8>)
    ensures DecodeV2Header(data).Ok? ==> V2Width(DecodeV2Header(data).value.0.width)
  {
  }

  /** A version two layout is that of its directory: each section under its own kind, the file
      table as long as its count says, and no build ID where none is listed. */
  lemma V2LayoutIs(data: seq<uint8>)
    requires ParseV2(data).Ok?
    ensures
      var layout := ParseV2(data).value;
      && DecodeV2Header(data).Ok?
      && var (h, order) := DecodeV2Header(data).value;
      && V2Width(h.width)
      && ParseDirectory(data, order, h).Ok?
      && var entries := ParseDirectory(data, order, h).value;
      && layout.version == V2 && layout.order == order && layout.addressWidth == h.width && layout.stringWidth == 8
      && layout.base == h.base && layout.count == h.count
      && IsSection(entries, 1, layout.addresses) && IsSection(entries, 2, layout.infos) && IsSection(entries, 3, layout.strings)
      && IsSection(entries, 4, layout.files) && IsSection(entries, 5, layout.functions)
      && layout.files.end == layout.files.start + 4 + 16 * layout.fileCount
      && (if HasKind(entries, 6) then IsSection(entries, 6, layout.buildId) else layout.buildId == Span(0, 0))
  {
    hide DecodeV2Header, ParseDirectory, ReadU32, Find, IsSection, HasKind;
    var (h, order) := DecodeV2Header(data).value;
    V2WidthOf(data);
    var entries := ParseDirectory(data, order, h).value;
    SpanIs(entries, GLOBAL_ADDRESSES);
    SpanIs(entries, GLOBAL_INFOS);
    SpanIs(entries, GLOBAL_STRINGS);
    SpanIs(entries, GLOBAL_FILES);
    SpanIs(entries, GLOBAL_FUNCTIONS);
    SpanIs(entries, GLOBAL_UUID);
  }

  /** A version one layout: tables, files, strings and functions one after the other up to the
      end of the file. */
  lemma V1LayoutIs(data: seq<uint8>)
    requires ParseV1(data).Ok?
    ensures
      var layout := ParseV1(data).value;
      && DecodeV1Header(data).Ok?
      && var (h, order) := DecodeV1Header(data).value;
      && layout.version == V1 && layout.order == order && layout.addressWidth == h.width && layout.stringWidth == 4
      && layout.base == h.base && layout.count == h.count
      && layout.addresses.start == 48 && layout.addresses.end == 48 + h.count * h.width
      && layout.addresses.end <= layout.infos.start < layout.addresses.end + 4 && layout.infos.start % 4 == 0
      && layout.infos.end == layout.infos.start + 4 * h.count && layout.files.start == layout.infos.end
      && layout.files.end == layout.files.start + 4 + 8 * layout.fileCount <= layout.strings.start
      && layout.strings.start == h.stringOffset && layout.strings.end == h.stringOffset + h.stringSize
      && layout.strings.end == layout.functions.start <= layout.functions.end == |data|
      && layout.buildId == Span(28, 28 + |h.uuid|)
  {
    hide DecodeV1Header, ReadU32, AlignUp;
    var (h, order) := DecodeV1Header(data).value;
    V1WidthOf(data);
    HeaderSizeAligned(h.width);
    var infos := AlignUp(48 + h.count * h.width, 4);
    MultipleOfFour(infos, h.count);
    AlignedStays(infos + h.count * 4, 4);
  }

  lemma V1WidthOf(data: seq<uint8>)
    requires DecodeV1Header(data).Ok?
    ensures V1Width(DecodeV1Header(data).value.0.width)
  {
    hide ReadU32, ReadU64, DecodeMagic, DetectByteOrder, TakeBytes;
  }
}
