/** The size of an image whose functions are some of another's: no larger, when the file
    table has no repeats. */
module WindowSizes {
  import opened Words
  import opened Wrappers
  import opened Wire
  import opened Headers
  import opened Layout
  import opened Model
  import opened InlineInfo
  import opened FunctionInfo
  import opened Image
  import opened Sorting
  import opened Ordering
  import opened Validation
  import opened Builder
  import opened Finalize
  import opened Strings
  import opened Sections
  import opened ImageLayout
  import opened Storage
  import opened Writer
  import opened Renumber
  import opened RecordSizes
  import opened RisingTables
  import opened StringSizes
  import opened Transcode

  // ------------------------------------------------------------------ record weights

  ghost predicate Writes(e: EncodedFunction, f: Function, order: ByteOrder, width: nat) {
    Outline(e, f) && EncodeFunction(e, order, width, 0).Ok?
  }

  /** The size of the record of a function, the same for every table of strings. */
  ghost function Weight(f: Function, order: ByteOrder, width: nat): nat {
    if exists e :: Writes(e, f, order, width) then
      var e :| Writes(e, f, order, width);
      |EncodeFunction(e, order, width, 0).value|
    else 0
  }

  lemma {:induction false} RemapNothing(f: Function)
    ensures Remap(f, []) == f
    decreases f, 1
  {
    if f.inline.Some? {
      InlineRemapNothing(f.inline.value);
    }
    assert RemapLines(f.lines, []) == f.lines;
    ListRemapNothing(f.merged);
  }

  lemma {:induction false} ListRemapNothing(functions: seq<Function>)
    ensures RemapList(functions, []) == functions
    decreases functions, 0
  {
    hide Remap;
    if functions != [] {
      RemapNothing(functions[0]);
      ListRemapNothing(functions[1..]);
    }
  }

  lemma {:induction false} InlineRemapNothing(node: InlineNode)
    ensures RemapInline(node, []) == node
    decreases node, 1
  {
    InlineListRemapNothing(node.children);
  }

  lemma {:induction false} InlineListRemapNothing(nodes: seq<InlineNode>)
    ensures RemapInlineList(nodes, []) == nodes
    decreases nodes, 0
  {
    hide RemapInline;
    if nodes != [] {
      InlineRemapNothing(nodes[0]);
      InlineListRemapNothing(nodes[1..]);
    }
  }

  lemma WeightIs(e: EncodedFunction, f: Function, limit: int, order: ByteOrder, width: nat)
    requires Writes(e, f, order, width) && FilesAtMost(f, limit)
    ensures Weight(f, order, width) == |EncodeFunction(e, order, width, 0).value|
  {
    hide Outline, EncodeFunction, FilesAtMost, Remap;
    var other :| Writes(other, f, order, width) && Weight(f, order, width) == |EncodeFunction(other, order, width, 0).value|;
    RemapNothing(f);
    RisesNowhere(limit);
    FunctionGrows(e, other, f, [], limit, order, width, 0);
    FunctionGrows(other, e, f, [], limit, order, width, 0);
  }

  lemma WeightGrows(e: EncodedFunction, other: EncodedFunction, f: Function, up: seq<FileIndex>, limit: int, more: int, order: ByteOrder, width: nat)
    requires Writes(e, f, order, width) && FilesAtMost(f, limit) && Rising(up, limit)
    requires Writes(other, Remap(f, up), order, width) && FilesAtMost(Remap(f, up), more)
    ensures Weight(f, order, width) <= Weight(Remap(f, up), order, width)
  {
    hide Outline, EncodeFunction, FilesAtMost, Remap, Rising;
    WeightIs(e, f, limit, order, width);
    WeightIs(other, Remap(f, up), more, order, width);
    FunctionGrows(e, other, f, up, limit, order, width, 0);
  }

  // ------------------------------------------------------------------------ sections

  /** The weights, each aligned. */
  ghost function Total(functions: seq<Function>, order: ByteOrder, width: nat): nat {
    if functions == [] then 0 else AlignUp(Weight(functions[0], order, width), 4) + Total(functions[1..], order, width)
  }

  lemma {:induction false} TotalInserted(leq: (Function, Function) -> bool, f: Function, s: seq<Function>, order: ByteOrder, width: nat)
    ensures Total(Insert(leq, f, s), order, width) == AlignUp(Weight(f, order, width), 4) + Total(s, order, width)
  {
    hide Weight;
    if s != [] && !leq(f, s[0]) {
      TotalInserted(leq, f, s[1..], order, width);
      assert ([s[0]] + Insert(leq, f, s[1..]))[1..] == Insert(leq, f, s[1..]);
    } else {
      assert ([f] + s)[1..] == s;
    }
  }

  lemma {:induction false} TotalSorted(leq: (Function, Function) -> bool, s: seq<Function>, order: ByteOrder, width: nat)
    ensures Total(Sort(leq, s), order, width) == Total(s, order, width)
  {
    hide Weight;
    if s != [] {
      TotalSorted(leq, s[1..], order, width);
      TotalInserted(leq, s[0], Sort(leq, s[1..]), order, width);
    }
  }

  lemma {:induction false} TotalAppended(a: seq<Function>, b: seq<Function>, order: ByteOrder, width: nat)
    ensures Total(a + b, order, width) == Total(a, order, width) + Total(b, order, width)
    decreases |a|
  {
    hide Weight;
    if a == [] {
      assert a + b == b;
    } else {
      assert (a + b)[1..] == a[1..] + b;
      TotalAppended(a[1..], b, order, width);
    }
  }

  /** Each function has a record, and its files lie in the table. */
  ghost predicate AllWrite(functions: seq<Function>, limit: int, order: ByteOrder, width: nat) {
    forall f :: f in functions ==> FilesAtMost(f, limit) && exists e :: Writes(e, f, order, width)
  }

  lemma SomeWrite(part: seq<Function>, functions: seq<Function>, limit: int, order: ByteOrder, width: nat)
    requires AllWrite(functions, limit, order, width) && forall f :: f in part ==> f in functions
    ensures AllWrite(part, limit, order, width)
  {
    hide Writes, FilesAtMost;
  }

  lemma {:induction false} AlignGrows(a: nat, b: nat)
    requires a <= b
    ensures AlignUp(a, 4) <= AlignUp(b, 4)
  {
  }

  lemma {:induction false} TotalGrows(functions: seq<Function>, up: seq<FileIndex>, limit: int, more: int, order: ByteOrder, width: nat)
    requires AllWrite(functions, limit, order, width) && AllWrite(RemapList(functions, up), more, order, width) && Rising(up, limit)
    ensures Total(functions, order, width) <= Total(RemapList(functions, up), order, width)
    decreases |functions|
  {
    hide Weight, Remap, Writes, FilesAtMost, Rising, AlignUp;
    if functions != [] {
      var f, moved := functions[0], RemapList(functions, up);
      assert f in functions && moved[0] == Remap(f, up) && moved[0] in moved && moved[1..] == RemapList(functions[1..], up);
      SomeWrite(functions[1..], functions, limit, order, width);
      SomeWrite(moved[1..], moved, more, order, width);
      var e :| Writes(e, f, order, width);
      var other :| Writes(other, moved[0], order, width);
      WeightGrows(e, other, f, up, limit, more, order, width);
      AlignGrows(Weight(f, order, width), Weight(moved[0], order, width));
      TotalGrows(functions[1..], up, limit, more, order, width);
    }
  }

  lemma AlignedSum(position: nat, size: nat)
    ensures AlignUp(AlignUp(position, 4) + size, 4) == AlignUp(position, 4) + AlignUp(size, 4)
  {
    hide AlignUp;
    AlignedPlus(AlignUp(position, 4), size);
  }

  lemma AlignedPlus(aligned: nat, size: nat)
    requires aligned % 4 == 0
    ensures AlignUp(aligned + size, 4) == aligned + AlignUp(size, 4)
  {
    assert (aligned + size) % 4 == size % 4;
  }

  /** A section ends within its last padding of the aligned total. */
  lemma {:induction false} SectionSize(
    es: seq<EncodedFunction>, functions: seq<Function>, limit: int, order: ByteOrder, width: nat, position: nat)
    requires es != [] && OutlineList(es, functions) && SectionFrom(es, order, width, position).Ok?
    requires forall f :: f in functions ==> FilesAtMost(f, limit)
    ensures AllWrite(functions, limit, order, width)
    ensures
      var end := position + |SectionFrom(es, order, width, position).value.1|;
      end <= AlignUp(position, 4) + Total(functions, order, width) < end + 4
    decreases |es|
  {
    hide Weight, FilesAtMost, Outline, EncodeFunction, AlignUp;
    var f := functions[0];
    var first := EncodeFunction(es[0], order, width, 0).value;
    var next := AlignUp(position, 4) + |first|;
    assert f in functions && Writes(es[0], f, order, width);
    WeightIs(es[0], f, limit, order, width);
    AlignedSum(position, |first|);
    AlignBounds(|first|);
    SectionParts(es, order, width, position);
    if |es| > 1 {
      SectionSize(es[1..], functions[1..], limit, order, width, next);
    } else {
      assert es[1..] == [] && functions[1..] == [];
    }
  }

  lemma AlignBounds(value: nat)
    ensures value <= AlignUp(value, 4) < value + 4
  {
  }

  lemma SectionParts(es: seq<EncodedFunction>, order: ByteOrder, width: nat, position: nat)
    requires es != [] && SectionFrom(es, order, width, position).Ok?
    ensures EncodeFunction(es[0], order, width, 0).Ok?
    ensures
      var next := AlignUp(position, 4) + |EncodeFunction(es[0], order, width, 0).value|;
      var rest := SectionFrom(es[1..], order, width, next);
      && rest.Ok?
      && position + |SectionFrom(es, order, width, position).value.1| == next + |rest.value.1|
  {
    hide EncodeFunction, AlignUp;
  }

  // ----------------------------------------------------------------------- file sizes

  lemma {:induction false} SectionCount(es: seq<EncodedFunction>, order: ByteOrder, width: nat, position: nat)
    requires SectionFrom(es, order, width, position).Ok?
    ensures |SectionFrom(es, order, width, position).value.0| == |es|
    decreases |es|
  {
    hide EncodeFunction, AlignUp;
    if es != [] {
      SectionParts(es, order, width, position);
      SectionCount(es[1..], order, width, AlignUp(position, 4) + |EncodeFunction(es[0], order, width, 0).value|);
    }
  }

  lemma PartSizes(c: Content, section: seq<uint8>)
    requires StartsFrom(c.functions, c.base) && |c.files| < U32_LIMIT && |c.infos| == |c.functions|
    ensures
      var parts := PartsOf(c, section);
      && |parts.addresses| == |c.functions| * c.width && |parts.infos| == |c.functions| * InfoWidth(c.version)
      && |parts.files| == FileTableSize(|c.files|, 2 * StringWidth(c.version) as nat)
      && parts.strings == c.strings && parts.functions == section
  {
    hide UintTable, WriteU32, Flatten;
    UintTableSize(c.order, Offsets(c.functions, c.base), c.width);
    UintTableSize(c.order, c.infos, InfoWidth(c.version));
    UintTableSize(c.order, Flatten(c.files), StringWidth(c.version));
    var width: nat := StringWidth(c.version);
    assert (2 * |c.files|) * width == |c.files| * (2 * width);
  }

  lemma V1BodySize(parts: Parts, n: nat, width: nat, m: nat)
    requires |parts.addresses| == n * width && |parts.infos| == n * 4 && |parts.files| == m * 8 + 4
    ensures V1_HEADER_SIZE + |V1Body(parts)| == V1StringStart(n, width, m) + |parts.strings| + |parts.functions|
  {
    hide AlignUp;
    var infoStart := AlignUp(V1_HEADER_SIZE + n * width, 4);
    MultipleOfFour(infoStart, n);
    AlignedStays(infoStart + n * 4, 4);
  }

  lemma V1Size(c: Content, buildId: seq<uint8>) returns (section: (seq<nat>, seq<uint8>))
    requires c.version == V1 && FileFits(c, buildId)
    ensures SectionFrom(c.functions, c.order, 4, V1StringStart(|c.functions|, c.width, |c.files|) + |c.strings|) == Ok(section)
    ensures |ContentBytes(c, buildId)| == V1StringStart(|c.functions|, c.width, |c.files|) + |c.strings| + |section.1|
  {
    hide SectionFrom, V1StringStart, V1File, V1Fits, StartsFrom, V2Fits, V2File;
    V1FitsParts(c, buildId);
    section := SectionFrom(c.functions, c.order, 4, V1StringStart(|c.functions|, c.width, |c.files|) + |c.strings|).value;
    V1FileSize(c, buildId, section);
  }

  lemma V1FileSize(c: Content, buildId: seq<uint8>, section: (seq<nat>, seq<uint8>))
    requires V1Width(c.width) && StartsFrom(c.functions, c.base)
    requires |buildId| <= MAX_UUID_SIZE && |c.functions| < U32_LIMIT && |c.files| < U32_LIMIT && |c.strings| < U32_LIMIT
    requires V1StringStart(|c.functions|, c.width, |c.files|) < U32_LIMIT
    requires SectionFrom(c.functions, c.order, 4, V1StringStart(|c.functions|, c.width, |c.files|) + |c.strings|) == Ok(section)
    ensures |V1File(c.order, buildId, c.base, c.width, c.files, c.strings, c.functions)|
         == V1StringStart(|c.functions|, c.width, |c.files|) + |c.strings| + |section.1|
  {
    hide SectionFrom, PartsOf, V1StringStart, V1Body, EncodeV1Header, V1File, StartsFrom, Narrowed;
    var stringStart := V1StringStart(|c.functions|, c.width, |c.files|);
    SectionCount(c.functions, c.order, 4, stringStart + |c.strings|);
    var full := Content(V1, c.order, c.base, c.width, c.functions, c.files, c.strings, Narrowed(section.0));
    NarrowedCount(section.0);
    var h := V1Header(c.width, c.base, |c.functions|, stringStart, |c.strings|, buildId);
    HeaderEncodes(h, c.order);
    V1FileIs(c, buildId, h, section, full);
    PartSizes(full, section.1);
    V1BodySize(PartsOf(full, section.1), |c.functions|, c.width, |c.files|);
  }

  lemma NarrowedCount(offsets: seq<nat>)
    ensures |Narrowed(offsets)| == |offsets|
  {
  }

  lemma V1FitsParts(c: Content, buildId: seq<uint8>)
    requires V1Width(c.width) && V1Fits(c.order, buildId, c.base, c.width, c.files, c.strings, c.functions)
    ensures |buildId| <= MAX_UUID_SIZE && |c.functions| < U32_LIMIT && |c.files| < U32_LIMIT && |c.strings| < U32_LIMIT
    ensures StartsFrom(c.functions, c.base)
    ensures
      var stringStart := V1StringStart(|c.functions|, c.width, |c.files|);
      stringStart < U32_LIMIT && SectionFrom(c.functions, c.order, 4, stringStart + |c.strings|).Ok?
  {
    hide SectionFrom, V1StringStart, StartsFrom, Offsets, Flatten;
  }

  lemma V1FileIs(c: Content, buildId: seq<uint8>, h: V1Header, section: (seq<nat>, seq<uint8>), full: Content)
    requires SectionFrom(c.functions, c.order, 4, V1StringStart(|c.functions|, c.width, |c.files|) + |c.strings|) == Ok(section)
    requires full == Content(V1, c.order, c.base, c.width, c.functions, c.files, c.strings, Narrowed(section.0))
    requires StartsFrom(c.functions, c.base) && |buildId| <= MAX_UUID_SIZE && |c.functions| < U32_LIMIT && |c.files| < U32_LIMIT
    requires |c.strings| < U32_LIMIT && V1StringStart(|c.functions|, c.width, |c.files|) < U32_LIMIT
    requires h == V1Header(c.width, c.base, |c.functions|, V1StringStart(|c.functions|, c.width, |c.files|), |c.strings|, buildId)
    requires EncodeV1Header(h, c.order).Ok?
    ensures V1File(c.order, buildId, c.base, c.width, c.files, c.strings, c.functions)
         == EncodeV1Header(h, c.order).value + V1Body(PartsOf(full, section.1))
  {
    hide SectionFrom, PartsOf, V1StringStart, V1Body, EncodeV1Header, StartsFrom, Narrowed;
  }

  /** Where the table of functions of a version two file starts, and where it ends. */
  function V2InfoStart(front: nat, width: nat, addresses: nat): nat
    requires width > 0
  {
    AlignUp(AlignUp(front, width) + addresses, 8)
  }

  function V2InfoEnd(front: nat, width: nat, addresses: nat, infos: nat): nat
    requires width > 0
  {
    AlignUp(V2InfoStart(front, width, addresses) + infos, 4)
  }

  /** Where the functions of a version two file start. */
  function V2FunctionStart(buildId: seq<uint8>, n: nat, width: nat, m: nat, strings: nat): nat
    requires width > 0
  {
    AlignUp(V2InfoEnd(DirectoryEnd(buildId) + |buildId|, width, n * width, n * 8) + (m * 16 + 4) + strings, 4)
  }

  lemma SectionsSize(front: seq<uint8>, width: nat, parts: Parts, buildId: seq<uint8>, n: nat, m: nat)
    requires width > 0 && |front| == DirectoryEnd(buildId) + |buildId|
    requires |parts.addresses| == n * width && |parts.infos| == n * 8 && |parts.files| == m * 16 + 4
    ensures |V2Sections(front, width, parts)| == V2FunctionStart(buildId, n, width, m, |parts.strings|)
  {
    hide AlignUp, DirectoryEnd;
  }

  lemma V2Size(c: Content, buildId: seq<uint8>) returns (section: (seq<nat>, seq<uint8>))
    requires c.version == V2 && FileFits(c, buildId)
    ensures SectionFrom(c.functions, c.order, 8, 0) == Ok(section)
    ensures |ContentBytes(c, buildId)|
         == V2FunctionStart(buildId, |c.functions|, c.width, |c.files|, |c.strings|) + |section.1|
  {
    hide SectionFrom, PartsOf, V2LayoutOf, V2Front, V2Sections, EncodeV2Header, Fits, StartsFrom, InOrder, DirectoryEnd, DirectoryOf, AlignUp;
    section := SectionFrom(c.functions, c.order, 8, 0).value;
    SectionCount(c.functions, c.order, 8, 0);
    var full := Content(V2, c.order, c.base, c.width, c.functions, c.files, c.strings, Narrowed(section.0));
    var parts := PartsOf(full, section.1);
    PartSizes(full, section.1);
    var h := V2Header(c.width, 0, c.base, |c.functions|);
    assert Sized(parts, |c.functions|, c.width, |c.files|, |c.strings|, |section.1|);
    PlannedFacts(h, c.order, buildId, parts, |c.files|);
    V2HeaderEncodes(h, c.order);
    var layout := V2LayoutOf(h, c.order, buildId, parts, |c.files|);
    V2FrontSize(h, c.order, buildId, layout);
    SectionsSize(V2Front(h, c.order, buildId, layout), c.width, parts, buildId, |c.functions|, |c.files|);
  }

  lemma AlignMonotone(a: nat, b: nat, small: nat, large: nat)
    requires a <= b && small > 0 && large > 0 && large % small == 0
    ensures AlignUp(a, small) <= AlignUp(b, large)
  {
    var up := AlignUp(b, large);
    assert up % small == 0 by {
      ModOfMultiple(up, small, large);
    }
    LeastAligned(a, small, up);
  }

  lemma ModOfMultiple(value: nat, small: nat, large: nat)
    requires small > 0 && large > 0 && large % small == 0 && value % large == 0
    ensures value % small == 0
  {
    var k, j := value / large, large / small;
    assert value == k * large && large == j * small;
    assert value == (k * j) * small;
    MultipleMod(k * j, small);
  }

  lemma MultipleMod(k: nat, unit: nat)
    requires unit > 0
    ensures (k * unit) % unit == 0
  {
    DivModUnique(unit, k, 0);
  }

  /** Aligning gives the least multiple at or above. */
  lemma LeastAligned(value: nat, unit: nat, multiple: nat)
    requires unit > 0 && value <= multiple && multiple % unit == 0
    ensures AlignUp(value, unit) <= multiple
  {
    hide AlignUp;
    var up := AlignUp(value, unit);
    if multiple < up {
      MultiplesApart(multiple, up, unit);
    }
  }

  lemma MultiplesApart(low: nat, high: nat, unit: nat)
    requires unit > 0 && low < high && low % unit == 0 && high % unit == 0
    ensures low + unit <= high
  {
    var p, q := low / unit, high / unit;
    assert low == unit * p && high == unit * q;
    if q <= p {
      TimesGrows(unit, unit, q, p);
    } else {
      TimesGrows(unit, unit, p + 1, q);
      assert unit * (p + 1) == unit * p + unit;
    }
  }

  lemma WidthsDivide(small: uint8, large: uint8)
    requires V1Width(small) && V1Width(large) && small <= large
    ensures large % small == 0
  {
  }

  lemma TimesGrows(n: nat, m: nat, x: nat, y: nat)
    requires n <= m && x <= y
    ensures n * x <= m * y
  {
  }

  lemma V1StartGrows(n: nat, width: uint8, m: nat, n': nat, width': uint8, m': nat)
    requires n <= n' && width <= width' && m <= m'
    ensures V1StringStart(n, width, m) <= V1StringStart(n', width', m')
  {
    hide AlignUp;
    TimesGrows(n, n', width, width');
    AlignMonotone(V1_HEADER_SIZE + n * width, V1_HEADER_SIZE + n' * width', 4, 4);
    AlignMonotone(AlignUp(V1_HEADER_SIZE + n * width, 4) + n * 4, AlignUp(V1_HEADER_SIZE + n' * width', 4) + n' * 4, 4, 4);
  }

  lemma V2InfoGrows(front: nat, width: uint8, addresses: nat, infos: nat, width': uint8, addresses': nat, infos': nat)
    requires V1Width(width) && V1Width(width') && width <= width' && addresses <= addresses' && infos <= infos'
    ensures V2InfoEnd(front, width, addresses, infos) <= V2InfoEnd(front, width', addresses', infos')
  {
    hide AlignUp, V2InfoStart;
    V2InfoStarts(front, width, addresses, width', addresses');
    AlignMonotone(V2InfoStart(front, width, addresses) + infos, V2InfoStart(front, width', addresses') + infos', 4, 4);
  }

  lemma V2InfoStarts(front: nat, width: uint8, addresses: nat, width': uint8, addresses': nat)
    requires V1Width(width) && V1Width(width') && width <= width' && addresses <= addresses'
    ensures V2InfoStart(front, width, addresses) <= V2InfoStart(front, width', addresses')
  {
    hide AlignUp;
    WidthsDivide(width, width');
    AlignMonotone(front, front, width, width');
    AlignMonotone(AlignUp(front, width) + addresses, AlignUp(front, width') + addresses', 8, 8);
  }

  lemma V2StartGrows(buildId: seq<uint8>, n: nat, width: uint8, m: nat, s: nat, n': nat, width': uint8, m': nat, s': nat)
    requires n <= n' && V1Width(width) && V1Width(width') && width <= width' && m <= m' && s <= s'
    ensures V2FunctionStart(buildId, n, width, m, s) <= V2FunctionStart(buildId, n', width', m', s')
  {
    hide AlignUp, DirectoryEnd, V2InfoEnd;
    var front := DirectoryEnd(buildId) + |buildId|;
    TimesGrows(n, n', width, width');
    var a: nat, b: nat := n * width, n' * width';
    V2InfoGrows(front, width, a, n * 8, width', b, n' * 8);
    AlignMonotone(V2InfoEnd(front, width, a, n * 8) + (m * 16 + 4) + s, V2InfoEnd(front, width', b, n' * 8) + (m' * 16 + 4) + s', 4, 4);
  }

  /** Content that is no larger in any part is no larger as a file, as long as its records
      weigh four bytes less. */
  lemma ContentGrows(c: Content, d: Content, small: seq<Function>, large: seq<Function>, limit: int, more: int, buildId: seq<uint8>)
    requires FileFits(c, buildId) && FileFits(d, buildId) && c.version == d.version && c.order == d.order
    requires c.functions != [] && d.functions != []
    requires OutlineList(c.functions, small) && OutlineList(d.functions, large)
    requires forall f :: f in small ==> FilesAtMost(f, limit)
    requires forall f :: f in large ==> FilesAtMost(f, more)
    requires |c.functions| <= |d.functions| && |c.files| <= |d.files| && c.width <= d.width && |c.strings| <= |d.strings|
    requires Total(small, c.order, StringWidth(c.version)) + 4 <= Total(large, c.order, StringWidth(c.version))
    ensures |ContentBytes(c, buildId)| <= |ContentBytes(d, buildId)|
  {
    hide V1Fits, V2Fits, ContentBytes, OutlineList, FilesAtMost, Total, V1StringStart, V2FunctionStart, AlignUp, SectionFrom;
    if c.version == V1 {
      var _ := V1Size(c, buildId);
      var _ := V1Size(d, buildId);
      V1StartGrows(|c.functions|, c.width, |c.files|, |d.functions|, d.width, |d.files|);
      var p := V1StringStart(|c.functions|, c.width, |c.files|) + |c.strings|;
      var q := V1StringStart(|d.functions|, d.width, |d.files|) + |d.strings|;
      SectionSize(c.functions, small, limit, c.order, 4, p);
      SectionSize(d.functions, large, more, c.order, 4, q);
      AlignMonotone(p, q, 4, 4);
    } else {
      var _ := V2Size(c, buildId);
      var _ := V2Size(d, buildId);
      V2StartGrows(buildId, |c.functions|, c.width, |c.files|, |c.strings|, |d.functions|, d.width, |d.files|, |d.strings|);
      SectionSize(c.functions, small, limit, c.order, 8, 0);
      SectionSize(d.functions, large, more, c.order, 8, 0);
    }
  }

  // ------------------------------------------------------------------------ models

  /** What is written for a model, and what it amounts to. */
  ghost predicate Contains(c: Content, m: DecodedGsym, version: Version, order: ByteOrder, final: seq<Function>) {
    var files := Rebuilt(m.files, m.functions).0;
    && final == Sort(FunctionLeq, CompactList(Rebuilt(m.files, m.functions).1)) && final != []
    && c.version == version && c.order == order && c.base == m.base && c.width == WidthFor(final, m.base)
    && OutlineList(c.functions, final) && |c.files| == |files|
    && |c.strings| == StoredSize({[]} + FileStrings(files) + ListStrings(final))
    && (forall f :: f in final || f in Rebuilt(m.files, m.functions).1 ==> FilesAtMost(f, |files| - 1))
  }

  lemma ModelContent(m: DecodedGsym, version: Version, order: ByteOrder) returns (c: Content, final: seq<Function>)
    requires ModelBytes(m, version, order).Ok?
    ensures Rebuildable(m.files, m.functions) && Contains(c, m, version, order, final)
    ensures FileFits(c, m.buildId) && ModelBytes(m, version, order).value == ContentBytes(c, m.buildId)
  {
    hide Rebuildable, Rebuilt, FilesAtMost, FileFits, ContentBytes, NamedFiles, NamedList, OutlineList, StoredSize, FileStrings, ListStrings, Sort,
      CompactList, WidthFor, FunctionLeq;
    var (files, functions) := Rebuilt(m.files, m.functions);
    PreservedOnlySorts(functions, m, version, order);
    final := Sort(FunctionLeq, CompactList(functions));
    c := PlannedContent(OptionsFor(m, version, order), files, final, m.base).value;
    TableSize(files, final);
    FinalFiles(functions, |files| - 1);
  }

  lemma FinalFiles(functions: seq<Function>, limit: int)
    requires forall f :: f in functions ==> FilesAtMost(f, limit)
    ensures forall f :: f in Sort(FunctionLeq, CompactList(functions)) ==> FilesAtMost(f, limit)
  {
    hide FilesAtMost, FunctionLeq, Sort, CompactList;
    RisesNowhere(limit);
    CompactListMoved(functions, [], limit);
    SortMembers(FunctionLeq, CompactList(functions));
  }

  /** The records of content that fits. */
  lemma ContentWrites(c: Content, functions: seq<Function>, limit: int, buildId: seq<uint8>)
    requires FileFits(c, buildId) && OutlineList(c.functions, functions) && functions != []
    requires forall f :: f in functions ==> FilesAtMost(f, limit)
    ensures AllWrite(functions, limit, c.order, StringWidth(c.version))
  {
    hide V1Fits, V2Fits, ContentBytes, FilesAtMost, V1StringStart, V2FunctionStart, SectionFrom, AllWrite, Outline, Total;
    if c.version == V1 {
      var _ := V1Size(c, buildId);
      SectionSize(c.functions, functions, limit, c.order, 4, V1StringStart(|c.functions|, c.width, |c.files|) + |c.strings|);
    } else {
      var _ := V2Size(c, buildId);
      SectionSize(c.functions, functions, limit, c.order, 8, 0);
    }
  }

  lemma {:induction false} ListsAppended(a: seq<Function>, b: seq<Function>, remap: seq<FileIndex>)
    ensures RemapList(a + b, remap) == RemapList(a, remap) + RemapList(b, remap)
    ensures CompactList(a + b) == CompactList(a) + CompactList(b)
    decreases |a|
  {
    hide Remap, Compact;
    if a == [] {
      assert a + b == b;
    } else {
      assert (a + b)[0] == a[0] && (a + b)[1..] == a[1..] + b;
      ListsAppended(a[1..], b, remap);
    }
  }

  lemma {:induction false} MovedLength(functions: seq<Function>, remap: seq<FileIndex>)
    ensures |RemapList(functions, remap)| == |functions|
    ensures forall i :: 0 <= i < |functions| ==> RemapList(functions, remap)[i].range == functions[i].range
    decreases |functions|
  {
    hide RemapLines, RemapOption;
    if functions != [] {
      MovedLength(functions[1..], remap);
    }
  }

  lemma WeightPositive(f: Function, limit: int, order: ByteOrder, width: nat)
    requires AllWrite([f], limit, order, width)
    ensures Weight(f, order, width) > 0
  {
    hide Outline, FilesAtMost, Weight, EncodeFunctionHeader, EncodeLinesPart, EncodeInlinePart, EncodeMergedPart, EncodeCallSitesPart;
    assert f in [f];
    var e :| Writes(e, f, order, width);
    WeightIs(e, f, limit, order, width);
  }

  lemma TotalPositive(functions: seq<Function>, limit: int, order: ByteOrder, width: nat)
    requires AllWrite(functions, limit, order, width) && functions != []
    ensures Total(functions, order, width) >= 4
  {
    hide Weight, Writes, FilesAtMost, AlignUp;
    SomeWrite([functions[0]], functions, limit, order, width);
    WeightPositive(functions[0], limit, order, width);
    AlignedPositive(Weight(functions[0], order, width));
  }

  lemma AlignedPositive(value: nat)
    requires value > 0
    ensures AlignUp(value, 4) >= 4
  {
  }

  /** One model holds the first functions of another. */
  predicate Begins(m: DecodedGsym, n: DecodedGsym) {
    m == n.(functions := m.functions) && m.functions <= n.functions
  }

  /** The files of the smaller model are in the larger one's table, in their order; its
      functions, renumbered upwards, come first there. */
  lemma FilesRaised(m: DecodedGsym, n: DecodedGsym) returns (up: seq<FileIndex>)
    requires Begins(m, n) && Distinct(n.files) && Rebuildable(m.files, m.functions)
    requires |Rebuilt(n.files, n.functions).0| <= U32_LIMIT
    ensures
      var (small, first) := Rebuilt(m.files, m.functions);
      var (large, second) := Rebuilt(n.files, n.functions);
      && |small| <= |large| && (forall file :: file in small ==> file in large)
      && Rising(up, |small| - 1) && RemapList(first, up) <= second && |second| == |n.functions| && |first| == |m.functions|
  {
    hide Distinct, AnyRefersTo, TableFrom, RemapTo, Composes, RefersTo, Admissible, Rising, Embeds, Raised;
    var used, more := UsedBy(m.files, m.functions), UsedBy(n.files, n.functions);
    MoreUsed(m, n);
    TablesEmbed(m.files, used, more, |m.files|);
    var small, large := TableFrom(m.files, used, |m.files|), TableFrom(n.files, more, |n.files|);
    EmbedsFewer(small, large);
    EmbedsMembers(small, large);
    up := Raised(small, large);
    RaisedRises(small, large);
    var first, both := RemapTo(m.files, used, small), RemapTo(n.files, more, large);
    forall f, i: FileIndex | f in m.functions && RefersTo(f, i)
      ensures Composes(i, first, up, both, |small| - 1)
    {
      UsedAt(m, f, i);
      RaisedComposes(m.files, used, more, i);
    }
    FunctionsTwice(m.functions, first, up, both, |small| - 1);
    var extra := n.functions[|m.functions|..];
    assert n.functions == m.functions + extra;
    ListsAppended(m.functions, extra, both);
    MovedLength(m.functions, first);
    MovedLength(n.functions, both);
  }

  lemma MoreUsed(m: DecodedGsym, n: DecodedGsym)
    requires Begins(m, n)
    ensures forall i :: 0 <= i < |m.files| && UsedBy(m.files, m.functions)[i] ==> UsedBy(n.files, n.functions)[i]
  {
    hide RefersTo;
    forall i: nat | AnyRefersTo(m.functions, i)
      ensures AnyRefersTo(n.functions, i)
    {
      var f :| f in m.functions && RefersTo(f, i);
      assert f in n.functions;
    }
  }

  lemma UsedAt(m: DecodedGsym, f: Function, i: FileIndex)
    requires Rebuildable(m.files, m.functions) && f in m.functions && RefersTo(f, i)
    ensures i < |m.files| && UsedBy(m.files, m.functions)[i]
  {
    hide RefersTo, Admissible;
    assert AnyRefersTo(m.functions, i);
  }

  lemma EmbedsMembers(small: seq<FileEntry>, large: seq<FileEntry>)
    requires Embeds(small, large)
    ensures forall file :: file in small ==> file in large
  {
  }

  /** Sorted by start, the last function starts last. */
  lemma LastStarts(functions: seq<Function>, f: Function)
    requires f in functions
    ensures
      var final := Sort(FunctionLeq, functions);
      final != [] && f.range.start <= final[|final| - 1].range.start
  {
    hide FunctionLeq, Sort;
    var final := Sort(FunctionLeq, functions);
    FunctionOrder();
    SortSorted(FunctionLeq, functions);
    SortMembers(FunctionLeq, functions);
    var i :| 0 <= i < |final| && final[i] == f;
    if i < |final| - 1 {
      SortedRange(f, final[|final| - 1]);
    }
  }

  lemma WidthGrows(functions: seq<Function>, up: seq<FileIndex>, more: seq<Function>, base: uint64)
    requires functions != [] && RemapList(functions, up) <= more
    ensures Sort(FunctionLeq, functions) != [] && Sort(FunctionLeq, more) != []
    ensures WidthFor(Sort(FunctionLeq, functions), base) <= WidthFor(Sort(FunctionLeq, more), base)
  {
    hide FunctionLeq, Sort, RemapList;
    var final := Sort(FunctionLeq, functions);
    SortMembers(FunctionLeq, functions);
    MovedLength(functions, up);
    var last := final[|final| - 1];
    assert last in final;
    var i :| 0 <= i < |functions| && functions[i] == last;
    assert RemapList(functions, up)[i] == more[i];
    LastStarts(more, more[i]);
  }

  lemma StringsGrow(m: DecodedGsym, n: DecodedGsym, small: seq<FileEntry>, large: seq<FileEntry>, final: seq<Function>, more: seq<Function>,
                    first: seq<FileIndex>, second: seq<FileIndex>)
    requires m.functions <= n.functions && forall file :: file in small ==> file in large
    requires final == Sort(FunctionLeq, CompactList(RemapList(m.functions, first)))
    requires more == Sort(FunctionLeq, CompactList(RemapList(n.functions, second)))
    ensures StoredSize({[]} + FileStrings(small) + ListStrings(final)) <= StoredSize({[]} + FileStrings(large) + ListStrings(more))
  {
    hide Sort, FunctionLeq, CompactList, RemapList, ListStrings, FileStrings, StoredSize;
    FileStringsGrow(small, large);
    SortedStrings(CompactList(RemapList(m.functions, first)));
    SortedStrings(CompactList(RemapList(n.functions, second)));
    ListStringsStay(m.functions, first);
    ListStringsStay(n.functions, second);
    ListStringsGrow(m.functions, n.functions);
    MoreStrings({[]} + FileStrings(small) + ListStrings(final), {[]} + FileStrings(large) + ListStrings(more));
  }

  lemma SortedStrings(functions: seq<Function>)
    ensures ListStrings(Sort(FunctionLeq, functions)) == ListStrings(functions)
  {
    hide Sort, FunctionLeq, ListStrings;
    SortMembers(FunctionLeq, functions);
    ListStringsGrow(Sort(FunctionLeq, functions), functions);
    ListStringsGrow(functions, Sort(FunctionLeq, functions));
  }

  /** The records of more functions weigh more. */
  lemma TotalsGrow(functions: seq<Function>, up: seq<FileIndex>, second: seq<Function>, limit: int, more: int, order: ByteOrder, width: nat)
    requires RemapList(functions, up) <= second && |functions| < |second| && Rising(up, limit)
    requires forall f :: f in functions ==> FilesAtMost(f, limit)
    requires AllWrite(Sort(FunctionLeq, CompactList(functions)), limit, order, width)
    requires AllWrite(Sort(FunctionLeq, CompactList(second)), more, order, width)
    ensures Total(Sort(FunctionLeq, CompactList(functions)), order, width) + 4 <= Total(Sort(FunctionLeq, CompactList(second)), order, width)
  {
    hide Sort, FunctionLeq, CompactList, RemapList, FilesAtMost, Total, Rising, AllWrite;
    MovedLength(functions, up);
    var moved := RemapList(functions, up);
    var extra := second[|moved|..];
    assert second == moved + extra;
    ListsAppended(moved, extra, []);
    CompactListMoved(functions, up, limit);
    var small, large := CompactList(functions), CompactList(second);
    assert large == RemapList(small, up) + CompactList(extra);
    SortMembers(FunctionLeq, small);
    SortMembers(FunctionLeq, large);
    TotalSorted(FunctionLeq, small, order, width);
    TotalSorted(FunctionLeq, large, order, width);
    TotalAppended(RemapList(small, up), CompactList(extra), order, width);
    SomeWrite(small, Sort(FunctionLeq, small), limit, order, width);
    SomeWrite(RemapList(small, up), Sort(FunctionLeq, large), more, order, width);
    SomeWrite(CompactList(extra), Sort(FunctionLeq, large), more, order, width);
    TotalGrows(small, up, limit, more, order, width);
    TotalPositive(CompactList(extra), more, order, width);
  }

  /** With no repeats in the file table, writing more functions takes no fewer bytes. */
  lemma ModelGrows(m: DecodedGsym, n: DecodedGsym, version: Version, order: ByteOrder)
    requires Begins(m, n) && |m.functions| < |n.functions| && Distinct(n.files)
    requires ModelBytes(m, version, order).Ok? && ModelBytes(n, version, order).Ok?
    ensures |ModelBytes(m, version, order).value| <= |ModelBytes(n, version, order).value|
  {
    hide ModelBytes, ContentBytes, FileFits, Rebuildable, Rebuilt, Distinct, Rising, OutlineList, StoredSize, FileStrings, ListStrings, Sort,
      FunctionLeq, CompactList, RemapList, FilesAtMost, WidthFor, Total, AllWrite;
    var c, final := ModelContent(m, version, order);
    var d, more := ModelContent(n, version, order);
    FitsCount(d, n.buildId);
    var (small, first) := Rebuilt(m.files, m.functions);
    var (large, second) := Rebuilt(n.files, n.functions);
    var up := FilesRaised(m, n);
    OutlineSame(c.functions, final);
    OutlineSame(d.functions, more);
    ModelStringsGrow(m, n, final, more);
    CompactPrefix(first, up, second, |small| - 1);
    WidthGrows(CompactList(first), up, CompactList(second), m.base);
    ContentWrites(c, final, |small| - 1, m.buildId);
    ContentWrites(d, more, |large| - 1, m.buildId);
    TotalsGrow(first, up, second, |small| - 1, |large| - 1, order, StringWidth(version));
    ContentGrows(c, d, final, more, |small| - 1, |large| - 1, m.buildId);
  }

  lemma FitsCount(c: Content, buildId: seq<uint8>)
    requires FileFits(c, buildId)
    ensures |c.files| < U32_LIMIT
  {
    hide SectionFrom, V1StringStart, StartsFrom, Fits;
  }

  lemma ModelStringsGrow(m: DecodedGsym, n: DecodedGsym, final: seq<Function>, more: seq<Function>)
    requires m.functions <= n.functions
    requires forall file :: file in Rebuilt(m.files, m.functions).0 ==> file in Rebuilt(n.files, n.functions).0
    requires final == Sort(FunctionLeq, CompactList(Rebuilt(m.files, m.functions).1))
    requires more == Sort(FunctionLeq, CompactList(Rebuilt(n.files, n.functions).1))
    ensures StoredSize({[]} + FileStrings(Rebuilt(m.files, m.functions).0) + ListStrings(final))
         <= StoredSize({[]} + FileStrings(Rebuilt(n.files, n.functions).0) + ListStrings(more))
  {
    hide Sort, FunctionLeq, CompactList, RemapList, ListStrings, FileStrings, StoredSize, UsedBy, TableFrom, RemapTo;
    var used, usedMore := UsedBy(m.files, m.functions), UsedBy(n.files, n.functions);
    UsedLength(m.files, m.functions);
    UsedLength(n.files, n.functions);
    var small, large := TableFrom(m.files, used, |m.files|), TableFrom(n.files, usedMore, |n.files|);
    StringsGrow(m, n, small, large, final, more, RemapTo(m.files, used, small), RemapTo(n.files, usedMore, large));
  }

  lemma UsedLength(files: seq<FileEntry>, functions: seq<Function>)
    ensures |UsedBy(files, functions)| == |files|
  {
  }

  lemma CompactPrefix(functions: seq<Function>, up: seq<FileIndex>, second: seq<Function>, limit: int)
    requires RemapList(functions, up) <= second && Rising(up, limit) && forall f :: f in functions ==> FilesAtMost(f, limit)
    ensures RemapList(CompactList(functions), up) <= CompactList(second)
  {
    hide CompactList, RemapList, FilesAtMost, Rising;
    var moved := RemapList(functions, up);
    assert second == moved + second[|moved|..];
    ListsAppended(moved, second[|moved|..], []);
    CompactListMoved(functions, up, limit);
  }
}
