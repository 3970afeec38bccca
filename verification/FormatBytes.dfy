/** The formats byte by byte: small values with the bytes that stand for them. */
module FormatBytes {
  import opened Words
  import opened Wrappers
  import opened Wire
  import opened Leb
  import opened Model
  import opened DeltaRange
  import opened Line
  import opened InlineInfo
  import opened FunctionInfo
  import opened Headers
  import opened Layout
  import opened Population
  import opened Naming

  lemma TwoBytes(value: uint8)
    ensures ToBytes(Little, value, 2) == [value, 0] && ToBytes(Big, value, 2) == [0, value]
  {
  }

  lemma FourBytes(value: uint8)
    ensures ToBytes(Little, value, 4) == [value, 0, 0, 0] && ToBytes(Big, value, 4) == [0, 0, 0, value]
  {
    TwoBytes(0);
    ByteAlone(value);
  }

  lemma ByteAlone(value: uint8)
    ensures value % 256 == value && value / 256 == 0
  {
  }

  lemma EightBytes(value: uint8)
    ensures ToBytes(Little, value, 8) == [value, 0, 0, 0, 0, 0, 0, 0]
    ensures ToBytes(Big, value, 8) == [0, 0, 0, 0, 0, 0, 0, value]
  {
    NoBytes(Little, 7);
    NoBytes(Big, 7);
    ByteAlone(value);
  }

  lemma {:induction false} NoBytes(order: ByteOrder, width: nat)
    ensures ToBytes(order, 0, width) == Zeros(width)
    decreases width
  {
    if width > 0 {
      NoBytes(order, width - 1);
    }
  }

  /** Byte order: 0x4753594d in front of both versions. */
  lemma MagicBytes()
    ensures WriteU32(Little, MAGIC) == [0x4d, 0x59, 0x53, 0x47] && WriteU32(Big, MAGIC) == [0x47, 0x53, 0x59, 0x4d]
    ensures DetectByteOrder([0x4d, 0x59, 0x53, 0x47]) == Ok(Little) && DetectByteOrder([0x47, 0x53, 0x59, 0x4d]) == Ok(Big)
  {
  }

  /** LEB128 digits, least significant first, with the high bit where more follow. */
  lemma LebBytes()
    ensures UlebBytes(0x7f) == [0x7f] && UlebBytes(0x80) == [0x80, 0x01] && UlebBytes(300) == [0xac, 0x02]
    ensures SlebBytes(63) == [0x3f] && SlebBytes(64) == [0xc0, 0x00] && SlebBytes(-2) == [0x7e] && SlebBytes(-65) == [0xbf, 0x7f]
  {
    assert UlebBytes(1) == [1] && UlebBytes(2) == [2];
    assert SlebBytes(0) == [0] && SlebBytes(-1) == [0x7f];
    assert -65 / 128 == -1 && -65 % 128 == 63;
  }

  /** The bytes that are written, if any are. */
  predicate Writes(r: Result<seq<uint8>>, bytes: seq<uint8>) {
    r.Ok? && r.value == bytes
  }

  // ---------------------------------------------------------------------- headers

  /** A version one header: magic, version, address width, size of the build ID, base
      address, number of functions, string table, and twenty bytes of build ID. */
  lemma V1HeaderBytes()
    ensures Writes(
      EncodeV1Header(V1Header(1, 0x10, 2, 0x44, 12, [0xde, 0xad, 0xbe, 0xef]), Little),
      [0x4d, 0x59, 0x53, 0x47] + [1, 0] + [1] + [4] + [0x10, 0, 0, 0, 0, 0, 0, 0] + [2, 0, 0, 0]
      + [0x44, 0, 0, 0] + [12, 0, 0, 0] + ([0xde, 0xad, 0xbe, 0xef] + Zeros(16)))
  {
    hide ToBytes;
    MagicBytes();
    TwoBytes(1);
    EightBytes(0x10);
    FourBytes(2);
    FourBytes(0x44);
    FourBytes(12);
  }

  /** A version two header: the same up to the number of functions, with an encoding in
      place of the build ID. */
  lemma V2HeaderBytes()
    ensures Writes(
      EncodeV2Header(V2Header(2, 0, 0x10, 3), Big),
      [0x47, 0x53, 0x59, 0x4d] + [0, 2] + [2] + [0] + [0, 0, 0, 0, 0, 0, 0, 0x10] + [0, 0, 0, 3])
  {
    hide ToBytes;
    MagicBytes();
    TwoBytes(2);
    EightBytes(0x10);
    FourBytes(3);
  }

  /** A directory entry is kind, offset and size; the kinds are numbered from one. */
  lemma SectionBytes(offset: uint8, size: uint8)
    ensures EncodeSection(Section(GLOBAL_FILES, offset, size), Little)
      == [4, 0, 0, 0] + [offset, 0, 0, 0, 0, 0, 0, 0] + [size, 0, 0, 0, 0, 0, 0, 0]
    ensures GLOBAL_END == 0 && GLOBAL_ADDRESSES == 1 && GLOBAL_INFOS == 2 && GLOBAL_STRINGS == 3 && GLOBAL_FUNCTIONS == 5 && GLOBAL_UUID == 6
  {
    hide ToBytes;
    FourBytes(4);
    EightBytes(offset);
    EightBytes(size);
  }

  // ---------------------------------------------------------------- function records

  const RANGE := AddressRange(0x40, 0x50)
  const ROWS := [LineEntry(0x40, 1, 10), LineEntry(0x44, 2, 12)]

  lemma SmallLeb()
    ensures forall value: nat :: value < 128 ==> UlebBytes(value) == [value]
    ensures forall value: nat :: value < 64 ==> SlebBytes(value) == [value]
  {
  }

  lemma RowsWindow()
    ensures ChosenWindow(ROWS) == Window(0, 2)
  {
    assert ROWS[1..] == [ROWS[1]] && Deltas(ROWS[1..]) == [];
    assert Deltas(ROWS) == [2];
    assert [2 as int64][1..] == [] && Top([], 2) == 2;
    assert BestStart([2], [2]) == 2 && Top([2], 2) == 2;
  }

  lemma RowsOneByOne()
    ensures
      var w := Window(0, 2);
      && Writes(RowBytes(w, 0x40, LineEntry(0x40, 1, 10), ROWS[0]), [4])
      && Writes(RowBytes(w, 0x40, ROWS[0], ROWS[1]), [1, 2] + [18])
  {
    SmallLeb();
  }

  /** A line program: window, first line, a special opcode for the first row, the new file
      and a special opcode for the second, the end. */
  lemma LineProgramBytes()
    ensures Writes(EncodeRows(ROWS, 0x40), [0] + [2] + [10] + ([4] + ([1, 2] + [18] + [0])))
  {
    hide ChosenWindow, RowBytes;
    RowsWindow();
    RowsOneByOne();
    SmallLeb();
    var w := Window(0, 2);
    assert ROWS[1..] == [ROWS[1]] && ROWS[1..][1..] == [];
    assert RowsBytes(w, 0x40, ROWS[1], []) == Ok([0]);
    assert Writes(RowsBytes(w, 0x40, ROWS[0], ROWS[1..]), [1, 2] + [18] + [0]);
  }

  lemma OneRange(range: AddressRange)
    requires 0x40 <= range.start <= range.end < 0x80
    ensures Writes(EncodeRanges([range], 0x40), [1] + ([range.start - 0x40] + [range.end - range.start] + []))
  {
    SmallLeb();
    assert [range][1..] == [] && EncodeRangeList([], 0x40, range.end) == Ok([]);
  }

  lemma NodeHeader(node: EncodedInlineNode)
    requires node.name < 128 && node.callFile < 128 && node.callLine < 128
    ensures Writes(EncodeHeader(HeaderOf(node), Little, 4),
                   [if node.children != [] then 1 else 0] + [node.name, 0, 0, 0] + [node.callFile] + [node.callLine])
  {
    hide ToBytes;
    SmallLeb();
    FourBytes(node.name);
    ExpWidths();
  }

  const CHILD := EncodedInlineNode([AddressRange(0x42, 0x43)], 9, 2, 6, [])

  lemma ChildBytes(depth: nat)
    requires depth <= MAX_INLINE_DEPTH
    ensures Writes(EncodeInline(CHILD, Little, 4, 0x40, depth), [1] + ([2] + [1] + []) + ([0] + [9, 0, 0, 0] + [2] + [6]))
  {
    hide EncodeRanges, EncodeHeader;
    OneRange(AddressRange(0x42, 0x43));
    NodeHeader(CHILD);
  }

  /** An inline node: number of ranges, each by its distance from the base and its size,
      whether children follow, name, call file and call line; children up to an empty one. */
  lemma InlineBytes()
    ensures Writes(
      EncodeInline(EncodedInlineNode([RANGE], 7, 3, 5, [CHILD]), Little, 4, 0x40, 0),
      [1] + ([0] + [16] + []) + ([1] + [7, 0, 0, 0] + [3] + [5])
      + ([1] + ([2] + [1] + []) + ([0] + [9, 0, 0, 0] + [2] + [6]) + [0]))
  {
    hide EncodeRanges, EncodeHeader;
    var root := EncodedInlineNode([RANGE], 7, 3, 5, [CHILD]);
    OneRange(RANGE);
    NodeHeader(root);
    ChildBytes(1);
    assert RANGE in [RANGE] && RANGE.ContainsRange(AddressRange(0x42, 0x43));
    assert [CHILD][1..] == [] && EncodeChildren([], Little, 4, [RANGE], 1) == Ok(UlebBytes(0));
    SmallLeb();
  }

  lemma OffsetBytes(offset: uint8)
    ensures Writes(EncodeOffsets([offset], Little, 4), [offset, 0, 0, 0] + [])
  {
    hide ToBytes;
    FourBytes(offset);
    ExpWidths();
    assert [offset as uint64][1..] == [];
  }

  const SITE := EncodedCallSite(4, 1, [9])

  /** A call site: return offset, flags, and its patterns by number and offset. */
  lemma CallSiteBytes()
    ensures Writes(
      EncodeCallSites([SITE], Little, 4),
      [1, 0, 0, 0] + ([4, 0, 0, 0, 0, 0, 0, 0] + [1] + [1, 0, 0, 0] + ([9, 0, 0, 0] + []) + []))
  {
    hide ToBytes, EncodeOffsets;
    FourBytes(1);
    EightBytes(4);
    OffsetBytes(9);
    assert Writes(EncodeCallSite(SITE, Little, 4), [4, 0, 0, 0, 0, 0, 0, 0] + [1] + [1, 0, 0, 0] + ([9, 0, 0, 0] + []));
    assert [SITE][1..] == [] && EncodeCallSiteList([], Little, 4) == Ok([]);
  }

  const PLAIN := EncodedFunction(AddressRange(0x40, 0x48), 2, None, None, [], [])

  lemma HeaderBytes(f: EncodedFunction)
    requires f.range.start <= f.range.end < f.range.start + 128 && 0 < f.name < 128
    ensures Writes(EncodeFunctionHeader(f, Little, 4), [f.range.end - f.range.start, 0, 0, 0] + [f.name, 0, 0, 0])
  {
    hide ToBytes;
    FourBytes(f.range.end - f.range.start);
    FourBytes(f.name);
    ExpWidths();
  }

  lemma EndBytes()
    ensures EndMarker(Little) == [0, 0, 0, 0] + [0, 0, 0, 0]
  {
    hide ToBytes;
    FourBytes(0);
  }

  /** A plain function: size, name and the end marker. */
  lemma PlainBytes()
    ensures Writes(EncodeFunction(PLAIN, Little, 4, 1), [8, 0, 0, 0] + [2, 0, 0, 0] + ([0, 0, 0, 0] + [0, 0, 0, 0]))
  {
    hide EncodeFunctionHeader, EndMarker;
    HeaderBytes(PLAIN);
    EndBytes();
  }

  lemma RecordBytes(kind: uint32, code: uint8, payload: seq<uint8>)
    requires kind == code && |payload| < 256
    ensures Writes(EncodeRecord(kind, payload, Little), [code, 0, 0, 0] + [|payload|, 0, 0, 0] + payload)
  {
    hide ToBytes;
    FourBytes(code);
    FourBytes(|payload|);
  }

  lemma MergedBytes(f: EncodedFunction)
    requires f.range == RANGE && f.merged == [PLAIN]
    ensures Writes(
      EncodeMergedPart(f, Little, 4, 0),
      [3, 0, 0, 0] + [24, 0, 0, 0]
      + ([1, 0, 0, 0] + ([16, 0, 0, 0] + ([8, 0, 0, 0] + [2, 0, 0, 0] + ([0, 0, 0, 0] + [0, 0, 0, 0])) + [])))
  {
    hide ToBytes, EncodeFunction, EncodeRecord;
    PlainBytes();
    FourBytes(1);
    FourBytes(16);
    assert f.merged[1..] == [] && EncodeMergedList([], Little, 4, 0x40, 1) == Ok([]);
    RecordBytes(INFO_MERGED, 3, [1, 0, 0, 0] + ([16, 0, 0, 0] + ([8, 0, 0, 0] + [2, 0, 0, 0] + ([0, 0, 0, 0] + [0, 0, 0, 0])) + []));
  }

  /** Records are kind, length and payload: lines are 1, the inline tree 2, merged functions 3
      and call sites 4, in this order; merged functions follow their number, each after its
      length. */
  lemma FunctionBytes()
    ensures
      var f := EncodedFunction(RANGE, 1, Some(ROWS), Some(CHILD), [PLAIN], [SITE]);
      var lines := [0] + [2] + [10] + ([4] + ([1, 2] + [18] + [0]));
      var inline := [1] + ([2] + [1] + []) + ([0] + [9, 0, 0, 0] + [2] + [6]);
      var plain := [8, 0, 0, 0] + [2, 0, 0, 0] + ([0, 0, 0, 0] + [0, 0, 0, 0]);
      var sites := [1, 0, 0, 0] + ([4, 0, 0, 0, 0, 0, 0, 0] + [1] + [1, 0, 0, 0] + ([9, 0, 0, 0] + []) + []);
      Writes(
        EncodeFunction(f, Little, 4, 0),
        [16, 0, 0, 0] + [1, 0, 0, 0]
        + ([1, 0, 0, 0] + [8, 0, 0, 0] + lines) + ([2, 0, 0, 0] + [10, 0, 0, 0] + inline)
        + ([3, 0, 0, 0] + [24, 0, 0, 0] + ([1, 0, 0, 0] + ([16, 0, 0, 0] + plain + [])))
        + ([4, 0, 0, 0] + [21, 0, 0, 0] + sites) + ([0, 0, 0, 0] + [0, 0, 0, 0]))
  {
    hide ToBytes, EncodeRows, EncodeInline, EncodeCallSites, EncodeMergedPart, EncodeFunctionHeader, EncodeRecord, EndMarker;
    var f := EncodedFunction(RANGE, 1, Some(ROWS), Some(CHILD), [PLAIN], [SITE]);
    LineProgramBytes();
    ChildBytes(0);
    CallSiteBytes();
    MergedBytes(f);
    HeaderBytes(f);
    RecordBytes(INFO_LINE_TABLE, 1, [0] + [2] + [10] + ([4] + ([1, 2] + [18] + [0])));
    RecordBytes(INFO_INLINE, 2, [1] + ([2] + [1] + []) + ([0] + [9, 0, 0, 0] + [2] + [6]));
    RecordBytes(INFO_CALL_SITE, 4,
                [1, 0, 0, 0] + ([4, 0, 0, 0, 0, 0, 0, 0] + [1] + [1, 0, 0, 0] + ([9, 0, 0, 0] + []) + []));
    EndBytes();
  }

  // ----------------------------------------------------------------------- the cache

  /** A failure record: `GSNF`, a version, the kind, two reserved bytes and the seconds. */
  lemma FailureBytes(seconds: uint8)
    ensures EncodeFailure(TransientIo, seconds)
      == [0x47, 0x53, 0x4e, 0x46, 1] + [4] + [0, 0] + [seconds, 0, 0, 0, 0, 0, 0, 0]
    ensures Code(MissingInput) == 1 && Code(UnsupportedInput) == 2 && Code(MalformedInput) == 3 && Code(ResourceExhausted) == 5
  {
    hide ToBytes;
    EightBytes(seconds);
  }

  /** The first byte of a build ID names the directory, the others the file. */
  lemma NameBytes()
    ensures KeyedName([0xde, 0xad, 0x0b], [0x2e, 0x78]) == [0x64, 0x65, 0x2f, 0x61, 0x64, 0x30, 0x62, 0x2e, 0x78]
  {
    assert [0xde as uint8, 0xad, 0x0b][1..] == [0xad, 0x0b] && [0xad as uint8, 0x0b][1..] == [0x0b] && [0x0b as uint8][1..] == [];
    assert Hex([0x0b]) == [0x30, 0x62];
    assert Hex([0xad, 0x0b]) == [0x61, 0x64] + [0x30, 0x62];
  }

  lemma MixedLetters()
    ensures Mix(0xcbf2_9ce4_8422_2325, 0x66) == 0xaf63_db4c_8601_ead9
    ensures Mix(0xaf63_db4c_8601_ead9, 0x6f) == 0x0898_5907_b541_d342
  {
  }

  /** A published vector of the 64-bit FNV-1a hash, for "fo". */
  lemma HashBytes()
    ensures HashFrom(FNV_OFFSET, [0x66, 0x6f]) == 0x0898_5907_b541_d342
  {
    hide Mix;
    MixedLetters();
    assert [0x66 as uint8, 0x6f][1..] == [0x6f] && [0x6f as uint8][1..] == [];
  }

  lemma FoldedBytes()
    ensures (0x0898_5907_b541_d342 ^ (0x0898_5907_b541_d342 >> 32)) & 0x0fff == 0xa45 as bv64
  {
  }

  /** The slot folds the hash in half and keeps twelve bits. */
  lemma SlotBytes()
    ensures LockSlot([0x66, 0x6f]) == 0xa45
  {
    hide HashFrom;
    HashBytes();
    FoldedBytes();
  }
}
