/** Which bytes the decoders accept, and as what: src/format/v1.rs, src/format/v2.rs and
    src/format/function.rs.  Each decoder is compared with the bytes written out, in both
    directions. */
module AcceptedBytes {
  import opened Words
  import opened Wrappers
  import opened Wire
  import opened Model
  import opened Line
  import opened InlineInfo
  import opened FunctionInfo
  import opened Headers

  lemma UintIs(order: ByteOrder, width: nat, s: seq<uint8>)
    requires 1 <= width <= 8 && |s| >= width
    ensures var Step(value, rest) := ReadUint(order, width, s).value; s == ToBytes(order, value, width) + rest && rest == s[width..]
  {
    ToFromBytes(order, s[..width]);
    assert s == s[..width] + s[width..];
  }

  lemma U32Is(order: ByteOrder, s: seq<uint8>)
    ensures ReadU32(order, s).Ok? ==> var Step(value, rest) := ReadU32(order, s).value; s == WriteU32(order, value) + rest
  {
    if |s| >= 4 {
      UintIs(order, 4, s);
    }
  }

  lemma U64Is(order: ByteOrder, s: seq<uint8>)
    ensures ReadU64(order, s).Ok? ==> var Step(value, rest) := ReadU64(order, s).value; s == WriteU64(order, value) + rest
  {
    if |s| >= 8 {
      UintIs(order, 8, s);
    }
  }

  lemma U16Is(order: ByteOrder, s: seq<uint8>)
    ensures ReadU16(order, s).Ok? ==> var Step(value, rest) := ReadU16(order, s).value; s == WriteU16(order, value) + rest
  {
    if |s| >= 2 {
      UintIs(order, 2, s);
    }
  }

  // -------------------------------------------------------------------------- headers

  lemma MagicIs(data: seq<uint8>, order: ByteOrder, version: uint16)
    requires DetectByteOrder(data) == Ok(order)
    ensures DecodeMagic(data, order, version).Ok? ==>
      data == WriteU32(order, MAGIC) + (WriteU16(order, version) + DecodeMagic(data, order, version).value)
  {
    hide ReadU32, ReadU16, WriteU32, WriteU16, DetectByteOrder;
    U32Is(order, data);
    if ReadU32(order, data).Ok? {
      U16Is(order, ReadU32(order, data).value.rest);
    }
  }

  lemma OneByte(s: seq<uint8>)
    ensures ReadU8(s).Ok? ==> s == [ReadU8(s).value.value] + ReadU8(s).value.rest
  {
  }

  lemma PrefixJoins(
    order: ByteOrder, version: uint16, width: uint8, extra: uint8, base: uint64, count: uint32, rest: seq<uint8>)
    ensures WriteU32(order, MAGIC) + (WriteU16(order, version) + ([width] + ([extra] + (WriteU64(order, base) + (WriteU32(order, count) + rest)))))
         == Prefix(order, version, width, extra, base, count) + rest
  {
    hide WriteU16, WriteU32, WriteU64;
  }

  lemma V2BodyIs(s: seq<uint8>, order: ByteOrder)
    requires DecodeV2Body(s, order).Ok?
    ensures
      var Step(h, rest) := DecodeV2Body(s, order).value;
      && EncodeV2Header(h, order).Ok?
      && s == [h.width] + ([h.encoding] + (WriteU64(order, h.base) + (WriteU32(order, h.count) + rest)))
  {
    hide ReadU32, ReadU64, WriteU32, WriteU64, Prefix;
    OneByte(s);
    var s1 := ReadU8(s).value.rest;
    OneByte(s1);
    var s2 := ReadU8(s1).value.rest;
    U64Is(order, s2);
    U32Is(order, ReadU64(order, s2).value.rest);
  }

  /** A version two header is accepted exactly when the file starts with its bytes. */
  lemma V2HeaderIsExact(data: seq<uint8>, h: V2Header, order: ByteOrder)
    ensures DecodeV2Header(data) == Ok((h, order))
       <==> EncodeV2Header(h, order).Ok? && V2_HEADER_SIZE <= |data| && data[..V2_HEADER_SIZE] == EncodeV2Header(h, order).value
  {
    hide DetectByteOrder, DecodeMagic, DecodeV2Body, EncodeV2Header;
    if DecodeV2Header(data) == Ok((h, order)) {
      MagicIs(data, order, 2);
      var s := DecodeMagic(data, order, 2).value;
      V2BodyIs(s, order);
      var rest := DecodeV2Body(s, order).value.rest;
      PrefixJoins(order, 2, h.width, h.encoding, h.base, h.count, rest);
      V2BytesAre(h, order);
    }
    if EncodeV2Header(h, order).Ok? && V2_HEADER_SIZE <= |data| && data[..V2_HEADER_SIZE] == EncodeV2Header(h, order).value {
      V2HeaderRoundTrip(h, order, data[V2_HEADER_SIZE..]);
      assert data == data[..V2_HEADER_SIZE] + data[V2_HEADER_SIZE..];
    }
  }

  lemma V2BytesAre(h: V2Header, order: ByteOrder)
    ensures EncodeV2Header(h, order).Ok? ==> EncodeV2Header(h, order).value == Prefix(order, 2, h.width, h.encoding, h.base, h.count)
  {
    hide Prefix;
  }

  /** The part of a version one header that counts: everything but the unused end of the
      build ID's storage. */
  function V1Front(h: V1Header, order: ByteOrder): seq<uint8>
    requires |h.uuid| <= MAX_UUID_SIZE
  {
    Prefix(order, 1, h.width, |h.uuid|, h.base, h.count) + (WriteU32(order, h.stringOffset) + (WriteU32(order, h.stringSize) + h.uuid))
  }

  lemma FrontSize(h: V1Header, order: ByteOrder)
    requires |h.uuid| <= MAX_UUID_SIZE
    ensures |V1Front(h, order)| == UUID_OFFSET + |h.uuid|
  {
    hide Prefix, WriteU32;
  }

  lemma V1BodyIs(s: seq<uint8>, order: ByteOrder) returns (after: seq<uint8>)
    requires DecodeV1Body(s, order).Ok?
    ensures
      var h := DecodeV1Body(s, order).value.value;
      && V1Width(h.width) && |h.uuid| <= MAX_UUID_SIZE <= |h.uuid| + |after|
      && s == [h.width] + ([|h.uuid|] + (WriteU64(order, h.base) + (WriteU32(order, h.count)
                + (WriteU32(order, h.stringOffset) + (WriteU32(order, h.stringSize) + (h.uuid + after))))))
  {
    hide ReadU32, ReadU64, WriteU32, WriteU64;
    OneByte(s);
    var s1 := ReadU8(s).value.rest;
    OneByte(s1);
    var s2 := ReadU8(s1).value.rest;
    U64Is(order, s2);
    var s3 := ReadU64(order, s2).value.rest;
    U32Is(order, s3);
    var s4 := ReadU32(order, s3).value.rest;
    U32Is(order, s4);
    var s5 := ReadU32(order, s4).value.rest;
    U32Is(order, s5);
    var s6 := ReadU32(order, s5).value.rest;
    var size := s1[0];
    after := s6[size..];
    StorageIs(s6, size);
  }

  lemma StorageIs(s: seq<uint8>, size: nat)
    requires size <= MAX_UUID_SIZE <= |s|
    ensures s == s[..MAX_UUID_SIZE][..size] + s[size..]
  {
    assert s[..MAX_UUID_SIZE][..size] == s[..size];
    assert s == s[..size] + s[size..];
  }

  lemma V1Joins(h: V1Header, order: ByteOrder, after: seq<uint8>)
    requires |h.uuid| <= MAX_UUID_SIZE
    ensures V1Front(h, order) + after
         == Prefix(order, 1, h.width, |h.uuid|, h.base, h.count)
            + (WriteU32(order, h.stringOffset) + (WriteU32(order, h.stringSize) + (h.uuid + after)))
  {
    hide WriteU32, Prefix;
  }

  lemma V1Reads(h: V1Header, order: ByteOrder, after: seq<uint8>)
    requires V1Width(h.width) && |h.uuid| <= MAX_UUID_SIZE <= |h.uuid| + |after|
    ensures DecodeV1Header(V1Front(h, order) + after) == Ok((h, order))
  {
    hide DetectByteOrder, DecodeMagic, Prefix, ReadU32, ReadU64, WriteU32, WriteU64, V1Front;
    var offset, size, uuid := WriteU32(order, h.stringOffset), WriteU32(order, h.stringSize), h.uuid + after;
    V1Joins(h, order, after);
    PrefixReads(order, 1, h.width, |h.uuid|, h.base, h.count, offset + (size + uuid));
    ReadWriteU32(order, h.stringOffset, size + uuid);
    ReadWriteU32(order, h.stringSize, uuid);
    assert uuid[..MAX_UUID_SIZE][..|h.uuid|] == h.uuid;
  }

  /** A version one header is accepted exactly when the file starts with its fields and
      has room for the rest of the build ID's storage. */
  lemma V1HeaderIsExact(data: seq<uint8>, h: V1Header, order: ByteOrder)
    ensures DecodeV1Header(data) == Ok((h, order))
       <==> && V1Width(h.width) && |h.uuid| <= MAX_UUID_SIZE && V1_HEADER_SIZE <= |data|
            && data[..UUID_OFFSET + |h.uuid|] == V1Front(h, order)
  {
    hide DetectByteOrder, DecodeMagic, DecodeV1Body, V1Front, Prefix;
    if DecodeV1Header(data) == Ok((h, order)) {
      MagicIs(data, order, 1);
      var s := DecodeMagic(data, order, 1).value;
      var after := V1BodyIs(s, order);
      PrefixJoins(order, 1, h.width, |h.uuid|, h.base, h.count,
                  WriteU32(order, h.stringOffset) + (WriteU32(order, h.stringSize) + (h.uuid + after)));
      V1Joins(h, order, after);
      FrontSize(h, order);
      assert data == V1Front(h, order) + after;
    }
    if V1Width(h.width) && |h.uuid| <= MAX_UUID_SIZE && V1_HEADER_SIZE <= |data| && data[..UUID_OFFSET + |h.uuid|] == V1Front(h, order) {
      var after := data[UUID_OFFSET + |h.uuid|..];
      assert data == data[..UUID_OFFSET + |h.uuid|] + after;
      V1Reads(h, order, after);
    }
  }

  // --------------------------------------------------------------------------- records

  function RecordBytes(record: Record, order: ByteOrder): seq<uint8> {
    ToBytes(order, record.kind, 4) + (ToBytes(order, |record.payload|, 4) + record.payload)
  }

  /** The records one after the other, and the end marker. */
  function StreamBytes(records: seq<Record>, order: ByteOrder): seq<uint8> {
    if records == [] then EndMarker(order) else RecordBytes(records[0], order) + StreamBytes(records[1..], order)
  }

  /** Every record of a known kind, none of them twice, and none already seen. */
  predicate KindsApart(records: seq<Record>, seen: set<uint32>) {
    && (forall r :: r in records ==> 1 <= r.kind <= 4 && r.kind !in seen && |r.payload| < U32_LIMIT)
    && (forall i, j :: 0 <= i < j < |records| ==> records[i].kind != records[j].kind)
  }

  /** What the record says is what the function holds. */
  predicate Filled(record: Record, order: ByteOrder, width: nat, depth: nat, f: EncodedFunction)
    requires ValidStringWidth(width)
  {
    if record.kind == 1 then f.lines.Some? && DecodeRows(record.payload, f.range.start) == Ok(f.lines.value)
    else if record.kind == 2 then
      f.inline.Some? && DecodeInlinePayload(record.payload, order, width, f.range.start) == Ok(f.inline.value)
    else if record.kind == 3 then DecodeMerged(record.payload, order, width, f.range.start, depth + 1) == Ok(f.merged)
    else record.kind == 4 && DecodeCallSites(record.payload, order, width) == Ok(f.callSites)
  }

  predicate SameField(kind: uint32, g: EncodedFunction, f: EncodedFunction) {
    && (kind == 1 ==> f.lines == g.lines)
    && (kind == 2 ==> f.inline == g.inline)
    && (kind == 3 ==> f.merged == g.merged)
    && (kind == 4 ==> f.callSites == g.callSites)
  }

  /** `f` is `g` with what the records say, and nothing else changed. */
  predicate Fills(records: seq<Record>, order: ByteOrder, width: nat, depth: nat, g: EncodedFunction, f: EncodedFunction)
    requires ValidStringWidth(width)
  {
    && f.range == g.range && f.name == g.name
    && (forall r :: r in records ==> Filled(r, order, width, depth, f))
    && (forall kind: uint32 :: 1 <= kind <= 4 && (forall r :: r in records ==> r.kind != kind) ==> SameField(kind, g, f))
  }

  /** `f` with one field taken over. */
  function Taking(kind: uint32, g: EncodedFunction, f: EncodedFunction): EncodedFunction {
    if kind == 1 then g.(lines := f.lines)
    else if kind == 2 then g.(inline := f.inline)
    else if kind == 3 then g.(merged := f.merged)
    else g.(callSites := f.callSites)
  }

  lemma Joins(a: seq<uint8>, b: seq<uint8>, c: seq<uint8>, rest: seq<uint8>)
    ensures a + (b + (c + rest)) == a + (b + c) + rest
  {
  }

  lemma RecordIs(s: seq<uint8>, order: ByteOrder)
    requires NextRecord(s, order).Ok?
    ensures
      var Step(next, rest) := NextRecord(s, order).value;
      match next
      case None => s == EndMarker(order) + rest
      case Some(record) => record.kind != 0 && |record.payload| < U32_LIMIT && s == RecordBytes(record, order) + rest
  {
    hide ReadU32, ToBytes, RecordBytes, EndMarker;
    U32Is(order, s);
    var s1 := ReadU32(order, s).value.rest;
    U32Is(order, s1);
    var kind, length: nat, s2 := ReadU32(order, s).value.value, ReadU32(order, s1).value.value, ReadU32(order, s1).value.rest;
    if kind == INFO_END {
      MarkerIs(order, s2);
    } else {
      TakenIs(s2, length);
      RecordJoins(Record(kind, s2[..length]), order, s2[length..]);
    }
  }

  lemma TakenIs(s: seq<uint8>, length: nat)
    requires length <= |s|
    ensures s == s[..length] + s[length..] && |s[..length]| == length
  {
  }

  lemma MarkerIs(order: ByteOrder, rest: seq<uint8>)
    ensures WriteU32(order, 0) + (WriteU32(order, 0) + rest) == EndMarker(order) + rest
  {
    hide ToBytes;
  }

  lemma RecordJoins(record: Record, order: ByteOrder, rest: seq<uint8>)
    requires |record.payload| < U32_LIMIT
    ensures WriteU32(order, record.kind) + (WriteU32(order, |record.payload|) + (record.payload + rest)) == RecordBytes(record, order) + rest
  {
    hide ToBytes;
    Joins(WriteU32(order, record.kind), WriteU32(order, |record.payload|), record.payload, rest);
  }

  lemma RecordReads(record: Record, order: ByteOrder, rest: seq<uint8>)
    requires record.kind != 0 && |record.payload| < U32_LIMIT
    ensures NextRecord(RecordBytes(record, order) + rest, order) == Ok(Step(Some(record), rest))
  {
    hide ReadU32, ToBytes;
    var kind, length := WriteU32(order, record.kind), WriteU32(order, |record.payload|);
    RecordJoins(record, order, rest);
    ReadWriteU32(order, record.kind, length + (record.payload + rest));
    ReadWriteU32(order, |record.payload|, record.payload + rest);
    assert (record.payload + rest)[..|record.payload|] == record.payload;
    assert (record.payload + rest)[|record.payload|..] == rest;
  }

  /** Decoding one record takes over its field. */
  lemma DecodedRecord(record: Record, order: ByteOrder, width: nat, depth: nat, g: EncodedFunction)
    requires ValidStringWidth(width) && DecodeRecord(record, order, width, depth, g).Ok?
    ensures
      var f := DecodeRecord(record, order, width, depth, g).value;
      1 <= record.kind <= 4 && f == Taking(record.kind, g, f) && Filled(record, order, width, depth, f)
  {
    hide DecodeRows, DecodeInlinePayload, DecodeMerged, DecodeCallSites;
  }

  lemma FilledRecord(record: Record, order: ByteOrder, width: nat, depth: nat, g: EncodedFunction, f: EncodedFunction)
    requires ValidStringWidth(width) && Filled(record, order, width, depth, f) && g.range == f.range
    ensures DecodeRecord(record, order, width, depth, g) == Ok(Taking(record.kind, g, f))
  {
    hide DecodeRows, DecodeInlinePayload, DecodeMerged, DecodeCallSites;
  }

  lemma FilledAlike(record: Record, order: ByteOrder, width: nat, depth: nat, h: EncodedFunction, f: EncodedFunction)
    requires ValidStringWidth(width) && Filled(record, order, width, depth, h) && h.range == f.range && SameField(record.kind, h, f)
    ensures Filled(record, order, width, depth, f)
  {
    hide DecodeRows, DecodeInlinePayload, DecodeMerged, DecodeCallSites;
  }

  /** What is left of a record to take over, kind by kind. */
  lemma TakingElsewhere(kind: uint32, other: uint32, g: EncodedFunction, f: EncodedFunction)
    requires kind != other && 1 <= kind <= 4
    ensures SameField(other, g, Taking(kind, g, f)) && SameField(kind, Taking(kind, g, f), f)
  {
  }

  lemma SameFieldChain(kind: uint32, g: EncodedFunction, h: EncodedFunction, f: EncodedFunction)
    requires SameField(kind, g, h) && SameField(kind, h, f)
    ensures SameField(kind, g, f)
  {
  }

  lemma FillsMore(
    record: Record, records: seq<Record>, order: ByteOrder, width: nat, depth: nat, g: EncodedFunction, h: EncodedFunction, f: EncodedFunction)
    requires ValidStringWidth(width) && 1 <= record.kind <= 4 && Filled(record, order, width, depth, h) && h == Taking(record.kind, g, h)
    requires h.range == g.range && h.name == g.name
    requires Fills(records, order, width, depth, h, f) && forall r :: r in records ==> r.kind != record.kind
    ensures Fills([record] + records, order, width, depth, g, f)
  {
    hide Filled, Taking, SameField;
    var all := [record] + records;
    FilledAlike(record, order, width, depth, h, f);
    forall kind: uint32 | 1 <= kind <= 4 && (forall r :: r in all ==> r.kind != kind)
      ensures SameField(kind, g, f)
    {
      assert record in all;
      assert forall r :: r in records ==> r in all;
      TakingElsewhere(record.kind, kind, g, h);
      SameFieldChain(kind, g, h, f);
    }
  }

  lemma FillsLess(
    record: Record, records: seq<Record>, order: ByteOrder, width: nat, depth: nat, g: EncodedFunction, f: EncodedFunction)
    requires ValidStringWidth(width) && 1 <= record.kind <= 4 && Fills([record] + records, order, width, depth, g, f)
    requires Taking(record.kind, g, f).range == g.range && Taking(record.kind, g, f).name == g.name
    ensures Filled(record, order, width, depth, f) && Fills(records, order, width, depth, Taking(record.kind, g, f), f)
  {
    hide Filled, Taking, SameField;
    var all, h := [record] + records, Taking(record.kind, g, f);
    assert record in all;
    assert forall r :: r in records ==> r in all;
    forall kind: uint32 | 1 <= kind <= 4 && (forall r :: r in records ==> r.kind != kind)
      ensures SameField(kind, h, f)
    {
      if kind == record.kind {
        TakingItself(kind, g, f);
      } else {
        assert SameField(kind, g, f);
        TakingAnother(record.kind, kind, g, f);
      }
    }
  }

  lemma TakingItself(kind: uint32, g: EncodedFunction, f: EncodedFunction)
    requires 1 <= kind <= 4
    ensures SameField(kind, Taking(kind, g, f), f)
  {
  }

  lemma TakingAnother(kind: uint32, other: uint32, g: EncodedFunction, f: EncodedFunction)
    requires kind != other && 1 <= kind <= 4 && SameField(other, g, f)
    ensures SameField(other, Taking(kind, g, f), f)
  {
  }

  lemma TakingKeeps(kind: uint32, g: EncodedFunction, f: EncodedFunction)
    ensures Taking(kind, g, f).range == g.range && Taking(kind, g, f).name == g.name
  {
  }

  lemma NothingFilled(order: ByteOrder, width: nat, depth: nat, g: EncodedFunction, f: EncodedFunction)
    requires ValidStringWidth(width)
    ensures Fills([], order, width, depth, g, f) <==> f == g
  {
    hide Filled;
    var none: seq<Record> := [];
    if Fills(none, order, width, depth, g, f) {
      assert SameField(1, g, f) && SameField(2, g, f) && SameField(3, g, f) && SameField(4, g, f);
    }
  }

  lemma Observed(kind: uint32, seen: set<uint32>)
    requires 1 <= kind <= 4
    ensures Observe(kind, seen).Ok? <==> kind !in seen
    ensures kind !in seen ==> Observe(kind, seen) == Ok(seen + {kind})
  {
  }

  /** A stream that decodes is a sequence of records of different kinds, and the function
      holds what they say. */
  lemma {:induction false} RecordsAre(
    s: seq<uint8>, order: ByteOrder, width: nat, depth: nat, seen: set<uint32>, g: EncodedFunction) returns (records: seq<Record>)
    requires ValidStringWidth(width) && DecodeRecords(s, order, width, depth, seen, g).Ok?
    ensures
      var Step(f, rest) := DecodeRecords(s, order, width, depth, seen, g).value;
      && s == StreamBytes(records, order) + rest && KindsApart(records, seen)
      && Fills(records, order, width, depth, g, f)
    decreases |s|
  {
    hide NextRecord, Observe, DecodeRecord, RecordBytes, EndMarker, Filled, Fills, Taking, SameField;
    RecordIs(s, order);
    var Step(next, rest) := NextRecord(s, order).value;
    if next.None? {
      records := [];
      NothingFilled(order, width, depth, g, g);
    } else {
      var record := next.value;
      DecodedRecord(record, order, width, depth, g);
      Observed(record.kind, seen);
      var h := DecodeRecord(record, order, width, depth, g).value;
      TakingKeeps(record.kind, g, h);
      var tail := RecordsAre(rest, order, width, depth, seen + {record.kind}, h);
      records := [record] + tail;
      var Step(f, after) := DecodeRecords(rest, order, width, depth, seen + {record.kind}, h).value;
      AppendAssociates(RecordBytes(record, order), StreamBytes(tail, order), after);
      FillsMore(record, tail, order, width, depth, g, h, f);
    }
  }

  lemma {:induction false} RecordsDecode(
    records: seq<Record>, order: ByteOrder, width: nat, depth: nat, seen: set<uint32>, g: EncodedFunction, f: EncodedFunction,
    rest: seq<uint8>)
    requires ValidStringWidth(width) && KindsApart(records, seen) && Fills(records, order, width, depth, g, f)
    ensures DecodeRecords(StreamBytes(records, order) + rest, order, width, depth, seen, g) == Ok(Step(f, rest))
    decreases |records|
  {
    hide NextRecord, Observe, DecodeRecord, RecordBytes, EndMarker, Filled, Fills, Taking, SameField;
    if records == [] {
      NothingFilled(order, width, depth, g, f);
      EndMarkerFinishes(order, width, depth, seen, g, rest);
    } else {
      var record, tail := records[0], records[1..];
      assert records == [record] + tail;
      TakingKeeps(record.kind, g, f);
      FillsLess(record, tail, order, width, depth, g, f);
      AppendAssociates(RecordBytes(record, order), StreamBytes(tail, order), rest);
      RecordReads(record, order, StreamBytes(tail, order) + rest);
      Observed(record.kind, seen);
      SameRange(records, order, width, depth, g, f);
      FilledRecord(record, order, width, depth, g, f);
      RecordsDecode(tail, order, width, depth, seen + {record.kind}, Taking(record.kind, g, f), f, rest);
    }
  }

  lemma SameRange(records: seq<Record>, order: ByteOrder, width: nat, depth: nat, g: EncodedFunction, f: EncodedFunction)
    requires ValidStringWidth(width) && Fills(records, order, width, depth, g, f)
    ensures f.range == g.range
  {
  }

  // ------------------------------------------------------------------------- functions

  function Blank(f: EncodedFunction): EncodedFunction {
    EncodedFunction(f.range, f.name, None, None, [], [])
  }

  /** The bytes in front of the records. */
  function FrontBytes(f: EncodedFunction, order: ByteOrder, width: nat): seq<uint8>
    requires f.range.IsValid()
  {
    ToBytes(order, f.range.Size(), 4) + ToBytes(order, f.name, width)
  }

  /** `s` is the function's size and name, records of different kinds that say what it
      holds, the end marker, and `rest`. */
  ghost predicate Spells(s: seq<uint8>, order: ByteOrder, width: nat, base: uint64, depth: nat, f: EncodedFunction, rest: seq<uint8>)
    requires ValidStringWidth(width)
  {
    && f.range.IsValid() && f.range.start == base && f.range.Size() < U32_LIMIT && 0 < f.name < Exp(256, width)
    && exists records ::
         && s == FrontBytes(f, order, width) + (StreamBytes(records, order) + rest)
         && KindsApart(records, {}) && Fills(records, order, width, depth, Blank(f), f)
  }

  lemma HeaderIs(s: seq<uint8>, order: ByteOrder, width: nat, base: uint64, depth: nat, f: EncodedFunction, rest: seq<uint8>)
    requires DecodeFunction(s, order, width, base, depth) == Ok(Step(f, rest))
    ensures depth <= MAX_MERGED_DEPTH && ValidStringWidth(width)
    ensures |s| >= 4 + width && s == s[..4 + width] + s[4 + width..]
    ensures
      var size, name := ReadU32(order, s).value.value, ReadUint(order, width, s[4..]).value.value;
      var g := EncodedFunction(AddressRange(base, base + size), name, None, None, [], []);
      && base + size < U64_LIMIT && 0 < name < Exp(256, width)
      && s[..4 + width] == ToBytes(order, size, 4) + ToBytes(order, name, width)
      && DecodeRecords(s[4 + width..], order, width, depth, {}, g) == Ok(Step(f, rest))
  {
    hide DecodeRecords, ToBytes, ReadU32, ReadUint;
    U32Is(order, s);
    var s1 := ReadU32(order, s).value.rest;
    assert s1 == s[4..];
    UintIs(order, width, s1);
    var s2 := ReadUint(order, width, s1).value.rest;
    assert s2 == s[4 + width..];
  }

  /** A function is decoded exactly from the bytes that spell it, at no more than the
      greatest depth and with a legal string width. */
  lemma FunctionIsExact(s: seq<uint8>, order: ByteOrder, width: nat, base: uint64, depth: nat, f: EncodedFunction, rest: seq<uint8>)
    ensures DecodeFunction(s, order, width, base, depth) == Ok(Step(f, rest))
       <==> depth <= MAX_MERGED_DEPTH && ValidStringWidth(width) && Spells(s, order, width, base, depth, f, rest)
  {
    if DecodeFunction(s, order, width, base, depth) == Ok(Step(f, rest)) {
      DecodedSpells(s, order, width, base, depth, f, rest);
    }
    if depth <= MAX_MERGED_DEPTH && ValidStringWidth(width) && Spells(s, order, width, base, depth, f, rest) {
      SpelledDecodes(s, order, width, base, depth, f, rest);
    }
  }

  lemma DecodedSpells(s: seq<uint8>, order: ByteOrder, width: nat, base: uint64, depth: nat, f: EncodedFunction, rest: seq<uint8>)
    requires DecodeFunction(s, order, width, base, depth) == Ok(Step(f, rest))
    ensures depth <= MAX_MERGED_DEPTH && ValidStringWidth(width) && Spells(s, order, width, base, depth, f, rest)
  {
    hide DecodeFunction, DecodeRecords, ToBytes, ReadU32, ReadUint, StreamBytes, KindsApart, Fills;
    HeaderIs(s, order, width, base, depth, f, rest);
    var size, name := ReadU32(order, s).value.value, ReadUint(order, width, s[4..]).value.value;
    var g := EncodedFunction(AddressRange(base, base + size), name, None, None, [], []);
    var records := RecordsAre(s[4 + width..], order, width, depth, {}, g);
    FilledNames(records, order, width, depth, g, f);
    assert g == Blank(f);
    assert s == FrontBytes(f, order, width) + (StreamBytes(records, order) + rest);
  }

  lemma FilledNames(records: seq<Record>, order: ByteOrder, width: nat, depth: nat, g: EncodedFunction, f: EncodedFunction)
    requires ValidStringWidth(width) && Fills(records, order, width, depth, g, f)
    ensures f.range == g.range && f.name == g.name
  {
  }

  lemma SpelledDecodes(s: seq<uint8>, order: ByteOrder, width: nat, base: uint64, depth: nat, f: EncodedFunction, rest: seq<uint8>)
    requires depth <= MAX_MERGED_DEPTH && ValidStringWidth(width) && Spells(s, order, width, base, depth, f, rest)
    ensures DecodeFunction(s, order, width, base, depth) == Ok(Step(f, rest))
  {
    hide DecodeRecords, ToBytes, ReadU32, ReadUint, StreamBytes, KindsApart, Fills;
    var records :|
      && s == FrontBytes(f, order, width) + (StreamBytes(records, order) + rest)
      && KindsApart(records, {}) && Fills(records, order, width, depth, Blank(f), f);
    var tail := StreamBytes(records, order) + rest;
    RecordsDecode(records, order, width, depth, {}, Blank(f), f, rest);
    var size, name := WriteU32(order, f.range.Size()), ToBytes(order, f.name, width);
    AppendAssociates(size, name, tail);
    ReadWriteU32(order, f.range.Size(), name + tail);
    ReadWriteUint(order, f.name, width, tail);
  }

  // -------------------------------------------------------------------------- call sites

  lemma {:induction false} OffsetsAre(s: seq<uint8>, order: ByteOrder, width: nat, count: nat)
    requires ValidStringWidth(width) && DecodeOffsets(s, order, width, count).Ok?
    ensures
      var Step(offsets, rest) := DecodeOffsets(s, order, width, count).value;
      && |offsets| == count && EncodeOffsets(offsets, order, width).Ok?
      && s == EncodeOffsets(offsets, order, width).value + rest
    decreases count
  {
    hide ReadUint, ToBytes;
    if count > 0 {
      UintIs(order, width, s);
      var Step(offset, s1) := ReadUint(order, width, s).value;
      OffsetsAre(s1, order, width, count - 1);
      var Step(tail, rest) := DecodeOffsets(s1, order, width, count - 1).value;
      var offsets := [offset] + tail;
      assert offsets[1..] == tail;
      AppendAssociates(ToBytes(order, offset, width), EncodeOffsets(tail, order, width).value, rest);
    }
  }

  lemma SiteJoins(a: seq<uint8>, flags: uint8, b: seq<uint8>, c: seq<uint8>, rest: seq<uint8>)
    ensures a + ([flags] + (b + (c + rest))) == a + [flags] + b + c + rest
  {
  }

  lemma SiteIs(s: seq<uint8>, order: ByteOrder, width: nat)
    requires ValidStringWidth(width) && DecodeCallSite(s, order, width).Ok?
    ensures
      var Step(site, rest) := DecodeCallSite(s, order, width).value;
      EncodeCallSite(site, order, width).Ok? && s == EncodeCallSite(site, order, width).value + rest
  {
    hide ReadU32, ReadU64, DecodeOffsets, EncodeOffsets, ToBytes;
    U64Is(order, s);
    var s1 := ReadU64(order, s).value.rest;
    OneByte(s1);
    var s2 := ReadU8(s1).value.rest;
    U32Is(order, s2);
    var Step(count, s3) := ReadU32(order, s2).value;
    OffsetsAre(s3, order, width, count);
    var Step(site, rest) := DecodeCallSite(s, order, width).value;
    SiteJoins(WriteU64(order, site.returnOffset), site.flags, WriteU32(order, |site.matchRegex|),
              EncodeOffsets(site.matchRegex, order, width).value, rest);
  }

  lemma {:induction false} SiteListIs(s: seq<uint8>, order: ByteOrder, width: nat, count: nat)
    requires ValidStringWidth(width) && DecodeCallSiteList(s, order, width, count).Ok?
    ensures
      var Step(sites, rest) := DecodeCallSiteList(s, order, width, count).value;
      && |sites| == count && EncodeCallSiteList(sites, order, width).Ok?
      && s == EncodeCallSiteList(sites, order, width).value + rest
    decreases count
  {
    hide DecodeCallSite, EncodeCallSite;
    if count > 0 {
      SiteIs(s, order, width);
      var Step(site, s1) := DecodeCallSite(s, order, width).value;
      SiteListIs(s1, order, width, count - 1);
      var Step(tail, rest) := DecodeCallSiteList(s1, order, width, count - 1).value;
      var sites := [site] + tail;
      assert sites[1..] == tail;
      AppendAssociates(EncodeCallSite(site, order, width).value, EncodeCallSiteList(tail, order, width).value, rest);
    }
  }

  /** A call-site table is accepted exactly as the sites whose encoding it is. */
  lemma CallSitesAreExact(payload: seq<uint8>, order: ByteOrder, width: nat, sites: seq<EncodedCallSite>)
    requires ValidStringWidth(width)
    ensures DecodeCallSites(payload, order, width) == Ok(sites) <==> EncodeCallSites(sites, order, width) == Ok(payload)
  {
    hide ReadU32, DecodeCallSiteList, EncodeCallSiteList, ToBytes;
    if DecodeCallSites(payload, order, width) == Ok(sites) {
      U32Is(order, payload);
      var Step(count, s) := ReadU32(order, payload).value;
      SiteListIs(s, order, width, count);
      NothingAfter(WriteU32(order, |sites|), EncodeCallSiteList(sites, order, width).value);
    }
    if EncodeCallSites(sites, order, width) == Ok(payload) {
      CallSitesRoundTrip(sites, order, width);
    }
  }

  lemma NothingAfter(a: seq<uint8>, b: seq<uint8>)
    ensures a + (b + []) == a + b
  {
  }

  // ------------------------------------------------------------------- merged functions

  /** Each chunk behind its length. */
  function ChunkBytes(chunks: seq<seq<uint8>>, order: ByteOrder): seq<uint8> {
    if chunks == [] then [] else ToBytes(order, |chunks[0]|, 4) + (chunks[0] + ChunkBytes(chunks[1..], order))
  }

  ghost predicate Chunks(chunks: seq<seq<uint8>>, order: ByteOrder, width: nat, base: uint64, depth: nat, functions: seq<EncodedFunction>) {
    && |chunks| == |functions|
    && forall i :: 0 <= i < |chunks| ==>
         |chunks[i]| < U32_LIMIT && DecodeExact(chunks[i], order, width, base, depth) == Ok(functions[i])
  }

  lemma {:induction false} ChunksSize(chunks: seq<seq<uint8>>, order: ByteOrder)
    ensures |ChunkBytes(chunks, order)| >= 4 * |chunks|
    decreases |chunks|
  {
    hide ToBytes;
    if chunks != [] {
      ChunksSize(chunks[1..], order);
    }
  }

  lemma {:induction false} MergedListIs(s: seq<uint8>, order: ByteOrder, width: nat, base: uint64, depth: nat, count: nat)
    returns (chunks: seq<seq<uint8>>)
    requires DecodeMergedList(s, order, width, base, depth, count).Ok?
    ensures
      var Step(functions, rest) := DecodeMergedList(s, order, width, base, depth, count).value;
      |functions| == count && s == ChunkBytes(chunks, order) + rest && Chunks(chunks, order, width, base, depth, functions)
    decreases count
  {
    hide ReadU32, ToBytes, DecodeExact;
    if count == 0 {
      chunks := [];
    } else {
      U32Is(order, s);
      var length: nat, s1 := ReadU32(order, s).value.value, ReadU32(order, s).value.rest;
      TakenIs(s1, length);
      var tail := MergedListIs(s1[length..], order, width, base, depth, count - 1);
      var chunk, rest := s1[..length], DecodeMergedList(s1[length..], order, width, base, depth, count - 1).value.rest;
      chunks := [chunk] + tail;
      assert chunks[1..] == tail;
      Joins(WriteU32(order, length), chunk, ChunkBytes(tail, order), rest);
    }
  }

  lemma {:induction false} ChunksDecode(
    chunks: seq<seq<uint8>>, order: ByteOrder, width: nat, base: uint64, depth: nat, functions: seq<EncodedFunction>)
    requires Chunks(chunks, order, width, base, depth, functions)
    ensures DecodeMergedList(ChunkBytes(chunks, order), order, width, base, depth, |functions|) == Ok(Step(functions, []))
    decreases |chunks|
  {
    hide ReadU32, ToBytes, DecodeExact;
    if chunks != [] {
      var tail := ChunkBytes(chunks[1..], order);
      ChunksDecode(chunks[1..], order, width, base, depth, functions[1..]);
      ReadWriteU32(order, |chunks[0]|, chunks[0] + tail);
      assert (chunks[0] + tail)[..|chunks[0]|] == chunks[0] && (chunks[0] + tail)[|chunks[0]|..] == tail;
      assert functions == [functions[0]] + functions[1..];
    }
  }

  lemma MergedUnfolds(payload: seq<uint8>, order: ByteOrder, width: nat, base: uint64, depth: nat)
    ensures DecodeMerged(payload, order, width, base, depth).Ok? ==>
      && DecodeCount(payload, order, 4).Ok?
      && var Step(count, s) := DecodeCount(payload, order, 4).value;
      DecodeMergedList(s, order, width, base, depth, count) == Ok(Step(DecodeMerged(payload, order, width, base, depth).value, []))
    ensures DecodeCount(payload, order, 4).Ok? ==>
      var Step(count, s) := DecodeCount(payload, order, 4).value;
      DecodeMerged(payload, order, width, base, depth) == AllConsumed(DecodeMergedList(s, order, width, base, depth, count))
  {
    hide DecodeCount, DecodeMergedList;
    assert DecodeMerged(payload, order, width, base, depth) == AllConsumed(DecodeMergedTable(payload, order, width, base, depth));
    if DecodeCount(payload, order, 4).Ok? {
      var Step(count, s) := DecodeCount(payload, order, 4).value;
      assert DecodeMergedTable(payload, order, width, base, depth) == DecodeMergedList(s, order, width, base, depth, count);
      if DecodeMerged(payload, order, width, base, depth).Ok? {
        var list := DecodeMergedList(s, order, width, base, depth, count).value;
        assert list == Step(list.value, []);
      }
    }
  }

  /** A merged table is accepted exactly when it is the count and then each function's
      own bytes behind their length. */
  lemma MergedIsExact(payload: seq<uint8>, order: ByteOrder, width: nat, base: uint64, depth: nat, functions: seq<EncodedFunction>)
    ensures DecodeMerged(payload, order, width, base, depth) == Ok(functions)
       <==> |functions| < U32_LIMIT && exists chunks ::
              payload == WriteU32(order, |functions|) + ChunkBytes(chunks, order) && Chunks(chunks, order, width, base, depth, functions)
  {
    hide ReadU32, ToBytes, DecodeMergedList, ChunkBytes, Chunks, DecodeMerged;
    MergedUnfolds(payload, order, width, base, depth);
    if DecodeMerged(payload, order, width, base, depth) == Ok(functions) {
      U32Is(order, payload);
      var Step(count, s) := ReadU32(order, payload).value;
      var chunks := MergedListIs(s, order, width, base, depth, count);
      NothingAfter(WriteU32(order, |functions|), ChunkBytes(chunks, order));
    }
    if |functions| < U32_LIMIT {
      forall chunks | payload == WriteU32(order, |functions|) + ChunkBytes(chunks, order) && Chunks(chunks, order, width, base, depth, functions)
        ensures DecodeMerged(payload, order, width, base, depth) == Ok(functions)
      {
        ChunksDecode(chunks, order, width, base, depth, functions);
        ReadWriteU32(order, |functions|, ChunkBytes(chunks, order));
        ChunksSize(chunks, order);
        AsMany(chunks, order, width, base, depth, functions);
      }
    }
  }

  lemma AsMany(chunks: seq<seq<uint8>>, order: ByteOrder, width: nat, base: uint64, depth: nat, functions: seq<EncodedFunction>)
    requires Chunks(chunks, order, width, base, depth, functions)
    ensures |chunks| == |functions|
  {
  }
}
