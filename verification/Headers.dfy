/** The fixed headers of src/format/v1.rs and src/format/v2.rs. */
module Headers {
  import opened Words
  import opened Wrappers
  import opened Wire
  import opened Endian

  const MAGIC: uint32 := 0x4753_594d
  const SWAPPED_MAGIC: uint32 := 0x4d59_5347

  const V1_HEADER_SIZE: nat := 48
  const V2_HEADER_SIZE: nat := 20
  const MAX_UUID_SIZE: nat := 20
  const UUID_OFFSET: nat := 28

  /** The magic number read in one fixed byte order tells the file's own. */
  function DetectByteOrder(data: seq<uint8>): Result<ByteOrder> {
    var Step(magic, _) :- ReadU32(Little, data);
    if magic == MAGIC then Ok(Little)
    else if magic == SWAPPED_MAGIC then Ok(Big)
    else Err(InvalidMagic)
  }

  /** `Cursor::at`. */
  function From(data: seq<uint8>, offset: nat): Result<seq<uint8>> {
    if offset > |data| then Err(InvalidOffset) else Ok(data[offset..])
  }

  // --------------------------------------------------------------- version one

  datatype V1Header = V1Header(
    width: uint8, base: uint64, count: uint32, stringOffset: uint32, stringSize: uint32, uuid: seq<uint8>)

  predicate V1Width(width: uint8) {
    width == 1 || width == 2 || width == 4 || width == 8
  }

  function DecodeMagic(data: seq<uint8>, order: ByteOrder, version: uint16): Result<seq<uint8>> {
    var Step(magic, s) :- ReadU32(order, data);
    if magic != MAGIC then Err(InvalidMagic)
    else
      var Step(found, s) :- ReadU16(order, s);
      if found != version then Err(UnsupportedVersion) else Ok(s)
  }

  function DecodeV1Body(s: seq<uint8>, order: ByteOrder): Result<Step<V1Header>> {
    var Step(width, s) :- ReadU8(s);
    if !V1Width(width) then Err(InvalidAddressOffsetSize)
    else
      var Step(uuidSize, s) :- ReadU8(s);
      if uuidSize > MAX_UUID_SIZE then Err(InvalidUuidSize)
      else
        var Step(base, s) :- ReadU64(order, s);
        var Step(count, s) :- ReadU32(order, s);
        var Step(stringOffset, s) :- ReadU32(order, s);
        var Step(stringSize, s) :- ReadU32(order, s);
        var Step(storage, s) :- TakeBytes(s, MAX_UUID_SIZE);
        Ok(Step(V1Header(width, base, count, stringOffset, stringSize, storage[..uuidSize]), s))
  }

  function DecodeV1Header(data: seq<uint8>): Result<(V1Header, ByteOrder)> {
    var order :- DetectByteOrder(data);
    var s :- DecodeMagic(data, order, 1);
    var Step(header, _) :- DecodeV1Body(s, order);
    Ok((header, order))
  }

  /** The part both versions share: 20 bytes. */
  function Prefix(order: ByteOrder, version: uint16, width: uint8, extra: uint8, base: uint64, count: uint32): (bytes: seq<uint8>)
    ensures |bytes| == V2_HEADER_SIZE
  {
    WriteU32(order, MAGIC) + WriteU16(order, version) + [width] + [extra] + WriteU64(order, base) + WriteU32(order, count)
  }

  /** `encode` of a header whose build ID fits its fixed storage. */
  function EncodeV1Header(h: V1Header, order: ByteOrder): (r: Result<seq<uint8>>)
    requires |h.uuid| <= MAX_UUID_SIZE
    ensures r.Ok? ==> |r.value| == V1_HEADER_SIZE
  {
    if !V1Width(h.width) then Err(InvalidAddressOffsetSize)
    else Ok(Prefix(order, 1, h.width, |h.uuid|, h.base, h.count)
            + WriteU32(order, h.stringOffset) + WriteU32(order, h.stringSize)
            + (h.uuid + Zeros(MAX_UUID_SIZE - |h.uuid|)))
  }

  // --------------------------------------------------------------- version two

  datatype V2Header = V2Header(width: uint8, encoding: uint8, base: uint64, count: uint32)

  predicate V2Width(width: uint8) {
    1 <= width <= 8
  }

  function DecodeV2Body(s: seq<uint8>, order: ByteOrder): Result<Step<V2Header>> {
    var Step(width, s) :- ReadU8(s);
    if !V2Width(width) then Err(InvalidAddressOffsetSize)
    else
      var Step(encoding, s) :- ReadU8(s);
      if encoding != 0 then Err(UnsupportedStringTableEncoding)
      else
        var Step(base, s) :- ReadU64(order, s);
        var Step(count, s) :- ReadU32(order, s);
        Ok(Step(V2Header(width, encoding, base, count), s))
  }

  function DecodeV2Header(data: seq<uint8>): Result<(V2Header, ByteOrder)> {
    var order :- DetectByteOrder(data);
    var s :- DecodeMagic(data, order, 2);
    var Step(header, _) :- DecodeV2Body(s, order);
    Ok((header, order))
  }

  function EncodeV2Header(h: V2Header, order: ByteOrder): (r: Result<seq<uint8>>)
    ensures r.Ok? ==> |r.value| == V2_HEADER_SIZE
  {
    if !V2Width(h.width) then Err(InvalidAddressOffsetSize)
    else if h.encoding != 0 then Err(UnsupportedStringTableEncoding)
    else Ok(Prefix(order, 2, h.width, h.encoding, h.base, h.count))
  }

  // ----------------------------------------------------------------- round trips

  lemma MagicDetected(order: ByteOrder, rest: seq<uint8>)
    ensures DetectByteOrder(WriteU32(order, MAGIC) + rest) == Ok(order)
  {
    ReadWriteU32(Little, MAGIC, rest);
    ReadWriteU32(Little, SWAPPED_MAGIC, rest);
    if order == Big {
      BigIsSwapped();
    }
  }

  lemma BigIsSwapped()
    ensures WriteU32(Big, MAGIC) == WriteU32(Little, SWAPPED_MAGIC)
  {
    assert ToBytes(Big, 0x4753_594d, 4) == [0x47, 0x53, 0x59, 0x4d];
    assert ToBytes(Little, 0x4d59_5347, 4) == [0x47, 0x53, 0x59, 0x4d];
  }

  /** Every field of the shared prefix, read one after the other. */
  lemma PrefixReads(
    order: ByteOrder, version: uint16, width: uint8, extra: uint8, base: uint64, count: uint32, rest: seq<uint8>)
    ensures
      var data := Prefix(order, version, width, extra, base, count) + rest;
      var s4 := WriteU32(order, count) + rest;
      var s3 := WriteU64(order, base) + s4;
      var s1 := [width] + ([extra] + s3);
      && DetectByteOrder(data) == Ok(order)
      && DecodeMagic(data, order, version) == Ok(s1)
      && ReadU8(s1) == Ok(Step(width, [extra] + s3))
      && ReadU8([extra] + s3) == Ok(Step(extra, s3))
      && ReadU64(order, s3) == Ok(Step(base, s4))
      && ReadU32(order, s4) == Ok(Step(count, rest))
      && forall other :: other != version ==> DecodeMagic(data, order, other) == Err(UnsupportedVersion)
  {
    hide ReadU16, ReadU32, ReadU64, WriteU16, WriteU32, WriteU64, DetectByteOrder;
    var magic, tag, low, high := WriteU32(order, MAGIC), WriteU16(order, version), WriteU64(order, base), WriteU32(order, count);
    var s4 := high + rest;
    var s3 := low + s4;
    var s1 := [width] + ([extra] + s3);
    AppendAssociates(magic + tag + [width] + [extra] + low, high, rest);
    AppendAssociates(magic + tag + [width] + [extra], low, s4);
    AppendAssociates(magic + tag + [width], [extra], s3);
    AppendAssociates(magic + tag, [width], [extra] + s3);
    AppendAssociates(magic, tag, s1);
    ReadWriteU32(order, MAGIC, tag + s1);
    ReadWriteU16(order, version, s1);
    ReadWriteU64(order, base, s4);
    ReadWriteU32(order, count, rest);
    MagicDetected(order, tag + s1);
  }

  lemma V1HeaderRoundTrip(h: V1Header, order: ByteOrder, rest: seq<uint8>)
    requires |h.uuid| <= MAX_UUID_SIZE && EncodeV1Header(h, order).Ok?
    ensures DecodeV1Header(EncodeV1Header(h, order).value + rest) == Ok((h, order))
  {
    hide DetectByteOrder, DecodeMagic, Prefix, ReadU32, ReadU64, WriteU32, WriteU64;
    var prefix := Prefix(order, 1, h.width, |h.uuid|, h.base, h.count);
    var offset, size, uuid := WriteU32(order, h.stringOffset), WriteU32(order, h.stringSize), h.uuid + Zeros(MAX_UUID_SIZE - |h.uuid|);
    AppendAssociates(prefix + offset + size, uuid, rest);
    AppendAssociates(prefix + offset, size, uuid + rest);
    AppendAssociates(prefix, offset, size + (uuid + rest));
    PrefixReads(order, 1, h.width, |h.uuid|, h.base, h.count, offset + (size + (uuid + rest)));
    ReadWriteU32(order, h.stringOffset, size + (uuid + rest));
    ReadWriteU32(order, h.stringSize, uuid + rest);
    assert (uuid + rest)[..MAX_UUID_SIZE][..|h.uuid|] == h.uuid;
  }

  lemma V2HeaderRoundTrip(h: V2Header, order: ByteOrder, rest: seq<uint8>)
    requires EncodeV2Header(h, order).Ok?
    ensures DecodeV2Header(EncodeV2Header(h, order).value + rest) == Ok((h, order))
  {
    hide DetectByteOrder, DecodeMagic, Prefix, ReadU32, ReadU64, WriteU32, WriteU64;
    PrefixReads(order, 2, h.width, h.encoding, h.base, h.count, rest);
  }

  // ------------------------------------------------------------ the cursor's way

  method ReadMagic(cursor: Cursor, version: uint16) returns (r: Result<Unit>)
    requires cursor.Valid()
    modifies cursor
    ensures cursor.Valid()
    ensures match DecodeMagic(old(cursor.Rest()), cursor.order, version)
      case Ok(rest) => r == Ok(Unit) && cursor.Rest() == rest
      case Err(error) => r == Err(error)
  {
    hide Wire.ReadU16, Wire.ReadU32;
    var magic :- cursor.ReadU32();
    if magic != MAGIC {
      return Err(InvalidMagic);
    }
    var found :- cursor.ReadU16();
    if found != version {
      return Err(UnsupportedVersion);
    }
    return Ok(Unit);
  }

  method ReadV1Body(cursor: Cursor) returns (r: Result<V1Header>)
    requires cursor.Valid()
    modifies cursor
    ensures cursor.Valid()
    ensures Agrees(r, DecodeV1Body(old(cursor.Rest()), cursor.order), cursor.Rest())
  {
    hide Wire.ReadU32, Wire.ReadU64;
    var width :- cursor.ReadU8();
    if !V1Width(width) {
      return Err(InvalidAddressOffsetSize);
    }
    var uuidSize :- cursor.ReadU8();
    if uuidSize > MAX_UUID_SIZE {
      return Err(InvalidUuidSize);
    }
    var base :- cursor.ReadU64();
    var count :- cursor.ReadU32();
    var stringOffset :- cursor.ReadU32();
    var stringSize :- cursor.ReadU32();
    var storage :- cursor.Take(MAX_UUID_SIZE);
    return Ok(V1Header(width, base, count, stringOffset, stringSize, storage[..uuidSize]));
  }

  method ReadV1Header(data: seq<uint8>) returns (r: Result<(V1Header, ByteOrder)>)
    ensures r == DecodeV1Header(data)
  {
    hide DetectByteOrder, DecodeMagic, DecodeV1Body;
    var order :- DetectByteOrder(data);
    var cursor := new Cursor(data, order);
    var _ :- ReadMagic(cursor, 1);
    var header :- ReadV1Body(cursor);
    return Ok((header, order));
  }

  method ReadV2Body(cursor: Cursor) returns (r: Result<V2Header>)
    requires cursor.Valid()
    modifies cursor
    ensures cursor.Valid()
    ensures Agrees(r, DecodeV2Body(old(cursor.Rest()), cursor.order), cursor.Rest())
  {
    hide Wire.ReadU32, Wire.ReadU64;
    var width :- cursor.ReadU8();
    if !V2Width(width) {
      return Err(InvalidAddressOffsetSize);
    }
    var encoding :- cursor.ReadU8();
    if encoding != 0 {
      return Err(UnsupportedStringTableEncoding);
    }
    var base :- cursor.ReadU64();
    var count :- cursor.ReadU32();
    return Ok(V2Header(width, encoding, base, count));
  }

  method ReadV2Header(data: seq<uint8>) returns (r: Result<(V2Header, ByteOrder)>)
    ensures r == DecodeV2Header(data)
  {
    hide DetectByteOrder, DecodeMagic, DecodeV2Body;
    var order :- DetectByteOrder(data);
    var cursor := new Cursor(data, order);
    var _ :- ReadMagic(cursor, 2);
    var header :- ReadV2Body(cursor);
    return Ok((header, order));
  }

  method WritePrefix(output: Encoder, version: uint16, width: uint8, extra: uint8, base: uint64, count: uint32)
    modifies output
    ensures output.bytes == old(output.bytes) + Prefix(output.order, version, width, extra, base, count)
  {
    hide Wire.WriteU16, Wire.WriteU32, Wire.WriteU64;
    output.WriteU32(MAGIC);
    output.WriteU16(version);
    output.WriteU8(width);
    output.WriteU8(extra);
    output.WriteU64(base);
    output.WriteU32(count);
  }

  method WriteV1Header(h: V1Header, order: ByteOrder) returns (r: Result<seq<uint8>>)
    requires |h.uuid| <= MAX_UUID_SIZE
    ensures r == EncodeV1Header(h, order)
  {
    hide Prefix, Wire.WriteU32;
    if !V1Width(h.width) {
      return Err(InvalidAddressOffsetSize);
    }
    var output := new Encoder(order);
    WritePrefix(output, 1, h.width, |h.uuid|, h.base, h.count);
    assert output.bytes == Prefix(order, 1, h.width, |h.uuid|, h.base, h.count);
    output.WriteU32(h.stringOffset);
    output.WriteU32(h.stringSize);
    ghost var fields := output.bytes;
    output.WriteBytes(h.uuid);
    output.WriteBytes(Zeros(MAX_UUID_SIZE - |h.uuid|));
    AppendAssociates(fields, h.uuid, Zeros(MAX_UUID_SIZE - |h.uuid|));
    return Ok(output.bytes);
  }

  method WriteV2Header(h: V2Header, order: ByteOrder) returns (r: Result<seq<uint8>>)
    ensures r == EncodeV2Header(h, order)
  {
    hide Prefix;
    if !V2Width(h.width) {
      return Err(InvalidAddressOffsetSize);
    }
    if h.encoding != 0 {
      return Err(UnsupportedStringTableEncoding);
    }
    var output := new Encoder(order);
    WritePrefix(output, 2, h.width, h.encoding, h.base, h.count);
    assert output.bytes == Prefix(order, 2, h.width, h.encoding, h.base, h.count);
    return Ok(output.bytes);
  }
}
