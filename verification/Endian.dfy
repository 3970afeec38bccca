/** The bounds-checked input cursor and the back-patched output buffer of
    src/endian.rs, each method proved against a function of module Wire. */
module Endian {
  import opened Words
  import opened Wrappers
  import opened Wire

  /** `got` is the outcome that the specification `want` prescribes, and on
      success the reader stands exactly where `want` says the input continues. */
  ghost predicate Agrees<T>(got: Result<T>, want: Result<Step<T>>, remaining: seq<uint8>) {
    match want
    case Ok(Step(value, rest)) => got == Ok(value) && remaining == rest
    case Err(error) => got == Err(error)
  }

  /** The encoder did what the specification `want` prescribes: on success it
      appended those bytes. */
  ghost predicate Wrote(got: Result<Unit>, want: Result<seq<uint8>>, before: seq<uint8>, after: seq<uint8>) {
    match want
    case Ok(bytes) => got == Ok(Unit) && after == before + bytes
    case Err(error) => got == Err(error)
  }

  class Cursor {
    const bytes: seq<uint8>
    const order: ByteOrder
    var position: nat

    ghost predicate Valid()
      reads this
    {
      position <= |bytes|
    }

    function Rest(): seq<uint8>
      reads this
      requires Valid()
    {
      bytes[position..]
    }

    constructor (bytes: seq<uint8>, order: ByteOrder)
      ensures Valid() && Rest() == bytes
      ensures this.order == order && this.bytes == bytes
    {
      this.bytes := bytes;
      this.order := order;
      this.position := 0;
    }

    function Remaining(): (n: nat)
      reads this
      requires Valid()
      ensures n == |Rest()|
    {
      |bytes| - position
    }

    predicate IsEmpty(): (empty: bool)
      reads this
      requires Valid()
      ensures empty <==> Rest() == []
    {
      Remaining() == 0
    }

    method Take(count: nat) returns (r: Result<seq<uint8>>)
      requires Valid()
      modifies this
      ensures Valid()
      ensures Agrees(r, TakeBytes(old(Rest()), count), Rest())
      ensures r.Err? ==> position == old(position)
    {
      var end := position + count;
      if end > |bytes| {
        return Err(UnexpectedEof);
      }
      assert Rest()[..count] == bytes[position..end];
      r := Ok(bytes[position..end]);
      position := end;
    }

    method ReadU8() returns (r: Result<uint8>)
      requires Valid()
      modifies this
      ensures Valid()
      ensures Agrees(r, Wire.ReadU8(old(Rest())), Rest())
      ensures r.Err? ==> position == old(position)
    {
      if position == |bytes| {
        return Err(UnexpectedEof);
      }
      r := Ok(bytes[position]);
      position := position + 1;
    }

    method ReadU16() returns (r: Result<uint16>)
      requires Valid()
      modifies this
      ensures Valid()
      ensures Agrees(r, Wire.ReadU16(order, old(Rest())), Rest())
    {
      var chunk :- Take(2);
      ExpWidths();
      FromBytesBound(order, chunk);
      return Ok(FromBytes(order, chunk));
    }

    method ReadU32() returns (r: Result<uint32>)
      requires Valid()
      modifies this
      ensures Valid()
      ensures Agrees(r, Wire.ReadU32(order, old(Rest())), Rest())
    {
      var chunk :- Take(4);
      ExpWidths();
      FromBytesBound(order, chunk);
      return Ok(FromBytes(order, chunk));
    }

    method ReadU64() returns (r: Result<uint64>)
      requires Valid()
      modifies this
      ensures Valid()
      ensures Agrees(r, Wire.ReadU64(order, old(Rest())), Rest())
    {
      var chunk :- Take(8);
      ExpWidths();
      FromBytesBound(order, chunk);
      return Ok(FromBytes(order, chunk));
    }

    /** The power-of-two widths go through the direct readers; the others are
        copied into the low-order end of an eight-byte buffer first. */
    method ReadUint(width: uint8) returns (r: Result<uint64>)
      requires Valid()
      modifies this
      ensures Valid()
      ensures Agrees(r, Wire.ReadUint(order, width, old(Rest())), Rest())
    {
      ExpWidths();
      match width
      case 1 =>
        var value :- ReadU8();
        SingleByte(order, old(Rest()));
        return Ok(value);
      case 2 =>
        var value :- ReadU16();
        return Ok(value);
      case 4 =>
        var value :- ReadU32();
        return Ok(value);
      case 8 =>
        r := ReadU64();
        return;
      case _ =>
        if width == 0 || width > 8 {
          return Err(OutOfRange);
        }
        var chunk :- Take(width);
        var buffer := match order
          case Little => chunk + Zeros(8 - width)
          case Big => Zeros(8 - width) + chunk;
        FromBytesPadded(order, chunk, 8 - width);
        FromBytesBound(order, buffer);
        return Ok(FromBytes(order, buffer));
    }
  }

  class Encoder {
    var bytes: seq<uint8>
    const order: ByteOrder

    constructor (order: ByteOrder)
      ensures bytes == [] && this.order == order
    {
      this.bytes := [];
      this.order := order;
    }

    method WriteU8(value: uint8)
      modifies this
      ensures bytes == old(bytes) + [value]
    {
      bytes := bytes + [value];
    }

    method WriteU16(value: uint16)
      modifies this
      ensures bytes == old(bytes) + Wire.WriteU16(order, value)
    {
      bytes := bytes + ToBytes(order, value, 2);
    }

    method WriteU32(value: uint32)
      modifies this
      ensures bytes == old(bytes) + Wire.WriteU32(order, value)
    {
      bytes := bytes + ToBytes(order, value, 4);
    }

    method WriteU64(value: uint64)
      modifies this
      ensures bytes == old(bytes) + Wire.WriteU64(order, value)
    {
      bytes := bytes + ToBytes(order, value, 8);
    }

    /** Widths four and eight use the direct writers; any other legal width
        writes the low-order window of the eight-byte encoding. */
    method WriteUint(value: uint64, width: uint8) returns (r: Result<Unit>)
      modifies this
      ensures match Wire.WriteUint(order, value, width)
        case Ok(written) => r == Ok(Unit) && bytes == old(bytes) + written
        case Err(error) => r == Err(error) && bytes == old(bytes)
    {
      ExpWidths();
      if width == 4 {
        if value >= U32_LIMIT {
          return Err(OutOfRange);
        }
        WriteU32(value);
        return Ok(Unit);
      }
      if width == 8 {
        WriteU64(value);
        return Ok(Unit);
      }
      if width == 0 || width > 8 || value >= Exp(256, width) {
        return Err(OutOfRange);
      }
      var window := LowOrderWindow(order, ToBytes(order, value, 8), width);
      ToBytesWindow(order, value, width, 8);
      bytes := bytes + window;
      return Ok(Unit);
    }

    method WriteBytes(more: seq<uint8>)
      modifies this
      ensures bytes == old(bytes) + more
    {
      bytes := bytes + more;
    }

    method AlignTo(alignment: nat)
      requires alignment > 0
      modifies this
      ensures bytes == old(bytes) + Zeros(AlignUp(|old(bytes)|, alignment) - |old(bytes)|)
    {
      var remainder := |bytes| % alignment;
      if remainder != 0 {
        var padding := alignment - remainder;
        bytes := bytes + Zeros(padding);
      }
    }

    /** Overwrites four bytes that were written earlier. */
    method PatchU32(offset: nat, value: uint32) returns (r: Result<Unit>)
      modifies this
      ensures r == if offset + 4 <= |old(bytes)| then Ok(Unit) else Err(UnexpectedEof)
      ensures bytes == if r.Ok?
                       then old(bytes)[..offset] + Wire.WriteU32(order, value) + old(bytes)[offset + 4..]
                       else old(bytes)
    {
      var end := offset + 4;
      if end > |bytes| {
        return Err(UnexpectedEof);
      }
      bytes := bytes[..offset] + ToBytes(order, value, 4) + bytes[end..];
      return Ok(Unit);
    }
  }
}
