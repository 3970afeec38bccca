/** Byte order and fixed-width integers: what the cursor and the encoder of
    src/endian.rs read and write, as functions on byte sequences. */
module Wire {
  import opened Words
  import opened Wrappers

  datatype ByteOrder = Little | Big

  /** A parsed value together with the input that follows it. */
  datatype Step<+T> = Step(value: T, rest: seq<uint8>)

  // ---------------------------------------------------------------- integers

  function ToBytes(order: ByteOrder, value: nat, width: nat): (bytes: seq<uint8>)
    ensures |bytes| == width
    decreases width
  {
    if width == 0 then []
    else match order
      case Little => [value % 256] + ToBytes(order, value / 256, width - 1)
      case Big => ToBytes(order, value / 256, width - 1) + [value % 256]
  }

  function FromBytes(order: ByteOrder, bytes: seq<uint8>): nat
    decreases |bytes|
  {
    if bytes == [] then 0
    else match order
      case Little => bytes[0] + 256 * FromBytes(order, bytes[1..])
      case Big => 256 * FromBytes(order, bytes[..|bytes| - 1]) + bytes[|bytes| - 1]
  }

  lemma {:induction false} FromBytesBound(order: ByteOrder, bytes: seq<uint8>)
    ensures FromBytes(order, bytes) < Exp(256, |bytes|)
    decreases |bytes|
  {
    if bytes != [] {
      match order
      case Little => FromBytesBound(order, bytes[1..]);
      case Big => FromBytesBound(order, bytes[..|bytes| - 1]);
    }
  }

  /** Byte `i` of a value, counted from the least significant one. */
  function ByteOf(value: nat, i: nat): uint8 {
    if i == 0 then value % 256 else ByteOf(value / 256, i - 1)
  }

  /** Little-endian bytes come least significant first, big-endian ones last. */
  lemma {:induction false} BytesAre(order: ByteOrder, value: nat, width: nat, i: nat)
    requires i < width
    ensures ToBytes(order, value, width)[if order.Little? then i else width - 1 - i] == ByteOf(value, i)
    decreases width
  {
    if i > 0 {
      BytesAre(order, value / 256, width - 1, i - 1);
    }
  }

  lemma LowByte(high: nat, low: uint8)
    ensures (256 * high + low) % 256 == low && (256 * high + low) / 256 == high
  {
  }

  /** The bytes of the integer they stand for. */
  lemma {:induction false} ToFromBytes(order: ByteOrder, bytes: seq<uint8>)
    ensures ToBytes(order, FromBytes(order, bytes), |bytes|) == bytes
    decreases |bytes|
  {
    if bytes != [] {
      match order
      case Little =>
        ToFromBytes(order, bytes[1..]);
        LowByte(FromBytes(order, bytes[1..]), bytes[0]);
        assert bytes == [bytes[0]] + bytes[1..];
      case Big =>
        ToFromBytes(order, bytes[..|bytes| - 1]);
        LowByte(FromBytes(order, bytes[..|bytes| - 1]), bytes[|bytes| - 1]);
        assert bytes == bytes[..|bytes| - 1] + [bytes[|bytes| - 1]];
    }
  }

  /** Decoding a fixed-width integer undoes encoding it, in either byte order. */
  lemma {:induction false} FromToBytes(order: ByteOrder, value: nat, width: nat)
    requires value < Exp(256, width)
    ensures FromBytes(order, ToBytes(order, value, width)) == value
    decreases width
  {
    if width > 0 {
      FromToBytes(order, value / 256, width - 1);
      var bytes := ToBytes(order, value, width);
      match order
      case Little => assert bytes[1..] == ToBytes(order, value / 256, width - 1);
      case Big => assert bytes[..width - 1] == ToBytes(order, value / 256, width - 1);
    }
  }

  lemma AppendAssociates(a: seq<uint8>, b: seq<uint8>, c: seq<uint8>)
    ensures a + b + c == a + (b + c)
  {
  }

  function Zeros(n: nat): (zeros: seq<uint8>)
    ensures |zeros| == n
    ensures forall i :: 0 <= i < n ==> zeros[i] == 0
  {
    seq(n, _ => 0)
  }

  /** Zero bytes on the most significant side leave the value alone, which is
      how the odd widths are read through an eight-byte buffer. */
  lemma {:induction false} FromBytesPadded(order: ByteOrder, bytes: seq<uint8>, padding: nat)
    ensures FromBytes(order, if order.Little? then bytes + Zeros(padding) else Zeros(padding) + bytes)
         == FromBytes(order, bytes)
    decreases |bytes|, padding
  {
    match order
    case Little =>
      if bytes != [] {
        FromBytesPadded(order, bytes[1..], padding);
        assert (bytes + Zeros(padding))[1..] == bytes[1..] + Zeros(padding);
      } else if padding > 0 {
        FromBytesPadded(order, bytes, padding - 1);
        assert (bytes + Zeros(padding))[1..] == bytes + Zeros(padding - 1);
      } else {
        assert bytes + Zeros(padding) == bytes;
      }
    case Big =>
      var padded := Zeros(padding) + bytes;
      if bytes != [] {
        FromBytesPadded(order, bytes[..|bytes| - 1], padding);
        assert padded[..|padded| - 1] == Zeros(padding) + bytes[..|bytes| - 1];
      } else if padding > 0 {
        FromBytesPadded(order, bytes, padding - 1);
        assert padded[..|padded| - 1] == Zeros(padding - 1) + bytes;
      } else {
        assert padded == bytes;
      }
  }

  function LowOrderWindow(order: ByteOrder, wide: seq<uint8>, width: nat): seq<uint8>
    requires width <= |wide|
  {
    match order
    case Little => wide[..width]
    case Big => wide[|wide| - width..]
  }

  /** The low-order window of a wide encoding is the narrow encoding, which is
      how the odd widths are written. */
  lemma {:induction false} ToBytesWindow(order: ByteOrder, value: nat, width: nat, wide: nat)
    requires width <= wide
    ensures LowOrderWindow(order, ToBytes(order, value, wide), width) == ToBytes(order, value, width)
    decreases width
  {
    if width > 0 {
      ToBytesWindow(order, value / 256, width - 1, wide - 1);
    }
  }

  // ----------------------------------------------------- reading, as functions

  function TakeBytes(s: seq<uint8>, count: nat): Result<Step<seq<uint8>>> {
    if count > |s| then Err(UnexpectedEof) else Ok(Step(s[..count], s[count..]))
  }

  function ReadUint(order: ByteOrder, width: nat, s: seq<uint8>): (r: Result<Step<uint64>>)
    ensures r.Ok? ==> |r.value.rest| + width == |s| && r.value.value < Exp(256, width)
    ensures r.Ok? <==> 1 <= width <= 8 && |s| >= width
  {
    if !(1 <= width <= 8) then Err(OutOfRange)
    else if width > |s| then Err(UnexpectedEof)
    else
      FromBytesBound(order, s[..width]);
      ExpWidths();
      ExpMonotone(256, width, 8);
      Ok(Step(FromBytes(order, s[..width]), s[width..]))
  }

  function ReadU8(s: seq<uint8>): Result<Step<uint8>> {
    if s == [] then Err(UnexpectedEof) else Ok(Step(s[0], s[1..]))
  }

  function ReadU16(order: ByteOrder, s: seq<uint8>): (r: Result<Step<uint16>>)
    ensures r.Ok? <==> |s| >= 2
  {
    ExpWidths();
    var Step(value, rest) :- ReadUint(order, 2, s);
    Ok(Step(value, rest))
  }

  function ReadU32(order: ByteOrder, s: seq<uint8>): (r: Result<Step<uint32>>)
    ensures r.Ok? <==> |s| >= 4
    ensures r.Ok? ==> |r.value.rest| + 4 == |s|
    ensures r.Err? ==> r.error == UnexpectedEof
  {
    ExpWidths();
    var Step(value, rest) :- ReadUint(order, 4, s);
    Ok(Step(value, rest))
  }

  function ReadU64(order: ByteOrder, s: seq<uint8>): Result<Step<uint64>> {
    ReadUint(order, 8, s)
  }

  /** A value that must use up its whole input. */
  function AllConsumed<T>(parsed: Result<Step<T>>): Result<T> {
    var Step(value, rest) :- parsed;
    if rest != [] then Err(InvalidFormat) else Ok(value)
  }

  // ----------------------------------------------------- writing, as functions

  function WriteUint(order: ByteOrder, value: uint64, width: nat): Result<seq<uint8>> {
    if !(1 <= width <= 8) || value >= Exp(256, width) then Err(OutOfRange)
    else Ok(ToBytes(order, value, width))
  }

  function WriteU16(order: ByteOrder, value: uint16): (bytes: seq<uint8>)
    ensures |bytes| == 2
  {
    ToBytes(order, value, 2)
  }

  function WriteU32(order: ByteOrder, value: uint32): (bytes: seq<uint8>)
    ensures |bytes| == 4
  {
    ToBytes(order, value, 4)
  }

  function WriteU64(order: ByteOrder, value: uint64): (bytes: seq<uint8>)
    ensures |bytes| == 8
  {
    ToBytes(order, value, 8)
  }

  /** Reading back an integer written at any legal width, whatever follows it. */
  lemma ReadWriteUint(order: ByteOrder, value: uint64, width: nat, rest: seq<uint8>)
    requires WriteUint(order, value, width).Ok?
    ensures ReadUint(order, width, WriteUint(order, value, width).value + rest) == Ok(Step(value, rest))
  {
    var bytes := ToBytes(order, value, width);
    FromToBytes(order, value, width);
    assert (bytes + rest)[..width] == bytes;
    assert (bytes + rest)[width..] == rest;
  }

  lemma ReadWriteU16(order: ByteOrder, value: uint16, rest: seq<uint8>)
    ensures ReadU16(order, WriteU16(order, value) + rest) == Ok(Step(value, rest))
  {
    ExpWidths();
    ReadWriteUint(order, value, 2, rest);
  }

  lemma ReadWriteU32(order: ByteOrder, value: uint32, rest: seq<uint8>)
    ensures ReadU32(order, WriteU32(order, value) + rest) == Ok(Step(value, rest))
  {
    ExpWidths();
    ReadWriteUint(order, value, 4, rest);
  }

  lemma ReadWriteU64(order: ByteOrder, value: uint64, rest: seq<uint8>)
    ensures ReadU64(order, WriteU64(order, value) + rest) == Ok(Step(value, rest))
  {
    ExpWidths();
    ReadWriteUint(order, value, 8, rest);
  }

  // ------------------------------------------------------------------ alignment

  /** `checked_next_multiple_of` without the overflow case. */
  function AlignUp(value: nat, alignment: nat): (aligned: nat)
    requires alignment > 0
    ensures value <= aligned < value + alignment
    ensures aligned % alignment == 0
  {
    if value % alignment == 0 then value
    else
      NextMultiple(value, alignment);
      value + (alignment - value % alignment)
  }

  lemma NextMultiple(value: nat, alignment: nat)
    requires alignment > 0
    ensures (value + (alignment - value % alignment)) % alignment == 0
  {
    var quotient := value / alignment;
    assert value + (alignment - value % alignment) == (quotient + 1) * alignment;
    DivModUnique(alignment, quotient + 1, 0);
  }

  lemma SingleByte(order: ByteOrder, s: seq<uint8>)
    requires |s| >= 1
    ensures FromBytes(order, s[..1]) == s[0]
  {
    assert s[..1][1..] == [] && s[..1][..0] == [];
    assert FromBytes(order, []) == 0;
  }

  // --------------------------------------------------------- accumulating loops

  /** What a list parser gives once `done` has been parsed already. */
  function Joined<T>(done: seq<T>, rest: Result<Step<seq<T>>>): Result<Step<seq<T>>> {
    match rest
    case Ok(Step(tail, after)) => Ok(Step(done + tail, after))
    case Err(error) => Err(error)
  }

  lemma JoinedNext<T>(done: seq<T>, next: T, rest: Result<Step<seq<T>>>)
    ensures Joined(done, Joined([next], rest)) == Joined(done + [next], rest)
  {
    if rest.Ok? {
      assert done + ([next] + rest.value.value) == done + [next] + rest.value.value;
    }
  }

  lemma JoinedNothing<T>(rest: Result<Step<seq<T>>>)
    ensures Joined([], rest) == rest
  {
    if rest.Ok? {
      assert [] + rest.value.value == rest.value.value;
    }
  }

  /** The same for a list that is not followed by further input. */
  function Collected<T>(done: seq<T>, rest: Result<seq<T>>): Result<seq<T>> {
    match rest
    case Ok(tail) => Ok(done + tail)
    case Err(error) => Err(error)
  }

  lemma CollectedNext<T>(done: seq<T>, next: seq<T>, rest: Result<seq<T>>)
    ensures Collected(done, Collected(next, rest)) == Collected(done + next, rest)
  {
    if rest.Ok? {
      assert done + (next + rest.value) == done + next + rest.value;
    }
  }

  lemma CollectedNothing<T>(rest: Result<seq<T>>)
    ensures Collected([], rest) == rest
  {
    if rest.Ok? {
      assert [] + rest.value == rest.value;
    }
  }

  /** What an encoder gives once `done` has been written already. */
  function Appended(done: seq<uint8>, rest: Result<seq<uint8>>): Result<seq<uint8>> {
    match rest
    case Ok(bytes) => Ok(done + bytes)
    case Err(error) => Err(error)
  }

  lemma AppendedNext(done: seq<uint8>, next: seq<uint8>, rest: Result<seq<uint8>>)
    ensures Appended(done, Appended(next, rest)) == Appended(done + next, rest)
  {
    if rest.Ok? {
      AppendAssociates(done, next, rest.value);
    }
  }

  lemma AppendedNothing(rest: Result<seq<uint8>>)
    ensures Appended([], rest) == rest
  {
    if rest.Ok? {
      assert [] + rest.value == rest.value;
    }
  }
}
