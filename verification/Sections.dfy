/** The sections the writer of src/writer/encode.rs lays out, and reading them
    back entry by entry. */
module Sections {
  import opened Words
  import opened Wrappers
  import opened Wire
  import opened Endian
  import opened Headers
  import opened Layout
  import opened Model
  import opened FunctionInfo
  import opened FunctionCodec

  // ------------------------------------------------------------ fixed-width tables

  function UintTable(order: ByteOrder, values: seq<uint64>, width: nat): seq<uint8> {
    if values == [] then [] else ToBytes(order, values[0], width) + UintTable(order, values[1..], width)
  }

  lemma {:induction false} UintTableSize(order: ByteOrder, values: seq<uint64>, width: nat)
    ensures |UintTable(order, values, width)| == |values| * width
  {
    if values != [] {
      UintTableSize(order, values[1..], width);
      assert |values| * width == width + (|values| - 1) * width;
    }
  }

  lemma {:induction false} UintTableSnoc(order: ByteOrder, values: seq<uint64>, width: nat, value: uint64)
    ensures UintTable(order, values + [value], width) == UintTable(order, values, width) + ToBytes(order, value, width)
  {
    if values == [] {
      assert values + [value] == [value] && [value][1..] == [];
      assert UintTable(order, [], width) == [];
    } else {
      UintTableSnoc(order, values[1..], width, value);
      assert (values + [value])[1..] == values[1..] + [value];
      AppendAssociates(ToBytes(order, values[0], width), UintTable(order, values[1..], width), ToBytes(order, value, width));
    }
  }

  /** From entry `i` on, the table is that entry and what follows. */
  lemma {:induction false} UintTableFrom(order: ByteOrder, values: seq<uint64>, width: nat, i: nat)
    requires i < |values|
    ensures i * width <= |UintTable(order, values, width)|
    ensures UintTable(order, values, width)[i * width..]
         == ToBytes(order, values[i], width) + UintTable(order, values[i + 1..], width)
    decreases i
  {
    UintTableSize(order, values, width);
    EntryBelow(i, |values|, width);
    if i == 0 {
      assert 0 * width == 0;
    } else {
      UintTableFrom(order, values[1..], width, i - 1);
      UintTableSize(order, values[1..], width);
      EntryBelow(i - 1, |values| - 1, width);
      assert values[1..][i..] == values[i + 1..];
      assert i * width == width + (i - 1) * width;
      DropPrefix(ToBytes(order, values[0], width), UintTable(order, values[1..], width), (i - 1) * width);
    }
  }

  lemma EntryBelow(i: nat, n: nat, width: nat)
    requires i < n
    ensures 0 <= i * width <= n * width
  {
    assert (n - i) * width >= 0;
  }

  lemma DropPrefix(a: seq<uint8>, b: seq<uint8>, k: nat)
    requires k <= |b|
    ensures (a + b)[|a| + k..] == b[k..]
  {
  }

  predicate Fits(values: seq<uint64>, width: nat) {
    forall i :: 0 <= i < |values| ==> values[i] < Exp(256, width)
  }

  /** Reading an entry, whatever follows the table. */
  lemma UintTableReads(order: ByteOrder, values: seq<uint64>, width: nat, i: nat, rest: seq<uint8>)
    requires i < |values| && 1 <= width <= 8 && Fits(values, width)
    ensures i * width <= |UintTable(order, values, width)|
    ensures ReadUint(order, width, UintTable(order, values, width)[i * width..] + rest)
         == Ok(Step(values[i], UintTable(order, values[i + 1..], width) + rest))
  {
    hide ReadUint, UintTable;
    UintTableFrom(order, values, width, i);
    var tail := UintTable(order, values[i + 1..], width) + rest;
    AppendAssociates(ToBytes(order, values[i], width), UintTable(order, values[i + 1..], width), rest);
    ReadWriteUint(order, values[i], width, tail);
  }

  /** File entries as one list of offsets. */
  function Flatten(pairs: seq<(uint64, uint64)>): (values: seq<uint64>)
    ensures |values| == 2 * |pairs|
    ensures forall i :: 0 <= i < |pairs| ==> values[2 * i] == pairs[i].0 && values[2 * i + 1] == pairs[i].1
  {
    if pairs == [] then [] else [pairs[0].0, pairs[0].1] + Flatten(pairs[1..])
  }

  method WriteTable(output: Encoder, values: seq<uint64>, width: uint8) returns (r: Result<Unit>)
    requires 1 <= width <= 8
    modifies output
    ensures r.Ok? <==> Fits(values, width)
    ensures r.Ok? ==> output.bytes == old(output.bytes) + UintTable(output.order, values, width)
  {
    hide ToBytes, Exp;
    for i := 0 to |values|
      invariant Fits(values[..i], width)
      invariant output.bytes == old(output.bytes) + UintTable(output.order, values[..i], width)
    {
      assert values[..i + 1] == values[..i] + [values[i]];
      UintTableSnoc(output.order, values[..i], width, values[i]);
      AppendAssociates(old(output.bytes), UintTable(output.order, values[..i], width), ToBytes(output.order, values[i], width));
      var written := output.WriteUint(values[i], width);
      if written.Err? {
        return Err(written.error);
      }
    }
    assert values[..|values|] == values;
    return Ok(Unit);
  }

  // ------------------------------------------------------------- the function section

  /** The encoding of the function lies at the position. */
  ghost predicate FunctionAtPosition(bytes: seq<uint8>, position: int, f: EncodedFunction, order: ByteOrder, width: nat) {
    var encoded := EncodeFunction(f, order, width, 0);
    && encoded.Ok?
    && 0 <= position && position + |encoded.value| <= |bytes|
    && bytes[position..position + |encoded.value|] == encoded.value
  }

  lemma FunctionAtPositionGrows(
    bytes: seq<uint8>, more: seq<uint8>, position: int, f: EncodedFunction, order: ByteOrder, width: nat)
    requires FunctionAtPosition(bytes, position, f, order, width) && bytes <= more
    ensures FunctionAtPosition(more, position, f, order, width)
  {
    hide EncodeFunction;
    var size := |EncodeFunction(f, order, width, 0).value|;
    assert more[..|bytes|] == bytes;
    assert more[position..position + size] == bytes[position..position + size];
  }

  /** The records laid out from a position on: where each starts, and their bytes with
      the padding in between. */
  ghost function SectionFrom(functions: seq<EncodedFunction>, order: ByteOrder, width: nat, position: nat): Result<(seq<nat>, seq<uint8>)>
    decreases |functions|
  {
    if functions == [] then Ok(([], []))
    else
      var aligned := AlignUp(position, 4);
      var first :- EncodeFunction(functions[0], order, width, 0);
      var rest :- SectionFrom(functions[1..], order, width, aligned + |first|);
      Ok(([aligned] + rest.0, Zeros(aligned - position) + first + rest.1))
  }

  /** What a section amounts to once the first records are written. */
  ghost function SectionWith(offsets: seq<nat>, bytes: seq<uint8>, tail: Result<(seq<nat>, seq<uint8>)>): Result<(seq<nat>, seq<uint8>)> {
    match tail
    case Ok(rest) => Ok((offsets + rest.0, bytes + rest.1))
    case Err(error) => Err(error)
  }

  lemma SectionNext(
    functions: seq<EncodedFunction>, i: nat, order: ByteOrder, width: nat, base: nat, offsets: seq<nat>, bytes: seq<uint8>)
    requires i < |functions|
    ensures
      var position := base + |bytes|;
      var aligned := AlignUp(position, 4);
      var encoded := EncodeFunction(functions[i], order, width, 0);
      SectionWith(offsets, bytes, SectionFrom(functions[i..], order, width, position)) ==
        match encoded
        case Err(error) => Err(error)
        case Ok(first) =>
          SectionWith(offsets + [aligned], bytes + Zeros(aligned - position) + first,
                      SectionFrom(functions[i + 1..], order, width, aligned + |first|))
  {
    hide EncodeFunction, AlignUp, Zeros;
    assert functions[i..][0] == functions[i] && functions[i..][1..] == functions[i + 1..];
    var position := base + |bytes|;
    var aligned := AlignUp(position, 4);
    var encoded := EncodeFunction(functions[i], order, width, 0);
    if encoded.Ok? {
      var rest := SectionFrom(functions[i + 1..], order, width, aligned + |encoded.value|);
      if rest.Ok? {
        SectionJoins(offsets, aligned, rest.value.0, bytes, Zeros(aligned - position), encoded.value, rest.value.1);
      }
    }
  }

  lemma SectionJoins(
    offsets: seq<nat>, offset: nat, later: seq<nat>, bytes: seq<uint8>, zeros: seq<uint8>, first: seq<uint8>, rest: seq<uint8>)
    ensures offsets + ([offset] + later) == offsets + [offset] + later
    ensures bytes + (zeros + first + rest) == bytes + zeros + first + rest
  {
    AppendAssociates(bytes, zeros + first, rest);
    AppendAssociates(bytes, zeros, first);
  }

  lemma SectionStarts(functions: seq<EncodedFunction>, order: ByteOrder, width: nat, base: nat)
    ensures functions[0..] == functions
    ensures SectionWith([], [], SectionFrom(functions, order, width, base)) == SectionFrom(functions, order, width, base)
  {
    hide SectionFrom;
    var all := SectionFrom(functions, order, width, base);
    if all.Ok? {
      assert [] + all.value.0 == all.value.0 && [] + all.value.1 == all.value.1;
    }
  }

  lemma SectionEnds(functions: seq<EncodedFunction>, order: ByteOrder, width: nat, position: nat, offsets: seq<nat>, bytes: seq<uint8>)
    ensures SectionWith(offsets, bytes, SectionFrom(functions[|functions|..], order, width, position)) == Ok((offsets, bytes))
  {
    assert functions[|functions|..] == [];
    assert offsets + [] == offsets && bytes + [] == bytes;
  }

  /** `encode_function_section`: every record starts at a multiple of four in
      absolute file space, where `base` is the position of the section. */
  method WriteFunctionSection(functions: seq<EncodedFunction>, order: ByteOrder, width: uint8, base: nat)
    returns (r: Result<(seq<nat>, seq<uint8>)>)
    ensures r == SectionFrom(functions, order, width, base)
    ensures r.Ok? ==>
      var (offsets, bytes) := r.value;
      && |offsets| == |functions|
      && forall i :: 0 <= i < |functions| ==>
           && offsets[i] % 4 == 0 && base <= offsets[i] < base + |bytes|
           && FunctionAtPosition(bytes, offsets[i] - base, functions[i], order, width)
  {
    hide EncodeFunction, FunctionAtPosition, AlignUp, SectionFrom, SectionWith;
    SectionStarts(functions, order, width, base);
    var output := new Encoder(order);
    var offsets: seq<nat> := [];
    for i := 0 to |functions|
      invariant output.order == order && |offsets| == i
      invariant forall k :: 0 <= k < i ==>
        && offsets[k] % 4 == 0 && base <= offsets[k] < base + |output.bytes|
        && FunctionAtPosition(output.bytes, offsets[k] - base, functions[k], order, width)
      invariant SectionWith(offsets, output.bytes, SectionFrom(functions[i..], order, width, base + |output.bytes|))
        == SectionFrom(functions, order, width, base)
    {
      SectionNext(functions, i, order, width, base, offsets, output.bytes);
      ghost var before := output.bytes;
      var absolute := base + |output.bytes|;
      var aligned := AlignUp(absolute, 4);
      output.WriteBytes(Zeros(aligned - absolute));
      ghost var padded := output.bytes;
      var written := WriteFunction(output, functions[i], width, 0);
      if written.Err? {
        return Err(written.error);
      }
      FunctionAppended(padded, functions[i], order, width, output.bytes);
      assert before <= output.bytes;
      forall k | 0 <= k < i
        ensures FunctionAtPosition(output.bytes, offsets[k] - base, functions[k], order, width)
      {
        FunctionAtPositionGrows(before, output.bytes, offsets[k] - base, functions[k], order, width);
      }
      offsets := offsets + [aligned];
    }
    SectionEnds(functions, order, width, base + |output.bytes|, offsets, output.bytes);
    return Ok((offsets, output.bytes));
  }

  lemma FunctionAppended(before: seq<uint8>, f: EncodedFunction, order: ByteOrder, width: nat, after: seq<uint8>)
    requires EncodeFunction(f, order, width, 0).Ok? && after == before + EncodeFunction(f, order, width, 0).value
    ensures FunctionAtPosition(after, |before|, f, order, width)
    ensures |after| > |before|
  {
    EncodedNotEmpty(f, order, width);
    hide EncodeFunction;
  }

  lemma EncodedNotEmpty(f: EncodedFunction, order: ByteOrder, width: nat)
    requires EncodeFunction(f, order, width, 0).Ok?
    ensures |EncodeFunction(f, order, width, 0).value| > 0
  {
    hide EncodeFunctionHeader, EncodeLinesPart, EncodeInlinePart, EncodeMergedPart, EncodeCallSitesPart;
  }

  // --------------------------------------------------------------- sections in a file

  predicate SectionIs(data: seq<uint8>, span: Span, bytes: seq<uint8>) {
    span.InBounds(data) && span.Of(data) == bytes
  }

  lemma SectionSuffix(data: seq<uint8>, span: Span, bytes: seq<uint8>, k: nat)
    requires SectionIs(data, span, bytes) && k <= |bytes|
    ensures span.start + k <= |data| && data[span.start + k..] == bytes[k..] + data[span.end..]
  {
    assert data[span.start..] == data[span.start..span.end] + data[span.end..];
  }

  lemma SectionBetween(a: seq<uint8>, b: seq<uint8>, c: seq<uint8>)
    ensures SectionIs(a + b + c, Span(|a|, |a| + |b|), b)
  {
  }
}
