/** The loops of src/format/line.rs over the cursor and the encoder, proved
    against the functions of module Line. */
module LineCodec {
  import opened Words
  import opened Wrappers
  import opened Wire
  import opened Endian
  import opened Leb
  import opened Model
  import opened DeltaRange
  import opened Line

  /** Executes the opcode at the cursor on the registers `row`. */
  method ReadEffect(cursor: Cursor, minimum: int64, lineRange: nat, row: LineEntry) returns (r: Result<Effect>)
    requires cursor.Valid() && lineRange > 0
    modifies cursor
    ensures cursor.Valid()
    ensures Agrees(r, NextEffect(old(cursor.Rest()), minimum, lineRange, row), cursor.Rest())
  {
    hide ReadUlebBits, ReadSlebBits, SpecialRow;
    var opcode := cursor.ReadU8();
    if opcode.Err? {
      return Err(InvalidFormat);
    }
    if opcode.value == END_SEQUENCE {
      return Ok(Stop);
    }
    if opcode.value == SET_FILE {
      var file :- ReadUlebBounded(cursor, 64);
      if file >= U32_LIMIT {
        return Err(OutOfRange);
      }
      return Ok(Update(row.(file := file)));
    }
    if opcode.value == ADVANCE_PC {
      var delta :- ReadUlebBounded(cursor, 64);
      var address :- AddAddress(row.address, delta);
      return Ok(Emit(row.(address := address)));
    }
    if opcode.value == ADVANCE_LINE {
      var delta :- ReadSlebBounded(cursor, 64);
      var line :- AddLineDelta(row.line, delta);
      return Ok(Update(row.(line := line)));
    }
    var next :- SpecialRow(opcode.value, minimum, lineRange, row);
    return Ok(Emit(next));
  }

  method ReadStart(cursor: Cursor, base: uint64) returns (r: Result<Start>)
    requires cursor.Valid()
    modifies cursor
    ensures cursor.Valid()
    ensures Agrees(r, ParseStart(old(cursor.Rest()), base), cursor.Rest())
  {
    hide ReadUlebBits, ReadSlebBits;
    var minimum :- ReadSlebBounded(cursor, 64);
    var maximum :- ReadSlebBounded(cursor, 64);
    var lineRange :- SpecialLineRange(Window(minimum, maximum));
    var first :- ReadUlebBounded(cursor, 64);
    if first >= U32_LIMIT {
      return Err(OutOfRange);
    }
    return Ok(Start(minimum, lineRange, LineEntry(base, 1, first)));
  }

  /** The interpreter loop, with the row callback as a value. */
  method ParseProgram(cursor: Cursor, base: uint64, initial: Sink) returns (r: Result<Sink>)
    requires cursor.Valid()
    modifies cursor
    ensures cursor.Valid()
    ensures r == Parse(old(cursor.Rest()), base, initial)
  {
    hide NextEffect, ParseStart;
    ghost var input := cursor.Rest();
    var start :- ReadStart(cursor, base);
    var row, sink := start.row, initial;
    while true
      invariant cursor.Valid()
      invariant Feed(cursor.Rest(), start.minimum, start.lineRange, row, sink) == Parse(input, base, initial)
      decreases |cursor.Rest()|
    {
      var effect :- ReadEffect(cursor, start.minimum, start.lineRange, row);
      match effect
      case Stop =>
        return Ok(sink);
      case Update(next) =>
        row := next;
      case Emit(next) =>
        var wanted := Wants(sink, next);
        sink := Accept(sink, next);
        if !wanted {
          return Ok(sink);
        }
        row := next;
    }
  }

  method DecodeLines(bytes: seq<uint8>, order: ByteOrder, base: uint64) returns (r: Result<seq<LineEntry>>)
    ensures r == DecodeRows(bytes, base)
  {
    var cursor := new Cursor(bytes, order);
    ParseCollects(bytes, base);
    var sink := ParseProgram(cursor, base, Collect([]));
    match sink
    case Ok(Collect(rows)) => return Ok(rows);
    case Err(error) => return Err(error);
  }

  /** The early-stopping lookup: on a payload that decodes, the row in effect. */
  method LookupLine(bytes: seq<uint8>, order: ByteOrder, base: uint64, address: uint64)
    returns (r: Result<Option<LineEntry>>)
    ensures DecodeRows(bytes, base).Ok? ==> r == Ok(InEffect(DecodeRows(bytes, base).value, address))
  {
    var cursor := new Cursor(bytes, order);
    if DecodeRows(bytes, base).Ok? {
      LookupFindsRowInEffect(bytes, base, address);
    }
    FeedKeepsSeeking(bytes, base, address);
    var sink :- ParseProgram(cursor, base, Seek(address, None));
    return Ok(sink.found);
  }

  lemma {:induction false} FeedShape(s: seq<uint8>, minimum: int64, lineRange: nat, row: LineEntry, sink: Sink)
    requires lineRange > 0 && sink.Seek?
    ensures Feed(s, minimum, lineRange, row, sink).Ok? ==> Feed(s, minimum, lineRange, row, sink).value.Seek?
    decreases |s|
  {
    hide NextEffect;
    var step := NextEffect(s, minimum, lineRange, row);
    if step.Ok? && !step.value.value.Stop? {
      var next := step.value.value.row;
      FeedShape(step.value.rest, minimum, lineRange, next, sink);
      FeedShape(step.value.rest, minimum, lineRange, next, Accept(sink, next));
    }
  }

  lemma FeedKeepsSeeking(bytes: seq<uint8>, base: uint64, address: uint64)
    ensures var sink := Parse(bytes, base, Seek(address, None)); sink.Ok? ==> sink.value.Seek?
  {
    hide ParseStart;
    var start := ParseStart(bytes, base);
    if start.Ok? {
      var Start(minimum, lineRange, row) := start.value.value;
      FeedShape(start.value.rest, minimum, lineRange, row, Seek(address, None));
    }
  }

  /** Writes the opcodes that lead from `previous` to `current`. */
  method WriteRow(output: Encoder, w: Window, base: uint64, previous: LineEntry, current: LineEntry)
    returns (r: Result<Unit>)
    modifies output
    ensures Wrote(r, RowBytes(w, base, previous, current), old(output.bytes), output.bytes)
  {
    hide UlebBytes, SlebBytes, SpecialOpcode;
    if current.address < base {
      return Err(InvalidModel);
    }
    if current.address < previous.address {
      return Err(InvalidModel);
    }
    var addressDelta := current.address - previous.address;
    var lineDelta: int := (current.line as int) - previous.line;
    if current.file != previous.file {
      output.WriteU8(SET_FILE);
      WriteUleb(output, current.file);
    }
    assert output.bytes == old(output.bytes) + FileBytes(previous, current);
    match SpecialOpcode(w, lineDelta, addressDelta)
    case Some(special) =>
      output.WriteU8(special);
      return Ok(Unit);
    case None =>
      if lineDelta != 0 {
        output.WriteU8(ADVANCE_LINE);
        WriteSleb(output, lineDelta);
      }
      output.WriteU8(ADVANCE_PC);
      WriteUleb(output, addressDelta);
      return Ok(Unit);
  }

  method EncodeLines(lines: seq<LineEntry>, output: Encoder, base: uint64) returns (r: Result<Unit>)
    modifies output
    ensures Wrote(r, EncodeRows(lines, base), old(output.bytes), output.bytes)
  {
    hide UlebBytes, SlebBytes, RowBytes, ChosenWindow;
    if lines == [] {
      return Err(InvalidModel);
    }
    var w := ChooseDeltaRange(lines);
    WriteSleb(output, w.minimum);
    WriteSleb(output, w.maximum);
    WriteUleb(output, lines[0].line);
    ghost var header := output.bytes;
    var previous := LineEntry(base, 1, lines[0].line);
    ghost var all := RowsBytes(w, base, previous, lines);
    ghost var done: seq<uint8> := [];
    assert lines[0..] == lines;
    AppendedNothing(all);
    for i := 0 to |lines|
      invariant output.bytes == header + done
      invariant Appended(done, RowsBytes(w, base, previous, lines[i..])) == all
    {
      assert lines[i..][1..] == lines[i + 1..];
      ghost var row := RowBytes(w, base, previous, lines[i]);
      var _ :- WriteRow(output, w, base, previous, lines[i]);
      AppendedNext(done, row.value, RowsBytes(w, base, lines[i], lines[i + 1..]));
      done := done + row.value;
      previous := lines[i];
    }
    output.WriteU8(END_SEQUENCE);
    return Ok(Unit);
  }
}
