/** The address-to-line program of src/format/line.rs. */
module Line {
  import opened Words
  import opened Wrappers
  import opened Wire
  import opened Endian
  import opened Leb
  import opened Model
  import opened DeltaRange

  const END_SEQUENCE: uint8 := 0
  const SET_FILE: uint8 := 1
  const ADVANCE_PC: uint8 := 2
  const ADVANCE_LINE: uint8 := 3
  const FIRST_SPECIAL: uint8 := 4

  // ------------------------------------------------------------- one opcode

  /** What one opcode does: end the program, change the registers silently, or
      change them and emit a row. */
  datatype Effect = Stop | Update(row: LineEntry) | Emit(row: LineEntry)

  function SpecialLineRange(w: Window): Result<nat> {
    if w.maximum < w.minimum then Err(InvalidFormat)
    else if w.maximum - w.minimum >= I64_LIMIT then Err(Overflow)
    else Ok(w.maximum - w.minimum + 1)
  }

  function AddLineDelta(line: uint32, delta: int): Result<uint32> {
    var value := line + delta;
    if 0 <= value < U32_LIMIT then Ok(value) else Err(MalformedLine)
  }

  function AddAddress(address: uint64, delta: nat): Result<uint64> {
    if address + delta >= U64_LIMIT then Err(Overflow) else Ok(address + delta)
  }

  function SpecialRow(opcode: uint8, minimum: int64, lineRange: nat, row: LineEntry): Result<LineEntry>
    requires opcode >= FIRST_SPECIAL && lineRange > 0
  {
    var adjusted := opcode - FIRST_SPECIAL;
    var lineDelta := minimum + adjusted % lineRange;
    if lineDelta >= I64_LIMIT then Err(Overflow)
    else
      var line :- AddLineDelta(row.line, lineDelta);
      var address :- AddAddress(row.address, adjusted / lineRange);
      Ok(row.(line := line, address := address))
  }

  function NextEffect(s: seq<uint8>, minimum: int64, lineRange: nat, row: LineEntry): (r: Result<Step<Effect>>)
    requires lineRange > 0
    ensures r.Ok? ==> |r.value.rest| < |s|
    ensures r.Ok? && !r.value.value.Stop? ==> r.value.value.row.address >= row.address
  {
    if s == [] then Err(InvalidFormat)
    else
      var opcode, rest := s[0], s[1..];
      if opcode == END_SEQUENCE then Ok(Step(Stop, rest))
      else if opcode == SET_FILE then
        var Step(file, rest) :- ReadUleb(rest);
        if file >= U32_LIMIT then Err(OutOfRange) else Ok(Step(Update(row.(file := file)), rest))
      else if opcode == ADVANCE_PC then
        var Step(delta, rest) :- ReadUleb(rest);
        var address :- AddAddress(row.address, delta);
        Ok(Step(Emit(row.(address := address)), rest))
      else if opcode == ADVANCE_LINE then
        var Step(delta, rest) :- ReadSleb(rest);
        var line :- AddLineDelta(row.line, delta);
        Ok(Step(Update(row.(line := line)), rest))
      else
        var next :- SpecialRow(opcode, minimum, lineRange, row);
        Ok(Step(Emit(next), rest))
  }

  // --------------------------------------------------------- the whole program

  /** The rows that the opcodes emit from registers `row` on. */
  function RowsFrom(s: seq<uint8>, minimum: int64, lineRange: nat, row: LineEntry): (r: Result<seq<LineEntry>>)
    requires lineRange > 0
    decreases |s|
  {
    var Step(effect, rest) :- NextEffect(s, minimum, lineRange, row);
    match effect
    case Stop => Ok([])
    case Update(next) => RowsFrom(rest, minimum, lineRange, next)
    case Emit(next) =>
      var tail :- RowsFrom(rest, minimum, lineRange, next);
      Ok([next] + tail)
  }

  datatype Start = Start(minimum: int64, lineRange: nat, row: LineEntry)

  function ParseStart(s: seq<uint8>, base: uint64): (r: Result<Step<Start>>)
    ensures r.Ok? ==> r.value.value.lineRange > 0
  {
    var Step(minimum, s) :- ReadSleb(s);
    var Step(maximum, s) :- ReadSleb(s);
    var lineRange :- SpecialLineRange(Window(minimum, maximum));
    var Step(first, s) :- ReadUleb(s);
    if first >= U32_LIMIT then Err(OutOfRange)
    else Ok(Step(Start(minimum, lineRange, LineEntry(base, 1, first)), s))
  }

  function DecodeRows(s: seq<uint8>, base: uint64): Result<seq<LineEntry>> {
    var Step(start, s) :- ParseStart(s, base);
    RowsFrom(s, start.minimum, start.lineRange, start.row)
  }

  /** The two row callbacks of `parse`: `decode` keeps every row, `lookup`
      keeps the last row at or below an address and then asks to stop. */
  datatype Sink = Collect(rows: seq<LineEntry>) | Seek(address: uint64, found: Option<LineEntry>)

  predicate Wants(sink: Sink, row: LineEntry) {
    sink.Collect? || sink.address >= row.address
  }

  function Accept(sink: Sink, row: LineEntry): Sink {
    match sink
    case Collect(rows) => Collect(rows + [row])
    case Seek(address, _) => if address < row.address then sink else Seek(address, Some(row))
  }

  /** Feeding the emitted rows to a callback that may stop the program early. */
  function Feed(s: seq<uint8>, minimum: int64, lineRange: nat, row: LineEntry, sink: Sink): Result<Sink>
    requires lineRange > 0
    decreases |s|
  {
    var Step(effect, rest) :- NextEffect(s, minimum, lineRange, row);
    match effect
    case Stop => Ok(sink)
    case Update(next) => Feed(rest, minimum, lineRange, next, sink)
    case Emit(next) =>
      if Wants(sink, next) then Feed(rest, minimum, lineRange, next, Accept(sink, next))
      else Ok(Accept(sink, next))
  }

  function Parse(s: seq<uint8>, base: uint64, sink: Sink): Result<Sink> {
    var Step(start, s) :- ParseStart(s, base);
    Feed(s, start.minimum, start.lineRange, start.row, sink)
  }

  // ------------------------------------------- what the two callbacks amount to

  ghost predicate SortedRows(rows: seq<LineEntry>) {
    forall i, j :: 0 <= i < j < |rows| ==> rows[i].address <= rows[j].address
  }

  ghost predicate RowsAtOrAbove(rows: seq<LineEntry>, address: uint64) {
    forall i :: 0 <= i < |rows| ==> rows[i].address >= address
  }

  /** The row in effect at an address: the last one at or below it. */
  function InEffect(rows: seq<LineEntry>, address: uint64): Option<LineEntry> {
    if rows == [] then None
    else if rows[|rows| - 1].address <= address then Some(rows[|rows| - 1])
    else InEffect(rows[..|rows| - 1], address)
  }

  /** Decoded rows come out in address order, none below the base. */
  lemma {:induction false} RowsFromSorted(s: seq<uint8>, minimum: int64, lineRange: nat, row: LineEntry)
    requires lineRange > 0 && RowsFrom(s, minimum, lineRange, row).Ok?
    ensures SortedRows(RowsFrom(s, minimum, lineRange, row).value)
    ensures RowsAtOrAbove(RowsFrom(s, minimum, lineRange, row).value, row.address)
    decreases |s|
  {
    var Step(effect, rest) := NextEffect(s, minimum, lineRange, row).value;
    if !effect.Stop? {
      RowsFromSorted(rest, minimum, lineRange, effect.row);
    }
  }

  lemma {:induction false} FeedCollects(s: seq<uint8>, minimum: int64, lineRange: nat, row: LineEntry, rows: seq<LineEntry>)
    requires lineRange > 0
    ensures Feed(s, minimum, lineRange, row, Collect(rows))
         == match RowsFrom(s, minimum, lineRange, row)
            case Ok(tail) => Ok(Collect(rows + tail))
            case Err(error) => Err(error)
    decreases |s|
  {
    var step := NextEffect(s, minimum, lineRange, row);
    if step.Ok? {
      match step.value.value
      case Stop => assert rows + [] == rows;
      case Update(next) => FeedCollects(step.value.rest, minimum, lineRange, next, rows);
      case Emit(next) =>
        FeedCollects(step.value.rest, minimum, lineRange, next, rows + [next]);
        var tail := RowsFrom(step.value.rest, minimum, lineRange, next);
        if tail.Ok? {
          assert rows + ([next] + tail.value) == rows + [next] + tail.value;
        }
    }
  }

  lemma {:induction false} InEffectCons(row: LineEntry, rows: seq<LineEntry>, address: uint64)
    ensures InEffect([row] + rows, address)
         == if InEffect(rows, address).Some? then InEffect(rows, address)
            else if row.address <= address then Some(row) else None
    decreases |rows|
  {
    var all := [row] + rows;
    if rows == [] {
      assert all[..0] == [];
    } else {
      assert all[..|all| - 1] == [row] + rows[..|rows| - 1];
      InEffectCons(row, rows[..|rows| - 1], address);
    }
  }

  lemma {:induction false} NoneInEffect(rows: seq<LineEntry>, address: uint64)
    requires forall i :: 0 <= i < |rows| ==> rows[i].address > address
    ensures InEffect(rows, address) == None
    decreases |rows|
  {
    if rows != [] {
      NoneInEffect(rows[..|rows| - 1], address);
    }
  }

  /** Stopping early finds the same row as searching the whole decoded table. */
  lemma {:induction false} FeedSeeks(
    s: seq<uint8>, minimum: int64, lineRange: nat, row: LineEntry, address: uint64, found: Option<LineEntry>)
    requires lineRange > 0 && RowsFrom(s, minimum, lineRange, row).Ok?
    ensures
      var hit := InEffect(RowsFrom(s, minimum, lineRange, row).value, address);
      Feed(s, minimum, lineRange, row, Seek(address, found)) == Ok(Seek(address, if hit.Some? then hit else found))
    decreases |s|
  {
    var Step(effect, rest) := NextEffect(s, minimum, lineRange, row).value;
    match effect
    case Stop =>
    case Update(next) => FeedSeeks(rest, minimum, lineRange, next, address, found);
    case Emit(next) =>
      var tail := RowsFrom(rest, minimum, lineRange, next).value;
      InEffectCons(next, tail, address);
      if address < next.address {
        RowsFromSorted(rest, minimum, lineRange, next);
        NoneInEffect(tail, address);
      } else {
        FeedSeeks(rest, minimum, lineRange, next, address, Some(next));
      }
  }

  lemma ParseCollects(s: seq<uint8>, base: uint64)
    ensures Parse(s, base, Collect([]))
         == match DecodeRows(s, base) case Ok(rows) => Ok(Collect(rows)) case Err(error) => Err(error)
  {
    var start := ParseStart(s, base);
    if start.Ok? {
      var Start(minimum, lineRange, row) := start.value.value;
      FeedCollects(start.value.rest, minimum, lineRange, row, []);
      var rows := RowsFrom(start.value.rest, minimum, lineRange, row);
      assert rows.Ok? ==> [] + rows.value == rows.value;
    }
  }

  /** A line lookup on a payload that decodes finds the last decoded row at or
      below the address, and the decoded rows are sorted from the base up. */
  lemma LookupFindsRowInEffect(s: seq<uint8>, base: uint64, address: uint64)
    requires DecodeRows(s, base).Ok?
    ensures Parse(s, base, Seek(address, None)) == Ok(Seek(address, InEffect(DecodeRows(s, base).value, address)))
    ensures SortedRows(DecodeRows(s, base).value)
    ensures RowsAtOrAbove(DecodeRows(s, base).value, base)
  {
    var Step(start, rest) := ParseStart(s, base).value;
    FeedSeeks(rest, start.minimum, start.lineRange, start.row, address, None);
    RowsFromSorted(rest, start.minimum, start.lineRange, start.row);
  }

  // ------------------------------------------------------------------- encoding

  function SpecialOpcode(w: Window, lineDelta: int, addressDelta: nat): Option<uint8> {
    if !w.Holds(lineDelta) then None
    else
      var lineRange := w.maximum - w.minimum + 1;
      var opcode := lineDelta - w.minimum + addressDelta * lineRange + FIRST_SPECIAL;
      if opcode < 0x100 then Some(opcode) else None
  }

  function FileBytes(previous: LineEntry, current: LineEntry): seq<uint8> {
    if current.file != previous.file then [SET_FILE] + UlebBytes(current.file) else []
  }

  function AdvanceBytes(w: Window, lineDelta: int, addressDelta: nat): seq<uint8> {
    match SpecialOpcode(w, lineDelta, addressDelta)
    case Some(special) => [special]
    case None =>
      (if lineDelta != 0 then [ADVANCE_LINE] + SlebBytes(lineDelta) else [])
      + ([ADVANCE_PC] + UlebBytes(addressDelta))
  }

  function RowBytes(w: Window, base: uint64, previous: LineEntry, current: LineEntry): Result<seq<uint8>> {
    if current.address < base || current.address < previous.address then Err(InvalidModel)
    else Ok(FileBytes(previous, current)
            + AdvanceBytes(w, (current.line as int) - previous.line, current.address - previous.address))
  }

  function RowsBytes(w: Window, base: uint64, previous: LineEntry, lines: seq<LineEntry>): Result<seq<uint8>>
    decreases |lines|
  {
    if lines == [] then Ok([END_SEQUENCE])
    else
      var first :- RowBytes(w, base, previous, lines[0]);
      var rest :- RowsBytes(w, base, lines[0], lines[1..]);
      Ok(first + rest)
  }

  ghost function EncodeRows(lines: seq<LineEntry>, base: uint64): Result<seq<uint8>> {
    if lines == [] then Err(InvalidModel)
    else
      var w := ChosenWindow(lines);
      var rows :- RowsBytes(w, base, LineEntry(base, 1, lines[0].line), lines);
      Ok(SlebBytes(w.minimum) + SlebBytes(w.maximum) + UlebBytes(lines[0].line) + rows)
  }

  // ----------------------------------------------------------------- round trip

  /** A window the special opcodes can use. */
  predicate Usable(w: Window) {
    0 <= w.maximum - w.minimum < 252
  }

  function LineRange(w: Window): (n: nat)
    requires Usable(w)
    ensures 1 <= n <= 252
  {
    w.maximum - w.minimum + 1
  }

  function Prepend(row: LineEntry, rows: Result<seq<LineEntry>>): Result<seq<LineEntry>> {
    match rows
    case Ok(tail) => Ok([row] + tail)
    case Err(error) => Err(error)
  }

  /** The special opcode carries both deltas. */
  lemma SpecialRowDecodes(w: Window, previous: LineEntry, current: LineEntry)
    requires Usable(w) && current.file == previous.file && current.address >= previous.address
    requires SpecialOpcode(w, (current.line as int) - previous.line, current.address - previous.address).Some?
    ensures
      var special := SpecialOpcode(w, (current.line as int) - previous.line, current.address - previous.address).value;
      && special >= FIRST_SPECIAL
      && SpecialRow(special, w.minimum, LineRange(w), previous) == Ok(current)
  {
    hide SpecialRow, LineRange;
    SpecialParts(w, (current.line as int) - previous.line, current.address - previous.address);
    SpecialRowOf(w, SpecialOpcode(w, (current.line as int) - previous.line, current.address - previous.address).value, previous, current);
  }

  /** The opcode's remainder and quotient are the two deltas. */
  lemma SpecialParts(w: Window, lineDelta: int, addressDelta: nat)
    requires Usable(w) && SpecialOpcode(w, lineDelta, addressDelta).Some?
    ensures
      var special := SpecialOpcode(w, lineDelta, addressDelta).value;
      && w.Holds(lineDelta) && special >= FIRST_SPECIAL
      && (special - FIRST_SPECIAL) % LineRange(w) == lineDelta - w.minimum
      && (special - FIRST_SPECIAL) / LineRange(w) == addressDelta
  {
    ProductNonnegative(addressDelta, LineRange(w));
    DivModUnique(LineRange(w), addressDelta, lineDelta - w.minimum);
  }

  lemma ProductNonnegative(x: nat, y: nat)
    ensures x * y >= 0
  {
  }

  lemma SpecialRowOf(w: Window, special: uint8, previous: LineEntry, current: LineEntry)
    requires Usable(w) && special >= FIRST_SPECIAL && current.file == previous.file && current.address >= previous.address
    requires w.Holds((current.line as int) - previous.line)
    requires (special - FIRST_SPECIAL) % LineRange(w) == (current.line as int) - previous.line - w.minimum
    requires (special - FIRST_SPECIAL) / LineRange(w) == current.address - previous.address
    ensures SpecialRow(special, w.minimum, LineRange(w), previous) == Ok(current)
  {
    hide LineRange;
  }

  lemma UpdateStep(s: seq<uint8>, minimum: int64, lineRange: nat, previous: LineEntry, next: LineEntry, rest: seq<uint8>)
    requires lineRange > 0 && NextEffect(s, minimum, lineRange, previous) == Ok(Step(Update(next), rest))
    ensures RowsFrom(s, minimum, lineRange, previous) == RowsFrom(rest, minimum, lineRange, next)
  {
    hide NextEffect;
  }

  lemma EmitStep(s: seq<uint8>, minimum: int64, lineRange: nat, previous: LineEntry, next: LineEntry, rest: seq<uint8>)
    requires lineRange > 0 && NextEffect(s, minimum, lineRange, previous) == Ok(Step(Emit(next), rest))
    ensures RowsFrom(s, minimum, lineRange, previous) == Prepend(next, RowsFrom(rest, minimum, lineRange, next))
  {
    hide NextEffect;
  }

  lemma SpecialDecodes(special: uint8, minimum: int64, lineRange: nat, previous: LineEntry, current: LineEntry, rest: seq<uint8>)
    requires lineRange > 0 && special >= FIRST_SPECIAL
    requires SpecialRow(special, minimum, lineRange, previous) == Ok(current)
    ensures RowsFrom([special] + rest, minimum, lineRange, previous)
         == Prepend(current, RowsFrom(rest, minimum, lineRange, current))
  {
    hide RowsFrom, Prepend, SpecialRow, ReadUleb, ReadSleb;
    assert ([special] + rest)[1..] == rest;
    EmitStep([special] + rest, minimum, lineRange, previous, current, rest);
  }

  lemma SetFileDecodes(minimum: int64, lineRange: nat, previous: LineEntry, file: FileIndex, rest: seq<uint8>)
    requires lineRange > 0
    ensures RowsFrom([SET_FILE] + UlebBytes(file) + rest, minimum, lineRange, previous)
         == RowsFrom(rest, minimum, lineRange, previous.(file := file))
  {
    hide RowsFrom, UlebBytes, ReadUleb, ReadSleb, SpecialRow;
    var s := [SET_FILE] + UlebBytes(file) + rest;
    assert s[1..] == UlebBytes(file) + rest;
    UlebInverse(file, rest);
    UpdateStep(s, minimum, lineRange, previous, previous.(file := file), rest);
  }

  lemma AdvanceLineDecodes(minimum: int64, lineRange: nat, previous: LineEntry, line: uint32, rest: seq<uint8>)
    requires lineRange > 0
    ensures RowsFrom([ADVANCE_LINE] + SlebBytes((line as int) - previous.line) + rest, minimum, lineRange, previous)
         == RowsFrom(rest, minimum, lineRange, previous.(line := line))
  {
    hide RowsFrom, SlebBytes, ReadUleb, ReadSleb, SpecialRow;
    var delta: int64 := (line as int) - previous.line;
    var s := [ADVANCE_LINE] + SlebBytes(delta) + rest;
    assert s[1..] == SlebBytes(delta) + rest;
    SlebInverse(delta, rest);
    UpdateStep(s, minimum, lineRange, previous, previous.(line := line), rest);
  }

  lemma AdvancePcDecodes(minimum: int64, lineRange: nat, previous: LineEntry, address: uint64, rest: seq<uint8>)
    requires lineRange > 0 && address >= previous.address
    ensures
      var row := previous.(address := address);
      RowsFrom([ADVANCE_PC] + UlebBytes(address - previous.address) + rest, minimum, lineRange, previous)
        == Prepend(row, RowsFrom(rest, minimum, lineRange, row))
  {
    hide RowsFrom, Prepend, UlebBytes, ReadUleb, ReadSleb, SpecialRow;
    var delta := address - previous.address;
    var s := [ADVANCE_PC] + UlebBytes(delta) + rest;
    assert s[1..] == UlebBytes(delta) + rest;
    UlebInverse(delta, rest);
    EmitStep(s, minimum, lineRange, previous, previous.(address := address), rest);
  }

  /** A silent opcode `x` before the opcodes `y` that emit one row. */
  lemma SilentThenEmit(
    x: seq<uint8>, y: seq<uint8>, rest: seq<uint8>, minimum: int64, lineRange: nat,
    previous: LineEntry, updated: LineEntry, current: LineEntry)
    requires lineRange > 0
    requires RowsFrom(x + (y + rest), minimum, lineRange, previous) == RowsFrom(y + rest, minimum, lineRange, updated)
    requires RowsFrom(y + rest, minimum, lineRange, updated)
          == Prepend(current, RowsFrom(rest, minimum, lineRange, current))
    ensures RowsFrom(x + y + rest, minimum, lineRange, previous)
         == Prepend(current, RowsFrom(rest, minimum, lineRange, current))
  {
    AppendAssociates(x, y, rest);
  }

  /** Without a special opcode, the line moves first and the address emits. */
  lemma SlowAdvanceDecodes(minimum: int64, lineRange: nat, previous: LineEntry, current: LineEntry, rest: seq<uint8>)
    requires lineRange > 0 && current.file == previous.file && current.address >= previous.address
    ensures
      var lineDelta: int := (current.line as int) - previous.line;
      var line := if lineDelta != 0 then [ADVANCE_LINE] + SlebBytes(lineDelta) else [];
      var pc := [ADVANCE_PC] + UlebBytes(current.address - previous.address);
      RowsFrom(line + pc + rest, minimum, lineRange, previous)
        == Prepend(current, RowsFrom(rest, minimum, lineRange, current))
  {
    hide *;
    var lineDelta: int := (current.line as int) - previous.line;
    var pc := [ADVANCE_PC] + UlebBytes(current.address - previous.address);
    AdvancePcDecodes(minimum, lineRange, previous.(line := current.line), current.address, rest);
    if lineDelta != 0 {
      var line := [ADVANCE_LINE] + SlebBytes(lineDelta);
      AdvanceLineDecodes(minimum, lineRange, previous, current.line, pc + rest);
      SilentThenEmit(line, pc, rest, minimum, lineRange, previous, previous.(line := current.line), current);
    } else {
      assert [] + pc == pc;
    }
  }

  /** The opcodes that move one row on emit exactly that row. */
  lemma AdvanceDecodes(w: Window, previous: LineEntry, current: LineEntry, rest: seq<uint8>)
    requires Usable(w) && current.file == previous.file && current.address >= previous.address
    ensures
      var bytes := AdvanceBytes(w, (current.line as int) - previous.line, current.address - previous.address);
      RowsFrom(bytes + rest, w.minimum, LineRange(w), previous)
        == Prepend(current, RowsFrom(rest, w.minimum, LineRange(w), current))
  {
    match SpecialOpcode(w, (current.line as int) - previous.line, current.address - previous.address)
    case Some(special) =>
      SpecialRowDecodes(w, previous, current);
      SpecialDecodes(special, w.minimum, LineRange(w), previous, current, rest);
    case None =>
      SlowAdvanceDecodes(w.minimum, LineRange(w), previous, current, rest);
  }

  lemma RowDecodes(w: Window, base: uint64, previous: LineEntry, current: LineEntry, rest: seq<uint8>)
    requires Usable(w) && RowBytes(w, base, previous, current).Ok?
    ensures RowsFrom(RowBytes(w, base, previous, current).value + rest, w.minimum, LineRange(w), previous)
         == Prepend(current, RowsFrom(rest, w.minimum, LineRange(w), current))
  {
    hide AdvanceBytes, RowsFrom, UlebBytes, Prepend;
    var advance := AdvanceBytes(w, (current.line as int) - previous.line, current.address - previous.address);
    AdvanceDecodes(w, previous.(file := current.file), current, rest);
    if current.file != previous.file {
      var file := [SET_FILE] + UlebBytes(current.file);
      SetFileDecodes(w.minimum, LineRange(w), previous, current.file, advance + rest);
      SilentThenEmit(
        file, advance, rest, w.minimum, LineRange(w), previous, previous.(file := current.file), current);
    } else {
      assert [] + advance == advance;
    }
  }

  lemma EndDecodes(minimum: int64, lineRange: nat, previous: LineEntry, rest: seq<uint8>)
    requires lineRange > 0
    ensures RowsFrom([END_SEQUENCE] + rest, minimum, lineRange, previous) == Ok([])
  {
    hide ReadUleb, ReadSleb, SpecialRow;
    assert ([END_SEQUENCE] + rest)[1..] == rest;
  }

  lemma PrependHead(lines: seq<LineEntry>)
    requires lines != []
    ensures Prepend(lines[0], Ok(lines[1..])) == Ok(lines)
  {
    assert [lines[0]] + lines[1..] == lines;
  }

  lemma {:induction false} RowsDecode(w: Window, base: uint64, previous: LineEntry, lines: seq<LineEntry>, rest: seq<uint8>)
    requires Usable(w) && RowsBytes(w, base, previous, lines).Ok?
    ensures RowsFrom(RowsBytes(w, base, previous, lines).value + rest, w.minimum, LineRange(w), previous) == Ok(lines)
    decreases |lines|
  {
    hide RowBytes, NextEffect, RowsFrom, Prepend;
    if lines == [] {
      EndDecodes(w.minimum, LineRange(w), previous, rest);
    } else {
      var first := RowBytes(w, base, previous, lines[0]).value;
      var tail := RowsBytes(w, base, lines[0], lines[1..]).value;
      RowsDecode(w, base, lines[0], lines[1..], rest);
      RowDecodes(w, base, previous, lines[0], tail + rest);
      AppendAssociates(first, tail, rest);
      PrependHead(lines);
    }
  }

  /** Encoding succeeds exactly on non-empty, address-sorted rows at or above
      the base. */
  lemma {:induction false} RowsBytesSucceeds(w: Window, base: uint64, previous: LineEntry, lines: seq<LineEntry>)
    requires previous.address >= base
    ensures RowsBytes(w, base, previous, lines).Ok?
       <==> SortedRows(lines) && RowsAtOrAbove(lines, previous.address)
    decreases |lines|
  {
    if lines != [] {
      if lines[0].address >= previous.address {
        RowsBytesSucceeds(w, base, lines[0], lines[1..]);
        if SortedRows(lines[1..]) && RowsAtOrAbove(lines[1..], lines[0].address) {
          forall i, j | 0 <= i < j < |lines|
            ensures lines[i].address <= lines[j].address
          {
            assert lines[j] == lines[1..][j - 1];
            assert i > 0 ==> lines[i] == lines[1..][i - 1];
          }
        }
      }
    }
  }

  lemma EncodeRowsSucceeds(lines: seq<LineEntry>, base: uint64)
    ensures EncodeRows(lines, base).Ok? <==> lines != [] && SortedRows(lines) && RowsAtOrAbove(lines, base)
  {
    if lines != [] {
      RowsBytesSucceeds(ChosenWindow(lines), base, LineEntry(base, 1, lines[0].line), lines);
    }
  }

  lemma StartDecodes(w: Window, base: uint64, line: uint32, rest: seq<uint8>)
    requires Usable(w)
    ensures ParseStart(SlebBytes(w.minimum) + SlebBytes(w.maximum) + UlebBytes(line) + rest, base)
         == Ok(Step(Start(w.minimum, LineRange(w), LineEntry(base, 1, line)), rest))
  {
    hide UlebBytes, SlebBytes, ReadUleb, ReadSleb;
    var tail := UlebBytes(line) + rest;
    UlebInverse(line, rest);
    SlebInverse(w.maximum, tail);
    SlebInverse(w.minimum, SlebBytes(w.maximum) + tail);
    AppendAssociates(SlebBytes(w.minimum) + SlebBytes(w.maximum), UlebBytes(line), rest);
    AppendAssociates(SlebBytes(w.minimum), SlebBytes(w.maximum), tail);
  }

  /** Decoding an encoded row list emits exactly those rows, one per row even
      where addresses repeat, whatever bytes follow. */
  lemma LineRoundTrip(lines: seq<LineEntry>, base: uint64, rest: seq<uint8>)
    requires EncodeRows(lines, base).Ok?
    ensures DecodeRows(EncodeRows(lines, base).value + rest, base) == Ok(lines)
  {
    hide RowsBytes, RowsFrom, ParseStart, ChosenWindow, UlebBytes, SlebBytes;
    var w := ChosenWindow(lines);
    ChosenWindowIsOptimal(lines, 0, 0);
    var start := LineEntry(base, 1, lines[0].line);
    var header := SlebBytes(w.minimum) + SlebBytes(w.maximum) + UlebBytes(lines[0].line);
    var rows := RowsBytes(w, base, start, lines).value;
    AppendAssociates(header, rows, rest);
    StartDecodes(w, base, lines[0].line, rows + rest);
    RowsDecode(w, base, start, lines, rest);
  }
}
