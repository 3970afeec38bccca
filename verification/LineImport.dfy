/** Selecting the rows of a function from a unit's line table:
    src/convert/dwarf/lines.rs. */
module LineImport {
  import opened Words
  import opened Wrappers
  import opened Model
  import opened Line
  import opened Validation
  import opened Finalize

  datatype SequencedLine = SequencedLine(entry: LineEntry, sequence: Option<uint64>)

  datatype LineSequenceRange = LineSequenceRange(range: AddressRange, sequence: Option<uint64>)

  /** Unit entries come sorted by address. */
  predicate SortedEntries(entries: seq<SequencedLine>) {
    forall i, j :: 0 <= i < j < |entries| ==> entries[i].entry.address <= entries[j].entry.address
  }

  predicate Belongs(line: SequencedLine, selected: Option<uint64>) {
    selected.None? || line.sequence == selected
  }

  /** The rows of a sequence, or of all when none is selected. */
  function RowsOf(entries: seq<SequencedLine>, selected: Option<uint64>): seq<LineEntry> {
    if entries == [] then []
    else (if Belongs(entries[0], selected) then [entries[0].entry] else []) + RowsOf(entries[1..], selected)
  }

  lemma {:induction false} RowsOfAppend(a: seq<SequencedLine>, b: seq<SequencedLine>, selected: Option<uint64>)
    ensures RowsOf(a + b, selected) == RowsOf(a, selected) + RowsOf(b, selected)
    decreases |a|
  {
    hide Belongs;
    if a == [] {
      assert a + b == b && RowsOf(a, selected) + RowsOf(b, selected) == RowsOf(b, selected);
    } else {
      assert (a + b)[0] == a[0] && (a + b)[1..] == a[1..] + b;
      RowsOfAppend(a[1..], b, selected);
      var first := if Belongs(a[0], selected) then [a[0].entry] else [];
      assert first + (RowsOf(a[1..], selected) + RowsOf(b, selected)) == first + RowsOf(a[1..], selected) + RowsOf(b, selected);
    }
  }

  lemma RowsOfSnoc(entries: seq<SequencedLine>, line: SequencedLine, selected: Option<uint64>)
    ensures RowsOf(entries + [line], selected)
         == RowsOf(entries, selected) + if Belongs(line, selected) then [line.entry] else []
  {
    RowsOfAppend(entries, [line], selected);
    assert [line][1..] == [];
  }

  lemma {:induction false} RowsOfMembers(entries: seq<SequencedLine>, selected: Option<uint64>)
    ensures forall row :: row in RowsOf(entries, selected) ==> exists line :: line in entries && line.entry == row
    decreases |entries|
  {
    if entries != [] {
      RowsOfMembers(entries[1..], selected);
      assert entries[0] in entries;
      forall row | row in RowsOf(entries, selected)
        ensures exists line :: line in entries && line.entry == row
      {
        if row in RowsOf(entries[1..], selected) {
          var line :| line in entries[1..] && line.entry == row;
          assert line in entries;
        }
      }
    }
  }

  lemma {:induction false} RowsOfSorted(entries: seq<SequencedLine>, selected: Option<uint64>)
    requires SortedEntries(entries)
    ensures SortedRows(RowsOf(entries, selected))
    decreases |entries|
  {
    if entries != [] {
      RowsOfSorted(entries[1..], selected);
      RowsOfMembers(entries[1..], selected);
      var rest := RowsOf(entries[1..], selected);
      forall i | 0 <= i < |rest|
        ensures entries[0].entry.address <= rest[i].address
      {
        assert rest[i] in rest;
        var line :| line in entries[1..] && line.entry == rest[i];
        var k :| 0 <= k < |entries[1..]| && entries[1..][k] == line;
        assert entries[k + 1] == line;
      }
    }
  }

  // ------------------------------------------------------------ location in effect

  lemma {:induction false} InEffectAppend(a: seq<LineEntry>, b: seq<LineEntry>, address: uint64)
    ensures InEffect(a + b, address) == if InEffect(b, address).Some? then InEffect(b, address) else InEffect(a, address)
    decreases |b|
  {
    if b == [] {
      assert a + b == a;
    } else {
      assert (a + b)[..|a + b| - 1] == a + b[..|b| - 1];
      InEffectAppend(a, b[..|b| - 1], address);
    }
  }

  /** The rows before the range matter only through the last of them, and those
      after it not at all. */
  lemma LocationByParts(
    before: seq<LineEntry>, inside: seq<LineEntry>, after: seq<LineEntry>, range: AddressRange, address: uint64)
    requires range.start <= address < range.end
    requires forall row :: row in before ==> row.address < range.start
    requires forall row :: row in after ==> row.address >= range.end
    ensures LocationAt(before + inside + after, address)
         == if InEffect(inside, address).Some? then LocationAt(inside, address)
            else if before == [] then None
            else Some((before[|before| - 1].file, before[|before| - 1].line))
  {
    InEffectAppend(before + inside, after, address);
    InEffectAppend(before, inside, address);
    forall i | 0 <= i < |after|
      ensures after[i].address > address
    {
      assert after[i] in after;
    }
    NoneInEffect(after, address);
    if before != [] {
      assert before[|before| - 1] in before;
    }
  }

  // ---------------------------------------------------------------------- for_range

  /** `partition_point` on sorted entries. */
  function CountBelow(entries: seq<SequencedLine>, bound: uint64): (n: nat)
    ensures n <= |entries|
    ensures forall i :: 0 <= i < n ==> entries[i].entry.address < bound
    ensures n < |entries| ==> entries[n].entry.address >= bound
  {
    if entries == [] || entries[0].entry.address >= bound then 0 else 1 + CountBelow(entries[1..], bound)
  }

  /** The sequence that decides which earlier row is clamped to the start. */
  function ClampingSequence(
      sequences: seq<LineSequenceRange>, selected: Option<uint64>, start: uint64): Option<LineSequenceRange> {
    if sequences == [] then None
    else if (selected.None? || sequences[0].sequence == selected) && sequences[0].range.Contains(start) then Some(sequences[0])
    else ClampingSequence(sequences[1..], selected, start)
  }

  predicate SequenceExists(sequences: seq<LineSequenceRange>, requested: uint64) {
    exists s :: s in sequences && s.sequence == Some(requested)
  }

  /** No two neighbouring rows have the same location. */
  predicate NoRepeats(rows: seq<LineEntry>) {
    forall i :: 0 < i < |rows| ==> !SameLocation(rows[i - 1], rows[i])
  }

  lemma {:induction false} CompactAfterNoRepeats(last: LineEntry, rows: seq<LineEntry>)
    ensures NoRepeats([last] + CompactAfter(last, rows))
    decreases |rows|
  {
    if rows != [] {
      if SameLocation(rows[0], last) {
        CompactAfterNoRepeats(last, rows[1..]);
      } else {
        CompactAfterNoRepeats(rows[0], rows[1..]);
        var tail := [rows[0]] + CompactAfter(rows[0], rows[1..]);
        forall i | 0 < i < |[last] + tail|
          ensures !SameLocation(([last] + tail)[i - 1], ([last] + tail)[i])
        {
          assert i > 1 ==> ([last] + tail)[i - 1] == tail[i - 2] && ([last] + tail)[i] == tail[i - 1];
        }
      }
    }
  }

  lemma {:induction false} CompactAfterSorted(last: LineEntry, rows: seq<LineEntry>)
    requires SortedRows([last] + rows)
    ensures SortedRows([last] + CompactAfter(last, rows))
    decreases |rows|
  {
    if rows != [] {
      SortedTail(last, rows);
      assert rows == [rows[0]] + rows[1..];
      if SameLocation(rows[0], last) {
        SkippedStaysSorted(last, rows[0], rows[1..]);
        CompactAfterSorted(last, rows[1..]);
      } else {
        CompactAfterSorted(rows[0], rows[1..]);
        var tail := [rows[0]] + CompactAfter(rows[0], rows[1..]);
        forall i, j | 0 <= i < j < |[last] + tail|
          ensures ([last] + tail)[i].address <= ([last] + tail)[j].address
        {
          assert ([last] + tail)[j] == tail[j - 1] && tail[0].address <= tail[j - 1].address;
        }
      }
    }
  }

  /** Compacting sorted rows leaves sorted rows of the same list, no two neighbours
      alike, and the same location everywhere. */
  lemma CompactedRows(rows: seq<LineEntry>)
    requires SortedRows(rows)
    ensures SortedRows(CompactRows(rows)) && NoRepeats(CompactRows(rows))
    ensures forall row :: row in CompactRows(rows) ==> row in rows
    ensures forall address :: LocationAt(CompactRows(rows), address) == LocationAt(rows, address)
  {
    hide LocationAt, CompactAfter;
    if rows != [] {
      assert rows == [rows[0]] + rows[1..];
      CompactAfterNoRepeats(rows[0], rows[1..]);
      CompactAfterSorted(rows[0], rows[1..]);
    }
    CompactRowsMember(rows);
    forall address: uint64
      ensures LocationAt(CompactRows(rows), address) == LocationAt(rows, address)
    {
      CompactKeepsLocation(rows, address);
    }
  }

  // -------------------------------------------------------------------- selection

  /** The rows of the slice that belong to the sequence. */
  method FilterRows(entries: seq<SequencedLine>, selected: Option<uint64>) returns (output: seq<LineEntry>)
    ensures output == RowsOf(entries, selected)
  {
    output := [];
    for i := 0 to |entries|
      invariant output == RowsOf(entries[..i], selected)
    {
      assert entries[..i + 1] == entries[..i] + [entries[i]];
      RowsOfSnoc(entries[..i], entries[i], selected);
      if Belongs(entries[i], selected) {
        output := output + [entries[i].entry];
      }
    }
    assert entries[..|entries|] == entries;
  }

  /** The last row of the slice that belongs to the sequence. */
  method LastRow(entries: seq<SequencedLine>, selected: Option<uint64>) returns (row: Option<LineEntry>)
    ensures var rows := RowsOf(entries, selected); row == if rows == [] then None else Some(rows[|rows| - 1])
  {
    var i := |entries|;
    assert entries[..i] == entries;
    while i > 0
      invariant i <= |entries| && RowsOf(entries[..i], selected) == RowsOf(entries, selected)
    {
      i := i - 1;
      assert entries[..i + 1] == entries[..i] + [entries[i]];
      RowsOfSnoc(entries[..i], entries[i], selected);
      if Belongs(entries[i], selected) {
        return Some(entries[i].entry);
      }
    }
    return None;
  }

  /** Rows of the sequence before an address, and from it to another. */
  function RowsBefore(entries: seq<SequencedLine>, selected: Option<uint64>, bound: uint64): seq<LineEntry> {
    RowsOf(entries[..CountBelow(entries, bound)], selected)
  }

  lemma {:induction false} CountBelowMonotone(entries: seq<SequencedLine>, low: uint64, high: uint64)
    requires low <= high
    ensures CountBelow(entries, low) <= CountBelow(entries, high)
  {
    if entries != [] && entries[0].entry.address < low {
      CountBelowMonotone(entries[1..], low, high);
    }
  }

  /** Rows of a slice whose entries all satisfy the same bounds. */
  lemma RowsBounded(entries: seq<SequencedLine>, selected: Option<uint64>, low: int, high: int)
    requires forall i :: 0 <= i < |entries| ==> low <= entries[i].entry.address < high
    ensures forall row :: row in RowsOf(entries, selected) ==> low <= row.address < high
  {
    hide RowsOf;
    RowsOfMembers(entries, selected);
    forall row | row in RowsOf(entries, selected)
      ensures low <= row.address < high
    {
      var line :| line in entries && line.entry == row;
    }
  }

  lemma SlicesJoin(entries: seq<SequencedLine>, low: nat, high: nat, selected: Option<uint64>)
    requires low <= high <= |entries|
    ensures RowsOf(entries, selected)
         == RowsOf(entries[..low], selected) + RowsOf(entries[low..high], selected) + RowsOf(entries[high..], selected)
  {
    hide RowsOf;
    var a, b, c := entries[..low], entries[low..high], entries[high..];
    assert entries == a + (b + c);
    RowsOfAppend(a, b + c, selected);
    RowsOfAppend(b, c, selected);
    assert RowsOf(a, selected) + (RowsOf(b, selected) + RowsOf(c, selected)) == RowsOf(a, selected) + RowsOf(b, selected) + RowsOf(c, selected);
  }

  /** The slice between two cut points, and its addresses. */
  lemma SlicesOf(entries: seq<SequencedLine>, range: AddressRange, selected: Option<uint64>)
    requires SortedEntries(entries) && range.start <= range.end
    ensures CountBelow(entries, range.start) <= CountBelow(entries, range.end)
    ensures
      var low, high := CountBelow(entries, range.start), CountBelow(entries, range.end);
      var before, inside, after := RowsOf(entries[..low], selected), RowsOf(entries[low..high], selected), RowsOf(entries[high..], selected);
      && RowsOf(entries, selected) == before + inside + after
      && (forall row :: row in before ==> row.address < range.start)
      && (forall row :: row in inside ==> range.start <= row.address < range.end)
      && (forall row :: row in after ==> row.address >= range.end)
      && SortedRows(inside)
  {
    hide RowsOf, CountBelow, SortedRows;
    CountBelowMonotone(entries, range.start, range.end);
    var low, high := CountBelow(entries, range.start), CountBelow(entries, range.end);
    SlicesJoin(entries, low, high, selected);
    RowsBounded(entries[..low], selected, 0, range.start);
    RowsBounded(entries[low..high], selected, range.start, range.end);
    RowsBounded(entries[high..], selected, range.end, U64_LIMIT);
    RowsOfSorted(entries[low..high], selected);
  }

  /** Before compaction: the rows inside, after the row in effect at the start if
      that one lies before it. */
  ghost predicate Clamped(
    rows: seq<LineEntry>, before: seq<LineEntry>, inside: seq<LineEntry>, start: uint64, clamps: bool)
  {
    rows == if clamps && before != [] && (inside == [] || inside[0].address > start)
            then [before[|before| - 1].(address := start)] + inside else inside
  }

  /** Clamping keeps the location at every address of the range exactly when it is
      not needed or happens. */
  lemma ClampedLocation(
    rows: seq<LineEntry>, before: seq<LineEntry>, inside: seq<LineEntry>, after: seq<LineEntry>, range: AddressRange, clamps: bool)
    requires Clamped(rows, before, inside, range.start, clamps) && SortedRows(inside) && range.start < range.end
    requires forall row :: row in before ==> row.address < range.start
    requires forall row :: row in inside ==> range.start <= row.address < range.end
    requires forall row :: row in after ==> row.address >= range.end
    ensures
      var starts := inside != [] && inside[0].address == range.start;
      (forall a: uint64 :: range.start <= a < range.end ==> LocationAt(rows, a) == LocationAt(before + inside + after, a))
        <==> (clamps || before == [] || starts)
  {
    var starts := inside != [] && inside[0].address == range.start;
    forall a: uint64 | range.start <= a < range.end
      ensures clamps || before == [] || starts ==> LocationAt(rows, a) == LocationAt(before + inside + after, a)
    {
      LocationByParts(before, inside, after, range, a);
      if rows != inside {
        InEffectCons(rows[0], inside, a);
      }
      if starts {
        FirstInEffect(inside, a);
      }
    }
    if !clamps && before != [] && !starts {
      var a := range.start;
      LocationByParts(before, inside, after, range, a);
      forall i | 0 <= i < |inside|
        ensures inside[i].address > a
      {
        assert inside[i] in inside;
      }
      NoneInEffect(inside, a);
      assert LocationAt(rows, a) != LocationAt(before + inside + after, a);
    }
  }

  lemma {:induction false} FirstInEffect(rows: seq<LineEntry>, address: uint64)
    requires rows != [] && rows[0].address <= address
    ensures InEffect(rows, address).Some?
    decreases |rows|
  {
    if |rows| > 1 {
      FirstInEffect(rows[..|rows| - 1], address);
    }
  }

  /** The sequence actually selected: a requested one that exists. */
  function Selected(sequences: seq<LineSequenceRange>, requested: Option<uint64>): Option<uint64> {
    if requested.Some? && SequenceExists(sequences, requested.value) then requested else None
  }

  /** What is in effect at the start of the range is known: the sequence covers the
      start, has a row there, or has no row before it. */
  ghost predicate StartKnown(entries: seq<SequencedLine>, sequences: seq<LineSequenceRange>, selected: Option<uint64>, start: uint64) {
    || ClampingSequence(sequences, selected, start).Some?
    || RowsBefore(entries, selected, start) == []
    || exists row :: row in RowsOf(entries, selected) && row.address == start
  }

  /** Some row lies from the start of the range up to the address. */
  ghost predicate RowReaches(rows: seq<LineEntry>, start: uint64, address: uint64) {
    exists row :: row in rows && start <= row.address <= address
  }

  /** What is in effect at an address of the range: the last row of the selection inside
      the range, or else what was in effect at the start in the sequence that covers it. */
  ghost function Imported(
      entries: seq<SequencedLine>, sequences: seq<LineSequenceRange>, selected: Option<uint64>, start: uint64, address: uint64)
      : Option<(FileIndex, uint32)>
  {
    var clamping := ClampingSequence(sequences, selected, start);
    if RowReaches(RowsOf(entries, selected), start, address) then LocationAt(RowsOf(entries, selected), address)
    else if clamping.None? then None
    else LocationAt(RowsOf(entries, ClampedTo(selected, clamping.value)), start)
  }

  /** The sequence whose last earlier row is clamped: the selected one, or the one that
      covers the start when none is selected. */
  function ClampedTo(selected: Option<uint64>, clamping: LineSequenceRange): Option<uint64> {
    if selected.Some? then selected else clamping.sequence
  }

  // ------------------------------------------------ the same over the entries alone

  /** Entry `i` is the last of the wanted sequence, or of all, within the bounds. */
  ghost predicate IsLast(entries: seq<SequencedLine>, wanted: Option<uint64>, low: int, high: int, i: nat) {
    && Eligible(entries, wanted, low, high, i)
    && forall j: nat :: i < j ==> !Eligible(entries, wanted, low, high, j)
  }

  predicate Eligible(entries: seq<SequencedLine>, wanted: Option<uint64>, low: int, high: int, i: nat) {
    && i < |entries| && low <= entries[i].entry.address <= high
    && (wanted.Some? ==> entries[i].sequence.Some? && entries[i].sequence.value == wanted.value)
  }

  /** Listed sequence `k` is the first that holds the address and, where a sequence is
      selected, is that one. */
  predicate FirstCovering(sequences: seq<LineSequenceRange>, selected: Option<uint64>, address: uint64, k: nat) {
    && k < |sequences| && Covers(sequences[k], selected, address)
    && forall j :: 0 <= j < k ==> !Covers(sequences[j], selected, address)
  }

  predicate Covers(sequence: LineSequenceRange, selected: Option<uint64>, address: uint64) {
    && sequence.range.start <= address < sequence.range.end
    && (selected.Some? ==> sequence.sequence.Some? && sequence.sequence.value == selected.value)
  }

  function Location(line: SequencedLine): Option<(FileIndex, uint32)> {
    Some((line.entry.file, line.entry.line))
  }

  /** The location is that of the last entry within the bounds, if there is one. */
  ghost predicate LocatedBy(entries: seq<SequencedLine>, wanted: Option<uint64>, low: int, high: int, location: Option<(FileIndex, uint32)>) {
    && (forall i: nat :: IsLast(entries, wanted, low, high, i) ==> location == Location(entries[i]))
    && ((forall i: nat :: !IsLast(entries, wanted, low, high, i)) ==> location == None)
  }

  /** The location at an address of the range: that of the last entry of the selection from
      the start of the range on; without one, that of the last entry before the start, in
      the selected sequence or else in the first listed one that covers the start; without
      such a sequence, none. */
  ghost predicate Located(
    entries: seq<SequencedLine>, sequences: seq<LineSequenceRange>, selected: Option<uint64>, start: uint64, address: uint64,
    location: Option<(FileIndex, uint32)>)
  {
    if exists i: nat :: IsLast(entries, selected, start, address, i) then LocatedBy(entries, selected, start, address, location)
    else
      && (forall k: nat :: FirstCovering(sequences, selected, start, k) ==>
            LocatedBy(entries, if selected.Some? then selected else sequences[k].sequence, 0, start - 1, location))
      && ((forall k: nat :: !FirstCovering(sequences, selected, start, k)) ==> location == None)
  }

  /** The row has the file and line of an entry of the wanted sequence, at its address or
      moved up to the start of the range. */
  ghost predicate ComesFrom(row: LineEntry, entries: seq<SequencedLine>, wanted: Option<uint64>, start: uint64) {
    exists i: nat ::
      && i < |entries| && row.file == entries[i].entry.file && row.line == entries[i].entry.line
      && (row.address == entries[i].entry.address || (row.address == start && entries[i].entry.address < start))
      && (wanted.Some? ==> entries[i].sequence.Some? && entries[i].sequence.value == wanted.value)
  }

  /** The sequence that is asked for, if it is listed. */
  ghost predicate Selects(sequences: seq<LineSequenceRange>, requested: Option<uint64>, selected: Option<uint64>) {
    var listed := requested.Some? && exists k: nat ::
      k < |sequences| && sequences[k].sequence.Some? && sequences[k].sequence.value == requested.value;
    if listed then selected == requested else selected == None
  }

  lemma SelectedIs(sequences: seq<LineSequenceRange>, requested: Option<uint64>)
    ensures Selects(sequences, requested, Selected(sequences, requested))
  {
    if requested.Some? {
      if SequenceExists(sequences, requested.value) {
        var s :| s in sequences && s.sequence == Some(requested.value);
        var k: nat :| k < |sequences| && sequences[k] == s;
      }
    }
  }

  lemma {:induction false} ClampingIs(sequences: seq<LineSequenceRange>, selected: Option<uint64>, start: uint64)
    ensures
      match ClampingSequence(sequences, selected, start)
      case Some(sequence) => exists k: nat :: k < |sequences| && FirstCovering(sequences, selected, start, k) && sequences[k] == sequence
      case None => forall k: nat :: !FirstCovering(sequences, selected, start, k)
  {
    if sequences != [] {
      CoversIs(sequences[0], selected, start);
      if Covers(sequences[0], selected, start) {
        assert FirstCovering(sequences, selected, start, 0);
      } else {
        ClampingIs(sequences[1..], selected, start);
        ShiftCovering(sequences, selected, start);
      }
    }
  }

  lemma CoversIs(sequence: LineSequenceRange, selected: Option<uint64>, start: uint64)
    ensures Covers(sequence, selected, start) <==> (selected.None? || sequence.sequence == selected) && sequence.range.Contains(start)
  {
  }

  lemma ShiftCovering(sequences: seq<LineSequenceRange>, selected: Option<uint64>, start: uint64)
    requires sequences != [] && !Covers(sequences[0], selected, start)
    ensures forall k: nat :: FirstCovering(sequences[1..], selected, start, k) <==> FirstCovering(sequences, selected, start, k + 1)
    ensures !FirstCovering(sequences, selected, start, 0)
    ensures forall k: nat :: FirstCovering(sequences, selected, start, k) ==> k > 0 && FirstCovering(sequences[1..], selected, start, k - 1)
  {
    hide Covers;
    forall k: nat
      ensures FirstCovering(sequences[1..], selected, start, k) <==> FirstCovering(sequences, selected, start, k + 1)
    {
      assert forall j :: 0 <= j < |sequences| - 1 ==> sequences[1..][j] == sequences[j + 1];
      if FirstCovering(sequences, selected, start, k + 1) {
        forall j | 0 <= j < k
          ensures !Covers(sequences[1..][j], selected, start)
        {
          assert !Covers(sequences[j + 1], selected, start);
        }
      }
      if FirstCovering(sequences[1..], selected, start, k) {
        forall j | 0 <= j < k + 1
          ensures !Covers(sequences[j], selected, start)
        {
          assert j > 0 ==> sequences[j] == sequences[1..][j - 1];
        }
      }
    }
  }

  lemma OneCovering(sequences: seq<LineSequenceRange>, selected: Option<uint64>, start: uint64, j: nat, k: nat)
    requires FirstCovering(sequences, selected, start, j) && FirstCovering(sequences, selected, start, k)
    ensures j == k
  {
    hide Covers;
  }

  /** The row in effect of a sequence is its last entry at or below the address. */
  lemma {:induction false} InEffectIsLast(entries: seq<SequencedLine>, wanted: Option<uint64>, address: uint64)
    ensures LocatedBy(entries, wanted, 0, address, LocationAt(RowsOf(entries, wanted), address))
    decreases |entries|
  {
    hide RowsOf;
    if entries == [] {
      NoRows(wanted);
    } else {
      var n := |entries| - 1;
      var before, line := entries[..n], entries[n];
      assert entries == before + [line];
      RowsOfSnoc(before, line, wanted);
      InEffectIsLast(before, wanted, address);
      if Belongs(line, wanted) {
        var rows := RowsOf(before, wanted);
        assert (rows + [line.entry])[..|rows|] == rows;
      }
      if Eligible(entries, wanted, 0, address, n) {
        assert IsLast(entries, wanted, 0, address, n);
        OnlyLast(entries, wanted, 0, address, n);
      } else {
        LastBefore(entries, wanted, 0, address);
        assert RowsOf(before, wanted) + [] == RowsOf(before, wanted);
        LocatedBefore(entries, wanted, address, LocationAt(RowsOf(before, wanted), address));
      }
    }
  }

  lemma OnlyLast(entries: seq<SequencedLine>, wanted: Option<uint64>, low: int, high: int, i: nat)
    requires IsLast(entries, wanted, low, high, i)
    ensures forall j: nat :: IsLast(entries, wanted, low, high, j) ==> j == i
  {
    hide Eligible;
  }

  lemma LocatedBefore(entries: seq<SequencedLine>, wanted: Option<uint64>, address: uint64, location: Option<(FileIndex, uint32)>)
    requires entries != [] && LocatedBy(entries[..|entries| - 1], wanted, 0, address, location)
    requires !Eligible(entries, wanted, 0, address, |entries| - 1)
    ensures LocatedBy(entries, wanted, 0, address, location)
  {
    hide IsLast;
    var before := entries[..|entries| - 1];
    LastBefore(entries, wanted, 0, address);
    forall i: nat | IsLast(entries, wanted, 0, address, i)
      ensures i < |entries| && location == Location(entries[i])
    {
      assert IsLast(before, wanted, 0, address, i);
      LastEligible(before, wanted, 0, address, i);
    }
    if forall i: nat :: !IsLast(entries, wanted, 0, address, i) {
      forall i: nat
        ensures !IsLast(before, wanted, 0, address, i)
      {
        assert !IsLast(entries, wanted, 0, address, i);
      }
    }
  }

  lemma LastBefore(entries: seq<SequencedLine>, wanted: Option<uint64>, low: int, high: int)
    requires entries != [] && !Eligible(entries, wanted, low, high, |entries| - 1)
    ensures forall i: nat :: IsLast(entries, wanted, low, high, i) <==> IsLast(entries[..|entries| - 1], wanted, low, high, i)
  {
    var before := entries[..|entries| - 1];
    assert forall i: nat :: Eligible(entries, wanted, low, high, i) <==> Eligible(before, wanted, low, high, i);
  }

  lemma {:induction false} SomeLast(entries: seq<SequencedLine>, wanted: Option<uint64>, low: int, high: int, i: nat) returns (last: nat)
    requires Eligible(entries, wanted, low, high, i)
    ensures IsLast(entries, wanted, low, high, last) && i <= last
    decreases |entries| - i
  {
    hide Eligible;
    if j: nat :| i < j && Eligible(entries, wanted, low, high, j) {
      InTable(entries, wanted, low, high, j);
      last := SomeLast(entries, wanted, low, high, j);
    } else {
      last := i;
    }
  }

  lemma InTable(entries: seq<SequencedLine>, wanted: Option<uint64>, low: int, high: int, i: nat)
    requires Eligible(entries, wanted, low, high, i)
    ensures i < |entries|
  {
  }

  /** In sorted entries, where one lies between the bounds the last below the upper one does
      too. */
  lemma LastReaches(entries: seq<SequencedLine>, wanted: Option<uint64>, start: uint64, address: uint64, i: nat)
    requires SortedEntries(entries) && IsLast(entries, wanted, start, address, i)
    ensures IsLast(entries, wanted, 0, address, i)
  {
    forall j: nat | i < j
      ensures !Eligible(entries, wanted, 0, address, j)
    {
      assert !Eligible(entries, wanted, start, address, j);
    }
  }

  lemma ReachIsLast(entries: seq<SequencedLine>, wanted: Option<uint64>, start: uint64, address: uint64)
    ensures RowReaches(RowsOf(entries, wanted), start, address) <==> exists i: nat :: IsLast(entries, wanted, start, address, i)
  {
    hide RowsOf, IsLast;
    if i: nat :| IsLast(entries, wanted, start, address, i) {
      LastEligible(entries, wanted, start, address, i);
      RowOfEntry(entries, wanted, i);
    }
    if row :| row in RowsOf(entries, wanted) && start <= row.address <= address {
      var i := EntryOfRow(entries, wanted, row);
      var last := SomeLast(entries, wanted, start, address, i);
    }
  }

  lemma LastEligible(entries: seq<SequencedLine>, wanted: Option<uint64>, low: int, high: int, i: nat)
    requires IsLast(entries, wanted, low, high, i)
    ensures Eligible(entries, wanted, low, high, i)
  {
  }

  lemma {:induction false} RowOfEntry(entries: seq<SequencedLine>, wanted: Option<uint64>, i: nat)
    requires i < |entries| && (wanted.None? || entries[i].sequence == wanted)
    ensures entries[i].entry in RowsOf(entries, wanted)
    decreases |entries|
  {
    if i > 0 {
      RowOfEntry(entries[1..], wanted, i - 1);
    }
  }

  lemma {:induction false} EntryOfRow(entries: seq<SequencedLine>, wanted: Option<uint64>, row: LineEntry) returns (i: nat)
    requires row in RowsOf(entries, wanted)
    ensures i < |entries| && entries[i].entry == row
    ensures wanted.Some? ==> entries[i].sequence.Some? && entries[i].sequence.value == wanted.value
    decreases |entries|
  {
    if row in RowsOf(entries[1..], wanted) {
      i := EntryOfRow(entries[1..], wanted, row);
      i := i + 1;
    } else {
      i := 0;
    }
  }

  /** The two descriptions agree. */
  lemma ImportedIsLocated(
    entries: seq<SequencedLine>, sequences: seq<LineSequenceRange>, selected: Option<uint64>, start: uint64, address: uint64)
    requires SortedEntries(entries) && start <= address
    ensures Located(entries, sequences, selected, start, address, Imported(entries, sequences, selected, start, address))
  {
    hide RowsOf, LocationAt, IsLast, FirstCovering, RowReaches, LocatedBy, ClampingSequence;
    ReachIsLast(entries, selected, start, address);
    if i: nat :| IsLast(entries, selected, start, address, i) {
      SelectionLocates(entries, selected, start, address, i);
    } else {
      ClampingIs(sequences, selected, start);
      var clamping := ClampingSequence(sequences, selected, start);
      if clamping.Some? {
        var k: nat :| k < |sequences| && FirstCovering(sequences, selected, start, k) && sequences[k] == clamping.value;
        StartLocates(entries, selected, ClampedTo(selected, clamping.value), start, address);
        forall j: nat | FirstCovering(sequences, selected, start, j)
          ensures j == k
        {
          OneCovering(sequences, selected, start, j, k);
        }
      }
    }
  }

  lemma SelectionLocates(entries: seq<SequencedLine>, selected: Option<uint64>, start: uint64, address: uint64, i: nat)
    requires SortedEntries(entries) && IsLast(entries, selected, start, address, i)
    ensures LocatedBy(entries, selected, start, address, LocationAt(RowsOf(entries, selected), address))
  {
    hide RowsOf, LocationAt, IsLast;
    InEffectIsLast(entries, selected, address);
    LastReaches(entries, selected, start, address, i);
    OnlyLast(entries, selected, start, address, i);
  }

  /** With nothing from the start up to the address, what is in effect at the start comes
      from before it. */
  lemma StartLocates(entries: seq<SequencedLine>, selected: Option<uint64>, wanted: Option<uint64>, start: uint64, address: uint64)
    requires start <= address && (selected.Some? ==> wanted == selected)
    requires forall i: nat :: !IsLast(entries, selected, start, address, i)
    ensures LocatedBy(entries, wanted, 0, start - 1, LocationAt(RowsOf(entries, wanted), start))
  {
    hide RowsOf, LocationAt, IsLast;
    InEffectIsLast(entries, wanted, start);
    forall i: nat
      ensures !Eligible(entries, wanted, start, start, i)
    {
      if Eligible(entries, wanted, start, start, i) {
        assert Eligible(entries, selected, start, address, i);
        var last := SomeLast(entries, selected, start, address, i);
      }
    }
    SameBounds(entries, wanted, start);
  }

  lemma SameBounds(entries: seq<SequencedLine>, wanted: Option<uint64>, start: uint64)
    requires forall i: nat :: !Eligible(entries, wanted, start, start, i)
    ensures forall i: nat :: IsLast(entries, wanted, 0, start, i) <==> IsLast(entries, wanted, 0, start - 1, i)
  {
    hide Eligible;
    forall i: nat
      ensures Eligible(entries, wanted, 0, start, i) <==> Eligible(entries, wanted, 0, start - 1, i)
    {
      SameBound(entries, wanted, start, i);
    }
    forall i: nat
      ensures IsLast(entries, wanted, 0, start, i) <==> IsLast(entries, wanted, 0, start - 1, i)
    {
      LastTransfers(entries, wanted, start, start - 1, i);
      LastTransfers(entries, wanted, start - 1, start, i);
    }
  }

  lemma LastTransfers(entries: seq<SequencedLine>, wanted: Option<uint64>, high: int, other: int, i: nat)
    requires forall j: nat :: Eligible(entries, wanted, 0, high, j) <==> Eligible(entries, wanted, 0, other, j)
    ensures IsLast(entries, wanted, 0, high, i) ==> IsLast(entries, wanted, 0, other, i)
  {
    hide Eligible;
    if IsLast(entries, wanted, 0, high, i) {
      forall j: nat | i < j
        ensures !Eligible(entries, wanted, 0, other, j)
      {
        assert !Eligible(entries, wanted, 0, high, j);
      }
    }
  }

  lemma SameBound(entries: seq<SequencedLine>, wanted: Option<uint64>, start: uint64, i: nat)
    requires !Eligible(entries, wanted, start, start, i)
    ensures Eligible(entries, wanted, 0, start, i) <==> Eligible(entries, wanted, 0, start - 1, i)
  {
  }

  /** `for_range`.  Whatever the range, the rows are sorted, acceptable to the tree
      validator and free of repeats, and say what is in effect at each of its addresses,
      with or without a selected sequence.  For a selected sequence and a range that is
      not empty they give the location of the sequence's full row list at every
      address of the range exactly when the location at its start is known. */
  method ForRange(entries: seq<SequencedLine>, sequences: seq<LineSequenceRange>, range: AddressRange, requested: Option<uint64>)
    returns (output: seq<LineEntry>, invalidSequence: bool)
    requires SortedEntries(entries)
    ensures SortedRows(output) && LinesInside(output, range) && NoRepeats(output)
    ensures
      var selected := Selected(sequences, requested);
      && Selects(sequences, requested, selected)
      && (forall a: uint64 :: range.start <= a < range.end ==>
            && LocationAt(output, a) == Imported(entries, sequences, selected, range.start, a)
            && Located(entries, sequences, selected, range.start, a, LocationAt(output, a)))
      && (forall row :: row in output ==> ComesFrom(row, entries, selected, range.start))
    ensures
      var selected := Selected(sequences, requested);
      selected.Some? && range.start < range.end ==>
        ((forall a: uint64 :: range.start <= a < range.end ==>
            LocationAt(output, a) == LocationAt(RowsOf(entries, selected), a))
         <==> StartKnown(entries, sequences, selected, range.start))
    ensures invalidSequence == (requested.Some? && !SequenceExists(sequences, requested.value) && output != [])
  {
    hide RowsOf, Belongs, LocationAt, CountBelow, SequenceExists, StartKnown, SortedRows, LinesInside, NoRepeats, SortedEntries, CompactRows,
      ClampingSequence, Located, Selects, ComesFrom, Imported;
    var known := requested.None? || SequenceExists(sequences, requested.value);
    var selected := if known then requested else None;
    var low, high := CountBelow(entries, range.start), CountBelow(entries, range.end);
    var rows: seq<LineEntry> := [];
    if low <= high {
      rows := FilterRows(entries[low..high], selected);
    }
    ghost var inside := rows;
    ghost var before := RowsOf(entries[..low], selected);
    var clamping := ClampingSequence(sequences, selected, range.start);
    if (rows == [] || rows[0].address > range.start) && clamping.Some? {
      var previous := LastRow(entries[..low], ClampedTo(selected, clamping.value));
      if previous.Some? {
        rows := [previous.value.(address := range.start)] + rows;
      }
    }
    SelectedIs(sequences, requested);
    RowsComeFrom(entries, range.start, low, high, selected, clamping, inside, rows);
    InsideRows(entries, range, selected, inside);
    ClampedAnyway(rows, inside, range);
    CompactedRows(rows);
    output := CompactRows(rows);
    invalidSequence := requested.Some? && !known && output != [];
    CompactedEmpty(rows);
    CompactedInside(rows, range);
    if range.start < range.end {
      LocationsImported(entries, sequences, range, selected, rows, inside);
      LocatedEverywhere(entries, sequences, range, selected, output);
    }
    if selected.Some? && range.start < range.end {
      LocationKept(entries, sequences, range, selected, rows, inside);
    }
  }

  lemma LocatedEverywhere(
    entries: seq<SequencedLine>, sequences: seq<LineSequenceRange>, range: AddressRange, selected: Option<uint64>, output: seq<LineEntry>)
    requires SortedEntries(entries)
    requires forall a: uint64 :: range.start <= a < range.end ==>
      LocationAt(output, a) == Imported(entries, sequences, selected, range.start, a)
    ensures forall a: uint64 :: range.start <= a < range.end ==>
      Located(entries, sequences, selected, range.start, a, LocationAt(output, a))
  {
    hide SortedEntries, LocationAt, Imported, Located;
    forall a: uint64 | range.start <= a < range.end
      ensures Located(entries, sequences, selected, range.start, a, LocationAt(output, a))
    {
      ImportedIsLocated(entries, sequences, selected, range.start, a);
    }
  }

  /** Rows inside come from entries as they are, the clamped one from an earlier entry. */
  lemma RowsComeFrom(
    entries: seq<SequencedLine>, start: uint64, low: nat, high: nat, selected: Option<uint64>, clamping: Option<LineSequenceRange>,
    inside: seq<LineEntry>, rows: seq<LineEntry>)
    requires low <= |entries| && high <= |entries|
    requires inside == if low <= high then RowsOf(entries[low..high], selected) else []
    requires forall i :: 0 <= i < low ==> entries[i].entry.address < start
    requires
      || rows == inside
      || (clamping.Some? && var before := RowsOf(entries[..low], ClampedTo(selected, clamping.value));
          before != [] && rows == [before[|before| - 1].(address := start)] + inside)
    ensures forall row :: row in rows ==> ComesFrom(row, entries, selected, start)
  {
    hide RowsOf;
    forall row | row in inside
      ensures ComesFrom(row, entries, selected, start)
    {
      var i := EntryOfRow(entries[low..high], selected, row);
      assert entries[low..high][i] == entries[low + i];
    }
    if rows != inside {
      var before := RowsOf(entries[..low], ClampedTo(selected, clamping.value));
      var previous := before[|before| - 1];
      assert previous in before;
      var i := EntryOfRow(entries[..low], ClampedTo(selected, clamping.value), previous);
      assert entries[..low][i] == entries[i];
      assert ComesFrom(rows[0], entries, selected, start);
    }
  }

  /** The rows clamped, whichever sequence the clamped one comes from. */
  ghost predicate ClampedRows(
      rows: seq<LineEntry>, entries: seq<SequencedLine>, sequences: seq<LineSequenceRange>, selected: Option<uint64>, start: uint64,
      inside: seq<LineEntry>)
  {
    var clamping := ClampingSequence(sequences, selected, start);
    Clamped(rows, if clamping.Some? then RowsBefore(entries, ClampedTo(selected, clamping.value), start) else [], inside, start,
            clamping.Some?)
  }

  lemma {:induction false} InEffectSome(rows: seq<LineEntry>, address: uint64)
    ensures InEffect(rows, address).Some? <==> exists row :: row in rows && row.address <= address
    decreases |rows|
  {
    if rows != [] {
      InEffectSome(rows[..|rows| - 1], address);
      assert rows == rows[..|rows| - 1] + [rows[|rows| - 1]];
    }
  }

  /** A row of the selection reaches the address exactly when one inside the range does,
      and then it is in effect there. */
  lemma Reached(entries: seq<SequencedLine>, selected: Option<uint64>, range: AddressRange, a: uint64, inside: seq<LineEntry>)
    requires SortedEntries(entries) && range.start <= a < range.end
    requires
      var low, high := CountBelow(entries, range.start), CountBelow(entries, range.end);
      low <= high && inside == RowsOf(entries[low..high], selected)
    ensures RowReaches(RowsOf(entries, selected), range.start, a) <==> InEffect(inside, a).Some?
    ensures InEffect(inside, a).Some? ==> LocationAt(RowsOf(entries, selected), a) == LocationAt(inside, a)
    ensures InEffect(inside, a).None? ==>
      var before := RowsBefore(entries, selected, range.start);
      LocationAt(RowsOf(entries, selected), a) ==
        if before == [] then None else Some((before[|before| - 1].file, before[|before| - 1].line))
  {
    hide RowsOf, CountBelow, LocationAt, InEffect;
    SlicesOf(entries, range, selected);
    var low, high := CountBelow(entries, range.start), CountBelow(entries, range.end);
    InEffectSome(inside, a);
    LocationByParts(RowsOf(entries[..low], selected), inside, RowsOf(entries[high..], selected), range, a);
  }

  /** Where no entry of the slice is at or below the address, none of a sequence is. */
  lemma NoneOfAny(entries: seq<SequencedLine>, selected: Option<uint64>, a: uint64)
    requires InEffect(RowsOf(entries, None), a).None?
    ensures InEffect(RowsOf(entries, selected), a).None?
  {
    hide RowsOf;
    InEffectSome(RowsOf(entries, None), a);
    InEffectSome(RowsOf(entries, selected), a);
    if InEffect(RowsOf(entries, selected), a).Some? {
      var row :| row in RowsOf(entries, selected) && row.address <= a;
      RowsOfMembers(entries, selected);
      var line :| line in entries && line.entry == row;
      EveryEntry(entries, line);
    }
  }

  lemma {:induction false} EveryEntry(entries: seq<SequencedLine>, line: SequencedLine)
    requires line in entries
    ensures line.entry in RowsOf(entries, None)
    decreases |entries|
  {
    if line != entries[0] {
      EveryEntry(entries[1..], line);
    }
  }

  lemma InEffectEarlier(rows: seq<LineEntry>, a: uint64, b: uint64)
    requires InEffect(rows, a).None? && b <= a
    ensures InEffect(rows, b).None?
  {
    hide InEffect;
    InEffectSome(rows, a);
    InEffectSome(rows, b);
  }

  lemma LocationsImported(
    entries: seq<SequencedLine>, sequences: seq<LineSequenceRange>, range: AddressRange, selected: Option<uint64>,
    rows: seq<LineEntry>, inside: seq<LineEntry>)
    requires SortedEntries(entries) && range.start < range.end
    requires
      var low, high := CountBelow(entries, range.start), CountBelow(entries, range.end);
      low <= high && inside == RowsOf(entries[low..high], selected)
    requires ClampedRows(rows, entries, sequences, selected, range.start, inside)
    ensures forall a: uint64 :: range.start <= a < range.end ==>
      LocationAt(rows, a) == Imported(entries, sequences, selected, range.start, a)
  {
    hide RowsOf, CountBelow, ClampingSequence, SortedEntries, RowsBefore, InEffect;
    forall a: uint64 | range.start <= a < range.end
      ensures LocationAt(rows, a) == Imported(entries, sequences, selected, range.start, a)
    {
      Reached(entries, selected, range, a, inside);
      if rows != inside {
        InEffectCons(rows[0], inside, a);
      }
      if InEffect(inside, a).None? && ClampingSequence(sequences, selected, range.start).Some? {
        ClampedStart(entries, sequences, range, selected, inside, a);
      }
    }
  }

  /** No row of the selection inside the range reaches the address: the location at the
      start in the clamping sequence is that of its last earlier row. */
  lemma ClampedStart(
    entries: seq<SequencedLine>, sequences: seq<LineSequenceRange>, range: AddressRange, selected: Option<uint64>,
    inside: seq<LineEntry>, a: uint64)
    requires SortedEntries(entries) && range.start <= a < range.end
    requires
      var low, high := CountBelow(entries, range.start), CountBelow(entries, range.end);
      low <= high && inside == RowsOf(entries[low..high], selected)
    requires InEffect(inside, a).None? && ClampingSequence(sequences, selected, range.start).Some?
    ensures
      var sequence := ClampedTo(selected, ClampingSequence(sequences, selected, range.start).value);
      var before := RowsBefore(entries, sequence, range.start);
      LocationAt(RowsOf(entries, sequence), range.start) ==
        if before == [] then None else Some((before[|before| - 1].file, before[|before| - 1].line))
    ensures inside == [] || inside[0].address > range.start
  {
    hide RowsOf, CountBelow, ClampingSequence, SortedEntries, RowsBefore, InEffect, LocationAt;
    var sequence := ClampedTo(selected, ClampingSequence(sequences, selected, range.start).value);
    var low, high := CountBelow(entries, range.start), CountBelow(entries, range.end);
    var slice := entries[low..high];
    if selected.None? {
      NoneOfAny(slice, sequence, a);
    }
    InEffectEarlier(RowsOf(slice, sequence), a, range.start);
    Reached(entries, sequence, range, range.start, RowsOf(slice, sequence));
    InEffectSome(inside, a);
    if inside != [] {
      assert inside[0] in inside;
    }
  }

  lemma CompactedInside(rows: seq<LineEntry>, range: AddressRange)
    requires SortedRows(rows) && LinesInside(rows, range)
    ensures LinesInside(CompactRows(rows), range)
  {
    hide CompactRows, LocationAt, SortedRows, NoRepeats;
    CompactedRows(rows);
    var compacted := CompactRows(rows);
    forall i | 0 <= i < |compacted|
      ensures compacted[i] in rows
    {
      assert compacted[i] in compacted;
    }
  }

  lemma CompactedEmpty(rows: seq<LineEntry>)
    ensures CompactRows(rows) == [] <==> rows == []
  {
  }

  lemma InsideRows(entries: seq<SequencedLine>, range: AddressRange, selected: Option<uint64>, inside: seq<LineEntry>)
    requires SortedEntries(entries)
    requires
      var low, high := CountBelow(entries, range.start), CountBelow(entries, range.end);
      inside == if low <= high then RowsOf(entries[low..high], selected) else []
    ensures SortedRows(inside)
    ensures forall row :: row in inside ==> range.start <= row.address && (range.IsEmpty() || row.address < range.end)
  {
    hide RowsOf, CountBelow;
    if range.start <= range.end {
      SlicesOf(entries, range, selected);
    } else {
      CountBelowMonotone(entries, range.end, range.start);
      var low, high := CountBelow(entries, range.start), CountBelow(entries, range.end);
      if low == high {
        assert entries[low..high] == [];
        NoRows(selected);
      }
    }
  }

  lemma NoRows(selected: Option<uint64>)
    ensures RowsOf([], selected) == []
  {
  }

  /** Any row clamped to the start keeps the rows in order and inside. */
  lemma ClampedAnyway(rows: seq<LineEntry>, inside: seq<LineEntry>, range: AddressRange)
    requires SortedRows(inside)
    requires forall row :: row in inside ==> range.start <= row.address && (range.IsEmpty() || row.address < range.end)
    requires rows == inside || (rows != [] && rows[1..] == inside && rows[0].address == range.start)
    ensures SortedRows(rows) && LinesInside(rows, range)
  {
    forall i | 0 <= i < |inside|
      ensures range.start <= inside[i].address
    {
      assert inside[i] in inside;
    }
    if rows != inside {
      assert rows == [rows[0]] + inside;
    }
  }

  lemma LocationKept(
    entries: seq<SequencedLine>, sequences: seq<LineSequenceRange>, range: AddressRange, selected: Option<uint64>,
    rows: seq<LineEntry>, inside: seq<LineEntry>)
    requires SortedEntries(entries) && range.start < range.end
    requires
      var low, high := CountBelow(entries, range.start), CountBelow(entries, range.end);
      low <= high && inside == RowsOf(entries[low..high], selected)
    requires Clamped(rows, RowsBefore(entries, selected, range.start), inside, range.start,
                     ClampingSequence(sequences, selected, range.start).Some?)
    ensures (forall a: uint64 :: range.start <= a < range.end ==> LocationAt(rows, a) == LocationAt(RowsOf(entries, selected), a))
       <==> StartKnown(entries, sequences, selected, range.start)
  {
    hide RowsOf, CountBelow, LocationAt, ClampingSequence;
    var low, high := CountBelow(entries, range.start), CountBelow(entries, range.end);
    var before, after := RowsOf(entries[..low], selected), RowsOf(entries[high..], selected);
    SlicesOf(entries, range, selected);
    ClampedLocation(rows, before, inside, after, range, ClampingSequence(sequences, selected, range.start).Some?);
    StartRow(before, inside, after, range);
  }

  lemma StartRow(before: seq<LineEntry>, inside: seq<LineEntry>, after: seq<LineEntry>, range: AddressRange)
    requires SortedRows(inside) && range.start < range.end
    requires forall row :: row in before ==> row.address < range.start
    requires forall row :: row in inside ==> range.start <= row.address < range.end
    requires forall row :: row in after ==> row.address >= range.end
    ensures (exists row :: row in before + inside + after && row.address == range.start)
       <==> inside != [] && inside[0].address == range.start
  {
    if row :| row in before + inside + after && row.address == range.start {
      assert row in inside;
      var i :| 0 <= i < |inside| && inside[i] == row;
      assert inside[0] in inside;
    }
    if inside != [] && inside[0].address == range.start {
      assert inside[0] in before + inside + after;
    }
  }
}
