/** Finalization of a function set: src/writer/finalize.rs and src/normalize.rs. */
module Finalize {
  import opened Words
  import opened Wrappers
  import opened Model
  import opened Line
  import opened Validation
  import opened Sorting
  import opened Ordering
  import opened FinalizeSort

  // -------------------------------------------------------------------- compaction

  predicate SameLocation(a: LineEntry, b: LineEntry) {
    a.file == b.file && a.line == b.line
  }

  /** `dedup_by`: a row is dropped when the last kept row has its location. */
  function CompactAfter(last: LineEntry, rows: seq<LineEntry>): seq<LineEntry>
    decreases |rows|
  {
    if rows == [] then []
    else if SameLocation(rows[0], last) then CompactAfter(last, rows[1..])
    else [rows[0]] + CompactAfter(rows[0], rows[1..])
  }

  function CompactRows(rows: seq<LineEntry>): seq<LineEntry> {
    if rows == [] then [] else [rows[0]] + CompactAfter(rows[0], rows[1..])
  }

  method CompactLineRows(rows: seq<LineEntry>) returns (kept: seq<LineEntry>)
    ensures kept == CompactRows(rows)
  {
    if rows == [] {
      return [];
    }
    kept := [rows[0]];
    for i := 1 to |rows|
      invariant kept != []
      invariant kept + CompactAfter(kept[|kept| - 1], rows[i..]) == CompactRows(rows)
    {
      assert rows[i..][1..] == rows[i + 1..];
      var last := kept[|kept| - 1];
      if !SameLocation(rows[i], last) {
        assert kept + ([rows[i]] + CompactAfter(rows[i], rows[i + 1..]))
            == kept + [rows[i]] + CompactAfter(rows[i], rows[i + 1..]);
        kept := kept + [rows[i]];
      }
    }
    assert kept + [] == kept;
  }

  function CompactList(functions: seq<Function>): (r: seq<Function>)
    ensures |r| == |functions|
    decreases functions, 0
  {
    if functions == [] then [] else [Compact(functions[0])] + CompactList(functions[1..])
  }

  function Compact(f: Function): Function
    decreases f, 1
  {
    f.(lines := CompactRows(f.lines), merged := CompactList(f.merged))
  }

  /** The source location in effect at an address. */
  function LocationAt(rows: seq<LineEntry>, address: uint64): Option<(FileIndex, uint32)> {
    match InEffect(rows, address)
    case None => None
    case Some(row) => Some((row.file, row.line))
  }

  lemma SortedTail(row: LineEntry, rows: seq<LineEntry>)
    requires SortedRows([row] + rows)
    ensures SortedRows(rows)
    ensures forall i :: 0 <= i < |rows| ==> row.address <= rows[i].address
  {
    forall i | 0 <= i < |rows|
      ensures row.address <= rows[i].address
    {
      assert ([row] + rows)[0] == row && ([row] + rows)[i + 1] == rows[i];
    }
    forall i, j | 0 <= i < j < |rows|
      ensures rows[i].address <= rows[j].address
    {
      assert ([row] + rows)[i + 1] == rows[i] && ([row] + rows)[j + 1] == rows[j];
    }
  }

  lemma {:induction false} CompactAfterKeepsLocation(last: LineEntry, rows: seq<LineEntry>, address: uint64)
    requires SortedRows([last] + rows)
    ensures LocationAt([last] + CompactAfter(last, rows), address) == LocationAt([last] + rows, address)
    decreases |rows|
  {
    if rows != [] {
      SortedTail(last, rows);
      var rest := rows[1..];
      assert rows == [rows[0]] + rest;
      InEffectCons(last, rows, address);
      InEffectCons(last, CompactAfter(last, rows), address);
      if SameLocation(rows[0], last) {
        SkippedStaysSorted(last, rows[0], rest);
        CompactAfterKeepsLocation(last, rest, address);
        InEffectCons(last, rest, address);
        InEffectCons(rows[0], rest, address);
      } else {
        CompactAfterKeepsLocation(rows[0], rest, address);
      }
    }
  }

  lemma SkippedStaysSorted(a: LineEntry, b: LineEntry, rows: seq<LineEntry>)
    requires SortedRows([a] + ([b] + rows))
    ensures SortedRows([a] + rows)
  {
    SortedTail(a, [b] + rows);
    SortedTail(b, rows);
    forall i, j | 0 <= i < j < |[a] + rows|
      ensures ([a] + rows)[i].address <= ([a] + rows)[j].address
    {
      assert ([a] + rows)[j] == rows[j - 1] == ([b] + rows)[j];
    }
  }

  /** Compacting sorted rows changes the location in effect at no address. */
  lemma CompactKeepsLocation(rows: seq<LineEntry>, address: uint64)
    requires SortedRows(rows)
    ensures LocationAt(CompactRows(rows), address) == LocationAt(rows, address)
  {
    if rows != [] {
      assert rows == [rows[0]] + rows[1..];
      CompactAfterKeepsLocation(rows[0], rows[1..], address);
    }
  }

  lemma {:induction false} CompactedMember(last: LineEntry, rows: seq<LineEntry>)
    ensures forall row :: row in CompactAfter(last, rows) ==> row in rows
    decreases |rows|
  {
    if rows != [] {
      CompactedMember(last, rows[1..]);
      CompactedMember(rows[0], rows[1..]);
    }
  }

  lemma CompactRowsMember(rows: seq<LineEntry>)
    ensures forall row :: row in CompactRows(rows) ==> row in rows
  {
    if rows != [] {
      CompactedMember(rows[0], rows[1..]);
    }
  }

  lemma {:induction false} CompactListMember(functions: seq<Function>, g: Function)
    requires g in CompactList(functions)
    ensures exists f :: f in functions && g == Compact(f)
    decreases |functions|
  {
    if g == Compact(functions[0]) {
      assert functions[0] in functions;
    } else {
      CompactListMember(functions[1..], g);
    }
  }

  lemma {:induction false} CompactSound(f: Function, parent: Option<AddressRange>)
    requires Sound(f, parent)
    ensures Sound(Compact(f), parent)
    decreases f
  {
    hide SitesInside, SoundInline;
    CompactRowsMember(f.lines);
    forall g | g in CompactList(f.merged)
      ensures Sound(g, Some(f.range))
    {
      CompactListMember(f.merged, g);
      var h :| h in f.merged && g == Compact(h);
      CompactSound(h, Some(f.range));
    }
  }

  lemma {:induction false} CompactFiles(f: Function, limit: int)
    requires FilesAtMost(f, limit)
    ensures FilesAtMost(Compact(f), limit)
    decreases f
  {
    CompactRowsMember(f.lines);
    forall g | g in CompactList(f.merged)
      ensures FilesAtMost(g, limit)
    {
      CompactListMember(f.merged, g);
      var h :| h in f.merged && g == Compact(h);
      CompactFiles(h, limit);
    }
  }

  // ----------------------------------------------------------------- deduplication

  predicate HasRichInfo(f: Function) {
    f.lines != [] || f.inline.Some? || f.callSites != []
  }

  function Digits(n: nat): seq<uint8> {
    if n < 10 then [48 + n] else Digits(n / 10) + [48 + n % 10]
  }

  predicate StartsWith(s: seq<uint8>, prefix: seq<uint8>) {
    prefix <= s
  }

  /** `_Z`, `$s` or `$S`. */
  predicate IsSupportedMangled(name: seq<uint8>) {
    StartsWith(name, [95, 90]) || StartsWith(name, [36, 115]) || StartsWith(name, [36, 83])
  }

  /** Some window of `s` is the token. */
  predicate Contains(s: seq<uint8>, token: seq<uint8>) {
    token <= s || (s != [] && Contains(s[1..], token))
  }

  predicate ShouldReplaceWithMangledName(alternate: seq<uint8>, current: seq<uint8>) {
    if current == [] then alternate != []
    else if IsSupportedMangled(current) || !IsSupportedMangled(alternate) then false
    else Contains(alternate, Digits(|current|) + current)
  }

  /** What the retained record becomes when `current` is folded into it, if it is. */
  function Absorb(previous: Function, current: Function): Option<Function> {
    if previous.range == current.range then
      if HasRichInfo(previous) != HasRichInfo(current) then
        if HasRichInfo(current) then
          Some(if ShouldReplaceWithMangledName(previous.name, current.name) then current.(name := previous.name) else current)
        else Some(previous)
      else if previous != current then Some(current)
      else Some(previous)
    else if previous.range.IsEmpty() && current.range.Contains(previous.range.start) then Some(current)
    else None
  }

  function DedupAfter(previous: Function, rest: seq<Function>): (kept: seq<Function>)
    ensures kept != []
    decreases |rest|
  {
    if rest == [] then [previous]
    else match Absorb(previous, rest[0])
      case Some(retained) => DedupAfter(retained, rest[1..])
      case None => [previous] + DedupAfter(rest[0], rest[1..])
  }

  function Dedup(functions: seq<Function>): seq<Function> {
    if functions == [] then [] else DedupAfter(functions[0], functions[1..])
  }

  method Deduplicate(functions: seq<Function>) returns (kept: seq<Function>)
    ensures kept == Dedup(functions)
  {
    hide Absorb;
    if functions == [] {
      return [];
    }
    kept := [functions[0]];
    for i := 1 to |functions|
      invariant kept != []
      invariant kept[..|kept| - 1] + DedupAfter(kept[|kept| - 1], functions[i..]) == Dedup(functions)
    {
      assert functions[i..][1..] == functions[i + 1..];
      var last := |kept| - 1;
      match Absorb(kept[last], functions[i])
      case Some(retained) =>
        assert kept[last := retained][..last] == kept[..last];
        kept := kept[last := retained];
      case None =>
        assert kept[..last] + ([kept[last]] + DedupAfter(functions[i], functions[i + 1..]))
            == kept + DedupAfter(functions[i], functions[i + 1..]);
        kept := kept + [functions[i]];
        assert kept[..|kept| - 1] + [functions[i]] == kept;
    }
    assert kept[..|kept| - 1] + [kept[|kept| - 1]] == kept;
  }

  // -------------------------------------------- deduplicating a sorted list of functions

  predicate RangeLess(a: AddressRange, b: AddressRange) {
    a.start < b.start || (a.start == b.start && a.end < b.end)
  }

  lemma SortedRange(f: Function, g: Function)
    requires FunctionLeq(f, g)
    ensures f.range == g.range || RangeLess(f.range, g.range)
  {
    hide Richness, Tiebreak;
    if f.range != g.range {
      if RangeKey(f.range) == RangeKey(g.range) {
        RangeKeyInjective(f.range, g.range);
      }
      RangeKeyOrder(f.range, g.range);
    }
  }

  lemma RangeKeyOrder(a: AddressRange, b: AddressRange)
    requires LexLeq(RangeKey(a), RangeKey(b)) && a != b
    ensures RangeLess(a, b)
  {
    var x, y := RangeKey(a), RangeKey(b);
    assert x[0] == a.start && y[0] == b.start && x[1..] == [a.end as int] && y[1..] == [b.end as int];
  }

  /** Among aliases, a record without detail never follows one with detail. */
  lemma SortedRichness(f: Function, g: Function)
    requires FunctionLeq(f, g) && f.range == g.range && HasRichInfo(f)
    ensures HasRichInfo(g)
  {
    if !HasRichInfo(g) {
      var x, y := Richness(f, true), Richness(g, true);
      assert x[0] >= 0 && y[0] == y[1] == y[2] == y[3] == y[4] == 0;
      assert y[5] == 0 by {
        assert PatternCount([]) == 0;
      }
      assert FullKey(f, true).richness == x && FullKey(g, true).richness == y && x != y;
      LexNotBelowZeros(x, y);
    }
  }

  /** Something positive before only zeros. */
  lemma LexNotBelowZeros(x: seq<int>, y: seq<int>)
    requires |x| == |y| == 7
    requires forall i :: 0 <= i < 6 ==> y[i] == 0 && x[i] >= 0
    requires x[0] > 0 || x[4] > 0 || x[5] > 0
    ensures !LexLeq(x, y)
  {
    if x[0] == 0 {
      assert x[1..][1..] == x[2..] && y[1..][1..] == y[2..];
      assert x[2..][1..] == x[3..] && y[2..][1..] == y[3..];
      assert x[3..][1..] == x[4..] && y[3..][1..] == y[4..];
      assert x[4..][1..] == x[5..] && y[4..][1..] == y[5..];
      assert x[5] > 0 ==> !LexLeq(x[5..], y[5..]);
      assert !LexLeq(x[4..], y[4..]);
      assert !LexLeq(x[3..], y[3..]);
      assert !LexLeq(x[2..], y[2..]);
    }
  }

  /** Equal but for the name. */
  predicate SameButName(f: Function, g: Function) {
    f == g.(name := f.name)
  }

  predicate ValidRanges(functions: seq<Function>) {
    forall f :: f in functions ==> f.range.IsValid()
  }

  /** Folding the next function of a sorted list in leaves that function, perhaps
      renamed; otherwise the next one starts later and nothing is absorbed. */
  lemma AbsorbStep(previous: Function, origin: Function, current: Function)
    requires SameButName(previous, origin) && FunctionLeq(origin, current)
    requires origin.range.IsValid() && current.range.IsValid()
    ensures match Absorb(previous, current)
      case Some(retained) =>
        && SameButName(retained, current)
        && (origin.range == current.range || (origin.range.IsEmpty() && current.range.Contains(origin.range.start)))
      case None =>
        && RangeLess(origin.range, current.range)
        && (origin.range.IsEmpty() ==> origin.range.start < current.range.start)
  {
    hide FunctionLeq, ShouldReplaceWithMangledName;
    SortedRange(origin, current);
    if origin.range == current.range && HasRichInfo(origin) {
      SortedRichness(origin, current);
    }
  }

  ghost predicate Ordered(functions: seq<Function>) {
    SortedBy(FunctionLeq, functions) && ValidRanges(functions)
  }

  lemma OrderedTail(first: Function, rest: seq<Function>)
    requires Ordered([first] + rest) && rest != []
    ensures FunctionLeq(first, rest[0]) && first.range.IsValid() && rest[0].range.IsValid()
    ensures Ordered(rest) && rest == [rest[0]] + rest[1..]
  {
    hide FunctionLeq;
    var s := [first] + rest;
    assert s[0] == first && s[1] == rest[0] && first in s && rest[0] in s;
    forall i, j | 0 <= i < j < |rest|
      ensures FunctionLeq(rest[i], rest[j])
    {
      assert s[i + 1] == rest[i] && s[j + 1] == rest[j];
    }
    forall f | f in rest
      ensures f.range.IsValid()
    {
      assert f in s;
    }
  }

  /** Strictly increasing ranges, and no empty record at the start of a later one. */
  predicate Separated(kept: seq<Function>) {
    && (forall i, j :: 0 <= i < j < |kept| ==> RangeLess(kept[i].range, kept[j].range))
    && (forall i, j :: 0 <= i < j < |kept| && kept[i].range.IsEmpty() ==> !kept[j].range.Contains(kept[i].range.start))
  }

  predicate NotBelow(range: AddressRange, floor: AddressRange) {
    range == floor || RangeLess(floor, range)
  }

  lemma {:induction false} DedupSeparates(previous: Function, origin: Function, rest: seq<Function>)
    requires SameButName(previous, origin) && Ordered([origin] + rest)
    ensures Separated(DedupAfter(previous, rest))
    ensures forall g :: g in DedupAfter(previous, rest) ==> NotBelow(g.range, origin.range)
    decreases |rest|
  {
    hide Absorb, FunctionLeq, Ordered;
    if rest != [] {
      OrderedTail(origin, rest);
      AbsorbStep(previous, origin, rest[0]);
      match Absorb(previous, rest[0])
      case Some(retained) =>
        DedupSeparates(retained, rest[0], rest[1..]);
        SortedRange(origin, rest[0]);
      case None =>
        DedupSeparates(rest[0], rest[0], rest[1..]);
        var tail := DedupAfter(rest[0], rest[1..]);
        forall j | 0 <= j < |tail|
          ensures RangeLess(previous.range, tail[j].range)
          ensures previous.range.IsEmpty() ==> !tail[j].range.Contains(previous.range.start)
        {
          assert tail[j] in tail;
        }
    }
  }

  /** The last function with its range. */
  predicate LastOfRange(functions: seq<Function>, i: nat) {
    i < |functions| && (i + 1 < |functions| ==> functions[i + 1].range != functions[i].range)
  }

  ghost predicate Survivor(functions: seq<Function>, g: Function) {
    exists i: nat :: LastOfRange(functions, i) && SameButName(g, functions[i])
  }

  lemma SurvivorShifts(first: Function, rest: seq<Function>, g: Function)
    requires Survivor(rest, g)
    ensures Survivor([first] + rest, g)
  {
    hide SameButName;
    var i: nat :| LastOfRange(rest, i) && SameButName(g, rest[i]);
    var s := [first] + rest;
    assert s[i + 1] == rest[i] && (i + 1 < |rest| ==> s[i + 2] == rest[i + 1]);
    assert LastOfRange(s, i + 1);
  }

  lemma {:induction false} DedupSurvivors(previous: Function, origin: Function, rest: seq<Function>)
    requires SameButName(previous, origin) && Ordered([origin] + rest)
    ensures forall g :: g in DedupAfter(previous, rest) ==> Survivor([origin] + rest, g)
    decreases |rest|
  {
    hide Absorb, FunctionLeq, Ordered, SameButName, Survivor;
    var s := [origin] + rest;
    if rest == [] {
      SurvivesFirst(s, previous);
    } else {
      OrderedTail(origin, rest);
      AbsorbStep(previous, origin, rest[0]);
      var next := match Absorb(previous, rest[0]) case Some(retained) => retained case None => rest[0];
      SameAsItself(rest[0]);
      DedupSurvivors(next, rest[0], rest[1..]);
      forall g | g in DedupAfter(next, rest[1..])
        ensures Survivor(s, g)
      {
        SurvivorShifts(origin, rest, g);
      }
      if Absorb(previous, rest[0]).None? {
        SurvivesFirst(s, previous);
      }
    }
  }

  lemma SameAsItself(f: Function)
    ensures SameButName(f, f)
  {
  }

  lemma SurvivesFirst(s: seq<Function>, g: Function)
    requires s != [] && SameButName(g, s[0]) && (|s| > 1 ==> s[1].range != s[0].range)
    ensures Survivor(s, g)
  {
    assert LastOfRange(s, 0);
  }

  /** Some function covers the address. */
  predicate Covered(functions: seq<Function>, address: uint64) {
    functions != [] && (functions[0].range.Contains(address) || Covered(functions[1..], address))
  }

  lemma {:induction false} DedupCovers(previous: Function, origin: Function, rest: seq<Function>, address: uint64)
    requires SameButName(previous, origin) && Ordered([origin] + rest)
    ensures Covered(DedupAfter(previous, rest), address) == Covered([origin] + rest, address)
    decreases |rest|
  {
    hide Absorb, FunctionLeq, Ordered;
    assert ([origin] + rest)[1..] == rest;
    if rest == [] {
      assert [previous][1..] == [];
    } else {
      OrderedTail(origin, rest);
      AbsorbStep(previous, origin, rest[0]);
      match Absorb(previous, rest[0])
      case Some(retained) =>
        DedupCovers(retained, rest[0], rest[1..], address);
      case None =>
        DedupCovers(rest[0], rest[0], rest[1..], address);
        var tail := DedupAfter(rest[0], rest[1..]);
        assert ([previous] + tail)[1..] == tail;
    }
  }

  /** The range itself, or for an empty one a record it lies in. */
  ghost predicate Represented(kept: seq<Function>, range: AddressRange) {
    exists g :: g in kept && (g.range == range || (range.IsEmpty() && g.range.Contains(range.start)))
  }

  lemma {:induction false} DedupRepresents(previous: Function, origin: Function, rest: seq<Function>, f: Function)
    requires SameButName(previous, origin) && Ordered([origin] + rest)
    requires f == origin || f in rest
    ensures Represented(DedupAfter(previous, rest), f.range)
    decreases |rest|
  {
    hide Absorb, FunctionLeq, Ordered;
    if rest != [] {
      OrderedTail(origin, rest);
      AbsorbStep(previous, origin, rest[0]);
      match Absorb(previous, rest[0])
      case Some(retained) =>
        DedupRepresents(retained, rest[0], rest[1..], if f == origin then rest[0] else f);
      case None =>
        if f == origin {
          assert previous in DedupAfter(previous, rest);
        } else {
          DedupRepresents(rest[0], rest[0], rest[1..], f);
        }
    }
  }

  /** Deduplicating a sorted list leaves strictly increasing ranges and no empty
      record where a later one starts, loses no range but the empty ones inside a
      kept record, and each survivor is the last and richest record of its range,
      except perhaps for the name. */
  lemma DedupKeepsRichest(functions: seq<Function>)
    requires Ordered(functions)
    ensures Separated(Dedup(functions))
    ensures forall g :: g in Dedup(functions) ==> Survivor(functions, g)
    ensures forall f :: f in functions ==> Represented(Dedup(functions), f.range)
    ensures forall address :: Covered(Dedup(functions), address) == Covered(functions, address)
  {
    if functions != [] {
      hide FunctionLeq, Survivor, Separated, Represented, Covered;
      assert functions == [functions[0]] + functions[1..];
      DedupSeparates(functions[0], functions[0], functions[1..]);
      DedupSurvivors(functions[0], functions[0], functions[1..]);
      forall f | f in functions
        ensures Represented(Dedup(functions), f.range)
      {
        DedupRepresents(functions[0], functions[0], functions[1..], f);
      }
      forall address
        ensures Covered(Dedup(functions), address) == Covered(functions, address)
      {
        DedupCovers(functions[0], functions[0], functions[1..], address);
      }
    }
  }

  // ----------------------------------------------------------- merging equal ranges

  /** The record a merged duplicate is compared with. */
  function LastMerged(parent: Function): Function {
    if parent.merged == [] then parent else parent.merged[|parent.merged| - 1]
  }

  function MergeInto(parent: Function, f: Function): Function {
    if LastMerged(parent) != f then parent.(merged := parent.merged + [f]) else parent
  }

  function MergeAfter(parent: Function, rest: seq<Function>): (kept: seq<Function>)
    ensures kept != []
    decreases |rest|
  {
    if rest == [] then [parent]
    else if parent.range == rest[0].range then MergeAfter(MergeInto(parent, rest[0]), rest[1..])
    else [parent] + MergeAfter(rest[0], rest[1..])
  }

  function Merge(functions: seq<Function>): seq<Function> {
    if functions == [] then [] else MergeAfter(functions[0], functions[1..])
  }

  method MergeEqualRanges(functions: seq<Function>) returns (kept: seq<Function>)
    ensures kept == Merge(functions)
  {
    hide MergeInto;
    if functions == [] {
      return [];
    }
    kept := [functions[0]];
    for i := 1 to |functions|
      invariant kept != []
      invariant kept[..|kept| - 1] + MergeAfter(kept[|kept| - 1], functions[i..]) == Merge(functions)
    {
      assert functions[i..][1..] == functions[i + 1..];
      var last := |kept| - 1;
      if kept[last].range == functions[i].range {
        var merged := MergeInto(kept[last], functions[i]);
        assert kept[last := merged][..last] == kept[..last];
        kept := kept[last := merged];
      } else {
        assert kept[..last] + ([kept[last]] + MergeAfter(functions[i], functions[i + 1..]))
            == kept + MergeAfter(functions[i], functions[i + 1..]);
        kept := kept + [functions[i]];
        assert kept[..|kept| - 1] + [functions[i]] == kept;
      }
    }
    assert kept[..|kept| - 1] + [kept[|kept| - 1]] == kept;
  }

  /** The function itself, perhaps with more merged into it, or one merged into another. */
  ghost predicate Holds(kept: seq<Function>, f: Function) {
    exists g :: g in kept && (f in g.merged || (g == f.(merged := g.merged) && f.merged <= g.merged))
  }

  lemma {:induction false} MergeHolds(parent: Function, rest: seq<Function>, f: Function)
    requires f in rest || f in parent.merged || (parent == f.(merged := parent.merged) && f.merged <= parent.merged)
    ensures Holds(MergeAfter(parent, rest), f)
    decreases |rest|
  {
    if rest == [] {
      assert parent in MergeAfter(parent, rest);
    } else if parent.range == rest[0].range {
      MergeHolds(MergeInto(parent, rest[0]), rest[1..], f);
    } else if f in rest {
      MergeHolds(rest[0], rest[1..], f);
    } else {
      assert parent in MergeAfter(parent, rest);
    }
  }

  /** Merging leaves one record per range and loses no function of the input. */
  lemma MergeLosesNothing(functions: seq<Function>)
    requires Ordered(functions)
    ensures forall f :: f in functions ==> Holds(Merge(functions), f)
    ensures forall i, j :: 0 <= i < j < |Merge(functions)| ==> RangeLess(Merge(functions)[i].range, Merge(functions)[j].range)
  {
    hide FunctionLeq, Holds;
    if functions != [] {
      assert functions == [functions[0]] + functions[1..];
      forall f | f in functions
        ensures Holds(Merge(functions), f)
      {
        MergeHolds(functions[0], functions[1..], f);
      }
      MergeSeparates(functions[0], functions[0], functions[1..]);
    }
  }

  lemma {:induction false} MergeSeparates(parent: Function, origin: Function, rest: seq<Function>)
    requires parent.range == origin.range && Ordered([origin] + rest)
    ensures
      var kept := MergeAfter(parent, rest);
      && (forall i, j :: 0 <= i < j < |kept| ==> RangeLess(kept[i].range, kept[j].range))
      && (forall g :: g in kept ==> NotBelow(g.range, origin.range))
    decreases |rest|
  {
    hide FunctionLeq, Ordered, MergeInto, RangeLess, NotBelow;
    if rest == [] {
      NothingBelowItself(origin.range);
      assert MergeAfter(parent, rest) == [parent];
    } else {
      OrderedTail(origin, rest);
      SortedRange(origin, rest[0]);
      if parent.range == rest[0].range {
        MergeIntoRange(parent, rest[0]);
        MergeSeparates(MergeInto(parent, rest[0]), rest[0], rest[1..]);
        assert MergeAfter(parent, rest) == MergeAfter(MergeInto(parent, rest[0]), rest[1..]);
      } else {
        MergeSeparates(rest[0], rest[0], rest[1..]);
        assert MergeAfter(parent, rest) == [parent] + MergeAfter(rest[0], rest[1..]);
        PrependSeparates(parent, rest[0].range, MergeAfter(rest[0], rest[1..]));
      }
    }
  }

  lemma MergeIntoRange(parent: Function, f: Function)
    ensures MergeInto(parent, f).range == parent.range
  {
  }

  lemma NothingBelowItself(range: AddressRange)
    ensures NotBelow(range, range)
  {
  }

  lemma PrependSeparates(parent: Function, next: AddressRange, tail: seq<Function>)
    requires RangeLess(parent.range, next)
    requires forall i, j :: 0 <= i < j < |tail| ==> RangeLess(tail[i].range, tail[j].range)
    requires forall g :: g in tail ==> NotBelow(g.range, next)
    ensures
      var kept := [parent] + tail;
      && (forall i, j :: 0 <= i < j < |kept| ==> RangeLess(kept[i].range, kept[j].range))
      && (forall g :: g in kept ==> NotBelow(g.range, parent.range))
  {
    forall j | 0 <= j < |tail|
      ensures RangeLess(parent.range, tail[j].range)
    {
      assert tail[j] in tail;
    }
  }

  // ------------------------------------------------------------------ final repair

  predicate RepairKeepsRecords(f: Function, repaired: AddressRange)
    decreases f
  {
    && (forall line :: line in f.lines ==> repaired.Contains(line.address))
    && (forall site :: site in f.callSites ==> site.returnOffset < repaired.Size())
    && (f.inline.Some? ==> forall range :: range in f.inline.value.ranges ==> repaired.ContainsRange(range))
    && (forall g :: g in f.merged ==> RepairKeepsRecords(g, repaired))
  }

  function WithRange(f: Function, range: AddressRange): Function
    decreases f, 1
  {
    f.(range := range, merged := WithRangeList(f.merged, range))
  }

  function WithRangeList(functions: seq<Function>, range: AddressRange): seq<Function>
    decreases functions, 0
  {
    if functions == [] then [] else [WithRange(functions[0], range)] + WithRangeList(functions[1..], range)
  }

  /** The end of the first executable range around `start`, or `start` itself. */
  function ExecutableEnd(executable: seq<AddressRange>, start: uint64): uint64 {
    if executable == [] then start
    else if executable[0].Contains(start) then executable[0].end
    else ExecutableEnd(executable[1..], start)
  }

  lemma {:induction false} ExecutableEndAfter(executable: seq<AddressRange>, start: uint64)
    ensures start <= ExecutableEnd(executable, start)
  {
    if executable != [] {
      ExecutableEndAfter(executable[1..], start);
    }
  }

  /** Executable range `k` is the first that contains the address. */
  predicate FirstAround(executable: seq<AddressRange>, start: uint64, k: nat) {
    k < |executable| && executable[k].Contains(start) && forall j :: 0 <= j < k ==> !executable[j].Contains(start)
  }

  lemma {:induction false} ExecutableEndIs(executable: seq<AddressRange>, start: uint64)
    ensures forall k: nat :: FirstAround(executable, start, k) ==> ExecutableEnd(executable, start) == executable[k].end
    ensures (forall range :: range in executable ==> !range.Contains(start)) ==> ExecutableEnd(executable, start) == start
  {
    if executable != [] && !executable[0].Contains(start) {
      ExecutableEndIs(executable[1..], start);
      forall k: nat | FirstAround(executable, start, k)
        ensures FirstAround(executable[1..], start, k - 1)
      {
      }
    }
  }

  /** From the start to the end of executable code, of encodable size. */
  function RepairedRange(executable: seq<AddressRange>, start: uint64): (range: AddressRange)
    ensures range.start == start && range.IsValid() && range.Size() < U32_LIMIT
    ensures forall k: nat :: FirstAround(executable, start, k) ==> range.end == Min(executable[k].end, start + U32_LIMIT - 1)
    ensures (forall range :: range in executable ==> !range.Contains(start)) ==> range.end == start
  {
    ExecutableEndAfter(executable, start);
    ExecutableEndIs(executable, start);
    var end := ExecutableEnd(executable, start);
    AddressRange(start, start + Min(end - start, U32_LIMIT - 1))
  }

  function RepairLast(functions: seq<Function>, repair: bool, executable: seq<AddressRange>): seq<Function> {
    if !repair || functions == [] || !functions[|functions| - 1].range.IsEmpty() then functions
    else
      var last := functions[|functions| - 1];
      var repaired := RepairedRange(executable, last.range.start);
      if RepairKeepsRecords(last, repaired) then functions[|functions| - 1 := WithRange(last, repaired)] else functions
  }

  lemma {:induction false} WithRangeListMember(functions: seq<Function>, range: AddressRange, g: Function)
    requires g in WithRangeList(functions, range)
    ensures exists f :: f in functions && g == WithRange(f, range)
    decreases |functions|
  {
    if g == WithRange(functions[0], range) {
      assert functions[0] in functions;
    } else {
      WithRangeListMember(functions[1..], range, g);
    }
  }

  lemma {:induction false} RepairSound(f: Function, parent: Option<AddressRange>, repaired: AddressRange)
    requires Sound(f, parent) && RepairKeepsRecords(f, repaired) && repaired.IsValid()
    ensures Sound(WithRange(f, repaired), if parent.Some? then Some(repaired) else None)
    decreases f
  {
    if f.inline.Some? {
      forall range | range in f.inline.value.ranges
        ensures Within(range, [repaired])
      {
        assert repaired in [repaired];
      }
    }
    forall g | g in WithRangeList(f.merged, repaired)
      ensures Sound(g, Some(repaired))
    {
      WithRangeListMember(f.merged, repaired, g);
      var h :| h in f.merged && g == WithRange(h, repaired);
      RepairSound(h, Some(f.range), repaired);
    }
  }

  lemma {:induction false} RepairFiles(f: Function, range: AddressRange, limit: int)
    requires FilesAtMost(f, limit)
    ensures FilesAtMost(WithRange(f, range), limit)
    decreases f
  {
    forall g | g in WithRangeList(f.merged, range)
      ensures FilesAtMost(g, limit)
    {
      WithRangeListMember(f.merged, range, g);
      var h :| h in f.merged && g == WithRange(h, range);
      RepairFiles(h, range, limit);
    }
  }

  // --------------------------------------------------------------------- pipeline

  datatype FunctionSetPolicy = Deduplicated | MergedEqualRanges | Preserved

  function ApplyPolicy(functions: seq<Function>, policy: FunctionSetPolicy): seq<Function> {
    match policy
    case Deduplicated => Dedup(functions)
    case MergedEqualRanges => Merge(functions)
    case Preserved => functions
  }

  function Finalized(
      functions: seq<Function>, policy: FunctionSetPolicy, repair: bool, executable: seq<AddressRange>): seq<Function> {
    RepairLast(ApplyPolicy(Sort(FunctionLeq, CompactList(functions)), policy), repair, executable)
  }

  /** What the image writer and the reader need of a function. */
  predicate Encodable(f: Function, limit: int) {
    Sound(f, None) && FilesAtMost(f, limit)
  }

  predicate AllEncodable(functions: seq<Function>, limit: int) {
    forall f :: f in functions ==> Encodable(f, limit)
  }

  predicate SortedStarts(functions: seq<Function>) {
    forall i, j :: 0 <= i < j < |functions| ==> functions[i].range.start <= functions[j].range.start
  }

  lemma CompactEncodable(functions: seq<Function>, limit: int)
    requires AllEncodable(functions, limit)
    ensures AllEncodable(CompactList(functions), limit)
  {
    hide Sound, FilesAtMost;
    forall g | g in CompactList(functions)
      ensures Encodable(g, limit)
    {
      CompactListMember(functions, g);
      var f :| f in functions && g == Compact(f);
      CompactSound(f, None);
      CompactFiles(f, limit);
    }
  }

  lemma {:induction false} MergeEncodable(parent: Function, rest: seq<Function>, limit: int)
    requires Encodable(parent, limit) && AllEncodable(rest, limit)
    ensures AllEncodable(MergeAfter(parent, rest), limit)
    decreases |rest|
  {
    hide SoundInline, InlineFilesAtMost;
    if rest != [] {
      assert rest[0] in rest;
      if parent.range == rest[0].range {
        MergeIntoEncodable(parent, rest[0], limit);
        MergeEncodable(MergeInto(parent, rest[0]), rest[1..], limit);
      } else {
        MergeEncodable(rest[0], rest[1..], limit);
      }
    }
  }

  lemma MergeIntoEncodable(parent: Function, f: Function, limit: int)
    requires Encodable(parent, limit) && Encodable(f, limit) && parent.range == f.range
    ensures Encodable(MergeInto(parent, f), limit)
  {
    hide SoundInline, InlineFilesAtMost;
    assert Sound(f, Some(parent.range));
  }

  lemma SurvivorEncodable(functions: seq<Function>, g: Function, limit: int)
    requires AllEncodable(functions, limit) && Survivor(functions, g)
    ensures Encodable(g, limit)
  {
    hide SoundInline, InlineFilesAtMost;
    var i: nat :| LastOfRange(functions, i) && SameButName(g, functions[i]);
    assert functions[i] in functions && Encodable(functions[i], limit);
  }

  lemma SortedOrdered(functions: seq<Function>, limit: int)
    requires AllEncodable(functions, limit)
    ensures Ordered(Sort(FunctionLeq, functions)) && AllEncodable(Sort(FunctionLeq, functions), limit)
  {
    hide FunctionLeq, FilesAtMost;
    FunctionOrder();
    SortSorted(FunctionLeq, functions);
    SortMembers(FunctionLeq, functions);
  }

  lemma OrderedStarts(functions: seq<Function>)
    requires Ordered(functions)
    ensures SortedStarts(functions)
  {
    hide FunctionLeq;
    forall i, j | 0 <= i < j < |functions|
      ensures functions[i].range.start <= functions[j].range.start
    {
      SortedRange(functions[i], functions[j]);
    }
  }

  lemma PolicyKeeps(functions: seq<Function>, policy: FunctionSetPolicy, limit: int)
    requires Ordered(functions) && AllEncodable(functions, limit)
    ensures AllEncodable(ApplyPolicy(functions, policy), limit)
    ensures SortedStarts(ApplyPolicy(functions, policy))
    ensures ApplyPolicy(functions, policy) == [] <==> functions == []
  {
    hide Encodable, Ordered, Survivor, Represented, Covered, Holds;
    match policy
    case Deduplicated =>
      DedupKeepsRichest(functions);
      forall g | g in Dedup(functions)
        ensures Encodable(g, limit)
      {
        SurvivorEncodable(functions, g, limit);
      }
    case MergedEqualRanges =>
      MergeLosesNothing(functions);
      if functions != [] {
        assert functions[0] in functions;
        MergeEncodable(functions[0], functions[1..], limit);
      }
    case Preserved =>
      OrderedStarts(functions);
  }

  lemma RepairKeeps(functions: seq<Function>, repair: bool, executable: seq<AddressRange>, limit: int)
    requires AllEncodable(functions, limit) && SortedStarts(functions)
    ensures AllEncodable(RepairLast(functions, repair, executable), limit)
    ensures SortedStarts(RepairLast(functions, repair, executable))
    ensures |RepairLast(functions, repair, executable)| == |functions|
  {
    hide Sound, FilesAtMost, RepairKeepsRecords, ExecutableEnd;
    if RepairLast(functions, repair, executable) != functions {
      var last := functions[|functions| - 1];
      assert last in functions;
      var repaired := RepairedRange(executable, last.range.start);
      RepairSound(last, None, repaired);
      RepairFiles(last, repaired, limit);
      assert Encodable(WithRange(last, repaired), limit);
    }
  }

  /** Finalization keeps what the writer and the reader rely on: whatever the
      policy, functions that satisfy the reader's semantic rules at every merged
      depth still do, no file reference grows, and the result is in start order. */
  lemma FinalizedEncodable(
    functions: seq<Function>, policy: FunctionSetPolicy, repair: bool, executable: seq<AddressRange>, limit: int)
    requires AllEncodable(functions, limit)
    ensures AllEncodable(Finalized(functions, policy, repair, executable), limit)
    ensures SortedStarts(Finalized(functions, policy, repair, executable))
    ensures Finalized(functions, policy, repair, executable) == [] <==> functions == []
  {
    hide AllEncodable, SortedStarts, ApplyPolicy, RepairLast, FunctionLeq, Ordered;
    var sorted := Sort(FunctionLeq, CompactList(functions));
    CompactEncodable(functions, limit);
    SortedOrdered(CompactList(functions), limit);
    PolicyKeeps(sorted, policy, limit);
    RepairKeeps(ApplyPolicy(sorted, policy), repair, executable, limit);
  }
}
