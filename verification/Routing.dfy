/** Routing an address to a segment, compared with searching the unsplit table
    (`DecodedGsym::segments` in src/transform.rs and `matching_function` in
    src/reader/lookup.rs). */
module Routing {
  import opened Words
  import opened Wrappers
  import opened Model
  import opened Sorting
  import opened AddressSearch
  import opened Segments
  import opened Ordering
  import opened Transcode

  // ----------------------------------------------------------- the answer of a table

  /** An empty record matches every address its start is the greatest for. */
  predicate Matches(f: Function, address: uint64) {
    f.range.IsEmpty() || f.range.Contains(address)
  }

  function FirstMatch(functions: seq<Function>, address: uint64): Option<Function> {
    if functions == [] then None
    else if Matches(functions[0], address) then Some(functions[0])
    else FirstMatch(functions[1..], address)
  }

  /** The functions with one start, in table order. */
  function Run(functions: seq<Function>, start: uint64): seq<Function> {
    if functions == [] then []
    else if functions[0].range.start == start then [functions[0]] + Run(functions[1..], start)
    else Run(functions[1..], start)
  }

  /** The greatest start at or below the address. */
  function GreatestStart(functions: seq<Function>, address: uint64): (start: Option<uint64>)
    ensures start.None? <==> forall f :: f in functions ==> f.range.start > address
    ensures start.Some? ==> start.value <= address && exists f :: f in functions && f.range.start == start.value
    ensures start.Some? ==> forall f :: f in functions && f.range.start <= address ==> f.range.start <= start.value
  {
    if functions == [] then None
    else
      assert functions == [functions[0]] + functions[1..];
      var rest := GreatestStart(functions[1..], address);
      if functions[0].range.start <= address && (rest.None? || rest.value < functions[0].range.start)
      then Some(functions[0].range.start) else rest
  }

  /** The function a lookup of the address selects. */
  function Answer(functions: seq<Function>, address: uint64): Option<Function> {
    match GreatestStart(functions, address)
    case None => None
    case Some(start) => FirstMatch(Run(functions, start), address)
  }

  lemma {:induction false} FirstInRun(functions: seq<Function>, start: uint64, address: uint64, i: nat)
    requires i < |functions| && functions[i].range.start == start && Matches(functions[i], address)
    requires forall j :: 0 <= j < i ==> functions[j].range.start != start || !Matches(functions[j], address)
    ensures FirstMatch(Run(functions, start), address) == Some(functions[i])
  {
    hide Matches;
    if i > 0 {
      FirstInRun(functions[1..], start, address, i - 1);
      if functions[0].range.start == start {
        assert ([functions[0]] + Run(functions[1..], start))[1..] == Run(functions[1..], start);
      }
    }
  }

  lemma {:induction false} NoneInRun(functions: seq<Function>, start: uint64, address: uint64)
    requires forall f :: f in functions && f.range.start == start ==> !Matches(f, address)
    ensures FirstMatch(Run(functions, start), address) == None
  {
    hide Matches;
    if functions != [] {
      assert functions[0] in functions;
      NoneInRun(functions[1..], start, address);
      if functions[0].range.start == start {
        assert ([functions[0]] + Run(functions[1..], start))[1..] == Run(functions[1..], start);
      }
    }
  }

  /** `Answer` is what the search selects. */
  lemma AnswerIsSelected(functions: seq<Function>, address: uint64, i: nat)
    requires Selected(RangesOf(functions), address, i)
    ensures i < |functions| && Answer(functions, address) == Some(functions[i])
  {
    hide Run, FirstMatch;
    var ranges := RangesOf(functions);
    var greatest := GreatestStart(functions, address);
    assert functions[i] in functions;
    var f :| f in functions && f.range.start == greatest.value;
    var at :| 0 <= at < |functions| && functions[at] == f;
    assert ranges[at].start == greatest.value && ranges[i].start == greatest.value;
    forall j | 0 <= j < i
      ensures functions[j].range.start != greatest.value || !Matches(functions[j], address)
    {
      assert !Candidate(ranges, address, j);
    }
    FirstInRun(functions, greatest.value, address, i);
  }

  lemma NothingIsSelected(functions: seq<Function>, address: uint64)
    requires forall i: nat :: !Selected(RangesOf(functions), address, i)
    ensures Answer(functions, address) == None
  {
    hide Run, FirstMatch;
    var ranges := RangesOf(functions);
    var greatest := GreatestStart(functions, address);
    if greatest.Some? {
      if f :| f in functions && f.range.start == greatest.value && Matches(f, address) {
        var at: nat :| at < |functions| && functions[at] == f;
        assert Candidate(ranges, address, at) by {
          assert forall k :: 0 <= k < |ranges| ==> functions[k] in functions;
        }
        var _ := LeastCandidate(ranges, address, at);
      } else {
        NoneInRun(functions, greatest.value, address);
      }
    }
  }

  lemma {:induction false} LeastCandidate(ranges: seq<AddressRange>, address: uint64, at: nat) returns (first: nat)
    requires Candidate(ranges, address, at)
    ensures Selected(ranges, address, first)
  {
    hide Candidate;
    if j: nat :| j < at && Candidate(ranges, address, j) {
      first := LeastCandidate(ranges, address, j);
    } else {
      first := at;
    }
  }

  // ----------------------------------------------------------------------- records

  /** The members of a run that are the first match somewhere from `floor` to `limit`:
      those that end later than all before them, up to the first empty one. */
  function Records(run: seq<Function>, floor: uint64, limit: nat): seq<Function> {
    if run == [] || floor >= limit then []
    else if run[0].range.IsEmpty() then [run[0]]
    else if run[0].range.end > floor then [run[0]] + Records(run[1..], run[0].range.end, limit)
    else Records(run[1..], floor, limit)
  }

  predicate StartsAt(run: seq<Function>, start: uint64) {
    forall f :: f in run ==> f.range.start == start
  }

  predicate SameFirst(a: seq<Function>, b: seq<Function>, floor: uint64, limit: nat) {
    forall address: uint64 :: floor <= address < limit ==> FirstMatch(a, address) == FirstMatch(b, address)
  }

  /** A first match is a first record. */
  lemma {:induction false} RecordsAnswer(run: seq<Function>, start: uint64, floor: uint64, limit: nat, address: uint64)
    requires StartsAt(run, start) && start <= floor <= address < limit
    ensures FirstMatch(Records(run, floor, limit), address) == FirstMatch(run, address)
    decreases |run|
  {
    if run != [] {
      assert run[0] in run;
      var rest := run[1..];
      assert StartsAt(rest, start);
      if run[0].range.IsEmpty() {
      } else if run[0].range.end > floor {
        assert ([run[0]] + Records(rest, run[0].range.end, limit))[1..] == Records(rest, run[0].range.end, limit);
        if address >= run[0].range.end {
          RecordsAnswer(rest, start, run[0].range.end, limit, address);
        }
      } else {
        RecordsAnswer(rest, start, floor, limit, address);
      }
    }
  }

  /** Whether the head is no match from `floor` on. */
  predicate HeadHidden(run: seq<Function>, floor: uint64) {
    run != [] && !run[0].range.IsEmpty() && run[0].range.end <= floor
  }

  lemma DropHidden(run: seq<Function>, other: seq<Function>, start: uint64, floor: uint64, limit: nat)
    requires StartsAt(run, start) && start <= floor && HeadHidden(run, floor) && SameFirst(run, other, floor, limit)
    ensures StartsAt(run[1..], start) && SameFirst(run[1..], other, floor, limit)
  {
    assert run[0] in run;
    forall address: uint64 | floor <= address < limit
      ensures FirstMatch(run[1..], address) == FirstMatch(other, address)
    {
      assert FirstMatch(run, address) == FirstMatch(run[1..], address);
    }
  }

  lemma DropRecord(a: seq<Function>, b: seq<Function>, start: uint64, floor: uint64, limit: nat)
    requires StartsAt(a, start) && StartsAt(b, start) && start <= floor && SameFirst(a, b, floor, limit)
    requires a != [] && b != [] && a[0] == b[0] && !a[0].range.IsEmpty() && a[0].range.end > floor
    ensures StartsAt(a[1..], start) && StartsAt(b[1..], start) && SameFirst(a[1..], b[1..], a[0].range.end, limit)
  {
    assert a[0] in a;
    forall address: uint64 | a[0].range.end <= address < limit
      ensures FirstMatch(a[1..], address) == FirstMatch(b[1..], address)
    {
      assert FirstMatch(a, address) == FirstMatch(a[1..], address);
      assert FirstMatch(b, address) == FirstMatch(b[1..], address);
    }
  }

  /** Runs with the same first matches have the same records. */
  lemma {:induction false} SameFirstSameRecords(a: seq<Function>, b: seq<Function>, start: uint64, floor: uint64, limit: nat)
    requires StartsAt(a, start) && StartsAt(b, start) && start <= floor && SameFirst(a, b, floor, limit)
    ensures Records(a, floor, limit) == Records(b, floor, limit)
    decreases |a| + |b|
  {
    hide SameFirst, StartsAt, FirstMatch;
    if floor < limit {
      if HeadHidden(a, floor) {
        DropHidden(a, b, start, floor, limit);
        SameFirstSameRecords(a[1..], b, start, floor, limit);
      } else if HeadHidden(b, floor) {
        SameFirstFlips(a, b, floor, limit);
        DropHidden(b, a, start, floor, limit);
        SameFirstFlips(b[1..], a, floor, limit);
        SameFirstSameRecords(a, b[1..], start, floor, limit);
      } else {
        HeadsAgree(a, b, start, floor, limit);
        if a != [] && !a[0].range.IsEmpty() {
          DropRecord(a, b, start, floor, limit);
          SameFirstSameRecords(a[1..], b[1..], start, a[0].range.end, limit);
        }
      }
    }
  }

  lemma SameFirstFlips(a: seq<Function>, b: seq<Function>, floor: uint64, limit: nat)
    requires SameFirst(a, b, floor, limit)
    ensures SameFirst(b, a, floor, limit)
  {
  }

  lemma HeadsAgree(a: seq<Function>, b: seq<Function>, start: uint64, floor: uint64, limit: nat)
    requires StartsAt(a, start) && StartsAt(b, start) && start <= floor < limit && SameFirst(a, b, floor, limit)
    requires !HeadHidden(a, floor) && !HeadHidden(b, floor)
    ensures (a == [] <==> b == []) && (a != [] ==> a[0] == b[0])
  {
    assert FirstMatch(a, floor) == FirstMatch(b, floor);
    assert a != [] ==> a[0] in a;
    assert b != [] ==> b[0] in b;
  }

  /** Two runs answer alike from the start to the limit exactly when their records are
      the same. */
  lemma RecordsDecide(a: seq<Function>, b: seq<Function>, start: uint64, limit: nat)
    requires StartsAt(a, start) && StartsAt(b, start)
    ensures SameFirst(a, b, start, limit) <==> Records(a, start, limit) == Records(b, start, limit)
  {
    hide StartsAt, Records;
    if Records(a, start, limit) == Records(b, start, limit) {
      forall address: uint64 | start <= address < limit
        ensures FirstMatch(a, address) == FirstMatch(b, address)
      {
        RecordsAnswer(a, start, start, limit, address);
        RecordsAnswer(b, start, start, limit, address);
      }
    }
    if SameFirst(a, b, start, limit) {
      SameFirstSameRecords(a, b, start, start, limit);
    }
  }

  // ------------------------------------------------------------------------- spans

  /** Where the run that starts at `start` stops answering: at the next start, or where
      the span ends. */
  function NextStart(functions: seq<Function>, start: uint64, end: nat): (next: nat)
    ensures next <= end
    ensures forall f :: f in functions && f.range.start > start ==> next <= f.range.start
    ensures next == end || exists f :: f in functions && f.range.start == next && next > start
  {
    if functions == [] then end
    else
      assert functions == [functions[0]] + functions[1..];
      var rest := NextStart(functions[1..], start, end);
      if start < functions[0].range.start < rest then functions[0].range.start else rest
  }

  /** The run of a start has the same records in both tables. */
  predicate Agrees(functions: seq<Function>, table: seq<Function>, start: uint64, end: nat) {
    var limit := NextStart(functions, start, end);
    Records(Run(functions, start), start, limit) == Records(Run(table, start), start, limit)
  }

  /** A table taken out of another that keeps some function of every run from `first` to
      `end`. */
  predicate Represents(functions: seq<Function>, table: seq<Function>, first: uint64, end: nat) {
    && (forall f :: f in table ==> f in functions)
    && (exists f :: f in table && f.range.start == first)
    && (forall f :: f in functions && first <= f.range.start < end ==> exists g :: g in table && g.range.start == f.range.start)
  }

  lemma {:induction false} RunStarts(functions: seq<Function>, start: uint64)
    ensures StartsAt(Run(functions, start), start)
  {
    if functions != [] {
      RunStarts(functions[1..], start);
    }
  }

  lemma RepresentsFirst(functions: seq<Function>, table: seq<Function>, first: uint64, end: nat) returns (f: Function)
    requires Represents(functions, table, first, end)
    ensures f in table && f in functions && f.range.start == first
  {
    f :| f in table && f.range.start == first;
  }

  lemma RepresentsRun(functions: seq<Function>, table: seq<Function>, first: uint64, end: nat, f: Function) returns (g: Function)
    requires Represents(functions, table, first, end) && f in functions && first <= f.range.start < end
    ensures g in table && g.range.start == f.range.start
  {
    g :| g in table && g.range.start == f.range.start;
  }

  lemma RepresentsMember(functions: seq<Function>, table: seq<Function>, first: uint64, end: nat, f: Function)
    requires Represents(functions, table, first, end) && f in table
    ensures f in functions
  {
  }

  lemma GreatestIs(functions: seq<Function>, address: uint64, f: Function)
    requires f in functions && f.range.start <= address
    requires forall g :: g in functions && g.range.start <= address ==> g.range.start <= f.range.start
    ensures Answer(functions, address) == FirstMatch(Run(functions, f.range.start), address)
  {
    hide Run, FirstMatch, GreatestStart;
    var greatest := GreatestStart(functions, address).value;
    var g :| g in functions && g.range.start == greatest;
  }

  /** Between a start of the table and the next one both tables look into that run. */
  lemma RunOf(functions: seq<Function>, table: seq<Function>, first: uint64, end: nat, f: Function, address: uint64)
    requires Represents(functions, table, first, end) && f in table
    requires first <= f.range.start <= address < NextStart(functions, f.range.start, end)
    ensures Answer(functions, address) == FirstMatch(Run(functions, f.range.start), address)
    ensures Answer(table, address) == FirstMatch(Run(table, f.range.start), address)
  {
    hide Run, FirstMatch, NextStart, Represents, Answer;
    RepresentsMember(functions, table, first, end, f);
    GreatestIs(functions, address, f);
    forall g | g in table && g.range.start <= address
      ensures g.range.start <= f.range.start
    {
      RepresentsMember(functions, table, first, end, g);
    }
    GreatestIs(table, address, f);
  }

  /** Every address of the span lies between a start of the table and the next one. */
  lemma SameStart(functions: seq<Function>, table: seq<Function>, first: uint64, end: nat, address: uint64) returns (f: Function)
    requires Represents(functions, table, first, end) && first <= address < end
    ensures f in table && first <= f.range.start <= address < NextStart(functions, f.range.start, end)
  {
    hide NextStart, Represents, GreatestStart;
    var lowest := RepresentsFirst(functions, table, first, end);
    var greatest := GreatestStart(functions, address).value;
    var g :| g in functions && g.range.start == greatest;
    f := RepresentsRun(functions, table, first, end, g);
  }

  predicate SameAnswers(functions: seq<Function>, table: seq<Function>, first: uint64, end: nat) {
    forall address: uint64 :: first <= address < end ==> Answer(table, address) == Answer(functions, address)
  }

  predicate RunsAgree(functions: seq<Function>, table: seq<Function>, first: uint64, end: nat) {
    forall f :: f in table && first <= f.range.start < end ==> Agrees(functions, table, f.range.start, end)
  }

  /** Over a span the two tables answer every address alike exactly when the records of
      every run in it are the same. */
  lemma SpanIsExact(functions: seq<Function>, table: seq<Function>, first: uint64, end: nat)
    requires Represents(functions, table, first, end)
    ensures SameAnswers(functions, table, first, end) <==> RunsAgree(functions, table, first, end)
  {
    hide Represents, Answer, Run, Records, FirstMatch, NextStart;
    if RunsAgree(functions, table, first, end) {
      forall address: uint64 | first <= address < end
        ensures Answer(table, address) == Answer(functions, address)
      {
        var f := SameStart(functions, table, first, end, address);
        RunOf(functions, table, first, end, f, address);
        var start := f.range.start;
        assert Agrees(functions, table, start, end);
        RunStarts(functions, start);
        RunStarts(table, start);
        RecordsDecide(Run(functions, start), Run(table, start), start, NextStart(functions, start, end));
      }
    }
    if SameAnswers(functions, table, first, end) {
      forall f | f in table && first <= f.range.start < end
        ensures Agrees(functions, table, f.range.start, end)
      {
        var start := f.range.start;
        var limit := NextStart(functions, start, end);
        forall address: uint64 | start <= address < limit
          ensures FirstMatch(Run(functions, start), address) == FirstMatch(Run(table, start), address)
        {
          RunOf(functions, table, first, end, f, address);
        }
        RunStarts(functions, start);
        RunStarts(table, start);
        RecordsDecide(Run(functions, start), Run(table, start), start, limit);
      }
    }
  }

  // ------------------------------------------------------------- a whole table

  lemma {:induction false} Lowest(functions: seq<Function>) returns (f: Function)
    requires functions != []
    ensures f in functions && forall g :: g in functions ==> f.range.start <= g.range.start
  {
    f := functions[0];
    if |functions| > 1 {
      var rest := Lowest(functions[1..]);
      if rest.range.start < f.range.start {
        f := rest;
      }
      assert functions == [functions[0]] + functions[1..];
    }
  }

  /** A rearranged table answers every address there is as before exactly when the records
      of every run are the same in both orders. */
  lemma RearrangedIsExact(functions: seq<Function>, table: seq<Function>)
    requires forall f :: f in table <==> f in functions
    ensures SameAnswers(functions, table, 0, U64_LIMIT) <==> RunsAgree(functions, table, 0, U64_LIMIT)
  {
    hide Answer, Agrees;
    if functions == [] {
      forall address: uint64
        ensures Answer(table, address) == Answer(functions, address)
      {
        NothingBelow(functions, address);
        NothingBelow(table, address);
      }
    } else {
      var lowest := Lowest(functions);
      var first := lowest.range.start;
      SpanIsExact(functions, table, first, U64_LIMIT);
      forall address: uint64 | address < first
        ensures Answer(table, address) == Answer(functions, address)
      {
        NothingBelow(functions, address);
        NothingBelow(table, address);
      }
    }
  }

  lemma NothingBelow(functions: seq<Function>, address: uint64)
    requires forall f :: f in functions ==> f.range.start > address
    ensures Answer(functions, address) == None
  {
  }

  // ---------------------------------------------------------------------- segments

  /** The table of a segment: its window in the order it is written. */
  function SegmentTable(sorted: seq<Function>, files: seq<FileEntry>, cuts: seq<nat>, k: nat): seq<Function>
    requires Cuts(cuts, |sorted|) && k + 1 < |cuts|
  {
    AsWritten(sorted[cuts[k]..cuts[k + 1]], files)
  }

  function SpanStart(sorted: seq<Function>, cuts: seq<nat>, k: nat): uint64
    requires Cuts(cuts, |sorted|) && k + 1 < |cuts|
  {
    sorted[cuts[k]].range.start
  }

  function SpanEnd(sorted: seq<Function>, cuts: seq<nat>, k: nat): uint64
    requires Cuts(cuts, |sorted|) && k + 1 < |cuts|
  {
    SegmentEnd(sorted, cuts[k], cuts[k + 1])
  }

  lemma RangeFirstOrder()
    ensures TotalPreorder(RangeFirst)
  {
  }

  /** The functions in segment order: a rearrangement by start, then end. */
  lemma SortedFacts(functions: seq<Function>)
    ensures
      var sorted := Sort(RangeFirst, functions);
      && |sorted| == |functions| && (forall f :: f in sorted <==> f in functions)
      && forall i, j :: 0 <= i < j < |sorted| ==> RangeFirst(sorted[i], sorted[j])
  {
    hide RangeFirst, Sort;
    RangeFirstOrder();
    SortSorted(RangeFirst, functions);
    SortMembers(RangeFirst, functions);
  }

  lemma TableMembers(sorted: seq<Function>, files: seq<FileEntry>, cuts: seq<nat>, k: nat)
    requires Cuts(cuts, |sorted|) && k + 1 < |cuts|
    ensures forall i :: cuts[k] <= i < cuts[k + 1] ==> sorted[i] in SegmentTable(sorted, files, cuts, k)
    ensures forall f :: f in SegmentTable(sorted, files, cuts, k) ==> f in sorted
  {
    hide WrittenLeq, Sort;
    var a, b := cuts[k], cuts[k + 1];
    SortMembers(WrittenLeq(files), sorted[a..b]);
    forall i | a <= i < b
      ensures sorted[i] in sorted[a..b]
    {
      assert sorted[a..b][i - a] == sorted[i];
    }
  }

  /** A function that starts in the span is in the window, or starts with it. */
  lemma InWindow(sorted: seq<Function>, cuts: seq<nat>, k: nat, i: nat)
    requires Cuts(cuts, |sorted|) && k + 1 < |cuts| && i < |sorted|
    requires forall p, q :: 0 <= p < q < |sorted| ==> RangeFirst(sorted[p], sorted[q])
    requires SpanStart(sorted, cuts, k) <= sorted[i].range.start < SpanEnd(sorted, cuts, k)
    ensures cuts[k] <= i < cuts[k + 1] || sorted[i].range.start == SpanStart(sorted, cuts, k)
  {
    hide MaxEnd;
  }

  lemma SegmentRepresents(functions: seq<Function>, files: seq<FileEntry>, cuts: seq<nat>, k: nat)
    requires Cuts(cuts, |functions|) && k + 1 < |cuts|
    ensures
      var sorted := Sort(RangeFirst, functions);
      Represents(functions, SegmentTable(sorted, files, cuts, k), SpanStart(sorted, cuts, k), SpanEnd(sorted, cuts, k))
  {
    hide Sort, RangeFirst, SegmentTable, SegmentEnd;
    var sorted := Sort(RangeFirst, functions);
    SortedFacts(functions);
    TableMembers(sorted, files, cuts, k);
    var table := SegmentTable(sorted, files, cuts, k);
    var first, end := SpanStart(sorted, cuts, k), SpanEnd(sorted, cuts, k);
    assert sorted[cuts[k]] in table;
    forall f | f in functions && first <= f.range.start < end
      ensures exists g :: g in table && g.range.start == f.range.start
    {
      assert f in sorted;
      var i :| 0 <= i < |sorted| && sorted[i] == f;
      InWindow(sorted, cuts, k, i);
      assert sorted[if cuts[k] <= i < cuts[k + 1] then i else cuts[k]] in table;
    }
  }

  /** A segment answers every address in its span as the unsplit table does exactly when
      every run it answers for has the same records in the order of the unsplit table as
      in the segment.  Both sides can be read off the functions and the cuts. */
  lemma RoutingIsExact(functions: seq<Function>, files: seq<FileEntry>, cuts: seq<nat>, k: nat)
    requires Cuts(cuts, |functions|) && k + 1 < |cuts|
    ensures
      var sorted := Sort(RangeFirst, functions);
      var table := SegmentTable(sorted, files, cuts, k);
      SameAnswers(functions, table, SpanStart(sorted, cuts, k), SpanEnd(sorted, cuts, k))
      <==> RunsAgree(functions, table, SpanStart(sorted, cuts, k), SpanEnd(sorted, cuts, k))
  {
    hide Represents, SameAnswers, RunsAgree, Sort, SegmentTable, SpanStart, SpanEnd;
    var sorted := Sort(RangeFirst, functions);
    SegmentRepresents(functions, files, cuts, k);
    SpanIsExact(functions, SegmentTable(sorted, files, cuts, k), SpanStart(sorted, cuts, k), SpanEnd(sorted, cuts, k));
  }

  // --------------------------------------------------------- when the records agree

  predicate DistinctStarts(functions: seq<Function>) {
    forall i, j :: 0 <= i < j < |functions| ==> functions[i].range.start != functions[j].range.start
  }

  lemma {:induction false} RunCount(functions: seq<Function>, start: uint64, f: Function)
    ensures multiset(Run(functions, start))[f] == if f.range.start == start then multiset(functions)[f] else 0
  {
    if functions != [] {
      RunCount(functions[1..], start, f);
      assert functions == [functions[0]] + functions[1..];
    }
  }

  lemma {:induction false} SingleRun(functions: seq<Function>, i: nat)
    requires DistinctStarts(functions) && i < |functions|
    ensures Run(functions, functions[i].range.start) == [functions[i]]
  {
    if i == 0 {
      NoRun(functions[1..], functions[0].range.start);
    } else {
      assert functions[0].range.start != functions[i].range.start;
      SingleRun(functions[1..], i - 1);
    }
  }

  lemma {:induction false} NoRun(functions: seq<Function>, start: uint64)
    requires forall f :: f in functions ==> f.range.start != start
    ensures Run(functions, start) == []
  {
    if functions != [] {
      assert functions[0] in functions;
      NoRun(functions[1..], start);
    }
  }

  /** A run of one function is a run of one function wherever part of it goes. */
  lemma RunInPart(functions: seq<Function>, table: seq<Function>, i: nat)
    requires DistinctStarts(functions) && i < |functions| && functions[i] in table && multiset(table) <= multiset(functions)
    ensures Run(table, functions[i].range.start) == [functions[i]]
  {
    hide Run, DistinctStarts;
    var f, start := functions[i], functions[i].range.start;
    SingleRun(functions, i);
    var run := Run(table, start);
    forall g
      ensures multiset(run)[g] == if g == f then 1 else 0
    {
      RunCount(table, start, g);
      RunCount(functions, start, g);
      assert multiset([f])[g] == if g == f then 1 else 0;
      assert multiset(table)[f] >= 1;
    }
    assert multiset(run) == multiset{f};
    assert |run| == |multiset(run)| == 1;
    assert run[0] in multiset(run);
  }

  lemma WindowIsPart(functions: seq<Function>, files: seq<FileEntry>, cuts: seq<nat>, k: nat)
    requires Cuts(cuts, |functions|) && k + 1 < |cuts|
    ensures multiset(SegmentTable(Sort(RangeFirst, functions), files, cuts, k)) <= multiset(functions)
  {
    hide Sort, RangeFirst, WrittenLeq;
    var sorted := Sort(RangeFirst, functions);
    SortMultiset(RangeFirst, functions);
    SortMultiset(WrittenLeq(files), sorted[cuts[k]..cuts[k + 1]]);
    PartOf(sorted, cuts[k], cuts[k + 1]);
  }

  lemma PartOf(functions: seq<Function>, a: nat, b: nat)
    requires a <= b <= |functions|
    ensures multiset(functions[a..b]) <= multiset(functions)
  {
    assert functions == functions[..a] + functions[a..b] + functions[b..];
  }

  /** With distinct starts routing is exact, wherever the cuts fall. */
  lemma DistinctStartsRoute(functions: seq<Function>, files: seq<FileEntry>, cuts: seq<nat>, k: nat)
    requires DistinctStarts(functions) && Cuts(cuts, |functions|) && k + 1 < |cuts|
    ensures
      var sorted := Sort(RangeFirst, functions);
      SameAnswers(functions, SegmentTable(sorted, files, cuts, k), SpanStart(sorted, cuts, k), SpanEnd(sorted, cuts, k))
  {
    hide Sort, SegmentTable, SpanStart, SpanEnd, SameAnswers, DistinctStarts, Run, Records, NextStart;
    var sorted := Sort(RangeFirst, functions);
    var table := SegmentTable(sorted, files, cuts, k);
    RoutingIsExact(functions, files, cuts, k);
    SegmentRepresents(functions, files, cuts, k);
    WindowIsPart(functions, files, cuts, k);
    forall f | f in table && SpanStart(sorted, cuts, k) <= f.range.start < SpanEnd(sorted, cuts, k)
      ensures Agrees(functions, table, f.range.start, SpanEnd(sorted, cuts, k))
    {
      var i :| 0 <= i < |functions| && functions[i] == f;
      SingleRun(functions, i);
      RunInPart(functions, table, i);
    }
  }

  /** A run that lies in one window is there as a whole; only its order may change. */
  lemma WholeRunIsRearranged(functions: seq<Function>, files: seq<FileEntry>, cuts: seq<nat>, k: nat, start: uint64)
    requires Cuts(cuts, |functions|) && k + 1 < |cuts|
    requires
      var sorted := Sort(RangeFirst, functions);
      forall i :: 0 <= i < |sorted| && sorted[i].range.start == start ==> cuts[k] <= i < cuts[k + 1]
    ensures multiset(Run(SegmentTable(Sort(RangeFirst, functions), files, cuts, k), start)) == multiset(Run(functions, start))
  {
    hide Sort, RangeFirst, WrittenLeq, Run;
    var sorted := Sort(RangeFirst, functions);
    var a, b := cuts[k], cuts[k + 1];
    var table := SegmentTable(sorted, files, cuts, k);
    SortMultiset(RangeFirst, functions);
    SortMultiset(WrittenLeq(files), sorted[a..b]);
    assert sorted == sorted[..a] + sorted[a..b] + sorted[b..];
    forall f
      ensures multiset(Run(table, start))[f] == multiset(Run(functions, start))[f]
    {
      RunCount(table, start, f);
      RunCount(functions, start, f);
      if f.range.start == start {
        assert f !in sorted[..a] && f !in sorted[b..];
      }
    }
  }

  // ---------------------------------------------------------------- counterexamples

  lemma SortedPair(leq: (Function, Function) -> bool, f: Function, g: Function)
    requires leq(f, g)
    ensures Sort(leq, [f, g]) == [f, g] && (!leq(g, f) ==> Sort(leq, [g, f]) == [f, g])
    ensures Sort(leq, [f]) == [f] && Sort(leq, [g]) == [g]
  {
    assert [f, g][1..] == [g] && [g, f][1..] == [f] && [g][1..] == [] && [f][1..] == [];
    assert Sort(leq, [g]) == Insert(leq, g, []) && Sort(leq, [f]) == Insert(leq, f, []);
    assert Insert(leq, f, [g]) == [f] + [g];
    if !leq(g, f) {
      assert Insert(leq, g, [f]) == [f] + Insert(leq, g, []);
    }
  }

  const SHORT := Function(AddressRange(10, 20), [1], [], None, [], [])
  const LONG := Function(AddressRange(10, 30), [2], [], None, [], [])

  lemma WrittenByEnd()
    ensures forall files :: WrittenLeq(files)(SHORT, LONG)
    ensures RangeFirst(SHORT, LONG) && !RangeFirst(LONG, SHORT)
  {
    assert LexLeq([10, 20], [10, 30]) by {
      assert [10, 20][1..] == [20] && [10, 30][1..] == [30];
    }
  }

  lemma PairAnswers(f: Function, g: Function, address: uint64)
    requires f.range.start == g.range.start == 10 && address == 15 && Matches(f, 15)
    ensures Answer([f, g], 15) == Some(f) && Answer([f], 15) == Some(f)
  {
    assert [f, g][1..] == [g] && [g][1..] == [] && [f][1..] == [];
    assert Run([g], 10) == [g] + Run([], 10);
    assert Run([f, g], 10) == [f] + Run([g], 10);
    assert Run([f], 10) == [f] + Run([], 10);
    var greatest := GreatestStart([f, g], 15);
    assert f in [f, g] && f in [f];
  }

  /** The tables of the segments, with and without a cut between the two. */
  lemma PairTables(files: seq<FileEntry>)
    ensures SegmentTable([SHORT, LONG], files, [0, 1, 2], 0) == [SHORT] && SegmentTable([SHORT, LONG], files, [0, 1, 2], 1) == [LONG]
    ensures SegmentTable([SHORT, LONG], files, [0, 2], 0) == [SHORT, LONG]
  {
    hide Sort, WrittenLeq;
    WrittenByEnd();
    SortedPair(WrittenLeq(files), SHORT, LONG);
    assert [SHORT, LONG][0..1] == [SHORT] && [SHORT, LONG][1..2] == [LONG] && [SHORT, LONG][0..2] == [SHORT, LONG];
  }

  /** Either way the pair is sorted by its end, and 15 lies in a span. */
  lemma PairSpans()
    ensures Sort(RangeFirst, [SHORT, LONG]) == [SHORT, LONG] == Sort(RangeFirst, [LONG, SHORT])
    ensures Cuts([0, 1, 2], 2) && SpanStart([SHORT, LONG], [0, 1, 2], 1) <= 15 < SpanEnd([SHORT, LONG], [0, 1, 2], 1)
    ensures Cuts([0, 2], 2) && SpanStart([SHORT, LONG], [0, 2], 0) <= 15 < SpanEnd([SHORT, LONG], [0, 2], 0)
  {
    hide Sort, WrittenLeq, MaxEnd;
    WrittenByEnd();
    SortedPair(RangeFirst, SHORT, LONG);
    assert [SHORT, LONG][1..2] == [LONG] && [SHORT, LONG][0..2] == [SHORT, LONG];
    MaxEndBounds([LONG], 0);
    MaxEndBounds([SHORT, LONG], 1);
  }

  /** A cut through a run misroutes: two functions that start together, cut apart. */
  lemma CutRunMisroutes()
    ensures Sort(RangeFirst, [SHORT, LONG]) == [SHORT, LONG] && Cuts([0, 1, 2], 2)
    ensures SpanStart([SHORT, LONG], [0, 1, 2], 1) <= 15 < SpanEnd([SHORT, LONG], [0, 1, 2], 1)
    ensures Answer([SHORT, LONG], 15) == Some(SHORT)
    ensures forall files :: Answer(SegmentTable([SHORT, LONG], files, [0, 1, 2], 1), 15) == Some(LONG)
  {
    hide Sort, SegmentTable, SpanStart, SpanEnd, Answer;
    PairSpans();
    PairAnswers(SHORT, LONG, 15);
    PairAnswers(LONG, LONG, 15);
    forall files
      ensures Answer(SegmentTable([SHORT, LONG], files, [0, 1, 2], 1), 15) == Some(LONG)
    {
      PairTables(files);
    }
  }

  /** So does sorting alone: the unsplit table lists the longer function first, the one
      segment the shorter. */
  lemma ResortedRunMisroutes()
    ensures Sort(RangeFirst, [LONG, SHORT]) == [SHORT, LONG] && Cuts([0, 2], 2)
    ensures SpanStart([SHORT, LONG], [0, 2], 0) <= 15 < SpanEnd([SHORT, LONG], [0, 2], 0)
    ensures Answer([LONG, SHORT], 15) == Some(LONG)
    ensures forall files :: Answer(SegmentTable([SHORT, LONG], files, [0, 2], 0), 15) == Some(SHORT)
  {
    hide Sort, SegmentTable, SpanStart, SpanEnd, Answer;
    PairSpans();
    PairAnswers(LONG, SHORT, 15);
    PairAnswers(SHORT, LONG, 15);
    forall files
      ensures Answer(SegmentTable([SHORT, LONG], files, [0, 2], 0), 15) == Some(SHORT)
    {
      PairTables(files);
    }
  }

  /** A cut through a run need not misroute: with the longer function first in the unsplit
      table, the segment that answers for the run has what is needed. */
  lemma CutRunHarmless()
    ensures Sort(RangeFirst, [LONG, SHORT]) == [SHORT, LONG] && Cuts([0, 1, 2], 2)
    ensures forall files, k: nat :: k < 2 ==>
      SameAnswers([LONG, SHORT], SegmentTable([SHORT, LONG], files, [0, 1, 2], k),
                  SpanStart([SHORT, LONG], [0, 1, 2], k), SpanEnd([SHORT, LONG], [0, 1, 2], k))
  {
    hide Sort, SegmentTable, Answer, WrittenLeq;
    PairSpans();
    assert [SHORT, LONG][1..2] == [LONG];
    assert MaxEnd([LONG]) == 30 by {
      assert [LONG][1..] == [] && MaxEnd([]) == 0;
    }
    forall files, k: nat, address: uint64 | k < 2
      && SpanStart([SHORT, LONG], [0, 1, 2], k) <= address < SpanEnd([SHORT, LONG], [0, 1, 2], k)
      ensures Answer(SegmentTable([SHORT, LONG], files, [0, 1, 2], k), address) == Answer([LONG, SHORT], address)
    {
      PairTables(files);
      assert k == 1;
      LongAnswers(address);
    }
  }

  lemma LongAnswers(address: uint64)
    requires 10 <= address < 30
    ensures Answer([LONG, SHORT], address) == Some(LONG) && Answer([LONG], address) == Some(LONG)
  {
    assert [LONG, SHORT][1..] == [SHORT] && [SHORT][1..] == [] && [LONG][1..] == [];
    assert Run([SHORT], 10) == [SHORT] + Run([], 10);
    assert Run([LONG, SHORT], 10) == [LONG] + Run([SHORT], 10);
    assert Run([LONG], 10) == [LONG] + Run([], 10);
    assert LONG in [LONG, SHORT] && LONG in [LONG];
    var greatest := GreatestStart([LONG, SHORT], address);
  }

  // ---------------------------------------------------------------------- coverage

  predicate InSomeSpan(sorted: seq<Function>, cuts: seq<nat>, address: uint64)
    requires Cuts(cuts, |sorted|)
  {
    exists k :: 0 <= k < |cuts| - 1 && SpanStart(sorted, cuts, k) <= address < SpanEnd(sorted, cuts, k)
  }

  predicate ByRange(sorted: seq<Function>) {
    forall i, j :: 0 <= i < j < |sorted| ==> RangeFirst(sorted[i], sorted[j])
  }

  function LastEnd(sorted: seq<Function>, cuts: seq<nat>): uint64
    requires Cuts(cuts, |sorted|)
  {
    SpanEnd(sorted, cuts, |cuts| - 2)
  }

  lemma StartsRise(sorted: seq<Function>, i: nat, j: nat)
    requires ByRange(sorted) && i <= j < |sorted|
    ensures sorted[i].range.start <= sorted[j].range.start
  {
  }

  /** Segment `k` ends where the next one starts, and the last one past every function of
      the last run that is not empty. */
  lemma SpanEnds(sorted: seq<Function>, cuts: seq<nat>, k: nat)
    requires ByRange(sorted) && Cuts(cuts, |sorted|) && k + 1 < |cuts|
    ensures k + 2 < |cuts| ==> SpanEnd(sorted, cuts, k) == SpanStart(sorted, cuts, k + 1)
    ensures SpanEnd(sorted, cuts, k) <= LastEnd(sorted, cuts)
  {
    hide ByRange;
    var last := |sorted| - 1;
    LastEndBounds(sorted, cuts);
    if k + 2 < |cuts| {
      assert cuts[k + 1] < |sorted|;
      StartsRise(sorted, cuts[k + 1], last);
    }
  }

  lemma LastEndBounds(sorted: seq<Function>, cuts: seq<nat>)
    requires Cuts(cuts, |sorted|)
    ensures
      var last := sorted[|sorted| - 1];
      if last.range.IsEmpty() then LastEnd(sorted, cuts) == U64_MAX else last.range.start < last.range.end <= LastEnd(sorted, cuts)
    ensures sorted[|sorted| - 1].range.start <= LastEnd(sorted, cuts)
  {
    var a := cuts[|cuts| - 2];
    assert cuts[|cuts| - 1] == |sorted| && a < |sorted|;
    MaxEndBounds(sorted[a..], |sorted| - 1 - a);
    assert sorted[a..|sorted|] == sorted[a..];
  }

  lemma {:induction false} SpansTile(sorted: seq<Function>, cuts: seq<nat>, k: nat, address: uint64) returns (at: nat)
    requires ByRange(sorted) && Cuts(cuts, |sorted|) && k + 1 < |cuts|
    requires SpanStart(sorted, cuts, k) <= address < LastEnd(sorted, cuts)
    ensures at + 1 < |cuts| && SpanStart(sorted, cuts, at) <= address < SpanEnd(sorted, cuts, at)
    decreases |cuts| - k
  {
    hide ByRange, SpanStart, SpanEnd;
    SpanEnds(sorted, cuts, k);
    if address < SpanEnd(sorted, cuts, k) {
      at := k;
    } else if k + 2 < |cuts| {
      at := SpansTile(sorted, cuts, k + 1, address);
    } else {
      at := k;
    }
  }

  /** The spans together hold exactly the addresses from the first start to the last end. */
  lemma SpansAre(sorted: seq<Function>, cuts: seq<nat>, address: uint64)
    requires ByRange(sorted) && Cuts(cuts, |sorted|)
    ensures InSomeSpan(sorted, cuts, address) <==> sorted[0].range.start <= address < LastEnd(sorted, cuts)
  {
    hide ByRange, SpanEnd;
    if InSomeSpan(sorted, cuts, address) {
      var k :| 0 <= k < |cuts| - 1 && SpanStart(sorted, cuts, k) <= address < SpanEnd(sorted, cuts, k);
      SpanEnds(sorted, cuts, k);
      StartsRise(sorted, 0, cuts[k]);
    }
    if sorted[0].range.start <= address < LastEnd(sorted, cuts) {
      var at := SpansTile(sorted, cuts, 0, address);
    }
  }

  /** Some function of the run with the greatest start is empty. */
  predicate LastRunHasEmpty(sorted: seq<Function>)
    requires sorted != []
  {
    exists f :: f in sorted && f.range.start == sorted[|sorted| - 1].range.start && f.range.IsEmpty()
  }

  /** Past the last end only an empty function of the last run still answers. */
  lemma AnsweredPastEnd(functions: seq<Function>, cuts: seq<nat>, address: uint64)
    requires Cuts(cuts, |functions|)
    ensures
      var sorted := Sort(RangeFirst, functions);
      LastEnd(sorted, cuts) <= address ==> (Answer(functions, address).Some? <==> LastRunHasEmpty(sorted))
  {
    hide Sort, RangeFirst, Run, FirstMatch, LastEnd, LastRunHasEmpty, Answer;
    var sorted := Sort(RangeFirst, functions);
    SortedFacts(functions);
    LastEndBounds(sorted, cuts);
    var last := sorted[|sorted| - 1];
    if LastEnd(sorted, cuts) <= address {
      assert last in sorted;
      LastIsGreatest(functions, sorted);
      GreatestIs(functions, address, last);
      LastRunAnswers(functions, sorted, address);
    }
  }

  lemma LastIsGreatest(functions: seq<Function>, sorted: seq<Function>)
    requires sorted != [] && (forall f :: f in sorted <==> f in functions)
    requires forall i, j :: 0 <= i < j < |sorted| ==> RangeFirst(sorted[i], sorted[j])
    ensures
      var last := sorted[|sorted| - 1];
      && last in functions
      && forall f :: f in functions ==> f.range.start < last.range.start || (f.range.start == last.range.start && f.range.end <= last.range.end)
  {
    hide RangeFirst;
    var last := sorted[|sorted| - 1];
    forall f | f in functions
      ensures f.range.start < last.range.start || (f.range.start == last.range.start && f.range.end <= last.range.end)
    {
      assert f in sorted;
      var i :| 0 <= i < |sorted| && sorted[i] == f;
      RangeFirstMeans(sorted, i);
    }
  }

  lemma LastRunAnswers(functions: seq<Function>, sorted: seq<Function>, address: uint64)
    requires sorted != [] && (forall f :: f in sorted <==> f in functions)
    requires
      var last := sorted[|sorted| - 1];
      && last.range.start <= address && (!last.range.IsEmpty() ==> last.range.end <= address)
      && forall f :: f in functions ==> f.range.start < last.range.start || (f.range.start == last.range.start && f.range.end <= last.range.end)
    ensures FirstMatch(Run(functions, sorted[|sorted| - 1].range.start), address).Some? <==> LastRunHasEmpty(sorted)
  {
    hide Run, FirstMatch;
    var last := sorted[|sorted| - 1];
    if LastRunHasEmpty(sorted) {
      var e :| e in sorted && e.range.start == last.range.start && e.range.IsEmpty();
      assert e in functions;
      var i :| 0 <= i < |functions| && functions[i] == e;
      MatchExists(functions, last.range.start, address, i);
    } else {
      assert last in sorted;
      NoneInRun(functions, last.range.start, address);
    }
  }

  lemma RangeFirstMeans(sorted: seq<Function>, i: nat)
    requires i < |sorted| && forall p, q :: 0 <= p < q < |sorted| ==> RangeFirst(sorted[p], sorted[q])
    ensures
      var f, last := sorted[i], sorted[|sorted| - 1];
      f.range.start < last.range.start || (f.range.start == last.range.start && f.range.end <= last.range.end)
  {
  }

  lemma {:induction false} MatchExists(functions: seq<Function>, start: uint64, address: uint64, i: nat)
    requires i < |functions| && functions[i].range.start == start && Matches(functions[i], address)
    ensures FirstMatch(Run(functions, start), address).Some?
  {
    hide Matches;
    if i > 0 {
      MatchExists(functions[1..], start, address, i - 1);
      if functions[0].range.start == start {
        assert ([functions[0]] + Run(functions[1..], start))[1..] == Run(functions[1..], start);
      }
    }
  }

  /** Every address the unsplit table resolves lies in some span exactly when no function
      of the last run is empty. */
  lemma CoverageIsExact(functions: seq<Function>, cuts: seq<nat>)
    requires Cuts(cuts, |functions|)
    ensures
      var sorted := Sort(RangeFirst, functions);
      (forall address: uint64 :: Answer(functions, address).Some? ==> InSomeSpan(sorted, cuts, address))
      <==> !LastRunHasEmpty(sorted)
  {
    hide Sort, RangeFirst, Answer, InSomeSpan, LastRunHasEmpty, LastEnd;
    var sorted := Sort(RangeFirst, functions);
    SortedFacts(functions);
    if LastRunHasEmpty(sorted) {
      var address := LastEnd(sorted, cuts);
      AnsweredPastEnd(functions, cuts, address);
      SpansAre(sorted, cuts, address);
    } else {
      forall address: uint64 | Answer(functions, address).Some?
        ensures InSomeSpan(sorted, cuts, address)
      {
        ResolvedIsCovered(functions, cuts, address);
      }
    }
  }

  /** A resolved address lies in some span, or past the last end. */
  lemma ResolvedIsCovered(functions: seq<Function>, cuts: seq<nat>, address: uint64)
    requires Cuts(cuts, |functions|) && Answer(functions, address).Some?
    ensures
      var sorted := Sort(RangeFirst, functions);
      InSomeSpan(sorted, cuts, address) || (LastRunHasEmpty(sorted) && LastEnd(sorted, cuts) <= address)
  {
    hide Sort, RangeFirst, Answer, InSomeSpan, LastRunHasEmpty, LastEnd;
    var sorted := Sort(RangeFirst, functions);
    SortedFacts(functions);
    SpansAre(sorted, cuts, address);
    AnsweredPastEnd(functions, cuts, address);
    if address < sorted[0].range.start {
      forall f | f in functions
        ensures f.range.start > address
      {
        assert f in sorted;
        var i :| 0 <= i < |sorted| && sorted[i] == f;
        StartsRise(sorted, 0, i);
      }
      NothingBelow(functions, address);
    }
  }

  /** An empty last function is covered up to the last address but one. */
  lemma EmptyLastIsCovered(functions: seq<Function>, cuts: seq<nat>, address: uint64)
    requires Cuts(cuts, |functions|) && Answer(functions, address).Some? && address < U64_MAX
    requires Sort(RangeFirst, functions)[|functions| - 1].range.IsEmpty()
    ensures InSomeSpan(Sort(RangeFirst, functions), cuts, address)
  {
    hide Sort, RangeFirst, Answer, InSomeSpan, LastRunHasEmpty, LastEnd;
    ResolvedIsCovered(functions, cuts, address);
    LastEndBounds(Sort(RangeFirst, functions), cuts);
  }

  const POINT := Function(AddressRange(10, 10), [3], [], None, [], [])

  /** The unsplit table resolves 25 to an empty function, and no span holds it. */
  lemma EmptyFunctionUncovered()
    ensures Sort(RangeFirst, [POINT, SHORT]) == [POINT, SHORT] && Cuts([0, 2], 2)
    ensures Answer([POINT, SHORT], 25) == Some(POINT) && !InSomeSpan([POINT, SHORT], [0, 2], 25)
  {
    SortedPair(RangeFirst, POINT, SHORT);
    assert [POINT, SHORT][0..2] == [POINT, SHORT] && [POINT, SHORT][1..] == [SHORT] && [SHORT][1..] == [];
    assert Run([SHORT], 10) == [SHORT] + Run([], 10);
    assert Run([POINT, SHORT], 10) == [POINT] + Run([SHORT], 10);
    assert POINT in [POINT, SHORT];
    var greatest := GreatestStart([POINT, SHORT], 25);
    assert MaxEnd([SHORT]) == 20 && MaxEnd([POINT, SHORT]) == 20;
  }
}
