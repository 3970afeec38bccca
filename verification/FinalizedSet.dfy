/** What finalization leaves of a function set, policy by policy, without the loops that
    fold it (src/writer/finalize.rs). */
module FinalizedSet {
  import opened Words
  import opened Wrappers
  import opened Model
  import opened Validation
  import opened Sorting
  import opened Ordering
  import opened FinalizeSort
  import opened Finalize

  // --------------------------------------------------------------------------- names

  /** `n` in decimal: digits only, none in front that counts nothing, and the value. */
  predicate IsDecimal(s: seq<uint8>, n: nat)
    decreases |s|
  {
    && s != [] && 0x30 <= s[|s| - 1] <= 0x39
    && if |s| == 1 then n == s[0] - 0x30
       else n >= 10 && n % 10 == s[|s| - 1] - 0x30 && IsDecimal(s[..|s| - 1], n / 10)
  }

  lemma {:induction false} DigitsAreDecimal(n: nat)
    ensures IsDecimal(Digits(n), n)
  {
    if n >= 10 {
      DigitsAreDecimal(n / 10);
      assert Digits(n)[..|Digits(n)| - 1] == Digits(n / 10);
    }
  }

  lemma {:induction false} OneDecimal(s: seq<uint8>, t: seq<uint8>, n: nat)
    requires IsDecimal(s, n) && IsDecimal(t, n)
    ensures s == t
    decreases n
  {
    if n >= 10 {
      OneDecimal(s[..|s| - 1], t[..|t| - 1], n / 10);
      assert s == s[..|s| - 1] + [s[|s| - 1]] && t == t[..|t| - 1] + [t[|t| - 1]];
    }
  }

  /** The name begins as an Itanium or Swift mangled name does: `_Z`, `$s` or `$S`. */
  predicate Mangled(name: seq<uint8>) {
    |name| >= 2 && ((name[0] == 0x5f && name[1] == 0x5a) || (name[0] == 0x24 && (name[1] == 0x73 || name[1] == 0x53)))
  }

  /** At `k` the name spells the other one with its length in front. */
  ghost predicate SpellsAt(name: seq<uint8>, other: seq<uint8>, k: nat) {
    exists digits, rest :: IsDecimal(digits, |other|) && k <= |name| && name[k..] == digits + other + rest
  }

  lemma {:induction false} ContainsAt(s: seq<uint8>, token: seq<uint8>)
    ensures Contains(s, token) <==> exists k: nat :: k <= |s| && token <= s[k..]
  {
    if Contains(s, token) {
      if token <= s {
        assert s[0..] == s;
      } else {
        ContainsAt(s[1..], token);
        var k: nat :| k <= |s[1..]| && token <= s[1..][k..];
        assert s[1..][k..] == s[k + 1..];
      }
    }
    if k: nat :| k <= |s| && token <= s[k..] {
      if k == 0 {
        assert s[0..] == s;
      } else {
        assert s[k..] == s[1..][k - 1..];
        ContainsAt(s[1..], token);
      }
    }
  }

  lemma SpelledToken(name: seq<uint8>, other: seq<uint8>, k: nat)
    ensures SpellsAt(name, other, k) <==> k <= |name| && Digits(|other|) + other <= name[k..]
  {
    hide Digits, IsDecimal;
    var token := Digits(|other|) + other;
    DigitsAreDecimal(|other|);
    if k <= |name| && token <= name[k..] {
      assert name[k..] == Digits(|other|) + other + name[k..][|token|..];
    }
    if SpellsAt(name, other, k) {
      var digits, rest :| IsDecimal(digits, |other|) && name[k..] == digits + other + rest;
      OneDecimal(digits, Digits(|other|), |other|);
    }
  }

  /** A plain alias lends its name to one with details when that has none, or is not
      mangled while the alias is and spells it. */
  ghost predicate Lends(alias: seq<uint8>, name: seq<uint8>) {
    if name == [] then alias != []
    else !Mangled(name) && Mangled(alias) && exists k: nat :: SpellsAt(alias, name, k)
  }

  lemma LendsIs(alias: seq<uint8>, name: seq<uint8>)
    ensures ShouldReplaceWithMangledName(alias, name) <==> Lends(alias, name)
  {
    hide Digits, SpellsAt;
    MangledIs(alias);
    MangledIs(name);
    var token := Digits(|name|) + name;
    ContainsAt(alias, token);
    forall k: nat
      ensures SpellsAt(alias, name, k) <==> k <= |alias| && token <= alias[k..]
    {
      SpelledToken(alias, name, k);
    }
  }

  lemma MangledIs(name: seq<uint8>)
    ensures IsSupportedMangled(name) <==> Mangled(name)
  {
  }

  // ------------------------------------------------------------------- deduplication

  /** Lines, an inline tree or call sites. */
  predicate Detailed(f: Function) {
    !(f.lines == [] && f.inline.None? && f.callSites == [])
  }

  /** Record `i` of the sorted list stays: the next one has another range and, if this one
      is empty, does not hold its start. */
  predicate Stays(functions: seq<Function>, i: nat)
    requires i < |functions|
  {
    i + 1 < |functions| ==>
      && functions[i + 1].range != functions[i].range
      && !(functions[i].range.IsEmpty() && functions[i + 1].range.Contains(functions[i].range.start))
  }

  /** Record `i` as it stays: the first one of its range with details may take the name of
      the plain alias before it. */
  ghost function Kept(functions: seq<Function>, i: nat): Function
    requires i < |functions|
  {
    var f := functions[i];
    if i > 0 && functions[i - 1].range == f.range && Detailed(f) && !Detailed(functions[i - 1]) && Lends(functions[i - 1].name, f.name)
    then f.(name := functions[i - 1].name)
    else f
  }

  /** The records that stay, in order. */
  ghost function KeptFrom(functions: seq<Function>, i: nat): seq<Function>
    requires i <= |functions|
    decreases |functions| - i
  {
    if i == |functions| then []
    else (if Stays(functions, i) then [Kept(functions, i)] else []) + KeptFrom(functions, i + 1)
  }

  lemma KeptStep(functions: seq<Function>, i: nat)
    requires i + 1 < |functions| && FunctionLeq(functions[i], functions[i + 1])
    requires functions[i].range.IsValid() && functions[i + 1].range.IsValid()
    ensures Absorb(Kept(functions, i), functions[i + 1]) == if Stays(functions, i) then None else Some(Kept(functions, i + 1))
  {
    hide FunctionLeq, ShouldReplaceWithMangledName, Lends;
    var f, g := functions[i], functions[i + 1];
    LendsIs(f.name, g.name);
    SortedRange(f, g);
    if f.range == g.range && HasRichInfo(f) {
      SortedRichness(f, g);
    }
  }

  lemma {:induction false} KeptAfter(functions: seq<Function>, i: nat)
    requires Ordered(functions) && i < |functions|
    ensures DedupAfter(Kept(functions, i), functions[i + 1..]) == KeptFrom(functions, i)
    decreases |functions| - i
  {
    hide Absorb, FunctionLeq, Kept, Stays;
    if i + 1 < |functions| {
      assert functions[i] in functions && functions[i + 1] in functions;
      KeptStep(functions, i);
      KeptAfter(functions, i + 1);
      assert functions[i + 1..][0] == functions[i + 1] && functions[i + 1..][1..] == functions[i + 2..];
      if Stays(functions, i) {
        FirstKept(functions, i);
      }
    } else {
      LastStays(functions, i);
      assert functions[i + 1..] == [];
    }
  }

  /** A record after which another range begins takes no name from before. */
  lemma FirstKept(functions: seq<Function>, i: nat)
    requires i + 1 < |functions| && Stays(functions, i)
    ensures Kept(functions, i + 1) == functions[i + 1]
  {
    hide Lends;
  }

  lemma LastStays(functions: seq<Function>, i: nat)
    requires i + 1 == |functions|
    ensures KeptFrom(functions, i) == [Kept(functions, i)]
  {
    assert KeptFrom(functions, i + 1) == [];
  }

  lemma DedupIs(functions: seq<Function>)
    requires Ordered(functions)
    ensures Dedup(functions) == KeptFrom(functions, 0)
  {
    hide Ordered, Stays;
    if functions != [] {
      assert Kept(functions, 0) == functions[0];
      KeptAfter(functions, 0);
    }
  }

  // ------------------------------------------------------------------------- merging

  /** Where the run of equal ranges from `i` on ends. */
  function RunEnd(functions: seq<Function>, i: nat): (end: nat)
    requires i < |functions|
    ensures i < end <= |functions|
    ensures forall k :: i <= k < end ==> functions[k].range == functions[i].range
    ensures end < |functions| ==> functions[end].range != functions[i].range
    decreases |functions| - i
  {
    if i + 1 < |functions| && functions[i + 1].range == functions[i].range then RunEnd(functions, i + 1) else i + 1
  }

  /** The functions that differ from the one before them. */
  function Differing(last: Function, run: seq<Function>): seq<Function>
    decreases |run|
  {
    if run == [] then []
    else (if run[0] != last then [run[0]] else []) + Differing(run[0], run[1..])
  }

  /** The first function of each run, with the others of the run merged into it. */
  function Grouped(functions: seq<Function>, i: nat): seq<Function>
    requires i <= |functions|
    decreases |functions| - i
  {
    if i == |functions| then []
    else
      var f, end := functions[i], RunEnd(functions, i);
      var last := if f.merged == [] then f else f.merged[|f.merged| - 1];
      [f.(merged := f.merged + Differing(last, functions[i + 1..end]))] + Grouped(functions, end)
  }

  /** Folding a run into a parent. */
  lemma {:induction false} RunMerges(parent: Function, functions: seq<Function>, i: nat, end: nat)
    requires i <= end <= |functions|
    requires forall k :: i <= k < end ==> functions[k].range == parent.range
    requires end < |functions| ==> functions[end].range != parent.range
    ensures MergeAfter(parent, functions[i..])
         == [parent.(merged := parent.merged + Differing(LastMerged(parent), functions[i..end]))] + Merge(functions[end..])
    decreases end - i
  {
    hide MergeInto, LastMerged, Differing;
    if i == end {
      assert functions[i..end] == [];
      NothingMerges(parent);
      assert end < |functions| ==> functions[end..][0] == functions[end];
    } else {
      var f := functions[i];
      assert functions[i..][0] == f && functions[i..][1..] == functions[i + 1..];
      assert functions[i..end] == [f] + functions[i + 1..end];
      OneMerges(parent, f, functions[i + 1..end]);
      RunMerges(MergeInto(parent, f), functions, i + 1, end);
    }
  }

  lemma NothingMerges(parent: Function)
    ensures parent.(merged := parent.merged + Differing(LastMerged(parent), [])) == parent
  {
    assert parent.merged + [] == parent.merged;
  }

  lemma OneMerges(parent: Function, f: Function, rest: seq<Function>)
    ensures
      var next := MergeInto(parent, f);
      && next.range == parent.range
      && next.(merged := next.merged + Differing(LastMerged(next), rest))
         == parent.(merged := parent.merged + Differing(LastMerged(parent), [f] + rest))
  {
    hide Differing, LastMerged;
    MergedLast(parent, f);
    DifferingCons(LastMerged(parent), f, rest);
    AppendMiddle(parent.merged, f, Differing(f, rest));
  }

  lemma MergedLast(parent: Function, f: Function)
    ensures LastMerged(MergeInto(parent, f)) == f
  {
  }

  lemma DifferingCons(last: Function, f: Function, rest: seq<Function>)
    ensures Differing(last, [f] + rest) == if f != last then [f] + Differing(f, rest) else Differing(f, rest)
  {
    assert ([f] + rest)[1..] == rest;
    assert [] + Differing(f, rest) == Differing(f, rest);
  }

  lemma AppendMiddle<T>(s: seq<T>, x: T, t: seq<T>)
    ensures s + ([x] + t) == s + [x] + t
  {
  }

  lemma {:induction false} MergeIs(functions: seq<Function>, i: nat)
    requires i <= |functions|
    ensures Merge(functions[i..]) == Grouped(functions, i)
    decreases |functions| - i
  {
    if i < |functions| {
      var end := RunEnd(functions, i);
      assert functions[i..][0] == functions[i] && functions[i..][1..] == functions[i + 1..];
      RunMerges(functions[i], functions, i + 1, end);
      MergeIs(functions, end);
    }
  }

  // ----------------------------------------------------------------------- compaction

  /** Row `i` says where it is anew: it is the first, or the one before it is elsewhere. */
  predicate Changes(rows: seq<LineEntry>, i: nat)
    requires i < |rows|
  {
    i == 0 || rows[i - 1].file != rows[i].file || rows[i - 1].line != rows[i].line
  }

  /** The rows from `i` on that do. */
  function ChangesFrom(rows: seq<LineEntry>, i: nat): seq<LineEntry>
    requires i <= |rows|
    decreases |rows| - i
  {
    if i == |rows| then [] else (if Changes(rows, i) then [rows[i]] else []) + ChangesFrom(rows, i + 1)
  }

  lemma {:induction false} ChangesAfter(last: LineEntry, rows: seq<LineEntry>, i: nat)
    requires 0 < i <= |rows| && SameLocation(rows[i - 1], last)
    ensures CompactAfter(last, rows[i..]) == ChangesFrom(rows, i)
    decreases |rows| - i
  {
    if i < |rows| {
      assert rows[i..][0] == rows[i] && rows[i..][1..] == rows[i + 1..];
      ChangesAfter(if SameLocation(rows[i], last) then last else rows[i], rows, i + 1);
    }
  }

  /** Compacting keeps exactly the rows whose location is not that of the row before. */
  lemma CompactIs(rows: seq<LineEntry>)
    ensures CompactRows(rows) == ChangesFrom(rows, 0)
  {
    if rows != [] {
      ChangesAfter(rows[0], rows, 1);
    }
  }

  /** The same function with its rows compacted, merged functions included. */
  predicate Compacted(f: Function, g: Function)
    decreases f
  {
    && g.range == f.range && g.name == f.name && g.inline == f.inline && g.callSites == f.callSites
    && g.lines == ChangesFrom(f.lines, 0)
    && |g.merged| == |f.merged| && forall i :: 0 <= i < |f.merged| ==> Compacted(f.merged[i], g.merged[i])
  }

  lemma {:induction false} CompactMeans(f: Function)
    ensures Compacted(f, Compact(f))
    decreases f, 1
  {
    hide CompactRows, ChangesFrom;
    CompactIs(f.lines);
    CompactListMeans(f.merged);
  }

  lemma {:induction false} CompactListMeans(functions: seq<Function>)
    ensures |CompactList(functions)| == |functions|
    ensures forall i :: 0 <= i < |functions| ==> Compacted(functions[i], CompactList(functions)[i])
    decreases functions, 0
  {
    hide CompactRows, ChangesFrom, Compacted, Compact;
    if functions != [] {
      CompactMeans(functions[0]);
      CompactListMeans(functions[1..]);
    }
  }

  // -------------------------------------------------------------------------- policies

  /** What a policy makes of the sorted functions. */
  ghost predicate PolicyOutcome(policy: FunctionSetPolicy, sorted: seq<Function>, r: seq<Function>) {
    match policy
    case Deduplicated =>
      && r == KeptFrom(sorted, 0) && Separated(r)
      && (forall g :: g in r ==> Survivor(sorted, g))
      && (forall f :: f in sorted ==> Represented(r, f.range))
      && (forall address :: Covered(r, address) == Covered(sorted, address))
    case MergedEqualRanges =>
      && r == Grouped(sorted, 0)
      && (forall f :: f in sorted ==> Holds(r, f))
      && (forall i, j :: 0 <= i < j < |r| ==> RangeLess(r[i].range, r[j].range))
    case Preserved => r == sorted
  }

  lemma PolicyIs(functions: seq<Function>, policy: FunctionSetPolicy)
    requires Ordered(functions)
    ensures PolicyOutcome(policy, functions, ApplyPolicy(functions, policy))
  {
    hide Ordered, Separated, Survivor, Represented, Covered, Holds, RangeLess, Grouped, KeptFrom, Dedup, Merge;
    match policy
    case Deduplicated =>
      DedupIs(functions);
      DedupKeepsRichest(functions);
    case MergedEqualRanges =>
      assert functions[0..] == functions;
      MergeIs(functions, 0);
      MergeLosesNothing(functions);
    case Preserved =>
  }

  // ------------------------------------------------------------------------- the repair

  /** The same function over another range, merged functions included. */
  predicate Moved(f: Function, g: Function, range: AddressRange)
    decreases f
  {
    && g.range == range && f.name == g.name && f.lines == g.lines && f.inline == g.inline && f.callSites == g.callSites
    && |f.merged| == |g.merged| && forall i :: 0 <= i < |f.merged| ==> Moved(f.merged[i], g.merged[i], range)
  }

  lemma {:induction false} WithRangeMoves(f: Function, range: AddressRange)
    ensures Moved(f, WithRange(f, range), range)
    decreases f, 1
  {
    WithRangeListMoves(f.merged, range);
  }

  lemma {:induction false} WithRangeListMoves(functions: seq<Function>, range: AddressRange)
    ensures |WithRangeList(functions, range)| == |functions|
    ensures forall i :: 0 <= i < |functions| ==> Moved(functions[i], WithRangeList(functions, range)[i], range)
    decreases functions, 0
  {
    hide Moved;
    if functions != [] {
      WithRangeMoves(functions[0], range);
      WithRangeListMoves(functions[1..], range);
    }
  }

  /** Of a sound empty function the records fit a range with room exactly when the function
      over that range is sound. */
  lemma {:induction false} FitsIsSound(f: Function, parent: Option<AddressRange>, repaired: AddressRange)
    requires Sound(f, parent) && f.range.IsEmpty() && repaired.IsValid() && !repaired.IsEmpty() && repaired.start == f.range.start
    ensures RepairKeepsRecords(f, repaired) <==> Sound(WithRange(f, repaired), if parent.Some? then Some(repaired) else None)
    decreases f, 1
  {
    NothingInsideEmpty(f);
    FitListIsSound(f.merged, f.range, repaired);
  }

  lemma NothingInsideEmpty(f: Function)
    requires f.range.IsValid() && f.range.IsEmpty()
    ensures f.inline.Some? ==> !SoundInline(f.inline.value, [f.range])
  {
    if f.inline.Some? && f.inline.value.ranges != [] {
      var range := f.inline.value.ranges[0];
      assert range in f.inline.value.ranges;
    }
  }

  lemma {:induction false} FitListIsSound(functions: seq<Function>, range: AddressRange, repaired: AddressRange)
    requires forall f :: f in functions ==> Sound(f, Some(range))
    requires range.IsEmpty() && repaired.IsValid() && !repaired.IsEmpty() && repaired.start == range.start
    ensures (forall f :: f in functions ==> RepairKeepsRecords(f, repaired))
       <==> (forall f :: f in WithRangeList(functions, repaired) ==> Sound(f, Some(repaired)))
    decreases functions, 0
  {
    hide Sound, RepairKeepsRecords, WithRange;
    if functions != [] {
      assert functions[0] in functions && functions == [functions[0]] + functions[1..];
      HasRange(functions[0], range);
      FitsIsSound(functions[0], Some(range), repaired);
      FitListIsSound(functions[1..], range, repaired);
      var moved := WithRangeList(functions, repaired);
      assert moved == [WithRange(functions[0], repaired)] + WithRangeList(functions[1..], repaired);
    }
  }

  lemma HasRange(f: Function, range: AddressRange)
    requires Sound(f, Some(range))
    ensures f.range == range
  {
    hide SoundInline;
  }

  lemma {:induction false} SameRange(f: Function, parent: Option<AddressRange>)
    requires Sound(f, parent)
    ensures WithRange(f, f.range) == f
    decreases f, 1
  {
    hide SoundInline, LinesInside, SitesInside;
    SameRanges(f.merged, f.range);
  }

  lemma {:induction false} SameRanges(functions: seq<Function>, range: AddressRange)
    requires forall f :: f in functions ==> Sound(f, Some(range))
    ensures WithRangeList(functions, range) == functions
    decreases functions, 0
  {
    hide Sound, WithRange;
    if functions != [] {
      assert functions[0] in functions;
      HasRange(functions[0], range);
      SameRange(functions[0], Some(range));
      SameRanges(functions[1..], range);
    }
  }

  /** What the repair makes of the last function: when that is empty and lies in executable
      code, it reaches to the end of the code if that leaves it sound. */
  ghost predicate RepairOutcome(before: seq<Function>, repair: bool, executable: seq<AddressRange>, after: seq<Function>) {
    if !repair || before == [] || !before[|before| - 1].range.IsEmpty() then after == before
    else
      var last := before[|before| - 1];
      var range := RepairedRange(executable, last.range.start);
      var moved := WithRange(last, range);
      && Moved(last, moved, range)
      && after == if !range.IsEmpty() && Sound(moved, None) then before[|before| - 1 := moved] else before
  }

  lemma RepairIs(before: seq<Function>, repair: bool, executable: seq<AddressRange>)
    requires forall f :: f in before ==> Sound(f, None)
    ensures RepairOutcome(before, repair, executable, RepairLast(before, repair, executable))
  {
    hide Sound, WithRange, RepairKeepsRecords, Moved, ExecutableEnd;
    if repair && before != [] && before[|before| - 1].range.IsEmpty() {
      var last := before[|before| - 1];
      assert last in before;
      var range := RepairedRange(executable, last.range.start);
      WithRangeMoves(last, range);
      if range.IsEmpty() {
        SoundValid(last);
        assert range == last.range;
        SameRange(last, None);
      } else {
        FitsIsSound(last, None, range);
      }
    }
  }

  lemma SoundValid(f: Function)
    requires Sound(f, None)
    ensures f.range.IsValid()
  {
    hide SoundInline;
  }

  // --------------------------------------------------------------------- all together

  /** What is left of a function set. */
  ghost predicate FinalOutcome(
    functions: seq<Function>, policy: FunctionSetPolicy, repair: bool, executable: seq<AddressRange>, r: seq<Function>)
  {
    exists sorted, before ::
      && SortedSet(functions, sorted)
      && PolicyOutcome(policy, sorted, before)
      && RepairOutcome(before, repair, executable, r)
  }

  predicate AllCompacted(functions: seq<Function>, compacted: seq<Function>) {
    |compacted| == |functions| && forall i :: 0 <= i < |functions| ==> Compacted(functions[i], compacted[i])
  }

  /** The compacted functions in the order of the sort key, ties as they were. */
  ghost predicate SortedSet(functions: seq<Function>, sorted: seq<Function>) {
    exists compacted :: AllCompacted(functions, compacted) && sorted == Sort(FunctionLeq, compacted) && SortedBy(FunctionLeq, sorted)
  }

  lemma SortedSetIs(functions: seq<Function>)
    ensures SortedSet(functions, Sort(FunctionLeq, CompactList(functions)))
  {
    hide FunctionLeq, CompactList, Sort, Compacted, SortedBy, TotalPreorder;
    CompactListMeans(functions);
    FunctionOrder();
    SortSorted(FunctionLeq, CompactList(functions));
    assert AllCompacted(functions, CompactList(functions));
  }

  lemma FinalizedIs(functions: seq<Function>, policy: FunctionSetPolicy, repair: bool, executable: seq<AddressRange>)
    requires forall f :: f in functions ==> Sound(f, None)
    ensures FinalOutcome(functions, policy, repair, executable, Finalized(functions, policy, repair, executable))
  {
    hide Sound, FunctionLeq, CompactList, Sort, Ordered, PolicyOutcome, RepairOutcome, ApplyPolicy, RepairLast, FilesAtMost, SortedStarts,
      SortedSet;
    SortedSetIs(functions);
    forall f | f in functions
      ensures Encodable(f, U32_LIMIT)
    {
      FilesBelow(f, U32_LIMIT);
    }
    CompactEncodable(functions, U32_LIMIT);
    var compacted := CompactList(functions);
    SortedOrdered(compacted, U32_LIMIT);
    var sorted := Sort(FunctionLeq, compacted);
    PolicyIs(sorted, policy);
    PolicyKeeps(sorted, policy, U32_LIMIT);
    RepairIs(ApplyPolicy(sorted, policy), repair, executable);
  }

  /** `finalize`: compact, sort in place, apply the policy, repair the last range. */
  method FinalizeFunctions(
    functions: seq<Function>, policy: FunctionSetPolicy, repair: bool, executable: seq<AddressRange>)
    returns (r: seq<Function>)
    ensures r == Finalized(functions, policy, repair, executable)
    ensures (forall f :: f in functions ==> Sound(f, None)) ==> FinalOutcome(functions, policy, repair, executable, r)
  {
    hide FunctionLeq, CompactList, Dedup, Merge, FinalOutcome, Sound, RepairLast;
    var compacted := CompactList(functions);
    var table := new Function[|compacted|](i requires 0 <= i < |compacted| => compacted[i]);
    assert table[..] == compacted;
    SortByOrderingKey(table);
    var kept;
    match policy {
      case Deduplicated => kept := Deduplicate(table[..]);
      case MergedEqualRanges => kept := MergeEqualRanges(table[..]);
      case Preserved => kept := table[..];
    }
    if forall f :: f in functions ==> Sound(f, None) {
      FinalizedIs(functions, policy, repair, executable);
    }
    return RepairLast(kept, repair, executable);
  }
}
