/** The choice of the special-opcode line-delta window in src/format/line.rs:
    the window with the most deltas in it, among those of width at most 14. */
module DeltaRange {
  import opened Words
  import opened Wrappers
  import opened Model
  import opened Sorting

  const MAXIMUM_LINE_RANGE: int := 14
  const U32_MAX: nat := 0xffff_ffff

  datatype Window = Window(minimum: int64, maximum: int64) {
    predicate Holds(delta: int) {
      minimum <= delta <= maximum
    }
  }

  // ---------------------------------------------------------- what is counted

  /** The differences of consecutive line numbers. */
  function Deltas(lines: seq<LineEntry>): (deltas: seq<int64>)
    ensures |deltas| == if lines == [] then 0 else |lines| - 1
    ensures forall i :: 0 <= i < |deltas| ==> deltas[i] == (lines[i + 1].line as int) - lines[i].line
    ensures forall i :: 0 <= i < |deltas| ==> -0x1_0000_0000 < deltas[i] < 0x1_0000_0000
  {
    if |lines| < 2 then []
    else
      var first: int := (lines[1].line as int) - lines[0].line;
      [first] + Deltas(lines[1..])
  }

  function CountIn(deltas: seq<int64>, low: int, high: int): (n: nat)
    ensures n <= |deltas|
  {
    if deltas == [] then 0
    else (if low <= deltas[0] <= high then 1 else 0) + CountIn(deltas[1..], low, high)
  }

  /** `choose_delta_range` counts in a 32-bit word that saturates. */
  function Score(deltas: seq<int64>, low: int): nat {
    Min(CountIn(deltas, low, low + MAXIMUM_LINE_RANGE), U32_MAX)
  }

  /** `v` is a delta whose window scores highest, and the least such delta. */
  ghost predicate IsBest(deltas: seq<int64>, v: int64) {
    && v in deltas
    && forall w :: w in deltas ==> Score(deltas, w) < Score(deltas, v) || (Score(deltas, w) == Score(deltas, v) && v <= w)
  }

  function Better(deltas: seq<int64>, v: int64, w: int64): int64 {
    if Score(deltas, v) > Score(deltas, w) || (Score(deltas, v) == Score(deltas, w) && v < w) then v else w
  }

  /** The least best start among `candidates`. */
  function BestStart(deltas: seq<int64>, candidates: seq<int64>): (v: int64)
    requires candidates != []
    ensures v in candidates
    ensures forall w :: w in candidates ==>
              Score(deltas, w) < Score(deltas, v) || (Score(deltas, w) == Score(deltas, v) && v <= w)
  {
    if |candidates| == 1 then candidates[0]
    else Better(deltas, candidates[0], BestStart(deltas, candidates[1..]))
  }

  /** The greatest delta in the window that begins at `start`. */
  function Top(deltas: seq<int64>, start: int64): (v: int64)
    ensures v == start || v in deltas
    ensures start <= v <= start + MAXIMUM_LINE_RANGE
    ensures forall w :: w in deltas && w <= start + MAXIMUM_LINE_RANGE ==> w <= v
  {
    if deltas == [] then start
    else
      var rest := Top(deltas[1..], start);
      assert deltas == [deltas[0]] + deltas[1..];
      if rest < deltas[0] <= start + MAXIMUM_LINE_RANGE then deltas[0] else rest
  }

  /** A single positive delta below the maximum width shares its window with
      the rows that keep their line. */
  function WidenToZero(w: Window): Window {
    if w.minimum == w.maximum && 0 < w.minimum < MAXIMUM_LINE_RANGE then w.(minimum := 0) else w
  }

  ghost function ChosenWindow(lines: seq<LineEntry>): (w: Window) {
    if |lines| < 2 then Window(0, 0)
    else
      var deltas := Deltas(lines);
      var low := BestStart(deltas, deltas);
      WidenToZero(Window(low, Top(deltas, low)))
  }

  // ------------------------------------------------------------- the main result

  lemma {:induction false} CountInWider(deltas: seq<int64>, low: int, high: int, low': int, high': int)
    requires forall d :: d in deltas && low <= d <= high ==> low' <= d <= high'
    ensures CountIn(deltas, low, high) <= CountIn(deltas, low', high')
  {
    if deltas != [] {
      assert deltas[0] in deltas;
      assert forall d :: d in deltas[1..] ==> d in deltas;
      CountInWider(deltas[1..], low, high, low', high');
    }
  }

  lemma {:induction false} CountInSome(deltas: seq<int64>, low: int, high: int) returns (v: int64)
    requires CountIn(deltas, low, high) > 0
    ensures v in deltas && low <= v <= high
    ensures forall d :: d in deltas && low <= d <= high ==> v <= d
  {
    assert deltas == [deltas[0]] + deltas[1..];
    if low <= deltas[0] <= high {
      v := deltas[0];
      if CountIn(deltas[1..], low, high) > 0 {
        var w := CountInSome(deltas[1..], low, high);
        if w < v {
          v := w;
        }
      } else {
        CountInNone(deltas[1..], low, high);
      }
    } else {
      v := CountInSome(deltas[1..], low, high);
    }
  }

  lemma {:induction false} CountInNone(deltas: seq<int64>, low: int, high: int)
    requires CountIn(deltas, low, high) == 0
    ensures forall d :: d in deltas ==> !(low <= d <= high)
  {
    if deltas != [] {
      CountInNone(deltas[1..], low, high);
      assert deltas == [deltas[0]] + deltas[1..];
    }
  }

  /** The chosen window is at most 14 wide, and no window that wide holds more
      of the deltas, as far as a saturating 32-bit count can tell. */
  lemma ChosenWindowIsOptimal(lines: seq<LineEntry>, low: int, high: int)
    requires high - low <= MAXIMUM_LINE_RANGE
    ensures
      var w := ChosenWindow(lines);
      && 0 <= w.maximum - w.minimum <= MAXIMUM_LINE_RANGE
      && Min(CountIn(Deltas(lines), low, high), U32_MAX)
           <= Min(CountIn(Deltas(lines), w.minimum, w.maximum), U32_MAX)
  {
    var deltas := Deltas(lines);
    if |lines| >= 2 {
      var start := BestStart(deltas, deltas);
      var top := Top(deltas, start);
      var w := ChosenWindow(lines);
      CountInWider(deltas, start, start + MAXIMUM_LINE_RANGE, w.minimum, w.maximum);
      if CountIn(deltas, low, high) > 0 {
        var v := CountInSome(deltas, low, high);
        CountInWider(deltas, low, high, v, v + MAXIMUM_LINE_RANGE);
        assert Score(deltas, v) <= Score(deltas, start);
      }
    }
  }

  /** `low` starts a best window: none of the deltas has more from itself up to 14 above,
      as a 32-bit count tells, and none below has as many. */
  ghost predicate StartsBest(deltas: seq<int64>, low: int64) {
    && low in deltas
    && forall d :: d in deltas ==>
         var there, here := CountIn(deltas, d, d + 14), CountIn(deltas, low, low + 14);
         Min(there, 0xffff_ffff) < Min(here, 0xffff_ffff) || (Min(there, 0xffff_ffff) == Min(here, 0xffff_ffff) && low <= d)
  }

  /** The window reaches from the best start to the last delta in it; a single delta above
      zero but within reach of it takes in zero as well. */
  lemma ChosenWindowIs(lines: seq<LineEntry>) returns (low: int64, top: int64)
    requires |lines| >= 2
    ensures StartsBest(Deltas(lines), low)
    ensures top in Deltas(lines) && low <= top <= low + 14
    ensures forall d :: d in Deltas(lines) && low <= d <= low + 14 ==> d <= top
    ensures ChosenWindow(lines) == Window(if low == top && 1 <= low <= 13 then 0 else low, top)
  {
    hide CountIn, Deltas;
    low := BestStart(Deltas(lines), Deltas(lines));
    top := Top(Deltas(lines), low);
  }

  /** Widening takes in no further delta: one below would have started a better window. */
  lemma ChosenCount(lines: seq<LineEntry>)
    requires |lines| >= 2
    ensures
      var deltas := Deltas(lines);
      var start := BestStart(deltas, deltas);
      CountIn(deltas, ChosenWindow(lines).minimum, ChosenWindow(lines).maximum) == CountIn(deltas, start, start + MAXIMUM_LINE_RANGE)
  {
    hide CountIn, BestStart, Score, Top, ChosenWindow, Deltas;
    var deltas := Deltas(lines);
    var start := BestStart(deltas, deltas);
    var w := ChosenWindow(lines);
    WindowShape(lines);
    if w.minimum < start {
      forall d | d in deltas && w.minimum <= d <= w.maximum
        ensures d == start
      {
        if d < start {
          EarlierStartScores(deltas, d, start);
        }
      }
    }
    CountInWider(deltas, start, start + MAXIMUM_LINE_RANGE, w.minimum, w.maximum);
    CountInWider(deltas, w.minimum, w.maximum, start, start + MAXIMUM_LINE_RANGE);
  }

  lemma WindowShape(lines: seq<LineEntry>)
    requires |lines| >= 2
    ensures
      var start := BestStart(Deltas(lines), Deltas(lines));
      var top := Top(Deltas(lines), start);
      var w := ChosenWindow(lines);
      && w.maximum == top
      && (w.minimum == start || (w.minimum == 0 && top == start && 0 < start < MAXIMUM_LINE_RANGE))
  {
    hide CountIn, BestStart, Top, Deltas;
  }

  /** A delta below that reaches every delta of the window scores no less. */
  lemma EarlierStartScores(deltas: seq<int64>, d: int64, start: int64)
    requires Top(deltas, start) == start && d <= start <= d + MAXIMUM_LINE_RANGE
    ensures Score(deltas, start) <= Score(deltas, d)
  {
    CountInWider(deltas, start, start + MAXIMUM_LINE_RANGE, d, d + MAXIMUM_LINE_RANGE);
  }

  /** No window as wide holds more of the deltas than the chosen one. */
  ghost predicate OptimalOutright(lines: seq<LineEntry>) {
    var w := ChosenWindow(lines);
    forall low: int, high: int :: high - low <= MAXIMUM_LINE_RANGE ==>
      CountIn(Deltas(lines), low, high) <= CountIn(Deltas(lines), w.minimum, w.maximum)
  }

  /** The least delta whose window fills the saturating count. */
  predicate FirstFull(deltas: seq<int64>, u: int64) {
    && u in deltas && CountIn(deltas, u, u + MAXIMUM_LINE_RANGE) >= U32_MAX
    && forall t :: t in deltas && t < u ==> CountIn(deltas, t, t + MAXIMUM_LINE_RANGE) < U32_MAX
  }

  /** The window is optimal outright exactly when the first window that fills the count,
      if there is one, is not surpassed by another. */
  lemma ChosenWindowIsExactlyOptimal(lines: seq<LineEntry>)
    ensures OptimalOutright(lines) <==>
      forall u: int64, v: int64 :: FirstFull(Deltas(lines), u) && v in Deltas(lines) ==>
        CountIn(Deltas(lines), v, v + MAXIMUM_LINE_RANGE) <= CountIn(Deltas(lines), u, u + MAXIMUM_LINE_RANGE)
  {
    hide CountIn, BestStart, Top, Deltas, ChosenWindow;
    var deltas := Deltas(lines);
    if |lines| < 2 {
      FewDeltas(lines);
    } else {
      ChosenCount(lines);
      var start := BestStart(deltas, deltas);
      FullStartIsFirst(lines);
      if forall v :: v in deltas ==> CountIn(deltas, v, v + MAXIMUM_LINE_RANGE) <= CountIn(deltas, start, start + MAXIMUM_LINE_RANGE) {
        BestStartIsOptimal(lines);
      }
    }
  }

  lemma FewDeltas(lines: seq<LineEntry>)
    requires |lines| < 2
    ensures Deltas(lines) == [] && forall low: int, high: int :: CountIn(Deltas(lines), low, high) == 0
  {
  }

  /** The chosen start is the first full one, or no window fills the count and the
      chosen one holds the most. */
  lemma FullStartIsFirst(lines: seq<LineEntry>)
    requires |lines| >= 2
    ensures
      var deltas := Deltas(lines);
      var start := BestStart(deltas, deltas);
      && start in deltas
      && (forall u :: FirstFull(deltas, u) ==> u == start)
      && (!FirstFull(deltas, start) ==> forall v :: v in deltas ==>
            CountIn(deltas, v, v + MAXIMUM_LINE_RANGE) <= CountIn(deltas, start, start + MAXIMUM_LINE_RANGE))
  {
    hide CountIn, BestStart, Deltas;
  }

  lemma BestStartIsOptimal(lines: seq<LineEntry>)
    requires |lines| >= 2
    requires
      var deltas := Deltas(lines);
      var start := BestStart(deltas, deltas);
      forall v :: v in deltas ==> CountIn(deltas, v, v + MAXIMUM_LINE_RANGE) <= CountIn(deltas, start, start + MAXIMUM_LINE_RANGE)
    ensures OptimalOutright(lines)
  {
    hide CountIn, BestStart, ChosenWindow, Deltas;
    var deltas := Deltas(lines);
    ChosenCount(lines);
    var start := BestStart(deltas, deltas);
    forall low: int, high: int | high - low <= MAXIMUM_LINE_RANGE
      ensures CountIn(deltas, low, high) <= CountIn(deltas, ChosenWindow(lines).minimum, ChosenWindow(lines).maximum)
    {
      NoWindowHasMore(deltas, low, high, CountIn(deltas, start, start + MAXIMUM_LINE_RANGE));
    }
  }

  lemma NoWindowHasMore(deltas: seq<int64>, low: int, high: int, most: nat)
    requires high - low <= MAXIMUM_LINE_RANGE
    requires forall v :: v in deltas ==> CountIn(deltas, v, v + MAXIMUM_LINE_RANGE) <= most
    ensures CountIn(deltas, low, high) <= most
  {
    hide CountIn;
    if CountIn(deltas, low, high) > 0 {
      var v := CountInSome(deltas, low, high);
      CountInWider(deltas, low, high, v, v + MAXIMUM_LINE_RANGE);
    }
  }

  /** With no more than 2^32 rows the count cannot mislead and the window is optimal
      outright. */
  lemma FewRowsAreOptimal(lines: seq<LineEntry>)
    requires |lines| <= U32_LIMIT
    ensures OptimalOutright(lines)
  {
    ChosenWindowIsExactlyOptimal(lines);
  }

  // ------------------------------------------------ the sorted two-pointer scan

  predicate Leq(x: int64, y: int64) {
    x <= y
  }

  lemma LeqTotal()
    ensures TotalPreorder(Leq)
  {
  }

  lemma {:induction false} CountInAppend(a: seq<int64>, b: seq<int64>, low: int, high: int)
    ensures CountIn(a + b, low, high) == CountIn(a, low, high) + CountIn(b, low, high)
  {
    if a == [] {
      assert a + b == b;
    } else {
      CountInAppend(a[1..], b, low, high);
      assert (a + b)[1..] == a[1..] + b;
    }
  }

  lemma {:induction false} CountInAll(deltas: seq<int64>, low: int, high: int)
    requires forall d :: d in deltas ==> low <= d <= high
    ensures CountIn(deltas, low, high) == |deltas|
  {
    if deltas != [] {
      assert deltas[0] in deltas;
      assert forall d :: d in deltas[1..] ==> d in deltas;
      CountInAll(deltas[1..], low, high);
    }
  }

  lemma {:induction false} CountInZero(deltas: seq<int64>, low: int, high: int)
    requires forall d :: d in deltas ==> !(low <= d <= high)
    ensures CountIn(deltas, low, high) == 0
  {
    if deltas != [] {
      assert deltas[0] in deltas;
      assert forall d :: d in deltas[1..] ==> d in deltas;
      CountInZero(deltas[1..], low, high);
    }
  }

  /** In a sorted list the deltas of a window stand next to each other. */
  lemma CountInSorted(s: seq<int64>, start: nat, end: nat, low: int, high: int)
    requires SortedBy(Leq, s) && start <= end <= |s|
    requires forall k :: 0 <= k < start ==> s[k] < low
    requires forall k :: start <= k < end ==> low <= s[k] <= high
    requires forall k :: end <= k < |s| ==> s[k] > high
    ensures CountIn(s, low, high) == end - start
  {
    assert s == s[..start] + (s[start..end] + s[end..]);
    CountInAppend(s[..start], s[start..end] + s[end..], low, high);
    CountInAppend(s[start..end], s[end..], low, high);
    CountInZero(s[..start], low, high);
    CountInAll(s[start..end], low, high);
    CountInZero(s[end..], low, high);
  }

  lemma {:induction false} CountInInsert(x: int64, s: seq<int64>, low: int, high: int)
    ensures CountIn(Insert(Leq, x, s), low, high) == CountIn([x] + s, low, high)
  {
    assert ([x] + s)[1..] == s;
    if s != [] && !Leq(x, s[0]) {
      CountInInsert(x, s[1..], low, high);
      assert ([x] + s[1..])[1..] == s[1..];
    }
  }

  lemma {:induction false} CountInSort(s: seq<int64>, low: int, high: int)
    ensures CountIn(Sort(Leq, s), low, high) == CountIn(s, low, high)
  {
    if s != [] {
      CountInSort(s[1..], low, high);
      CountInInsert(s[0], Sort(Leq, s[1..]), low, high);
      assert ([s[0]] + Sort(Leq, s[1..]))[1..] == Sort(Leq, s[1..]);
    }
  }

  /** Only the first of equal deltas can improve the best count. */
  lemma LaterDuplicateScores(s: seq<int64>, start: nat, end: nat)
    requires start < end <= |s|
    requires forall k :: start <= k < end ==> s[start] <= s[k] <= s[start] + MAXIMUM_LINE_RANGE
    ensures Min(end - start, U32_MAX) <= Score(s, s[start])
  {
    var low, high := s[start] as int, s[start] + MAXIMUM_LINE_RANGE;
    assert s == s[..start] + (s[start..end] + s[end..]);
    CountInAppend(s[..start], s[start..end] + s[end..], low, high);
    CountInAppend(s[start..end], s[end..], low, high);
    CountInAll(s[start..end], low, high);
  }

  lemma FirstOccurrenceScores(s: seq<int64>, start: nat, end: nat)
    requires SortedBy(Leq, s) && start < end <= |s|
    requires start == 0 || s[start - 1] < s[start]
    requires forall k :: start <= k < end ==> s[k] <= s[start] + MAXIMUM_LINE_RANGE
    requires end < |s| ==> s[end] > s[start] + MAXIMUM_LINE_RANGE
    ensures Score(s, s[start]) == Min(end - start, U32_MAX)
  {
    assert forall k :: 0 <= k < start ==> Leq(s[k], s[start - 1]);
    assert forall k :: start < k < |s| ==> Leq(s[start], s[k]);
    assert forall k :: end < k < |s| ==> Leq(s[end], s[k]);
    CountInSorted(s, start, end, s[start], s[start] + MAXIMUM_LINE_RANGE);
  }

  lemma LastInWindowIsTop(s: seq<int64>, start: nat, end: nat)
    requires SortedBy(Leq, s) && start < end <= |s|
    requires s[end - 1] <= s[start] + MAXIMUM_LINE_RANGE
    requires end < |s| ==> s[end] > s[start] + MAXIMUM_LINE_RANGE
    ensures s[end - 1] == Top(s, s[start])
  {
    var top := Top(s, s[start]);
    assert s[end - 1] in s;
    assert s[start] in s;
    assert forall k :: end < k < |s| ==> Leq(s[end], s[k]);
    assert forall k :: 0 <= k < end - 1 ==> Leq(s[k], s[end - 1]);
    var k :| 0 <= k < |s| && s[k] == top;
  }

  ghost predicate Beats(deltas: seq<int64>, v: int64, score: nat, w: int64) {
    Score(deltas, w) < score || (Score(deltas, w) == score && v <= w)
  }

  /** What the scan knows once it has tried the first `tried` starts. */
  ghost predicate BestSoFar(s: seq<int64>, tried: nat, best: nat, w: Window)
    requires tried <= |s|
  {
    && (tried == 0 ==> best == 0)
    && (tried > 0 ==> w.minimum in s[..tried] && Score(s, w.minimum) == best && w.maximum == Top(s, w.minimum))
    && forall k :: 0 <= k < tried ==> Beats(s, w.minimum, best, s[k])
  }

  lemma NewStartWins(s: seq<int64>, start: nat, best: nat, w: Window, count: nat, top: int64)
    requires start < |s| && BestSoFar(s, start, best, w)
    requires count > best && Score(s, s[start]) == count && top == Top(s, s[start])
    ensures BestSoFar(s, start + 1, count, Window(s[start], top))
  {
    assert s[..start + 1] == s[..start] + [s[start]];
    forall k | 0 <= k < start + 1
      ensures Beats(s, s[start], count, s[k])
    {
      assert k < start ==> Beats(s, w.minimum, best, s[k]);
    }
  }

  lemma NewStartLoses(s: seq<int64>, start: nat, best: nat, w: Window)
    requires SortedBy(Leq, s) && start < |s| && BestSoFar(s, start, best, w)
    requires start > 0 && Score(s, s[start]) <= best
    ensures BestSoFar(s, start + 1, best, w)
  {
    assert s[..start + 1] == s[..start] + [s[start]];
    var k :| 0 <= k < start && s[k] == w.minimum;
    assert Leq(s[k], s[start]);
    assert Beats(s, w.minimum, best, s[start]);
  }

  /** Trying the next start, given where its window ends. */
  lemma BestSoFarNext(s: seq<int64>, start: nat, end: nat, best: nat, w: Window)
    requires SortedBy(Leq, s) && start < end <= |s|
    requires BestSoFar(s, start, best, w)
    requires forall k :: start <= k < end ==> s[k] <= s[start] + MAXIMUM_LINE_RANGE
    requires end < |s| ==> s[end] > s[start] + MAXIMUM_LINE_RANGE
    ensures
      var count := Min(end - start, U32_MAX);
      if count > best then BestSoFar(s, start + 1, count, Window(s[start], s[end - 1]))
      else BestSoFar(s, start + 1, best, w)
  {
    var count := Min(end - start, U32_MAX);
    if start == 0 || s[start - 1] < s[start] {
      FirstOccurrenceScores(s, start, end);
      if count > best {
        LastInWindowIsTop(s, start, end);
        NewStartWins(s, start, best, w, count, s[end - 1]);
      } else {
        NewStartLoses(s, start, best, w);
      }
    } else {
      assert Leq(s[start - 1], s[start]);
      DuplicateDoesNotWin(s, start, end, best, w);
      NewStartLoses(s, start, best, w);
    }
  }

  lemma DuplicateDoesNotWin(s: seq<int64>, start: nat, end: nat, best: nat, w: Window)
    requires SortedBy(Leq, s) && 0 < start < end <= |s| && s[start - 1] == s[start]
    requires BestSoFar(s, start, best, w)
    requires forall k :: start <= k < end ==> s[k] <= s[start] + MAXIMUM_LINE_RANGE
    ensures Score(s, s[start]) <= best
    ensures Min(end - start, U32_MAX) <= best
  {
    assert Beats(s, w.minimum, best, s[start - 1]);
    assert forall k :: start < k < |s| ==> Leq(s[start], s[k]);
    LaterDuplicateScores(s, start, end);
  }

  // ---------------------------------------------------------------- the methods

  method ScanSorted(s: seq<int64>) returns (w: Window)
    requires SortedBy(Leq, s) && s != []
    ensures IsBest(s, w.minimum) && w.maximum == Top(s, w.minimum)
  {
    hide BestSoFar, IsBest, Top, Score, CountIn, Beats;
    NothingTried(s);
    w := Window(0, 0);
    var bestCount: nat := 0;
    var end := 0;
    for start := 0 to |s|
      invariant start <= end <= |s|
      invariant start < |s| ==> forall k :: 0 <= k < end ==> s[k] <= s[start] + MAXIMUM_LINE_RANGE
      invariant BestSoFar(s, start, bestCount, w)
    {
      while end < |s| && s[end] - s[start] <= MAXIMUM_LINE_RANGE
        invariant start <= end <= |s|
        invariant forall k :: 0 <= k < end ==> s[k] <= s[start] + MAXIMUM_LINE_RANGE
      {
        end := end + 1;
      }
      var count := Min(end - start, U32_MAX);
      BestSoFarNext(s, start, end, bestCount, w);
      if count > bestCount {
        bestCount := count;
        w := Window(s[start], s[end - 1]);
      }
      if start + 1 < |s| {
        assert Leq(s[start], s[start + 1]);
      }
    }
    AllTried(s, bestCount, w);
  }

  lemma NothingTried(s: seq<int64>)
    ensures BestSoFar(s, 0, 0, Window(0, 0))
  {
  }

  lemma AllTried(s: seq<int64>, best: nat, w: Window)
    requires s != [] && BestSoFar(s, |s|, best, w)
    ensures IsBest(s, w.minimum) && w.maximum == Top(s, w.minimum)
  {
    assert s[..|s|] == s;
  }

  lemma BestIsChosen(deltas: seq<int64>, w: Window)
    requires deltas != []
    requires IsBest(Sort(Leq, deltas), w.minimum)
    requires w.maximum == Top(Sort(Leq, deltas), w.minimum)
    ensures w.minimum == BestStart(deltas, deltas)
    ensures w.maximum == Top(deltas, w.minimum)
  {
    var s := Sort(Leq, deltas);
    SortMembers(Leq, deltas);
    forall v
      ensures Score(s, v) == Score(deltas, v)
    {
      CountInSort(deltas, v, v + MAXIMUM_LINE_RANGE);
    }
  }

  /** When all deltas fit one window, the search would have found that window. */
  lemma NarrowSpreadIsChosen(deltas: seq<int64>, w: Window)
    requires w.minimum in deltas && w.maximum in deltas
    requires forall d :: d in deltas ==> w.minimum <= d <= w.maximum
    requires w.maximum - w.minimum <= MAXIMUM_LINE_RANGE
    ensures w.minimum == BestStart(deltas, deltas)
    ensures w.maximum == Top(deltas, w.minimum)
  {
    var low, high := w.minimum as int, w.minimum + MAXIMUM_LINE_RANGE;
    CountInAll(deltas, low, high);
    var best := BestStart(deltas, deltas);
    assert Score(deltas, low) <= Score(deltas, best);
  }

  method ChooseDeltaRange(lines: seq<LineEntry>) returns (w: Window)
    ensures w == ChosenWindow(lines)
  {
    if |lines| < 2 {
      return Window(0, 0);
    }
    var deltas := Deltas(lines);
    var minimum, maximum := deltas[0], deltas[0];
    var next := 1;
    while next < |deltas| && maximum - minimum <= MAXIMUM_LINE_RANGE
      invariant 1 <= next <= |deltas|
      invariant minimum in deltas && maximum in deltas
      invariant forall k :: 0 <= k < next ==> minimum <= deltas[k] <= maximum
    {
      minimum, maximum := Min(minimum, deltas[next]), Max(maximum, deltas[next]);
      next := next + 1;
    }
    w := Window(minimum, maximum);
    if maximum - minimum > MAXIMUM_LINE_RANGE {
      LeqTotal();
      SortSorted(Leq, deltas);
      w := ScanSorted(Sort(Leq, deltas));
      BestIsChosen(deltas, w);
    } else {
      NarrowSpreadIsChosen(deltas, w);
    }
    w := WidenToZero(w);
  }
}
