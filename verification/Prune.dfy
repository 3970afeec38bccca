/** Capacity pruning of gsym-cache/src/maintenance.rs: batches of the least recently
    used objects from a bounded heap, skipping the lock slots found busy. */
module Prune {
  import opened Words
  import opened Wrappers
  import opened Sorting
  import opened Ordering
  import opened Population
  import opened SlotSet

  // ----------------------------------------------------------------------- objects

  /** What one directory scan sees of an object. */
  datatype CacheObject = CacheObject(lastUsed: int, id: BuildIdBytes, length: uint64)

  function Slot(o: CacheObject): (slot: nat)
    ensures slot < SLOTS
  {
    LockSlot(o.id)
  }

  /** The order of `Candidate`: last use, build identifier, length. */
  predicate AgeLeq(a: CacheObject, b: CacheObject) {
    if a.lastUsed != b.lastUsed then a.lastUsed < b.lastUsed
    else if a.id != b.id then LexLeq(a.id, b.id)
    else a.length <= b.length
  }

  lemma AgeTotal(a: CacheObject, b: CacheObject)
    ensures AgeLeq(a, b) || AgeLeq(b, a)
  {
    hide LexLeq;
    LexTotal(a.id, b.id);
  }

  lemma AgeTransitive(a: CacheObject, b: CacheObject, c: CacheObject)
    requires AgeLeq(a, b) && AgeLeq(b, c)
    ensures AgeLeq(a, c)
  {
    hide LexLeq;
    ComponentTransitive(a.id, b.id, c.id);
    ComponentAntisymmetric(a.id, b.id);
  }

  lemma AgeAntisymmetric(a: CacheObject, b: CacheObject)
    requires AgeLeq(a, b) && AgeLeq(b, a)
    ensures a == b
  {
    hide LexLeq;
    ComponentAntisymmetric(a.id, b.id);
  }

  lemma AgeOrders()
    ensures TotalPreorder(AgeLeq)
    ensures forall s :: TieFree(AgeLeq, s)
  {
    hide AgeLeq;
    forall a, b
      ensures AgeLeq(a, b) || AgeLeq(b, a)
    {
      AgeTotal(a, b);
    }
    forall a, b, c | AgeLeq(a, b) && AgeLeq(b, c)
      ensures AgeLeq(a, c)
    {
      AgeTransitive(a, b, c);
    }
    forall a, b | AgeLeq(a, b) && AgeLeq(b, a)
      ensures a == b
    {
      AgeAntisymmetric(a, b);
    }
  }

  // ------------------------------------------------------------------------- scans

  /** The objects whose lock slot is not among `slots`. */
  function Outside(s: seq<CacheObject>, slots: set<nat>): (r: seq<CacheObject>)
    ensures |r| <= |s|
  {
    if s == [] then []
    else if Slot(s[0]) in slots then Outside(s[1..], slots)
    else [s[0]] + Outside(s[1..], slots)
  }

  lemma {:induction false} OutsideCount(s: seq<CacheObject>, slots: set<nat>, x: CacheObject)
    ensures multiset(Outside(s, slots))[x] == if Slot(x) in slots then 0 else multiset(s)[x]
  {
    hide Slot;
    if s != [] {
      OutsideCount(s[1..], slots, x);
      assert s == [s[0]] + s[1..];
    }
  }

  lemma {:induction false} OutsideMembers(s: seq<CacheObject>, slots: set<nat>, x: CacheObject)
    ensures x in Outside(s, slots) <==> x in s && Slot(x) !in slots
  {
    hide Slot, Outside;
    OutsideCount(s, slots, x);
    assert x in Outside(s, slots) <==> x in multiset(Outside(s, slots));
    assert x in s <==> x in multiset(s);
  }

  lemma {:induction false} OutsideSorted(s: seq<CacheObject>, slots: set<nat>)
    requires SortedBy(AgeLeq, s)
    ensures SortedBy(AgeLeq, Outside(s, slots))
  {
    hide Slot, AgeLeq;
    if s != [] {
      OutsideSorted(s[1..], slots);
      forall x | x in Outside(s[1..], slots)
        ensures AgeLeq(s[0], x)
      {
        OutsideMembers(s[1..], slots, x);
      }
    }
  }

  lemma Regroup<T>(x: T, a: seq<T>, b: seq<T>)
    ensures [x] + (a + b) == ([x] + a) + b
  {
  }

  lemma {:induction false} OutsideConcat(a: seq<CacheObject>, b: seq<CacheObject>, slots: set<nat>)
    ensures Outside(a + b, slots) == Outside(a, slots) + Outside(b, slots)
  {
    hide Slot;
    if a == [] {
      assert a + b == b;
    } else {
      OutsideConcat(a[1..], b, slots);
      assert (a + b)[1..] == a[1..] + b;
      assert (a + b)[0] == a[0];
      if Slot(a[0]) !in slots {
        Regroup(a[0], Outside(a[1..], slots), Outside(b, slots));
      }
    }
  }

  /** Two lists that agree outside the slots sort alike there. */
  lemma SortedOutside(a: seq<CacheObject>, b: seq<CacheObject>, slots: set<nat>)
    requires SortedBy(AgeLeq, b)
    requires forall x :: Slot(x) !in slots ==> multiset(a)[x] == multiset(b)[x]
    ensures Sort(AgeLeq, Outside(a, slots)) == Outside(b, slots)
  {
    hide Slot, AgeLeq, Outside, Sort;
    AgeOrders();
    OutsideSorted(b, slots);
    SortSorted(AgeLeq, Outside(a, slots));
    SortMultiset(AgeLeq, Outside(a, slots));
    forall x
      ensures multiset(Outside(a, slots))[x] == multiset(Outside(b, slots))[x]
    {
      OutsideCount(a, slots, x);
      OutsideCount(b, slots, x);
    }
    SortedUnique(AgeLeq, Sort(AgeLeq, Outside(a, slots)), Outside(b, slots));
  }

  // ------------------------------------------------------------- the bounded heap

  /** `retain_oldest`: the heap is kept as a sorted list. */
  function RetainOldest(heap: seq<CacheObject>, capacity: nat, o: CacheObject): (r: seq<CacheObject>)
    requires 0 < capacity && |heap| <= capacity
    ensures |r| <= capacity
  {
    if |heap| < capacity then Insert(AgeLeq, o, heap)
    else if AgeLeq(heap[|heap| - 1], o) then heap
    else Insert(AgeLeq, o, heap[..|heap| - 1])
  }

  function Oldest(s: seq<CacheObject>, capacity: nat): (r: seq<CacheObject>)
    ensures |r| == Min(|s|, capacity)
  {
    var sorted := Sort(AgeLeq, s);
    sorted[..Min(|s|, capacity)]
  }

  lemma {:induction false} InsertCut(s: seq<CacheObject>, o: CacheObject, n: nat)
    requires SortedBy(AgeLeq, s) && 0 < n <= |s|
    ensures Insert(AgeLeq, o, s)[..n] == if AgeLeq(s[n - 1], o) then s[..n] else Insert(AgeLeq, o, s[..n - 1])
  {
    hide AgeLeq;
    AgeOrders();
    if AgeLeq(o, s[0]) {
      InsertFront(s, o, n);
    } else {
      var rest := Insert(AgeLeq, o, s[1..]);
      assert Insert(AgeLeq, o, s)[..n] == [s[0]] + rest[..n - 1];
      if n == 1 {
        assert s[..1] == [s[0]];
      } else {
        InsertCut(s[1..], o, n - 1);
        assert s[..n] == [s[0]] + s[1..][..n - 1];
        assert s[..n - 1][1..] == s[1..][..n - 2];
      }
    }
  }

  lemma InsertFront(s: seq<CacheObject>, o: CacheObject, n: nat)
    requires SortedBy(AgeLeq, s) && 0 < n <= |s| && AgeLeq(o, s[0])
    ensures ([o] + s)[..n] == if AgeLeq(s[n - 1], o) then s[..n] else Insert(AgeLeq, o, s[..n - 1])
  {
    hide AgeLeq;
    AgeOrders();
    assert ([o] + s)[..n] == [o] + s[..n - 1];
    if AgeLeq(s[n - 1], o) {
      forall k | 0 <= k < n
        ensures s[k] == o
      {
        assert AgeLeq(s[0], s[k]) && AgeLeq(s[k], s[n - 1]);
        AgeAntisymmetric(s[k], o);
      }
    } else if n > 1 {
      assert s[..n - 1][0] == s[0];
    }
  }

  lemma SortNext(s: seq<CacheObject>, o: CacheObject)
    ensures Sort(AgeLeq, s + [o]) == Insert(AgeLeq, o, Sort(AgeLeq, s))
    ensures SortedBy(AgeLeq, Sort(AgeLeq, s))
  {
    hide AgeLeq, Sort, Insert, TotalPreorder, TieFree, SortedBy;
    AgeOrders();
    var sorted := Sort(AgeLeq, s);
    SortSorted(AgeLeq, s);
    SortMultiset(AgeLeq, s);
    SortSorted(AgeLeq, s + [o]);
    SortMultiset(AgeLeq, s + [o]);
    InsertSorted(AgeLeq, o, sorted);
    InsertMultiset(AgeLeq, o, sorted);
    SortedUnique(AgeLeq, Sort(AgeLeq, s + [o]), Insert(AgeLeq, o, sorted));
  }

  /** One step of the bounded heap keeps the oldest objects seen so far. */
  lemma RetainKeepsOldest(s: seq<CacheObject>, o: CacheObject, capacity: nat)
    requires 0 < capacity
    ensures RetainOldest(Oldest(s, capacity), capacity, o) == Oldest(s + [o], capacity)
  {
    hide AgeLeq, Sort, Insert, SortedBy;
    SortNext(s, o);
    var sorted := Sort(AgeLeq, s);
    if |s| < capacity {
      assert sorted[..|s|] == sorted;
      assert Insert(AgeLeq, o, sorted)[..|s| + 1] == Insert(AgeLeq, o, sorted);
    } else {
      InsertCut(sorted, o, capacity);
      assert sorted[..capacity][..capacity - 1] == sorted[..capacity - 1];
    }
  }

  /** One scan: the oldest objects outside the slots known to be busy. */
  method OldestCandidates(objects: seq<CacheObject>, busySlots: BusySlots, capacity: nat) returns (candidates: seq<CacheObject>)
    requires busySlots.Valid() && 0 < capacity
    ensures candidates == Oldest(Outside(objects, busySlots.slots), capacity)
  {
    hide Slot, Outside, Oldest, RetainOldest;
    candidates := [];
    OldestOfNothing(busySlots.slots, capacity);
    for i := 0 to |objects|
      invariant candidates == Oldest(Outside(objects[..i], busySlots.slots), capacity)
    {
      var known := busySlots.Contains(Slot(objects[i]));
      OutsideNext(objects, i, busySlots.slots);
      if !known {
        RetainKeepsOldest(Outside(objects[..i], busySlots.slots), objects[i], capacity);
        candidates := RetainOldest(candidates, capacity, objects[i]);
      }
    }
    assert objects[..|objects|] == objects;
  }

  lemma OldestOfNothing(slots: set<nat>, capacity: nat)
    ensures Oldest(Outside([], slots), capacity) == []
  {
  }

  lemma OutsideNext(objects: seq<CacheObject>, i: nat, slots: set<nat>)
    requires i < |objects|
    ensures Outside(objects[..i + 1], slots) ==
      if Slot(objects[i]) in slots then Outside(objects[..i], slots)
      else Outside(objects[..i], slots) + [objects[i]]
  {
    hide Slot;
    assert objects[..i + 1] == objects[..i] + [objects[i]];
    OutsideConcat(objects[..i], [objects[i]], slots);
  }

  // ------------------------------------------------------------------------ limits

  datatype CacheStats = CacheStats(entries: uint64, bytes: uint64)

  datatype PrunePolicy = PrunePolicy(bytes: uint64, entries: Option<uint64>)

  function SaturatingAdd(a: uint64, b: uint64): uint64 {
    Min(a + b, U64_MAX)
  }

  function SaturatingSub(a: uint64, b: uint64): uint64 {
    Max(a - b, 0)
  }

  /** `low_watermark`, dividing before it multiplies. */
  function LowWatermark(high: uint64): (low: uint64)
    ensures low == high * 4 / 5
  {
    high / 5 * 4 + high % 5 * 4 / 5
  }

  /** The low marks of the dimensions found above their limit. */
  datatype Goal = Goal(bytes: Option<uint64>, entries: Option<uint64>)

  function GoalOf(policy: PrunePolicy, before: CacheStats): Goal {
    Goal(
      if before.bytes > policy.bytes then Some(LowWatermark(policy.bytes)) else None,
      if policy.entries.Some? && before.entries > policy.entries.value
      then Some(LowWatermark(policy.entries.value)) else None)
  }

  predicate Over(goal: Goal, stats: CacheStats) {
    || (goal.bytes.Some? && stats.bytes > goal.bytes.value)
    || (goal.entries.Some? && stats.entries > goal.entries.value)
  }

  const MIN_BATCH: nat := 256
  const MAX_BATCH: nat := 65_536

  /** The share of the objects that would hold the excess bytes, rounded up. */
  function ByteEstimate(stats: CacheStats, goal: Goal): nat {
    if goal.bytes.None? || stats.bytes == 0 then 0
    else
      var scaled := SaturatingSub(stats.bytes, goal.bytes.value) * stats.entries;
      var estimate := scaled / stats.bytes + (if scaled % stats.bytes != 0 then 1 else 0);
      if estimate < U64_LIMIT then estimate else stats.entries
  }

  function EntryEstimate(stats: CacheStats, goal: Goal): nat {
    if goal.entries.None? then 0 else SaturatingSub(stats.entries, goal.entries.value)
  }

  /** `prune_batch_size`: the share of the objects expected to go, within bounds. */
  function BatchSize(stats: CacheStats, goal: Goal): (size: nat)
    ensures MIN_BATCH <= size <= MAX_BATCH
  {
    Min(Max(Max(ByteEstimate(stats, goal), EntryEstimate(stats, goal)), MIN_BATCH), MAX_BATCH)
  }

  function Bytes(s: seq<CacheObject>): nat {
    if s == [] then 0 else s[0].length + Bytes(s[1..])
  }

  function Measure(s: seq<CacheObject>): CacheStats {
    CacheStats(Min(|s|, U64_MAX), Min(Bytes(s), U64_MAX))
  }

  lemma {:induction false} BytesConcat(a: seq<CacheObject>, b: seq<CacheObject>)
    ensures Bytes(a + b) == Bytes(a) + Bytes(b)
  {
    if a == [] {
      assert a + b == b;
    } else {
      BytesConcat(a[1..], b);
      assert (a + b)[1..] == a[1..] + b;
    }
  }

  lemma BytesNext(s: seq<CacheObject>, i: nat)
    requires i < |s|
    ensures Bytes(s[..i + 1]) == Bytes(s[..i]) + s[i].length
  {
    assert s[..i + 1] == s[..i] + [s[i]];
    BytesConcat(s[..i], [s[i]]);
  }

  /** `object_totals`. */
  method ObjectTotals(objects: seq<CacheObject>) returns (stats: CacheStats)
    ensures stats == Measure(objects)
  {
    stats := CacheStats(0, 0);
    for i := 0 to |objects|
      invariant stats == Measure(objects[..i])
    {
      BytesNext(objects, i);
      stats := CacheStats(SaturatingAdd(stats.entries, 1), SaturatingAdd(stats.bytes, objects[i].length));
    }
    assert objects[..|objects|] == objects;
  }

  function Without(stats: CacheStats, length: uint64): CacheStats {
    CacheStats(SaturatingSub(stats.entries, 1), SaturatingSub(stats.bytes, length))
  }

  // ------------------------------------------------------------- the simple policy

  /** At least the share of the objects that holds the excess bytes if all were of one
      size, and at least the excess objects. */
  predicate Suffices(stats: CacheStats, goal: Goal, size: nat) {
    && (goal.bytes.Some? ==> size * stats.bytes >= SaturatingSub(stats.bytes, goal.bytes.value) * stats.entries)
    && (goal.entries.Some? ==> size >= SaturatingSub(stats.entries, goal.entries.value))
  }

  lemma CeilingIsLeast(total: nat, unit: nat, size: nat)
    requires unit > 0
    ensures size * unit >= total <==> size >= total / unit + (if total % unit != 0 then 1 else 0)
  {
    var quotient, remainder := total / unit, total % unit;
    assert total == quotient * unit + remainder;
    if size <= quotient {
      MultiplyMonotone(size, quotient, unit);
    } else {
      MultiplyMonotone(quotient + 1, size, unit);
    }
  }

  lemma MultiplyMonotone(a: nat, b: nat, unit: nat)
    requires a <= b
    ensures a * unit <= b * unit
  {
  }

  /** The byte estimate is never past the 64-bit word. */
  lemma ByteEstimateIs(stats: CacheStats, goal: Goal, size: nat)
    requires goal.bytes.Some?
    ensures size * stats.bytes >= SaturatingSub(stats.bytes, goal.bytes.value) * stats.entries <==> size >= ByteEstimate(stats, goal)
  {
    var excess := SaturatingSub(stats.bytes, goal.bytes.value);
    if stats.bytes > 0 {
      CeilingIsLeast(excess * stats.entries, stats.bytes, size);
      MultiplyMonotone(excess, stats.bytes, stats.entries);
      CeilingIsLeast(excess * stats.entries, stats.bytes, stats.entries);
    }
  }

  /** The batch is the least size within bounds that suffices, or the largest. */
  lemma BatchSizeIsLeast(stats: CacheStats, goal: Goal)
    ensures BatchSize(stats, goal) == MAX_BATCH || Suffices(stats, goal, BatchSize(stats, goal))
    ensures forall size: nat :: MIN_BATCH <= size < BatchSize(stats, goal) ==> !Suffices(stats, goal, size)
  {
    hide ByteEstimate;
    var batch := BatchSize(stats, goal);
    SufficesIs(stats, goal, batch);
    forall size: nat | MIN_BATCH <= size < batch
      ensures !Suffices(stats, goal, size)
    {
      SufficesIs(stats, goal, size);
    }
  }

  lemma SufficesIs(stats: CacheStats, goal: Goal, size: nat)
    ensures Suffices(stats, goal, size) <==> size >= Max(ByteEstimate(stats, goal), EntryEstimate(stats, goal))
  {
    hide SaturatingSub;
    if goal.bytes.Some? {
      hide ByteEstimate;
      ByteEstimateIs(stats, goal, size);
    }
  }

  /** What a run has done: totals left, objects removed, slots found busy. */
  datatype Pruned = Pruned(after: CacheStats, evicted: seq<CacheObject>, known: set<nat>)

  function Visit(o: CacheObject, busy: set<nat>, done: Pruned): Pruned {
    if Slot(o) in busy then done.(known := done.known + {Slot(o)})
    else done.(after := Without(done.after, o.length), evicted := done.evicted + [o])
  }

  /** Least recently used first, one object at a time, until the goal is met. */
  function Naive(rest: seq<CacheObject>, busy: set<nat>, goal: Goal, done: Pruned): Pruned {
    if rest == [] || !Over(goal, done.after) then done
    else Naive(rest[1..], busy, goal, Visit(rest[0], busy, done))
  }

  /** The whole policy on one cache. */
  function NaivePrune(objects: seq<CacheObject>, busy: set<nat>, policy: PrunePolicy): Pruned {
    var before := Measure(objects);
    Naive(Sort(AgeLeq, objects), busy, GoalOf(policy, before), Pruned(before, [], {}))
  }

  /** Objects in slots already found busy change nothing. */
  lemma {:induction false} NaiveIgnores(rest: seq<CacheObject>, busy: set<nat>, goal: Goal, done: Pruned, known: set<nat>)
    requires known <= done.known && known <= busy
    ensures Naive(Outside(rest, known), busy, goal, done) == Naive(rest, busy, goal, done)
  {
    hide Slot, Over, Without;
    if rest != [] && Over(goal, done.after) {
      if Slot(rest[0]) in known {
        assert Visit(rest[0], busy, done) == done;
        NaiveIgnores(rest[1..], busy, goal, done, known);
      } else {
        NaiveIgnores(rest[1..], busy, goal, Visit(rest[0], busy, done), known);
        assert Outside(rest, known)[0] == rest[0] && Outside(rest, known)[1..] == Outside(rest[1..], known);
      }
    }
  }

  // ------------------------------------------------------------------- the objects

  ghost predicate DistinctIds(s: seq<CacheObject>) {
    forall i, j :: 0 <= i < j < |s| ==> s[i].id != s[j].id
  }

  datatype Outcome = Removed | Busy | Changed

  /** The object tree; `busy` are the slots other processes hold throughout. */
  class ObjectStore {
    var objects: seq<CacheObject>
    const busy: set<nat>

    ghost predicate Valid()
      reads this
    {
      DistinctIds(objects)
    }

    constructor (objects: seq<CacheObject>, busy: set<nat>)
      requires DistinctIds(objects)
      ensures Valid() && this.objects == objects && this.busy == busy
    {
      this.objects := objects;
      this.busy := busy;
    }

    /** `try_remove_prune_candidate_with_id`: removes the object only under its lock
        and only if it is still the one that was scanned. */
    method TryRemove(candidate: CacheObject) returns (outcome: Outcome)
      requires Valid()
      modifies this`objects
      ensures Valid()
      ensures outcome == Busy <==> Slot(candidate) in busy
      ensures outcome == Changed <==> Slot(candidate) !in busy && candidate !in old(objects)
      ensures outcome != Removed ==> objects == old(objects)
      ensures outcome == Removed ==> multiset(objects) == multiset(old(objects)) - multiset{candidate}
    {
      hide Slot;
      if Slot(candidate) in busy {
        return Busy;
      }
      var at := Position(objects, candidate.id);
      if at == |objects| || objects[at].length != candidate.length || objects[at].lastUsed != candidate.lastUsed {
        return Changed;
      }
      assert objects[at] == candidate;
      RemoveAt(objects, at);
      RemoveAtDistinct(objects, at);
      objects := objects[..at] + objects[at + 1..];
      return Removed;
    }
  }

  method Position(objects: seq<CacheObject>, id: BuildIdBytes) returns (at: nat)
    ensures at <= |objects| && (at < |objects| ==> objects[at].id == id)
    ensures forall k :: 0 <= k < at ==> objects[k].id != id
    ensures at == |objects| || (forall o :: o in objects && o.id == id ==> o == objects[at]) || !DistinctIds(objects)
  {
    at := 0;
    while at < |objects| && objects[at].id != id
      invariant 0 <= at <= |objects|
      invariant forall k :: 0 <= k < at ==> objects[k].id != id
    {
      at := at + 1;
    }
  }

  lemma RemoveAt(objects: seq<CacheObject>, at: nat)
    requires at < |objects|
    ensures multiset(objects[..at] + objects[at + 1..]) == multiset(objects) - multiset{objects[at]}
  {
    assert objects == objects[..at] + [objects[at]] + objects[at + 1..];
  }

  lemma RemoveAtDistinct(objects: seq<CacheObject>, at: nat)
    requires at < |objects| && DistinctIds(objects)
    ensures DistinctIds(objects[..at] + objects[at + 1..])
  {
  }

  // ---------------------------------------------------------------------- progress

  class PruneProgress {
    const before: CacheStats
    var after: CacheStats
    var removed: uint64
    var skippedBusy: uint64
    const busySlots: BusySlots

    /** The abstract state, given what was evicted. */
    ghost predicate Tracks(done: Pruned)
      reads this, busySlots, busySlots.words
    {
      && busySlots.Valid()
      && after == done.after
      && busySlots.slots == done.known
      && removed == Min(|done.evicted|, U64_MAX)
      && skippedBusy == |done.known|
    }

    constructor (stats: CacheStats)
      ensures fresh(busySlots) && fresh(busySlots.words)
      ensures before == stats && Tracks(Pruned(stats, [], {}))
    {
      before := stats;
      after := stats;
      removed := 0;
      skippedBusy := 0;
      busySlots := new BusySlots();
    }

    method RecordRemoved(length: uint64, ghost done: Pruned, ghost o: CacheObject)
      requires Tracks(done) && o.length == length
      modifies this`after, this`removed
      ensures Tracks(done.(after := Without(done.after, length), evicted := done.evicted + [o]))
    {
      after := Without(after, length);
      removed := SaturatingAdd(removed, 1);
    }

    /** Whether the slot was not known to be busy. */
    method RecordBusy(slot: nat, ghost done: Pruned) returns (inserted: bool)
      requires Tracks(done) && slot < SLOTS
      modifies this`skippedBusy, busySlots, busySlots.words
      ensures Tracks(done.(known := done.known + {slot}))
      ensures inserted <==> slot !in done.known
    {
      KnownFit(done.known);
      inserted := busySlots.Insert(slot);
      if inserted {
        skippedBusy := SaturatingAdd(skippedBusy, 1);
      } else {
        assert done.known + {slot} == done.known;
      }
    }
  }

  lemma KnownFit(known: set<nat>)
    requires forall slot :: slot in known ==> slot < SLOTS
    ensures |known| <= SLOTS
  {
    SubsetSize(known, SLOTS);
  }

  lemma {:induction false} SubsetSize(known: set<nat>, n: nat)
    requires forall slot :: slot in known ==> slot < n
    ensures |known| <= n
  {
    if n == 0 {
      assert known == {};
    } else {
      SubsetSize(known - {n - 1}, n - 1);
    }
  }

  // ----------------------------------------------------------------------- batches

  /** Outside the known slots, exactly `rest` is still stored. */
  ghost predicate Pending(objects: seq<CacheObject>, rest: seq<CacheObject>, known: set<nat>) {
    forall x :: Slot(x) !in known ==> multiset(objects)[x] == multiset(rest)[x]
  }

  ghost predicate Accounts(all: seq<CacheObject>, objects: seq<CacheObject>, done: Pruned) {
    multiset(all) == multiset(objects) + multiset(done.evicted)
  }

  /** Bounds the scans: every batch removes an object or finds a busy slot. */
  ghost function Left(objects: seq<CacheObject>, done: Pruned): int {
    |objects| + SLOTS - |done.known|
  }

  lemma PendingHead(objects: seq<CacheObject>, rest: seq<CacheObject>, known: set<nat>)
    requires rest != [] && Pending(objects, rest, known) && Slot(rest[0]) !in known
    ensures rest[0] in objects
  {
    hide Slot;
    assert rest[0] in multiset(rest);
    assert multiset(objects)[rest[0]] > 0;
  }

  lemma PendingRemoved(objects: seq<CacheObject>, after: seq<CacheObject>, rest: seq<CacheObject>, known: set<nat>)
    requires rest != [] && Pending(objects, rest, known)
    requires multiset(after) == multiset(objects) - multiset{rest[0]}
    ensures Pending(after, rest[1..], known)
  {
    hide Slot;
    assert rest == [rest[0]] + rest[1..];
  }

  lemma PendingBusy(objects: seq<CacheObject>, rest: seq<CacheObject>, known: set<nat>)
    requires rest != [] && Pending(objects, rest, known)
    ensures Pending(objects, rest[1..], known + {Slot(rest[0])})
  {
    hide Slot;
    assert rest == [rest[0]] + rest[1..];
  }

  lemma AccountsRemoved(all: seq<CacheObject>, objects: seq<CacheObject>, after: seq<CacheObject>, done: Pruned, o: CacheObject)
    requires Accounts(all, objects, done) && o in objects
    requires multiset(after) == multiset(objects) - multiset{o}
    ensures Accounts(all, after, done.(after := Without(done.after, o.length), evicted := done.evicted + [o]))
    ensures |after| == |objects| - 1
  {
    assert o in multiset(objects);
    assert |multiset(after)| == |after| && |multiset(objects)| == |objects|;
  }

  /** One candidate of a batch. */
  method Attempt(store: ObjectStore, progress: PruneProgress, candidate: CacheObject, ghost all: seq<CacheObject>, ghost rest: seq<CacheObject>, ghost done: Pruned)
    returns (advanced: bool, changed: bool, ghost next: Pruned)
    requires store.Valid() && progress.Tracks(done) && done.known <= store.busy
    requires rest != [] && candidate == rest[0] && Pending(store.objects, rest, done.known)
    requires Accounts(all, store.objects, done)
    modifies store`objects, progress`after, progress`removed, progress`skippedBusy, progress.busySlots, progress.busySlots.words
    ensures store.Valid() && progress.Tracks(next) && next.known <= store.busy
    ensures next == Visit(candidate, store.busy, done)
    ensures Pending(store.objects, rest[1..], next.known) && Accounts(all, store.objects, next)
    ensures !changed && (advanced <==> Slot(candidate) !in done.known)
    ensures Left(store.objects, next) <= Left(old(store.objects), done) - if advanced then 1 else 0
  {
    hide Slot, Pending, Accounts, Without, DistinctIds;
    advanced, changed, next := false, false, done;
    ghost var before := store.objects;
    var slot := Slot(candidate);
    var known := progress.busySlots.Contains(slot);
    if known {
      PendingBusy(before, rest, done.known);
      assert done.known + {slot} == done.known;
      return;
    }
    PendingHead(before, rest, done.known);
    var outcome := store.TryRemove(candidate);
    match outcome {
      case Removed =>
        progress.RecordRemoved(candidate.length, done, candidate);
        next := done.(after := Without(done.after, candidate.length), evicted := done.evicted + [candidate]);
        advanced := true;
        PendingRemoved(before, store.objects, rest, done.known);
        AccountsRemoved(all, before, store.objects, done, candidate);
      case Busy =>
        advanced := progress.RecordBusy(slot, done);
        next := done.(known := done.known + {slot});
        PendingBusy(before, rest, done.known);
        BusyAccounts(all, before, done, slot);
      case Changed =>
        changed := true;
    }
  }

  lemma BusyAccounts(all: seq<CacheObject>, objects: seq<CacheObject>, done: Pruned, slot: nat)
    requires Accounts(all, objects, done)
    ensures Accounts(all, objects, done.(known := done.known + {slot}))
  {
  }

  /** One batch: `stop` when the goal was met before its end. */
  method RunBatch(store: ObjectStore, progress: PruneProgress, goal: Goal, candidates: seq<CacheObject>, ghost all: seq<CacheObject>, ghost rest: seq<CacheObject>, ghost done: Pruned)
    returns (advanced: bool, changed: bool, stop: bool, ghost next: Pruned)
    requires store.Valid() && progress.Tracks(done) && done.known <= store.busy
    requires |candidates| <= |rest| && candidates == rest[..|candidates|] && Pending(store.objects, rest, done.known)
    requires Accounts(all, store.objects, done)
    requires candidates != [] && Slot(rest[0]) !in done.known
    modifies store`objects, progress`after, progress`removed, progress`skippedBusy, progress.busySlots, progress.busySlots.words
    ensures store.Valid() && progress.Tracks(next) && done.known <= next.known <= store.busy
    ensures Accounts(all, store.objects, next)
    ensures stop ==> Naive(rest, store.busy, goal, done) == next
    ensures !stop ==> Naive(rest, store.busy, goal, done) == Naive(rest[|candidates|..], store.busy, goal, next)
    ensures !stop ==> Pending(store.objects, rest[|candidates|..], next.known)
    ensures !stop ==> advanced && Left(store.objects, next) < Left(old(store.objects), done)
  {
    hide Slot, Pending, Accounts, Over, DistinctIds, Naive, Visit;
    advanced, changed, stop, next := false, false, false, done;
    assert rest[0..] == rest;
    for j := 0 to |candidates|
      invariant store.Valid() && progress.Tracks(next) && done.known <= next.known <= store.busy
      invariant Pending(store.objects, rest[j..], next.known) && Accounts(all, store.objects, next)
      invariant Naive(rest[j..], store.busy, goal, next) == Naive(rest, store.busy, goal, done)
      invariant Left(store.objects, next) <= Left(old(store.objects), done) - if advanced then 1 else 0
      invariant if j == 0 then next == done else advanced
    {
      if !Over(goal, progress.after) {
        NaiveStops(rest[j..], store.busy, goal, next);
        stop := true;
        return;
      }
      ghost var before := next;
      NaiveStep(rest, j, store.busy, goal, next);
      VisitGrows(rest[j], store.busy, next);
      var moved, different;
      moved, different, next := Attempt(store, progress, candidates[j], all, rest[j..], next);
      advanced, changed := advanced || moved, changed || different;
      assert rest[j..][1..] == rest[j + 1..];
    }
  }

  lemma NaiveStops(rest: seq<CacheObject>, busy: set<nat>, goal: Goal, done: Pruned)
    requires !Over(goal, done.after)
    ensures Naive(rest, busy, goal, done) == done
  {
  }

  lemma NaiveStep(rest: seq<CacheObject>, j: nat, busy: set<nat>, goal: Goal, done: Pruned)
    requires j < |rest| && Over(goal, done.after)
    ensures Naive(rest[j..], busy, goal, done) == Naive(rest[j + 1..], busy, goal, Visit(rest[j], busy, done))
  {
    hide Slot, Over, Visit;
    assert rest[j..][1..] == rest[j + 1..];
  }

  lemma VisitGrows(o: CacheObject, busy: set<nat>, done: Pruned)
    ensures done.known <= Visit(o, busy, done).known
  {
    hide Slot;
  }

  datatype PruneReport = PruneReport(before: CacheStats, after: CacheStats, removed: uint64, skippedBusy: uint64)

  /** `Cache::prune` without an age limit: the batches do what the simple policy does. */
  method Prune(store: ObjectStore, policy: PrunePolicy) returns (report: PruneReport, ghost done: Pruned)
    requires store.Valid()
    modifies store`objects
    ensures store.Valid()
    ensures done == NaivePrune(old(store.objects), store.busy, policy)
    ensures multiset(old(store.objects)) == multiset(store.objects) + multiset(done.evicted)
    ensures report.before == Measure(old(store.objects)) && report.after == done.after
    ensures report.removed == Min(|done.evicted|, U64_MAX) && report.skippedBusy == |done.known|
  {
    hide Slot, Pending, Over, DistinctIds, Naive, Measure, Sort, Outside, Oldest, AgeLeq, SortedBy, BatchSize, GoalOf;
    ghost var all := store.objects;
    var stats := ObjectTotals(store.objects);
    var progress := new PruneProgress(stats);
    var goal := GoalOf(policy, stats);
    done := Pruned(stats, [], {});
    var size := BatchSize(stats, goal);
    var retried := false;
    ghost var rest := Sort(AgeLeq, all);
    StartPending(all);
    while true
      invariant fresh(progress) && fresh(progress.busySlots) && fresh(progress.busySlots.words)
      invariant progress.before == stats
      invariant store.Valid() && progress.Tracks(done) && done.known <= store.busy
      invariant SortedBy(AgeLeq, rest) && Pending(store.objects, rest, done.known)
      invariant Accounts(all, store.objects, done)
      invariant Naive(rest, store.busy, goal, done) == NaivePrune(all, store.busy, policy)
      decreases Left(store.objects, done)
    {
      KnownFit(done.known);
      if !Over(goal, progress.after) {
        NaiveStops(rest, store.busy, goal, done);
        break;
      }
      var candidates := OldestCandidates(store.objects, progress.busySlots, size);
      NextScan(store.objects, rest, store.busy, goal, done, size);
      if candidates == [] {
        break;
      }
      rest := Outside(rest, done.known);
      var advanced, changed, stop;
      ghost var before := done;
      advanced, changed, stop, done := RunBatch(store, progress, goal, candidates, all, rest, done);
      if stop {
        break;
      }
      SortedTail(rest, |candidates|);
      rest := rest[|candidates|..];
      if advanced {
        retried := false;
      } else if changed && !retried {
        retried := true;
      } else {
        break;
      }
    }
    report := PruneReport(progress.before, progress.after, progress.removed, progress.skippedBusy);
  }

  lemma SortedTail(s: seq<CacheObject>, n: nat)
    requires SortedBy(AgeLeq, s) && n <= |s|
    ensures SortedBy(AgeLeq, s[n..])
  {
  }

  lemma StartPending(all: seq<CacheObject>)
    ensures SortedBy(AgeLeq, Sort(AgeLeq, all)) && Pending(all, Sort(AgeLeq, all), {})
  {
    hide Slot, AgeLeq, Sort;
    AgeOrders();
    SortSorted(AgeLeq, all);
    SortMultiset(AgeLeq, all);
  }

  /** What the next scan finds. */
  lemma NextScan(objects: seq<CacheObject>, rest: seq<CacheObject>, busy: set<nat>, goal: Goal, done: Pruned, capacity: nat)
    requires SortedBy(AgeLeq, rest) && Pending(objects, rest, done.known) && done.known <= busy && 0 < capacity
    ensures var next := Outside(rest, done.known);
      var candidates := Oldest(Outside(objects, done.known), capacity);
      && SortedBy(AgeLeq, next) && Pending(objects, next, done.known)
      && |candidates| <= |next| && candidates == next[..|candidates|]
      && (candidates != [] ==> Slot(next[0]) !in done.known)
      && Naive(next, busy, goal, done) == Naive(rest, busy, goal, done)
      && (candidates == [] ==> Naive(rest, busy, goal, done) == done)
  {
    hide Slot, AgeLeq, Outside, Sort, Over, Visit;
    var next := Outside(rest, done.known);
    OutsideSorted(rest, done.known);
    SortedOutside(objects, rest, done.known);
    NaiveIgnores(rest, busy, goal, done, done.known);
    forall x | Slot(x) !in done.known
      ensures multiset(objects)[x] == multiset(next)[x]
    {
      OutsideCount(rest, done.known, x);
    }
    if next != [] {
      OutsideMembers(rest, done.known, next[0]);
    }
  }

  // ------------------------------------------------------- what the policy removes

  function Reduced(stats: CacheStats, s: seq<CacheObject>): CacheStats
    decreases s
  {
    if s == [] then stats else Reduced(Without(stats, s[0].length), s[1..])
  }

  lemma {:induction false} ReducedIs(stats: CacheStats, s: seq<CacheObject>)
    ensures Reduced(stats, s) == CacheStats(Max(stats.entries - |s|, 0), Max(stats.bytes - Bytes(s), 0))
    decreases s
  {
    if s != [] {
      ReducedIs(Without(stats, s[0].length), s[1..]);
    }
  }

  function BusyAmong(s: seq<CacheObject>, busy: set<nat>): set<nat> {
    if s == [] then {}
    else (if Slot(s[0]) in busy then {Slot(s[0])} else {}) + BusyAmong(s[1..], busy)
  }

  /** Visiting `visited` objects of the list leads from one state to the other. */
  ghost predicate Leads(visited: seq<CacheObject>, busy: set<nat>, done: Pruned, next: Pruned) {
    && next.evicted == done.evicted + Outside(visited, busy)
    && next.after == Reduced(done.after, Outside(visited, busy))
    && next.known == done.known + BusyAmong(visited, busy)
  }

  lemma LeadsOn(o: CacheObject, visited: seq<CacheObject>, busy: set<nat>, done: Pruned, next: Pruned)
    requires Leads(visited, busy, Visit(o, busy, done), next)
    ensures Leads([o] + visited, busy, done, next)
  {
    hide Slot, Without;
    assert ([o] + visited)[1..] == visited && ([o] + visited)[0] == o;
    if Slot(o) !in busy {
      assert ([o] + Outside(visited, busy))[1..] == Outside(visited, busy);
    }
  }

  /** The run visits the shortest prefix that meets the goal, or everything. */
  lemma {:induction false} NaiveVisits(rest: seq<CacheObject>, busy: set<nat>, goal: Goal, done: Pruned) returns (visited: nat)
    ensures visited <= |rest|
    ensures Leads(rest[..visited], busy, done, Naive(rest, busy, goal, done))
    ensures visited == |rest| || !Over(goal, Naive(rest, busy, goal, done).after)
    ensures forall u :: 0 <= u < visited ==> Over(goal, Reduced(done.after, Outside(rest[..u], busy)))
  {
    hide Slot, Over, Without;
    if rest == [] || !Over(goal, done.after) {
      visited := 0;
      assert done.evicted + [] == done.evicted;
    } else {
      var next := Visit(rest[0], busy, done);
      var further := NaiveVisits(rest[1..], busy, goal, next);
      visited := further + 1;
      assert rest[..visited] == [rest[0]] + rest[1..][..further];
      LeadsOn(rest[0], rest[1..][..further], busy, done, Naive(rest, busy, goal, done));
      forall u | 0 <= u < visited
        ensures Over(goal, Reduced(done.after, Outside(rest[..u], busy)))
      {
        if u > 0 {
          assert rest[..u] == [rest[0]] + rest[1..][..u - 1];
          ReducedVisit(rest[0], rest[1..][..u - 1], busy, done);
        }
      }
    }
  }

  lemma ReducedVisit(o: CacheObject, visited: seq<CacheObject>, busy: set<nat>, done: Pruned)
    ensures Reduced(done.after, Outside([o] + visited, busy)) == Reduced(Visit(o, busy, done).after, Outside(visited, busy))
  {
    hide Slot, Without;
    assert ([o] + visited)[1..] == visited && ([o] + visited)[0] == o;
    if Slot(o) !in busy {
      assert ([o] + Outside(visited, busy))[1..] == Outside(visited, busy);
    }
  }

  /** What is evicted does not depend on the busy objects in between. */
  lemma {:induction false} NaiveSkips(rest: seq<CacheObject>, busy: set<nat>, goal: Goal, done: Pruned, other: Pruned)
    requires done.after == other.after && done.evicted == other.evicted
    ensures Naive(rest, busy, goal, done).after == Naive(Outside(rest, busy), busy, goal, other).after
    ensures Naive(rest, busy, goal, done).evicted == Naive(Outside(rest, busy), busy, goal, other).evicted
  {
    hide Slot, Over, Without;
    if rest != [] && Over(goal, done.after) {
      if Slot(rest[0]) in busy {
        NaiveSkips(rest[1..], busy, goal, Visit(rest[0], busy, done), other);
      } else {
        NaiveSkips(rest[1..], busy, goal, Visit(rest[0], busy, done), Visit(rest[0], busy, other));
        assert Outside(rest, busy)[0] == rest[0] && Outside(rest, busy)[1..] == Outside(rest[1..], busy);
      }
    }
  }

  /** The objects nobody is working on, least recently used first. */
  function Evictable(objects: seq<CacheObject>, busy: set<nat>): seq<CacheObject> {
    Outside(Sort(AgeLeq, objects), busy)
  }

  /** The policy evicts the shortest prefix of the evictable objects that meets the
      goal, or all of them. */
  lemma EvictsShortestPrefix(objects: seq<CacheObject>, busy: set<nat>, policy: PrunePolicy) returns (k: nat)
    ensures var evictable := Evictable(objects, busy);
      var goal := GoalOf(policy, Measure(objects));
      var done := NaivePrune(objects, busy, policy);
      && k <= |evictable|
      && done.evicted == evictable[..k]
      && done.after == Reduced(Measure(objects), evictable[..k])
      && (k == |evictable| || !Over(goal, done.after))
      && forall j :: 0 <= j < k ==> Over(goal, Reduced(Measure(objects), evictable[..j]))
  {
    hide Slot, Over, AgeLeq, Sort, Measure, Reduced, Outside, Visit, GoalOf;
    var evictable := Evictable(objects, busy);
    var goal := GoalOf(policy, Measure(objects));
    var start := Pruned(Measure(objects), [], {});
    NaiveSkips(Sort(AgeLeq, objects), busy, goal, start, start);
    k := NaiveVisits(evictable, busy, goal, start);
    forall j | 0 <= j <= k
      ensures Outside(evictable[..j], busy) == evictable[..j]
    {
      OutsideAlready(Sort(AgeLeq, objects), busy, j);
    }
    assert [] + evictable[..k] == evictable[..k];
  }

  lemma OutsideAlready(s: seq<CacheObject>, busy: set<nat>, j: nat)
    requires j <= |Outside(s, busy)|
    ensures Outside(Outside(s, busy)[..j], busy) == Outside(s, busy)[..j]
  {
    hide Slot, Outside;
    forall x | x in Outside(s, busy)[..j]
      ensures Slot(x) !in busy
    {
      OutsideMembers(s, busy, x);
    }
    OutsideAll(Outside(s, busy)[..j], busy);
  }

  lemma {:induction false} OutsideAll(s: seq<CacheObject>, busy: set<nat>)
    requires forall x :: x in s ==> Slot(x) !in busy
    ensures Outside(s, busy) == s
  {
    hide Slot;
    if s != [] {
      OutsideAll(s[1..], busy);
    }
  }

  // ---------------------------------------------------------------- exact totals

  lemma {:induction false} InsertBytes(o: CacheObject, s: seq<CacheObject>)
    ensures Bytes(Insert(AgeLeq, o, s)) == o.length + Bytes(s)
  {
    hide AgeLeq;
    if s != [] && !AgeLeq(o, s[0]) {
      InsertBytes(o, s[1..]);
      assert ([s[0]] + Insert(AgeLeq, o, s[1..]))[1..] == Insert(AgeLeq, o, s[1..]);
    }
  }

  lemma {:induction false} SortBytes(s: seq<CacheObject>)
    ensures Bytes(Sort(AgeLeq, s)) == Bytes(s)
  {
    hide AgeLeq;
    if s != [] {
      SortBytes(s[1..]);
      InsertBytes(s[0], Sort(AgeLeq, s[1..]));
    }
  }

  /** The byte total does not depend on the order. */
  lemma BytesPermuted(a: seq<CacheObject>, b: seq<CacheObject>)
    requires multiset(a) == multiset(b)
    ensures Bytes(a) == Bytes(b) && |a| == |b|
  {
    hide AgeLeq, Sort, Bytes;
    AgeOrders();
    SortSorted(AgeLeq, a);
    SortSorted(AgeLeq, b);
    SortMultiset(AgeLeq, a);
    SortMultiset(AgeLeq, b);
    SortedUnique(AgeLeq, Sort(AgeLeq, a), Sort(AgeLeq, b));
    SortBytes(a);
    SortBytes(b);
    assert |multiset(a)| == |multiset(b)|;
  }

  /** The survivors of a run. */
  lemma SurvivorBytes(objects: seq<CacheObject>, survivors: seq<CacheObject>, evicted: seq<CacheObject>)
    requires multiset(objects) == multiset(survivors) + multiset(evicted)
    ensures Bytes(survivors) == Bytes(objects) - Bytes(evicted) && |survivors| == |objects| - |evicted|
  {
    hide Bytes;
    assert multiset(survivors + evicted) == multiset(objects);
    BytesPermuted(objects, survivors + evicted);
    BytesConcat(survivors, evicted);
  }

  lemma PrunedTotals(objects: seq<CacheObject>, busy: set<nat>, policy: PrunePolicy)
    ensures var done := NaivePrune(objects, busy, policy);
      done.after == CacheStats(
        Max(Min(|objects|, U64_MAX) - |done.evicted|, 0), Max(Min(Bytes(objects), U64_MAX) - Bytes(done.evicted), 0))
  {
    hide NaivePrune, Evictable, Over, GoalOf, Reduced, Bytes;
    var k := EvictsShortestPrefix(objects, busy, policy);
    ReducedIs(Measure(objects), Evictable(objects, busy)[..k]);
  }

  /** The byte total reported is that of the survivors exactly when the objects' total
      did not saturate, or nothing with a length is left. */
  lemma ReportIsExact(objects: seq<CacheObject>, survivors: seq<CacheObject>, busy: set<nat>, policy: PrunePolicy)
    requires multiset(objects) == multiset(survivors) + multiset(NaivePrune(objects, busy, policy).evicted)
    ensures NaivePrune(objects, busy, policy).after.bytes == Bytes(survivors) <==> Bytes(objects) <= U64_MAX || Bytes(survivors) == 0
  {
    hide *;
    PrunedTotals(objects, busy, policy);
    SurvivorBytes(objects, survivors, NaivePrune(objects, busy, policy).evicted);
    Saturated(Bytes(objects), Bytes(NaivePrune(objects, busy, policy).evicted));
  }

  lemma EntriesAreExact(objects: seq<CacheObject>, survivors: seq<CacheObject>, busy: set<nat>, policy: PrunePolicy)
    requires multiset(objects) == multiset(survivors) + multiset(NaivePrune(objects, busy, policy).evicted)
    ensures NaivePrune(objects, busy, policy).after.entries == |survivors| <==> |objects| <= U64_MAX || survivors == []
  {
    hide *;
    PrunedTotals(objects, busy, policy);
    SurvivorBytes(objects, survivors, NaivePrune(objects, busy, policy).evicted);
    Saturated(|objects|, |NaivePrune(objects, busy, policy).evicted|);
  }

  lemma Saturated(total: nat, gone: nat)
    requires gone <= total
    ensures Max(Min(total, U64_MAX) - gone, 0) == total - gone <==> total <= U64_MAX || total == gone
  {
  }

  /** Whether a dimension that was over its limit is above four fifths of it, in exact
      totals. */
  predicate Above(policy: PrunePolicy, objects: seq<CacheObject>, entries: int, bytes: int) {
    || (Bytes(objects) > policy.bytes && bytes > policy.bytes * 4 / 5)
    || (policy.entries.Some? && |objects| > policy.entries.value && entries > policy.entries.value * 4 / 5)
  }

  /** Whether removing the first `j` evictable objects looks enough in the saturated
      totals and is not. */
  predicate Misleads(policy: PrunePolicy, objects: seq<CacheObject>, evictable: seq<CacheObject>, j: nat)
    requires j <= |evictable|
  {
    && !Over(GoalOf(policy, Measure(objects)), Reduced(Measure(objects), evictable[..j]))
    && Above(policy, objects, |objects| - j, Bytes(objects) - Bytes(evictable[..j]))
  }

  /** The result in exact totals, saturated or not: each prefix shorter than the evicted
      one leaves some triggered total above four fifths of its limit, and the evicted one
      brings every one of them down, or takes everything evictable, exactly when no
      proper prefix of the evictable objects misleads. */
  lemma PruneMeetsGoal(objects: seq<CacheObject>, survivors: seq<CacheObject>, busy: set<nat>, policy: PrunePolicy) returns (k: nat)
    requires multiset(objects) == multiset(survivors) + multiset(NaivePrune(objects, busy, policy).evicted)
    ensures var evictable := Evictable(objects, busy);
      && k <= |evictable| && NaivePrune(objects, busy, policy).evicted == evictable[..k]
      && (forall j :: 0 <= j < k ==> Above(policy, objects, |objects| - j, Bytes(objects) - Bytes(evictable[..j])))
      && ((k == |evictable| || !Above(policy, objects, |survivors|, Bytes(survivors)))
          <==> forall j :: 0 <= j < |evictable| ==> !Misleads(policy, objects, evictable, j))
  {
    hide *;
    k := EvictsShortestPrefix(objects, busy, policy);
    var evictable := Evictable(objects, busy);
    SurvivorBytes(objects, survivors, evictable[..k]);
    forall j | 0 <= j < k
      ensures Above(policy, objects, |objects| - j, Bytes(objects) - Bytes(evictable[..j]))
      ensures !Misleads(policy, objects, evictable, j)
    {
      PrefixAbove(objects, busy, policy, j);
      MisleadsMeans(policy, objects, evictable, j);
    }
    if k < |evictable| {
      MisleadsMeans(policy, objects, evictable, k);
      if !Above(policy, objects, |survivors|, Bytes(survivors)) {
        forall j | k <= j < |evictable|
          ensures !Misleads(policy, objects, evictable, j)
        {
          StaysBelow(policy, objects, evictable, k, j);
          MisleadsMeans(policy, objects, evictable, j);
        }
      }
    }
  }

  lemma MisleadsMeans(policy: PrunePolicy, objects: seq<CacheObject>, evictable: seq<CacheObject>, j: nat)
    requires j <= |evictable|
    ensures Misleads(policy, objects, evictable, j) <==>
      && !Over(GoalOf(policy, Measure(objects)), Reduced(Measure(objects), evictable[..j]))
      && Above(policy, objects, |objects| - j, Bytes(objects) - Bytes(evictable[..j]))
  {
  }

  /** Removing more keeps the totals down. */
  lemma StaysBelow(policy: PrunePolicy, objects: seq<CacheObject>, evictable: seq<CacheObject>, k: nat, j: nat)
    requires k <= j <= |evictable|
    requires !Above(policy, objects, |objects| - k, Bytes(objects) - Bytes(evictable[..k]))
    ensures !Above(policy, objects, |objects| - j, Bytes(objects) - Bytes(evictable[..j]))
  {
    hide Bytes;
    assert evictable[..j] == evictable[..k] + evictable[k..j];
    BytesConcat(evictable[..k], evictable[k..j]);
  }

  /** What the saturated totals still call too much is too much. */
  lemma PrefixAbove(objects: seq<CacheObject>, busy: set<nat>, policy: PrunePolicy, j: nat)
    requires j <= |Evictable(objects, busy)|
    requires Over(GoalOf(policy, Measure(objects)), Reduced(Measure(objects), Evictable(objects, busy)[..j]))
    ensures Above(policy, objects, |objects| - j, Bytes(objects) - Bytes(Evictable(objects, busy)[..j]))
  {
    hide Bytes, Evictable, Reduced;
    ReducedIs(Measure(objects), Evictable(objects, busy)[..j]);
    PrefixBytes(objects, busy, j);
  }

  /** Totals that fit never mislead. */
  lemma ExactTotalsNeverMislead(objects: seq<CacheObject>, busy: set<nat>, policy: PrunePolicy, j: nat)
    requires Bytes(objects) <= U64_MAX && |objects| <= U64_MAX && j <= |Evictable(objects, busy)|
    ensures !Misleads(policy, objects, Evictable(objects, busy), j)
  {
    hide Bytes, Evictable, Reduced;
    ReducedIs(Measure(objects), Evictable(objects, busy)[..j]);
    PrefixBytes(objects, busy, j);
  }

  /** For a limit on bytes alone that could be exceeded, in numbers: a prefix misleads
      when it takes all but the low mark of the saturated total and leaves more than the
      low mark of the exact one. */
  lemma MisleadsInBytes(objects: seq<CacheObject>, busy: set<nat>, policy: PrunePolicy, j: nat)
    requires policy.entries == None && policy.bytes < U64_MAX && j <= |Evictable(objects, busy)|
    ensures
      var removed := Bytes(Evictable(objects, busy)[..j]);
      var low := policy.bytes * 4 / 5;
      Misleads(policy, objects, Evictable(objects, busy), j) <==>
        U64_MAX < Bytes(objects) && U64_MAX - low <= removed < Bytes(objects) - low
  {
    hide Bytes, Evictable, Reduced;
    ReducedIs(Measure(objects), Evictable(objects, busy)[..j]);
    PrefixBytes(objects, busy, j);
  }

  /** Part of the evictable objects is no larger than the whole. */
  lemma PrefixBytes(objects: seq<CacheObject>, busy: set<nat>, j: nat)
    requires j <= |Evictable(objects, busy)|
    ensures Bytes(Evictable(objects, busy)[..j]) <= Bytes(objects) && j <= |objects|
  {
    hide Bytes, Outside, Sort, AgeLeq;
    var evictable := Evictable(objects, busy);
    SortBytes(objects);
    OutsideBytes(Sort(AgeLeq, objects), busy);
    assert evictable == evictable[..j] + evictable[j..];
    BytesConcat(evictable[..j], evictable[j..]);
  }

  lemma {:induction false} OutsideBytes(s: seq<CacheObject>, slots: set<nat>)
    ensures Bytes(Outside(s, slots)) <= Bytes(s)
  {
    hide Slot;
    if s != [] {
      OutsideBytes(s[1..], slots);
      if Slot(s[0]) !in slots {
        assert ([s[0]] + Outside(s[1..], slots))[1..] == Outside(s[1..], slots);
      }
    }
  }

  /** A saturated total: two objects of the largest length, a limit one below it, and
      the run stops after the first although the other alone is above the limit. */
  lemma SaturationStopsEarly()
    ensures var first := CacheObject(0, [1], U64_MAX);
      var second := CacheObject(1, [2], U64_MAX);
      NaivePrune([first, second], {}, PrunePolicy(U64_MAX - 1, None)).evicted == [first]
  {
    hide Slot;
    var first := CacheObject(0, [1], U64_MAX);
    var second := CacheObject(1, [2], U64_MAX);
    var objects := [first, second];
    var policy := PrunePolicy(U64_MAX - 1, None);
    SortTwo(first, second);
    assert Bytes(objects) == U64_MAX + U64_MAX by {
      assert objects[1..] == [second] && [second][1..] == [];
      assert Bytes([second]) == U64_MAX + Bytes([]);
    }
    var goal := GoalOf(policy, Measure(objects));
    var start := Pruned(Measure(objects), [], {});
    assert objects[1..] == [second];
    var next := Visit(first, {}, start);
    assert next.evicted == [first] && next.after.bytes == 0;
    assert !Over(goal, next.after);
    NaiveStops([second], {}, goal, next);
  }

  lemma SortTwo(a: CacheObject, b: CacheObject)
    requires a.lastUsed < b.lastUsed
    ensures Sort(AgeLeq, [a, b]) == [a, b]
  {
    assert [a, b][1..] == [b] && [b][1..] == [];
    assert Sort(AgeLeq, [b]) == Insert(AgeLeq, b, []);
  }

  /** The busy slots reported: those of the objects up to the last one visited, where
      visiting any less would not have met the goal. */
  lemma SkipsBusySlots(objects: seq<CacheObject>, busy: set<nat>, policy: PrunePolicy) returns (visited: nat)
    ensures var sorted := Sort(AgeLeq, objects);
      var goal := GoalOf(policy, Measure(objects));
      var done := NaivePrune(objects, busy, policy);
      && visited <= |sorted|
      && done.known == BusyAmong(sorted[..visited], busy)
      && done.evicted == Outside(sorted[..visited], busy)
      && (visited == |sorted| || !Over(goal, done.after))
      && forall u :: 0 <= u < visited ==> Over(goal, Reduced(Measure(objects), Outside(sorted[..u], busy)))
  {
    hide Slot, Over, AgeLeq, Sort, Measure, Reduced, Outside, Visit, GoalOf, BusyAmong, Naive;
    var sorted := Sort(AgeLeq, objects);
    visited := NaiveVisits(sorted, busy, GoalOf(policy, Measure(objects)), Pruned(Measure(objects), [], {}));
    assert [] + Outside(sorted[..visited], busy) == Outside(sorted[..visited], busy);
    assert {} + BusyAmong(sorted[..visited], busy) == BusyAmong(sorted[..visited], busy);
  }

  /** Neither the order a directory is listed in nor the batches matter. */
  lemma ListingOrderIrrelevant(objects: seq<CacheObject>, other: seq<CacheObject>, busy: set<nat>, policy: PrunePolicy)
    requires multiset(objects) == multiset(other)
    ensures NaivePrune(objects, busy, policy) == NaivePrune(other, busy, policy)
  {
    hide AgeLeq, Sort, Naive, Bytes, GoalOf;
    AgeOrders();
    SortSorted(AgeLeq, objects);
    SortSorted(AgeLeq, other);
    SortMultiset(AgeLeq, objects);
    SortMultiset(AgeLeq, other);
    SortedUnique(AgeLeq, Sort(AgeLeq, objects), Sort(AgeLeq, other));
    BytesPermuted(objects, other);
  }
}
