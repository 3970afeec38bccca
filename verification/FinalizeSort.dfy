/** `sort_by_ordering_key` of src/writer/finalize.rs: rank indices, rank aliases
    among themselves, then move the functions along the cycles of the result. */
module FinalizeSort {
  import opened Words
  import opened Wrappers
  import opened Model
  import opened Sorting
  import opened Ordering

  // ------------------------------------------------------------- orders on indices

  function KeyAt(keys: seq<Key>, i: nat): Key {
    if i < |keys| then keys[i] else Key([], [], [], [])
  }

  /** Keys first, ties by position. */
  predicate EntryLeq(keys: seq<Key>, i: nat, j: nat) {
    if KeyLeq(KeyAt(keys, i), KeyAt(keys, j)) && KeyLeq(KeyAt(keys, j), KeyAt(keys, i)) then i <= j
    else KeyLeq(KeyAt(keys, i), KeyAt(keys, j))
  }

  function ByKey(keys: seq<Key>): (nat, nat) -> bool {
    (i: nat, j: nat) => EntryLeq(keys, i, j)
  }

  lemma ByKeyOrder(keys: seq<Key>, s: seq<nat>)
    ensures TotalPreorder(ByKey(keys)) && TieFree(ByKey(keys), s)
  {
    hide KeyLeq;
    forall i: nat, j: nat
      ensures EntryLeq(keys, i, j) || EntryLeq(keys, j, i)
    {
      KeyTotal(KeyAt(keys, i), KeyAt(keys, j));
    }
    forall i: nat, j: nat, k: nat | EntryLeq(keys, i, j) && EntryLeq(keys, j, k)
      ensures EntryLeq(keys, i, k)
    {
      KeyTransitive(KeyAt(keys, i), KeyAt(keys, j), KeyAt(keys, k));
      if KeyLeq(KeyAt(keys, k), KeyAt(keys, i)) {
        KeyTransitive(KeyAt(keys, k), KeyAt(keys, i), KeyAt(keys, j));
        KeyTransitive(KeyAt(keys, j), KeyAt(keys, k), KeyAt(keys, i));
      }
    }
  }

  function RangeKeys(functions: seq<Function>): seq<Key> {
    seq(|functions|, i requires 0 <= i < |functions| => Key(RangeKey(functions[i].range), [], [], []))
  }

  function AliasKeys(functions: seq<Function>, compareInlines: bool): seq<Key> {
    seq(|functions|, i requires 0 <= i < |functions| => FullKey(functions[i], compareInlines).(range := []))
  }

  function FullKeys(functions: seq<Function>): seq<Key> {
    seq(|functions|, i requires 0 <= i < |functions| => FullKey(functions[i], true))
  }

  function IndicesFrom(k: nat, n: nat): seq<nat>
    requires k <= n
  {
    seq(n - k, i => k + i)
  }

  /** Every entry is a position in the table. */
  predicate InTable(order: seq<nat>, n: nat) {
    forall k :: 0 <= k < |order| ==> order[k] < n
  }

  // ----------------------------------------------------------------------- aliases

  /** All in the table and of one range. */
  predicate Aliases(functions: seq<Function>, group: seq<nat>) {
    && InTable(group, |functions|)
    && forall p, q :: 0 <= p < |group| && 0 <= q < |group| ==> functions[group[p]].range == functions[group[q]].range
  }

  predicate AtMostOneInline(functions: seq<Function>, group: seq<nat>)
    requires InTable(group, |functions|)
  {
    forall p, q :: 0 <= p < |group| && 0 <= q < |group| ==>
      functions[group[p]].inline.Some? && functions[group[q]].inline.Some? ==> group[p] == group[q]
  }

  lemma AliasKeyAgrees(f: Function, g: Function, compareInlines: bool)
    requires f.range == g.range && (compareInlines || f.inline.None? || g.inline.None?)
    ensures KeyLeq(FullKey(f, compareInlines).(range := []), FullKey(g, compareInlines).(range := []))
         == KeyLeq(FullKey(f, true), FullKey(g, true))
  {
    hide Richness, LexLeq;
    if !compareInlines {
      DeferredRankingAgrees(f, g);
    }
  }

  /** Among aliases the deferred key sorts as the full key does. */
  lemma AliasesSortAlike(functions: seq<Function>, group: seq<nat>, compareInlines: bool)
    requires Aliases(functions, group)
    requires !compareInlines ==> AtMostOneInline(functions, group)
    ensures Sort(ByKey(AliasKeys(functions, compareInlines)), group) == Sort(ByKey(FullKeys(functions)), group)
  {
    hide KeyLeq, FullKey;
    var alias, full := AliasKeys(functions, compareInlines), FullKeys(functions);
    forall i, j | i in group && j in group
      ensures EntryLeq(alias, i, j) == EntryLeq(full, i, j)
    {
      var p :| 0 <= p < |group| && group[p] == i;
      var q :| 0 <= q < |group| && group[q] == j;
      var f, g := functions[i], functions[j];
      if i == j {
        KeyTotal(KeyAt(alias, i), KeyAt(alias, i));
        KeyTotal(KeyAt(full, i), KeyAt(full, i));
      } else {
        AliasKeyAgrees(f, g, compareInlines);
        AliasKeyAgrees(g, f, compareInlines);
      }
    }
    SortAgrees(ByKey(alias), ByKey(full), group);
  }

  /** Whether two aliases have inline trees, looking no further than needed. */
  method HasTwoInlines(functions: seq<Function>, group: seq<nat>) returns (found: bool)
    requires InTable(group, |functions|)
    ensures !found ==> AtMostOneInline(functions, group)
    ensures found <==> exists p, q :: 0 <= p < q < |group| && functions[group[p]].inline.Some? && functions[group[q]].inline.Some?
  {
    ghost var at: nat := 0;
    var first: Option<nat> := None;
    for k := 0 to |group|
      invariant first.None? ==> forall p :: 0 <= p < k ==> functions[group[p]].inline.None?
      invariant first.Some? ==> at < k && group[at] == first.value && functions[group[at]].inline.Some?
      invariant first.Some? ==> forall p :: 0 <= p < k && functions[group[p]].inline.Some? ==> p == at
    {
      if functions[group[k]].inline.Some? {
        if first.Some? {
          return true;
        }
        first, at := Some(group[k]), k;
      }
    }
    return false;
  }

  // ------------------------------------------------------------------ alias ranking

  /** The range of `i` comes strictly before that of `j`. */
  predicate Before(functions: seq<Function>, i: nat, j: nat) {
    && i < |functions| && j < |functions|
    && LexLeq(RangeKey(functions[i].range), RangeKey(functions[j].range)) && functions[i].range != functions[j].range
  }

  lemma RangeKeyInjective(a: AddressRange, b: AddressRange)
    requires RangeKey(a) == RangeKey(b)
    ensures a == b
  {
    assert RangeKey(a)[0] == a.start && RangeKey(a)[1] == a.end;
  }

  lemma BeforeIsLess(functions: seq<Function>, i: nat, j: nat)
    requires Before(functions, i, j)
    ensures EntryLeq(FullKeys(functions), i, j)
  {
    hide LexLeq, RangeKey, Richness;
    if RangeKey(functions[i].range) == RangeKey(functions[j].range) {
      RangeKeyInjective(functions[i].range, functions[j].range);
    }
    ComponentAntisymmetric(RangeKey(functions[i].range), RangeKey(functions[j].range));
  }

  /** In range order, a change of range separates all that precedes from all that
      follows. */
  lemma RangeBoundary(functions: seq<Function>, order: seq<nat>, p: nat, boundary: nat, q: nat)
    requires InTable(order, |functions|)
    requires SortedBy(ByKey(RangeKeys(functions)), order)
    requires p < boundary <= q < |order|
    requires functions[order[p]].range == functions[order[boundary - 1]].range != functions[order[boundary]].range
    ensures Before(functions, order[p], order[q])
  {
    var keys := RangeKeys(functions);
    var low, middle, high := RangeKey(functions[order[boundary - 1]].range), RangeKey(functions[order[boundary]].range),
      RangeKey(functions[order[q]].range);
    assert ByKey(keys)(order[boundary - 1], order[boundary]);
    assert q == boundary || ByKey(keys)(order[boundary], order[q]);
    hide RangeKey;
    LexTotal(high, high);
    RangeEntry(functions, order[boundary - 1], order[boundary]);
    RangeEntry(functions, order[boundary], order[q]);
    LexTransitive(low, middle, high);
    if low == high {
      LexAntisymmetric(low, middle);
      RangeKeyInjective(functions[order[boundary - 1]].range, functions[order[boundary]].range);
    }
  }

  lemma RangeEntry(functions: seq<Function>, i: nat, j: nat)
    requires i < |functions| && j < |functions|
    ensures EntryLeq(RangeKeys(functions), i, j) ==> LexLeq(RangeKey(functions[i].range), RangeKey(functions[j].range))
  {
    hide RangeKey;
    LexTotal(RangeKey(functions[i].range), RangeKey(functions[j].range));
  }

  /** Two sorted parts, the first strictly before the second. */
  lemma SortedTogether(functions: seq<Function>, a: seq<nat>, b: seq<nat>)
    requires SortedBy(ByKey(FullKeys(functions)), a) && SortedBy(ByKey(FullKeys(functions)), b)
    requires forall i, j :: i in a && j in b ==> Before(functions, i, j)
    ensures SortedBy(ByKey(FullKeys(functions)), a + b)
  {
    hide EntryLeq, Before;
    forall p, q | 0 <= p < q < |a + b|
      ensures ByKey(FullKeys(functions))((a + b)[p], (a + b)[q])
    {
      if p < |a| <= q {
        BeforeIsLess(functions, a[p], b[q - |a|]);
      }
    }
  }

  /** All of `a` comes strictly before all of `b` in range. */
  predicate AllBefore(functions: seq<Function>, a: seq<nat>, b: seq<nat>) {
    forall i, j :: i in a && j in b ==> Before(functions, i, j)
  }

  lemma SameMembers(a: seq<nat>, b: seq<nat>)
    requires multiset(a) == multiset(b)
    ensures forall x :: x in a <==> x in b
  {
    forall x: nat
      ensures x in a <==> x in b
    {
      assert x in multiset(a) <==> x in a;
      assert x in multiset(b) <==> x in b;
    }
  }

  lemma GroupBefore(functions: seq<Function>, order: seq<nat>, i: nat, j: nat)
    requires InTable(order, |functions|)
    requires SortedBy(ByKey(RangeKeys(functions)), order)
    requires i < j <= |order|
    requires forall k :: i <= k < j ==> functions[order[k]].range == functions[order[i]].range
    requires j < |order| ==> functions[order[j]].range != functions[order[i]].range
    ensures AllBefore(functions, order[i..j], order[j..])
  {
    hide Before, ByKey;
    forall a, b | a in order[i..j] && b in order[j..]
      ensures Before(functions, a, b)
    {
      var p :| i <= p < j && order[p] == a;
      var q :| j <= q < |order| && order[q] == b;
      RangeBoundary(functions, order, p, j, q);
    }
  }

  /** One run of equal ranges, re-sorted by the alias key. */
  method RankGroup(functions: seq<Function>, group: seq<nat>) returns (sorted: seq<nat>)
    requires Aliases(functions, group)
    ensures SortedBy(ByKey(FullKeys(functions)), sorted)
    ensures multiset(sorted) == multiset(group)
  {
    hide EntryLeq, AtMostOneInline;
    if |group| < 2 {
      return group;
    }
    var compareInlines := HasTwoInlines(functions, group);
    sorted := Sort(ByKey(AliasKeys(functions, compareInlines)), group);
    AliasesSortAlike(functions, group, compareInlines);
    ByKeyOrder(FullKeys(functions), group);
    SortSorted(ByKey(FullKeys(functions)), group);
    SortMultiset(ByKey(FullKeys(functions)), group);
  }

  /** The next group takes its place after those already ranked. */
  lemma GroupJoins(functions: seq<Function>, order: seq<nat>, i: nat, j: nat, ranked: seq<nat>, sorted: seq<nat>)
    requires InTable(order, |functions|)
    requires SortedBy(ByKey(RangeKeys(functions)), order)
    requires i < j <= |order|
    requires forall k :: i <= k < j ==> functions[order[k]].range == functions[order[i]].range
    requires j < |order| ==> functions[order[j]].range != functions[order[i]].range
    requires SortedBy(ByKey(FullKeys(functions)), ranked) && SortedBy(ByKey(FullKeys(functions)), sorted)
    requires multiset(ranked) == multiset(order[..i]) && multiset(sorted) == multiset(order[i..j])
    requires AllBefore(functions, ranked, order[i..])
    ensures SortedBy(ByKey(FullKeys(functions)), ranked + sorted)
    ensures multiset(ranked + sorted) == multiset(order[..j])
    ensures AllBefore(functions, ranked + sorted, order[j..])
  {
    hide Before, ByKey;
    GroupBefore(functions, order, i, j);
    SameMembers(sorted, order[i..j]);
    assert order[..j] == order[..i] + order[i..j];
    assert order[i..] == order[i..j] + order[j..];
    SortedTogether(functions, ranked, sorted);
  }

  /** Re-sorts each run of equal ranges. */
  method RankAliases(functions: seq<Function>, order: seq<nat>) returns (ranked: seq<nat>)
    requires InTable(order, |functions|)
    requires SortedBy(ByKey(RangeKeys(functions)), order)
    ensures SortedBy(ByKey(FullKeys(functions)), ranked)
    ensures multiset(ranked) == multiset(order)
  {
    hide Before, ByKey, FullKeys;
    ranked := [];
    var i := 0;
    while i < |order|
      invariant 0 <= i <= |order|
      invariant multiset(ranked) == multiset(order[..i])
      invariant SortedBy(ByKey(FullKeys(functions)), ranked)
      invariant AllBefore(functions, ranked, order[i..])
    {
      var j := i + 1;
      while j < |order| && functions[order[j]].range == functions[order[i]].range
        invariant i < j <= |order|
        invariant forall k :: i <= k < j ==> functions[order[k]].range == functions[order[i]].range
      {
        j := j + 1;
      }
      var sorted := RankGroup(functions, order[i..j]);
      GroupJoins(functions, order, i, j, ranked, sorted);
      ranked, i := ranked + sorted, j;
    }
    assert order[..i] == order;
  }

  // ------------------------------------------------------------- cycle by cycle

  predicate Permutes(order: seq<nat>, n: nat) {
    && |order| == n && InTable(order, n)
    && forall i, j :: 0 <= i < j < n ==> order[i] != order[j]
  }

  /** The functions in the order of their indices. */
  function Gather(functions: seq<Function>, order: seq<nat>): seq<Function>
    requires InTable(order, |functions|)
  {
    seq(|order|, i requires 0 <= i < |order| => functions[order[i]])
  }

  /** Where position `i` of the result still lies. */
  ghost predicate Pending(functions: seq<Function>, pending: seq<nat>, target: seq<Function>) {
    && |pending| == |target| == |functions| && InTable(pending, |functions|)
    && forall i :: 0 <= i < |target| ==> functions[pending[i]] == target[i]
  }

  ghost function Transposed(p: seq<nat>, a: nat, b: nat): seq<nat> {
    seq(|p|, i requires 0 <= i < |p| => if p[i] == a then b else if p[i] == b then a else p[i])
  }

  ghost function Unfixed(pending: seq<nat>): set<nat> {
    set i: nat | i < |pending| && pending[i] != i
  }

  /** A swap moves one more function to its place. */
  lemma SwapAdvances(
    functions: seq<Function>, pending: seq<nat>, target: seq<Function>, current: nat, source: nat)
    requires Permutes(pending, |functions|) && Pending(functions, pending, target)
    requires current < |functions| && pending[current] == source && source != current
    ensures
      var swapped := functions[current := functions[source]][source := functions[current]];
      var next := Transposed(pending, current, source);
      && Permutes(next, |functions|) && Pending(swapped, next, target)
      && next[current] == current
      && (forall i :: 0 <= i < |pending| && pending[i] == i ==> next[i] == i)
      && Unfixed(next) < Unfixed(pending)
  {
    var next := Transposed(pending, current, source);
    assert forall i :: 0 <= i < |pending| && pending[i] == i ==> next[i] == i;
    assert current in Unfixed(pending) && current !in Unfixed(next);
  }

  /** Moves every function along its cycle.  `slots` is the order being consumed:
      while a cycle is open its last entry still names the cycle's start. */
  method ApplyOrder(functions: array<Function>, order: seq<nat>)
    requires Permutes(order, functions.Length)
    modifies functions
    ensures functions[..] == Gather(old(functions[..]), order)
  {
    hide Pending, Unfixed;
    ghost var target := Gather(functions[..], order);
    ghost var pending := order;
    var slots := order;
    InitiallyPending(functions[..], order);
    for start := 0 to functions.Length
      invariant slots == pending && Permutes(pending, functions.Length)
      invariant Pending(functions[..], pending, target)
      invariant forall i :: 0 <= i < start ==> pending[i] == i
    {
      var current: nat := start;
      while slots[current] != start
        invariant current < functions.Length && |slots| == functions.Length
        invariant Permutes(pending, functions.Length) && Pending(functions[..], pending, target)
        invariant forall i :: 0 <= i < |slots| ==> slots[i] == if pending[i] == current then start else pending[i]
        invariant current != start ==> pending[start] == start
        invariant forall i :: 0 <= i < start ==> pending[i] == i
        decreases Unfixed(pending)
      {
        var source := slots[current];
        SwapAdvances(functions[..], pending, target, current, source);
        ghost var swapped := functions[..][current := functions[source]][source := functions[current]];
        functions[current], functions[source] := functions[source], functions[current];
        assert functions[..] == swapped;
        slots := slots[current := current];
        pending := Transposed(pending, current, source);
        current := source;
      }
      assert pending[current] == current;
      slots := slots[current := current];
    }
    FinallyInPlace(functions[..], pending, target);
  }

  lemma InitiallyPending(functions: seq<Function>, order: seq<nat>)
    requires Permutes(order, |functions|)
    ensures Pending(functions, order, Gather(functions, order))
  {
  }

  lemma FinallyInPlace(functions: seq<Function>, pending: seq<nat>, target: seq<Function>)
    requires Pending(functions, pending, target)
    requires forall i :: 0 <= i < |functions| ==> pending[i] == i
    ensures functions == target
  {
  }

  // ------------------------------------------------------------------ the whole sort

  lemma SortedIndicesPermute(keys: seq<Key>, n: nat, order: seq<nat>)
    requires multiset(order) == multiset(IndicesFrom(0, n))
    ensures Permutes(order, n)
  {
    var indices := IndicesFrom(0, n);
    assert |multiset(order)| == |order| && |multiset(indices)| == n;
    SameMembers(order, indices);
    forall k | 0 <= k < |order|
      ensures order[k] < n
    {
      assert order[k] in order && order[k] in indices;
    }
    forall i, j | 0 <= i < j < n
      ensures order[i] != order[j]
    {
      if order[i] == order[j] {
        TwiceInMultiset(order, i, j);
        OnceInIndices(0, n, order[i]);
      }
    }
  }

  lemma TwiceInMultiset(s: seq<nat>, i: nat, j: nat)
    requires i < j < |s| && s[i] == s[j]
    ensures multiset(s)[s[i]] >= 2
  {
    assert s == s[..j] + ([s[j]] + s[j + 1..]);
    assert s[..j][i] == s[i];
    assert s[i] in multiset(s[..j]);
  }

  lemma {:induction false} OnceInIndices(k: nat, n: nat, x: nat)
    requires k <= n
    ensures multiset(IndicesFrom(k, n))[x] <= 1
    ensures x < k ==> x !in multiset(IndicesFrom(k, n))
    decreases n - k
  {
    if k < n {
      OnceInIndices(k + 1, n, x);
      assert IndicesFrom(k, n) == [k] + IndicesFrom(k + 1, n);
      OnceInIndices(k + 1, n, k);
    }
  }

  /** Sorting indices with ties by position is sorting the functions stably. */
  lemma {:induction false} GatherSorted(functions: seq<Function>, k: nat)
    requires k <= |functions|
    ensures
      var order := Sort(ByKey(FullKeys(functions)), IndicesFrom(k, |functions|));
      && InTable(order, |functions|)
      && (forall i :: 0 <= i < |order| ==> k <= order[i])
      && Gather(functions, order) == Sort(FunctionLeq, functions[k..])
    decreases |functions| - k
  {
    hide FullKey, KeyLeq;
    var keys := FullKeys(functions);
    if k < |functions| {
      GatherSorted(functions, k + 1);
      assert IndicesFrom(k, |functions|)[0] == k;
      assert IndicesFrom(k, |functions|)[1..] == IndicesFrom(k + 1, |functions|);
      assert functions[k..][1..] == functions[k + 1..];
      GatherInsert(functions, k, Sort(ByKey(keys), IndicesFrom(k + 1, |functions|)));
    }
  }

  lemma {:induction false} GatherInsert(functions: seq<Function>, k: nat, order: seq<nat>)
    requires k < |functions| && InTable(order, |functions|)
    requires forall i :: 0 <= i < |order| ==> k < order[i]
    ensures
      var inserted := Insert(ByKey(FullKeys(functions)), k, order);
      && InTable(inserted, |functions|)
      && (forall i :: 0 <= i < |inserted| ==> k <= inserted[i])
      && Gather(functions, inserted) == Insert(FunctionLeq, functions[k], Gather(functions, order))
    decreases |order|
  {
    hide FullKey, KeyLeq;
    var keys := FullKeys(functions);
    if order != [] {
      assert EntryLeq(keys, k, order[0]) == FunctionLeq(functions[k], functions[order[0]]);
      assert Gather(functions, order)[1..] == Gather(functions, order[1..]);
      if EntryLeq(keys, k, order[0]) {
        assert Gather(functions, [k] + order) == [functions[k]] + Gather(functions, order);
      } else {
        GatherInsert(functions, k, order[1..]);
        var tail := Insert(ByKey(keys), k, order[1..]);
        assert Gather(functions, [order[0]] + tail) == [functions[order[0]]] + Gather(functions, tail);
      }
    }
  }

  /** Ranking by range first and by aliases second gives the order of the full
      key. */
  lemma RankedIsFullOrder(functions: seq<Function>, ranked: seq<nat>)
    requires multiset(ranked) == multiset(IndicesFrom(0, |functions|))
    requires SortedBy(ByKey(FullKeys(functions)), ranked)
    ensures Permutes(ranked, |functions|)
    ensures Gather(functions, ranked) == Sort(FunctionLeq, functions)
  {
    hide ByKey, FullKeys, FunctionLeq;
    var full := FullKeys(functions);
    var indices := IndicesFrom(0, |functions|);
    SortedIndicesPermute(full, |functions|, ranked);
    ByKeyOrder(full, ranked);
    SortSorted(ByKey(full), indices);
    SortMultiset(ByKey(full), indices);
    SortedUnique(ByKey(full), ranked, Sort(ByKey(full), indices));
    GatherSorted(functions, 0);
    assert functions[0..] == functions;
  }

  /** `sort_by_ordering_key`: in place, the stable sort by range, full richness,
      name and tiebreak. */
  method SortByOrderingKey(functions: array<Function>)
    modifies functions
    ensures functions[..] == Sort(FunctionLeq, old(functions[..]))
  {
    hide ByKey, FullKeys, RangeKeys, FunctionLeq;
    var all := functions[..];
    var indices := IndicesFrom(0, |all|);
    var order := Sort(ByKey(RangeKeys(all)), indices);
    ByKeyOrder(RangeKeys(all), order);
    SortSorted(ByKey(RangeKeys(all)), indices);
    SortMultiset(ByKey(RangeKeys(all)), indices);
    SortedIndicesPermute(RangeKeys(all), |all|, order);
    order := RankAliases(all, order);
    RankedIsFullOrder(all, order);
    ApplyOrder(functions, order);
  }
}
