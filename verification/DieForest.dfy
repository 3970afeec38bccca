/** What the forest and the call sites of src/convert/dwarf/dies.rs hold, entry by entry. */
module DieForest {
  import opened Words
  import opened Wrappers
  import opened Model
  import opened Validation
  import opened Sorting
  import opened Dies

  // --------------------------------------------------------------------- one entry

  /** A range with room inside some parent range. */
  ghost predicate Fits(range: AddressRange, parents: seq<AddressRange>) {
    range.start < range.end && exists k :: 0 <= k < |parents| && parents[k].start <= range.start && range.end <= parents[k].end
  }

  lemma {:induction false} UsableFits(ranges: seq<AddressRange>, parents: seq<AddressRange>)
    ensures forall range :: range in Usable(ranges, parents) <==> range in ranges && Fits(range, parents)
  {
    hide Fits;
    if ranges != [] {
      UsableFits(ranges[1..], parents);
      FitsIs(ranges[0], parents);
      assert ranges == [ranges[0]] + ranges[1..];
    }
  }

  lemma FitsIs(range: AddressRange, parents: seq<AddressRange>)
    ensures Fits(range, parents) <==> range.start < range.end && Within(range, parents)
  {
    if range.start < range.end && Within(range, parents) {
      var parent :| parent in parents && parent.ContainsRange(range);
      var k :| 0 <= k < |parents| && parents[k] == parent;
    }
    if Fits(range, parents) {
      var k :| 0 <= k < |parents| && parents[k].start <= range.start && range.end <= parents[k].end;
      assert parents[k] in parents && parents[k].ContainsRange(range);
    }
  }

  ghost predicate InSome(ranges: seq<AddressRange>, address: uint64) {
    exists i :: 0 <= i < |ranges| && ranges[i].start <= address < ranges[i].end
  }

  ghost predicate InFitting(ranges: seq<AddressRange>, parents: seq<AddressRange>, address: uint64) {
    exists i :: 0 <= i < |ranges| && Fits(ranges[i], parents) && ranges[i].start <= address < ranges[i].end
  }

  /** The node holds an address exactly when a listed range that fits does; the rest is the
      entry's. */
  ghost predicate Mirrors(node: InlineNode, tag: Tag, parents: seq<AddressRange>)
    requires tag.InlinedTag?
  {
    && tag.name == Some(node.name) && node.callFile == tag.callFile && node.callLine == tag.callLine && node.children == []
    && Gapped(node.ranges)
    && (forall range :: range in node.ranges ==> range.start < range.end)
    && forall address: uint64 :: InSome(node.ranges, address) <==> InFitting(tag.ranges, parents, address)
  }

  lemma HoldsAt(ranges: seq<AddressRange>, address: uint64)
    ensures Holds(ranges, address) <==> InSome(ranges, address)
  {
    hide Holds;
    HoldsSome(ranges, address);
    if Holds(ranges, address) {
      var range :| range in ranges && range.start <= address < range.end;
      var i :| 0 <= i < |ranges| && ranges[i] == range;
    }
    if i :| 0 <= i < |ranges| && ranges[i].start <= address < ranges[i].end {
      assert ranges[i] in ranges;
    }
  }

  lemma UsableHolds(ranges: seq<AddressRange>, parents: seq<AddressRange>, address: uint64)
    ensures Holds(Usable(ranges, parents), address) <==> InFitting(ranges, parents, address)
  {
    hide Holds, Fits, Usable;
    var usable := Usable(ranges, parents);
    UsableFits(ranges, parents);
    HoldsSome(usable, address);
    if Holds(usable, address) {
      var range :| range in usable && range.start <= address < range.end;
      var i :| 0 <= i < |ranges| && ranges[i] == range;
    }
    if i :| 0 <= i < |ranges| && Fits(ranges[i], parents) && ranges[i].start <= address < ranges[i].end {
      assert ranges[i] in ranges && ranges[i] in usable;
    }
  }

  lemma CoalescedSome(ranges: seq<AddressRange>)
    ensures Coalesce(ranges) == [] <==> ranges == []
  {
    hide CoalesceAfter;
    if ranges != [] {
      var sorted := Sort(RangeLeq, ranges);
      AfterSome(sorted[0], sorted[1..]);
    }
  }

  lemma {:induction false} AfterSome(last: AddressRange, ranges: seq<AddressRange>)
    ensures CoalesceAfter(last, ranges) != []
    decreases |ranges|
  {
    if ranges != [] && ranges[0].start <= last.end {
      AfterSome(AddressRange(last.start, Max(last.end, ranges[0].end)), ranges[1..]);
    }
  }

  /** An inlined entry makes a node exactly when it is named and some listed range fits into
      a parent range; nothing else makes one. */
  lemma NodeIsExact(die: Die, parents: seq<AddressRange>)
    requires Gapped(parents)
    ensures NodeOf(die, parents).Some? <==>
      die.tag.InlinedTag? && die.tag.name.Some? && exists i :: 0 <= i < |die.tag.ranges| && Fits(die.tag.ranges[i], parents)
    ensures NodeOf(die, parents).Some? ==> Mirrors(NodeOf(die, parents).value, die.tag, parents)
  {
    hide Fits, Usable, Coalesce, Gapped, Holds, InSome, InFitting, Within;
    if die.tag.InlinedTag? {
      var tag := die.tag;
      var usable := Usable(tag.ranges, parents);
      UsableFits(tag.ranges, parents);
      CoalescedSome(usable);
      SomeUsable(usable, tag.ranges, parents);
      CoalescedInsideParents(tag.ranges, parents);
      forall address: uint64
        ensures InSome(Coalesce(usable), address) <==> InFitting(tag.ranges, parents, address)
      {
        CoalescedHolds(usable, address);
        UsableHolds(tag.ranges, parents, address);
        HoldsAt(Coalesce(usable), address);
      }
    }
  }

  lemma SomeUsable(usable: seq<AddressRange>, ranges: seq<AddressRange>, parents: seq<AddressRange>)
    requires forall range :: range in usable <==> range in ranges && Fits(range, parents)
    ensures usable != [] <==> exists i :: 0 <= i < |ranges| && Fits(ranges[i], parents)
  {
    hide Fits;
    if usable != [] {
      assert usable[0] in usable;
      var i :| 0 <= i < |ranges| && ranges[i] == usable[0];
    }
    if i :| 0 <= i < |ranges| && Fits(ranges[i], parents) {
      assert ranges[i] in usable;
    }
  }

  /** A call-site entry gives a site exactly when its return address lies in the function;
      nothing else gives one. */
  lemma SiteIsExact(die: Die, range: AddressRange)
    ensures Own(die, range) != [] <==>
      die.tag.CallSiteTag? && die.tag.returnPc.Some? && range.start <= die.tag.returnPc.value < range.end
    ensures Own(die, range) != [] ==>
      && |Own(die, range)| == 1
      && Own(die, range)[0].returnOffset + range.start == die.tag.returnPc.value
      && Own(die, range)[0].flags == 0 && Own(die, range)[0].matchRegex == die.tag.patterns
  {
  }

  // -------------------------------------------------------------------- the forest

  /** Entry `i` is one of those below entry `j`. */
  ghost predicate BelowEntry(dies: seq<Die>, j: nat, i: nat) {
    j < i < |dies| && forall k :: j < k <= i ==> dies[k].depth > dies[j].depth
  }

  /** The last entry before `n` that `i` is below and that makes a node. */
  ghost function Nearest(dies: seq<Die>, parents: seq<AddressRange>, i: nat, n: nat): (nearest: Option<nat>)
    requires n <= i < |dies|
    ensures nearest.Some? ==> nearest.value < n && BelowEntry(dies, nearest.value, i) && Made(dies, parents, nearest.value).Some?
    decreases i, n
  {
    if n == 0 then None
    else if BelowEntry(dies, n - 1, i) && Made(dies, parents, n - 1).Some? then Some(n - 1)
    else Nearest(dies, parents, i, n - 1)
  }

  /** The node entry `i` makes inside the ranges of the nearest node above it. */
  ghost function Made(dies: seq<Die>, parents: seq<AddressRange>, i: nat): Option<InlineNode>
    requires i < |dies|
    decreases i, i + 1
  {
    match Nearest(dies, parents, i, i)
    case None => NodeOf(dies[i], parents)
    case Some(j) => NodeOf(dies[i], Made(dies, parents, j).value.ranges)
  }

  /** How many nodes are above that of entry `i`. */
  ghost function Level(dies: seq<Die>, parents: seq<AddressRange>, i: nat): nat
    requires i < |dies|
  {
    match Nearest(dies, parents, i, i)
    case None => 0
    case Some(j) => 1 + Level(dies, parents, j)
  }

  /** The nodes that the entries from `low` to `high` make, each with its level. */
  ghost function MadeBetween(dies: seq<Die>, parents: seq<AddressRange>, level: nat, low: nat, high: nat): seq<(InlineNode, nat)>
    requires low <= high <= |dies|
    decreases high - low
  {
    if low == high then [] else MadeBy(dies, parents, level, low) + MadeBetween(dies, parents, level, low + 1, high)
  }

  ghost function MadeBy(dies: seq<Die>, parents: seq<AddressRange>, level: nat, i: nat): seq<(InlineNode, nat)>
    requires i < |dies|
  {
    match Made(dies, parents, i) case None => [] case Some(node) => [(node, level + Level(dies, parents, i))]
  }

  /** The nodes of a forest from the root down, each with its level. */
  function Preorder(forest: seq<InlineNode>, level: nat): seq<(InlineNode, nat)>
    decreases forest
  {
    if forest == [] then []
    else [(forest[0].(children := []), level)] + Preorder(forest[0].children, level + 1) + Preorder(forest[1..], level)
  }

  lemma {:induction false} PreorderSplits(a: seq<InlineNode>, b: seq<InlineNode>, level: nat)
    ensures Preorder(a + b, level) == Preorder(a, level) + Preorder(b, level)
    decreases |a|
  {
    if a == [] {
      assert a + b == b;
    } else {
      assert (a + b)[0] == a[0] && (a + b)[1..] == a[1..] + b;
      PreorderSplits(a[1..], b, level);
      var first := [(a[0].(children := []), level)] + Preorder(a[0].children, level + 1);
      assert first + (Preorder(a[1..], level) + Preorder(b, level)) == first + Preorder(a[1..], level) + Preorder(b, level);
    }
  }

  lemma {:induction false} MadeSplits(dies: seq<Die>, parents: seq<AddressRange>, level: nat, low: nat, mid: nat, high: nat)
    requires low <= mid <= high <= |dies|
    ensures MadeBetween(dies, parents, level, low, high)
         == MadeBetween(dies, parents, level, low, mid) + MadeBetween(dies, parents, level, mid, high)
    decreases mid - low
  {
    hide MadeBy;
    if low < mid {
      MadeSplits(dies, parents, level, low + 1, mid, high);
      var own := MadeBy(dies, parents, level, low);
      assert own + (MadeBetween(dies, parents, level, low + 1, mid) + MadeBetween(dies, parents, level, mid, high))
          == own + MadeBetween(dies, parents, level, low + 1, mid) + MadeBetween(dies, parents, level, mid, high);
    } else {
      assert [] + MadeBetween(dies, parents, level, mid, high) == MadeBetween(dies, parents, level, mid, high);
    }
  }

  // Entries below the first one, seen from there.

  /** The ranges that entries below the first one are inside of, and how deep. */
  ghost function InnerRanges(dies: seq<Die>, parents: seq<AddressRange>): seq<AddressRange>
    requires dies != []
  {
    match NodeOf(dies[0], parents) case None => parents case Some(node) => node.ranges
  }

  ghost function InnerLevel(dies: seq<Die>, parents: seq<AddressRange>): nat
    requires dies != []
  {
    if NodeOf(dies[0], parents).Some? then 1 else 0
  }

  lemma FirstMade(dies: seq<Die>, parents: seq<AddressRange>)
    requires dies != []
    ensures Made(dies, parents, 0) == NodeOf(dies[0], parents) && Level(dies, parents, 0) == 0
  {
    hide NodeOf;
    assert Nearest(dies, parents, 0, 0) == None;
  }

  lemma InsideBelow(dies: seq<Die>, k: nat, i: nat, j: nat)
    requires dies != [] && k == SubtreeEnd(dies[1..], dies[0].depth) && i < k
    ensures BelowEntry(dies, 1 + j, 1 + i) <==> BelowEntry(dies[1..][..k], j, i)
    ensures BelowEntry(dies, 0, 1 + i)
  {
    hide SubtreeEnd;
    var inside := dies[1..][..k];
    assert forall m :: 0 <= m < k ==> inside[m] == dies[m + 1] == dies[1..][m];
    if BelowEntry(dies, 1 + j, 1 + i) {
      forall m | j < m <= i
        ensures inside[m].depth > inside[j].depth
      {
        assert dies[m + 1].depth > dies[1 + j].depth;
      }
    }
    if BelowEntry(inside, j, i) {
      forall m | 1 + j < m <= 1 + i
        ensures dies[m].depth > dies[1 + j].depth
      {
        assert inside[m - 1].depth > inside[j].depth;
      }
    }
    forall m | 0 < m <= 1 + i
      ensures dies[m].depth > dies[0].depth
    {
      assert dies[1..][m - 1].depth > dies[0].depth;
    }
  }

  lemma {:induction false} InsideNearest(dies: seq<Die>, parents: seq<AddressRange>, k: nat, i: nat, n: nat)
    requires dies != [] && k == SubtreeEnd(dies[1..], dies[0].depth) && n <= i < k
    ensures Nearest(dies, parents, 1 + i, 1 + n)
      == match Nearest(dies[1..][..k], InnerRanges(dies, parents), i, n)
         case Some(j) => Some(1 + j)
         case None => if NodeOf(dies[0], parents).Some? then Some(0) else None
    decreases i, n
  {
    hide NodeOf, BelowEntry, Made, SubtreeEnd;
    var inside, inner := dies[1..][..k], InnerRanges(dies, parents);
    if n == 0 {
      InsideBelow(dies, k, i, 0);
      FirstMade(dies, parents);
      assert Nearest(dies, parents, 1 + i, 0) == None && Nearest(inside, inner, i, 0) == None;
    } else {
      InsideBelow(dies, k, i, n - 1);
      InsideMade(dies, parents, k, n - 1);
      InsideNearest(dies, parents, k, i, n - 1);
    }
  }

  lemma {:induction false} InsideMade(dies: seq<Die>, parents: seq<AddressRange>, k: nat, i: nat)
    requires dies != [] && k == SubtreeEnd(dies[1..], dies[0].depth) && i < k
    ensures Made(dies, parents, 1 + i) == Made(dies[1..][..k], InnerRanges(dies, parents), i)
    ensures Level(dies, parents, 1 + i) == InnerLevel(dies, parents) + Level(dies[1..][..k], InnerRanges(dies, parents), i)
    decreases i, i + 1
  {
    hide NodeOf, BelowEntry, SubtreeEnd;
    var inside, inner := dies[1..][..k], InnerRanges(dies, parents);
    InsideNearest(dies, parents, k, i, i);
    FirstMade(dies, parents);
    match Nearest(inside, inner, i, i)
    case Some(j) => InsideMade(dies, parents, k, j);
    case None =>
  }

  /** Entries that make the same nodes at the same levels list the same. */
  lemma {:induction false} SameBetween(
    dies: seq<Die>, parents: seq<AddressRange>, level: nat, shift: nat,
    others: seq<Die>, otherParents: seq<AddressRange>, otherLevel: nat, low: nat, high: nat)
    requires low <= high <= |others| && shift + high <= |dies|
    requires forall i :: low <= i < high ==>
      MadeBy(others, otherParents, otherLevel, i) == MadeBy(dies, parents, level, shift + i)
    ensures MadeBetween(dies, parents, level, shift + low, shift + high) == MadeBetween(others, otherParents, otherLevel, low, high)
    decreases high - low
  {
    hide MadeBy;
    if low < high {
      SameBetween(dies, parents, level, shift, others, otherParents, otherLevel, low + 1, high);
    }
  }

  lemma InsideBetween(dies: seq<Die>, parents: seq<AddressRange>, level: nat, k: nat)
    requires dies != [] && k == SubtreeEnd(dies[1..], dies[0].depth)
    ensures MadeBetween(dies, parents, level, 1, 1 + k)
         == MadeBetween(dies[1..][..k], InnerRanges(dies, parents), level + InnerLevel(dies, parents), 0, k)
  {
    hide Made, Level, SubtreeEnd, InnerLevel, InnerRanges, MadeBetween;
    var inside, inner, innerLevel := dies[1..][..k], InnerRanges(dies, parents), level + InnerLevel(dies, parents);
    forall i | 0 <= i < k
      ensures MadeBy(inside, inner, innerLevel, i) == MadeBy(dies, parents, level, 1 + i)
    {
      InsideMade(dies, parents, k, i);
    }
    SameBetween(dies, parents, level, 1, inside, inner, innerLevel, 0, k);
  }

  // Entries after the first subtree, seen from there.

  lemma AfterBelow(dies: seq<Die>, k: nat, i: nat, j: nat)
    requires dies != [] && k == SubtreeEnd(dies[1..], dies[0].depth) && 1 + k + i < |dies|
    ensures BelowEntry(dies, 1 + k + j, 1 + k + i) <==> BelowEntry(dies[1..][k..], j, i)
    ensures j <= k ==> !BelowEntry(dies, j, 1 + k + i)
  {
    hide SubtreeEnd;
    var after := dies[1..][k..];
    assert forall m :: 0 <= m < |after| ==> after[m] == dies[1 + k + m];
    if BelowEntry(dies, 1 + k + j, 1 + k + i) {
      forall m | j < m <= i
        ensures after[m].depth > after[j].depth
      {
        assert dies[1 + k + m].depth > dies[1 + k + j].depth;
      }
    }
    if BelowEntry(after, j, i) {
      forall m | 1 + k + j < m <= 1 + k + i
        ensures dies[m].depth > dies[1 + k + j].depth
      {
        assert after[m - 1 - k].depth > after[j].depth;
      }
    }
    assert dies[1..][k] == dies[1 + k];
    assert 0 < j <= k ==> dies[1..][j - 1] == dies[j];
    assert j <= k ==> dies[1 + k].depth <= dies[j].depth;
  }

  lemma {:induction false} NoneAbove(dies: seq<Die>, parents: seq<AddressRange>, k: nat, i: nat, n: nat)
    requires dies != [] && k == SubtreeEnd(dies[1..], dies[0].depth) && 1 + k + i < |dies| && n <= 1 + k
    ensures Nearest(dies, parents, 1 + k + i, n) == None
    decreases n
  {
    hide BelowEntry, Made, SubtreeEnd;
    if n > 0 {
      AfterBelow(dies, k, i, n - 1);
      NoneAbove(dies, parents, k, i, n - 1);
    }
  }

  lemma {:induction false} AfterNearest(dies: seq<Die>, parents: seq<AddressRange>, k: nat, i: nat, n: nat)
    requires dies != [] && k == SubtreeEnd(dies[1..], dies[0].depth) && 1 + k + i < |dies| && n <= i
    ensures Nearest(dies, parents, 1 + k + i, 1 + k + n)
      == match Nearest(dies[1..][k..], parents, i, n) case Some(j) => Some(1 + k + j) case None => None
    decreases i, n
  {
    hide BelowEntry, Made, SubtreeEnd;
    if n == 0 {
      NoneAbove(dies, parents, k, i, 1 + k);
      assert Nearest(dies[1..][k..], parents, i, 0) == None;
    } else {
      AfterBelow(dies, k, i, n - 1);
      AfterMade(dies, parents, k, n - 1);
      AfterNearest(dies, parents, k, i, n - 1);
    }
  }

  lemma {:induction false} AfterMade(dies: seq<Die>, parents: seq<AddressRange>, k: nat, i: nat)
    requires dies != [] && k == SubtreeEnd(dies[1..], dies[0].depth) && 1 + k + i < |dies|
    ensures Made(dies, parents, 1 + k + i) == Made(dies[1..][k..], parents, i)
    ensures Level(dies, parents, 1 + k + i) == Level(dies[1..][k..], parents, i)
    decreases i, i + 1
  {
    hide NodeOf, BelowEntry, SubtreeEnd;
    AfterNearest(dies, parents, k, i, i);
    match Nearest(dies[1..][k..], parents, i, i)
    case Some(j) => AfterMade(dies, parents, k, j);
    case None =>
  }

  lemma AfterBetween(dies: seq<Die>, parents: seq<AddressRange>, level: nat, k: nat)
    requires dies != [] && k == SubtreeEnd(dies[1..], dies[0].depth)
    ensures 1 + k <= |dies|
    ensures MadeBetween(dies, parents, level, 1 + k, |dies|) == MadeBetween(dies[1..][k..], parents, level, 0, |dies[1..][k..]|)
  {
    hide Made, Level, SubtreeEnd, MadeBetween;
    var after := dies[1..][k..];
    forall i | 0 <= i < |after|
      ensures MadeBy(after, parents, level, i) == MadeBy(dies, parents, level, 1 + k + i)
    {
      AfterMade(dies, parents, k, i);
    }
    SameBetween(dies, parents, level, 1 + k, after, parents, level, 0, |after|);
  }

  lemma NodeBare(die: Die, parents: seq<AddressRange>)
    ensures NodeOf(die, parents).Some? ==> NodeOf(die, parents).value.children == []
  {
    hide Coalesce, Usable;
  }

  /** From the root down, the forest holds the nodes the entries make, in entry order, each
      below the nearest node made by an entry above it. */
  lemma {:induction false} ForestIsExact(dies: seq<Die>, parents: seq<AddressRange>, level: nat)
    ensures Preorder(Forest(dies, parents), level) == MadeBetween(dies, parents, level, 0, |dies|)
    decreases |dies|
  {
    hide NodeOf, Made, Level, SubtreeEnd, FirstTrees, MadeBetween, Forest;
    if dies == [] {
      NothingMade(parents, level);
    } else {
      var k := SubtreeEnd(dies[1..], dies[0].depth);
      var inside, after := dies[1..][..k], dies[1..][k..];
      ForestUnfolds(dies, parents);
      PreorderSplits(FirstTrees(dies, parents), Forest(after, parents), level);
      ForestIsExact(inside, InnerRanges(dies, parents), level + InnerLevel(dies, parents));
      ForestIsExact(after, parents, level);
      MadeSplits(dies, parents, level, 0, 1 + k, |dies|);
      MadeSplits(dies, parents, level, 0, 1, 1 + k);
      InsideBetween(dies, parents, level, k);
      AfterBetween(dies, parents, level, k);
      NodeBare(dies[0], parents);
      FirstPreorder(dies, parents, level, k);
    }
  }

  lemma NothingMade(parents: seq<AddressRange>, level: nat)
    ensures Preorder(Forest([], parents), level) == MadeBetween([], parents, level, 0, 0)
  {
  }

  lemma FirstPreorder(dies: seq<Die>, parents: seq<AddressRange>, level: nat, k: nat)
    requires dies != [] && k == SubtreeEnd(dies[1..], dies[0].depth)
    requires NodeOf(dies[0], parents).Some? ==> NodeOf(dies[0], parents).value.children == []
    ensures
      var inside := Preorder(Forest(dies[1..][..k], InnerRanges(dies, parents)), level + InnerLevel(dies, parents));
      Preorder(FirstTrees(dies, parents), level) == MadeBetween(dies, parents, level, 0, 1) + inside
  {
    hide NodeOf, Made, Level, SubtreeEnd, Forest;
    FirstMade(dies, parents);
    var own := MadeBy(dies, parents, level, 0);
    assert MadeBetween(dies, parents, level, 0, 1) == own + MadeBetween(dies, parents, level, 1, 1) == own;
    match NodeOf(dies[0], parents)
    case None =>
      var inside := Preorder(Forest(dies[1..][..k], parents), level);
      assert [] + inside == inside;
    case Some(node) =>
      var tree := node.(children := Forest(dies[1..][..k], node.ranges));
      assert [tree][1..] == [] && Preorder([], level) == [];
      assert tree.(children := []) == node;
      assert [(node, level)] + Preorder(tree.children, level + 1) + [] == [(node, level)] + Preorder(tree.children, level + 1);
  }

  // -------------------------------------------------------------------- call sites

  function Shift(order: seq<nat>, n: nat): seq<nat> {
    seq(|order|, p requires 0 <= p < |order| => n + order[p])
  }

  /** The entries in the order in which they are left. */
  function LeavingOrder(dies: seq<Die>): seq<nat>
    decreases |dies|
  {
    if dies == [] then []
    else
      var k := SubtreeEnd(dies[1..], dies[0].depth);
      Shift(LeavingOrder(dies[1..][..k]), 1) + [0] + Shift(LeavingOrder(dies[1..][k..]), 1 + k)
  }

  /** Entry `i` is left before entry `j`: it is below it, or comes earlier and has it not
      below. */
  ghost predicate LeftBefore(dies: seq<Die>, i: nat, j: nat) {
    BelowEntry(dies, j, i) || (i < j && !BelowEntry(dies, i, j))
  }

  /** Each entry once, each before those that are left later. */
  ghost predicate Leaves(dies: seq<Die>, order: seq<nat>) {
    && |order| == |dies| && (forall p :: 0 <= p < |order| ==> order[p] < |dies|)
    && forall p, q :: 0 <= p < q < |order| ==> order[p] != order[q] && LeftBefore(dies, order[p], order[q])
  }

  lemma LeavesJoin(dies: seq<Die>, k: nat, inner: seq<nat>, outer: seq<nat>)
    requires dies != [] && k == SubtreeEnd(dies[1..], dies[0].depth)
    requires Leaves(dies[1..][..k], inner) && Leaves(dies[1..][k..], outer)
    ensures Leaves(dies, Shift(inner, 1) + [0] + Shift(outer, 1 + k))
  {
    hide SubtreeEnd, BelowEntry;
    var order := Shift(inner, 1) + [0] + Shift(outer, 1 + k);
    forall p, q | 0 <= p < q < |order|
      ensures order[p] != order[q] && LeftBefore(dies, order[p], order[q])
    {
      if q < k {
        InsideBelow(dies, k, inner[p], inner[q]);
        InsideBelow(dies, k, inner[q], inner[p]);
        assert LeftBefore(dies[1..][..k], inner[p], inner[q]);
      } else if q == k {
        InsideBelow(dies, k, inner[p], 0);
      } else if p <= k {
        AfterBelow(dies, k, outer[q - k - 1], order[p]);
      } else {
        AfterBelow(dies, k, outer[p - k - 1], outer[q - k - 1]);
        AfterBelow(dies, k, outer[q - k - 1], outer[p - k - 1]);
        assert LeftBefore(dies[1..][k..], outer[p - k - 1], outer[q - k - 1]);
      }
    }
  }

  lemma {:induction false} LeavingIsOrder(dies: seq<Die>)
    ensures Leaves(dies, LeavingOrder(dies))
    decreases |dies|
  {
    hide SubtreeEnd, Leaves;
    if dies == [] {
      NothingLeaves();
    } else {
      var k := SubtreeEnd(dies[1..], dies[0].depth);
      LeavingIsOrder(dies[1..][..k]);
      LeavingIsOrder(dies[1..][k..]);
      LeavesJoin(dies, k, LeavingOrder(dies[1..][..k]), LeavingOrder(dies[1..][k..]));
    }
  }

  lemma NothingLeaves()
    ensures Leaves([], [])
  {
  }

  /** The call sites of the entries in this order. */
  function SitesIn(dies: seq<Die>, order: seq<nat>, range: AddressRange): seq<CallSite> {
    if order == [] then []
    else (if order[0] < |dies| then Own(dies[order[0]], range) else []) + SitesIn(dies, order[1..], range)
  }

  lemma {:induction false} SitesAppend(dies: seq<Die>, a: seq<nat>, b: seq<nat>, range: AddressRange)
    ensures SitesIn(dies, a + b, range) == SitesIn(dies, a, range) + SitesIn(dies, b, range)
    decreases |a|
  {
    hide Own;
    if a == [] {
      assert a + b == b;
    } else {
      assert (a + b)[0] == a[0] && (a + b)[1..] == a[1..] + b;
      SitesAppend(dies, a[1..], b, range);
    }
  }

  lemma {:induction false} SitesShift(dies: seq<Die>, part: seq<Die>, n: nat, order: seq<nat>, range: AddressRange)
    requires n + |part| <= |dies| && forall i :: 0 <= i < |part| ==> part[i] == dies[n + i]
    requires forall p :: 0 <= p < |order| ==> order[p] < |part|
    ensures SitesIn(dies, Shift(order, n), range) == SitesIn(part, order, range)
    decreases |order|
  {
    hide Own;
    if order != [] {
      assert Shift(order, n)[0] == n + order[0] && Shift(order, n)[1..] == Shift(order[1..], n);
      SitesShift(dies, part, n, order[1..], range);
    }
  }

  /** The call sites come in the order in which their entries are left. */
  lemma {:induction false} PostorderIsLeaving(dies: seq<Die>, range: AddressRange)
    ensures Postorder(dies, range) == SitesIn(dies, LeavingOrder(dies), range)
    decreases |dies|
  {
    hide Own, SubtreeEnd, Leaves, SitesIn, Postorder;
    if dies == [] {
      NoSites(range);
    } else {
      var k := SubtreeEnd(dies[1..], dies[0].depth);
      var inside, after := dies[1..][..k], dies[1..][k..];
      var inner, outer := LeavingOrder(inside), LeavingOrder(after);
      PostorderUnfolds(dies, range);
      PostorderIsLeaving(inside, range);
      PostorderIsLeaving(after, range);
      OrderBounds(inside);
      OrderBounds(after);
      SitesAppend(dies, Shift(inner, 1) + [0], Shift(outer, 1 + k), range);
      SitesAppend(dies, Shift(inner, 1), [0], range);
      SitesShift(dies, inside, 1, inner, range);
      SitesShift(dies, after, 1 + k, outer, range);
      OneSite(dies, range);
    }
  }

  lemma NoSites(range: AddressRange)
    ensures Postorder([], range) == SitesIn([], [], range)
  {
  }

  lemma OrderBounds(dies: seq<Die>)
    ensures forall p :: 0 <= p < |LeavingOrder(dies)| ==> LeavingOrder(dies)[p] < |dies|
  {
    hide LeftBefore, LeavingOrder;
    LeavingIsOrder(dies);
  }

  lemma OneSite(dies: seq<Die>, range: AddressRange)
    requires dies != []
    ensures SitesIn(dies, [0], range) == Own(dies[0], range)
  {
    hide Own;
    assert [0 as nat][1..] == [];
  }
}
