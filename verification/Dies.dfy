/** The debugging-entry walk of src/convert/dwarf/dies.rs: two stacks build the
    inline forest and the call sites of a function. */
module Dies {
  import opened Words
  import opened Wrappers
  import opened Wire
  import opened Model
  import opened Validation
  import opened Sorting

  /** What the walk reads of an entry; references and attribute forms are resolved. */
  datatype Tag =
    | CallSiteTag(returnPc: Option<uint64>, patterns: seq<seq<uint8>>)
    | InlinedTag(name: Option<seq<uint8>>, ranges: seq<AddressRange>, callFile: FileIndex, callLine: uint32)
    | OtherTag

  datatype Die = Die(depth: int, tag: Tag)

  // ------------------------------------------------------------------ range filtering

  predicate RangeLeq(a: AddressRange, b: AddressRange) {
    a.start < b.start || (a.start == b.start && a.end <= b.end)
  }

  /** Non-empty ranges inside some parent range. */
  function Usable(ranges: seq<AddressRange>, parents: seq<AddressRange>): seq<AddressRange> {
    if ranges == [] then []
    else (if ranges[0].start < ranges[0].end && Within(ranges[0], parents) then [ranges[0]] else []) + Usable(ranges[1..], parents)
  }

  /** Ranges that touch or overlap the last one grow it. */
  function CoalesceAfter(last: AddressRange, ranges: seq<AddressRange>): seq<AddressRange>
    decreases |ranges|
  {
    if ranges == [] then [last]
    else if ranges[0].start <= last.end then
      CoalesceAfter(AddressRange(last.start, Max(last.end, ranges[0].end)), ranges[1..])
    else [last] + CoalesceAfter(ranges[0], ranges[1..])
  }

  function Coalesce(ranges: seq<AddressRange>): seq<AddressRange> {
    var sorted := Sort(RangeLeq, ranges);
    if sorted == [] then [] else CoalesceAfter(sorted[0], sorted[1..])
  }

  /** What is kept so far, the last of it still growing over the rest. */
  function Grown(kept: seq<AddressRange>, rest: seq<AddressRange>): seq<AddressRange>
    requires kept != []
  {
    kept[..|kept| - 1] + CoalesceAfter(kept[|kept| - 1], rest)
  }

  lemma GrownStep(kept: seq<AddressRange>, next: AddressRange, rest: seq<AddressRange>)
    requires kept != []
    ensures
      var last := |kept| - 1;
      var longer := AddressRange(kept[last].start, Max(kept[last].end, next.end));
      Grown(kept, [next] + rest) == if next.start <= kept[last].end then Grown(kept[last := longer], rest) else Grown(kept + [next], rest)
  {
    var last := |kept| - 1;
    assert ([next] + rest)[1..] == rest;
    if next.start <= kept[last].end {
      assert kept[last := AddressRange(kept[last].start, Max(kept[last].end, next.end))][..last] == kept[..last];
    } else {
      assert (kept + [next])[..|kept|] == kept[..last] + [kept[last]];
    }
  }

  method CoalesceRanges(ranges: seq<AddressRange>) returns (kept: seq<AddressRange>)
    ensures kept == Coalesce(ranges)
  {
    hide Sort, CoalesceAfter, Grown, RangeLeq;
    var sorted := Sort(RangeLeq, ranges);
    if sorted == [] {
      return [];
    }
    kept := [sorted[0]];
    GrownStarts(sorted);
    for i := 1 to |sorted|
      invariant kept != [] && Grown(kept, sorted[i..]) == Coalesce(ranges)
    {
      assert sorted[i..] == [sorted[i]] + sorted[i + 1..];
      GrownStep(kept, sorted[i], sorted[i + 1..]);
      var last := |kept| - 1;
      if sorted[i].start <= kept[last].end {
        kept := kept[last := AddressRange(kept[last].start, Max(kept[last].end, sorted[i].end))];
      } else {
        kept := kept + [sorted[i]];
      }
    }
    GrownEnds(kept);
  }

  lemma GrownStarts(sorted: seq<AddressRange>)
    requires sorted != []
    ensures Grown([sorted[0]], sorted[1..]) == CoalesceAfter(sorted[0], sorted[1..])
  {
  }

  lemma GrownEnds(kept: seq<AddressRange>)
    requires kept != []
    ensures Grown(kept, []) == kept
  {
  }

  /** Sorted, with a gap after each range. */
  predicate Gapped(ranges: seq<AddressRange>) {
    forall i, j :: 0 <= i < j < |ranges| ==> ranges[i].end < ranges[j].start
  }

  predicate Proper(range: AddressRange, parents: seq<AddressRange>) {
    range.start < range.end && Within(range, parents)
  }

  /** Two ranges that touch lie in the same parent, because parents have gaps. */
  lemma TouchingShareParent(last: AddressRange, next: AddressRange, parents: seq<AddressRange>)
    requires Gapped(parents) && Proper(last, parents) && Proper(next, parents)
    requires last.start <= next.start <= last.end
    ensures Proper(AddressRange(last.start, Max(last.end, next.end)), parents)
  {
    var p :| p in parents && p.ContainsRange(last);
    var q :| q in parents && q.ContainsRange(next);
    var i :| 0 <= i < |parents| && parents[i] == p;
    var j :| 0 <= j < |parents| && parents[j] == q;
    assert p.ContainsRange(AddressRange(last.start, Max(last.end, next.end)));
  }

  lemma {:induction false} CoalescedAfter(last: AddressRange, ranges: seq<AddressRange>, parents: seq<AddressRange>)
    requires Gapped(parents) && Proper(last, parents)
    requires forall range :: range in ranges ==> Proper(range, parents) && last.start <= range.start
    requires SortedBy(RangeLeq, ranges)
    ensures
      var kept := CoalesceAfter(last, ranges);
      && kept != [] && kept[0].start == last.start && Gapped(kept)
      && (forall range :: range in kept ==> Proper(range, parents) && last.start <= range.start)
    decreases |ranges|
  {
    hide Within;
    if ranges != [] {
      var next, rest := ranges[0], ranges[1..];
      assert next in ranges;
      forall range | range in rest
        ensures next.start <= range.start && range in ranges
      {
        var i :| 0 <= i < |rest| && rest[i] == range;
        assert ranges[i + 1] == range && RangeLeq(ranges[0], ranges[i + 1]);
      }
      if next.start <= last.end {
        TouchingShareParent(last, next, parents);
        CoalescedAfter(AddressRange(last.start, Max(last.end, next.end)), rest, parents);
      } else {
        CoalescedAfter(next, rest, parents);
        var tail := CoalesceAfter(next, rest);
        forall j | 0 <= j < |tail|
          ensures last.end < tail[j].start
        {
          assert tail[j] in tail;
        }
      }
    }
  }

  lemma RangeOrder()
    ensures TotalPreorder(RangeLeq)
  {
  }

  lemma {:induction false} UsableProper(ranges: seq<AddressRange>, parents: seq<AddressRange>)
    ensures forall range :: range in Usable(ranges, parents) ==> Proper(range, parents)
  {
    hide Within;
    if ranges != [] {
      UsableProper(ranges[1..], parents);
    }
  }

  /** Each coalesced union lies inside a single parent range, and the unions are
      again sorted with gaps. */
  lemma CoalescedInsideParents(ranges: seq<AddressRange>, parents: seq<AddressRange>)
    requires Gapped(parents)
    ensures Gapped(Coalesce(Usable(ranges, parents)))
    ensures OrderedRanges(Coalesce(Usable(ranges, parents)), parents)
  {
    hide Within, Proper, Gapped, OrderedRanges, CoalesceAfter, RangeLeq, Sort, SortedBy;
    var usable := Usable(ranges, parents);
    var sorted := Sort(RangeLeq, usable);
    UsableProper(ranges, parents);
    RangeOrder();
    SortSorted(RangeLeq, usable);
    SortMembers(RangeLeq, usable);
    NoRangesInside(parents);
    if sorted != [] {
      SortedCoalesced(sorted, parents);
    }
  }

  lemma NoRangesInside(parents: seq<AddressRange>)
    ensures Gapped([]) && OrderedRanges([], parents)
  {
  }

  lemma SortedCoalesced(sorted: seq<AddressRange>, parents: seq<AddressRange>)
    requires sorted != [] && SortedBy(RangeLeq, sorted) && Gapped(parents)
    requires forall range :: range in sorted ==> Proper(range, parents)
    ensures Gapped(CoalesceAfter(sorted[0], sorted[1..])) && OrderedRanges(CoalesceAfter(sorted[0], sorted[1..]), parents)
  {
    hide Within;
    assert sorted[0] in sorted;
    forall range | range in sorted[1..]
      ensures Proper(range, parents) && sorted[0].start <= range.start
    {
      var i :| 0 <= i < |sorted[1..]| && sorted[1..][i] == range;
      assert sorted[i + 1] == range && sorted[i + 1] in sorted && RangeLeq(sorted[0], sorted[i + 1]);
    }
    CoalescedAfter(sorted[0], sorted[1..], parents);
  }

  predicate Holds(ranges: seq<AddressRange>, address: uint64) {
    ranges != [] && (ranges[0].start <= address < ranges[0].end || Holds(ranges[1..], address))
  }

  /** Merging ranges sorted by start keeps exactly the addresses they hold. */
  lemma {:induction false} MergedHolds(last: AddressRange, ranges: seq<AddressRange>, address: uint64)
    requires forall range :: range in ranges ==> last.start <= range.start
    requires forall i, j :: 0 <= i < j < |ranges| ==> ranges[i].start <= ranges[j].start
    ensures Holds(CoalesceAfter(last, ranges), address) == (last.start <= address < last.end || Holds(ranges, address))
    decreases |ranges|
  {
    if ranges == [] {
      assert [last][1..] == [];
    } else {
      var next, rest := ranges[0], ranges[1..];
      assert next in ranges;
      forall range | range in rest
        ensures next.start <= range.start && range in ranges
      {
        var i :| 0 <= i < |rest| && rest[i] == range;
        assert ranges[i + 1] == range;
      }
      if next.start <= last.end {
        MergedHolds(AddressRange(last.start, Max(last.end, next.end)), rest, address);
      } else {
        MergedHolds(next, rest, address);
        assert ([last] + CoalesceAfter(next, rest))[1..] == CoalesceAfter(next, rest);
      }
    }
  }

  lemma {:induction false} HoldsSome(ranges: seq<AddressRange>, address: uint64)
    ensures Holds(ranges, address) <==> exists range :: range in ranges && range.start <= address < range.end
  {
    if ranges != [] {
      HoldsSome(ranges[1..], address);
    }
  }

  /** Coalescing keeps exactly the addresses the ranges hold, whatever their order. */
  lemma CoalescedHolds(ranges: seq<AddressRange>, address: uint64)
    ensures Holds(Coalesce(ranges), address) == Holds(ranges, address)
  {
    hide Holds, CoalesceAfter, RangeLeq, Sort, SortedBy;
    var sorted := Sort(RangeLeq, ranges);
    RangeOrder();
    SortSorted(RangeLeq, ranges);
    SortMembers(RangeLeq, ranges);
    HoldsSome(ranges, address);
    HoldsSome(sorted, address);
    if sorted != [] {
      SortedHolds(sorted, address);
    } else {
      HoldsSome([], address);
    }
  }

  lemma SortedHolds(sorted: seq<AddressRange>, address: uint64)
    requires sorted != [] && SortedBy(RangeLeq, sorted)
    ensures Holds(CoalesceAfter(sorted[0], sorted[1..]), address) == Holds(sorted, address)
  {
    forall i, j | 0 <= i < j < |sorted|
      ensures sorted[i].start <= sorted[j].start
    {
      assert RangeLeq(sorted[i], sorted[j]);
    }
    MergedHolds(sorted[0], sorted[1..], address);
  }

  /** `make_inline_node`: nothing without a name or without a usable range. */
  function MakeInline(tag: Tag, parents: seq<AddressRange>): Option<InlineNode>
    requires tag.InlinedTag?
  {
    var ranges := Coalesce(Usable(tag.ranges, parents));
    if tag.name.None? || ranges == [] then None
    else Some(InlineNode(ranges, tag.name.value, tag.callFile, tag.callLine, []))
  }

  function MakeCallSite(tag: Tag, range: AddressRange): Option<CallSite>
    requires tag.CallSiteTag?
  {
    if tag.returnPc.None? || !range.Contains(tag.returnPc.value) then None
    else Some(CallSite(tag.returnPc.value - range.start, 0, tag.patterns))
  }

  // ----------------------------------------------------- the forest, by recursion

  /** Where the entries deeper than `depth` end. */
  function SubtreeEnd(dies: seq<Die>, depth: int): (k: nat)
    ensures k <= |dies|
    ensures forall i :: 0 <= i < k ==> dies[i].depth > depth
    ensures k < |dies| ==> dies[k].depth <= depth
  {
    if dies == [] || dies[0].depth <= depth then 0 else 1 + SubtreeEnd(dies[1..], depth)
  }

  function NodeOf(die: Die, parents: seq<AddressRange>): Option<InlineNode> {
    if die.tag.InlinedTag? then MakeInline(die.tag, parents) else None
  }

  /** Inline nodes nest as their entries do; an entry that makes no node hands its
      subtree up. */
  function Forest(dies: seq<Die>, parents: seq<AddressRange>): seq<InlineNode>
    decreases |dies|
  {
    if dies == [] then []
    else
      var k := SubtreeEnd(dies[1..], dies[0].depth);
      match NodeOf(dies[0], parents)
      case None => Forest(dies[1..][..k], parents) + Forest(dies[1..][k..], parents)
      case Some(node) =>
        [node.(children := Forest(dies[1..][..k], node.ranges))] + Forest(dies[1..][k..], parents)
  }

  /** Levels of nodes. */
  function Height(nodes: seq<InlineNode>): nat
    decreases nodes
  {
    if nodes == [] then 0 else Max(1 + Height(nodes[0].children), Height(nodes[1..]))
  }

  lemma {:induction false} HeightAppend(a: seq<InlineNode>, b: seq<InlineNode>)
    ensures Height(a + b) == Max(Height(a), Height(b))
    decreases |a|
  {
    if a == [] {
      assert a + b == b;
    } else {
      assert (a + b)[1..] == a[1..] + b;
      HeightAppend(a[1..], b);
    }
  }

  /** Every tree of the forest is one the validator accepts under the parents, as
      long as it is not too deep. */
  lemma {:induction false} ForestAdmissible(dies: seq<Die>, parents: seq<AddressRange>, level: nat)
    requires Gapped(parents) && level + Height(Forest(dies, parents)) <= MAX_INLINE_DEPTH + 1
    ensures forall node :: node in Forest(dies, parents) ==> AdmissibleInline(node, parents, level)
    decreases |dies|
  {
    hide Within, OrderedRanges, Gapped, Coalesce, Usable;
    if dies != [] {
      var k := SubtreeEnd(dies[1..], dies[0].depth);
      var after := Forest(dies[1..][k..], parents);
      match NodeOf(dies[0], parents)
      case None =>
        HeightAppend(Forest(dies[1..][..k], parents), after);
        ForestAdmissible(dies[1..][..k], parents, level);
        ForestAdmissible(dies[1..][k..], parents, level);
      case Some(node) =>
        var first := node.(children := Forest(dies[1..][..k], node.ranges));
        assert ([first] + after)[1..] == after;
        CoalescedInsideParents(dies[0].tag.ranges, parents);
        ForestAdmissible(dies[1..][..k], node.ranges, level + 1);
        ForestAdmissible(dies[1..][k..], parents, level);
    }
  }

  /** Call sites below an entry come before its own. */
  function Postorder(dies: seq<Die>, range: AddressRange): seq<CallSite>
    decreases |dies|
  {
    if dies == [] then []
    else
      var k := SubtreeEnd(dies[1..], dies[0].depth);
      Postorder(dies[1..][..k], range) + Own(dies[0], range) + Postorder(dies[1..][k..], range)
  }

  function Own(die: Die, range: AddressRange): seq<CallSite> {
    if die.tag.CallSiteTag? then
      match MakeCallSite(die.tag, range) case None => [] case Some(site) => [site]
    else []
  }

  // -------------------------------------------------------------- the stack machine

  datatype InlineFrame = InlineFrame(depth: int, node: InlineNode)

  datatype CallSiteFrame = CallSiteFrame(depth: int, site: CallSite)

  function Parents(stack: seq<InlineFrame>, range: AddressRange): seq<AddressRange> {
    if stack == [] then [range] else stack[|stack| - 1].node.ranges
  }

  function Adopt(node: InlineNode, children: seq<InlineNode>): InlineNode {
    node.(children := node.children + children)
  }

  /** `finish_inline` on the innermost frame: the stack below it, and the new root
      if it was the last. */
  function Pop(stack: seq<InlineFrame>): (seq<InlineFrame>, seq<InlineNode>)
    requires stack != []
  {
    var node, below := stack[|stack| - 1].node, stack[..|stack| - 1];
    if below == [] then ([], [node])
    else
      var parent := below[|below| - 1];
      (below[|below| - 1 := parent.(node := Adopt(parent.node, [node]))], [])
  }

  /** The innermost node with more children. */
  function Grow(stack: seq<InlineFrame>, children: seq<InlineNode>): seq<InlineFrame>
    requires stack != []
  {
    var top := stack[|stack| - 1];
    stack[|stack| - 1 := top.(node := Adopt(top.node, children))]
  }

  /** The roots still to come from the frames on the stack and the entries left. */
  function Finished(stack: seq<InlineFrame>, rest: seq<Die>, range: AddressRange): seq<InlineNode>
    decreases |stack|
  {
    if stack == [] then Forest(rest, [range])
    else
      var top := stack[|stack| - 1];
      var k := SubtreeEnd(rest, top.depth);
      var (below, root) := Pop(Grow(stack, Forest(rest[..k], top.node.ranges)));
      root + Finished(below, rest[k..], range)
  }

  /** The call sites still to come. */
  function FinishedSites(stack: seq<CallSiteFrame>, rest: seq<Die>, range: AddressRange): seq<CallSite>
    decreases |stack|
  {
    if stack == [] then Postorder(rest, range)
    else
      var top := stack[|stack| - 1];
      var k := SubtreeEnd(rest, top.depth);
      Postorder(rest[..k], range) + [top.site] + FinishedSites(stack[..|stack| - 1], rest[k..], range)
  }

  lemma {:induction false} SubtreeEndAppend(x: seq<Die>, y: seq<Die>, depth: int)
    requires y == [] || y[0].depth <= depth
    ensures SubtreeEnd(x + y, depth) == SubtreeEnd(x, depth)
    decreases |x|
  {
    if x == [] {
      assert x + y == y;
    } else {
      assert (x + y)[1..] == x[1..] + y;
      SubtreeEndAppend(x[1..], y, depth);
    }
  }

  /** The entry `y` starts with is no deeper than any of `x`. */
  predicate Breaks(x: seq<Die>, y: seq<Die>) {
    y == [] || forall i :: 0 <= i < |x| ==> y[0].depth <= x[i].depth
  }

  lemma TailSplit(x: seq<Die>, y: seq<Die>)
    requires x != [] && Breaks(x, y)
    ensures
      var k := SubtreeEnd(x[1..], x[0].depth);
      && SubtreeEnd((x + y)[1..], x[0].depth) == k
      && (x + y)[0] == x[0]
      && (x + y)[1..][..k] == x[1..][..k] && (x + y)[1..][k..] == x[1..][k..] + y
      && Breaks(x[1..][k..], y)
  {
    var tail := x[1..];
    assert (x + y)[1..] == tail + y;
    SubtreeEndAppend(tail, y, x[0].depth);
    var k := SubtreeEnd(tail, x[0].depth);
    assert (tail + y)[..k] == tail[..k] && (tail + y)[k..] == tail[k..] + y;
  }

  /** What the first entry of a forest contributes. */
  function FirstTrees(dies: seq<Die>, parents: seq<AddressRange>): seq<InlineNode>
    requires dies != []
  {
    var inside := dies[1..][..SubtreeEnd(dies[1..], dies[0].depth)];
    match NodeOf(dies[0], parents)
    case None => Forest(inside, parents)
    case Some(node) => [node.(children := Forest(inside, node.ranges))]
  }

  lemma ForestUnfolds(dies: seq<Die>, parents: seq<AddressRange>)
    requires dies != []
    ensures Forest(dies, parents)
         == FirstTrees(dies, parents) + Forest(dies[1..][SubtreeEnd(dies[1..], dies[0].depth)..], parents)
  {
    hide NodeOf, SubtreeEnd;
  }

  lemma ForestEmpty(parents: seq<AddressRange>)
    ensures Forest([], parents) == []
  {
  }

  lemma SameFirstTrees(x: seq<Die>, y: seq<Die>, parents: seq<AddressRange>)
    requires x != [] && Breaks(x, y)
    ensures FirstTrees(x + y, parents) == FirstTrees(x, parents)
  {
    hide NodeOf, SubtreeEnd, Forest, Breaks;
    TailSplit(x, y);
  }

  /** The forest splits where a new subtree starts. */
  lemma {:induction false} ForestSplits(x: seq<Die>, y: seq<Die>, parents: seq<AddressRange>)
    requires Breaks(x, y)
    ensures Forest(x + y, parents) == Forest(x, parents) + Forest(y, parents)
    decreases |x|
  {
    hide FirstTrees, SubtreeEnd, Breaks, Forest;
    if x == [] {
      ForestEmpty(parents);
      assert x + y == y && [] + Forest(y, parents) == Forest(y, parents);
    } else {
      TailSplit(x, y);
      SameFirstTrees(x, y, parents);
      var k := SubtreeEnd(x[1..], x[0].depth);
      ForestUnfolds(x, parents);
      ForestUnfolds(x + y, parents);
      ForestSplits(x[1..][k..], y, parents);
      var first := FirstTrees(x, parents);
      assert first + (Forest(x[1..][k..], parents) + Forest(y, parents)) == first + Forest(x[1..][k..], parents) + Forest(y, parents);
    }
  }

  lemma PostorderUnfolds(dies: seq<Die>, range: AddressRange)
    requires dies != []
    ensures
      var k := SubtreeEnd(dies[1..], dies[0].depth);
      Postorder(dies, range) == Postorder(dies[1..][..k], range) + Own(dies[0], range) + Postorder(dies[1..][k..], range)
  {
    hide Own, SubtreeEnd;
  }

  lemma {:induction false} PostorderSplits(x: seq<Die>, y: seq<Die>, range: AddressRange)
    requires Breaks(x, y)
    ensures Postorder(x + y, range) == Postorder(x, range) + Postorder(y, range)
    decreases |x|
  {
    hide Own, SubtreeEnd, Breaks, Postorder;
    if x == [] {
      assert x + y == y && Postorder([], range) == [] by {
        PostorderEmpty(range);
      }
      assert [] + Postorder(y, range) == Postorder(y, range);
    } else {
      TailSplit(x, y);
      var k := SubtreeEnd(x[1..], x[0].depth);
      PostorderUnfolds(x, range);
      PostorderUnfolds(x + y, range);
      PostorderSplits(x[1..][k..], y, range);
      var first := Postorder(x[1..][..k], range) + Own(x[0], range);
      assert first + (Postorder(x[1..][k..], range) + Postorder(y, range))
          == first + Postorder(x[1..][k..], range) + Postorder(y, range);
    }
  }

  lemma PostorderEmpty(range: AddressRange)
    ensures Postorder([], range) == []
  {
  }

  // ------------------------------------------------------------ one entry at a time

  lemma SubtreeStarts(dies: seq<Die>, depth: int)
    requires dies == [] || dies[0].depth <= depth
    ensures SubtreeEnd(dies, depth) == 0
  {
  }

  /** Adopting nothing, then popping. */
  lemma GrowNothing(stack: seq<InlineFrame>)
    requires stack != []
    ensures Grow(stack, []) == stack
  {
    var top := stack[|stack| - 1];
    assert top.node.children + [] == top.node.children;
    assert Adopt(top.node, []) == top.node;
  }

  /** A frame whose subtree is over is finished. */
  lemma {:induction false} PopFinishes(stack: seq<InlineFrame>, rest: seq<Die>, range: AddressRange)
    requires stack != [] && (rest == [] || rest[0].depth <= stack[|stack| - 1].depth)
    ensures Finished(stack, rest, range) == Pop(stack).1 + Finished(Pop(stack).0, rest, range)
  {
    hide SubtreeEnd;
    SubtreeStarts(rest, stack[|stack| - 1].depth);
    assert rest[..0] == [] && rest[0..] == rest;
    GrowNothing(stack);
  }

  lemma {:induction false} PopFinishesSite(stack: seq<CallSiteFrame>, rest: seq<Die>, range: AddressRange)
    requires stack != [] && (rest == [] || rest[0].depth <= stack[|stack| - 1].depth)
    ensures FinishedSites(stack, rest, range) == [stack[|stack| - 1].site] + FinishedSites(stack[..|stack| - 1], rest, range)
  {
    hide SubtreeEnd;
    SubtreeStarts(rest, stack[|stack| - 1].depth);
    assert rest[..0] == [] && rest[0..] == rest;
    assert Postorder([], range) + [stack[|stack| - 1].site] == [stack[|stack| - 1].site];
  }

  lemma {:induction false} SubtreeEndUnique(dies: seq<Die>, depth: int, k: nat)
    requires k <= |dies|
    requires forall i :: 0 <= i < k ==> dies[i].depth > depth
    requires k < |dies| ==> dies[k].depth <= depth
    ensures SubtreeEnd(dies, depth) == k
  {
  }

  /** The first subtree among those below a frame. */
  lemma {:induction false} SubtreeWithin(die: Die, rest: seq<Die>, depth: int)
    requires depth < die.depth
    ensures SubtreeEnd(rest, die.depth) <= SubtreeEnd(rest, depth)
    ensures SubtreeEnd([die] + rest, depth) == 1 + SubtreeEnd(rest, depth)
    ensures SubtreeEnd(rest[..SubtreeEnd(rest, depth)], die.depth) == SubtreeEnd(rest, die.depth)
    ensures SubtreeEnd(rest[SubtreeEnd(rest, die.depth)..], depth) == SubtreeEnd(rest, depth) - SubtreeEnd(rest, die.depth)
  {
    hide SubtreeEnd;
    var inner, outer := SubtreeEnd(rest, die.depth), SubtreeEnd(rest, depth);
    SubtreeEndUnique([die] + rest, depth, 1 + outer);
    SubtreeEndUnique(rest[..outer], die.depth, inner);
    SubtreeEndUnique(rest[inner..], depth, outer - inner);
  }

  /** Cutting an entry and what follows where an enclosing subtree ends. */
  lemma {:induction false} CutsWithin(die: Die, rest: seq<Die>, inner: nat, outer: nat)
    requires inner <= outer <= |rest|
    ensures ([die] + rest)[..1 + outer] == [die] + rest[..outer] && ([die] + rest)[1 + outer..] == rest[outer..]
    ensures rest[..outer][..inner] == rest[..inner] && rest[..outer][inner..] == rest[inner..][..outer - inner]
    ensures rest[inner..][outer - inner..] == rest[outer..]
  {
  }

  /** An entry that makes no node changes nothing. */
  lemma {:induction false} SkipFinishes(stack: seq<InlineFrame>, die: Die, rest: seq<Die>, range: AddressRange)
    requires stack != [] ==> stack[|stack| - 1].depth < die.depth
    requires NodeOf(die, Parents(stack, range)).None?
    ensures Finished(stack, [die] + rest, range) == Finished(stack, rest, range)
  {
    hide *;
    ParentsOf(stack, range);
    if stack == [] {
      SkipForest(die, rest, [range]);
      NoInlineFrames([die] + rest, range);
      NoInlineFrames(rest, range);
    } else {
      var top := stack[|stack| - 1];
      var outer := SubtreeEnd(rest, top.depth);
      assert stack == stack[..|stack| - 1] + [top];
      SubtreeWithin(die, rest, top.depth);
      CutsWithin(die, rest, 0, outer);
      SkipForest(die, rest[..outer], top.node.ranges);
      FinishedUnfolds(stack[..|stack| - 1], top, [die] + rest, range);
      FinishedUnfolds(stack[..|stack| - 1], top, rest, range);
    }
  }

  lemma ParentsOf(stack: seq<InlineFrame>, range: AddressRange)
    ensures Parents(stack, range) == if stack == [] then [range] else stack[|stack| - 1].node.ranges
  {
  }

  lemma SkipForest(die: Die, rest: seq<Die>, parents: seq<AddressRange>)
    requires NodeOf(die, parents).None?
    ensures Forest([die] + rest, parents) == Forest(rest, parents)
  {
    hide NodeOf;
    var k := SubtreeEnd(rest, die.depth);
    assert ([die] + rest)[1..] == rest && rest[..k] + rest[k..] == rest;
    ForestSplits(rest[..k], rest[k..], parents);
  }

  lemma NodeForest(die: Die, rest: seq<Die>, parents: seq<AddressRange>, node: InlineNode)
    requires NodeOf(die, parents) == Some(node)
    ensures
      var k := SubtreeEnd(rest, die.depth);
      Forest([die] + rest, parents) == [node.(children := Forest(rest[..k], node.ranges))] + Forest(rest[k..], parents)
  {
    hide NodeOf, SubtreeEnd;
    assert ([die] + rest)[1..] == rest;
  }

  /** Finishing the innermost frame hands its node to the frame below. */
  lemma PopGrown(stack: seq<InlineFrame>, frame: InlineFrame, inside: seq<InlineNode>)
    ensures
      var finished := Adopt(frame.node, inside);
      Pop(Grow(stack + [frame], inside)) == if stack == [] then ([], [finished]) else (Grow(stack, [finished]), [])
  {
    assert Grow(stack + [frame], inside)[..|stack|] == stack;
  }

  lemma {:induction false} FinishedUnfolds(stack: seq<InlineFrame>, frame: InlineFrame, rest: seq<Die>, range: AddressRange)
    ensures
      var k := SubtreeEnd(rest, frame.depth);
      var finished := Adopt(frame.node, Forest(rest[..k], frame.node.ranges));
      Finished(stack + [frame], rest, range)
        == if stack == [] then [finished] + Forest(rest[k..], [range]) else Finished(Grow(stack, [finished]), rest[k..], range)
  {
    hide SubtreeEnd, Forest, Pop, Grow, Adopt;
    var k := SubtreeEnd(rest, frame.depth);
    PopGrown(stack, frame, Forest(rest[..k], frame.node.ranges));
  }

  lemma AdoptTwice(node: InlineNode, a: seq<InlineNode>, b: seq<InlineNode>)
    ensures Adopt(Adopt(node, a), b) == Adopt(node, a + b)
    ensures node.children == [] ==> Adopt(node, a) == node.(children := a)
  {
    assert node.children + a + b == node.children + (a + b);
    assert [] + a == a;
  }

  lemma GrowTop(below: seq<InlineFrame>, top: InlineFrame, children: seq<InlineNode>)
    ensures Grow(below + [top], children) == below + [top.(node := Adopt(top.node, children))]
  {
    hide Adopt;
  }

  lemma {:induction false} PushOnFrame(
    below: seq<InlineFrame>, top: InlineFrame, die: Die, rest: seq<Die>, range: AddressRange, node: InlineNode)
    requires top.depth < die.depth && NodeOf(die, top.node.ranges) == Some(node)
    ensures
      var finished := node.(children := Forest(rest[..SubtreeEnd(rest, die.depth)], node.ranges));
      Finished(below + [top], [die] + rest, range)
        == Finished(Grow(below + [top], [finished]), rest[SubtreeEnd(rest, die.depth)..], range)
  {
    hide *;
    var inner, outer := SubtreeEnd(rest, die.depth), SubtreeEnd(rest, top.depth);
    var finished := node.(children := Forest(rest[..inner], node.ranges));
    var after := Forest(rest[inner..][..SubtreeEnd(rest[inner..], top.depth)], top.node.ranges);
    SubtreeWithin(die, rest, top.depth);
    CutsWithin(die, rest, inner, outer);
    NodeForest(die, rest[..outer], top.node.ranges, node);
    AdoptTwice(top.node, [finished], after);
    GrowTop(below, top, [finished]);
    AdoptKeepsRanges(top.node, [finished]);
    FinishedUnfolds(below, top, [die] + rest, range);
    FinishedUnfolds(below, top.(node := Adopt(top.node, [finished])), rest[inner..], range);
  }

  /** An entry that makes a node opens a frame. */
  lemma {:induction false} PushFinishes(stack: seq<InlineFrame>, die: Die, rest: seq<Die>, range: AddressRange, node: InlineNode)
    requires stack != [] ==> stack[|stack| - 1].depth < die.depth
    requires NodeOf(die, Parents(stack, range)) == Some(node) && node.children == []
    ensures Finished(stack, [die] + rest, range) == Finished(stack + [InlineFrame(die.depth, node)], rest, range)
  {
    hide NodeOf, SubtreeEnd, Forest, Finished, Grow, Adopt;
    AdoptTwice(node, Forest(rest[..SubtreeEnd(rest, die.depth)], node.ranges), []);
    FinishedUnfolds(stack, InlineFrame(die.depth, node), rest, range);
    if stack == [] {
      NodeForest(die, rest, [range], node);
      NoInlineFrames([die] + rest, range);
    } else {
      assert stack == stack[..|stack| - 1] + [stack[|stack| - 1]];
      PushOnFrame(stack[..|stack| - 1], stack[|stack| - 1], die, rest, range, node);
    }
  }

  lemma AdoptKeepsRanges(node: InlineNode, children: seq<InlineNode>)
    ensures Adopt(node, children).ranges == node.ranges
  {
  }

  lemma NoInlineFrames(rest: seq<Die>, range: AddressRange)
    ensures Finished([], rest, range) == Forest(rest, [range])
  {
    hide Forest;
  }

  /** The call sites of one more frame. */
  lemma {:induction false} FinishedSitesUnfolds(stack: seq<CallSiteFrame>, frame: CallSiteFrame, rest: seq<Die>, range: AddressRange)
    ensures
      var k := SubtreeEnd(rest, frame.depth);
      FinishedSites(stack + [frame], rest, range) == Postorder(rest[..k], range) + [frame.site] + FinishedSites(stack, rest[k..], range)
  {
    hide SubtreeEnd, Postorder;
    assert (stack + [frame])[..|stack|] == stack;
  }

  lemma OwnIsSingle(die: Die, range: AddressRange)
    ensures Own(die, range) == [] || Own(die, range) == [Own(die, range)[0]]
  {
  }

  lemma {:induction false} AppendSites(a: seq<CallSite>, b: seq<CallSite>, c: seq<CallSite>, d: seq<CallSite>, e: seq<CallSite>)
    ensures a + b + c + d + e == a + b + (c + d + e)
    ensures a + [] + c == a + c
  {
  }

  lemma AppendMore(a: seq<CallSite>, c: seq<CallSite>, d: seq<CallSite>, e: seq<CallSite>)
    ensures a + c + d + e == a + (c + d + e)
  {
  }

  lemma {:induction false} SiteOnFrame(below: seq<CallSiteFrame>, top: CallSiteFrame, die: Die, rest: seq<Die>, range: AddressRange)
    requires top.depth < die.depth
    ensures
      var inner := SubtreeEnd(rest, die.depth);
      FinishedSites(below + [top], [die] + rest, range)
        == Postorder(rest[..inner], range) + Own(die, range) + FinishedSites(below + [top], rest[inner..], range)
  {
    hide *;
    var inner, outer := SubtreeEnd(rest, die.depth), SubtreeEnd(rest, top.depth);
    SubtreeWithin(die, rest, top.depth);
    CutsWithin(die, rest, inner, outer);
    OwnPostorder(die, rest[..outer], range);
    FinishedSitesUnfolds(below, top, [die] + rest, range);
    FinishedSitesUnfolds(below, top, rest[inner..], range);
    var a, c := Postorder(rest[..inner], range), Postorder(rest[inner..][..outer - inner], range);
    AppendSites(a, Own(die, range), c, [top.site], FinishedSites(below, rest[outer..], range));
  }

  lemma {:induction false} SubtreeOnFrame(below: seq<CallSiteFrame>, top: CallSiteFrame, die: Die, rest: seq<Die>, range: AddressRange)
    requires top.depth < die.depth
    ensures
      var inner := SubtreeEnd(rest, die.depth);
      FinishedSites(below + [top], rest, range)
        == Postorder(rest[..inner], range) + FinishedSites(below + [top], rest[inner..], range)
  {
    hide *;
    var inner, outer := SubtreeEnd(rest, die.depth), SubtreeEnd(rest, top.depth);
    SubtreeWithin(die, rest, top.depth);
    CutsWithin(die, rest, inner, outer);
    OwnPostorder(die, rest[..outer], range);
    FinishedSitesUnfolds(below, top, rest, range);
    FinishedSitesUnfolds(below, top, rest[inner..], range);
    var a, c := Postorder(rest[..inner], range), Postorder(rest[inner..][..outer - inner], range);
    AppendMore(a, c, [top.site], FinishedSites(below, rest[outer..], range));
  }

  lemma {:induction false} SiteAlone(die: Die, rest: seq<Die>, range: AddressRange)
    ensures
      var inner := SubtreeEnd(rest, die.depth);
      && FinishedSites([], [die] + rest, range)
        == Postorder(rest[..inner], range) + Own(die, range) + FinishedSites([], rest[inner..], range)
      && FinishedSites([], rest, range) == Postorder(rest[..inner], range) + FinishedSites([], rest[inner..], range)
  {
    hide *;
    OwnPostorder(die, rest, range);
    NoFrames(rest[SubtreeEnd(rest, die.depth)..], range);
    NoFrames(rest, range);
    NoFrames([die] + rest, range);
  }

  /** An entry takes its place after the call sites of its subtree. */
  lemma {:induction false} SiteFinishes(stack: seq<CallSiteFrame>, die: Die, rest: seq<Die>, range: AddressRange)
    requires stack != [] ==> stack[|stack| - 1].depth < die.depth
    ensures
      var own := Own(die, range);
      FinishedSites(stack, [die] + rest, range)
        == FinishedSites(if own == [] then stack else stack + [CallSiteFrame(die.depth, own[0])], rest, range)
  {
    hide *;
    var own, inner := Own(die, range), SubtreeEnd(rest, die.depth);
    OwnIsSingle(die, range);
    if own != [] {
      FinishedSitesUnfolds(stack, CallSiteFrame(die.depth, own[0]), rest, range);
    }
    if stack == [] {
      SiteAlone(die, rest, range);
    } else {
      assert stack == stack[..|stack| - 1] + [stack[|stack| - 1]];
      SiteOnFrame(stack[..|stack| - 1], stack[|stack| - 1], die, rest, range);
      SubtreeOnFrame(stack[..|stack| - 1], stack[|stack| - 1], die, rest, range);
    }
    AppendSites(Postorder(rest[..inner], range), [], FinishedSites(stack, rest[inner..], range), [], []);
  }

  lemma NoFrames(rest: seq<Die>, range: AddressRange)
    ensures FinishedSites([], rest, range) == Postorder(rest, range)
  {
    hide Postorder;
  }

  lemma {:induction false} OwnPostorder(die: Die, rest: seq<Die>, range: AddressRange)
    ensures
      var k := SubtreeEnd(rest, die.depth);
      && Postorder([die] + rest, range) == Postorder(rest[..k], range) + Own(die, range) + Postorder(rest[k..], range)
      && Postorder(rest, range) == Postorder(rest[..k], range) + Postorder(rest[k..], range)
  {
    hide Own;
    var k := SubtreeEnd(rest, die.depth);
    assert ([die] + rest)[1..] == rest && rest[..k] + rest[k..] == rest;
    PostorderSplits(rest[..k], rest[k..], range);
  }

  // ------------------------------------------------------------------------- depth

  /** No node closed so far, and none still open, exceeds the depth limit. */
  predicate Shallow(roots: seq<InlineNode>, stack: seq<InlineFrame>) {
    && Height(roots) <= MAX_INLINE_DEPTH && |stack| <= MAX_INLINE_DEPTH
    && forall j :: 0 <= j < |stack| ==> Height(stack[j].node.children) + j + 1 <= MAX_INLINE_DEPTH
  }

  lemma HeightOne(node: InlineNode)
    ensures Height([node]) == 1 + Height(node.children)
  {
    assert [node][1..] == [];
  }

  lemma PopShallow(roots: seq<InlineNode>, stack: seq<InlineFrame>)
    requires stack != [] && Shallow(roots, stack)
    ensures Shallow(roots + Pop(stack).1, Pop(stack).0)
  {
    hide Height;
    var node, below := stack[|stack| - 1].node, stack[..|stack| - 1];
    HeightOne(node);
    HeightAppend(roots, Pop(stack).1);
    HeightEmpty();
    if below != [] {
      HeightAppend(below[|below| - 1].node.children, [node]);
    }
  }

  lemma HeightEmpty()
    ensures Height([]) == 0
  {
  }

  lemma PushShallow(roots: seq<InlineNode>, stack: seq<InlineFrame>, frame: InlineFrame)
    requires Shallow(roots, stack) && |stack| < MAX_INLINE_DEPTH && frame.node.children == []
    ensures Shallow(roots, stack + [frame])
  {
    hide Height;
    HeightEmpty();
  }

  /** The frames on the stack end up as nested nodes. */
  lemma {:induction false} FinishedHeight(stack: seq<InlineFrame>, frame: InlineFrame, rest: seq<Die>, range: AddressRange)
    ensures Height(Finished(stack + [frame], rest, range)) >= |stack| + 1 + Height(frame.node.children)
    decreases |stack|
  {
    hide Height, Finished, Forest, SubtreeEnd, Grow;
    var k := SubtreeEnd(rest, frame.depth);
    var inside := Forest(rest[..k], frame.node.ranges);
    var finished := Adopt(frame.node, inside);
    FinishedUnfolds(stack, frame, rest, range);
    HeightAppend(frame.node.children, inside);
    HeightOne(finished);
    if stack == [] {
      HeightAppend([finished], Forest(rest[k..], [range]));
    } else {
      var below, top := stack[..|stack| - 1], stack[|stack| - 1];
      assert stack == below + [top];
      GrowTop(below, top, [finished]);
      HeightAppend(top.node.children, [finished]);
      FinishedHeight(below, top.(node := Adopt(top.node, [finished])), rest[k..], range);
    }
  }

  // --------------------------------------------------------------------- the walk

  /** The entries below the function's own. */
  function Below(dies: seq<Die>, rootDepth: int): seq<Die> {
    dies[..SubtreeEnd(dies, rootDepth)]
  }

  /** What is finished so far and what the stack and the entries left will give. */
  ghost predicate InlinesOnTrack(
    wanted: bool, roots: seq<InlineNode>, stack: seq<InlineFrame>, rest: seq<Die>, range: AddressRange, all: seq<Die>)
  {
    && Shallow(roots, stack)
    && if wanted then roots + Finished(stack, rest, range) == Forest(all, [range]) else roots == [] && stack == []
  }

  ghost predicate SitesOnTrack(
    wanted: bool, sites: seq<CallSite>, stack: seq<CallSiteFrame>, rest: seq<Die>, range: AddressRange, all: seq<Die>)
  {
    if wanted then sites + FinishedSites(stack, rest, range) == Postorder(all, range) else sites == [] && stack == []
  }

  /** `finish_call_sites`: frames at or below the next entry's depth are done. */
  method FinishCallSites(
    stack: seq<CallSiteFrame>, nextDepth: int, output: seq<CallSite>, ghost wanted: bool, ghost rest: seq<Die>, ghost range: AddressRange,
    ghost all: seq<Die>) returns (left: seq<CallSiteFrame>, sites: seq<CallSite>)
    requires SitesOnTrack(wanted, output, stack, rest, range, all)
    requires rest != [] ==> rest[0].depth == nextDepth
    ensures SitesOnTrack(wanted, sites, left, rest, range, all)
    ensures left <= stack && (left != [] ==> left[|left| - 1].depth < nextDepth)
  {
    hide FinishedSites, Postorder;
    left, sites := stack, output;
    while left != [] && left[|left| - 1].depth >= nextDepth
      invariant SitesOnTrack(wanted, sites, left, rest, range, all) && left <= stack
      decreases |left|
    {
      PopFinishesSite(left, rest, range);
      var site := left[|left| - 1].site;
      assert sites + ([site] + FinishedSites(left[..|left| - 1], rest, range))
          == sites + [site] + FinishedSites(left[..|left| - 1], rest, range);
      left, sites := left[..|left| - 1], sites + [site];
    }
  }

  /** Frames whose subtree the next entry leaves. */
  method FinishInlines(
    stack: seq<InlineFrame>, nextDepth: Option<int>, roots: seq<InlineNode>, ghost wanted: bool, ghost rest: seq<Die>,
    ghost range: AddressRange, ghost all: seq<Die>) returns (left: seq<InlineFrame>, finished: seq<InlineNode>)
    requires InlinesOnTrack(wanted, roots, stack, rest, range, all)
    requires if rest == [] then nextDepth == None else nextDepth == Some(rest[0].depth)
    ensures InlinesOnTrack(wanted, finished, left, rest, range, all)
    ensures if nextDepth.None? then left == [] else left != [] ==> left[|left| - 1].depth < nextDepth.value
  {
    hide Finished, Forest, Shallow;
    left, finished := stack, roots;
    while left != [] && (nextDepth.None? || nextDepth.value <= left[|left| - 1].depth)
      invariant InlinesOnTrack(wanted, finished, left, rest, range, all)
      decreases |left|
    {
      PopFinishes(left, rest, range);
      PopShallow(finished, left);
      var (below, root) := Pop(left);
      assert finished + (root + Finished(below, rest, range)) == finished + root + Finished(below, rest, range);
      left, finished := below, finished + root;
    }
  }

  /** `collect_descendants`.  The two stacks build the same forest and list the
      same call sites as the recursive reading of the entries; the walk fails
      exactly when the forest is too deep for the format. */
  method CollectDescendants(dies: seq<Die>, rootDepth: int, range: AddressRange, includeInlines: bool, includeCallSites: bool)
    returns (r: Result<(seq<InlineNode>, seq<CallSite>)>)
    ensures
      var below := Below(dies, rootDepth);
      var forest := if includeInlines then Forest(below, [range]) else [];
      var sites := if includeCallSites then Postorder(below, range) else [];
      r == if Height(forest) > MAX_INLINE_DEPTH then Err(Limit) else Ok((forest, sites))
  {
    hide Finished, FinishedSites, Forest, Postorder, NodeOf, Own, Shallow, SubtreeEnd;
    ghost var end := SubtreeEnd(dies, rootDepth);
    ghost var below := dies[..end];
    var roots: seq<InlineNode>, stack: seq<InlineFrame> := [], [];
    var sites: seq<CallSite>, siteStack: seq<CallSiteFrame> := [], [];
    StartsOnTrack(includeInlines, includeCallSites, below, range);
    var i := 0;
    while i < |dies| && dies[i].depth > rootDepth
      invariant i <= end
      invariant InlinesOnTrack(includeInlines, roots, stack, below[i..], range, below)
      invariant SitesOnTrack(includeCallSites, sites, siteStack, below[i..], range, below)
      invariant forall k :: 0 <= k < |siteStack| ==> siteStack[k].depth > rootDepth
    {
      var die := dies[i];
      assert below[i..] == [die] + below[i + 1..];
      siteStack, sites := FinishCallSites(siteStack, die.depth, sites, includeCallSites, below[i..], range, below);
      stack, roots := FinishInlines(stack, Some(die.depth), roots, includeInlines, below[i..], range, below);
      if includeCallSites {
        SiteFinishes(siteStack, die, below[i + 1..], range);
        var own := Own(die, range);
        if own != [] {
          siteStack := siteStack + [CallSiteFrame(die.depth, own[0])];
        }
      }
      if includeInlines {
        var made := NodeOf(die, Parents(stack, range));
        if made.None? {
          SkipFinishes(stack, die, below[i + 1..], range);
        } else {
          var frame := InlineFrame(die.depth, made.value);
          MadeIsLeaf(die, Parents(stack, range));
          PushFinishes(stack, die, below[i + 1..], range, made.value);
          if |stack| + 1 > MAX_INLINE_DEPTH {
            TooDeep(roots, stack, frame, below[i + 1..], range);
            return Err(Limit);
          }
          StackSize(roots, stack);
          PushShallow(roots, stack, frame);
          stack := stack + [frame];
        }
      }
      i := i + 1;
    }
    assert below[i..] == [];
    stack, roots := FinishInlines(stack, None, roots, includeInlines, [], range, below);
    siteStack, sites := FinishCallSites(siteStack, rootDepth, sites, includeCallSites, [], range, below);
    EndsOnTrack(includeInlines, includeCallSites, roots, sites, below, range);
    return Ok((roots, sites));
  }

  lemma StartsOnTrack(inlines: bool, callSites: bool, all: seq<Die>, range: AddressRange)
    ensures InlinesOnTrack(inlines, [], [], all, range, all)
    ensures SitesOnTrack(callSites, [], [], all, range, all)
    ensures all[0..] == all
  {
    hide Forest, Postorder;
    assert [] + Finished([], all, range) == Forest(all, [range]);
    assert [] + FinishedSites([], all, range) == Postorder(all, range);
  }

  lemma EndsOnTrack(
    inlines: bool, callSites: bool, roots: seq<InlineNode>, sites: seq<CallSite>, all: seq<Die>, range: AddressRange)
    requires InlinesOnTrack(inlines, roots, [], [], range, all) && SitesOnTrack(callSites, sites, [], [], range, all)
    ensures roots == (if inlines then Forest(all, [range]) else []) && Height(roots) <= MAX_INLINE_DEPTH
    ensures sites == if callSites then Postorder(all, range) else []
  {
    assert Finished([], [], range) == [] && FinishedSites([], [], range) == [];
    hide Forest, Postorder, Finished, FinishedSites, Height;
    assert roots + [] == roots && sites + [] == sites;
  }

  lemma MadeIsLeaf(die: Die, parents: seq<AddressRange>)
    ensures NodeOf(die, parents).Some? ==> NodeOf(die, parents).value.children == []
  {
    hide Coalesce, Usable;
  }

  lemma StackSize(roots: seq<InlineNode>, stack: seq<InlineFrame>)
    requires Shallow(roots, stack) && |stack| + 1 <= MAX_INLINE_DEPTH
    ensures |stack| < MAX_INLINE_DEPTH
  {
  }

  lemma TooDeep(roots: seq<InlineNode>, stack: seq<InlineFrame>, frame: InlineFrame, rest: seq<Die>, range: AddressRange)
    requires |stack| + 1 > MAX_INLINE_DEPTH
    ensures Height(roots + Finished(stack + [frame], rest, range)) > MAX_INLINE_DEPTH
  {
    hide Finished, Height;
    FinishedHeight(stack, frame, rest, range);
    HeightAppend(roots, Finished(stack + [frame], rest, range));
  }

  // ------------------------------------------------------------------- the outcome

  lemma {:induction false} PostorderInside(dies: seq<Die>, range: AddressRange)
    ensures SitesInside(Postorder(dies, range), range)
    decreases |dies|
  {
    hide SubtreeEnd;
    if dies != [] {
      PostorderInside(dies[1..][..SubtreeEnd(dies[1..], dies[0].depth)], range);
      PostorderInside(dies[1..][SubtreeEnd(dies[1..], dies[0].depth)..], range);
    }
  }

  /** A node in the forest shows that the function range is not empty. */
  lemma {:induction false} ForestNeedsRange(dies: seq<Die>, range: AddressRange)
    requires Forest(dies, [range]) != []
    ensures range.start < range.end
    decreases |dies|
  {
    hide SubtreeEnd, Coalesce, Usable;
    var k := SubtreeEnd(dies[1..], dies[0].depth);
    match NodeOf(dies[0], [range])
    case None =>
      if Forest(dies[1..][..k], [range]) != [] {
        ForestNeedsRange(dies[1..][..k], range);
      } else {
        ForestNeedsRange(dies[1..][k..], range);
      }
    case Some(node) =>
      CoalescedInsideParents(dies[0].tag.ranges, [range]);
      assert node.ranges[0] in node.ranges;
  }

  /** `extract_subprogram_details`: the function itself is the outermost node. */
  method ExtractDetails(
    dies: seq<Die>, rootDepth: int, range: AddressRange, name: seq<uint8>, includeInlines: bool, includeCallSites: bool)
    returns (r: Result<(Option<InlineNode>, seq<CallSite>)>)
    ensures
      var below := Below(dies, rootDepth);
      var forest := if includeInlines then Forest(below, [range]) else [];
      r == if Height(forest) > MAX_INLINE_DEPTH then Err(Limit)
           else Ok((if forest == [] then None else Some(InlineNode([range], name, 0, 0, forest)),
                    if includeCallSites then Postorder(below, range) else []))
    ensures r.Ok? ==>
      && (r.value.0.Some? ==> AdmissibleInline(r.value.0.value, [range], 0))
      && SitesInside(r.value.1, range)
  {
    hide Forest, Postorder, SubtreeEnd, Height;
    HeightEmpty();
    if !includeInlines && !includeCallSites {
      return Ok((None, []));
    }
    var descendants :- CollectDescendants(dies, rootDepth, range, includeInlines, includeCallSites);
    var (inlines, sites) := descendants;
    PostorderInside(Below(dies, rootDepth), range);
    if inlines == [] {
      return Ok((None, sites));
    }
    ForestNeedsRange(Below(dies, rootDepth), range);
    ForestAdmissible(Below(dies, rootDepth), [range], 1);
    assert range in [range];
    return Ok((Some(InlineNode([range], name, 0, 0, inlines)), sites));
  }
}
