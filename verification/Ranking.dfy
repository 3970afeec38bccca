/** What the sort key of src/writer/finalize.rs compares, measure by measure. */
module Ranking {
  import opened Words
  import opened Wrappers
  import opened Model
  import opened Ordering

  // ----------------------------------------------------------------- inline trees

  /** The nodes of a tree, and of the trees below a node. */
  function Nodes(node: InlineNode): nat
    decreases node, 1
  {
    1 + NodesBelow(node.children)
  }

  function NodesBelow(children: seq<InlineNode>): nat
    decreases children, 0
  {
    if children == [] then 0 else Nodes(children[0]) + NodesBelow(children[1..])
  }

  function Ranges(node: InlineNode): nat
    decreases node, 1
  {
    |node.ranges| + RangesBelow(node.children)
  }

  function RangesBelow(children: seq<InlineNode>): nat
    decreases children, 0
  {
    if children == [] then 0 else Ranges(children[0]) + RangesBelow(children[1..])
  }

  /** No path has more nodes, and some path has as many. */
  ghost predicate IsHeight(node: InlineNode, height: nat)
    decreases node
  {
    && height > 0
    && (forall child, below: nat :: child in node.children && IsHeight(child, below) ==> below < height)
    && (height == 1 || exists child :: child in node.children && IsHeight(child, height - 1))
  }

  lemma {:induction false} OneHeight(node: InlineNode, a: nat, b: nat)
    requires IsHeight(node, a) && IsHeight(node, b)
    ensures a == b
  {
  }

  lemma {:induction false} QualityIs(node: InlineNode)
    ensures InlineQuality(node).0 == Nodes(node) && InlineQuality(node).1 == Ranges(node) && IsHeight(node, InlineQuality(node).2)
    decreases node, 1
  {
    hide IsHeight;
    QualitiesAre((1, |node.ranges|, 1), node.children);
    HeightIs(node, InlineQuality(node).2);
  }

  /** The greatest height so far is one, or that of the highest child and one more. */
  lemma {:induction false} QualitiesAre(total: (nat, nat, nat), children: seq<InlineNode>)
    requires total.2 > 0
    ensures
      var sum := AddChildren(total, children);
      && sum.0 == total.0 + NodesBelow(children) && sum.1 == total.1 + RangesBelow(children) && sum.2 >= total.2
      && (forall child :: child in children ==> IsHeight(child, InlineQuality(child).2) && InlineQuality(child).2 < sum.2)
      && (sum.2 == total.2 || exists child :: child in children && InlineQuality(child).2 == sum.2 - 1)
    decreases children, 0
  {
    hide IsHeight, InlineQuality;
    if children != [] {
      var first := children[0];
      QualityIs(first);
      var child := InlineQuality(first);
      QualitiesAre((total.0 + child.0, total.1 + child.1, Max(total.2, child.2 + 1)), children[1..]);
      assert children == [first] + children[1..];
    }
  }

  lemma HeightIs(node: InlineNode, height: nat)
    requires height > 0
    requires forall child :: child in node.children ==> IsHeight(child, InlineQuality(child).2) && InlineQuality(child).2 < height
    requires height == 1 || exists child :: child in node.children && InlineQuality(child).2 == height - 1
    ensures IsHeight(node, height)
  {
    hide InlineQuality;
    forall child, below: nat | child in node.children && IsHeight(child, below)
      ensures below < height
    {
      OneHeight(child, below, InlineQuality(child).2);
    }
  }

  // ------------------------------------------------------------------- comparisons

  /** Up to place `k` the lists agree; there the first one is smaller, or ends. */
  predicate SmallerAt(a: seq<int>, b: seq<int>, k: nat) {
    k <= |a| && k < |b| && a[..k] == b[..k] && (k < |a| ==> a[k] < b[k])
  }

  ghost predicate Smaller(a: seq<int>, b: seq<int>) {
    exists k: nat :: SmallerAt(a, b, k)
  }

  lemma SmallerAbove(x: int, a: seq<int>, b: seq<int>, k: nat, n: nat)
    requires n == k + 1
    ensures SmallerAt([x] + a, [x] + b, n) <==> SmallerAt(a, b, k)
  {
    var s, t := [x] + a, [x] + b;
    assert k < |a| ==> s[n] == a[k];
    assert k < |b| ==> t[n] == b[k];
    if k <= |a| && k <= |b| {
      assert s[..n] == [x] + a[..k] && t[..n] == [x] + b[..k];
      if s[..n] == t[..n] {
        assert a[..k] == s[..n][1..] && b[..k] == t[..n][1..];
      }
    }
  }

  lemma SmallerTails(x: int, a: seq<int>, b: seq<int>)
    ensures Smaller([x] + a, [x] + b) <==> Smaller(a, b)
  {
    hide SmallerAt;
    var s, t := [x] + a, [x] + b;
    if Smaller(a, b) {
      var k: nat :| SmallerAt(a, b, k);
      SmallerAbove(x, a, b, k, k + 1);
    }
    if Smaller(s, t) {
      var n: nat :| SmallerAt(s, t, n);
      SameHead(x, a, b, n);
      SmallerAbove(x, a, b, n - 1, n);
    }
  }

  lemma SameHead(x: int, a: seq<int>, b: seq<int>, n: nat)
    requires SmallerAt([x] + a, [x] + b, n)
    ensures n > 0
  {
  }

  lemma HeadsAgree(a: seq<int>, b: seq<int>, k: nat)
    requires SmallerAt(a, b, k)
    ensures k > 0 ==> a != [] && b != [] && a[0] == b[0]
  {
    if k > 0 {
      assert a[0] == a[..k][0] && b[0] == b[..k][0];
    }
  }

  lemma SmallerHeads(a: seq<int>, b: seq<int>)
    requires a == [] || b == [] || a[0] != b[0]
    ensures Smaller(a, b) <==> b != [] && (a == [] || a[0] < b[0])
  {
    if b != [] && (a == [] || a[0] < b[0]) {
      assert SmallerAt(a, b, 0);
    }
    forall k: nat | SmallerAt(a, b, k)
      ensures k == 0
    {
      HeadsAgree(a, b, k);
    }
  }

  lemma {:induction false} LexMeans(a: seq<int>, b: seq<int>)
    ensures LexLeq(a, b) <==> a == b || Smaller(a, b)
  {
    hide Smaller;
    if a != [] && b != [] && a[0] == b[0] {
      LexMeans(a[1..], b[1..]);
      assert a == [a[0]] + a[1..] && b == [a[0]] + b[1..];
      SmallerTails(a[0], a[1..], b[1..]);
    } else {
      SmallerHeads(a, b);
    }
  }

  lemma LexAt(a: seq<int>, b: seq<int>, k: nat)
    requires k < |a| && k < |b|
    ensures LexLeq(a[k..], b[k..]) <==> if a[k] != b[k] then a[k] < b[k] else LexLeq(a[k + 1..], b[k + 1..])
  {
    assert a[k..][1..] == a[k + 1..] && b[k..][1..] == b[k + 1..];
  }

  lemma LexOfSeven(a: seq<int>, b: seq<int>)
    requires |a| == |b| == 7
    ensures LexLeq(a, b) <==>
      if a[0] != b[0] then a[0] < b[0] else if a[1] != b[1] then a[1] < b[1] else if a[2] != b[2] then a[2] < b[2]
      else if a[3] != b[3] then a[3] < b[3] else if a[4] != b[4] then a[4] < b[4] else if a[5] != b[5] then a[5] < b[5]
      else a[6] <= b[6]
  {
    hide LexLeq;
    assert a[0..] == a && b[0..] == b;
    LexAt(a, b, 0);
    LexAt(a, b, 1);
    LexAt(a, b, 2);
    LastFourOfSeven(a, b);
  }

  lemma LastFourOfSeven(a: seq<int>, b: seq<int>)
    requires |a| == |b| == 7
    ensures LexLeq(a[3..], b[3..]) <==>
      if a[3] != b[3] then a[3] < b[3] else if a[4] != b[4] then a[4] < b[4] else if a[5] != b[5] then a[5] < b[5] else a[6] <= b[6]
  {
    hide LexLeq;
    LexAt(a, b, 3);
    LexAt(a, b, 4);
    LexAt(a, b, 5);
    LexAt(a, b, 6);
    NothingLeft(a[7..], b[7..]);
  }

  lemma NothingLeft(a: seq<int>, b: seq<int>)
    requires a == [] == b
    ensures LexLeq(a, b)
  {
  }

  lemma LexOfTwo(a: seq<int>, b: seq<int>)
    requires |a| == |b| == 2
    ensures LexLeq(a, b) <==> if a[0] != b[0] then a[0] < b[0] else a[1] <= b[1]
  {
    hide LexLeq;
    assert a[0..] == a && b[0..] == b;
    LexAt(a, b, 0);
    LexAt(a, b, 1);
    NothingLeft(a[2..], b[2..]);
  }

  // --------------------------------------------------------------------- the order

  /** The sizes of the inline tree of a function: nothing without one. */
  function TreeNodes(f: Function): nat {
    if f.inline.Some? then Nodes(f.inline.value) else 0
  }

  function TreeRanges(f: Function): nat {
    if f.inline.Some? then Ranges(f.inline.value) else 0
  }

  function TreeDepth(f: Function): nat {
    if f.inline.Some? then InlineQuality(f.inline.value).2 else 0
  }

  function SiteCount(f: Function): nat {
    |f.callSites| + PatternCount(f.callSites)
  }

  function TopChildren(f: Function): nat {
    if f.inline.Some? then |f.inline.value.children| else 0
  }

  /** Sorted by range, and within a range from the poorer to the richer: an inline tree
      counts first, then its nodes, ranges and depth, then line rows, call sites with their
      patterns, and merged functions.  Names decide next, byte by byte. */
  ghost predicate RanksNoHigher(f: Function, g: Function) {
    if f.range.start != g.range.start then f.range.start < g.range.start
    else if f.range.end != g.range.end then f.range.end < g.range.end
    else if f.inline.None? != g.inline.None? then f.inline.None?
    else if TreeNodes(f) != TreeNodes(g) then TreeNodes(f) < TreeNodes(g)
    else if TreeRanges(f) != TreeRanges(g) then TreeRanges(f) < TreeRanges(g)
    else if TreeDepth(f) != TreeDepth(g) then TreeDepth(f) < TreeDepth(g)
    else if |f.lines| != |g.lines| then |f.lines| < |g.lines|
    else if SiteCount(f) != SiteCount(g) then SiteCount(f) < SiteCount(g)
    else if |f.merged| != |g.merged| then |f.merged| < |g.merged|
    else if f.name != g.name then Smaller(f.name, g.name)
    else TopChildren(f) <= TopChildren(g)
  }

  /** The sort order means that. */
  lemma FunctionLeqMeans(f: Function, g: Function)
    ensures FunctionLeq(f, g) <==> RanksNoHigher(f, g)
    ensures f.inline.Some? ==> IsHeight(f.inline.value, TreeDepth(f))
  {
    hide LexLeq, InlineQuality, Nodes, Ranges, Smaller, PatternCount, IsHeight;
    var a, b := FullKey(f, true), FullKey(g, true);
    if f.inline.Some? {
      QualityIs(f.inline.value);
    }
    if g.inline.Some? {
      QualityIs(g.inline.value);
    }
    LexOfTwo(a.range, b.range);
    SameParts(a.range, b.range);
    LexOfSeven(a.richness, b.richness);
    LexMeans(a.name, b.name);
    LexOfTwo(a.tiebreak, b.tiebreak);
  }

  lemma SameParts(a: seq<int>, b: seq<int>)
    requires |a| == |b| == 2
    ensures a == b <==> a[0] == b[0] && a[1] == b[1]
  {
  }
}
