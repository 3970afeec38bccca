/** The ranking of functions in src/writer/finalize.rs: range, richness, name and
    tiebreak, compared lexicographically. */
module Ordering {
  import opened Words
  import opened Wrappers
  import opened Model
  import opened Sorting

  /** Lexicographic order; a proper prefix comes first. */
  predicate LexLeq(a: seq<int>, b: seq<int>) {
    if a == [] then true
    else if b == [] then false
    else if a[0] != b[0] then a[0] < b[0]
    else LexLeq(a[1..], b[1..])
  }

  lemma {:induction false} LexTotal(a: seq<int>, b: seq<int>)
    ensures LexLeq(a, b) || LexLeq(b, a)
  {
    if a != [] && b != [] {
      LexTotal(a[1..], b[1..]);
    }
  }

  lemma {:induction false} LexTransitive(a: seq<int>, b: seq<int>, c: seq<int>)
    requires LexLeq(a, b) && LexLeq(b, c)
    ensures LexLeq(a, c)
  {
    if a != [] && b != [] && c != [] && a[0] == b[0] == c[0] {
      LexTransitive(a[1..], b[1..], c[1..]);
    }
  }

  lemma {:induction false} LexAntisymmetric(a: seq<int>, b: seq<int>)
    requires LexLeq(a, b) && LexLeq(b, a)
    ensures a == b
  {
    if a != [] && b != [] {
      LexAntisymmetric(a[1..], b[1..]);
      assert a == [a[0]] + a[1..] && b == [b[0]] + b[1..];
    }
  }

  // -------------------------------------------------------------------------- keys

  datatype Key = Key(range: seq<int>, richness: seq<int>, name: seq<int>, tiebreak: seq<int>)

  predicate KeyLeq(a: Key, b: Key) {
    if a.range != b.range then LexLeq(a.range, b.range)
    else if a.richness != b.richness then LexLeq(a.richness, b.richness)
    else if a.name != b.name then LexLeq(a.name, b.name)
    else LexLeq(a.tiebreak, b.tiebreak)
  }

  lemma KeyTotal(a: Key, b: Key)
    ensures KeyLeq(a, b) || KeyLeq(b, a)
  {
    hide LexLeq;
    LexTotal(a.range, b.range);
    LexTotal(a.richness, b.richness);
    LexTotal(a.name, b.name);
    LexTotal(a.tiebreak, b.tiebreak);
  }

  lemma ComponentAntisymmetric(a: seq<int>, b: seq<int>)
    ensures LexLeq(a, b) && LexLeq(b, a) ==> a == b
  {
    if LexLeq(a, b) && LexLeq(b, a) {
      LexAntisymmetric(a, b);
    }
  }

  lemma ComponentTransitive(a: seq<int>, b: seq<int>, c: seq<int>)
    ensures LexLeq(a, b) && LexLeq(b, c) ==> LexLeq(a, c)
  {
    if LexLeq(a, b) && LexLeq(b, c) {
      LexTransitive(a, b, c);
    }
  }

  lemma KeyTransitive(a: Key, b: Key, c: Key)
    requires KeyLeq(a, b) && KeyLeq(b, c)
    ensures KeyLeq(a, c)
  {
    hide LexLeq;
    ComponentTransitive(a.range, b.range, c.range);
    ComponentTransitive(a.richness, b.richness, c.richness);
    ComponentTransitive(a.name, b.name, c.name);
    ComponentTransitive(a.tiebreak, b.tiebreak, c.tiebreak);
    ComponentAntisymmetric(a.range, b.range);
    ComponentAntisymmetric(a.richness, b.richness);
    ComponentAntisymmetric(a.name, b.name);
  }

  lemma KeyAntisymmetric(a: Key, b: Key)
    requires KeyLeq(a, b) && KeyLeq(b, a)
    ensures a == b
  {
    hide LexLeq;
    ComponentAntisymmetric(a.range, b.range);
    ComponentAntisymmetric(a.richness, b.richness);
    ComponentAntisymmetric(a.name, b.name);
    ComponentAntisymmetric(a.tiebreak, b.tiebreak);
  }

  // --------------------------------------------------------------------- functions

  /** Nodes, ranges and depth of an inline tree. */
  function InlineQuality(node: InlineNode): (nat, nat, nat)
    decreases node, 1
  {
    AddChildren((1, |node.ranges|, 1), node.children)
  }

  function AddChildren(total: (nat, nat, nat), children: seq<InlineNode>): (nat, nat, nat)
    decreases children, 0
  {
    if children == [] then total
    else
      var child := InlineQuality(children[0]);
      AddChildren((total.0 + child.0, total.1 + child.1, Max(total.2, child.2 + 1)), children[1..])
  }

  function PatternCount(sites: seq<CallSite>): nat {
    if sites == [] then 0 else |sites[0].matchRegex| + PatternCount(sites[1..])
  }

  /** `richness`: the inline tree is measured only when asked for. */
  function Richness(f: Function, compareInlines: bool): seq<int> {
    var (nodes, ranges, depth) := if compareInlines && f.inline.Some? then InlineQuality(f.inline.value) else (0, 0, 0);
    [if f.inline.Some? then 1 else 0, nodes, ranges, depth, |f.lines|, |f.callSites| + PatternCount(f.callSites), |f.merged|]
  }

  function Tiebreak(f: Function): seq<int> {
    [if f.inline.Some? then |f.inline.value.children| else 0, |f.name|]
  }

  function RangeKey(range: AddressRange): seq<int> {
    [range.start, range.end]
  }

  function FullKey(f: Function, compareInlines: bool): Key {
    Key(RangeKey(f.range), Richness(f, compareInlines), f.name, Tiebreak(f))
  }

  /** The complete order: every component measured in full. */
  predicate FunctionLeq(f: Function, g: Function) {
    KeyLeq(FullKey(f, true), FullKey(g, true))
  }

  lemma FunctionOrder()
    ensures TotalPreorder(FunctionLeq)
  {
    hide KeyLeq, FullKey;
    forall f, g
      ensures FunctionLeq(f, g) || FunctionLeq(g, f)
    {
      KeyTotal(FullKey(f, true), FullKey(g, true));
    }
    forall f, g, h | FunctionLeq(f, g) && FunctionLeq(g, h)
      ensures FunctionLeq(f, h)
    {
      KeyTransitive(FullKey(f, true), FullKey(g, true), FullKey(h, true));
    }
  }

  /** A single inline tree wins on its presence, so measuring it changes no
      comparison unless both functions have one. */
  lemma DeferredRankingAgrees(f: Function, g: Function)
    requires f.range == g.range && (f.inline.None? || g.inline.None?)
    ensures KeyLeq(FullKey(f, false), FullKey(g, false)) == KeyLeq(FullKey(f, true), FullKey(g, true))
  {
    hide InlineQuality;
    var lazyF, lazyG, fullF, fullG := Richness(f, false), Richness(g, false), Richness(f, true), Richness(g, true);
    if f.inline.Some? || g.inline.Some? {
      assert lazyF[0] == fullF[0] && lazyG[0] == fullG[0];
      assert LexLeq(lazyF, lazyG) == LexLeq(fullF, fullG);
    } else {
      assert lazyF == fullF && lazyG == fullG;
    }
  }

  /** Functions that differ in range or name never tie. */
  lemma KeyTies(f: Function, g: Function)
    requires FunctionLeq(f, g) && FunctionLeq(g, f)
    ensures f.range == g.range && f.name == g.name
  {
    hide KeyLeq;
    KeyAntisymmetric(FullKey(f, true), FullKey(g, true));
    assert RangeKey(f.range)[0] == RangeKey(g.range)[0] && RangeKey(f.range)[1] == RangeKey(g.range)[1];
  }

  predicate DistinctKeys(functions: seq<Function>) {
    forall f, g :: f in functions && g in functions && f.range == g.range && f.name == g.name ==> f == g
  }

  /** With distinct ranges or names the order of the input does not matter. */
  lemma SortOrderIndependent(a: seq<Function>, b: seq<Function>)
    requires multiset(a) == multiset(b) && DistinctKeys(a)
    ensures Sort(FunctionLeq, a) == Sort(FunctionLeq, b)
  {
    hide FunctionLeq;
    FunctionOrder();
    SortMultiset(FunctionLeq, a);
    SortMultiset(FunctionLeq, b);
    SortSorted(FunctionLeq, a);
    SortSorted(FunctionLeq, b);
    SortMembers(FunctionLeq, a);
    forall f, g | f in Sort(FunctionLeq, a) && g in Sort(FunctionLeq, a) && FunctionLeq(f, g) && FunctionLeq(g, f)
      ensures f == g
    {
      KeyTies(f, g);
    }
    SortedUnique(FunctionLeq, Sort(FunctionLeq, a), Sort(FunctionLeq, b));
  }

  lemma {:induction false} TakeOut<T>(s: seq<T>, x: T) returns (rest: seq<T>)
    requires x in s
    ensures multiset(s) == multiset{x} + multiset(rest)
  {
    var i :| 0 <= i < |s| && s[i] == x;
    rest := s[..i] + s[i + 1..];
    assert s == s[..i] + [s[i]] + s[i + 1..];
  }

  /** Two tied functions come out in the order they went in. */
  lemma TiedKeepOrder(f: Function, g: Function, rest: seq<Function>)
    requires f != g && FunctionLeq(f, g) && FunctionLeq(g, f)
    ensures Sort(FunctionLeq, [f, g] + rest) != Sort(FunctionLeq, [g, f] + rest)
  {
    hide FunctionLeq, Sort;
    FunctionOrder();
    SortStable(FunctionLeq, f, [f, g] + rest);
    SortStable(FunctionLeq, f, [g, f] + rest);
    assert Ties(FunctionLeq, f, [f, g] + rest)[0] == f;
    assert Ties(FunctionLeq, f, [g, f] + rest)[0] == g;
  }

  lemma UntiedSortAlike(functions: seq<Function>, other: seq<Function>)
    requires TieFree(FunctionLeq, functions) && multiset(other) == multiset(functions)
    ensures Sort(FunctionLeq, other) == Sort(FunctionLeq, functions)
  {
    hide FunctionLeq, Sort;
    FunctionOrder();
    SortMultiset(FunctionLeq, functions);
    SortMultiset(FunctionLeq, other);
    SortSorted(FunctionLeq, functions);
    SortSorted(FunctionLeq, other);
    SortMembers(FunctionLeq, functions);
    SortedUnique(FunctionLeq, Sort(FunctionLeq, functions), Sort(FunctionLeq, other));
  }

  lemma TiedSortDiffers(functions: seq<Function>) returns (one: seq<Function>, other: seq<Function>)
    requires !TieFree(FunctionLeq, functions)
    ensures multiset(one) == multiset(functions) == multiset(other)
    ensures Sort(FunctionLeq, one) != Sort(FunctionLeq, other)
  {
    hide FunctionLeq, Sort;
    var f, g :| f in functions && g in functions && FunctionLeq(f, g) && FunctionLeq(g, f) && f != g;
    var others := TakeOut(functions, f);
    assert g in multiset(functions) && g in multiset(others);
    var rest := TakeOut(others, g);
    one, other := [f, g] + rest, [g, f] + rest;
    TiedKeepOrder(f, g, rest);
  }

  /** Every input order gives the same sorted list. */
  ghost predicate OrderIndependent(functions: seq<Function>) {
    forall other: seq<Function> :: multiset(other) == multiset(functions) ==>
      Sort(FunctionLeq, other) == Sort(FunctionLeq, functions)
  }

  /** The order of the input does not matter exactly when no two different functions
      tie. */
  lemma OrderIndependentIff(functions: seq<Function>)
    ensures OrderIndependent(functions) <==> TieFree(FunctionLeq, functions)
  {
    hide FunctionLeq, Sort, TieFree;
    if TieFree(FunctionLeq, functions) {
      forall other: seq<Function> | multiset(other) == multiset(functions)
        ensures Sort(FunctionLeq, other) == Sort(FunctionLeq, functions)
      {
        UntiedSortAlike(functions, other);
      }
    } else {
      var one, other := TiedSortDiffers(functions);
      assert OrderIndependent(functions) ==> Sort(FunctionLeq, one) == Sort(FunctionLeq, other);
    }
  }

  /** The hypothesis is needed: two functions that differ only in what the key
      does not measure keep their input order. */
  lemma SortDependsOnTies()
    ensures
      var range := AddressRange(0, 1);
      var f := Function(range, [1], [LineEntry(0, 0, 1)], None, [], []);
      var g := Function(range, [1], [LineEntry(0, 0, 2)], None, [], []);
      Sort(FunctionLeq, [f, g]) != Sort(FunctionLeq, [g, f])
  {
    var range := AddressRange(0, 1);
    var f := Function(range, [1], [LineEntry(0, 0, 1)], None, [], []);
    var g := Function(range, [1], [LineEntry(0, 0, 2)], None, [], []);
    assert FullKey(f, true) == FullKey(g, true);
    KeyTotal(FullKey(f, true), FullKey(g, true));
    assert [f, g][1..] == [g] && [g, f][1..] == [f] && [g][1..] == [] && [f][1..] == [];
    assert Sort(FunctionLeq, [f, g]) == [f, g];
    assert Sort(FunctionLeq, [g, f]) == [g, f];
  }
}
