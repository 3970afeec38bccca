/** A stable insertion sort standing for the library sorts of the source.
    On keys without ties every sort computes the same list, so the unstable
    sorts are covered wherever the caller makes its keys distinct. */
module Sorting {

  ghost predicate TotalPreorder<T(!new)>(leq: (T, T) -> bool) {
    && (forall x, y :: leq(x, y) || leq(y, x))
    && (forall x, y, z :: leq(x, y) && leq(y, z) ==> leq(x, z))
  }

  ghost predicate SortedBy<T>(leq: (T, T) -> bool, s: seq<T>) {
    forall i, j :: 0 <= i < j < |s| ==> leq(s[i], s[j])
  }

  function Insert<T>(leq: (T, T) -> bool, x: T, s: seq<T>): (r: seq<T>)
    ensures |r| == |s| + 1
  {
    if s == [] then [x]
    else if leq(x, s[0]) then [x] + s
    else [s[0]] + Insert(leq, x, s[1..])
  }

  /** Ties keep the order of the input. */
  function Sort<T>(leq: (T, T) -> bool, s: seq<T>): (r: seq<T>)
    ensures |r| == |s|
  {
    if s == [] then [] else Insert(leq, s[0], Sort(leq, s[1..]))
  }

  lemma {:induction false} InsertMultiset<T>(leq: (T, T) -> bool, x: T, s: seq<T>)
    ensures multiset(Insert(leq, x, s)) == multiset{x} + multiset(s)
  {
    if s != [] && !leq(x, s[0]) {
      InsertMultiset(leq, x, s[1..]);
      assert s == [s[0]] + s[1..];
    }
  }

  lemma {:induction false} SortMultiset<T>(leq: (T, T) -> bool, s: seq<T>)
    ensures multiset(Sort(leq, s)) == multiset(s)
  {
    if s != [] {
      SortMultiset(leq, s[1..]);
      InsertMultiset(leq, s[0], Sort(leq, s[1..]));
      assert s == [s[0]] + s[1..];
    }
  }

  lemma SortMembers<T>(leq: (T, T) -> bool, s: seq<T>)
    ensures forall x :: x in Sort(leq, s) <==> x in s
  {
    SortMultiset(leq, s);
    forall x
      ensures x in Sort(leq, s) <==> x in s
    {
      assert x in Sort(leq, s) <==> x in multiset(Sort(leq, s));
      assert x in s <==> x in multiset(s);
    }
  }

  lemma {:induction false} InsertSorted<T(!new)>(leq: (T, T) -> bool, x: T, s: seq<T>)
    requires TotalPreorder(leq) && SortedBy(leq, s)
    ensures SortedBy(leq, Insert(leq, x, s))
  {
    if s != [] {
      if leq(x, s[0]) {
        assert forall j :: 0 <= j < |s| ==> leq(x, s[j]);
      } else {
        InsertSorted(leq, x, s[1..]);
        var tail := Insert(leq, x, s[1..]);
        forall j | 0 <= j < |tail|
          ensures leq(s[0], tail[j])
        {
          InsertMultiset(leq, x, s[1..]);
          assert tail[j] in multiset(tail);
          assert tail[j] == x || tail[j] in s[1..];
        }
      }
    }
  }

  lemma {:induction false} SortSorted<T(!new)>(leq: (T, T) -> bool, s: seq<T>)
    requires TotalPreorder(leq)
    ensures SortedBy(leq, Sort(leq, s))
  {
    if s != [] {
      SortSorted(leq, s[1..]);
      InsertSorted(leq, s[0], Sort(leq, s[1..]));
    }
  }

  /** Ties occur only between equal members. */
  ghost predicate TieFree<T(!new)>(leq: (T, T) -> bool, s: seq<T>) {
    forall x, y :: x in s && y in s && leq(x, y) && leq(y, x) ==> x == y
  }

  /** A list without ties has one sorted arrangement. */
  lemma {:induction false} SortedUnique<T(!new)>(leq: (T, T) -> bool, a: seq<T>, b: seq<T>)
    requires TotalPreorder(leq) && TieFree(leq, a)
    requires SortedBy(leq, a) && SortedBy(leq, b)
    requires multiset(a) == multiset(b)
    ensures a == b
  {
    assert |multiset(a)| == |multiset(b)|;
    if a != [] {
      FirstIsLeast(leq, a, b);
      FirstIsLeast(leq, b, a);
      assert b[0] in multiset(a) && b[0] in a;
      RestMultiset(a);
      RestMultiset(b);
      SortedUnique(leq, a[1..], b[1..]);
    }
  }

  lemma RestMultiset<T>(a: seq<T>)
    requires a != []
    ensures multiset(a[1..]) == multiset(a) - multiset{a[0]}
  {
    assert a == [a[0]] + a[1..];
  }

  lemma FirstIsLeast<T(!new)>(leq: (T, T) -> bool, a: seq<T>, b: seq<T>)
    requires TotalPreorder(leq) && SortedBy(leq, a)
    requires a != [] && b != [] && multiset(a) == multiset(b)
    ensures leq(a[0], b[0])
  {
    assert b[0] in multiset(a);
    assert b[0] in a;
  }

  lemma SortAlreadySorted<T(!new)>(leq: (T, T) -> bool, s: seq<T>)
    requires TotalPreorder(leq) && SortedBy(leq, s)
    ensures Sort(leq, s) == s
  {
    if s != [] {
      SortAlreadySorted(leq, s[1..]);
      if |s| > 1 {
        assert leq(s[0], s[1]);
      }
    }
  }

  /** Orders that agree on the members sort them alike. */
  lemma {:induction false} SortAgrees<T>(leq: (T, T) -> bool, other: (T, T) -> bool, s: seq<T>)
    requires forall x, y :: x in s && y in s ==> leq(x, y) == other(x, y)
    ensures Sort(leq, s) == Sort(other, s)
  {
    if s != [] {
      SortAgrees(leq, other, s[1..]);
      SortMultiset(leq, s[1..]);
      forall y | y in Sort(leq, s[1..])
        ensures leq(s[0], y) == other(s[0], y)
      {
        assert y in multiset(Sort(leq, s[1..]));
        assert y in s[1..] && s[0] in s && y in s;
      }
      InsertAgrees(leq, other, s[0], Sort(leq, s[1..]));
    }
  }

  lemma {:induction false} InsertAgrees<T>(leq: (T, T) -> bool, other: (T, T) -> bool, x: T, s: seq<T>)
    requires forall y :: y in s ==> leq(x, y) == other(x, y)
    ensures Insert(leq, x, s) == Insert(other, x, s)
  {
    if s != [] {
      InsertAgrees(leq, other, x, s[1..]);
    }
  }

  /** The member itself if it is tied with `x`. */
  function Tie<T>(leq: (T, T) -> bool, x: T, y: T): seq<T> {
    if leq(x, y) && leq(y, x) then [y] else []
  }

  /** The members tied with `x`, in order. */
  function Ties<T>(leq: (T, T) -> bool, x: T, s: seq<T>): seq<T> {
    if s == [] then [] else Tie(leq, x, s[0]) + Ties(leq, x, s[1..])
  }

  /** Sorting keeps ties in their original order. */
  lemma {:induction false} SortStable<T(!new)>(leq: (T, T) -> bool, x: T, s: seq<T>)
    requires TotalPreorder(leq)
    ensures Ties(leq, x, Sort(leq, s)) == Ties(leq, x, s)
  {
    if s != [] {
      SortStable(leq, x, s[1..]);
      InsertStable(leq, x, s[0], Sort(leq, s[1..]));
    }
  }

  lemma {:induction false} InsertStable<T(!new)>(leq: (T, T) -> bool, x: T, y: T, s: seq<T>)
    requires TotalPreorder(leq)
    ensures Ties(leq, x, Insert(leq, y, s)) == Tie(leq, x, y) + Ties(leq, x, s)
  {
    if s == [] {
      assert [y][1..] == [];
    } else if leq(y, s[0]) {
      assert ([y] + s)[1..] == s;
    } else {
      var tail := Insert(leq, y, s[1..]);
      assert ([s[0]] + tail)[0] == s[0] && ([s[0]] + tail)[1..] == tail;
      InsertStable(leq, x, y, s[1..]);
      TiesSwap(leq, x, y, s[0], Ties(leq, x, s[1..]));
    }
  }

  /** Elements that are not tied cannot both be tied with a third. */
  lemma TiesSwap<T(!new)>(leq: (T, T) -> bool, x: T, y: T, z: T, rest: seq<T>)
    requires TotalPreorder(leq) && !leq(y, z)
    ensures Tie(leq, x, z) + (Tie(leq, x, y) + rest) == Tie(leq, x, y) + (Tie(leq, x, z) + rest)
  {
    if Tie(leq, x, y) == [] {
      assert Tie(leq, x, y) + rest == rest;
    } else {
      assert Tie(leq, x, z) == [];
      assert Tie(leq, x, z) + rest == rest;
    }
  }

  function Mapped<T, U>(h: T -> U, s: seq<T>): (r: seq<U>)
    ensures |r| == |s|
    ensures forall i :: 0 <= i < |s| ==> r[i] == h(s[i])
  {
    if s == [] then [] else [h(s[0])] + Mapped(h, s[1..])
  }

  /** Sorting the images is taking the images of the sorted list, when the orders
      correspond. */
  lemma {:induction false} SortMapped<T, U>(leq: (T, T) -> bool, other: (U, U) -> bool, h: T -> U, s: seq<T>)
    requires forall x, y :: x in s && y in s ==> leq(x, y) == other(h(x), h(y))
    ensures Sort(other, Mapped(h, s)) == Mapped(h, Sort(leq, s))
  {
    hide Insert;
    if s != [] {
      var rest := s[1..];
      assert forall y :: y in rest ==> y in s;
      SortMapped(leq, other, h, rest);
      SortMultiset(leq, rest);
      var sorted := Sort(leq, rest);
      forall y | y in sorted
        ensures leq(s[0], y) == other(h(s[0]), h(y))
      {
        assert y in multiset(sorted) && y in rest;
        assert s[0] in s && y in s;
      }
      InsertMapped(leq, other, h, s[0], sorted);
      assert Mapped(h, s)[1..] == Mapped(h, rest);
    }
  }

  lemma {:induction false} InsertMapped<T, U>(leq: (T, T) -> bool, other: (U, U) -> bool, h: T -> U, x: T, s: seq<T>)
    requires forall y :: y in s ==> leq(x, y) == other(h(x), h(y))
    ensures Insert(other, h(x), Mapped(h, s)) == Mapped(h, Insert(leq, x, s))
  {
    if s != [] && !leq(x, s[0]) {
      InsertMapped(leq, other, h, x, s[1..]);
      assert Mapped(h, s)[1..] == Mapped(h, s[1..]);
      assert ([s[0]] + Insert(leq, x, s[1..]))[1..] == Insert(leq, x, s[1..]);
    } else if s != [] {
      assert ([x] + s)[1..] == s;
    }
  }
}
