/** Which objects a prune of gsym-cache/src/maintenance.rs evicts, object by object. */
module Eviction {
  import opened Words
  import opened Sorting
  import opened Ordering
  import opened Ranking
  import opened Population
  import opened Prune

  /** Used earlier, or at the same time with the smaller build identifier; of the same
      build, no longer. */
  ghost predicate NotYounger(a: CacheObject, b: CacheObject) {
    || a.lastUsed < b.lastUsed
    || (a.lastUsed == b.lastUsed && (Smaller(a.id, b.id) || (a.id == b.id && a.length <= b.length)))
  }

  lemma AgeMeans(a: CacheObject, b: CacheObject)
    ensures AgeLeq(a, b) <==> NotYounger(a, b)
  {
    hide LexLeq, Smaller;
    LexMeans(a.id, b.id);
    NotSmaller(a.id);
  }

  lemma NotSmaller(a: seq<int>)
    ensures !Smaller(a, a)
  {
  }

  /** The object is listed, and not evicted as often as it is. */
  predicate Stays(objects: seq<CacheObject>, evicted: seq<CacheObject>, o: CacheObject) {
    multiset(objects)[o] > multiset(evicted)[o]
  }

  /** Objects go one after the other, never a younger one before an older one; none of
      those that stay is older, unless its slot is taken; and none goes whose slot is. */
  lemma OldestGoFirst(objects: seq<CacheObject>, busy: set<nat>, policy: PrunePolicy)
    ensures var evicted := NaivePrune(objects, busy, policy).evicted;
      && (forall i, j :: 0 <= i < j < |evicted| ==> NotYounger(evicted[i], evicted[j]))
      && (forall o, x :: o in evicted && Stays(objects, evicted, x) && LockSlot(x.id) !in busy ==> NotYounger(o, x))
      && (forall o :: o in evicted ==> o in objects && LockSlot(o.id) !in busy)
  {
    hide AgeLeq, NotYounger, Sort, NaivePrune, LockSlot, Outside;
    AgeOrders();
    var evictable := Evictable(objects, busy);
    var k := EvictsShortestPrefix(objects, busy, policy);
    var evicted := evictable[..k];
    SortSorted(AgeLeq, objects);
    SortMultiset(AgeLeq, objects);
    OutsideSorted(Sort(AgeLeq, objects), busy);
    forall i, j | 0 <= i < j < k
      ensures NotYounger(evicted[i], evicted[j])
    {
      AgeMeans(evictable[i], evictable[j]);
    }
    forall o, x | o in evicted && Stays(objects, evicted, x) && LockSlot(x.id) !in busy
      ensures NotYounger(o, x)
    {
      ListedOutside(Sort(AgeLeq, objects), busy, x);
      var i: nat :| i < k && evictable[i] == o;
      var j := StaysLater(evictable, k, x);
      AgeMeans(evictable[i], evictable[j]);
    }
    forall o | o in evicted
      ensures o in objects && LockSlot(o.id) !in busy
    {
      OutsideMembers(Sort(AgeLeq, objects), busy, o);
      assert o in evictable;
      Listed(objects, Sort(AgeLeq, objects), o);
    }
  }

  lemma ListedOutside(s: seq<CacheObject>, slots: set<nat>, x: CacheObject)
    requires LockSlot(x.id) !in slots
    ensures multiset(Outside(s, slots))[x] == multiset(s)[x]
  {
    hide LockSlot;
    OutsideCount(s, slots, x);
  }

  lemma Listed(a: seq<CacheObject>, b: seq<CacheObject>, o: CacheObject)
    requires multiset(a) == multiset(b) && o in b
    ensures o in a
  {
    assert o in multiset(b);
  }

  lemma StaysLater(s: seq<CacheObject>, k: nat, x: CacheObject) returns (j: nat)
    requires k <= |s| && multiset(s)[x] > multiset(s[..k])[x]
    ensures k <= j < |s| && s[j] == x
  {
    assert s == s[..k] + s[k..];
    assert x in s[k..];
    var i :| 0 <= i < |s[k..]| && s[k..][i] == x;
    j := k + i;
  }
}
