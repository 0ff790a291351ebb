/** The bounded set of strings already known to be normalised, one per kind of
    address part, with first-in-first-out eviction. The source keeps a hash map
    of keys and a queue recording insertion order; here the keys are a set and
    the queue a sequence, oldest entry first. */
module PrepCache {
  import opened Wrappers

  /** No element occurs twice in q. */
  predicate Distinct<K(==)>(q: seq<K>)
  {
    forall i, j :: 0 <= i < j < |q| ==> q[i] != q[j]
  }

  /** The queue after inserting e when it is absent (an entry already present
      keeps its place). */
  function Inserted<K(==)>(q: seq<K>, e: K): seq<K>
  {
    if e in q then q else q + [e]
  }

  /** The queue after evicting its oldest entries until at most max remain. */
  function Evicted<K>(q: seq<K>, max: nat): seq<K>
  {
    if |q| <= max then q else q[|q| - max..]
  }

  /** The insertion order after put(e) on a cache of capacity max. */
  function PutOrder<K(==)>(q: seq<K>, e: K, max: nat): seq<K>
  {
    Evicted(Inserted(q, e), max)
  }

  // ---------------------------------------------------------------------------
  // What put does to the insertion order.

  /** The order never holds more than max entries. */
  lemma PutBounded<K>(q: seq<K>, e: K, max: nat)
    ensures |PutOrder(q, e, max)| <= max
  {
  }

  /** Entries stay distinct. */
  lemma PutKeepsDistinct<K>(q: seq<K>, e: K, max: nat)
    requires Distinct(q)
    ensures Distinct(PutOrder(q, e, max))
  {
    var ins := Inserted(q, e);
    assert Distinct(ins) by {
      if e !in q {
        forall i, j | 0 <= i < j < |ins| ensures ins[i] != ins[j] {
          if j == |q| {
            assert ins[i] == q[i];
          }
        }
      }
    }
  }

  /** Putting an entry that is already there changes neither the keys nor the order. */
  lemma PutPresentUnchanged<K>(q: seq<K>, e: K, max: nat)
    requires e in q && |q| <= max
    ensures PutOrder(q, e, max) == q
  {
  }

  /** With a capacity of at least one, the entry just put is present afterwards,
      as the newest entry when it was absent before. */
  lemma PutThenContains<K>(q: seq<K>, e: K, max: nat)
    requires max >= 1 && |q| <= max
    ensures e in PutOrder(q, e, max)
    ensures e !in q ==> PutOrder(q, e, max)[|PutOrder(q, e, max)| - 1] == e
  {
    var ins := Inserted(q, e);
    if e !in q {
      assert ins[|ins| - 1] == e;
      if |ins| > max {
        assert PutOrder(q, e, max)[max - 1] == ins[|ins| - 1];
      }
    }
  }

  /** Eviction takes the oldest entries first: what remains is the newest part
      of the insertion order, as long as capacity allows, and each entry kept
      was inserted after each entry evicted. */
  lemma PutEvictsOldestFirst<K>(q: seq<K>, e: K, max: nat)
    ensures var ins, r := Inserted(q, e), PutOrder(q, e, max);
      |r| == (if |ins| <= max then |ins| else max) &&
      r == ins[|ins| - |r|..]
  {
  }

  /** put adds nothing but the entry itself. */
  lemma PutOnlyAdds<K>(q: seq<K>, e: K, max: nat, x: K)
    requires x in PutOrder(q, e, max)
    ensures x in q || x == e
  {
    var ins := Inserted(q, e);
    var k :| 0 <= k < |PutOrder(q, e, max)| && PutOrder(q, e, max)[k] == x;
    if |ins| > max {
      assert ins[|ins| - max + k] == x;
    }
  }

  /** The key set and the queue agree: the keys are exactly the queue's
      entries, each of which occurs once. */
  ghost predicate Tracks<K(!new)>(q: seq<K>, keys: set<K>)
  {
    Distinct(q) && (forall x :: x in keys <==> x in q) && |keys| == |q|
  }

  /** The bookkeeping of appending an absent entry to the queue and the keys. */
  lemma AddNewest<K(!new)>(q: seq<K>, keys: set<K>, e: K)
    requires Tracks(q, keys) && e !in keys
    ensures Tracks(q + [e], keys + {e})
  {
    PutKeepsDistinct(q, e, |q| + 1);
  }

  /** The bookkeeping of evicting the oldest entry from the queue and the keys. */
  lemma DropOldest<K(!new)>(q: seq<K>, keys: set<K>)
    requires Tracks(q, keys) && q != []
    ensures Tracks(q[1..], keys - {q[0]})
  {
    assert q == [q[0]] + q[1..];
    assert q[0] !in q[1..] by {
      forall i | 0 <= i < |q[1..]| ensures q[1..][i] != q[0] {
        assert q[1..][i] == q[i + 1];
      }
    }
  }

  /** The eviction loop stops at the suffix Evicted describes: dropping the
      oldest entries one by one until at most max remain, and no further. */
  lemma EvictedSuffix<K>(ins: seq<K>, dropped: nat, max: nat)
    requires dropped <= |ins| && |ins[dropped..]| <= max
    requires |ins[dropped..]| >= (if |ins| <= max then |ins| else max)
    ensures ins[dropped..] == Evicted(ins, max)
  {
    if |ins| <= max {
      assert ins[0..] == ins;
    }
  }

  // ---------------------------------------------------------------------------
  // The cache object.

  /** The abstract value of a cache: its insertion order, whose elements are
      the cached keys, and its capacity. */
  datatype CacheState<K> = CacheState(queue: seq<K>, maxSize: nat)

  class Cache<K(==, !new)> {
    /** Insertion order, oldest first (fifoQueue). */
    var queue: seq<K>
    /** The cached entries (the key set of cachedValues). */
    var keys: set<K>
    /** Cache capacity. */
    const maxSize: nat

    /** The keys are exactly the entries of the queue, each once, and there
        are at most maxSize of them. */
    ghost predicate Valid()
      reads this
    {
      Tracks(queue, keys) && |queue| <= maxSize
    }

    /** The abstract value of this cache. */
    function State(): CacheState<K>
      reads this
    {
      CacheState(queue, maxSize)
    }

    constructor (maxSize: nat)
      ensures Valid() && this.maxSize == maxSize
      ensures queue == [] && keys == {}
    {
      this.maxSize := maxSize;
      queue := [];
      keys := {};
    }

    /** put: add the entry if it is absent, then evict from the front of the
        queue while the cache holds more than maxSize entries. */
    method Put(entry: K)
      requires Valid()
      modifies this
      ensures Valid()
      ensures queue == PutOrder(old(queue), entry, maxSize)
    {
      var q, k := queue, keys;
      if entry !in k {
        AddNewest(q, k, entry);
        q, k := q + [entry], k + {entry};
      }
      ghost var ins := q;
      assert ins == Inserted(old(queue), entry);
      ghost var dropped := 0;
      while |k| > maxSize
        invariant Tracks(q, k) && |k| == |q|
        invariant 0 <= dropped <= |ins| && q == ins[dropped..]
        invariant |q| >= (if |ins| <= maxSize then |ins| else maxSize)
        decreases |q|
      {
        var oldest := q[0];
        DropOldest(q, k);
        q, k := q[1..], k - {oldest};
        dropped := dropped + 1;
      }
      EvictedSuffix(ins, dropped, maxSize);
      queue, keys := q, k;
    }

    /** contains: null counts as present (a null part needs no preparation);
        otherwise a membership test. Nothing changes. */
    method Contains(entry: Option<K>) returns (b: bool)
      requires Valid()
      ensures b <==> entry.None? || entry.value in keys
    {
      if entry.None? {
        return true;
      }
      return entry.value in keys;
    }
  }
}
