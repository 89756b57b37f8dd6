/**
 * Size-bounded containers (src/common/sizeable.ts): an LRU cache whose
 * recency order is a JavaScript `Map`'s insertion order, the same cache keyed
 * by a key's `id` symbol with a loader for misses, and a stack of sized
 * items.
 */
module Sizeable {
  import opened Wrappers

  /** A `Map`'s entries in insertion order. */
  type Entries<K, V> = seq<(K, V)>

  /** No key occurs twice. */
  ghost predicate DistinctKeys<K, V>(es: Entries<K, V>)
  {
    forall i, j | 0 <= i < j < |es| :: es[i].0 != es[j].0
  }

  /** The position of `k`, if it is a key of `es`. */
  function Find<K(==), V>(es: Entries<K, V>, k: K): (r: Option<nat>)
    ensures r.Some? ==> r.value < |es| && es[r.value].0 == k
    ensures r.Some? ==> forall j | 0 <= j < r.value :: es[j].0 != k
    ensures r.None? <==> forall i | 0 <= i < |es| :: es[i].0 != k
  {
    if es == [] then None
    else if es[0].0 == k then Some(0)
    else
      var r := Find(es[1..], k);
      if r.None? then (assert forall i | 1 <= i < |es| :: es[i].0 == es[1..][i - 1].0; None)
      else Some(r.value + 1)
  }

  /** The sum of the values' sizes. */
  function Total<K, V>(es: Entries<K, V>, sizeOf: V -> nat): nat
  {
    if es == [] then 0 else sizeOf(es[0].1) + Total(es[1..], sizeOf)
  }

  lemma {:induction false} TotalAppend<K, V>(a: Entries<K, V>, b: Entries<K, V>, sizeOf: V -> nat)
    ensures Total(a + b, sizeOf) == Total(a, sizeOf) + Total(b, sizeOf)
    decreases |a|
  {
    if a == [] {
      assert a + b == b;
    } else {
      assert (a + b)[1..] == a[1..] + b;
      TotalAppend(a[1..], b, sizeOf);
    }
  }

  lemma TotalAround<K, V>(es: Entries<K, V>, i: nat, sizeOf: V -> nat)
    requires i < |es|
    ensures Total(es, sizeOf) == Total(es[..i], sizeOf) + sizeOf(es[i].1) + Total(es[i + 1..], sizeOf)
  {
    assert es == es[..i] + ([es[i]] + es[i + 1..]);
    TotalAppend(es[..i], [es[i]] + es[i + 1..], sizeOf);
    assert ([es[i]] + es[i + 1..])[1..] == es[i + 1..];
  }

  function Remove<K, V>(es: Entries<K, V>, i: nat): Entries<K, V>
    requires i < |es|
  {
    es[..i] + es[i + 1..]
  }

  /** `set` before eviction: an existing key keeps its place, a new key goes last. */
  function Insert<K(==), V>(es: Entries<K, V>, k: K, v: V): (r: Entries<K, V>)
    ensures Find(es, k).Some? ==> r == es[Find(es, k).value := (k, v)]
    ensures Find(es, k).None? ==> r == es + [(k, v)]
  {
    match Find(es, k)
    case Some(i) => es[i := (k, v)]
    case None => es + [(k, v)]
  }

  /**
   * How many of the oldest entries `enforceSizeLimit` deletes: it always
   * deletes the oldest, and goes on while the remaining total is still above
   * the limit.
   */
  function EvictCount<K, V>(es: Entries<K, V>, sizeOf: V -> nat, limit: int): (n: nat)
    ensures n <= |es|
    ensures es != [] ==> 1 <= n
    ensures n < |es| ==> Total(es[n..], sizeOf) <= limit
    ensures forall e | 1 <= e < n :: Total(es[e..], sizeOf) > limit
    decreases |es|
  {
    if es == [] then 0
    else if Total(es[1..], sizeOf) <= limit then 1
    else
      var n := 1 + EvictCount(es[1..], sizeOf, limit);
      assert forall e | 1 <= e <= |es| :: es[e..] == es[1..][e - 1..];
      n
  }

  /**
   * The entries after `set(k, v)`: only the oldest of the inserted entries
   * are evicted, so the survivors are a suffix, in their order.
   */
  function AfterSet<K(==), V>(es: Entries<K, V>, k: K, v: V, sizeOf: V -> nat, limit: int): (r: Entries<K, V>)
    ensures |r| <= |Insert(es, k, v)| && r == Insert(es, k, v)[|Insert(es, k, v)| - |r|..]
  {
    var ins := Insert(es, k, v);
    if Total(ins, sizeOf) > limit then ins[EvictCount(ins, sizeOf, limit)..] else ins
  }

  /** The entries after `get(k)`: as many as before, and a present key's entry moves to the newest place. */
  function AfterGet<K(==), V>(es: Entries<K, V>, k: K): (r: Entries<K, V>)
    ensures |r| == |es|
    ensures Find(es, k).None? ==> r == es
    ensures Find(es, k).Some? ==> r[|r| - 1] == es[Find(es, k).value]
  {
    match Find(es, k)
    case Some(i) => Remove(es, i) + [es[i]]
    case None => es
  }

  /**
   * `set` never leaves more than the limit cached (for a limit that is not
   * negative): entries are evicted oldest first, no more than needed.
   */
  lemma AfterSetWithinLimit<K, V>(es: Entries<K, V>, k: K, v: V, sizeOf: V -> nat, limit: int)
    requires limit >= 0
    ensures Total(AfterSet(es, k, v, sizeOf, limit), sizeOf) <= limit
  {
    var ins := Insert(es, k, v);
    if Total(ins, sizeOf) > limit {
      var n := EvictCount(ins, sizeOf, limit);
      if n == |ins| {
        assert ins[n..] == [];
      }
    }
  }

  /** With a negative limit nothing fits, so `set` leaves the cache empty. */
  lemma AfterSetNegativeLimit<K, V>(es: Entries<K, V>, k: K, v: V, sizeOf: V -> nat, limit: int)
    requires limit < 0
    ensures AfterSet(es, k, v, sizeOf, limit) == []
  {
  }

  /** Setting a key that fits keeps it, with the new value, in the old key's place or last. */
  lemma AfterSetKeepsFitting<K, V>(es: Entries<K, V>, k: K, v: V, sizeOf: V -> nat, limit: int)
    requires Total(Insert(es, k, v), sizeOf) <= limit
    ensures var r := AfterSet(es, k, v, sizeOf, limit);
            Find(r, k).Some? && r[Find(r, k).value] == (k, v)
            && |r| == |es| + (if Find(es, k).Some? then 0 else 1)
  {
    var r := AfterSet(es, k, v, sizeOf, limit);
    var i := if Find(es, k).Some? then Find(es, k).value else |es|;
    assert r[i] == (k, v);
    assert Find(r, k).Some?;
  }

  /** `get` only reorders: the same entries and total, with a hit key newest. */
  lemma {:induction false} AfterGetReorders<K, V>(es: Entries<K, V>, k: K, sizeOf: V -> nat)
    requires DistinctKeys(es)
    ensures var r := AfterGet(es, k);
            multiset(r) == multiset(es) && Total(r, sizeOf) == Total(es, sizeOf) && DistinctKeys(r)
            && (Find(es, k).Some? ==> r[|r| - 1] == es[Find(es, k).value])
  {
    match Find(es, k)
    case None =>
    case Some(i) =>
      var r := Remove(es, i) + [es[i]];
      assert es == es[..i] + [es[i]] + es[i + 1..];
      TotalAround(es, i, sizeOf);
      TotalAppend(es[..i], es[i + 1..], sizeOf);
      TotalAppend(Remove(es, i), [es[i]], sizeOf);
      assert Total([es[i]], sizeOf) == sizeOf(es[i].1);
      forall a, b | 0 <= a < b < |r|
        ensures r[a].0 != r[b].0
      {
        var ia := if a < i then a else a + 1;
        var ib := if b == |r| - 1 then i else if b < i then b else b + 1;
        assert r[a] == es[ia] && r[b] == es[ib] && ia != ib;
      }
  }

  /** `LRUCache`: a size-bounded map that forgets its least recently used entries first. */
  class LRUCache<K(==), V> {
    const sizeLimit: int
    const sizeOf: V -> nat
    /** `dataMap`, whose insertion order is least recently used first */
    var entries: Entries<K, V>
    var cacheSize: int

    /** The running total is the total of the entries. */
    ghost predicate Consistent()
      reads this
    {
      DistinctKeys(entries) && cacheSize == Total(entries, sizeOf)
    }

    ghost predicate Valid()
      reads this
    {
      Consistent() && (sizeLimit >= 0 ==> cacheSize <= sizeLimit)
    }

    constructor (sizeLimit: int, sizeOf: V -> nat)
      ensures Valid() && entries == [] && this.sizeLimit == sizeLimit && this.sizeOf == sizeOf
    {
      this.sizeLimit := sizeLimit;
      this.sizeOf := sizeOf;
      entries := [];
      cacheSize := 0;
    }

    function Lookup(key: K): (r: Option<V>)
      reads this
      ensures r.Some? <==> Find(entries, key).Some?
      ensures r.Some? ==> r.value == entries[Find(entries, key).value].1
    {
      match Find(entries, key)
      case Some(i) => Some(entries[i].1)
      case None => None
    }

    function Size(): int
      reads this
    {
      cacheSize
    }

    method EnforceSizeLimit()
      requires Consistent()
      modifies this
      ensures Consistent()
      ensures entries == old(entries)[EvictCount(old(entries), sizeOf, sizeLimit)..]
    {
      ghost var removed := 0;
      while entries != []
        invariant Consistent() && 0 <= removed <= |old(entries)|
        invariant entries == old(entries)[removed..]
        invariant EvictCount(old(entries), sizeOf, sizeLimit) == removed + EvictCount(entries, sizeOf, sizeLimit)
        decreases |entries|
      {
        var (key, value) := entries[0];
        ghost var rest := entries[1..];
        entries := entries[1..];
        cacheSize := cacheSize - sizeOf(value);
        removed := removed + 1;
        assert old(entries)[removed..] == rest;
        if cacheSize <= sizeLimit {
          break;
        }
      }
    }

    /** A hit returns the value and makes its key the most recently used; a miss changes nothing. */
    method Get(key: K) returns (r: Option<V>)
      requires Valid()
      modifies this
      ensures Valid()
      ensures r == old(Lookup(key))
      ensures entries == AfterGet(old(entries), key)
    {
      r := Lookup(key);
      if r.Some? {
        var i := Find(entries, key).value;
        AfterGetReorders(entries, key, sizeOf);
        entries := Remove(entries, i);
        entries := entries + [(key, r.value)];
      }
    }

    method Set(key: K, value: V)
      requires Valid()
      modifies this
      ensures Valid()
      ensures entries == AfterSet(old(entries), key, value, sizeOf, sizeLimit)
    {
      var oldValue := Lookup(key);
      var sizeDelta := if oldValue.None? then sizeOf(value) else sizeOf(value) - sizeOf(oldValue.value);
      ghost var ins := Insert(entries, key, value);
      match Find(entries, key) {
        case Some(i) =>
          TotalAround(entries, i, sizeOf);
          TotalAround(ins, i, sizeOf);
          assert ins[..i] == entries[..i] && ins[i + 1..] == entries[i + 1..];
          entries := entries[i := (key, value)];
        case None =>
          TotalAppend(entries, [(key, value)], sizeOf);
          assert Total([(key, value)], sizeOf) == sizeOf(value);
          entries := entries + [(key, value)];
      }
      cacheSize := cacheSize + sizeDelta;
      if cacheSize > sizeLimit {
        EnforceSizeLimit();
        if sizeLimit >= 0 {
          AfterSetWithinLimit(old(entries), key, value, sizeOf, sizeLimit);
        }
      }
      assert entries == AfterSet(old(entries), key, value, sizeOf, sizeLimit);
      assert DistinctKeys(entries);
    }
  }

  /**
   * `SymbolicLRUCache`: an LRU cache keyed by the key's `id` that loads a
   * missing value and caches it unless the loader gives nothing.
   */
  class SymbolicLRUCache<K, V> {
    const base: LRUCache<nat, V>
    /** `key.id` */
    const idOf: K -> nat
    const load: K -> Option<V>
    /** how many times the loader has been called */
    ghost var loads: nat

    constructor (sizeLimit: int, sizeOf: V -> nat, idOf: K -> nat, load: K -> Option<V>)
      ensures fresh(base) && base.Valid() && base.entries == [] && base.sizeLimit == sizeLimit
      ensures this.idOf == idOf && this.load == load && loads == 0
    {
      base := new LRUCache(sizeLimit, sizeOf);
      this.idOf := idOf;
      this.load := load;
      loads := 0;
    }

    function Size(): int
      reads base
    {
      base.Size()
    }

    /** A hit is served from the cache; only a miss calls the loader, and caches what it gives. */
    method Get(key: K) returns (r: Option<V>)
      requires base.Valid()
      modifies this, base
      ensures base.Valid()
      ensures old(base.Lookup(idOf(key))).Some? ==>
                r == old(base.Lookup(idOf(key))) && loads == old(loads)
                && base.entries == AfterGet(old(base.entries), idOf(key))
      ensures old(base.Lookup(idOf(key))).None? ==>
                r == load(key) && loads == old(loads) + 1
                && base.entries == (if r.None? then old(base.entries)
                                    else AfterSet(old(base.entries), idOf(key), r.value, base.sizeOf, base.sizeLimit))
    {
      r := base.Get(idOf(key));
      if r.None? {
        r := load(key);
        loads := loads + 1;
        if r.Some? {
          base.Set(idOf(key), r.value);
        }
      }
    }
  }

  /** The sum of the items' sizes (`Stack.size`). */
  function SumSizes<T>(s: seq<T>, sizeOf: T -> nat): nat
  {
    if s == [] then 0 else sizeOf(s[0]) + SumSizes(s[1..], sizeOf)
  }

  /** `Stack`: a stack whose top is the first element of its array. */
  class Stack<T> {
    var data: seq<T>
    const sizeOf: T -> nat

    constructor (data: seq<T>, sizeOf: T -> nat)
      ensures this.data == data && this.sizeOf == sizeOf
    {
      this.data := data;
      this.sizeOf := sizeOf;
    }

    function Size(): nat
      reads this
    {
      SumSizes(data, sizeOf)
    }

    function Top(): (r: Option<T>)
      reads this
      ensures r.None? <==> data == []
      ensures r.Some? ==> r.value == data[0]
    {
      if |data| == 0 then None else Some(data[0])
    }

    /** Empties the stack and returns what was at its bottom. */
    method Clear() returns (bottom: Option<T>)
      modifies this
      ensures data == []
      ensures old(data) == [] ==> bottom.None?
      ensures old(data) != [] ==> bottom == Some(old(data)[|old(data)| - 1])
    {
      var len := |data|;
      bottom := if len == 0 then None else Some(data[len - 1]);
      data := [];
    }

    method Pop() returns (r: Option<T>)
      modifies this
      ensures old(data) == [] ==> r.None? && data == []
      ensures old(data) != [] ==> r == Some(old(data)[0]) && data == old(data)[1..]
    {
      if data == [] {
        r := None;
      } else {
        r := Some(data[0]);
        data := data[1..];
      }
    }

    method Push(item: T)
      modifies this
      ensures data == [item] + old(data)
      ensures Size() == sizeOf(item) + old(Size())
    {
      data := [item] + data;
      assert data[1..] == old(data);
    }
  }

  /** What is pushed is popped first, and popping it restores the stack. */
  method PushThenPop<T>(items: seq<T>, item: T, sizeOf: T -> nat) returns (r: Option<T>, after: seq<T>)
    ensures r == Some(item) && after == items
  {
    var stack := new Stack(items, sizeOf);
    stack.Push(item);
    r := stack.Pop();
    after := stack.data;
  }
}
