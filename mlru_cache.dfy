/**
 * The memory-bounded LRU item state cache. The `LinkedMap` from item id to entry
 * is kept as the key order (`order`, front = oldest, back = freshest) plus the
 * entry of each key (`entries`); `totalMem` is the running sum of the cached
 * entry sizes, `maxMem` the ceiling after which the shrink loop evicts from the
 * front, and `accessCount` the number of `touch()` calls since the last reset.
 */
module MLRUCache {
  import opened LinkedOrder
  import opened CacheEntries

  /** Ceiling used by the no-argument constructor: 4 MiB. */
  const DefaultMaxMem: nat := 4 * 1024 * 1024

  /** A state or `null`. */
  datatype Option<T> = None | Some(value: T)

  /** The order after the id of a cached state is removed and put back: it is the freshest. */
  ghost function Placed(order: seq<ItemId>, id: ItemId): (p: seq<ItemId>)
    ensures forall k :: k in p <==> k in order || k == id
    ensures p != [] && p[|p| - 1] == id
  {
    RemoveKey(order, id) + [id]
  }

  /** The entries after a cached state is put under its id, sized under the current footprints. */
  ghost function Held(entries: map<ItemId, Entry>, state: ItemState, footprint: Footprint): (m: map<ItemId, Entry>)
    ensures m.Keys == entries.Keys + {state.id}
    ensures m[state.id] == NewEntry(state, footprint)
  {
    entries[state.id := NewEntry(state, footprint)]
  }

  /** How many ids the shrink loop evicts after `state` is cached. */
  ghost function Evictions(order: seq<ItemId>, entries: map<ItemId, Entry>, state: ItemState,
                           footprint: Footprint, maxMem: int): nat
    requires KeysIn(order, entries)
  {
    ShrinkPoint(Placed(order, state.id), Held(entries, state, footprint), maxMem)
  }

  /** The order after `cache(state)`: `state`'s id is placed last, then the front is evicted. */
  ghost function CachedOrder(order: seq<ItemId>, entries: map<ItemId, Entry>, state: ItemState,
                             footprint: Footprint, maxMem: int): seq<ItemId>
    requires KeysIn(order, entries)
  {
    Placed(order, state.id)[Evictions(order, entries, state, footprint, maxMem)..]
  }

  /**
   * Under a non-negative ceiling, a cached state stays exactly when its own entry
   * fits under the ceiling; then it is the freshest id, and otherwise the shrink
   * loop empties the cache.
   */
  lemma CacheKeepsIffFits(order: seq<ItemId>, entries: map<ItemId, Entry>, state: ItemState,
                          footprint: Footprint, maxMem: int)
    requires KeysIn(order, entries) && maxMem >= 0
    ensures var r := CachedOrder(order, entries, state, footprint, maxMem);
            && (state.id in r <==> NewEntry(state, footprint).size <= maxMem)
            && (r != [] ==> r[|r| - 1] == state.id)
            && (state.id !in r ==> r == [])
  {
    ShrinkEvictsLastIff(Placed(order, state.id), Held(entries, state, footprint), maxMem);
  }

  /**
   * Caching the state of an id not held, when the total with its entry fits,
   * evicts nothing: the id is appended.
   */
  lemma CacheWithoutEviction(order: seq<ItemId>, entries: map<ItemId, Entry>, state: ItemState,
                             footprint: Footprint, maxMem: int)
    requires KeysIn(order, entries) && state.id !in order
    requires TotalSize(order, entries) + NewEntry(state, footprint).size <= maxMem
    ensures Evictions(order, entries, state, footprint, maxMem) == 0
    ensures CachedOrder(order, entries, state, footprint, maxMem) == order + [state.id]
  {
    var held := Held(entries, state, footprint);
    assert Placed(order, state.id) == order + [state.id];
    TotalSizeFrame(order, entries, held);
    TotalSizeAppend(order, held, state.id);
  }

  class MLRUItemStateCache {
    var order: seq<ItemId>
    var entries: map<ItemId, Entry>
    var totalMem: int
    var maxMem: int
    var accessCount: nat

    /**
     * The object invariant: each id occurs once in the order, the order and the
     * map hold the same ids, `totalMem` is the sum of the cached sizes, and the
     * ceiling is non-negative (so the shrink loop never looks at an empty map).
     */
    ghost predicate Valid()
      reads this
    {
      && Distinct(order)
      && KeysIn(order, entries)
      && (forall k :: k in entries ==> k in order)
      && totalMem == TotalSize(order, entries)
      && maxMem >= 0
    }

    /** `MLRUItemStateCache(maxMem)`: an empty cache with the given ceiling. */
    constructor (maxMem: int)
      requires maxMem >= 0
      ensures Valid()
      ensures order == [] && entries == map[] && totalMem == 0
      ensures this.maxMem == maxMem && accessCount == 0
    {
      order := [];
      entries := map[];
      totalMem := 0;
      this.maxMem := maxMem;
      accessCount := 0;
    }

    /** `MLRUItemStateCache()`: an empty cache with the default ceiling. */
    constructor Default()
      ensures Valid()
      ensures order == [] && entries == map[] && totalMem == 0
      ensures maxMem == DefaultMaxMem && accessCount == 0
    {
      order := [];
      entries := map[];
      totalMem := 0;
      maxMem := DefaultMaxMem;
      accessCount := 0;
    }

    /** Whether `id` has an entry; does not touch. */
    function IsCached(id: ItemId): (b: bool)
      reads this
      requires Valid()
      ensures b <==> id in order
    {
      id in entries
    }

    /** Counts one access. */
    method Touch()
      modifies this`accessCount
      ensures accessCount == old(accessCount) + 1
    {
      accessCount := accessCount + 1;
    }

    /**
     * Looks up `id`; a hit is moved to the freshest position by removing and
     * re-inserting it, a miss leaves the cache as it is. Both count one access.
     */
    method Retrieve(id: ItemId) returns (r: Option<ItemState>)
      requires Valid()
      modifies this
      ensures Valid()
      ensures entries == old(entries) && totalMem == old(totalMem) && maxMem == old(maxMem)
      ensures accessCount == old(accessCount) + 1
      ensures id in old(entries) ==> r == Some(old(entries)[id].state) && order == RemoveKey(old(order), id) + [id]
      ensures id !in old(entries) ==> r == None && order == old(order)
    {
      Touch();
      if id in entries {
        var entry := entries[id];
        TotalSizeRemove(order, entries, id);
        RemoveKeyDistinct(order, id);
        order := RemoveKey(order, id);
        AppendDistinct(order, id);
        TotalSizeAppend(order, entries, id);
        order := order + [id];
        r := Some(entry.state);
      } else {
        r := None;
      }
    }

    /**
     * Re-measures the entry of `id` under the current footprints: `totalMem`
     * loses the old size and gains the new one. A miss changes nothing but the
     * access count.
     */
    method Update(id: ItemId, footprint: Footprint)
      requires Valid()
      modifies this
      ensures Valid()
      ensures order == old(order) && maxMem == old(maxMem)
      ensures accessCount == old(accessCount) + 1
      ensures id in old(entries) ==>
                && entries == old(entries)[id := Recalc(old(entries)[id], footprint)]
                && totalMem == old(totalMem) - old(entries)[id].size + entries[id].size
      ensures id !in old(entries) ==> entries == old(entries) && totalMem == old(totalMem)
    {
      Touch();
      if id in entries {
        var entry := entries[id];
        totalMem := totalMem - entry.size;
        var remeasured := Recalc(entry, footprint);
        TotalSizeReplace(order, entries, id, remeasured);
        entries := entries[id := remeasured];
        totalMem := totalMem + remeasured.size;
      }
    }

    /**
     * Stores `state` as the freshest entry, sized under the current footprints.
     * An entry already held for its id is evicted first, so the id never occurs
     * twice. Then the shrink loop evicts from the front until the total fits
     * under the ceiling; every eviction, like the call itself, counts one access.
     */
    method Cache(state: ItemState, footprint: Footprint)
      requires Valid()
      modifies this
      ensures Valid() && maxMem == old(maxMem)
      ensures totalMem <= maxMem
      ensures order == CachedOrder(old(order), old(entries), state, footprint, maxMem)
      ensures forall k :: k in entries ==> entries[k] == Held(old(entries), state, footprint)[k]
      ensures accessCount == old(accessCount) + 1 + (if state.id in old(entries) then 1 else 0)
                             + Evictions(old(order), old(entries), state, footprint, maxMem)
    {
      Touch();
      var id := state.id;
      ghost var held := Held(entries, state, footprint);
      ghost var hit := id in entries;
      assert Placed(order, id) == RemoveKey(order, id) + [id];
      if id in entries {
        Evict(id);
      }
      assert entries[id := NewEntry(state, footprint)] == held;
      var entry := NewEntry(state, footprint);
      Put(id, entry);
      assert accessCount == old(accessCount) + 1 + (if hit then 1 else 0);
      ShrinkIfRequired();
    }

    /** `LinkedMap.put` of an id it does not hold: the id becomes the freshest, its size is added. */
    method Put(id: ItemId, entry: Entry)
      requires Valid() && id !in entries
      modifies this
      ensures Valid()
      ensures order == old(order) + [id] && entries == old(entries)[id := entry]
      ensures totalMem == old(totalMem) + entry.size
      ensures maxMem == old(maxMem) && accessCount == old(accessCount)
    {
      AppendDistinct(order, id);
      TotalSizeFrame(order, entries, entries[id := entry]);
      TotalSizeAppend(order, entries[id := entry], id);
      order := order + [id];
      entries := entries[id := entry];
      totalMem := totalMem + entry.size;
    }

    /**
     * The shrink loop: while the total is over the ceiling, evict the oldest
     * entry. The evicted ids are a prefix of the order, the survivors keep
     * their entries and their order, and the loop stops at the first point
     * where the rest fits.
     */
    method ShrinkIfRequired()
      requires Valid()
      modifies this
      ensures Valid() && maxMem == old(maxMem)
      ensures totalMem <= maxMem
      ensures var n := ShrinkPoint(old(order), old(entries), maxMem);
              order == old(order)[n..] && accessCount == old(accessCount) + n
      ensures forall k :: k in entries ==> k in old(entries) && entries[k] == old(entries)[k]
    {
      ghost var s0, m0 := order, entries;
      ghost var n := 0;
      while totalMem > maxMem
        invariant Valid() && maxMem == old(maxMem)
        invariant KeysIn(s0, m0)
        invariant n <= |s0| && order == s0[n..]
        invariant forall k :: k in entries ==> k in m0 && entries[k] == m0[k]
        invariant accessCount == old(accessCount) + n
        invariant n <= ShrinkPoint(s0, m0, maxMem)
        decreases |order|
      {
        var id := order[0];
        TotalSizeFrame(order, entries, m0);
        ShrinkPointAdvance(s0, m0, maxMem, n);
        assert RemoveKey(order, id) == order[1..];
        Evict(id);
        assert s0[n..][1..] == s0[n + 1..];
        n := n + 1;
      }
      TotalSizeFrame(order, entries, m0);
      ShrinkPointStop(s0, m0, maxMem, n);
    }

    /** Drops the entry of `id`, if any, and takes exactly its size off the total; counts one access. */
    method Evict(id: ItemId)
      requires Valid()
      modifies this
      ensures Valid() && maxMem == old(maxMem)
      ensures accessCount == old(accessCount) + 1
      ensures order == RemoveKey(old(order), id) && entries == old(entries) - {id}
      ensures totalMem == old(totalMem) - (if id in old(entries) then old(entries)[id].size else 0)
    {
      Touch();
      if id in entries {
        var entry := entries[id];
        TotalSizeRemove(order, entries, id);
        TotalSizeFrame(RemoveKey(order, id), entries, entries - {id});
        RemoveKeyDistinct(order, id);
        order := RemoveKey(order, id);
        entries := entries - {id};
        totalMem := totalMem - entry.size;
      } else {
        assert entries - {id} == entries;
      }
    }

    /** Drops every entry and zeroes the total; does not touch. */
    method EvictAll()
      requires Valid()
      modifies this
      ensures Valid()
      ensures order == [] && entries == map[] && totalMem == 0
      ensures maxMem == old(maxMem) && accessCount == old(accessCount)
    {
      order := [];
      entries := map[];
      totalMem := 0;
    }

    /** Whether the cache holds no entry; an empty cache accounts for no memory. */
    function IsEmpty(): (b: bool)
      reads this
      requires Valid()
      ensures b <==> order == []
      ensures b ==> totalMem == 0
    {
      |entries| == 0
    }

    /** The number of entries, which is the length of the order. */
    function Size(): (n: nat)
      reads this
      requires Valid()
      ensures n == |order|
    {
      assert entries.Keys == set k | k in order;
      DistinctCardinality(order);
      |entries|
    }

    /** The ids currently held, as a set. */
    function KeySet(): (ks: set<ItemId>)
      reads this
      requires Valid()
      ensures forall k :: k in ks <==> k in order
      ensures |ks| == |order|
    {
      assert entries.Keys == set k | k in order;
      DistinctCardinality(order);
      entries.Keys
    }

    /** The cached states, oldest first. */
    method Values() returns (vs: seq<ItemState>)
      requires Valid()
      ensures |vs| == |order|
      ensures forall i :: 0 <= i < |order| ==> vs[i] == entries[order[i]].state
    {
      vs := [];
      var i := 0;
      while i < |order|
        invariant 0 <= i <= |order|
        invariant |vs| == i
        invariant forall j :: 0 <= j < i ==> vs[j] == entries[order[j]].state
      {
        vs := vs + [entries[order[i]].state];
        i := i + 1;
      }
    }

    /** The access count. */
    function GetAccessCount(): nat
      reads this
    {
      accessCount
    }

    /** The ceiling. */
    function GetMaxMemorySize(): int
      reads this
    {
      maxMem
    }

    /**
     * Re-measures every entry under the current footprints, oldest first, and
     * makes `totalMem` their new sum, which it returns. Ids, order, ceiling and
     * access count do not change, and no entry is evicted even if the new total
     * is over the ceiling.
     */
    method GetMemoryUsed(footprint: Footprint) returns (used: int)
      requires Valid()
      modifies this
      ensures Valid()
      ensures order == old(order) && maxMem == old(maxMem) && accessCount == old(accessCount)
      ensures entries == RemeasureAll(old(entries), footprint)
      ensures used == totalMem
    {
      var remeasured := entries;
      var mem := 0;
      var rest := order;
      ghost var visited: seq<ItemId> := [];
      while rest != []
        modifies {}
        invariant visited + rest == order
        invariant RemeasuredOn(visited, entries, remeasured, footprint)
        invariant KeysIn(visited, remeasured) && mem == TotalSize(visited, remeasured)
        decreases |rest|
      {
        var id := rest[0];
        RemeasureStep(visited, rest, entries, remeasured, footprint);
        var entry := Recalc(remeasured[id], footprint);
        remeasured := remeasured[id := entry];
        mem := mem + entry.size;
        visited := visited + [id];
        rest := rest[1..];
      }
      assert visited == order;
      assert remeasured == RemeasureAll(entries, footprint);
      entries, totalMem := remeasured, mem;
      used := totalMem;
    }

    /** Sets the access count back to zero. */
    method ResetAccessCount()
      requires Valid()
      modifies this
      ensures Valid()
      ensures accessCount == 0
      ensures order == old(order) && entries == old(entries)
      ensures totalMem == old(totalMem) && maxMem == old(maxMem)
    {
      accessCount := 0;
    }

    /**
     * Sets the ceiling and runs the shrink loop at once, so the total fits under
     * the new ceiling; the evicted ids are the shortest prefix of the order
     * whose removal makes the rest fit.
     */
    method SetMaxMemorySize(size: int)
      requires Valid() && size >= 0
      modifies this
      ensures Valid() && maxMem == size
      ensures totalMem <= size
      ensures KeysIn(old(order), old(entries))
      ensures var n := ShrinkPoint(old(order), old(entries), size);
              order == old(order)[n..] && accessCount == old(accessCount) + n
      ensures forall k :: k in entries ==> k in old(entries) && entries[k] == old(entries)[k]
    {
      maxMem := size;
      ShrinkIfRequired();
    }
  }
}
