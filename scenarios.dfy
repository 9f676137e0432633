/**
 * Client methods of the cache for small concrete cases; each one only uses the
 * contracts of the cache's operations.
 */
module CacheScenarios {
  import opened LinkedOrder
  import opened CacheEntries
  import opened MLRUCache

  /** A state that fits under the ceiling, cached into a fresh cache, is its only entry. */
  method CacheIntoEmpty(a: ItemState, footprint: Footprint, maxMem: nat) returns (c: MLRUItemStateCache)
    requires NewEntry(a, footprint).size <= maxMem
    ensures fresh(c) && c.Valid() && c.maxMem == maxMem && c.accessCount == 1
    ensures c.order == [a.id] && c.entries == map[a.id := NewEntry(a, footprint)]
    ensures c.totalMem == NewEntry(a, footprint).size
  {
    c := new MLRUItemStateCache(maxMem);
    c.Cache(a, footprint);
    CacheWithoutEviction([], map[], a, footprint, maxMem);
    assert c.order == [a.id];
    assert c.order[1..] == [];
    assert c.totalMem == TotalSize([a.id], c.entries) == c.entries[a.id].size + TotalSize([], c.entries);
  }

  /** Two entries of 114 bytes under a 200-byte ceiling: the second insert evicts the first. */
  method EvictsOldestOnOverflow(a: ItemState, b: ItemState, footprint: Footprint)
    requires a.id != b.id && footprint(a) == 50 && footprint(b) == 50
  {
    var c := CacheIntoEmpty(a, footprint, 200);
    ghost var held := Held(c.entries, b, footprint);
    ghost var placed := [a.id, b.id];
    assert RemoveKey([a.id], b.id) == [a.id] && Placed([a.id], b.id) == placed;
    assert placed[1..] == [b.id] && placed[1..][1..] == [];
    assert TotalSize([b.id], held) == 114;
    assert TotalSize(placed, held) == 228;
    assert ShrinkPoint(placed, held, 200) == 1;
    c.Cache(b, footprint);
    assert c.order == placed[1..] == [b.id];
    assert !c.IsCached(a.id);
    assert c.totalMem == TotalSize([b.id], c.entries) == 114;
  }

  /**
   * Two entries of 100 bytes fill a 200-byte ceiling; a read promotes the
   * oldest, so the third insert evicts the other one instead.
   */
  method ReadPromotesEntry(a: ItemState, b: ItemState, c: ItemState, footprint: Footprint)
    requires a.id != b.id && b.id != c.id && a.id != c.id
    requires footprint(a) == 36 && footprint(b) == 36 && footprint(c) == 36
  {
    var cache := FillTwo(a, b, footprint);
    var r := cache.Retrieve(a.id);
    assert r == Some(a);
    assert RemoveKey([a.id, b.id], a.id) == [b.id];
    assert cache.order == RemoveKey([a.id, b.id], a.id) + [a.id] == [b.id] + [a.id] == [b.id, a.id];
    InsertEvictsOldest(cache, a, b, c, footprint);
    assert a.id in cache.order && b.id !in cache.order;
    assert cache.IsCached(a.id) && !cache.IsCached(b.id);
  }

  /** Two entries of 100 bytes under a 200-byte ceiling both stay, oldest first. */
  method FillTwo(a: ItemState, b: ItemState, footprint: Footprint) returns (cache: MLRUItemStateCache)
    requires a.id != b.id && footprint(a) == 36 && footprint(b) == 36
    ensures fresh(cache) && cache.Valid() && cache.maxMem == 200 && cache.order == [a.id, b.id]
    ensures cache.entries == map[a.id := Entry(a, 100), b.id := Entry(b, 100)]
  {
    cache := CacheIntoEmpty(a, footprint, 200);
    ghost var order1, entries1 := cache.order, cache.entries;
    cache.Cache(b, footprint);
    CacheWithoutEviction(order1, entries1, b, footprint, 200);
    assert cache.order == [a.id] + [b.id] == [a.id, b.id];
  }

  /** With the order `b, a` filling the ceiling, inserting `c` evicts `b` only. */
  method InsertEvictsOldest(cache: MLRUItemStateCache, a: ItemState, b: ItemState, c: ItemState, footprint: Footprint)
    requires cache.Valid() && cache.maxMem == 200
    requires a.id != b.id && b.id != c.id && a.id != c.id && footprint(c) == 36
    requires cache.order == [b.id, a.id]
    requires cache.entries == map[a.id := Entry(a, 100), b.id := Entry(b, 100)]
    modifies cache
    ensures cache.Valid() && cache.order == [a.id, c.id]
  {
    ghost var held := Held(cache.entries, c, footprint);
    ghost var placed := [b.id, a.id, c.id];
    assert RemoveKey([b.id, a.id], c.id) == [b.id, a.id] && Placed([b.id, a.id], c.id) == placed;
    assert placed[1..] == [a.id, c.id] && placed[1..][1..] == [c.id];
    assert TotalSize([c.id], held) == 100;
    assert TotalSize([a.id, c.id], held) == 200;
    assert TotalSize(placed, held) == 300;
    assert ShrinkPoint(placed, held, 200) == 1;
    cache.Cache(c, footprint);
    assert cache.order == placed[1..];
  }

  /** An entry larger than the ceiling does not stay: the cache ends empty. */
  method OversizedEntryIsEvicted(a: ItemState, footprint: Footprint)
    requires footprint(a) == 436
  {
    var c := new MLRUItemStateCache(200);
    c.Cache(a, footprint);
    CacheKeepsIffFits([], map[], a, footprint, 200);
    assert c.IsEmpty() && c.totalMem == 0;
    assert Placed([], a.id) == [a.id] && [a.id][1..] == [];
    assert ShrinkPoint([a.id], Held(map[], a, footprint), 200) == 1;
    assert c.accessCount == 2;
  }

  /** Caching a state whose id is held replaces the entry; the id still occurs once. */
  method DisplacementKeepsOneEntry(a: ItemState, a2: ItemState, footprint: Footprint)
    requires a.id == a2.id && footprint(a) == 10 && footprint(a2) == 20
  {
    var c := CacheIntoEmpty(a, footprint, 1000);
    ghost var held := Held(c.entries, a2, footprint);
    assert held == map[a.id := Entry(a2, 84)];
    assert RemoveKey([a.id], a.id) == [] && Placed([a.id], a.id) == [a.id];
    assert TotalSize([a.id], held) == 84;
    assert ShrinkPoint([a.id], held, 1000) == 0;
    c.Cache(a2, footprint);
    assert c.order == [a.id] && c.Size() == 1;
    assert c.entries[a.id] == Entry(a2, 84);
    assert c.accessCount == 3;
    assert c.totalMem == TotalSize([a.id], c.entries) == 84;
  }

  /** After clearing, the cache is empty and measures no memory. */
  method ClearThenMeasure(a: ItemState, b: ItemState, footprint: Footprint, later: Footprint)
    requires a.id != b.id
  {
    var c := new MLRUItemStateCache.Default();
    c.Cache(a, footprint);
    c.Cache(b, footprint);
    c.EvictAll();
    assert c.IsEmpty();
    var used := c.GetMemoryUsed(later);
    assert used == 0;
  }
}
