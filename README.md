# Memory-bounded LRU item state cache

A Dafny model of Jackrabbit's `MLRUItemStateCache`, an item state cache that
is bounded by memory. It keeps item states in a `LinkedMap` from item id to
`Entry`, ordered from the least to the most recently used id. Each entry
records the state and its estimated size: 64 bytes of overhead plus the
state's memory footprint. `totalMem` is the sum of those sizes. Whenever an
insert takes the sum over the ceiling `maxMem`, the shrink loop evicts ids
from the front of the order until the sum fits again. `retrieve` moves a hit
to the back. `retrieve`, `update`, `cache` and `evict` each count one access,
and so does every eviction the shrink loop makes.

The model is imperative, as the source is. `MLRUCache.MLRUItemStateCache` is
a class with these fields:

- `order` holds the linked map's key order, front = oldest;
- `entries` holds the entry of each key;
- `totalMem`, `maxMem` and `accessCount` are the Java fields of the same names.

The object invariant `Valid()` states:

- every id occurs once in `order`;
- `order` and `entries` hold the same ids;
- `totalMem` equals `TotalSize(order, entries)`, the recursive sum of the cached sizes;
- the ceiling is non-negative.

Every method keeps `Valid()` and states its whole new state. Methods with loops
(`ShrinkIfRequired`, `Values`, `GetMemoryUsed`) carry the loop invariants that
tie the loop to a specification function or to the map's contents.

The specification functions live in three modules:

- `LinkedOrder` models the key order of the linked map. `Distinct` says each key
  occurs once. `RemoveKey` is `LinkedMap.remove` on the order. `put` of an absent
  key appends it.
- `CacheEntries` declares item ids, states and entries. It defines `TotalSize`
  and `ShrinkPoint`, the number of front ids the shrink loop evicts. Both come
  with lemmas: the shrink point is the first position from which the rest fits,
  and it is the only such position.
- `MLRUCache` holds the class and, for `cache(state)`, the functions `Placed`,
  `Held`, `Evictions` and `CachedOrder`. These describe the state after the
  call, and lemmas about them give its consequences:
  - the id stays exactly when its own entry fits under the ceiling;
  - a kept id is the freshest;
  - an oversized state empties the cache;
  - for an id not yet held, nothing is evicted when the total with the new
    entry fits (a held id always has its old entry evicted first, which counts
    one more access).

`CacheScenarios` holds client methods that use only the operations' contracts
to derive the cache's behaviour in small concrete cases:

- overflow evicts the oldest entry;
- a read saves an entry from eviction;
- an oversized entry is dropped at once;
- re-caching an id replaces its entry;
- clearing and then measuring yields zero.

`calculateMemoryFootprint()` belongs to the item state and can change between
calls. It is modelled as a parameter `footprint: ItemState -> nat`, passed to
each operation that measures (`cache`, `update`, `getMemoryUsed`). Item ids and
item state contents are abstract types.

Some functions are plain definitions, and the operations' contracts are
stated in terms of them. They carry no promise beyond their definitions:

- `CacheEntries.NewEntry` is `new Entry(state)` (lines 278-281): the state,
  with a size of 64 plus its current footprint.
- `CacheEntries.Recalc` is `Entry.recalc()` (lines 283-285): the same state,
  re-sized under the same rule. `Update` is stated in terms of it.
- `CacheEntries.RemeasureAll` re-sizes every entry of a map with that rule.
  `GetMemoryUsed` is stated in terms of it (lines 240-245).
- `MLRUCache.Held` is the map after `cache(state)` puts the new entry (lines
  133-134). `Cache` is stated in terms of it.

Two behaviours one might expect from an LRU cache bounded by memory do not
hold in the code, and the model follows the code:

- One might expect an entry larger than the ceiling on its own to be kept
  until the next insert. It is not: the shrink loop has no emptiness test,
  so it evicts that entry too, together with
  everything older, and the cache ends empty (`CacheKeepsIffFits`). After
  every `cache` and `setMaxMemorySize`, the total is under the ceiling.
- One might expect every operation to count exactly one access. Not every
  operation touches:
  - `isCached`, `evictAll`, `isEmpty`, `size`, `keySet`, `values`,
    `getMemoryUsed` and `setMaxMemorySize` do not;
  - the nested `evict` calls do touch. A `cache` of an already held id
    therefore counts two accesses, and each eviction by the shrink loop counts
    one more.

## Model

| member | source | states |
|---|---|---|
| LinkedOrder.RemoveKey | src/main/java/org/apache/jackrabbit/core/state/MLRUItemStateCache.java:96 | removal from the linked map keeps exactly the other keys; an absent key changes nothing; a present key of a distinct order shortens it by one |
| LinkedOrder.RemoveKeyDistinct | src/main/java/org/apache/jackrabbit/core/state/MLRUItemStateCache.java:157 | removing a key keeps every id occurring once |
| LinkedOrder.RemoveKeyAt | src/main/java/org/apache/jackrabbit/core/state/MLRUItemStateCache.java:96 | in a distinct order, removing the key at position i closes the gap at i and keeps the relative order of the others |
| LinkedOrder.AppendDistinct | src/main/java/org/apache/jackrabbit/core/state/MLRUItemStateCache.java:99 | putting back a key that is not in the order keeps every id occurring once |
| LinkedOrder.DistinctCardinality | src/main/java/org/apache/jackrabbit/core/state/MLRUItemStateCache.java:186-190 | a distinct order has as many keys as positions, which makes the map's size its length |
| LinkedOrder.DistinctIffPairwise | src/main/java/org/apache/jackrabbit/core/state/MLRUItemStateCache.java:129-134 | the recursive distinctness of the key order is equivalent to any two positions holding different keys |
| LinkedOrder.DistinctConcat | src/main/java/org/apache/jackrabbit/core/state/MLRUItemStateCache.java:240-245 | in a distinct order split into visited and remaining keys, no remaining key was visited |
| CacheEntries.ShrinkPoint | src/main/java/org/apache/jackrabbit/core/state/MLRUItemStateCache.java:143-149 | the shrink loop evicts at most every id of the order |
| CacheEntries.TotalSizeFrame | src/main/java/org/apache/jackrabbit/core/state/MLRUItemStateCache.java:157-160 | the accounted total depends only on the entries of the ids in the order |
| CacheEntries.TotalSizeAppend | src/main/java/org/apache/jackrabbit/core/state/MLRUItemStateCache.java:134-135 | putting an id at the back adds exactly its entry's size to the total |
| CacheEntries.TotalSizeRemove | src/main/java/org/apache/jackrabbit/core/state/MLRUItemStateCache.java:157-160 | removing an id that occurs once takes exactly its entry's size off the total |
| CacheEntries.TotalSizeReplace | src/main/java/org/apache/jackrabbit/core/state/MLRUItemStateCache.java:115-117 | replacing an entry changes the total by the difference of the old and the new size |
| CacheEntries.RemeasureStep | src/main/java/org/apache/jackrabbit/core/state/MLRUItemStateCache.java:241-244 | one iteration of the re-measuring loop extends the re-measured prefix by the next id and adds its new size to the running total |
| CacheEntries.TotalSizeAtLeast | src/main/java/org/apache/jackrabbit/core/state/MLRUItemStateCache.java:145 | no single entry's size exceeds the total of an order holding it |
| CacheEntries.ShrinkPointFits | src/main/java/org/apache/jackrabbit/core/state/MLRUItemStateCache.java:145-148 | with a non-negative ceiling, what the shrink loop leaves fits under it |
| CacheEntries.ShrinkPointLeast | src/main/java/org/apache/jackrabbit/core/state/MLRUItemStateCache.java:145-148 | the shrink loop evicts no more than it must: every state before its stopping point is over the ceiling |
| CacheEntries.ShrinkPointUnique | src/main/java/org/apache/jackrabbit/core/state/MLRUItemStateCache.java:145-148 | the first position from which the rest fits, with every earlier one over the ceiling, is where the shrink loop stops |
| CacheEntries.ShrinkPointAdvance | src/main/java/org/apache/jackrabbit/core/state/MLRUItemStateCache.java:145-147 | while the remaining total is over the ceiling, the loop has not reached its stopping point yet |
| CacheEntries.ShrinkPointStop | src/main/java/org/apache/jackrabbit/core/state/MLRUItemStateCache.java:145 | once the remaining total fits, the loop is at its stopping point |
| CacheEntries.ShrinkEvictsLastIff | src/main/java/org/apache/jackrabbit/core/state/MLRUItemStateCache.java:133-148 | the freshest id is evicted exactly when its own entry is over the ceiling; otherwise it is still the freshest id of what remains |
| MLRUCache.Placed | src/main/java/org/apache/jackrabbit/core/state/MLRUItemStateCache.java:129-134 | after evicting a held id and putting it back, the order holds the old ids plus the id, and the id is last |
| MLRUCache.CacheKeepsIffFits | src/main/java/org/apache/jackrabbit/core/state/MLRUItemStateCache.java:133-148 | after caching a state, its id is held if and only if its own entry fits under the ceiling; a non-empty result ends with that id; an oversized state leaves the cache empty |
| MLRUCache.CacheWithoutEviction | src/main/java/org/apache/jackrabbit/core/state/MLRUItemStateCache.java:133-136 | caching a new id whose entry fits with the current total evicts nothing and appends the id |
| MLRUCache.MLRUItemStateCache.constructor | src/main/java/org/apache/jackrabbit/core/state/MLRUItemStateCache.java:75-78 | a new cache is empty, uses no memory, has the given ceiling and has counted no access |
| MLRUCache.MLRUItemStateCache.Default | src/main/java/org/apache/jackrabbit/core/state/MLRUItemStateCache.java:65-67 | the no-argument constructor uses the 4 MiB default ceiling (`DEFAULT_MAX_MEM`, line 42) |
| MLRUCache.MLRUItemStateCache.IsCached | src/main/java/org/apache/jackrabbit/core/state/MLRUItemStateCache.java:84-88 | an id is cached exactly when it is in the order |
| MLRUCache.MLRUItemStateCache.Retrieve | src/main/java/org/apache/jackrabbit/core/state/MLRUItemStateCache.java:93-105 | a hit returns the cached state and moves its id to the back; a miss returns nothing and leaves the order; entries and total are unchanged; one access is counted |
| MLRUCache.MLRUItemStateCache.Update | src/main/java/org/apache/jackrabbit/core/state/MLRUItemStateCache.java:110-120 | a hit re-measures that entry and moves the total by the size difference; a miss changes nothing; order and ceiling stay; one access is counted |
| MLRUCache.MLRUItemStateCache.Cache | src/main/java/org/apache/jackrabbit/core/state/MLRUItemStateCache.java:125-141 | the new order is the placed order minus the evicted prefix; surviving entries are those after the put; the total fits under the ceiling; accesses grow by one, one more for a displaced entry, and one per eviction |
| MLRUCache.MLRUItemStateCache.Put | src/main/java/org/apache/jackrabbit/core/state/MLRUItemStateCache.java:133-135 | putting an absent id appends it, stores its entry and adds its size to the total |
| MLRUCache.MLRUItemStateCache.ShrinkIfRequired | src/main/java/org/apache/jackrabbit/core/state/MLRUItemStateCache.java:143-149 | the loop evicts exactly the shrink point's prefix of the order, one access each; survivors keep their entries; the total ends under the ceiling |
| MLRUCache.MLRUItemStateCache.Evict | src/main/java/org/apache/jackrabbit/core/state/MLRUItemStateCache.java:154-162 | the id's entry is removed from order and map and its size taken off the total; a miss changes only the access count |
| MLRUCache.MLRUItemStateCache.EvictAll | src/main/java/org/apache/jackrabbit/core/state/MLRUItemStateCache.java:167-172 | the cache is emptied and the total zeroed; ceiling and access count stay |
| MLRUCache.MLRUItemStateCache.IsEmpty | src/main/java/org/apache/jackrabbit/core/state/MLRUItemStateCache.java:177-181 | the cache is empty exactly when the order is, and then it uses no memory |
| MLRUCache.MLRUItemStateCache.Size | src/main/java/org/apache/jackrabbit/core/state/MLRUItemStateCache.java:186-190 | the size is the number of ids in the order |
| MLRUCache.MLRUItemStateCache.KeySet | src/main/java/org/apache/jackrabbit/core/state/MLRUItemStateCache.java:195-199 | the key set holds exactly the ids of the order, one element per id |
| MLRUCache.MLRUItemStateCache.Values | src/main/java/org/apache/jackrabbit/core/state/MLRUItemStateCache.java:204-214 | the values list holds the cached states, oldest first, one per id |
| MLRUCache.MLRUItemStateCache.Touch | src/main/java/org/apache/jackrabbit/core/state/MLRUItemStateCache.java:216-218 | a touch raises the access count by one |
| MLRUCache.MLRUItemStateCache.GetMemoryUsed | src/main/java/org/apache/jackrabbit/core/state/MLRUItemStateCache.java:237-248 | every entry is re-measured under the current footprints; the total becomes, and returns, their new sum; nothing is evicted and nothing else changes |
| MLRUCache.MLRUItemStateCache.ResetAccessCount | src/main/java/org/apache/jackrabbit/core/state/MLRUItemStateCache.java:253-257 | the access count becomes zero and nothing else changes |
| MLRUCache.MLRUItemStateCache.SetMaxMemorySize | src/main/java/org/apache/jackrabbit/core/state/MLRUItemStateCache.java:262-267 | the ceiling is set and the shortest prefix of the order whose eviction makes the rest fit is evicted, one access each |
| CacheScenarios.CacheIntoEmpty | src/main/java/org/apache/jackrabbit/core/state/MLRUItemStateCache.java:125-141 | a state that fits, cached into a new cache, becomes its only entry, and its size is the total |
| CacheScenarios.FillTwo | src/main/java/org/apache/jackrabbit/core/state/MLRUItemStateCache.java:125-141 | two entries that together fit both stay, in insertion order |
| CacheScenarios.InsertEvictsOldest | src/main/java/org/apache/jackrabbit/core/state/MLRUItemStateCache.java:143-149 | an insert into a full cache evicts the least recently used id only |

`GetAccessCount` and `GetMaxMemorySize` (lines 223-232) are plain field
reads and carry no contract of their own.

## Left out

- `synchronized (cache)` blocks: the model is sequential, one call at a time.
- Registration with `CacheManager` in the constructor (line 77): the cache
  manager is not part of this model.
- Logging and the `numWrites` counter (lines 130, 137-139): they do not affect
  the cache's state as seen by callers.
- Java `long`/`int` widths: sizes, totals and counters are unbounded
  integers; overflow of `totalMem` or `accessCount` is not modelled.
- `calculateMemoryFootprint()` itself: the footprint is a parameter of the
  measuring operations, so any non-negative footprint the state reports is
  covered. A negative `long` footprint is not modelled (`Footprint` yields a
  `nat`). Keep-iff-fits (`ShrinkEvictsLastIff`, `CacheKeepsIffFits`) depends
  on this, through `TotalSizeAtLeast`: with an older entry of negative size,
  an oversized new entry could stay.
- MLRUCache.MLRUItemStateCache.constructor: requires a non-negative ceiling.
  Java accepts a negative one (line 76). The first `cache` then makes the
  shrink loop at lines 145-147 evict every entry, one touch each. After
  that, `firstKey()` on the empty `LinkedMap` throws, and so does every
  later `cache`. That exception path is not modelled.
- MLRUCache.MLRUItemStateCache.SetMaxMemorySize: requires a non-negative
  size. Java stores a negative size as the ceiling (line 264). The shrink
  loop (lines 265 and 145-147) then evicts every entry, one touch each, and
  throws from `firstKey()` on the empty map. Every later `cache` fails the
  same way. That exception path is not modelled.
- MLRUCache.MLRUItemStateCache.KeySet: returns the id set as a value, not as
  a live unmodifiable view of the map's keys (line 197).
- `Entry` is an immutable value: `recalc()` is modelled by storing a new
  entry with the same state under the same id. No entry is shared outside
  the cache, so no aliasing is lost.
- `PropertyStateTupleBinding` and the other item state caches are not part of
  this model.
