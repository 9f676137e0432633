/**
 * What the cache stores per key: an entry wrapping an item state together with
 * the cached size estimate, the sum of those sizes over an order of keys, and
 * the point up to which the shrink loop evicts from the front of that order.
 */
module CacheEntries {
  import opened LinkedOrder

  /** The identity of an item state; the cache only compares ids for equality. */
  type ItemId(==, !new)

  /** Whatever an item state holds besides its id; the cache never looks inside. */
  type StateData

  /** A cached item state: its id (`getId()`) and its opaque contents. */
  datatype ItemState = ItemState(id: ItemId, data: StateData)

  /**
   * What `calculateMemoryFootprint()` answers for each state at the moment of a call.
   * Item states are shared with callers and may change between calls, so every
   * operation that measures a state is handed the answers current at that time.
   */
  type Footprint = ItemState -> nat

  /** Fixed per-entry bookkeeping cost added to every footprint. */
  const EntryOverhead: nat := 64

  /** The inner class `Entry`: a state and its cached size estimate. */
  datatype Entry = Entry(state: ItemState, size: nat)

  /** `new Entry(state)`: the size is the overhead plus the state's current footprint. */
  function NewEntry(state: ItemState, footprint: Footprint): (e: Entry)
    ensures e.state == state
    ensures e.size == EntryOverhead + footprint(state)
  {
    Entry(state, EntryOverhead + footprint(state))
  }

  /** `Entry.recalc()`: the same state, its size re-measured; recalc is the constructor's size rule. */
  function Recalc(e: Entry, footprint: Footprint): (r: Entry)
    ensures r == NewEntry(e.state, footprint)
  {
    e.(size := EntryOverhead + footprint(e.state))
  }

  /** Every key of `s` has an entry in `m`. */
  ghost predicate KeysIn(s: seq<ItemId>, m: map<ItemId, Entry>)
  {
    forall k :: k in s ==> k in m
  }

  /** `m1` and `m2` hold the same entry for every key of `s`. */
  ghost predicate AgreeOn(s: seq<ItemId>, m1: map<ItemId, Entry>, m2: map<ItemId, Entry>)
  {
    forall k :: k in s ==> k in m1 && k in m2 && m1[k] == m2[k]
  }

  /** The sum of the cached sizes of the entries of `s`, in order. */
  ghost function TotalSize(s: seq<ItemId>, m: map<ItemId, Entry>): nat
    requires KeysIn(s, m)
  {
    if s == [] then 0 else m[s[0]].size + TotalSize(s[1..], m)
  }

  /**
   * How many keys the shrink loop takes off the front of `s` under the ceiling
   * `maxMem`: it stops as soon as the remaining sizes fit, or when nothing is left.
   */
  ghost function ShrinkPoint(s: seq<ItemId>, m: map<ItemId, Entry>, maxMem: int): (n: nat)
    requires KeysIn(s, m)
    ensures n <= |s|
  {
    if s == [] || TotalSize(s, m) <= maxMem then 0 else 1 + ShrinkPoint(s[1..], m, maxMem)
  }

  /** The sum only depends on the entries of the keys it adds up. */
  lemma {:induction false} TotalSizeFrame(s: seq<ItemId>, m1: map<ItemId, Entry>, m2: map<ItemId, Entry>)
    requires AgreeOn(s, m1, m2)
    ensures KeysIn(s, m1) && KeysIn(s, m2)
    ensures TotalSize(s, m1) == TotalSize(s, m2)
  {
    if s != [] {
      assert AgreeOn(s[1..], m1, m2) by {
        forall k | k in s[1..] ensures k in s { }
      }
      TotalSizeFrame(s[1..], m1, m2);
    }
  }

  /** Putting a key at the back adds exactly its size. */
  lemma {:induction false} TotalSizeAppend(s: seq<ItemId>, m: map<ItemId, Entry>, k: ItemId)
    requires KeysIn(s, m) && k in m
    ensures KeysIn(s + [k], m)
    ensures TotalSize(s + [k], m) == TotalSize(s, m) + m[k].size
  {
    if s == [] {
      assert [] + [k] == [k];
    } else {
      assert (s + [k])[1..] == s[1..] + [k];
      TotalSizeAppend(s[1..], m, k);
    }
  }

  /** Removing a key from a distinct order takes away exactly its size. */
  lemma {:induction false} TotalSizeRemove(s: seq<ItemId>, m: map<ItemId, Entry>, k: ItemId)
    requires Distinct(s) && KeysIn(s, m) && k in s
    ensures KeysIn(RemoveKey(s, k), m)
    ensures TotalSize(s, m) == TotalSize(RemoveKey(s, k), m) + m[k].size
  {
    assert Distinct(s[1..]);
    if s[0] == k {
      assert RemoveKey(s[1..], k) == s[1..];
    } else {
      TotalSizeRemove(s[1..], m, k);
    }
  }

  /** Re-measuring the entry of a key that occurs once changes the sum by the difference. */
  lemma {:induction false} TotalSizeReplace(s: seq<ItemId>, m: map<ItemId, Entry>, k: ItemId, e: Entry)
    requires Distinct(s) && KeysIn(s, m) && k in s
    ensures KeysIn(s, m[k := e])
    ensures TotalSize(s, m[k := e]) == TotalSize(s, m) - m[k].size + e.size
  {
    assert Distinct(s[1..]);
    if s[0] == k {
      assert s[0] !in s[1..];
      TotalSizeFrame(s[1..], m, m[k := e]);
    } else {
      TotalSizeReplace(s[1..], m, k, e);
    }
  }

  /** Every entry of `m` re-measured under `footprint`. */
  ghost function RemeasureAll(m: map<ItemId, Entry>, footprint: Footprint): (r: map<ItemId, Entry>)
    ensures r.Keys == m.Keys
    ensures forall k :: k in r ==> r[k] == NewEntry(m[k].state, footprint)
  {
    map k | k in m :: Recalc(m[k], footprint)
  }

  /**
   * `m` is `m0` with the entries of the keys of `visited` re-measured under
   * `footprint` and every other entry as it was.
   */
  ghost predicate RemeasuredOn(visited: seq<ItemId>, m0: map<ItemId, Entry>, m: map<ItemId, Entry>, footprint: Footprint)
  {
    m.Keys == m0.Keys
    && forall k :: k in m ==> m[k] == if k in visited then Recalc(m0[k], footprint) else m0[k]
  }

  /**
   * One step of re-measuring a distinct order front to back: the next key has
   * not been visited yet, so re-measuring it extends what has been re-measured,
   * and the sum over the visited keys grows by its new size.
   */
  lemma RemeasureStep(visited: seq<ItemId>, rest: seq<ItemId>, m0: map<ItemId, Entry>, m: map<ItemId, Entry>, footprint: Footprint)
    requires Distinct(visited + rest) && rest != [] && rest[0] in m
    requires KeysIn(visited, m) && RemeasuredOn(visited, m0, m, footprint)
    ensures (visited + [rest[0]]) + rest[1..] == visited + rest
    ensures KeysIn(visited + [rest[0]], m[rest[0] := Recalc(m[rest[0]], footprint)])
    ensures RemeasuredOn(visited + [rest[0]], m0, m[rest[0] := Recalc(m[rest[0]], footprint)], footprint)
    ensures TotalSize(visited + [rest[0]], m[rest[0] := Recalc(m[rest[0]], footprint)])
            == TotalSize(visited, m) + Recalc(m[rest[0]], footprint).size
  {
    var k := rest[0];
    var e := Recalc(m[k], footprint);
    DistinctConcat(visited, rest, k);
    assert (visited + [k]) + rest[1..] == visited + rest;
    TotalSizeFrame(visited, m, m[k := e]);
    TotalSizeAppend(visited, m[k := e], k);
  }

  /** No single entry is larger than the sum of an order that holds it. */
  lemma {:induction false} TotalSizeAtLeast(s: seq<ItemId>, m: map<ItemId, Entry>, i: nat)
    requires KeysIn(s, m) && i < |s|
    ensures m[s[i]].size <= TotalSize(s, m)
  {
    if i > 0 {
      TotalSizeAtLeast(s[1..], m, i - 1);
    }
  }

  /** With a non-negative ceiling, what the shrink loop leaves fits under it. */
  lemma {:induction false} ShrinkPointFits(s: seq<ItemId>, m: map<ItemId, Entry>, maxMem: int)
    requires KeysIn(s, m) && maxMem >= 0
    ensures TotalSize(s[ShrinkPoint(s, m, maxMem)..], m) <= maxMem
  {
    if s != [] && TotalSize(s, m) > maxMem {
      ShrinkPointFits(s[1..], m, maxMem);
      assert s[1..][ShrinkPoint(s[1..], m, maxMem)..] == s[ShrinkPoint(s, m, maxMem)..];
    }
  }

  /** The shrink loop evicts no more than it must: every longer suffix is over the ceiling. */
  lemma {:induction false} ShrinkPointLeast(s: seq<ItemId>, m: map<ItemId, Entry>, maxMem: int, j: nat)
    requires KeysIn(s, m) && j < ShrinkPoint(s, m, maxMem)
    ensures TotalSize(s[j..], m) > maxMem
  {
    if j > 0 {
      ShrinkPointLeast(s[1..], m, maxMem, j - 1);
      assert s[1..][j - 1..] == s[j..];
    }
  }

  /** The first position from which the rest fits, with every earlier one over, is the shrink point. */
  lemma {:induction false} ShrinkPointUnique(s: seq<ItemId>, m: map<ItemId, Entry>, maxMem: int, n: nat)
    requires KeysIn(s, m) && n <= |s|
    requires n < |s| ==> TotalSize(s[n..], m) <= maxMem
    requires forall j :: 0 <= j < n ==> TotalSize(s[j..], m) > maxMem
    ensures ShrinkPoint(s, m, maxMem) == n
  {
    if n == 0 {
      assert s[0..] == s;
    } else {
      assert s[0..] == s;
      forall j | 0 <= j < n - 1 ensures TotalSize(s[1..][j..], m) > maxMem {
        assert s[1..][j..] == s[j + 1..];
      }
      assert n - 1 < |s[1..]| ==> s[1..][n - 1..] == s[n..];
      ShrinkPointUnique(s[1..], m, maxMem, n - 1);
    }
  }

  /** Before the shrink point, a position whose remaining sizes are over the ceiling is not the last one evicted. */
  lemma ShrinkPointAdvance(s: seq<ItemId>, m: map<ItemId, Entry>, maxMem: int, n: nat)
    requires KeysIn(s, m) && maxMem >= 0
    requires n <= ShrinkPoint(s, m, maxMem) && n <= |s| && TotalSize(s[n..], m) > maxMem
    ensures n + 1 <= ShrinkPoint(s, m, maxMem)
  {
    ShrinkPointFits(s, m, maxMem);
  }

  /** A position no later than the shrink point from which the rest fits is the shrink point. */
  lemma ShrinkPointStop(s: seq<ItemId>, m: map<ItemId, Entry>, maxMem: int, n: nat)
    requires KeysIn(s, m) && n <= ShrinkPoint(s, m, maxMem)
    requires n < |s| ==> TotalSize(s[n..], m) <= maxMem
    ensures ShrinkPoint(s, m, maxMem) == n
  {
    if n < ShrinkPoint(s, m, maxMem) {
      ShrinkPointLeast(s, m, maxMem, n);
    }
  }

  /**
   * Under a non-negative ceiling the freshest key of a non-empty order is evicted
   * exactly when its own entry is larger than the ceiling, and then the order
   * empties; otherwise it is still the freshest key of what remains.
   */
  lemma ShrinkEvictsLastIff(s: seq<ItemId>, m: map<ItemId, Entry>, maxMem: int)
    requires KeysIn(s, m) && s != [] && maxMem >= 0
    ensures ShrinkPoint(s, m, maxMem) == |s| <==> m[s[|s| - 1]].size > maxMem
    ensures var rest := s[ShrinkPoint(s, m, maxMem)..];
            rest != [] ==> rest[|rest| - 1] == s[|s| - 1]
  {
    var n := ShrinkPoint(s, m, maxMem);
    var last := |s| - 1;
    if m[s[last]].size > maxMem {
      if n < |s| {
        ShrinkPointFits(s, m, maxMem);
        assert s[n..][last - n] == s[last];
        TotalSizeAtLeast(s[n..], m, last - n);
        assert false;
      }
    } else {
      if n == |s| {
        ShrinkPointLeast(s, m, maxMem, last);
        assert false;
      }
    }
  }
}
