/**
 * The key order of the cache's `LinkedMap`: a sequence of keys, front = oldest
 * (the next eviction candidate), back = freshest. `LinkedMap.remove` takes a key
 * out of the order and `put` of an absent key appends it at the back.
 */
module LinkedOrder {

  /** No key occurs twice in `s`: the front key does not occur again, and so on down the rest. */
  ghost predicate Distinct<K>(s: seq<K>)
  {
    s == [] || (s[0] !in s[1..] && Distinct(s[1..]))
  }

  /** `Distinct` says that the keys at any two positions differ. */
  lemma {:induction false} DistinctIffPairwise<K>(s: seq<K>)
    ensures Distinct(s) <==> forall i, j :: 0 <= i < j < |s| ==> s[i] != s[j]
  {
    if s != [] {
      DistinctIffPairwise(s[1..]);
      if Distinct(s) {
        forall i, j | 0 <= i < j < |s| ensures s[i] != s[j] {
          if i == 0 {
            assert s[j] == s[1..][j - 1];
          } else {
            assert s[i] == s[1..][i - 1] && s[j] == s[1..][j - 1];
          }
        }
      } else if s[0] in s[1..] {
        var j :| 0 <= j < |s[1..]| && s[1..][j] == s[0];
        assert s[0] == s[j + 1];
      } else {
        var i, j :| 0 <= i < j < |s[1..]| && s[1..][i] == s[1..][j];
        assert s[i + 1] == s[j + 1];
      }
    }
  }

  /** `s` with `k` taken out; every other key keeps its place relative to the rest. */
  function RemoveKey<K(==, !new)>(s: seq<K>, k: K): (r: seq<K>)
    ensures forall x :: x in r <==> x in s && x != k
    ensures k !in s ==> r == s
    ensures Distinct(s) && k in s ==> |r| == |s| - 1
  {
    if s == [] then []
    else if s[0] == k then RemoveKey(s[1..], k)
    else [s[0]] + RemoveKey(s[1..], k)
  }

  /** Removing a key from a distinct order leaves it distinct. */
  lemma {:induction false} RemoveKeyDistinct<K(!new)>(s: seq<K>, k: K)
    requires Distinct(s)
    ensures Distinct(RemoveKey(s, k))
  {
    if s != [] {
      RemoveKeyDistinct(s[1..], k);
      if s[0] != k {
        var t := RemoveKey(s[1..], k);
        assert ([s[0]] + t)[1..] == t;
      }
    }
  }

  /** In a distinct order, removing the key at position `i` closes the gap at `i`. */
  lemma {:induction false} RemoveKeyAt<K(!new)>(s: seq<K>, i: nat)
    requires Distinct(s) && i < |s|
    ensures RemoveKey(s, s[i]) == s[..i] + s[i + 1..]
  {
    if i > 0 {
      RemoveKeyAt(s[1..], i - 1);
      assert s[i] == s[1..][i - 1];
      assert s[0] != s[i];
      assert s[1..][..i - 1] == s[1..i];
      assert s[1..][i..] == s[i + 1..];
      assert [s[0]] + s[1..i] == s[..i];
    }
  }

  /** A distinct order has as many positions as keys. */
  lemma {:induction false} DistinctCardinality<K>(s: seq<K>)
    requires Distinct(s)
    ensures |set x | x in s| == |s|
  {
    if s != [] {
      DistinctCardinality(s[1..]);
      assert (set x | x in s) == (set x | x in s[1..]) + {s[0]};
    }
  }

  /** Appending a key that does not occur keeps an order distinct. */
  lemma {:induction false} AppendDistinct<K>(s: seq<K>, k: K)
    requires Distinct(s) && k !in s
    ensures Distinct(s + [k])
  {
    if s == [] {
      assert [] + [k] == [k];
    } else {
      assert (s + [k])[1..] == s[1..] + [k];
      AppendDistinct(s[1..], k);
    }
  }

  /** In a distinct concatenation, no key of the back part occurs in the front part. */
  lemma {:induction false} DistinctConcat<K>(a: seq<K>, b: seq<K>, x: K)
    requires Distinct(a + b) && x in b
    ensures x !in a && Distinct(b)
  {
    if a != [] {
      assert (a + b)[1..] == a[1..] + b;
      assert x in (a + b)[1..];
      DistinctConcat(a[1..], b, x);
    } else {
      assert a + b == b;
    }
  }
}
