/**
 A vector of values and a map from keys to positions in it: what has to hold for the map to be an
 index of the vector, and how the two change together.
 */
module VectorIndex {

  type Index<K> = map<K, nat>

  /** The index is a bijection between the stored keys and the positions of the vector. */
  ghost predicate Indexed<K>(keys: seq<K>, ix: Index<K>) {
    |ix| == |keys| && PointsInto(keys, ix) && Covers(keys, ix)
  }

  ghost predicate PointsInto<K>(keys: seq<K>, ix: Index<K>) {
    forall k :: k in ix ==> ix[k] < |keys| && keys[ix[k]] == k
  }

  ghost predicate Covers<K>(keys: seq<K>, ix: Index<K>) {
    forall i :: 0 <= i < |keys| ==> keys[i] in ix && ix[keys[i]] == i
  }

  /** The vector and its index read as a map. */
  ghost function View<K, V>(keys: seq<K>, values: seq<V>, ix: Index<K>): (m: map<K, V>)
    requires Indexed(keys, ix) && |values| == |keys|
    ensures m.Keys == ix.Keys && |m| == |values|
    ensures forall i :: 0 <= i < |keys| ==> keys[i] in m && m[keys[i]] == values[i]
  {
    var m := map k | k in ix :: values[ix[k]];
    assert m.Keys == ix.Keys;
    m
  }

  lemma Append<K, V>(keys: seq<K>, values: seq<V>, ix: Index<K>, k: K, v: V)
    requires Indexed(keys, ix) && |values| == |keys| && k !in ix
    ensures Indexed(keys + [k], ix[k := |keys|])
    ensures View(keys + [k], values + [v], ix[k := |keys|]) == View(keys, values, ix)[k := v]
  {
  }

  lemma Replace<K, V>(keys: seq<K>, values: seq<V>, ix: Index<K>, k: K, v: V)
    requires Indexed(keys, ix) && |values| == |keys| && k in ix
    ensures View(keys, values[ix[k] := v], ix) == View(keys, values, ix)[k := v]
  {
  }

  /** The vector after the element at `i` was overwritten by the last one and the last one dropped. */
  function SwapPop<T>(s: seq<T>, i: nat): (r: seq<T>)
    requires i < |s|
    ensures |r| == |s| - 1
    ensures forall j :: 0 <= j < |r| ==> r[j] == if j == i then s[|s| - 1] else s[j]
  {
    s[i := s[|s| - 1]][..|s| - 1]
  }

  /** The index after the entry of `k` was removed and the last element moved into its place. */
  ghost function Unindexed<K>(keys: seq<K>, ix: Index<K>, k: K): (r: Index<K>)
    requires Indexed(keys, ix) && k in ix
    ensures r.Keys == ix.Keys - {k}
    ensures forall j :: j in r ==> r[j] == if j == keys[|keys| - 1] then ix[k] else ix[j]
  {
    var last := keys[|keys| - 1];
    assert last in ix && ix[last] == |keys| - 1;
    (if ix[k] < |keys| - 1 then ix[last := ix[k]] else ix) - {k}
  }

  lemma SwapPopPointsInto<K>(keys: seq<K>, ix: Index<K>, k: K)
    requires Indexed(keys, ix) && k in ix
    ensures PointsInto(SwapPop(keys, ix[k]), Unindexed(keys, ix, k))
  {
    var i, n := ix[k], |keys| - 1;
    var keys', ix' := SwapPop(keys, i), Unindexed(keys, ix, k);
    forall j | j in ix' ensures ix'[j] < |keys'| && keys'[ix'[j]] == j {
      if j != keys[n] {
        assert keys[ix[j]] == j && ix[j] != n && ix[j] != i;
      } else {
        assert ix[j] == n && i != n;
      }
    }
  }

  lemma SwapPopCovers<K>(keys: seq<K>, ix: Index<K>, k: K)
    requires Indexed(keys, ix) && k in ix
    ensures Covers(SwapPop(keys, ix[k]), Unindexed(keys, ix, k))
  {
    hide SwapPop, Unindexed;
    var i, n := ix[k], |keys| - 1;
    var keys', ix' := SwapPop(keys, i), Unindexed(keys, ix, k);
    forall j | 0 <= j < |keys'| ensures keys'[j] in ix' && ix'[keys'[j]] == j {
      var source := if j == i then n else j;
      assert keys'[j] == keys[source] && ix[keys[source]] == source && keys[i] == k;
    }
  }

  lemma SwapPopIndexed<K, V>(keys: seq<K>, values: seq<V>, ix: Index<K>, k: K)
    requires Indexed(keys, ix) && |values| == |keys| && k in ix
    ensures Indexed(SwapPop(keys, ix[k]), Unindexed(keys, ix, k))
    ensures View(SwapPop(keys, ix[k]), SwapPop(values, ix[k]), Unindexed(keys, ix, k)) == View(keys, values, ix) - {k}
  {
    SwapPopPointsInto(keys, ix, k);
    SwapPopCovers(keys, ix, k);
    var ix' := Unindexed(keys, ix, k);
    assert |ix'.Keys| == |ix.Keys| - 1;
    var last := keys[|keys| - 1];
    assert last in ix && ix[last] == |keys| - 1;
    hide Covers, SwapPop, Unindexed;
    var m, m' := View(keys, values, ix), View(SwapPop(keys, ix[k]), SwapPop(values, ix[k]), ix');
    forall j | j in m' ensures m'[j] == m[j] {
      assert m'[j] == SwapPop(values, ix[k])[ix'[j]];
      assert m[j] == values[ix[j]];
    }
  }

  /** A stored key's position is in range and holds that key. */
  lemma PositionOf<K>(keys: seq<K>, ix: Index<K>, k: K)
    requires Indexed(keys, ix)
    ensures k in ix ==> ix[k] < |keys| && keys[ix[k]] == k
    ensures k in ix <==> k in keys
  {
  }

  /** The key `k` is stored with the value `v`. */
  ghost predicate Holds<K, V>(keys: seq<K>, values: seq<V>, k: K, v: V)
    requires |values| == |keys|
  {
    exists i :: 0 <= i < |keys| && keys[i] == k && values[i] == v
  }

  lemma HoldsIsView<K, V>(keys: seq<K>, values: seq<V>, ix: Index<K>, k: K, v: V)
    requires Indexed(keys, ix) && |values| == |keys|
    ensures Holds(keys, values, k, v) <==> k in View(keys, values, ix) && View(keys, values, ix)[k] == v
  {
    if k in ix {
      assert keys[ix[k]] == k;
    }
  }
}
