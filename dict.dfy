/** Python's `dict(pairs)`: a map built from key-value pairs taken in order,
    where a later pair overwrites an earlier one with the same key. */
module Dict {

  /** The map `dict(kvs)`. */
  function LastWins<K, V>(kvs: seq<(K, V)>): map<K, V>
    decreases |kvs|
  {
    if kvs == [] then map[]
    else LastWins(kvs[..|kvs| - 1])[kvs[|kvs| - 1].0 := kvs[|kvs| - 1].1]
  }

  /** The keys of the pairs, one per pair. */
  function KeysOf<K, V>(kvs: seq<(K, V)>): set<K> {
    set i | 0 <= i < |kvs| :: kvs[i].0
  }

  /** No two pairs share a key. */
  ghost predicate DistinctKeys<K, V>(kvs: seq<(K, V)>) {
    forall i, j :: 0 <= i < j < |kvs| ==> kvs[i].0 != kvs[j].0
  }

  /** Adding one pair at the end updates the map at that pair's key. */
  lemma LastWinsSnoc<K, V>(kvs: seq<(K, V)>, p: (K, V))
    ensures LastWins(kvs + [p]) == LastWins(kvs)[p.0 := p.1]
  {
    assert (kvs + [p])[..|kvs|] == kvs;
  }

  /** Every key of the map is the key of some pair, every pair's key is in the
      map, and every entry of the map is one of the pairs. */
  lemma {:induction false} LastWinsFromPairs<K, V>(kvs: seq<(K, V)>)
    ensures LastWins(kvs).Keys == KeysOf(kvs)
    ensures forall k :: k in LastWins(kvs) ==> (k, LastWins(kvs)[k]) in kvs
    decreases |kvs|
  {
    if kvs != [] {
      var init, last := kvs[..|kvs| - 1], kvs[|kvs| - 1];
      LastWinsFromPairs(init);
      assert KeysOf(kvs) == KeysOf(init) + {last.0} by {
        forall k | k in KeysOf(kvs) ensures k in KeysOf(init) + {last.0} {
          var i :| 0 <= i < |kvs| && kvs[i].0 == k;
          if i < |init| { assert init[i].0 == k; }
        }
        forall k | k in KeysOf(init) ensures k in KeysOf(kvs) {
          var i :| 0 <= i < |init| && init[i].0 == k;
          assert kvs[i].0 == k;
        }
      }
      forall k | k in LastWins(kvs) ensures (k, LastWins(kvs)[k]) in kvs {
        if k != last.0 {
          assert (k, LastWins(init)[k]) in init;
        }
      }
    }
  }

  /** The pair at `i` supplies the value of its key when no later pair has
      that key: the last pair with a given key wins. */
  lemma {:induction false} LastWinsLast<K, V>(kvs: seq<(K, V)>, i: nat)
    requires i < |kvs|
    requires forall j :: i < j < |kvs| ==> kvs[j].0 != kvs[i].0
    ensures kvs[i].0 in LastWins(kvs) && LastWins(kvs)[kvs[i].0] == kvs[i].1
    decreases |kvs|
  {
    if i < |kvs| - 1 {
      var init := kvs[..|kvs| - 1];
      LastWinsLast(init, i);
    }
  }

  /** The map has at most one entry per pair, and exactly one per pair
      precisely when no two pairs share a key. */
  lemma {:induction false} LastWinsSize<K, V>(kvs: seq<(K, V)>)
    ensures |LastWins(kvs)| <= |kvs|
    ensures |LastWins(kvs)| == |kvs| <==> DistinctKeys(kvs)
    decreases |kvs|
  {
    if kvs != [] {
      var init, last := kvs[..|kvs| - 1], kvs[|kvs| - 1];
      LastWinsSize(init);
      LastWinsFromPairs(init);
      UpdateSize(LastWins(init), last.0, last.1);
      DistinctSnoc(kvs);
      if last.0 in KeysOf(init) {
        assert !DistinctKeys(kvs);
      }
    }
  }

  /** Updating a map adds an entry exactly when the key is new. */
  lemma UpdateSize<K, V>(m: map<K, V>, k: K, v: V)
    ensures |m[k := v]| == if k in m then |m| else |m| + 1
  {
    if k in m {
      assert m[k := v].Keys == m.Keys;
    } else {
      assert m[k := v].Keys == m.Keys + {k};
    }
  }

  /** The keys stay distinct after one more pair exactly when its key is new. */
  lemma DistinctSnoc<K, V>(kvs: seq<(K, V)>)
    requires kvs != []
    ensures DistinctKeys(kvs) <==> DistinctKeys(kvs[..|kvs| - 1]) && kvs[|kvs| - 1].0 !in KeysOf(kvs[..|kvs| - 1])
  {
    var init, last := kvs[..|kvs| - 1], kvs[|kvs| - 1];
    if DistinctKeys(init) && last.0 !in KeysOf(init) {
      forall i, j | 0 <= i < j < |kvs| ensures kvs[i].0 != kvs[j].0 {
        if j < |init| {
          assert init[i].0 != init[j].0;
        } else {
          assert init[i].0 in KeysOf(init);
        }
      }
    }
    if DistinctKeys(kvs) {
      forall i, j | 0 <= i < j < |init| ensures init[i].0 != init[j].0 {
        assert kvs[i].0 != kvs[j].0;
      }
    }
  }
}
