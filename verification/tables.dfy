/** Maps filled by successive inserts, as a `HashMap` is by repeated `insert`. */
module Tables {
  import opened Wrappers

  /** `HashMap::get`: the value under `k`, if any. */
  function Get<K(==), V>(m: map<K, V>, k: K): (r: Option<V>)
    ensures r.Some? <==> k in m
    ensures r.Some? ==> r.value == m[k]
  {
    if k in m then Some(m[k]) else None
  }

  /** The keys of `pairs`. */
  function KeySet<K, V>(pairs: seq<(K, V)>): set<K> {
    set i | 0 <= i < |pairs| :: pairs[i].0
  }

  /** No pair after `i` has the key of pair `i`. */
  predicate IsLastKey<K(==), V>(pairs: seq<(K, V)>, i: nat)
    requires i < |pairs|
  {
    forall j :: i < j < |pairs| ==> pairs[j].0 != pairs[i].0
  }

  /** The map left by inserting `pairs`, in order, into an empty map. */
  function InsertAll<K(==), V>(pairs: seq<(K, V)>): map<K, V>
    decreases |pairs|
  {
    if |pairs| == 0 then map[]
    else
      var n := |pairs| - 1;
      InsertAll(pairs[..n])[pairs[n].0 := pairs[n].1]
  }

  /** Inserting one more pair extends the fold by one insert. */
  lemma InsertAllSnoc<K, V>(pairs: seq<(K, V)>, p: (K, V))
    ensures InsertAll(pairs + [p]) == InsertAll(pairs)[p.0 := p.1]
  {
    assert (pairs + [p])[..|pairs|] == pairs;
  }

  /** The keys of the filled map are exactly the keys inserted. */
  lemma {:induction false} InsertAllKeys<K, V>(pairs: seq<(K, V)>)
    ensures InsertAll(pairs).Keys == KeySet(pairs)
    decreases |pairs|
  {
    if |pairs| > 0 {
      var n := |pairs| - 1;
      var init := pairs[..n];
      InsertAllKeys(init);
      forall k | k in KeySet(pairs)
        ensures k in KeySet(init) + {pairs[n].0}
      {
        var i :| 0 <= i < |pairs| && pairs[i].0 == k;
        if i < n {
          assert init[i] == pairs[i];
        }
      }
      forall k | k in KeySet(init)
        ensures k in KeySet(pairs)
      {
        var i :| 0 <= i < n && init[i].0 == k;
        assert pairs[i] == init[i];
      }
    }
  }

  /** Under each key the filled map holds the value of the last pair with that key. */
  lemma {:induction false} InsertAllLastWins<K, V>(pairs: seq<(K, V)>, i: nat)
    requires i < |pairs| && IsLastKey(pairs, i)
    ensures pairs[i].0 in InsertAll(pairs)
    ensures InsertAll(pairs)[pairs[i].0] == pairs[i].1
    decreases |pairs|
  {
    var n := |pairs| - 1;
    if i < n {
      var init := pairs[..n];
      assert init[i] == pairs[i];
      assert IsLastKey(init, i) by {
        forall j | i < j < n
          ensures init[j].0 != init[i].0
        {
          assert init[j] == pairs[j];
        }
      }
      InsertAllLastWins(init, i);
    }
  }
}
