/** Optional values and results with an error, used by every other module. */
module Results {

  datatype Option<T> = None | Some(value: T)

  /** The value of a computation that may raise: `Err` carries what was raised. */
  datatype Result<T, E> = Ok(value: T) | Err(error: E)

  /** The dictionary built by storing the pairs one after the other: a later key overwrites. */
  function MapOf<K, V>(kvs: seq<(K, V)>): map<K, V> {
    if kvs == [] then map[] else MapOf(kvs[..|kvs| - 1])[kvs[|kvs| - 1].0 := kvs[|kvs| - 1].1]
  }

  lemma MapOfSnoc<K, V>(kvs: seq<(K, V)>, k: K, v: V)
    ensures MapOf(kvs + [(k, v)]) == MapOf(kvs)[k := v]
  {
    assert (kvs + [(k, v)])[..|kvs|] == kvs;
  }

  /** With distinct keys, the dictionary holds exactly the given pairs. */
  lemma {:induction false} MapOfDistinct<K, V>(kvs: seq<(K, V)>)
    requires forall i, j :: 0 <= i < j < |kvs| ==> kvs[i].0 != kvs[j].0
    ensures MapOf(kvs).Keys == set i | 0 <= i < |kvs| :: kvs[i].0
    ensures forall i :: 0 <= i < |kvs| ==> MapOf(kvs)[kvs[i].0] == kvs[i].1
  {
    if kvs != [] {
      var init := kvs[..|kvs| - 1];
      MapOfDistinct(init);
      var all := set i | 0 <= i < |kvs| :: kvs[i].0;
      var before := set i | 0 <= i < |init| :: init[i].0;
      forall i | 0 <= i < |kvs| ensures kvs[i].0 in before + {kvs[|kvs| - 1].0} {
        if i < |init| { assert init[i] == kvs[i]; }
      }
      forall i | 0 <= i < |init| ensures init[i].0 in all {
        assert kvs[i] == init[i];
      }
      assert all == before + {kvs[|kvs| - 1].0};
    }
  }

  /** A subset is no larger than its superset. */
  lemma {:induction false} SubsetCardinality<T>(a: set<T>, b: set<T>)
    requires a <= b
    ensures |a| <= |b|
    decreases |a|
  {
    if a != {} {
      var x :| x in a;
      SubsetCardinality(a - {x}, b - {x});
    }
  }
}
