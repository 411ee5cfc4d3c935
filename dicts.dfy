/**
 * Walking a Python dict. A dict iterates in insertion order, which these
 * models do not track: a walk over a dict's keys is any enumeration of them,
 * each key exactly once.
 */
module Dicts {

  /** `order` lists every element of `s` exactly once. */
  ghost predicate Enumerates<K(!new)>(order: seq<K>, s: set<K>)
  {
    && (forall i, j | 0 <= i < j < |order| :: order[i] != order[j])
    && (forall k :: k in order <==> k in s)
  }

  /** `list(d.keys())`: the keys of a dict in an iteration order the model leaves open. */
  method ListKeys<K(!new), V>(m: map<K, V>) returns (keys: seq<K>)
    ensures Enumerates(keys, m.Keys)
  {
    keys := [];
    var todo := m.Keys;
    while todo != {}
      invariant todo <= m.Keys
      invariant forall k :: k in m ==> (k in todo <==> k !in keys)
      invariant forall k | k in keys :: k in m
      invariant forall i, j | 0 <= i < j < |keys| :: keys[i] != keys[j]
      decreases todo
    {
      var k :| k in todo;
      keys := keys + [k];
      todo := todo - {k};
    }
  }
}
