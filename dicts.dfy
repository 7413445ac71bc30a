/**
 * Python dictionaries keyed by strings. A Python `dict` remembers the order
 * in which its keys were first inserted, and assigning to a key that is
 * already present keeps that key in place; iteration follows that order.
 */
module Dicts {
  /** `keys` holds the insertion order, `vals` the entries. */
  datatype Dict<V> = Dict(keys: seq<string>, vals: map<string, V>)
  {
    ghost predicate Valid() {
      && (forall i, j :: 0 <= i < j < |keys| ==> keys[i] != keys[j])
      && (forall k :: k in vals <==> k in keys)
    }

    /** `d[k] = v`. */
    function Put(k: string, v: V): (d: Dict<V>)
      ensures Valid() ==> d.Valid()
      ensures d.vals == vals[k := v]
      ensures d.keys == if k in vals then keys else keys + [k]
    {
      if k in vals then Dict(keys, vals[k := v]) else Dict(keys + [k], vals[k := v])
    }

    /** `len(d)`. */
    function Size(): nat {
      |keys|
    }
  }

  function Empty<V>(): (d: Dict<V>)
    ensures d.Valid() && d.keys == [] && d.vals == map[]
  {
    Dict([], map[])
  }

  /** A sequence of distinct keys has as many elements as it has members. */
  lemma {:induction false} DistinctCardinality(ks: seq<string>)
    requires forall i, j :: 0 <= i < j < |ks| ==> ks[i] != ks[j]
    ensures |(set k | k in ks)| == |ks|
    decreases |ks|
  {
    if ks != [] {
      var init := ks[..|ks| - 1];
      DistinctCardinality(init);
      assert (set k | k in ks) == (set k | k in init) + {ks[|ks| - 1]};
      assert ks[|ks| - 1] !in init;
    }
  }

  /** The number of entries is the number of remembered keys. */
  lemma SizeIsCardinality<V>(d: Dict<V>)
    requires d.Valid()
    ensures |d.vals| == d.Size()
  {
    DistinctCardinality(d.keys);
    assert d.vals.Keys == (set k | k in d.keys);
  }

  /** Inserting key after key from an ordered source of distinct keys
      rebuilds exactly that order. */
  lemma PutFreshAppends<V>(d: Dict<V>, k: string, v: V)
    requires d.Valid() && k !in d.keys
    ensures d.Put(k, v).keys == d.keys + [k]
  {
  }
}
