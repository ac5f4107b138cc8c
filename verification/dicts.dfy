/**
 Python's `dict` keeps its keys in insertion order, and that order is observable here:
 the index stream lists files in the order they were resolved, and cached roots are
 searched in the order they were first registered. A `Dict` is that order plus a map.
 */
module Dicts {

  datatype Dict<K(==), V> = Dict(keys: seq<K>, m: map<K, V>) {

    /** Every key is listed exactly once, and the listed keys are the map's keys. */
    predicate Valid() {
      && (forall i, j :: 0 <= i < j < |keys| ==> keys[i] != keys[j])
      && m.Keys == (set k | k in keys)
    }
  }

  function Empty<K(==), V>(): (r: Dict<K, V>)
    ensures r.Valid() && r.keys == [] && r.m == map[]
  {
    Dict([], map[])
  }

  /** `d[k] = v`: a new key goes to the end, an existing key keeps its position. */
  function Put<K(==), V>(d: Dict<K, V>, k: K, v: V): (r: Dict<K, V>)
    requires d.Valid()
    ensures r.Valid()
    ensures r.m == d.m[k := v]
    ensures k in d.m ==> r.keys == d.keys
    ensures k !in d.m ==> r.keys == d.keys + [k]
  {
    if k in d.m then Dict(d.keys, d.m[k := v]) else Dict(d.keys + [k], d.m[k := v])
  }

  /** `d` after assigning the first `n` pairs of `e`, in `e`'s order. */
  function PutFirst<K(==), V>(d: Dict<K, V>, e: Dict<K, V>, n: nat): (r: Dict<K, V>)
    requires d.Valid() && e.Valid() && n <= |e.keys|
    ensures r.Valid()
    ensures |d.keys| <= |r.keys| && r.keys[..|d.keys|] == d.keys
    ensures forall k | k in r.m :: k in d.m || k in e.keys[..n]
    ensures forall k | k in d.m :: k in r.m
    ensures forall k | k in e.keys[..n] :: k in r.m && r.m[k] == e.m[k]
    ensures forall k | k in r.m && k !in e.keys[..n] :: r.m[k] == d.m[k]
    decreases n
  {
    if n == 0 then d
    else
      var prev := PutFirst(d, e, n - 1);
      var k := e.keys[n - 1];
      assert e.keys[..n] == e.keys[..n - 1] + [k];
      assert k in e.m;
      Put(prev, k, e.m[k])
  }

  /**
   `d.update(e)`: every pair of `e` is assigned in `e`'s order, so `e` wins on a clash,
   keys already in `d` keep their place and new keys follow.
   */
  function Update<K(==), V>(d: Dict<K, V>, e: Dict<K, V>): (r: Dict<K, V>)
    requires d.Valid() && e.Valid()
    ensures r.Valid()
    ensures r.m == d.m + e.m
    ensures |d.keys| <= |r.keys| && r.keys[..|d.keys|] == d.keys
  {
    var r := PutFirst(d, e, |e.keys|);
    assert e.keys[..|e.keys|] == e.keys;
    MergedMap(d.m, e.m, e.keys, r.m);
    r
  }

  lemma MergedMap<K, V>(dm: map<K, V>, em: map<K, V>, ks: seq<K>, rm: map<K, V>)
    requires em.Keys == (set k | k in ks)
    requires forall k | k in rm :: k in dm || k in ks
    requires forall k | k in dm :: k in rm
    requires forall k | k in ks :: k in rm && rm[k] == em[k]
    requires forall k | k in rm && k !in ks :: rm[k] == dm[k]
    ensures rm == dm + em
  {
  }
}
