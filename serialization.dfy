/** The serializable dictionary: a live map that keeps a flat projection made
    of two parallel arrays, `m_keys` and `m_values`, for a persistence engine
    that can only store ordered sequences.  The engine calls
    `OnBeforeSerialize` before it writes and `OnAfterDeserialize` after it
    reads; both are explicit methods here. */
module Serialization {
  import opened Results

  /** The set of elements of a sequence. */
  function Elements<T>(s: seq<T>): set<T> {
    set x | x in s
  }

  /** No element occurs twice. */
  predicate NoDuplicates<T(==)>(s: seq<T>) {
    forall i, j :: 0 <= i < j < |s| ==> s[i] != s[j]
  }

  /** The map obtained by storing `values[i]` under `keys[i]` for
      i = 0, 1, ..., n-1 in that order, starting from an empty map: a later
      pair overwrites an earlier one with the same key (last write wins). */
  function FromFlat<K, V>(keys: seq<K>, values: seq<V>): (m: map<K, V>)
    requires |keys| == |values|
    ensures m.Keys == Elements(keys)
    ensures |m| <= |keys|
    decreases |keys|
  {
    if keys == [] then map[]
    else
      var n := |keys| - 1;
      FromFlat(keys[..n], values[..n])[keys[n] := values[n]]
  }

  /** `keys`/`values` is a flat projection of `m`: equally long, every key
      once, exactly the keys of `m`, and each value paired with its key. */
  ghost predicate IsFlatOf<K, V>(m: map<K, V>, keys: seq<K>, values: seq<V>) {
    && |keys| == |values|
    && NoDuplicates(keys)
    && Elements(keys) == m.Keys
    && forall i :: 0 <= i < |keys| ==> keys[i] in m && m[keys[i]] == values[i]
  }

  /** A duplicate-free sequence has as many distinct elements as entries. */
  lemma {:induction false} DistinctElementsCount<T>(s: seq<T>)
    requires NoDuplicates(s)
    ensures |Elements(s)| == |s|
  {
    if s != [] {
      var n := |s| - 1;
      assert NoDuplicates(s[..n]);
      DistinctElementsCount(s[..n]);
      assert s == s[..n] + [s[n]];
      assert Elements(s) == Elements(s[..n]) + {s[n]};
      assert s[n] !in Elements(s[..n]);
    }
  }

  /** Appending a pair for a key the map does not hold yet extends a flat
      projection of the map to one of the map with that entry added. */
  lemma FlatExtend<K, V>(m: map<K, V>, keys: seq<K>, values: seq<V>, k: K, v: V)
    requires IsFlatOf(m, keys, values) && k !in m
    ensures IsFlatOf(m[k := v], keys + [k], values + [v])
  {
  }

  /** A flat projection has exactly as many rows as the map has entries. */
  lemma FlatLength<K, V>(m: map<K, V>, keys: seq<K>, values: seq<V>)
    requires IsFlatOf(m, keys, values)
    ensures |keys| == |values| == |m|
  {
    DistinctElementsCount(keys);
    assert m.Keys == Elements(keys);
  }

  /** Last write wins: the value stored under a key is the one paired with its
      last occurrence in `keys`. */
  lemma {:induction false} FromFlatLastWins<K, V>(keys: seq<K>, values: seq<V>, j: nat)
    requires |keys| == |values| && j < |keys|
    requires forall l :: j < l < |keys| ==> keys[l] != keys[j]
    ensures keys[j] in FromFlat(keys, values)
    ensures FromFlat(keys, values)[keys[j]] == values[j]
    decreases |keys|
  {
    var n := |keys| - 1;
    if j < n {
      FromFlatLastWins(keys[..n], values[..n], j);
    }
  }

  /** Round trip: rebuilding the map from any flat projection of it yields the
      map itself. */
  lemma RoundTrip<K, V>(m: map<K, V>, keys: seq<K>, values: seq<V>)
    requires IsFlatOf(m, keys, values)
    ensures FromFlat(keys, values) == m
  {
    var r := FromFlat(keys, values);
    forall k | k in m
      ensures r[k] == m[k]
    {
      assert k in Elements(keys);
      var j :| 0 <= j < |keys| && keys[j] == k;
      FromFlatLastWins(keys, values, j);
    }
  }

  /** After the first load has collapsed duplicate keys, saving and loading
      again is a fixed point. */
  lemma ReloadIsFixedPoint<K, V>(keys: seq<K>, values: seq<V>, keys': seq<K>, values': seq<V>)
    requires |keys| == |values|
    requires IsFlatOf(FromFlat(keys, values), keys', values')
    ensures FromFlat(keys', values') == FromFlat(keys, values)
  {
    RoundTrip(FromFlat(keys, values), keys', values');
  }

  /** The map that derives from `SerializableDictionary<TKey, TValue>`, with
      its two serialized fields.  `dict` is the base dictionary's contents;
      `null` arrays are `None`. */
  class SerializableDictionary<K(==,0), V(0)> {
    var dict: map<K, V>
    var keys: Option<array<K>>
    var values: Option<array<V>>

    constructor ()
      ensures dict == map[] && keys == None && values == None
    {
      dict := map[];
      keys := None;
      values := None;
    }

    /** The guard of `OnAfterDeserialize`: both arrays present and equally long. */
    predicate Loadable()
      reads this
    {
      keys.Some? && values.Some? && keys.value.Length == values.value.Length
    }

    /** Rebuild the map from the two arrays and drop them; a missing array or
        a length mismatch leaves the whole object as it was. */
    method OnAfterDeserialize()
      modifies this
      ensures old(Loadable()) ==>
        && dict == FromFlat(old(keys.value[..]), old(values.value[..]))
        && keys == None && values == None
      ensures !old(Loadable()) ==>
        dict == old(dict) && keys == old(keys) && values == old(values)
    {
      if keys.Some? && values.Some? && keys.value.Length == values.value.Length {
        var ks, vs := keys.value, values.value;
        dict := map[];
        var n := ks.Length;
        for i := 0 to n
          invariant dict == FromFlat(ks[..i], vs[..i])
        {
          assert ks[..i + 1][..i] == ks[..i] && vs[..i + 1][..i] == vs[..i];
          dict := dict[ks[i] := vs[i]];
        }
        assert ks[..n] == ks[..] && vs[..n] == vs[..];
        keys := None;
        values := None;
      }
    }

    /** Write the map's entries into two fresh arrays of length `Count`, in
        the dictionary's (unspecified) enumeration order. */
    method OnBeforeSerialize()
      modifies this
      ensures dict == old(dict)
      ensures keys.Some? && values.Some? && fresh(keys.value) && fresh(values.value)
      ensures keys.value.Length == values.value.Length == |dict|
      ensures IsFlatOf(dict, keys.value[..], values.value[..])
    {
      var ks, vs := Flatten(dict);
      FlatLength(dict, ks[..], vs[..]);
      keys, values := Some(ks), Some(vs);
    }
  }

  /** The body of `OnBeforeSerialize`: allocate two arrays of length `Count`
      and fill them while enumerating the map, in an order the dictionary
      does not specify (any key not yet written may come next). */
  method Flatten<K(==,0), V(0)>(m: map<K, V>) returns (ks: array<K>, vs: array<V>)
    ensures fresh(ks) && fresh(vs)
    ensures IsFlatOf(m, ks[..], vs[..])
  {
    var n := |m|;
    ks := new K[n];
    vs := new V[n];
    var i := 0;
    var rest := m.Keys;
    while rest != {}
      invariant rest <= m.Keys
      invariant i + |rest| == n == ks.Length == vs.Length
      invariant IsFlatOf(m - rest, ks[..i], vs[..i])
      decreases |rest|
    {
      var k :| k in rest;
      ghost var done := m - rest;
      ks[i], vs[i] := k, m[k];
      assert ks[..i + 1] == ks[..i] + [k] && vs[..i + 1] == vs[..i] + [m[k]];
      FlatExtend(done, ks[..i], vs[..i], k, m[k]);
      assert m - (rest - {k}) == done[k := m[k]];
      i := i + 1;
      rest := rest - {k};
    }
    assert ks[..i] == ks[..] && vs[..i] == vs[..];
    assert m - rest == m;
  }

  /** One save/load cycle of the persistence engine with nothing changed in
      between gives back the original map and leaves no arrays behind. */
  method SaveThenLoad<K(==,0), V(0)>(d: SerializableDictionary<K, V>)
    modifies d
    ensures d.dict == old(d.dict)
    ensures d.keys == None && d.values == None
  {
    d.OnBeforeSerialize();
    RoundTrip(d.dict, d.keys.value[..], d.values.value[..]);
    d.OnAfterDeserialize();
  }

  /** Load, save, load: once the first load has collapsed duplicate keys, the
      second load reproduces the map of the first. */
  method LoadSaveLoad<K(==,0), V(0)>(d: SerializableDictionary<K, V>)
    requires d.Loadable()
    modifies d
    ensures d.dict == FromFlat(old(d.keys.value[..]), old(d.values.value[..]))
  {
    d.OnAfterDeserialize();
    ghost var loaded := d.dict;
    d.OnBeforeSerialize();
    RoundTrip(loaded, d.keys.value[..], d.values.value[..]);
    d.OnAfterDeserialize();
  }

  /** Three rows with a repeated key load as a two-entry map holding the later
      value for the repeated key. */
  lemma DuplicateKeyExample()
    ensures FromFlat(["a", "a", "b"], [1, 2, 3]) == map["a" := 2, "b" := 3]
  {
  }
}
