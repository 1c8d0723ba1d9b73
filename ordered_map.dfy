/**
 * `OrderedMap`: a hash map that remembers insertion order, kept as a vector
 * of keys beside the map of values. Unlike the host table, inserting a key
 * that is already present moves it to the end.
 */
module OrderedMaps {
  import opened Wrappers

  ghost predicate NoDuplicates<K>(ks: seq<K>) {
    forall i, j :: 0 <= i < j < |ks| ==> ks[i] != ks[j]
  }

  /** `ks` with the first occurrence of `k` taken out. */
  ghost function Without<K>(ks: seq<K>, k: K): (r: seq<K>)
    ensures k !in ks ==> r == ks
    ensures k in ks ==> |r| == |ks| - 1
    ensures forall x <- r :: x in ks
    ensures forall x <- ks :: x != k ==> x in r
    ensures NoDuplicates(ks) ==> NoDuplicates(r) && k !in r
  {
    if ks == [] then []
    else if ks[0] == k then ks[1..]
    else
      var rest := Without(ks[1..], k);
      assert NoDuplicates(ks) ==> ks[0] !in ks[1..] && ks[0] !in rest;
      assert forall i :: 0 < i <= |rest| ==> ([ks[0]] + rest)[i] == rest[i - 1];
      [ks[0]] + rest
  }

  /** Taking out the key found at `i` is `Vec::remove(i)`: the other keys keep their order. */
  lemma {:induction false} WithoutAt<K>(ks: seq<K>, k: K, i: nat)
    requires i < |ks| && ks[i] == k && k !in ks[..i]
    ensures Without(ks, k) == ks[..i] + ks[i + 1..]
  {
    if i > 0 {
      assert ks[0] in ks[..i];
      assert ks[1..][..i - 1] == ks[1..i];
      WithoutAt(ks[1..], k, i - 1);
      assert ks[..i] == [ks[0]] + ks[1..i];
    }
  }

  /** A duplicate-free vector has as many elements as its set. */
  lemma {:induction false} DistinctCount<K>(ks: seq<K>)
    requires NoDuplicates(ks)
    ensures |set k | k in ks| == |ks|
  {
    if ks != [] {
      DistinctCount(ks[1..]);
      assert (set k | k in ks) == {ks[0]} + (set k | k in ks[1..]);
      assert ks[0] !in ks[1..];
    }
  }

  /** `keys.iter().position(|k| k == &key)`. */
  method Position<K(==)>(ks: seq<K>, k: K) returns (idx: Option<nat>)
    ensures idx.Some? ==> idx.value < |ks| && ks[idx.value] == k && k !in ks[..idx.value]
    ensures idx.None? ==> k !in ks
  {
    var i := 0;
    while i < |ks|
      invariant i <= |ks|
      invariant k !in ks[..i]
    {
      if ks[i] == k {
        return Some(i);
      }
      assert ks[..i + 1] == ks[..i] + [ks[i]];
      i := i + 1;
    }
    assert ks[..i] == ks;
    return None;
  }

  class OrderedMap<K(==), V> {
    var keys: seq<K>
    var values: map<K, V>

    /** The keys are distinct and are exactly the keys of `values`. */
    ghost predicate Valid()
      reads this
    {
      NoDuplicates(keys) && values.Keys == set k | k in keys
    }

    /** `OrderedMap::new`. */
    constructor ()
      ensures Valid() && keys == [] && values == map[]
    {
      keys := [];
      values := map[];
    }

    /** `len`, through `Deref` to the map of values. */
    function Len(): (n: nat)
      reads this
      requires Valid()
      ensures n == |keys|
    {
      DistinctCount(keys);
      |values|
    }

    /** `get`, through `Deref` to the map of values. */
    function Get(k: K): (r: Option<V>)
      reads this
      requires Valid()
      ensures r.None? <==> k !in keys
      ensures r.Some? ==> r.value == values[k]
    {
      if k in values then Some(values[k]) else None
    }

    /** `insert`: a new key is appended; an existing key is moved to the end. */
    method Insert(key: K, val: V)
      requires Valid()
      modifies this
      ensures Valid()
      ensures keys == Without(old(keys), key) + [key]
      ensures values == old(values)[key := val]
      ensures key !in old(keys) ==> keys == old(keys) + [key] && |keys| == |old(keys)| + 1
      ensures key in old(keys) ==> |keys| == |old(keys)|
      ensures Get(key) == Some(val)
    {
      var idx := Position(keys, key);
      if idx.Some? {
        WithoutAt(keys, key, idx.value);
        keys := keys[..idx.value] + keys[idx.value + 1..];
      }
      keys := keys + [key];
      values := values[key := val];
    }

    /** `remove`: takes the key out of both, returning its value if it had one. */
    method Remove(key: K) returns (r: Option<V>)
      requires Valid()
      modifies this
      ensures Valid()
      ensures r == if key in old(values) then Some(old(values)[key]) else None
      ensures keys == Without(old(keys), key) && values == old(values) - {key}
      ensures key !in keys && key !in values
      ensures key !in old(keys) ==> keys == old(keys) && values == old(values)
    {
      var i := 0;
      while i < |keys|
        invariant i <= |keys|
        invariant keys == old(keys) && key !in keys[..i]
      {
        if keys[i] == key {
          WithoutAt(keys, key, i);
          keys := keys[..i] + keys[i + 1..];
          break;
        }
        assert keys[..i + 1] == keys[..i] + [keys[i]];
        i := i + 1;
      }
      assert keys == Without(old(keys), key) by {
        if i == |old(keys)| {
          assert old(keys)[..i] == old(keys);
        }
      }
      r := if key in values then Some(values[key]) else None;
      values := values - {key};
    }

    /** `keys()`: an iterator over the keys, in order. */
    method Keys() returns (it: KeyIterator<K>)
      ensures fresh(it) && it.rest == keys
    {
      it := new KeyIterator(keys);
    }

    /** `iter()`: an iterator over the entries, in key order. */
    method Iter() returns (it: OrderedMapIterator<K, V>)
      ensures fresh(it) && it.owner == this && it.curr == 0
    {
      it := new OrderedMapIterator(this);
    }
  }

  /** `Keys`: the part of the key vector not yet yielded. */
  class KeyIterator<K> {
    var rest: seq<K>

    constructor (ks: seq<K>)
      ensures rest == ks
    {
      rest := ks;
    }

    method Next() returns (r: Option<K>)
      modifies this
      ensures old(rest) == [] ==> r == None && rest == []
      ensures old(rest) != [] ==> r == Some(old(rest)[0]) && rest == old(rest)[1..]
    {
      if rest == [] {
        return None;
      }
      r := Some(rest[0]);
      rest := rest[1..];
    }
  }

  /** `OrderedMapIterator`: the map it walks and the position of the next key. */
  class OrderedMapIterator<K(==), V> {
    const owner: OrderedMap<K, V>
    var curr: nat

    constructor (m: OrderedMap<K, V>)
      ensures owner == m && curr == 0
    {
      owner := m;
      curr := 0;
    }

    /** `next`: the entry of the key at `curr`, or `None` past the last key. */
    method Next() returns (r: Option<(K, V)>)
      requires owner.Valid()
      modifies this
      ensures old(curr) < |owner.keys| ==>
        r == Some((owner.keys[old(curr)], owner.values[owner.keys[old(curr)]])) && curr == old(curr) + 1
      ensures old(curr) >= |owner.keys| ==> r == None && curr == old(curr)
    {
      if curr < owner.Len() {
        var key := owner.keys[curr];
        if key in owner.values {
          curr := curr + 1;
          return Some((key, owner.values[key]));
        }
      }
      return None;
    }
  }

  /** `map.keys().collect()`: the keys, in order. */
  method CollectKeys<K(==), V>(m: OrderedMap<K, V>) returns (ks: seq<K>)
    ensures ks == m.keys
  {
    var it := m.Keys();
    ks := [];
    while true
      invariant ks + it.rest == m.keys
      decreases |it.rest|
    {
      var next := it.Next();
      if next.None? {
        break;
      }
      ks := ks + [next.value];
    }
    assert ks + [] == ks;
  }

  /** `for (k, v) in &map`: every entry, in key order. */
  method CollectEntries<K(==), V>(m: OrderedMap<K, V>) returns (es: seq<(K, V)>)
    requires m.Valid()
    ensures |es| == |m.keys|
    ensures forall i :: 0 <= i < |es| ==> es[i] == (m.keys[i], m.values[m.keys[i]])
  {
    var it := m.Iter();
    es := [];
    while true
      invariant it.owner == m && it.curr == |es| <= |m.keys|
      invariant forall i :: 0 <= i < |es| ==> es[i] == (m.keys[i], m.values[m.keys[i]])
      decreases |m.keys| - it.curr
    {
      var next := it.Next();
      if next.None? {
        break;
      }
      es := es + [next.value];
    }
  }
}
