/**
 * The host table (`HostMap`, an `IndexMap<String, String>`): aliases in
 * insertion order, each with its connection name. Inserting a key that is
 * already present replaces its value and keeps its position.
 */
module HostMaps {
  import opened Wrappers

  /** The (alias, hostname) pairs in table order. */
  type HostMap = seq<(string, string)>

  function Keys(m: HostMap): seq<string> {
    seq(|m|, i requires 0 <= i < |m| => m[i].0)
  }

  predicate DistinctKeys(m: HostMap) {
    forall i, j :: 0 <= i < j < |m| ==> m[i].0 != m[j].0
  }

  lemma KeysCons(m: HostMap)
    requires m != []
    ensures Keys(m) == [m[0].0] + Keys(m[1..])
  {
  }

  /** `IndexMap::get`. */
  function Get(m: HostMap, k: string): (r: Option<string>)
    ensures r.None? <==> k !in Keys(m)
    ensures r.Some? ==> (k, r.value) in m
  {
    if m == [] then None
    else
      KeysCons(m);
      if m[0].0 == k then Some(m[0].1) else Get(m[1..], k)
  }

  /** Position of `k` in the table, if present. */
  function IndexOf(m: HostMap, k: string): (r: Option<nat>)
    ensures r.None? <==> k !in Keys(m)
    ensures r.Some? ==> r.value < |m| && m[r.value].0 == k && k !in Keys(m[..r.value])
  {
    if m == [] then None
    else
      KeysCons(m);
      if m[0].0 == k then Some(0)
      else match IndexOf(m[1..], k)
        case None => None
        case Some(i) =>
          assert Keys(m[..i + 1]) == [m[0].0] + Keys(m[1..][..i]) by { KeysCons(m[..i + 1]); }
          Some(i + 1)
  }

  /**
   * `IndexMap::insert`: a new key is appended at the end; an existing key
   * keeps its position and gets the new value.
   */
  function Insert(m: HostMap, k: string, v: string): (r: HostMap)
    ensures k in Keys(m) ==> Keys(r) == Keys(m)
    ensures k !in Keys(m) ==> Keys(r) == Keys(m) + [k]
    ensures DistinctKeys(m) ==> DistinctKeys(r)
    ensures (k, v) in r && forall p :: p in r ==> p == (k, v) || p in m
  {
    match IndexOf(m, k)
    case Some(i) =>
      var r := m[i := (k, v)];
      assert r[i] == (k, v);
      assert forall p :: p in r ==> p == (k, v) || p in m by {
        forall p | p in r ensures p == (k, v) || p in m {
          var j :| 0 <= j < |r| && r[j] == p;
          if j != i { assert m[j] == p; }
        }
      }
      r
    case None =>
      assert forall i :: 0 <= i < |m| ==> Keys(m)[i] == m[i].0;
      m + [(k, v)]
  }

  /** After an insert, the key maps to the new value and every other key is as before. */
  lemma InsertGet(m: HostMap, k: string, v: string, k': string)
    requires DistinctKeys(m)
    ensures Get(Insert(m, k, v), k') == if k' == k then Some(v) else Get(m, k')
  {
    var r := Insert(m, k, v);
    GetIsIndexOf(r, k');
    GetIsIndexOf(m, k');
  }

  /** With distinct keys, a lookup yields the value at the key's position. */
  lemma {:induction false} GetIsIndexOf(m: HostMap, k: string)
    ensures Get(m, k) == match IndexOf(m, k) case Some(i) => Some(m[i].1) case None => None
  {
    if m != [] && m[0].0 != k {
      GetIsIndexOf(m[1..], k);
    }
  }
}
