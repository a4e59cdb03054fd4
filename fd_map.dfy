/**
  `std::map<socket_t, V>` as the two dual-stack programs use it: a table
  keyed by file descriptor whose iteration visits the keys in ascending
  order.  Its abstract value is an association list with strictly ascending
  keys; `operator[]` assignment is `Put`.
*/
module FdMap {

  type Table<V> = seq<(int, V)>

  /** Keys strictly ascend: the iteration order of a `std::map<int, V>`. */
  ghost predicate Ascending<V>(t: Table<V>)
  {
    forall i, j :: 0 <= i < j < |t| ==> t[i].0 < t[j].0
  }

  /** The keys in iteration order. */
  function Keys<V>(t: Table<V>): (ks: seq<int>)
    ensures |ks| == |t| && forall i :: 0 <= i < |t| ==> ks[i] == t[i].0
  {
    if t == [] then [] else [t[0].0] + Keys(t[1..])
  }

  /** The table as a Dafny map. */
  function ToMap<V>(t: Table<V>): map<int, V>
  {
    if t == [] then map[] else ToMap(t[1..])[t[0].0 := t[0].1]
  }

  /** `m[k] = v`: overwrite the entry for `k`, or insert it in key order. */
  function Put<V>(t: Table<V>, k: int, v: V): (r: Table<V>)
    requires Ascending(t)
    ensures Ascending(r)
    ensures ToMap(r) == ToMap(t)[k := v]
    ensures |r| > 0 && r[0].0 == (if t != [] && t[0].0 < k then t[0].0 else k)
    ensures |r| == if k in ToMap(t) then |t| else |t| + 1
  {
    if t == [] then [(k, v)]
    else if k < t[0].0 then
      KeysAbove(t, t[0].0 - 1);
      assert k !in ToMap(t);
      [(k, v)] + t
    else if k == t[0].0 then
      KeysAbove(t[1..], t[0].0);
      [(k, v)] + t[1..]
    else
      var rest := Put(t[1..], k, v);
      assert t[1..] != [] ==> t[1..][0].0 == t[1].0 > t[0].0;
      ConsAscending(t[0], rest);
      var r := [t[0]] + rest;
      assert r[1..] == rest;
      assert ToMap(r) == ToMap(rest)[t[0].0 := t[0].1];
      r
  }

  /** An entry below an ascending table's first key can go in front. */
  lemma ConsAscending<V>(e: (int, V), t: Table<V>)
    requires Ascending(t) && (t != [] ==> e.0 < t[0].0)
    ensures Ascending([e] + t)
  {
    var r := [e] + t;
    forall i, j | 0 <= i < j < |r|
      ensures r[i].0 < r[j].0
    {
      assert r[j] == t[j - 1];
      if i > 0 {
        assert r[i] == t[i - 1];
      }
    }
  }

  /** In an ascending table every key is at least the first. */
  lemma {:induction false} KeysAbove<V>(t: Table<V>, b: int)
    requires Ascending(t)
    requires t != [] ==> t[0].0 > b
    ensures forall k :: k in ToMap(t) ==> k > b
  {
    if t != [] {
      if |t| > 1 {
        assert t[1..][0].0 == t[1].0 > t[0].0;
      }
      KeysAbove(t[1..], b);
    }
  }

  /** The keys of the map are the keys listed, and each lists its entry. */
  lemma {:induction false} ToMapLookup<V>(t: Table<V>)
    requires Ascending(t)
    ensures forall k :: k in ToMap(t) <==> k in Keys(t)
    ensures forall i :: 0 <= i < |t| ==> ToMap(t)[t[i].0] == t[i].1
  {
    if t != [] {
      ToMapLookup(t[1..]);
      if |t| > 1 {
        KeysAbove(t[1..], t[0].0);
      }
      assert Keys(t) == [t[0].0] + Keys(t[1..]);
      forall i | 1 <= i < |t|
        ensures ToMap(t)[t[i].0] == t[i].1
      {
        assert t[1..][i - 1] == t[i];
      }
    }
  }
}
