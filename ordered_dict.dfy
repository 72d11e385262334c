/** A Python `dict` as the session runner uses it: entries are kept in
    insertion order, assigning to an absent key appends a new entry, and
    assigning to a present key replaces its value where it stands. */
module OrderedDict {
  import opened Wrappers

  /** The entries in iteration order, as `dict.items()` yields them. */
  type Dict<K, V> = seq<(K, V)>

  function Keys<K, V>(d: Dict<K, V>): (ks: seq<K>)
    ensures |ks| == |d|
    ensures forall i :: 0 <= i < |d| ==> ks[i] == d[i].0
  {
    if d == [] then [] else [d[0].0] + Keys(d[1..])
  }

  predicate DistinctKeys<K(==), V>(d: Dict<K, V>)
  {
    forall i, j :: 0 <= i < j < |d| ==> d[i].0 != d[j].0
  }

  /** `d.get(k)`: the value stored under `k`, if any. */
  function Get<K(==), V>(d: Dict<K, V>, k: K): (r: Option<V>)
    ensures r.None? <==> k !in Keys(d)
  {
    if d == [] then None
    else if d[0].0 == k then Some(d[0].1)
    else Get(d[1..], k)
  }

  /** `d[k] = v`. */
  function Insert<K(==,!new), V>(d: Dict<K, V>, k: K, v: V): Dict<K, V>
  {
    if d == [] then [(k, v)]
    else if d[0].0 == k then [(k, v)] + d[1..]
    else [d[0]] + Insert(d[1..], k, v)
  }

  /** After `d[k] = v`, `k` maps to `v`, every other key keeps its value,
      and the keys keep their order, `k` coming last if it is new. */
  lemma {:induction false} InsertSemantics<K(!new), V>(d: Dict<K, V>, k: K, v: V)
    ensures Get(Insert(d, k, v), k) == Some(v)
    ensures forall k' :: k' != k ==> Get(Insert(d, k, v), k') == Get(d, k')
    ensures Keys(Insert(d, k, v)) == if k in Keys(d) then Keys(d) else Keys(d) + [k]
  {
    if d != [] && d[0].0 == k {
      assert ([(k, v)] + d[1..])[1..] == d[1..];
    } else if d != [] {
      var rest := Insert(d[1..], k, v);
      InsertSemantics(d[1..], k, v);
      assert ([d[0]] + rest)[1..] == rest;
    }
  }

  /** Assigning to an absent key appends one entry and moves nothing. */
  lemma {:induction false} InsertAbsent<K(!new), V>(d: Dict<K, V>, k: K, v: V)
    requires k !in Keys(d)
    ensures Insert(d, k, v) == d + [(k, v)]
  {
    if d != [] {
      InsertAbsent(d[1..], k, v);
      assert d == [d[0]] + d[1..];
    }
  }

  /** Assignment never creates a second entry for a key. */
  lemma InsertKeepsDistinct<K(!new), V>(d: Dict<K, V>, k: K, v: V)
    requires DistinctKeys(d)
    ensures DistinctKeys(Insert(d, k, v))
  {
    var r := Insert(d, k, v);
    var ks := Keys(r);
    InsertSemantics(d, k, v);
    forall i, j | 0 <= i < j < |r| ensures r[i].0 != r[j].0 {
      assert ks[i] == r[i].0 && ks[j] == r[j].0;
      assert Keys(d)[..] == Keys(d);
    }
  }

  /** Looking up a key after appending an entry finds the earlier entry for
      that key if there is one, and the appended entry otherwise. */
  lemma {:induction false} GetAppend<K(!new), V>(d: Dict<K, V>, k: K, v: V, key: K)
    ensures Get(d + [(k, v)], key) ==
      if key in Keys(d) then Get(d, key) else if key == k then Some(v) else None
  {
    if d != [] {
      assert (d + [(k, v)])[1..] == d[1..] + [(k, v)];
      GetAppend(d[1..], k, v, key);
    }
  }
}
