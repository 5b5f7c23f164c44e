/**
 * A Python `dict` with string keys, kept as its items in insertion order:
 * `d.get(k)`, `d[k] = v` (overwrite in place, or append a new key), `d.keys()`.
 */
module PyDict {
  import opened Wrappers

  type Dict<V> = seq<(string, V)>

  function Keys<V>(d: Dict<V>): (ks: seq<string>)
    ensures |ks| == |d|
    ensures forall i :: 0 <= i < |d| ==> ks[i] == d[i].0
  {
    if d == [] then [] else [d[0].0] + Keys(d[1..])
  }

  /** No key appears twice, as in every dictionary Python builds. */
  predicate UniqueKeys<V>(d: Dict<V>) {
    forall i, j :: 0 <= i < j < |d| ==> d[i].0 != d[j].0
  }

  /** `d.get(k)`: the value of the first item under `k`, or None when `k` is absent. */
  function Get<V>(d: Dict<V>, k: string): Option<V>
  {
    if d == [] then None
    else if d[0].0 == k then Some(d[0].1)
    else Get(d[1..], k)
  }

  /** `get` finds a value exactly when the key is present, and the value is stored under that key. */
  lemma {:induction false} GetSpec<V>(d: Dict<V>, k: string)
    ensures Get(d, k).None? <==> k !in Keys(d)
    ensures Get(d, k).Some? ==> exists i :: 0 <= i < |d| && d[i] == (k, Get(d, k).value)
  {
    if d != [] && d[0].0 != k {
      GetSpec(d[1..], k);
      assert Keys(d) == [d[0].0] + Keys(d[1..]);
      if Get(d, k).Some? {
        var i :| 0 <= i < |d[1..]| && d[1..][i] == (k, Get(d, k).value);
        assert d[i + 1] == d[1..][i];
      }
    }
  }

  /** `d.get(k, default)`. */
  function GetOr<V>(d: Dict<V>, k: string, default: V): V
  {
    match Get(d, k)
    case Some(v) => v
    case None => default
  }

  /** In a dictionary without repeated keys, each item is what `get` finds under its key. */
  lemma {:induction false} GetUnique<V>(d: Dict<V>, i: nat)
    requires UniqueKeys(d) && i < |d|
    ensures Get(d, d[i].0) == Some(d[i].1)
  {
    if i > 0 {
      assert d[0].0 != d[i].0;
      assert d[1..][i - 1] == d[i];
      GetUnique(d[1..], i - 1);
    }
  }

  /** `d[k] = v`: the value replaced in place when `k` is present, or a new item appended. */
  function Set<V>(d: Dict<V>, k: string, v: V): Dict<V>
  {
    if d == [] then [(k, v)]
    else if d[0].0 == k then [(k, v)] + d[1..]
    else [d[0]] + Set(d[1..], k, v)
  }

  /** After `d[k] = v`, `k` maps to `v` and every other key keeps its value. */
  lemma {:induction false} SetGet<V>(d: Dict<V>, k: string, v: V, k': string)
    ensures Get(Set(d, k, v), k') == if k' == k then Some(v) else Get(d, k')
  {
    if d != [] && d[0].0 != k {
      SetGet(d[1..], k, v, k');
      assert Set(d, k, v)[1..] == Set(d[1..], k, v);
    } else if d != [] {
      assert Set(d, k, v)[1..] == d[1..];
    }
  }

  /** After `d[k] = v` the key order is unchanged when `k` was present, and has `k` appended otherwise. */
  lemma {:induction false} SetKeys<V>(d: Dict<V>, k: string, v: V)
    ensures Keys(Set(d, k, v)) == if k in Keys(d) then Keys(d) else Keys(d) + [k]
  {
    var r := Set(d, k, v);
    if d == [] {
      assert Keys(r) == [k];
    } else if d[0].0 == k {
      assert Keys(r) == Keys(d);
      assert Keys(d)[0] == k;
    } else {
      SetKeys(d[1..], k, v);
      assert r[1..] == Set(d[1..], k, v);
      assert Keys(r) == [d[0].0] + Keys(Set(d[1..], k, v));
      assert Keys(d) == [d[0].0] + Keys(d[1..]);
      assert k in Keys(d) <==> k in Keys(d[1..]);
      if k !in Keys(d[1..]) {
        assert Keys(r) == [d[0].0] + (Keys(d[1..]) + [k]);
      }
    }
  }

  /** `d[k] = v` repeats no key. */
  lemma SetUnique<V>(d: Dict<V>, k: string, v: V)
    requires UniqueKeys(d)
    ensures UniqueKeys(Set(d, k, v))
  {
    var r := Set(d, k, v);
    SetKeys(d, k, v);
    forall i, j | 0 <= i < j < |r| ensures r[i].0 != r[j].0 {
      assert Keys(r)[i] == r[i].0 && Keys(r)[j] == r[j].0;
      if j < |d| {
        assert Keys(d)[i] == d[i].0 && Keys(d)[j] == d[j].0;
      } else {
        assert Keys(d)[i] == d[i].0;
      }
    }
  }

  /**
   * After `d[k] = v`, `k` maps to `v`, every other key keeps its value, the
   * key order is unchanged when `k` was present or has `k` appended, and no
   * key is repeated that was not repeated before.
   */
  lemma SetSpec<V>(d: Dict<V>, k: string, v: V)
    ensures Get(Set(d, k, v), k) == Some(v)
    ensures forall k' :: k' != k ==> Get(Set(d, k, v), k') == Get(d, k')
    ensures Keys(Set(d, k, v)) == if k in Keys(d) then Keys(d) else Keys(d) + [k]
    ensures UniqueKeys(d) ==> UniqueKeys(Set(d, k, v))
  {
    SetGet(d, k, v, k);
    forall k' | k' != k ensures Get(Set(d, k, v), k') == Get(d, k') {
      SetGet(d, k, v, k');
    }
    SetKeys(d, k, v);
    if UniqueKeys(d) {
      SetUnique(d, k, v);
    }
  }

  /** `get` with a default after `d[k] = v`. */
  lemma GetOrSet<V>(d: Dict<V>, k: string, v: V, k': string, default: V)
    ensures GetOr(Set(d, k, v), k', default) == if k' == k then v else GetOr(d, k', default)
  {
    SetSpec(d, k, v);
  }
}
