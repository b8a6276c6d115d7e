/**
 * Insertion-ordered dictionaries, the way Python's `dict` behaves: assigning
 * to a key that is already present changes its value in place, assigning to a
 * new key appends it at the end, and iteration follows insertion order.
 */
module Dicts {
  import opened Wrappers

  type Dict<K, V> = seq<(K, V)>
  /** The keys in iteration order. */
  function Keys<K, V>(d: Dict<K, V>): (ks: seq<K>)
    ensures |ks| == |d|
    ensures forall i :: 0 <= i < |d| ==> ks[i] == d[i].0
  {
    if |d| == 0 then [] else [d[0].0] + Keys(d[1..])
  }
  /** No key occurs twice: the invariant every Python dict keeps. */
  predicate DistinctKeys<K(==), V>(d: Dict<K, V>) {
    forall i, j :: 0 <= i < j < |d| ==> d[i].0 != d[j].0
  }
  /** `d[k]` when `k in d`, else None (where Python raises KeyError). */
  function Get<K(==), V>(d: Dict<K, V>, k: K): (r: Option<V>)
    ensures r.None? <==> k !in Keys(d)
  {
    if |d| == 0 then None
    else if d[0].0 == k then Some(d[0].1)
    else Get(d[1..], k)
  }
  /** `d[k] = v`: in place for a present key, appended for a new one. */
  function Put<K(==,!new), V>(d: Dict<K, V>, k: K, v: V): (r: Dict<K, V>)
    ensures Get(r, k) == Some(v)
    ensures forall k' :: k' != k ==> Get(r, k') == Get(d, k')
    ensures k in Keys(d) ==> Keys(r) == Keys(d)
    ensures k !in Keys(d) ==> r == d + [(k, v)]
  {
    if |d| == 0 then [(k, v)]
    else if d[0].0 == k then
      PutHead(d, k, v);
      [(k, v)] + d[1..]
    else
      var rest := Put(d[1..], k, v);
      PutBehind(d, k, v, rest);
      [d[0]] + rest
  }

  /** Assigning to the first key replaces its entry. */
  lemma PutHead<K(!new), V>(d: Dict<K, V>, k: K, v: V)
    requires |d| > 0 && d[0].0 == k
    ensures var r := [(k, v)] + d[1..];
      && Get(r, k) == Some(v)
      && (forall k' :: k' != k ==> Get(r, k') == Get(d, k'))
      && Keys(r) == Keys(d)
  {
    var r := [(k, v)] + d[1..];
    assert r[1..] == d[1..];
  }

  /** Assigning behind the first entry keeps it and assigns in the rest. */
  lemma PutBehind<K(!new), V>(d: Dict<K, V>, k: K, v: V, rest: Dict<K, V>)
    requires |d| > 0 && d[0].0 != k
    requires Get(rest, k) == Some(v)
    requires forall k' :: k' != k ==> Get(rest, k') == Get(d[1..], k')
    requires k in Keys(d[1..]) ==> Keys(rest) == Keys(d[1..])
    requires k !in Keys(d[1..]) ==> rest == d[1..] + [(k, v)]
    ensures var r := [d[0]] + rest;
      && Get(r, k) == Some(v)
      && (forall k' :: k' != k ==> Get(r, k') == Get(d, k'))
      && (k in Keys(d) ==> Keys(r) == Keys(d))
      && (k !in Keys(d) ==> r == d + [(k, v)])
  {
    PutBehindGet(d, k, v, rest);
    PutBehindKeys(d, k, v, rest);
  }

  /** The lookups after assigning behind the first entry. */
  lemma PutBehindGet<K(!new), V>(d: Dict<K, V>, k: K, v: V, rest: Dict<K, V>)
    requires |d| > 0 && d[0].0 != k
    requires Get(rest, k) == Some(v)
    requires forall k' :: k' != k ==> Get(rest, k') == Get(d[1..], k')
    ensures Get([d[0]] + rest, k) == Some(v)
    ensures forall k' :: k' != k ==> Get([d[0]] + rest, k') == Get(d, k')
  {
    forall k' | k' != k
      ensures Get([d[0]] + rest, k') == Get(d, k')
    {
      GetBehind(d, rest, k');
    }
    GetBehind(d, rest, k);
  }

  /** The keys after assigning behind the first entry. */
  lemma PutBehindKeys<K, V>(d: Dict<K, V>, k: K, v: V, rest: Dict<K, V>)
    requires |d| > 0 && d[0].0 != k
    requires k in Keys(d[1..]) ==> Keys(rest) == Keys(d[1..])
    requires k !in Keys(d[1..]) ==> rest == d[1..] + [(k, v)]
    ensures k in Keys(d) ==> Keys([d[0]] + rest) == Keys(d)
    ensures k !in Keys(d) ==> [d[0]] + rest == d + [(k, v)]
  {
    KeysCons(d, rest);
    if k !in Keys(d) {
      assert d == [d[0]] + d[1..];
    }
  }

  /** A lookup in `[d[0]] + rest` either hits the first entry or looks in `rest`. */
  lemma GetBehind<K, V>(d: Dict<K, V>, rest: Dict<K, V>, x: K)
    requires |d| > 0
    ensures Get([d[0]] + rest, x) == if d[0].0 == x then Some(d[0].1) else Get(rest, x)
    ensures Get(d, x) == if d[0].0 == x then Some(d[0].1) else Get(d[1..], x)
  {
    assert ([d[0]] + rest)[1..] == rest;
  }

  /** The keys of `[d[0]] + rest` and of `d` share their first key. */
  lemma KeysCons<K, V>(d: Dict<K, V>, rest: Dict<K, V>)
    requires |d| > 0
    ensures Keys([d[0]] + rest) == [d[0].0] + Keys(rest)
    ensures Keys(d) == [d[0].0] + Keys(d[1..])
  {
    assert ([d[0]] + rest)[1..] == rest;
  }

  lemma KeysSnoc<K, V>(d: Dict<K, V>, k: K, v: V)
    ensures Keys(d + [(k, v)]) == Keys(d) + [k]
  {
  }

  /** Assignment keeps the keys distinct. */
  lemma PutDistinct<K(!new), V>(d: Dict<K, V>, k: K, v: V)
    requires DistinctKeys(d)
    ensures DistinctKeys(Put(d, k, v))
  {
    var r := Put(d, k, v);
    if k in Keys(d) {
      assert Keys(r) == Keys(d);
      forall i, j | 0 <= i < j < |r|
        ensures r[i].0 != r[j].0
      {
        assert Keys(r)[i] == r[i].0 && Keys(r)[j] == r[j].0;
      }
    } else {
      forall i, j | 0 <= i < j < |r|
        ensures r[i].0 != r[j].0
      {
        if j == |d| {
          assert Keys(d)[i] == d[i].0;
        }
      }
    }
  }
}
