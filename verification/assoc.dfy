/**
  Python dictionaries as ordered association lists. A dict iterates in
  insertion order, and assigning to a key that is already present replaces
  the value but keeps the key's original position; `Put` models exactly that.
 */
module Assoc {
  import opened Wrappers

  /** No key occurs twice. */
  predicate UniqueKeys<K(==), V>(a: seq<(K, V)>)
  {
    forall i, j :: 0 <= i < j < |a| ==> a[i].0 != a[j].0
  }

  /** Dropping the first entry keeps the keys unique. */
  lemma UniqueKeysTail<K, V>(a: seq<(K, V)>)
    requires |a| > 0 && UniqueKeys(a)
    ensures UniqueKeys(a[1..])
  {
    assert forall i :: 1 <= i < |a| ==> a[1..][i - 1] == a[i];
  }

  /** An entry whose key is new keeps the keys unique in front. */
  lemma UniqueKeysCons<K, V>(x: (K, V), a: seq<(K, V)>)
    requires UniqueKeys(a) && forall k :: 0 <= k < |a| ==> a[k].0 != x.0
    ensures UniqueKeys([x] + a)
  {
    assert forall i :: 1 <= i < |a| + 1 ==> ([x] + a)[i] == a[i - 1];
  }

  /** The keys, in iteration order. */
  function Keys<K, V>(a: seq<(K, V)>): (ks: seq<K>)
    ensures |ks| == |a|
    ensures forall i :: 0 <= i < |a| ==> ks[i] == a[i].0
  {
    seq(|a|, i requires 0 <= i < |a| => a[i].0)
  }

  /** The values, in iteration order: `d.values()`. */
  function Values<K, V>(a: seq<(K, V)>): (vs: seq<V>)
    ensures |vs| == |a|
    ensures forall i :: 0 <= i < |a| ==> vs[i] == a[i].1
  {
    seq(|a|, i requires 0 <= i < |a| => a[i].1)
  }

  /** `d.get(k)`. */
  function Get<K(==, !new), V>(a: seq<(K, V)>, k: K): (r: Option<V>)
    ensures r.None? <==> k !in Keys(a)
    ensures r.Some? ==> (k, r.value) in a
    ensures UniqueKeys(a) ==> forall i :: 0 <= i < |a| && a[i].0 == k ==> r == Some(a[i].1)
  {
    if |a| == 0 then None
    else if a[0].0 == k then Some(a[0].1)
    else
      assert Keys(a) == [a[0].0] + Keys(a[1..]);
      Get(a[1..], k)
  }

  /** The index of key `k`. */
  function IndexOfKey<K(==, !new), V>(a: seq<(K, V)>, k: K): (i: nat)
    requires k in Keys(a)
    ensures i < |a| && a[i].0 == k
  {
    if a[0].0 == k then 0
    else
      assert k in Keys(a[1..]) by {
        var j :| 0 <= j < |a| && Keys(a)[j] == k;
        assert Keys(a[1..])[j - 1] == k;
      }
      1 + IndexOfKey(a[1..], k)
  }

  /** `d[k] = v`: replaced in place when present, appended otherwise. */
  function Put<K(==, !new), V>(a: seq<(K, V)>, k: K, v: V): (r: seq<(K, V)>)
    ensures k in Keys(a) ==> |r| == |a| && Keys(r) == Keys(a)
    ensures k in Keys(a) ==> forall i :: 0 <= i < |a| ==> r[i] == if a[i].0 == k then (k, v) else a[i]
    ensures k !in Keys(a) ==> r == a + [(k, v)]
    ensures UniqueKeys(a) ==> UniqueKeys(r)
    ensures Get(r, k) == Some(v)
    ensures forall k' :: k' != k ==> Get(r, k') == Get(a, k')
    ensures forall k' :: k' in Keys(r) <==> k' in Keys(a) || k' == k
  {
    if k in Keys(a) then
      var r := seq(|a|, i requires 0 <= i < |a| => if a[i].0 == k then (k, v) else a[i]);
      assert Keys(r) == Keys(a);
      GetPointwise(a, r, k, v);
      r
    else
      var r := a + [(k, v)];
      assert Keys(r) == Keys(a) + [k];
      GetAppend(a, k, v);
      r
  }

  /** Replacing the pairs of `k` pointwise: `k` now reads `v`. */
  lemma {:induction false} GetPointwiseSame<K(!new), V>(a: seq<(K, V)>, r: seq<(K, V)>, k: K, v: V)
    requires k in Keys(a)
    requires |r| == |a| && forall i :: 0 <= i < |a| ==> r[i] == if a[i].0 == k then (k, v) else a[i]
    ensures Get(r, k) == Some(v)
  {
    if a[0].0 != k {
      assert Keys(a) == [a[0].0] + Keys(a[1..]);
      GetPointwiseSame(a[1..], r[1..], k, v);
    }
  }

  /** Replacing the pairs of `k` pointwise: every other key reads as before. */
  lemma {:induction false} GetPointwiseOther<K(!new), V>(a: seq<(K, V)>, r: seq<(K, V)>, k: K, v: V, k': K)
    requires k' != k
    requires |r| == |a| && forall i :: 0 <= i < |a| ==> r[i] == if a[i].0 == k then (k, v) else a[i]
    ensures Get(r, k') == Get(a, k')
    decreases |a|
  {
    if |a| > 0 && a[0].0 != k' {
      GetPointwiseOther(a[1..], r[1..], k, v, k');
    }
  }

  lemma GetPointwise<K(!new), V>(a: seq<(K, V)>, r: seq<(K, V)>, k: K, v: V)
    requires k in Keys(a)
    requires |r| == |a| && forall i :: 0 <= i < |a| ==> r[i] == if a[i].0 == k then (k, v) else a[i]
    ensures Get(r, k) == Some(v)
    ensures forall k' :: k' != k ==> Get(r, k') == Get(a, k')
  {
    GetPointwiseSame(a, r, k, v);
    forall k' | k' != k
      ensures Get(r, k') == Get(a, k')
    {
      GetPointwiseOther(a, r, k, v, k');
    }
  }

  lemma {:induction false} GetAppend<K(!new), V>(a: seq<(K, V)>, k: K, v: V)
    requires k !in Keys(a)
    ensures Get(a + [(k, v)], k) == Some(v)
    ensures forall k' :: k' != k ==> Get(a + [(k, v)], k') == Get(a, k')
  {
    if |a| > 0 {
      assert Keys(a) == [a[0].0] + Keys(a[1..]);
      GetAppend(a[1..], k, v);
      assert (a + [(k, v)])[1..] == a[1..] + [(k, v)];
    }
  }
}
