/** Ruby's `Hash`: key/value pairs kept in insertion order.  Assigning to
    an existing key replaces its value in place; a new key is appended. */
module OrderedHash {
  import opened Wrappers

  type Hash<K, V> = seq<(K, V)>

  function Keys<K, V>(h: Hash<K, V>): (ks: seq<K>)
    ensures |ks| == |h|
    ensures forall i :: 0 <= i < |h| ==> ks[i] == h[i].0
  {
    if |h| == 0 then [] else [h[0].0] + Keys(h[1..])
  }

  predicate Distinct<K(==)>(ks: seq<K>) {
    forall i, j :: 0 <= i < j < |ks| ==> ks[i] != ks[j]
  }

  /** Every key appears once, as in a Ruby `Hash`. */
  predicate Valid<K(==), V>(h: Hash<K, V>) {
    Distinct(Keys(h))
  }

  /** `h[k]`, `nil` for a missing key. */
  function Get<K(==), V>(h: Hash<K, V>, k: K): (r: Option<V>)
    ensures r.Some? <==> k in Keys(h)
  {
    if |h| == 0 then None
    else if h[0].0 == k then Some(h[0].1)
    else Get(h[1..], k)
  }

  /** `h[k] = v`. */
  function Put<K(==, !new), V>(h: Hash<K, V>, k: K, v: V): (r: Hash<K, V>)
    ensures Get(r, k) == Some(v)
    ensures forall k' :: k' != k ==> Get(r, k') == Get(h, k')
    ensures Keys(r) == if k in Keys(h) then Keys(h) else Keys(h) + [k]
    ensures |h| > 0 ==> r[0].0 == h[0].0
    ensures |h| > 0 && h[0].0 != k ==> r[0] == h[0]
    ensures |r| >= |h|
  {
    if |h| == 0 then [(k, v)]
    else if h[0].0 == k then [(k, v)] + h[1..]
    else
      var rest := Put(h[1..], k, v);
      assert Keys([h[0]] + rest) == [h[0].0] + Keys(rest);
      [h[0]] + rest
  }

  lemma PutValid<K(!new), V>(h: Hash<K, V>, k: K, v: V)
    requires Valid(h)
    ensures Valid(Put(h, k, v))
  {
  }

  /** The entry at position `i` is found when no earlier entry has its key. */
  lemma {:induction false} GetAt<K, V>(h: Hash<K, V>, i: nat)
    requires i < |h|
    requires forall j :: 0 <= j < i ==> h[j].0 != h[i].0
    ensures Get(h, h[i].0) == Some(h[i].1)
    decreases i
  {
    if i > 0 {
      GetAt(h[1..], i - 1);
    }
  }

  /** The values in key order. */
  function Values<K, V>(h: Hash<K, V>): (vs: seq<V>)
    ensures |vs| == |h|
    ensures forall i :: 0 <= i < |h| ==> vs[i] == h[i].1
  {
    if |h| == 0 then [] else [h[0].1] + Values(h[1..])
  }
}
