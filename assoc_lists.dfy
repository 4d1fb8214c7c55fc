/**
 * An insertion-ordered table of key/value entries: the model of a Ruby
 * `Hash` as the library uses it for an element's attributes. Storing under
 * a key that is already present replaces the value in place; a new key is
 * appended at the end.
 */
module AssocLists {

  datatype Option<T> = None | Some(value: T)

  /** The set of keys present in `es`. */
  function Keys<K(==), V>(es: seq<(K, V)>): set<K> {
    if es == [] then {} else {es[0].0} + Keys(es[1..])
  }

  /** No key is stored twice, as in a hash. */
  predicate DistinctKeys<K(==), V>(es: seq<(K, V)>) {
    es == [] || (es[0].0 !in Keys(es[1..]) && DistinctKeys(es[1..]))
  }

  /** `es[k]`: the value of the first entry with key `k`. */
  function Get<K(==), V>(es: seq<(K, V)>, k: K): (r: Option<V>)
    ensures r.None? <==> k !in Keys(es)
  {
    if es == [] then None
    else if es[0].0 == k then Some(es[0].1)
    else Get(es[1..], k)
  }

  /** `es[k] = v`. */
  function Put<K(==,!new), V>(es: seq<(K, V)>, k: K, v: V): (r: seq<(K, V)>)
    ensures Get(r, k) == Some(v)
    ensures forall j :: j != k ==> Get(r, j) == Get(es, j)
    ensures Keys(r) == Keys(es) + {k}
    ensures DistinctKeys(es) ==> DistinctKeys(r)
    ensures |r| == if k in Keys(es) then |es| else |es| + 1
    ensures forall i :: 0 <= i < |es| ==> r[i].0 == es[i].0
  {
    if es == [] then [(k, v)]
    else if es[0].0 == k then [(k, v)] + es[1..]
    else [es[0]] + Put(es[1..], k, v)
  }

  /** `es.delete(k)`. */
  function Remove<K(==,!new), V>(es: seq<(K, V)>, k: K): (r: seq<(K, V)>)
    ensures Get(r, k) == None
    ensures forall j :: j != k ==> Get(r, j) == Get(es, j)
    ensures Keys(r) == Keys(es) - {k}
    ensures DistinctKeys(es) ==> DistinctKeys(r)
    ensures forall i :: 0 <= i < |r| ==> r[i] in es
  {
    if es == [] then []
    else if es[0].0 == k then Remove(es[1..], k)
    else [es[0]] + Remove(es[1..], k)
  }

  /** In a table with distinct keys, the entry at position `i` is what its key finds. */
  lemma {:induction false} GetEntry<K, V>(es: seq<(K, V)>, i: nat)
    requires DistinctKeys(es) && i < |es|
    ensures Get(es, es[i].0) == Some(es[i].1)
  {
    if i > 0 {
      GetEntry(es[1..], i - 1);
      assert es[1..][i - 1] == es[i];
      assert es[i].0 in Keys(es[1..]);
    }
  }

  /** Every key of the table stands at some position. */
  lemma {:induction false} KeyAt<K, V>(es: seq<(K, V)>, k: K)
    requires k in Keys(es)
    ensures exists i :: 0 <= i < |es| && es[i].0 == k
  {
    if es[0].0 != k {
      KeyAt(es[1..], k);
      var i :| 0 <= i < |es[1..]| && es[1..][i].0 == k;
      assert es[i + 1].0 == k;
    }
  }

  lemma {:induction false} AllKeysAt<K, V>(es: seq<(K, V)>)
    ensures forall k :: k in Keys(es) <==> exists i :: 0 <= i < |es| && es[i].0 == k
  {
    forall k | k in Keys(es)
      ensures exists i :: 0 <= i < |es| && es[i].0 == k
    {
      KeyAt(es, k);
    }
    forall k, i | 0 <= i < |es| && es[i].0 == k
      ensures k in Keys(es)
    {
      KeyInKeys(es, i);
    }
  }

  lemma {:induction false} KeyInKeys<K, V>(es: seq<(K, V)>, i: nat)
    requires i < |es|
    ensures es[i].0 in Keys(es)
  {
    if i > 0 {
      KeyInKeys(es[1..], i - 1);
      assert es[1..][i - 1] == es[i];
    }
  }
}
