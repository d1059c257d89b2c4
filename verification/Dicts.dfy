/**
 Python's insertion-ordered dict, as a sequence of entries: reading, overwriting in place or appending, and
 sums over the entries.
 */
module Dicts {
  import opened Contracts
  import opened Sums

  type Dict<K, V> = seq<(K, V)>

  ghost predicate Unique<K, V>(d: Dict<K, V>) {
    forall i, j :: 0 <= i < j < |d| ==> d[i].0 != d[j].0
  }

  function Get<K(==), V>(d: Dict<K, V>, k: K): Option<V>
  {
    if d == [] then None
    else if d[0].0 == k then Some(d[0].1)
    else Get(d[1..], k)
  }

  /** d[k] = v: an existing key keeps its place, a new one goes last. */
  function Put<K(==), V>(d: Dict<K, V>, k: K, v: V): Dict<K, V>
  {
    if d == [] then [(k, v)]
    else if d[0].0 == k then [(k, v)] + d[1..]
    else [d[0]] + Put(d[1..], k, v)
  }

  lemma {:induction false} GetPut<K, V>(d: Dict<K, V>, k: K, v: V, k': K)
    ensures Get(Put(d, k, v), k') == if k' == k then Some(v) else Get(d, k')
  {
    if d != [] && d[0].0 != k {
      GetPut(d[1..], k, v, k');
    }
  }

  lemma GetSingle<K, V>(k: K, v: V, k': K)
    ensures Get([(k, v)], k') == if k == k' then Some(v) else None
  {
    assert [(k, v)][1..] == [];
  }

  lemma {:induction false} GetMember<K, V>(d: Dict<K, V>, k: K)
    ensures Get(d, k).Some? ==> (k, Get(d, k).value) in d
    ensures Get(d, k).None? ==> forall e :: e in d ==> e.0 != k
  {
    if d != [] && d[0].0 != k {
      GetMember(d[1..], k);
    }
  }

  lemma {:induction false} GetUnique<K, V>(d: Dict<K, V>, i: nat)
    requires Unique(d) && i < |d|
    ensures Get(d, d[i].0) == Some(d[i].1)
  {
    if i > 0 {
      assert d[0].0 != d[i].0;
      assert d[1..][i - 1] == d[i];
      GetUnique(d[1..], i - 1);
    }
  }

  lemma {:induction false} PutKeys<K, V>(d: Dict<K, V>, k: K, v: V, e: (K, V))
    requires e in Put(d, k, v)
    ensures e == (k, v) || e in d
  {
    if d != [] && d[0].0 != k && e != d[0] {
      PutKeys(d[1..], k, v, e);
    }
  }

  lemma {:induction false} PutUnique<K, V>(d: Dict<K, V>, k: K, v: V)
    requires Unique(d)
    ensures Unique(Put(d, k, v))
  {
    if d != [] && d[0].0 != k {
      PutUnique(d[1..], k, v);
      var tail := Put(d[1..], k, v);
      forall j | 0 <= j < |tail| ensures d[0].0 != tail[j].0 {
        PutKeys(d[1..], k, v, tail[j]);
      }
      assert forall j :: 1 <= j < |tail| + 1 ==> Put(d, k, v)[j] == tail[j - 1];
    }
  }

  /** Storing a value under a key replaces that key's term of a sum over the entries. */
  lemma {:induction false} SumPut<K, V>(d: Dict<K, V>, k: K, v: V, f: ((K, V)) -> real)
    requires Unique(d)
    ensures Sum(Put(d, k, v), f) ==
            Sum(d, f) + f((k, v)) - match Get(d, k) case Some(w) => f((k, w)) case None => 0.0
  {
    if d != [] && d[0].0 != k {
      assert ([d[0]] + Put(d[1..], k, v))[1..] == Put(d[1..], k, v);
      SumPut(d[1..], k, v, f);
    } else if d != [] {
      assert ([(k, v)] + d[1..])[1..] == d[1..];
    }
  }
}
