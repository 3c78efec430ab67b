/**
  Python's `dict` as the tokenizers use it: an association list whose order is
  insertion order. Assigning to a present key keeps its position; assigning to an
  absent key appends. Iteration order decides the tie-breaks of `max`/`min` and
  the order in which the model file lists entries, so it is kept.
*/
module Dicts {
  import opened Wrappers

  type Dict<K, V> = seq<(K, V)>

  /** The keys, in iteration order (`d.keys()`). */
  function Keys<K, V>(d: Dict<K, V>): (ks: seq<K>)
    ensures |ks| == |d|
  {
    if d == [] then [] else [d[0].0] + Keys(d[1..])
  }

  /** The i-th key is the key of the i-th entry. */
  lemma {:induction false} KeyAt<K, V>(d: Dict<K, V>, i: nat)
    requires i < |d|
    ensures Keys(d)[i] == d[i].0
  {
    if i > 0 {
      KeyAt(d[1..], i - 1);
    }
  }

  /** What Python guarantees of every dict: no key twice. */
  ghost predicate DistinctKeys<K, V>(d: Dict<K, V>) {
    d == [] || (d[0].0 !in Keys(d[1..]) && DistinctKeys(d[1..]))
  }

  /** `d.get(k)`: the value stored under `k`, if any. */
  function Get<K(==), V>(d: Dict<K, V>, k: K): (r: Option<V>)
    ensures r.None? <==> k !in Keys(d)
    ensures r.Some? ==> (k, r.value) in d
  {
    if d == [] then None
    else if d[0].0 == k then Some(d[0].1)
    else Get(d[1..], k)
  }

  /** `d[k] = v`. */
  function Put<K(==), V>(d: Dict<K, V>, k: K, v: V): Dict<K, V> {
    if d == [] then [(k, v)]
    else if d[0].0 == k then [(k, v)] + d[1..]
    else [d[0]] + Put(d[1..], k, v)
  }

  /**
    Assigning to an absent key appends the entry; assigning to a present key
    keeps the keys where they are; either way the key then holds the value.
  */
  lemma {:induction false} PutFacts<K, V>(d: Dict<K, V>, k: K, v: V)
    ensures k !in Keys(d) ==> Put(d, k, v) == d + [(k, v)]
    ensures k in Keys(d) ==> Keys(Put(d, k, v)) == Keys(d)
    ensures Get(Put(d, k, v), k) == Some(v)
  {
    if d != [] && d[0].0 != k {
      PutFacts(d[1..], k, v);
      assert Put(d, k, v) == [d[0]] + Put(d[1..], k, v);
      if k !in Keys(d) {
        assert [d[0]] + (d[1..] + [(k, v)]) == d + [(k, v)];
      }
    } else if d != [] {
      assert Put(d, k, v)[1..] == d[1..];
    }
  }

  /** Assigning to one key leaves every other key's value alone. */
  lemma {:induction false} PutOther<K, V>(d: Dict<K, V>, k: K, v: V, k': K)
    requires k' != k
    ensures Get(Put(d, k, v), k') == Get(d, k')
  {
    if d != [] && d[0].0 != k {
      PutOther(d[1..], k, v, k');
    }
  }

  /** Assigning never makes a key appear twice. */
  lemma {:induction false} PutDistinct<K, V>(d: Dict<K, V>, k: K, v: V)
    requires DistinctKeys(d)
    ensures DistinctKeys(Put(d, k, v))
  {
    if d != [] && d[0].0 != k {
      var rest := Put(d[1..], k, v);
      PutDistinct(d[1..], k, v);
      PutOther(d[1..], k, v, d[0].0);
      assert Put(d, k, v)[1..] == rest;
    } else if d != [] {
      assert Put(d, k, v)[1..] == d[1..];
    }
  }

  /** In a dict, every entry is what a lookup of its key finds. */
  lemma {:induction false} GetEntry<K, V>(d: Dict<K, V>, i: nat)
    requires DistinctKeys(d) && i < |d|
    ensures Get(d, d[i].0) == Some(d[i].1)
  {
    if i > 0 {
      KeyAt(d[1..], i - 1);
      GetEntry(d[1..], i - 1);
    }
  }

  /** Every entry after an assignment was there before or is the one assigned. */
  lemma {:induction false} PutEntries<K, V>(d: Dict<K, V>, k: K, v: V)
    ensures forall e :: e in Put(d, k, v) ==> e in d || e == (k, v)
  {
    if d != [] && d[0].0 != k {
      PutEntries(d[1..], k, v);
      assert forall e :: e in d[1..] ==> e in d;
    } else if d != [] {
      assert forall e :: e in d[1..] ==> e in d;
    }
  }

  /** In a dict, no entry's key occurs among the entries before it. */
  lemma {:induction false} DistinctPrefix<K, V>(d: Dict<K, V>, j: nat)
    requires DistinctKeys(d) && j < |d|
    ensures d[j].0 !in Keys(d[..j])
  {
    if j > 0 {
      DistinctPrefix(d[1..], j - 1);
      KeyAt(d[1..], j - 1);
      assert d[..j] == [d[0]] + d[1..][..j - 1];
      assert Keys(d[..j]) == [d[0].0] + Keys(d[1..][..j - 1]);
    }
  }

  /** `{v: k for k, v in d.items()}`, entered into `acc` in iteration order. */
  function InvertInto<K, V(==)>(acc: Dict<V, K>, d: Dict<K, V>): Dict<V, K>
    decreases |d|
  {
    if d == [] then acc else InvertInto(Put(acc, d[0].1, d[0].0), d[1..])
  }

  /** `{v: k for k, v in d.items()}`. */
  function Invert<K, V(==)>(d: Dict<K, V>): Dict<V, K> {
    InvertInto([], d)
  }

  /** A value no entry of `d` has keeps what `acc` gave it. */
  lemma {:induction false} InvertIntoOther<K, V>(acc: Dict<V, K>, d: Dict<K, V>, v: V)
    requires forall k :: 0 <= k < |d| ==> d[k].1 != v
    ensures Get(InvertInto(acc, d), v) == Get(acc, v)
    decreases |d|
  {
    if d != [] {
      PutOther(acc, d[0].1, d[0].0, v);
      assert forall k :: 0 <= k < |d[1..]| ==> d[1..][k] == d[k + 1];
      InvertIntoOther(Put(acc, d[0].1, d[0].0), d[1..], v);
    }
  }

  /** The inverse sends a value to the key of the last entry holding it. */
  lemma {:induction false} InvertIntoLast<K, V>(acc: Dict<V, K>, d: Dict<K, V>, k: nat)
    requires k < |d| && forall j :: k < j < |d| ==> d[j].1 != d[k].1
    ensures Get(InvertInto(acc, d), d[k].1) == Some(d[k].0)
    decreases |d|
  {
    var acc' := Put(acc, d[0].1, d[0].0);
    if k == 0 {
      PutFacts(acc, d[0].1, d[0].0);
      assert forall j :: 0 <= j < |d[1..]| ==> d[1..][j] == d[j + 1];
      InvertIntoOther(acc', d[1..], d[0].1);
    } else {
      assert d[k] == d[1..][k - 1];
      assert forall j :: k - 1 < j < |d[1..]| ==> d[1..][j] == d[j + 1];
      InvertIntoLast(acc', d[1..], k - 1);
    }
  }

  /**
    Inverting a dict gives each value the key of the last entry holding it
    (later entries overwrite earlier ones); a value the dict does not hold has
    no entry.
  */
  lemma InvertGet<K, V>(d: Dict<K, V>, v: V)
    ensures (forall k :: 0 <= k < |d| ==> d[k].1 != v) ==> Get(Invert(d), v) == None
    ensures forall k :: 0 <= k < |d| && d[k].1 == v && (forall j :: k < j < |d| ==> d[j].1 != v) ==>
      Get(Invert(d), v) == Some(d[k].0)
  {
    if forall k :: 0 <= k < |d| ==> d[k].1 != v {
      InvertIntoOther([], d, v);
    }
    forall k | 0 <= k < |d| && d[k].1 == v && (forall j :: k < j < |d| ==> d[j].1 != v)
      ensures Get(Invert(d), v) == Some(d[k].0)
    {
      InvertIntoLast([], d, k);
    }
  }
}
