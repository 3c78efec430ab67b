/**
  `get_pair_frequencies` (minbpe/base.py): counting the adjacent pairs of an id
  sequence into a dict of counts, which may already hold counts of its own.
*/
module Counting {
  import opened Wrappers
  import opened Dicts

  type Pair = (int, int)

  /** A pair-count dict, in insertion order. */
  type Counts = Dict<Pair, int>

  /** `zip(ids, ids[1:])`: the adjacent pairs, left to right. */
  function Pairs(ids: seq<int>): (ps: seq<Pair>)
    ensures |ps| == if |ids| < 2 then 0 else |ids| - 1
    ensures forall i :: 0 <= i < |ps| ==> ps[i] == (ids[i], ids[i + 1])
  {
    if |ids| < 2 then [] else [(ids[0], ids[1])] + Pairs(ids[1..])
  }

  /** `counts.get(p, 0)`. */
  function CountOf(c: Counts, p: Pair): int {
    match Get(c, p)
    case Some(n) => n
    case None => 0
  }

  /** `counts[p] = counts.get(p, 0) + 1`. */
  function Bump(c: Counts, p: Pair): Counts {
    Put(c, p, CountOf(c, p) + 1)
  }

  /** The counts after adding one for each pair of `ps`, in order. */
  function Tally(c: Counts, ps: seq<Pair>): Counts
    decreases |ps|
  {
    if ps == [] then c else Tally(Bump(c, ps[0]), ps[1..])
  }

  /** The sum of all counts. */
  function Total(c: Counts): int {
    if c == [] then 0 else c[0].1 + Total(c[1..])
  }

  /**
    `get_pair_frequencies(ids, counts)`: `None` starts from an empty dict. The
    dict the source updates in place is passed in and handed back.
  */
  method GetPairFrequencies(ids: seq<int>, counts: Option<Counts>) returns (r: Counts)
    ensures r == Tally(if counts.Some? then counts.value else [], Pairs(ids))
  {
    r := if counts.Some? then counts.value else [];
    ghost var start := r;
    var i := 0;
    while i + 1 < |ids|
      invariant i <= |ids|
      invariant Tally(r, Pairs(ids[i..])) == Tally(start, Pairs(ids))
    {
      var p := (ids[i], ids[i + 1]);
      assert ids[i..][1..] == ids[i + 1..];
      assert Pairs(ids[i..]) == [p] + Pairs(ids[i + 1..]);
      assert Pairs(ids[i..])[1..] == Pairs(ids[i + 1..]);
      r := Bump(r, p);
      i := i + 1;
    }
  }

  // ----- Lemmas -----

  lemma BumpCount(c: Counts, q: Pair, p: Pair)
    ensures CountOf(Bump(c, q), p) == CountOf(c, p) + (if q == p then 1 else 0)
  {
    assert Bump(c, q) == Put(c, q, CountOf(c, q) + 1);
    PutFacts(c, q, CountOf(c, q) + 1);
    if q != p {
      PutOther(c, q, CountOf(c, q) + 1, p);
    }
  }

  lemma BumpTotal(c: Counts, p: Pair)
    requires DistinctKeys(c)
    ensures DistinctKeys(Bump(c, p)) && Total(Bump(c, p)) == Total(c) + 1
  {
    assert Bump(c, p) == Put(c, p, CountOf(c, p) + 1);
    PutDistinct(c, p, CountOf(c, p) + 1);
    PutTotal(c, p, CountOf(c, p) + 1);
  }

  lemma TallyStep(c: Counts, ps: seq<Pair>)
    requires ps != []
    ensures Tally(c, ps) == Tally(Bump(c, ps[0]), ps[1..])
  {
  }

  /** Each pair's count grows by the number of times it occurs in `ps`. */
  lemma {:induction false} TallyCount(c: Counts, ps: seq<Pair>, p: Pair)
    ensures CountOf(Tally(c, ps), p) == CountOf(c, p) + multiset(ps)[p]
    decreases |ps|
  {
    if ps != [] {
      TallyStep(c, ps);
      BumpCount(c, ps[0], p);
      TallyCount(Bump(c, ps[0]), ps[1..], p);
      assert ps == [ps[0]] + ps[1..];
    }
  }

  lemma BumpKeys(c: Counts, p: Pair)
    requires DistinctKeys(c)
    ensures DistinctKeys(Bump(c, p))
    ensures |c| <= |Bump(c, p)| && Keys(Bump(c, p))[..|c|] == Keys(c)
    ensures forall q :: q in Keys(Bump(c, p)) <==> q in Keys(c) || q == p
  {
    var v := CountOf(c, p) + 1;
    assert Bump(c, p) == Put(c, p, v);
    PutFacts(c, p, v);
    PutDistinct(c, p, v);
    forall q ensures q in Keys(Put(c, p, v)) <==> q in Keys(c) || q == p {
      if q != p {
        PutOther(c, p, v, q);
      }
    }
    if p !in Keys(c) {
      assert Keys(c + [(p, v)]) == Keys(c) + [p] by { KeysAppend(c, [(p, v)]); }
    }
  }

  lemma {:induction false} KeysAppend<V>(a: Dict<Pair, V>, b: Dict<Pair, V>)
    ensures Keys(a + b) == Keys(a) + Keys(b)
    decreases |a|
  {
    if a != [] {
      assert (a + b)[1..] == a[1..] + b;
      KeysAppend(a[1..], b);
    } else {
      assert a + b == b;
    }
  }

  /**
    Counting keeps the keys already present, in place and first, adds exactly
    the pairs of `ps`, and keeps the keys distinct.
  */
  lemma {:induction false} TallyKeys(c: Counts, ps: seq<Pair>)
    requires DistinctKeys(c)
    ensures DistinctKeys(Tally(c, ps))
    ensures |c| <= |Tally(c, ps)| && Keys(Tally(c, ps))[..|c|] == Keys(c)
    ensures forall q :: q in Keys(Tally(c, ps)) <==> q in Keys(c) || q in ps
    decreases |ps|
  {
    if ps != [] {
      var c' := Bump(c, ps[0]);
      TallyStep(c, ps);
      BumpKeys(c, ps[0]);
      TallyKeys(c', ps[1..]);
      assert Keys(Tally(c, ps))[..|c|] == Keys(Tally(c, ps))[..|c'|][..|c|];
      assert forall q :: q in ps <==> q == ps[0] || q in ps[1..];
    }
  }

  /** Overwriting one count changes the total by the difference. */
  lemma {:induction false} PutTotal(c: Counts, p: Pair, v: int)
    requires DistinctKeys(c)
    ensures Total(Put(c, p, v)) == Total(c) - CountOf(c, p) + v
    decreases |c|
  {
    if c != [] && c[0].0 != p {
      PutTotal(c[1..], p, v);
    } else if c != [] {
      assert Put(c, p, v)[1..] == c[1..];
    }
  }

  /** Counting a sequence of pairs adds exactly its length to the total. */
  lemma {:induction false} TallyTotal(c: Counts, ps: seq<Pair>)
    requires DistinctKeys(c)
    ensures Total(Tally(c, ps)) == Total(c) + |ps|
    decreases |ps|
  {
    if ps != [] {
      TallyStep(c, ps);
      BumpTotal(c, ps[0]);
      TallyTotal(Bump(c, ps[0]), ps[1..]);
    }
  }

  /**
    `get_pair_frequencies` adds one count per adjacent position, len(ids) - 1
    in all, to a dict it keeps; a sequence shorter than two changes nothing.
  */
  lemma PairFrequencies(ids: seq<int>, c: Counts, p: Pair)
    requires DistinctKeys(c)
    ensures Total(Tally(c, Pairs(ids))) == Total(c) + (if |ids| < 2 then 0 else |ids| - 1)
    ensures CountOf(Tally(c, Pairs(ids)), p) == CountOf(c, p) + multiset(Pairs(ids))[p]
    ensures |ids| < 2 ==> Tally(c, Pairs(ids)) == c
  {
    TallyTotal(c, Pairs(ids));
    TallyCount(c, Pairs(ids), p);
  }
}
