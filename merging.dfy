/**
  `merge_pair` (minbpe/base.py): one left-to-right pass that replaces every
  non-overlapping occurrence of a pair of ids by a new id.
*/
module Merging {
  import opened Counting

  /** The result of the pass, one position at a time. */
  function Merge(ids: seq<int>, pair: Pair, n: int): (r: seq<int>)
    ensures |r| <= |ids|
    decreases |ids|
  {
    if |ids| < 2 then ids
    else if ids[0] == pair.0 && ids[1] == pair.1 then [n] + Merge(ids[2..], pair, n)
    else [ids[0]] + Merge(ids[1..], pair, n)
  }

  /** `merge_pair(indices, pair, new_idx)`. */
  method MergePair(ids: seq<int>, pair: Pair, n: int) returns (r: seq<int>)
    ensures r == Merge(ids, pair, n)
  {
    r := [];
    var i := 0;
    while i < |ids|
      invariant i <= |ids|
      invariant r + Merge(ids[i..], pair, n) == Merge(ids, pair, n)
    {
      ghost var rest := ids[i..];
      if i < |ids| - 1 && ids[i] == pair.0 && ids[i + 1] == pair.1 {
        MergeMatch(rest, pair, n);
        assert rest[2..] == ids[i + 2..];
        assert (r + [n]) + Merge(ids[i + 2..], pair, n) == r + Merge(rest, pair, n);
        r := r + [n];
        i := i + 2;
      } else {
        MergeCopy(rest, pair, n);
        assert rest[1..] == ids[i + 1..];
        assert (r + [ids[i]]) + Merge(ids[i + 1..], pair, n) == r + Merge(rest, pair, n);
        r := r + [ids[i]];
        i := i + 1;
      }
    }
  }

  /** Every replaced pair back as its two ids: the inverse of `Merge`. */
  function Expand(ids: seq<int>, pair: Pair, n: int): (r: seq<int>)
    ensures |r| >= |ids|
  {
    if ids == [] then []
    else (if ids[0] == n then [pair.0, pair.1] else [ids[0]]) + Expand(ids[1..], pair, n)
  }

  // ----- Lemmas -----

  lemma MergeMatch(ids: seq<int>, pair: Pair, n: int)
    requires |ids| >= 2 && ids[0] == pair.0 && ids[1] == pair.1
    ensures Merge(ids, pair, n) == [n] + Merge(ids[2..], pair, n)
  {
  }

  lemma MergeCopy(ids: seq<int>, pair: Pair, n: int)
    requires ids != [] && !(|ids| >= 2 && ids[0] == pair.0 && ids[1] == pair.1)
    ensures Merge(ids, pair, n) == [ids[0]] + Merge(ids[1..], pair, n)
  {
    if |ids| == 1 {
      assert ids[1..] == [];
    }
  }

  lemma PairsStep(ids: seq<int>)
    requires |ids| >= 2
    ensures Pairs(ids) == [(ids[0], ids[1])] + Pairs(ids[1..])
  {
  }

  /**
    A sequence in which the pair does not occur comes back unchanged, and one
    in which it occurs comes back strictly shorter.
  */
  lemma {:induction false} MergeShorter(ids: seq<int>, pair: Pair, n: int)
    ensures pair !in Pairs(ids) ==> Merge(ids, pair, n) == ids
    ensures pair in Pairs(ids) <==> |Merge(ids, pair, n)| < |ids|
    decreases |ids|
  {
    if |ids| >= 2 {
      PairsStep(ids);
      if ids[0] == pair.0 && ids[1] == pair.1 {
        MergeMatch(ids, pair, n);
      } else {
        MergeCopy(ids, pair, n);
        MergeShorter(ids[1..], pair, n);
        assert ids == [ids[0]] + ids[1..];
      }
    }
  }

  /**
    When the new id is fresh, the output is one id shorter per replacement,
    and the replacements are exactly the occurrences of the new id.
  */
  lemma {:induction false} MergeCount(ids: seq<int>, pair: Pair, n: int)
    requires n !in ids
    ensures |Merge(ids, pair, n)| + multiset(Merge(ids, pair, n))[n] == |ids|
    decreases |ids|
  {
    if |ids| >= 2 {
      if ids[0] == pair.0 && ids[1] == pair.1 {
        MergeMatch(ids, pair, n);
        assert ids[2..] == ids[1..][1..];
        assert n !in ids[2..];
        MergeCount(ids[2..], pair, n);
      } else {
        MergeCopy(ids, pair, n);
        assert n !in ids[1..];
        MergeCount(ids[1..], pair, n);
      }
    }
  }

  /** Expanding a merge whose new id is fresh gives back the input. */
  lemma {:induction false} ExpandMerge(ids: seq<int>, pair: Pair, n: int)
    requires n !in ids
    ensures Expand(Merge(ids, pair, n), pair, n) == ids
    decreases |ids|
  {
    if |ids| >= 2 {
      if ids[0] == pair.0 && ids[1] == pair.1 {
        MergeMatch(ids, pair, n);
        assert n !in ids[2..];
        ExpandMerge(ids[2..], pair, n);
        var m := Merge(ids, pair, n);
        assert m[1..] == Merge(ids[2..], pair, n);
        assert ids == [ids[0], ids[1]] + ids[2..];
      } else {
        MergeCopy(ids, pair, n);
        assert n !in ids[1..];
        ExpandMerge(ids[1..], pair, n);
        var m := Merge(ids, pair, n);
        assert m[1..] == Merge(ids[1..], pair, n);
        assert ids == [ids[0]] + ids[1..];
      }
    } else if |ids| == 1 {
      assert Expand(ids, pair, n) == [ids[0]] + Expand([], pair, n);
    }
  }

  /** The first output id is the new id or the first input id. */
  lemma MergeHead(ids: seq<int>, pair: Pair, n: int)
    requires ids != []
    ensures Merge(ids, pair, n) != []
    ensures Merge(ids, pair, n)[0] == (if |ids| >= 2 && ids[0] == pair.0 && ids[1] == pair.1 then n else ids[0])
  {
    if |ids| >= 2 && ids[0] == pair.0 && ids[1] == pair.1 {
      MergeMatch(ids, pair, n);
    } else {
      MergeCopy(ids, pair, n);
    }
  }

  /**
    Every adjacent pair of the output is an adjacent pair of the input or
    contains the new id, and when the new id differs from both components the
    merged pair no longer occurs.
  */
  lemma {:induction false} MergePairs(ids: seq<int>, pair: Pair, n: int)
    ensures forall q :: q in Pairs(Merge(ids, pair, n)) ==> q in Pairs(ids) || q.0 == n || q.1 == n
    ensures n != pair.0 && n != pair.1 ==> pair !in Pairs(Merge(ids, pair, n))
    decreases |ids|
  {
    if |ids| >= 2 {
      var m := Merge(ids, pair, n);
      PairsStep(ids);
      if ids[0] == pair.0 && ids[1] == pair.1 {
        MergeMatch(ids, pair, n);
        MergePairs(ids[2..], pair, n);
        var rest := Merge(ids[2..], pair, n);
        if rest != [] {
          PairsStep(m);
          assert m[1..] == rest;
          assert Pairs(ids[1..]) == [(ids[1], ids[2])] + Pairs(ids[2..]) by { PairsStep(ids[1..]); assert ids[1..][1..] == ids[2..]; }
        }
      } else {
        MergeCopy(ids, pair, n);
        MergePairs(ids[1..], pair, n);
        var rest := Merge(ids[1..], pair, n);
        MergeHead(ids[1..], pair, n);
        PairsStep(m);
        assert m[1..] == rest;
        assert m[0] == ids[0];
      }
    }
  }

  /** The output holds only input ids and the new id. */
  lemma {:induction false} MergeIds(ids: seq<int>, pair: Pair, n: int)
    ensures forall x :: x in Merge(ids, pair, n) ==> x in ids || x == n
    decreases |ids|
  {
    if |ids| >= 2 {
      if ids[0] == pair.0 && ids[1] == pair.1 {
        MergeMatch(ids, pair, n);
        MergeIds(ids[2..], pair, n);
        assert forall x :: x in ids[2..] ==> x in ids;
      } else {
        MergeCopy(ids, pair, n);
        MergeIds(ids[1..], pair, n);
        assert forall x :: x in ids[1..] ==> x in ids;
      }
    }
  }
}
