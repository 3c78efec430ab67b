/**
  The id -> bytes table of minbpe/base.py (`_build_vocab`) and the byte string
  a sequence of ids stands for (`b"".join(vocab[idx] for idx in ids)`).
*/
module Vocabulary {
  import opened Wrappers
  import opened Dicts
  import opened Counting
  import opened Merging
  import Utf8

  type Vocab = map<int, Bytes>

  /** Learned merges: pair -> new id, in insertion order. */
  type Merges = Dict<Pair, int>

  /** Special tokens: string -> id, in insertion order. */
  type Specials = Dict<string, int>

  /** The table of the byte ids `0 .. n-1`, each standing for its byte. */
  function ByteTable(n: nat): Vocab
    requires n <= 256
  {
    if n == 0 then map[] else ByteTable(n - 1)[n - 1 := [(n - 1) as Byte]]
  }

  /** `{idx: bytes([idx]) for idx in range(256)}`. */
  function BaseVocab(): Vocab {
    ByteTable(256)
  }

  /** The ids `lo .. hi-1`. */
  function Range(lo: int, hi: int): set<int>
    decreases hi - lo
  {
    if lo >= hi then {} else Range(lo, hi - 1) + {hi - 1}
  }

  /** The keys of `v` are exactly `0 .. m-1`. */
  ghost predicate IsRange(v: Vocab, m: int) {
    forall x :: x in v <==> 0 <= x < m
  }

  /** Every byte id stands for that single byte. */
  ghost predicate KeepsBytes(v: Vocab) {
    forall b :: 0 <= b < 256 ==> b in v && v[b] == [b as Byte]
  }

  /** `b + r` on a successful join; an error passes through. */
  function Prepend(b: Bytes, r: Result<Bytes>): Result<Bytes> {
    match r
    case Ok(s) => Ok(b + s)
    case Err(e) => Err(e)
  }

  /**
    `b"".join(vocab[idx] for idx in ids)`: the first id missing from the table
    raises `KeyError`.
  */
  function Join(v: Vocab, ids: seq<int>): (r: Result<Bytes>)
    ensures r.Ok? <==> forall i :: 0 <= i < |ids| ==> ids[i] in v
    ensures r.Err? ==> r.error == KeyError
  {
    if ids == [] then Ok([])
    else if ids[0] !in v then Err(KeyError)
    else
      var rest := Join(v, ids[1..]);
      assert forall i :: 1 <= i < |ids| ==> ids[i] == ids[1..][i - 1];
      Prepend(v[ids[0]], rest)
  }

  /**
    The merge loop of `_build_vocab`: `vocab[idx] = vocab[p0] + vocab[p1]` for
    each merge in order; a component missing from the table raises `KeyError`.
  */
  function ExtendVocab(v: Vocab, ms: Merges): Result<Vocab>
    decreases |ms|
  {
    if ms == [] then Ok(v)
    else
      var p := ms[0].0;
      if p.0 in v && p.1 in v then ExtendVocab(v[ms[0].1 := v[p.0] + v[p.1]], ms[1..])
      else Err(KeyError)
  }

  /** The special-token loop of `_build_vocab`: `vocab[idx] = token.encode('utf-8')`. */
  function AddSpecials(v: Vocab, st: Specials): Vocab
    decreases |st|
  {
    if st == [] then v else AddSpecials(v[st[0].1 := Utf8.Encode(st[0].0)], st[1..])
  }

  /** What `_build_vocab` returns for the given merges and special tokens. */
  function VocabOf(ms: Merges, st: Specials): Result<Vocab> {
    match ExtendVocab(BaseVocab(), ms)
    case Ok(v) => Ok(AddSpecials(v, st))
    case Err(e) => Err(e)
  }

  /**
    Merge k has id m + k and joins two ids defined before it: what training
    produces, and what loading a model file produces from a trained model.
  */
  ghost predicate Chained(ms: Merges, m: int) {
    forall k :: 0 <= k < |ms| ==>
      ms[k].1 == m + k && 0 <= ms[k].0.0 < m + k && 0 <= ms[k].0.1 < m + k
  }

  /** Every merge's id stands for the bytes of its two components. */
  ghost predicate Consistent(v: Vocab, ms: Merges) {
    forall k :: 0 <= k < |ms| ==>
      ms[k].1 in v && ms[k].0.0 in v && ms[k].0.1 in v
      && v[ms[k].1] == v[ms[k].0.0] + v[ms[k].0.1]
  }

  // ----- Lemmas -----

  lemma {:induction false} RangeMember(lo: int, hi: int)
    ensures forall x :: x in Range(lo, hi) <==> lo <= x < hi
    decreases hi - lo
  {
    if lo < hi {
      RangeMember(lo, hi - 1);
    }
  }

  lemma {:induction false} RangeSize(lo: int, hi: int)
    requires lo <= hi
    ensures |Range(lo, hi)| == hi - lo
    decreases hi - lo
  {
    if lo < hi {
      RangeSize(lo, hi - 1);
      RangeMember(lo, hi - 1);
    }
  }

  lemma RangeCard(v: Vocab, m: int)
    requires IsRange(v, m) && m >= 0
    ensures |v| == m
  {
    RangeMember(0, m);
    forall x
      ensures x in v.Keys <==> x in Range(0, m)
    {
    }
    assert v.Keys == Range(0, m);
    RangeSize(0, m);
  }

  lemma {:induction false} ByteTableShape(n: nat)
    requires n <= 256
    ensures IsRange(ByteTable(n), n)
    ensures forall b :: 0 <= b < n ==> ByteTable(n)[b] == [b as Byte]
  {
    if n > 0 {
      ByteTableShape(n - 1);
    }
  }

  /** A fresh table has exactly the 256 byte ids, each standing for its byte. */
  lemma BaseVocabShape()
    ensures IsRange(BaseVocab(), 256) && KeepsBytes(BaseVocab()) && |BaseVocab()| == 256
  {
    ByteTableShape(256);
    RangeCard(BaseVocab(), 256);
  }

  lemma PrependAssoc(a: Bytes, b: Bytes, r: Result<Bytes>)
    ensures Prepend(a, Prepend(b, r)) == Prepend(a + b, r)
  {
    if r.Ok? {
      assert a + (b + r.value) == (a + b) + r.value;
    }
  }

  lemma JoinCons(v: Vocab, x: int, rest: seq<int>)
    requires x in v
    ensures Join(v, [x] + rest) == Prepend(v[x], Join(v, rest))
  {
    assert ([x] + rest)[1..] == rest;
  }

  /**
    The key property of a merge: when the new id stands for the bytes of the
    pair, replacing the pair does not change the bytes the ids stand for (and
    an unknown id fails the join before and after).
  */
  lemma {:induction false} JoinMerge(v: Vocab, ids: seq<int>, pair: Pair, n: int)
    requires pair.0 in v && pair.1 in v && n in v && v[n] == v[pair.0] + v[pair.1]
    ensures Join(v, Merge(ids, pair, n)) == Join(v, ids)
    decreases |ids|
  {
    if |ids| >= 2 {
      if ids[0] == pair.0 && ids[1] == pair.1 {
        MergeMatch(ids, pair, n);
        JoinMerge(v, ids[2..], pair, n);
        JoinCons(v, n, Merge(ids[2..], pair, n));
        assert ids[1..][1..] == ids[2..];
        PrependAssoc(v[pair.0], v[pair.1], Join(v, ids[2..]));
      } else {
        MergeCopy(ids, pair, n);
        JoinMerge(v, ids[1..], pair, n);
        if ids[0] in v {
          JoinCons(v, ids[0], Merge(ids[1..], pair, n));
        } else {
          assert ([ids[0]] + Merge(ids[1..], pair, n))[0] == ids[0];
        }
      }
    }
  }

  /** Ids below 256 stand for themselves as bytes. */
  lemma {:induction false} JoinBytes(v: Vocab, bytes: Bytes)
    requires KeepsBytes(v)
    ensures Join(v, bytes) == Ok(bytes)
    decreases |bytes|
  {
    if bytes != [] {
      JoinBytes(v, bytes[1..]);
      assert bytes == [bytes[0]] + bytes[1..];
    }
  }

  /** Joining the ids of two sequences joins their bytes. */
  lemma {:induction false} JoinAppend(v: Vocab, a: seq<int>, b: seq<int>)
    requires Join(v, a).Ok? && Join(v, b).Ok?
    ensures Join(v, a + b) == Ok(Join(v, a).value + Join(v, b).value)
    decreases |a|
  {
    if a != [] {
      assert (a + b)[1..] == a[1..] + b;
      JoinAppend(v, a[1..], b);
      assert v[a[0]] + (Join(v, a[1..]).value + Join(v, b).value)
        == (v[a[0]] + Join(v, a[1..]).value) + Join(v, b).value;
    } else {
      assert a + b == b;
      assert [] + Join(v, b).value == Join(v, b).value;
    }
  }

  lemma ExtendStep(v: Vocab, ms: Merges)
    requires ms != [] && ms[0].0.0 in v && ms[0].0.1 in v
    ensures ExtendVocab(v, ms) == ExtendVocab(v[ms[0].1 := v[ms[0].0.0] + v[ms[0].0.1]], ms[1..])
  {
  }

  /** The only error the merge loop raises is KeyError. */
  lemma {:induction false} ExtendError(v: Vocab, ms: Merges)
    requires ExtendVocab(v, ms).Err?
    ensures ExtendVocab(v, ms).error == KeyError
    decreases |ms|
  {
    var p := ms[0].0;
    if p.0 in v && p.1 in v {
      ExtendError(v[ms[0].1 := v[p.0] + v[p.1]], ms[1..]);
    }
  }

  /** `_build_vocab` fails only with KeyError. */
  lemma VocabOfError(ms: Merges, st: Specials)
    requires VocabOf(ms, st).Err?
    ensures VocabOf(ms, st).error == KeyError
  {
    ExtendError(BaseVocab(), ms);
  }

  /**
    Merges that each define the next id from earlier ids extend a table of the
    ids `0 .. m-1` without error, to the ids `0 .. m+|ms|-1`; the old ids keep
    their bytes and every merge id stands for its pair's bytes.
  */
  lemma {:induction false} ExtendChained(v: Vocab, ms: Merges, m: int)
    requires IsRange(v, m) && Chained(ms, m)
    ensures ExtendVocab(v, ms).Ok?
    ensures IsRange(ExtendVocab(v, ms).value, m + |ms|)
    ensures forall x :: 0 <= x < m ==> ExtendVocab(v, ms).value[x] == v[x]
    ensures Consistent(ExtendVocab(v, ms).value, ms)
    decreases |ms|
  {
    if ms != [] {
      var p := ms[0].0;
      assert ms[0].1 == m && 0 <= p.0 < m && 0 <= p.1 < m;
      var v' := v[m := v[p.0] + v[p.1]];
      ExtendStep(v, ms);
      assert Chained(ms[1..], m + 1) by {
        forall k | 0 <= k < |ms[1..]|
          ensures ms[1..][k].1 == m + 1 + k && 0 <= ms[1..][k].0.0 < m + 1 + k && 0 <= ms[1..][k].0.1 < m + 1 + k
        {
          assert ms[1..][k] == ms[k + 1];
        }
      }
      ExtendChained(v', ms[1..], m + 1);
      var w := ExtendVocab(v, ms).value;
      forall k | 0 <= k < |ms|
        ensures ms[k].1 in w && ms[k].0.0 in w && ms[k].0.1 in w
        ensures w[ms[k].1] == w[ms[k].0.0] + w[ms[k].0.1]
      {
        if k > 0 {
          assert ms[k] == ms[1..][k - 1];
        }
      }
    }
  }

  /**
    `_build_vocab` on merges numbered 256, 257, ... in order: ids 0..255
    stand for their byte, every merge id for its pair's bytes, and the table has
    exactly 256 + |merges| entries before the special tokens are added.
  */
  lemma BuildChained(ms: Merges)
    requires Chained(ms, 256)
    ensures ExtendVocab(BaseVocab(), ms).Ok?
    ensures IsRange(ExtendVocab(BaseVocab(), ms).value, 256 + |ms|)
    ensures |ExtendVocab(BaseVocab(), ms).value| == 256 + |ms|
    ensures KeepsBytes(ExtendVocab(BaseVocab(), ms).value)
    ensures Consistent(ExtendVocab(BaseVocab(), ms).value, ms)
  {
    BaseVocabShape();
    ExtendChained(BaseVocab(), ms, 256);
    RangeCard(ExtendVocab(BaseVocab(), ms).value, 256 + |ms|);
  }

  /**
    Adding special tokens: an id no special token uses keeps its entry, and the
    id of the last special token using it stands for that token's UTF-8 bytes.
  */
  lemma {:induction false} AddSpecialsOther(v: Vocab, st: Specials, x: int)
    requires forall k :: 0 <= k < |st| ==> st[k].1 != x
    ensures x in AddSpecials(v, st) <==> x in v
    ensures x in v ==> AddSpecials(v, st)[x] == v[x]
    decreases |st|
  {
    if st != [] {
      assert forall k :: 0 <= k < |st[1..]| ==> st[1..][k] == st[k + 1];
      AddSpecialsOther(v[st[0].1 := Utf8.Encode(st[0].0)], st[1..], x);
    }
  }

  lemma {:induction false} AddSpecialsLast(v: Vocab, st: Specials, k: nat)
    requires k < |st| && forall j :: k < j < |st| ==> st[j].1 != st[k].1
    ensures st[k].1 in AddSpecials(v, st)
    ensures AddSpecials(v, st)[st[k].1] == Utf8.Encode(st[k].0)
    decreases |st|
  {
    var v' := v[st[0].1 := Utf8.Encode(st[0].0)];
    if k == 0 {
      assert forall j :: 0 <= j < |st[1..]| ==> st[1..][j] == st[j + 1];
      AddSpecialsOther(v', st[1..], st[0].1);
    } else {
      assert st[k] == st[1..][k - 1];
      assert forall j :: k - 1 < j < |st[1..]| ==> st[1..][j] == st[j + 1];
      AddSpecialsLast(v', st[1..], k - 1);
    }
  }
}
