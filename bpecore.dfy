/**
  The byte-pair-encoding steps that minbpe/basic_tokenizer.py and
  minbpe/regex_tokenizer.py share: picking the most frequent pair when
  training, picking the pair learned first when encoding, and what the two
  loops compute. Basic training is the regex training of a single chunk.
*/
module BpeCore {
  import opened Wrappers
  import opened Dicts
  import opened Counting
  import opened Merging
  import opened Vocabulary
  import Utf8

  /**
    `max(counts.keys(), key=lambda p: counts[p])`: the position of the first
    pair whose count is the largest.
  */
  function MostFrequent(c: Counts): (k: nat)
    requires c != []
    ensures k < |c|
    ensures forall j :: 0 <= j < |c| ==> c[j].1 <= c[k].1
    ensures forall j :: 0 <= j < k ==> c[j].1 < c[k].1
    decreases |c|
  {
    if |c| == 1 then 0
    else
      var k := MostFrequent(c[..|c| - 1]);
      if c[|c| - 1].1 > c[k].1 then |c| - 1 else k
  }

  /** `merges.get(p, float("inf"))` of `a` is below that of `b`; a missing pair ranks as infinity. */
  predicate Below(a: Option<int>, b: Option<int>) {
    a.Some? && (b.None? || a.value < b.value)
  }

  /**
    `min(pairs, key=lambda p: merges.get(p, float("inf")))`: the position of
    the first pair of lowest rank.
  */
  function LowestRanked(ms: Merges, ps: seq<Pair>): (k: nat)
    requires ps != []
    ensures k < |ps|
    ensures forall j :: 0 <= j < |ps| ==> !Below(Get(ms, ps[j]), Get(ms, ps[k]))
    ensures forall j :: 0 <= j < k ==> Below(Get(ms, ps[k]), Get(ms, ps[j]))
    decreases |ps|
  {
    if |ps| == 1 then 0
    else
      var k := LowestRanked(ms, ps[..|ps| - 1]);
      if Below(Get(ms, ps[|ps| - 1]), Get(ms, ps[k])) then |ps| - 1 else k
  }

  /** The keys of the count dict of `ids`: its distinct adjacent pairs, in order of first occurrence. */
  function PairKeys(ids: seq<int>): seq<Pair> {
    Keys(Tally([], Pairs(ids)))
  }

  /**
    The loop of `encode` (basic) and `_encode_chunk` (regex): while two ids or
    more remain, the pair of lowest rank is replaced by its id; the loop stops
    when that pair has not been learned.
  */
  function EncodeIds(ms: Merges, ids: seq<int>): seq<int>
    decreases |ids|
  {
    if |ids| < 2 then ids
    else
      var ps := PairKeys(ids);
      PairKeysOf(ids);
      var pair := ps[LowestRanked(ms, ps)];
      match Get(ms, pair)
      case None => ids
      case Some(idx) =>
        MergeShorter(ids, pair, idx);
        EncodeIds(ms, Merge(ids, pair, idx))
  }

  /**
    `encode`'s loop and `_encode_chunk`'s loop, which are the same code:
    `get_pair_frequencies`, `min` by rank, `merge_pair`.
  */
  method MergeLoop(ms: Merges, ids: seq<int>) returns (r: seq<int>)
    ensures r == EncodeIds(ms, ids)
  {
    r := ids;
    while |r| >= 2
      invariant EncodeIds(ms, r) == EncodeIds(ms, ids)
      decreases |r|
    {
      var freqs := GetPairFrequencies(r, None);
      var ps := Keys(freqs);
      PairKeysOf(r);
      var pair := ps[LowestRanked(ms, ps)];
      var rank := Get(ms, pair);
      if rank.None? {
        break;
      }
      MergeShorter(r, pair, rank.value);
      r := MergePair(r, pair, rank.value);
    }
  }

  /** `for chunk_ids in indices: get_pair_frequencies(chunk_ids, counts)`. */
  function TallyChunks(c: Counts, chunks: seq<seq<int>>): Counts
    decreases |chunks|
  {
    if chunks == [] then c else TallyChunks(Tally(c, Pairs(chunks[0])), chunks[1..])
  }

  /** `[merge_pair(chunk_ids, pair, idx) for chunk_ids in indices]`. */
  function MergeChunks(chunks: seq<seq<int>>, pair: Pair, idx: int): (r: seq<seq<int>>)
    ensures |r| == |chunks|
  {
    seq(|chunks|, j requires 0 <= j < |chunks| => Merge(chunks[j], pair, idx))
  }

  /**
    Rounds `i .. n-1` of training: count the pairs of all chunks, take the
    most frequent (ValueError when there is none), give it id 256 + i, replace
    it in every chunk and add its bytes to the table.
  */
  function Learn(chunks: seq<seq<int>>, i: nat, n: nat, ms: Merges, v: Vocab): Result<(Merges, Vocab)>
    decreases n - i
  {
    if i >= n then Ok((ms, v))
    else
      var c := TallyChunks([], chunks);
      if c == [] then Err(ValueError)
      else
        var pair := c[MostFrequent(c)].0;
        var idx := 256 + i;
        if pair.0 !in v || pair.1 !in v then Err(KeyError)
        else Learn(MergeChunks(chunks, pair, idx), i + 1, n, Put(ms, pair, idx), v[idx := v[pair.0] + v[pair.1]])
  }

  /**
    `train(text, vocab_size)` on the byte chunks of the text: AssertionError
    below 256, otherwise `vocab_size - 256` rounds from the byte table.
  */
  function Trained(chunks: seq<seq<int>>, vocabSize: int): Result<(Merges, Vocab)> {
    if vocabSize < 256 then Err(AssertionError)
    else Learn(chunks, 0, vocabSize - 256, [], BaseVocab())
  }

  /** The number of times `p` occurs as an adjacent pair, over all chunks. */
  function Occurrences(chunks: seq<seq<int>>, p: Pair): nat
    decreases |chunks|
  {
    if chunks == [] then 0 else multiset(Pairs(chunks[0]))[p] + Occurrences(chunks[1..], p)
  }

  /** Every id of every chunk lies in `0 .. m-1`. */
  ghost predicate IdsBelow(chunks: seq<seq<int>>, m: int) {
    forall j, x :: 0 <= j < |chunks| && x in chunks[j] ==> 0 <= x < m
  }

  /** No learned pair occurs in any chunk any more. */
  ghost predicate Unmerged(ms: Merges, chunks: seq<seq<int>>) {
    forall k, j :: 0 <= k < |ms| && 0 <= j < |chunks| ==> ms[k].0 !in Pairs(chunks[j])
  }

  // ----- Lemmas -----

  lemma PairKeysOf(ids: seq<int>)
    ensures |ids| >= 2 ==> PairKeys(ids) != []
    ensures forall q :: q in PairKeys(ids) <==> q in Pairs(ids)
    ensures DistinctKeys(Tally([], Pairs(ids)))
  {
    TallyKeys([], Pairs(ids));
    if |ids| >= 2 {
      assert Pairs(ids)[0] in Pairs(ids);
    }
  }

  /**
    Encoding keeps the bytes: when every learned id stands for the bytes of
    its pair, the encoded ids join to the same bytes as the input ids.
  */
  lemma {:induction false} EncodeJoin(v: Vocab, ms: Merges, ids: seq<int>)
    requires Consistent(v, ms)
    ensures Join(v, EncodeIds(ms, ids)) == Join(v, ids)
    decreases |ids|
  {
    if |ids| >= 2 {
      var ps := PairKeys(ids);
      PairKeysOf(ids);
      var pair := ps[LowestRanked(ms, ps)];
      var rank := Get(ms, pair);
      if rank.Some? {
        var idx := rank.value;
        var k :| 0 <= k < |ms| && ms[k] == (pair, idx);
        JoinMerge(v, ids, pair, idx);
        MergeShorter(ids, pair, idx);
        EncodeJoin(v, ms, Merge(ids, pair, idx));
      }
    }
  }

  /** When encoding stops, no adjacent pair of the result has been learned. */
  lemma {:induction false} EncodeFinal(ms: Merges, ids: seq<int>)
    ensures forall q :: q in Pairs(EncodeIds(ms, ids)) ==> Get(ms, q).None?
    decreases |ids|
  {
    if |ids| >= 2 {
      var ps := PairKeys(ids);
      PairKeysOf(ids);
      var k := LowestRanked(ms, ps);
      var rank := Get(ms, ps[k]);
      if rank.Some? {
        MergeShorter(ids, ps[k], rank.value);
        EncodeFinal(ms, Merge(ids, ps[k], rank.value));
      } else {
        forall q | q in Pairs(ids) ensures Get(ms, q).None? {
          var j :| 0 <= j < |ps| && ps[j] == q;
          assert !Below(Get(ms, ps[j]), None);
        }
      }
    }
  }

  /** Without learned merges, encoding returns its input. */
  lemma NoMergesEncode(ids: seq<int>)
    ensures EncodeIds([], ids) == ids
  {
    if |ids| >= 2 {
      var none: Merges := [];
      var ps := PairKeys(ids);
      PairKeysOf(ids);
      assert Get(none, ps[LowestRanked(none, ps)]).None?;
    }
  }

  /** `text.encode()` then the merge loop joins back to the text's bytes and decodes to the text. */
  lemma EncodeRoundTrip(v: Vocab, ms: Merges, text: string)
    requires Consistent(v, ms) && KeepsBytes(v)
    ensures Join(v, EncodeIds(ms, Utf8.Encode(text))) == Ok(Utf8.Encode(text))
    ensures Utf8.Decode(Join(v, EncodeIds(ms, Utf8.Encode(text))).value) == text
  {
    EncodeJoin(v, ms, Utf8.Encode(text));
    JoinBytes(v, Utf8.Encode(text));
    Utf8.DecodeEncode(text);
  }

  lemma TallyChunksStep(c: Counts, chunks: seq<seq<int>>)
    requires chunks != []
    ensures TallyChunks(c, chunks) == TallyChunks(Tally(c, Pairs(chunks[0])), chunks[1..])
  {
  }

  /** Counting over all chunks counts each pair's occurrences, and the keys are exactly the pairs that occur. */
  lemma TallyChunksOf(c: Counts, chunks: seq<seq<int>>, p: Pair)
    requires DistinctKeys(c)
    ensures DistinctKeys(TallyChunks(c, chunks))
    ensures CountOf(TallyChunks(c, chunks), p) == CountOf(c, p) + Occurrences(chunks, p)
    ensures p in Keys(TallyChunks(c, chunks)) <==>
      p in Keys(c) || exists j :: 0 <= j < |chunks| && p in Pairs(chunks[j])
  {
    TallyChunksCount(c, chunks, p);
    TallyChunksKeys(c, chunks, p);
  }

  lemma {:induction false} TallyChunksCount(c: Counts, chunks: seq<seq<int>>, p: Pair)
    requires DistinctKeys(c)
    ensures DistinctKeys(TallyChunks(c, chunks))
    ensures CountOf(TallyChunks(c, chunks), p) == CountOf(c, p) + Occurrences(chunks, p)
    decreases |chunks|
  {
    if chunks != [] {
      var c' := Tally(c, Pairs(chunks[0]));
      TallyKeys(c, Pairs(chunks[0]));
      TallyCount(c, Pairs(chunks[0]), p);
      TallyChunksCount(c', chunks[1..], p);
    }
  }

  lemma {:induction false} TallyChunksKeys(c: Counts, chunks: seq<seq<int>>, p: Pair)
    requires DistinctKeys(c)
    ensures p in Keys(TallyChunks(c, chunks)) <==>
      p in Keys(c) || exists j :: 0 <= j < |chunks| && p in Pairs(chunks[j])
    decreases |chunks|
  {
    if chunks != [] {
      var c' := Tally(c, Pairs(chunks[0]));
      TallyKeys(c, Pairs(chunks[0]));
      TallyChunksKeys(c', chunks[1..], p);
      if p in Keys(TallyChunks(c, chunks)) && !(p in Keys(c)) && p !in Pairs(chunks[0]) {
        var j :| 0 <= j < |chunks[1..]| && p in Pairs(chunks[1..][j]);
        assert p in Pairs(chunks[j + 1]);
      }
      if exists j :: 0 <= j < |chunks| && p in Pairs(chunks[j]) {
        var j :| 0 <= j < |chunks| && p in Pairs(chunks[j]);
        if j > 0 {
          assert p in Pairs(chunks[1..][j - 1]);
        }
      }
    }
  }

  /** An entry of a dict with distinct keys holds that key's count. */
  lemma EntryCount(c: Counts, k: nat)
    requires DistinctKeys(c) && k < |c|
    ensures CountOf(c, c[k].0) == c[k].1
  {
    GetEntry(c, k);
  }

  /**
    The pair training picks occurs at least as often as any other pair, and
    strictly more often than every pair counted before it.
  */
  lemma PickedMostFrequent(chunks: seq<seq<int>>, q: Pair)
    requires TallyChunks([], chunks) != []
    ensures var c := TallyChunks([], chunks); var k := MostFrequent(c);
      Occurrences(chunks, q) <= Occurrences(chunks, c[k].0)
      && forall j :: 0 <= j < k ==> Occurrences(chunks, c[j].0) < Occurrences(chunks, c[k].0)
  {
    var c := TallyChunks([], chunks);
    var k := MostFrequent(c);
    TallyChunksOf([], chunks, c[k].0);
    TallyChunksOf([], chunks, q);
    EntryCount(c, k);
    if q in Keys(c) {
      var j :| 0 <= j < |c| && Keys(c)[j] == q;
      KeyAt(c, j);
      EntryCount(c, j);
    }
    forall j | 0 <= j < k
      ensures Occurrences(chunks, c[j].0) < Occurrences(chunks, c[k].0)
    {
      TallyChunksOf([], chunks, c[j].0);
      EntryCount(c, j);
    }
  }

  /** Adding one merge after the others extends the table by that one entry. */
  lemma {:induction false} ExtendAppend(v: Vocab, ms: Merges, x: (Pair, int))
    requires ExtendVocab(v, ms).Ok?
    ensures ExtendVocab(v, ms + [x]) == ExtendVocab(ExtendVocab(v, ms).value, [x])
    decreases |ms|
  {
    if ms == [] {
      assert ms + [x] == [x];
    } else {
      var p := ms[0].0;
      assert (ms + [x])[0] == ms[0] && (ms + [x])[1..] == ms[1..] + [x];
      ExtendAppend(v[ms[0].1 := v[p.0] + v[p.1]], ms[1..], x);
    }
  }

  lemma ExtendOne(w: Vocab, x: (Pair, int))
    requires x.0.0 in w && x.0.1 in w
    ensures ExtendVocab(w, [x]) == Ok(w[x.1 := w[x.0.0] + w[x.0.1]])
  {
    assert [x][1..] == [];
  }

  /** The ids of a merged chunk are its old ids and the new one; the merged pair is gone. */
  lemma MergeChunksOf(chunks: seq<seq<int>>, ms: Merges, pair: Pair, idx: int)
    requires Chained(ms, 256) && idx == 256 + |ms|
    requires IdsBelow(chunks, idx) && Unmerged(ms, chunks)
    requires 0 <= pair.0 < idx && 0 <= pair.1 < idx
    ensures IdsBelow(MergeChunks(chunks, pair, idx), idx + 1)
    ensures Unmerged(ms + [(pair, idx)], MergeChunks(chunks, pair, idx))
  {
    var ms' := ms + [(pair, idx)];
    var chunks' := MergeChunks(chunks, pair, idx);
    forall j | 0 <= j < |chunks|
      ensures forall x :: x in chunks'[j] ==> 0 <= x < idx + 1
      ensures forall k :: 0 <= k < |ms'| ==> ms'[k].0 !in Pairs(chunks'[j])
    {
      MergeIds(chunks[j], pair, idx);
      MergePairs(chunks[j], pair, idx);
      forall k | 0 <= k < |ms'| ensures ms'[k].0 !in Pairs(chunks'[j]) {
        if k < |ms| {
          assert ms'[k] == ms[k];
          assert ms[k].0.0 < 256 + k;
        }
      }
    }
  }

  /** The state of training after i rounds, as the invariant below describes it. */
  ghost predicate Learning(chunks: seq<seq<int>>, i: nat, ms: Merges, v: Vocab) {
    && |ms| == i && Chained(ms, 256)
    && ExtendVocab(BaseVocab(), ms) == Ok(v)
    && IdsBelow(chunks, 256 + i) && Unmerged(ms, chunks)
  }

  /** The pair a round picks is made of known ids and is new, and the round keeps the invariant. */
  lemma LearnStep(chunks: seq<seq<int>>, i: nat, ms: Merges, v: Vocab)
    requires Learning(chunks, i, ms, v) && TallyChunks([], chunks) != []
    ensures var c := TallyChunks([], chunks); var pair := c[MostFrequent(c)].0; var idx := 256 + i;
      && pair.0 in v && pair.1 in v && Put(ms, pair, idx) == ms + [(pair, idx)]
      && Learning(MergeChunks(chunks, pair, idx), i + 1, ms + [(pair, idx)], v[idx := v[pair.0] + v[pair.1]])
  {
    var c := TallyChunks([], chunks);
    var k := MostFrequent(c);
    var pair := c[k].0;
    var idx := 256 + i;
    KeyAt(c, k);
    TallyChunksOf([], chunks, pair);
    var j :| 0 <= j < |chunks| && pair in Pairs(chunks[j]);
    var t :| 0 <= t < |Pairs(chunks[j])| && Pairs(chunks[j])[t] == pair;
    assert chunks[j][t] in chunks[j] && chunks[j][t + 1] in chunks[j];
    assert 0 <= pair.0 < idx && 0 <= pair.1 < idx;
    BuildChained(ms);
    assert pair.0 in v && pair.1 in v;
    assert pair !in Keys(ms) by {
      if pair in Keys(ms) {
        var m :| 0 <= m < |ms| && Keys(ms)[m] == pair;
        KeyAt(ms, m);
      }
    }
    PutFacts(ms, pair, idx);
    ExtendAppend(BaseVocab(), ms, (pair, idx));
    ExtendOne(v, (pair, idx));
    MergeChunksOf(chunks, ms, pair, idx);
    ChainedAppend(ms, pair);
  }

  lemma ChainedAppend(ms: Merges, pair: Pair)
    requires Chained(ms, 256) && 0 <= pair.0 < 256 + |ms| && 0 <= pair.1 < 256 + |ms|
    ensures Chained(ms + [(pair, 256 + |ms|)], 256)
  {
    var ms' := ms + [(pair, 256 + |ms|)];
    forall k | 0 <= k < |ms'|
      ensures ms'[k].1 == 256 + k && 0 <= ms'[k].0.0 < 256 + k && 0 <= ms'[k].0.1 < 256 + k
    {
      if k < |ms| {
        assert ms'[k] == ms[k];
      }
    }
  }

  /**
    The training invariant: after i rounds the merges are chained from 256,
    the table is what `_build_vocab` makes of them, the chunks hold ids below
    256 + i and none of the learned pairs. Every further round appends the
    pair it picks, so training ends with exactly n merges, and it can only
    fail for want of a pair.
  */
  lemma {:induction false} LearnShape(chunks: seq<seq<int>>, i: nat, n: nat, ms: Merges, v: Vocab)
    requires i <= n && Learning(chunks, i, ms, v)
    ensures Learn(chunks, i, n, ms, v).Ok? ==>
      var (ms', v') := Learn(chunks, i, n, ms, v).value;
      |ms'| == n && ms'[..i] == ms && Chained(ms', 256) && ExtendVocab(BaseVocab(), ms') == Ok(v')
      && (i < n ==> var c := TallyChunks([], chunks); c != [] && ms'[i] == (c[MostFrequent(c)].0, 256 + i))
    ensures Learn(chunks, i, n, ms, v).Err? ==> Learn(chunks, i, n, ms, v).error == ValueError
    decreases n - i
  {
    if i < n {
      var c := TallyChunks([], chunks);
      if c != [] {
        var pair := c[MostFrequent(c)].0;
        var idx := 256 + i;
        LearnStep(chunks, i, ms, v);
        var chunks', ms', v' := MergeChunks(chunks, pair, idx), ms + [(pair, idx)], v[idx := v[pair.0] + v[pair.1]];
        LearnUnfold(chunks, i, n, ms, v);
        LearnShape(chunks', i + 1, n, ms', v');
        if Learn(chunks, i, n, ms, v).Ok? {
          PrefixLast(Learn(chunks, i, n, ms, v).value.0, ms, (pair, idx));
        }
      }
    }
  }

  /** A round that finds a pair of known ids continues with the chunks merged and the pair learned. */
  lemma LearnUnfold(chunks: seq<seq<int>>, i: nat, n: nat, ms: Merges, v: Vocab)
    requires i < n && TallyChunks([], chunks) != []
    requires var c := TallyChunks([], chunks); var pair := c[MostFrequent(c)].0;
      pair.0 in v && pair.1 in v && Put(ms, pair, 256 + i) == ms + [(pair, 256 + i)]
    ensures var c := TallyChunks([], chunks); var pair := c[MostFrequent(c)].0; var idx := 256 + i;
      Learn(chunks, i, n, ms, v) ==
        Learn(MergeChunks(chunks, pair, idx), i + 1, n, ms + [(pair, idx)], v[idx := v[pair.0] + v[pair.1]])
  {
  }

  /** A sequence that starts with `p + [x]` starts with `p`, and `x` follows. */
  lemma PrefixLast<T>(s: seq<T>, p: seq<T>, x: T)
    requires |p| < |s| && s[..|p| + 1] == p + [x]
    ensures s[..|p|] == p && s[|p|] == x
  {
    assert s[..|p|] == s[..|p| + 1][..|p|];
    assert s[|p|] == s[..|p| + 1][|p|];
  }

  /**
    `train` on byte chunks: below 256 it fails with AssertionError; otherwise
    it either fails with ValueError (no pair left to merge) or learns exactly
    `vocab_size - 256` merges, merge k having id 256 + k and joining two ids
    below it, with the table `_build_vocab` would build from them.
  */
  lemma TrainedShape(chunks: seq<seq<int>>, vocabSize: int)
    requires IdsBelow(chunks, 256)
    ensures vocabSize < 256 ==> Trained(chunks, vocabSize) == Err(AssertionError)
    ensures Trained(chunks, vocabSize).Err? && vocabSize >= 256 ==> Trained(chunks, vocabSize).error == ValueError
    ensures Trained(chunks, vocabSize).Ok? ==>
      var (ms, v) := Trained(chunks, vocabSize).value;
      |ms| == vocabSize - 256 && Chained(ms, 256) && VocabOf(ms, []) == Ok(v)
  {
    if vocabSize >= 256 {
      LearnShape(chunks, 0, vocabSize - 256, [], BaseVocab());
    }
  }

  /** The first merge training learns is the pair that occurs most often in the chunks. */
  lemma FirstMergeMostFrequent(chunks: seq<seq<int>>, vocabSize: int, q: Pair)
    requires IdsBelow(chunks, 256) && vocabSize > 256 && Trained(chunks, vocabSize).Ok?
    ensures var ms := Trained(chunks, vocabSize).value.0;
      |ms| > 0 && Occurrences(chunks, q) <= Occurrences(chunks, ms[0].0)
  {
    PickedMostFrequent(chunks, q);
    LearnShape(chunks, 0, vocabSize - 256, [], BaseVocab());
  }

  /**
    A trained table holds exactly `vocab_size` ids, keeps the byte ids and
    gives each merge id the bytes of its pair, so encoding then decoding with
    it gives back any text.
  */
  lemma TrainedConsistent(chunks: seq<seq<int>>, vocabSize: int)
    requires IdsBelow(chunks, 256) && Trained(chunks, vocabSize).Ok?
    ensures var (ms, v) := Trained(chunks, vocabSize).value;
      Consistent(v, ms) && KeepsBytes(v) && IsRange(v, vocabSize) && |v| == vocabSize
  {
    TrainedShape(chunks, vocabSize);
    var (ms, v) := Trained(chunks, vocabSize).value;
    BuildChained(ms);
  }

  /** Training a text without any adjacent pair fails as soon as a merge is asked for. */
  lemma TrainNoPairs(chunks: seq<seq<int>>, vocabSize: int)
    requires vocabSize > 256 && forall j :: 0 <= j < |chunks| ==> |chunks[j]| < 2
    ensures Trained(chunks, vocabSize) == Err(ValueError)
  {
    var c := TallyChunks([], chunks);
    if c != [] {
      KeyAt(c, 0);
      TallyChunksOf([], chunks, c[0].0);
      assert false;
    }
  }

  /** Training to exactly 256 ids learns nothing and keeps the byte table. */
  lemma TrainNothing(chunks: seq<seq<int>>)
    ensures Trained(chunks, 256) == Ok(([], BaseVocab()))
  {
  }
}
