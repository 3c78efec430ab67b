/**
  `GPT4Tokenizer` (minbpe/gpt4_bpe_tokenizer.py): a regex tokenizer whose
  merges and table are rebuilt from a table of mergeable ranks (token bytes
  -> rank), whose byte ids are permuted, and which cannot be saved or
  loaded. The rank table is an input here; where it comes from is not part
  of this model.
*/
module Gpt4 {
  import opened Wrappers
  import opened Dicts
  import opened Counting
  import opened Vocabulary
  import opened BpeCore
  import opened Regex
  import Utf8

  /** `mergeable_ranks`: token bytes -> rank, in iteration order. */
  type Ranks = Dict<Bytes, int>

  /** `GPT4_SPECIAL_TOKENS`. */
  const Gpt4SpecialTokens: Specials := [
    ("<|endoftext|>", 100257),
    ("<|fim_prefix|>", 100258),
    ("<|fim_middle|>", 100259),
    ("<|fim_suffix|>", 100260),
    ("<|endofprompt|>", 100276)
  ]

  /** `bytes([b])`. */
  function ByteToken(b: int): Bytes
    requires 0 <= b < 256
  {
    [b as Byte]
  }

  /** `[bytes([t]) for t in token]`. */
  function Singles(token: Bytes): (parts: seq<Bytes>)
    ensures |parts| == |token| && forall i :: 0 <= i < |token| ==> parts[i] == [token[i]]
  {
    seq(|token|, i requires 0 <= i < |token| => [token[i]])
  }

  /** `b"".join(parts)`. */
  function Flatten(parts: seq<Bytes>): Bytes
    decreases |parts|
  {
    if parts == [] then [] else Flatten(parts[..|parts| - 1]) + parts[|parts| - 1]
  }

  /** The number of adjacent pairs, `len(list(zip(parts[:-1], parts[1:])))`. */
  function Gaps(parts: seq<Bytes>): nat {
    if parts == [] then 0 else |parts| - 1
  }

  /** `mergeable_ranks.get(parts[i] + parts[i + 1])`. */
  function PairRank(ranks: Ranks, parts: seq<Bytes>, i: nat): Option<int>
    requires i + 1 < |parts|
  {
    Get(ranks, parts[i] + parts[i + 1])
  }

  /**
    The scan of `bpe` over the first `n` adjacent pairs: the position and rank
    of the leftmost pair of strictly lowest rank, or None when none is ranked.
  */
  function MinPair(ranks: Ranks, parts: seq<Bytes>, n: nat): (r: Option<(nat, int)>)
    requires n == 0 || n < |parts|
    ensures r.None? <==> forall j :: 0 <= j < n ==> PairRank(ranks, parts, j).None?
    ensures r.Some? ==> r.value.0 < n && PairRank(ranks, parts, r.value.0) == Some(r.value.1)
    ensures r.Some? ==> forall j :: 0 <= j < n && PairRank(ranks, parts, j).Some? ==>
      r.value.1 <= PairRank(ranks, parts, j).value
    ensures r.Some? ==> forall j :: 0 <= j < r.value.0 && PairRank(ranks, parts, j).Some? ==>
      r.value.1 < PairRank(ranks, parts, j).value
    decreases n
  {
    if n == 0 then None
    else
      var prev := MinPair(ranks, parts, n - 1);
      var rank := PairRank(ranks, parts, n - 1);
      if rank.Some? && (prev.None? || rank.value < prev.value.1) then Some((n - 1, rank.value)) else prev
  }

  /** `parts[:i] + [parts[i] + parts[i + 1]] + parts[i + 2:]`. */
  function MergeAt(parts: seq<Bytes>, i: nat): (r: seq<Bytes>)
    requires i + 1 < |parts|
    ensures |r| == |parts| - 1
  {
    parts[..i] + [parts[i] + parts[i + 1]] + parts[i + 2..]
  }

  /**
    What `bpe` returns: merge the lowest-ranked pair until no pair is ranked
    or the lowest rank reaches `maxRank`.
  */
  function BpeParts(ranks: Ranks, parts: seq<Bytes>, maxRank: Option<int>): seq<Bytes>
    decreases |parts|
  {
    var m := MinPair(ranks, parts, Gaps(parts));
    if m.None? || (maxRank.Some? && m.value.1 >= maxRank.value) then parts
    else BpeParts(ranks, MergeAt(parts, m.value.0), maxRank)
  }

  /** The merge `recover_merges` records for one token, or the error it raises. */
  function RecoverOne(ranks: Ranks, token: Bytes, rank: int): Result<(Pair, int)> {
    var pair := BpeParts(ranks, Singles(token), Some(rank));
    if |pair| != 2 then Err(AssertionError)
    else match Get(ranks, pair[0])
      case None => Err(KeyError)
      case Some(idx0) =>
        match Get(ranks, pair[1])
        case None => Err(KeyError)
        case Some(idx1) => Ok(((idx0, idx1), rank))
  }

  /** `recover_merges` from entry `k` of the rank table on, into the merges `acc`. */
  function RecoverFrom(ranks: Ranks, k: nat, acc: Merges): Result<Merges>
    requires k <= |ranks|
    decreases |ranks| - k
  {
    if k == |ranks| then Ok(acc)
    else if |ranks[k].0| == 1 then RecoverFrom(ranks, k + 1, acc)
    else match RecoverOne(ranks, ranks[k].0, ranks[k].1)
      case Err(e) => Err(e)
      case Ok(m) => RecoverFrom(ranks, k + 1, Put(acc, m.0, m.1))
  }

  /** `recover_merges(mergeable_ranks)`. */
  function Recovered(ranks: Ranks): Result<Merges> {
    RecoverFrom(ranks, 0, [])
  }

  /** `{i: mergeable_ranks[bytes([i])] for i in range(n)}`; a missing byte raises KeyError. */
  function ByteShuffleUpTo(ranks: Ranks, n: nat): (r: Result<Dict<int, int>>)
    requires n <= 256
    ensures r.Ok? <==> forall b :: 0 <= b < n ==> Get(ranks, ByteToken(b)).Some?
    ensures r.Err? ==> r.error == KeyError
    ensures r.Ok? ==> |r.value| == n && forall i :: 0 <= i < n ==> r.value[i] == (i, Get(ranks, ByteToken(i)).value)
    decreases n
  {
    if n == 0 then Ok([])
    else match ByteShuffleUpTo(ranks, n - 1)
      case Err(e) => Err(e)
      case Ok(d) =>
        match Get(ranks, ByteToken(n - 1))
        case None => Err(KeyError)
        case Some(r) => Ok(d + [(n - 1, r)])
  }

  /** `byte_shuffle`. */
  function ByteShuffle(ranks: Ranks): Result<Dict<int, int>> {
    ByteShuffleUpTo(ranks, 256)
  }

  /**
    `bytes(d[b] for b in bs)`: a byte missing from `d` raises KeyError, a
    value outside 0..255 ValueError, whichever comes first.
  */
  function MapBytes(d: Dict<int, int>, bs: seq<int>): (r: Result<Bytes>)
    ensures r.Ok? <==> forall i :: 0 <= i < |bs| ==> Get(d, bs[i]).Some? && 0 <= Get(d, bs[i]).value < 256
    ensures r.Ok? ==> |r.value| == |bs| && forall i :: 0 <= i < |bs| ==> r.value[i] == Get(d, bs[i]).value
    ensures r.Err? ==> r.error == KeyError || r.error == ValueError
    decreases |bs|
  {
    if bs == [] then Ok([])
    else
      assert forall i :: 0 <= i < |bs| - 1 ==> bs[..|bs| - 1][i] == bs[i];
      match MapBytes(d, bs[..|bs| - 1])
      case Err(e) => Err(e)
      case Ok(prefix) =>
        match Get(d, bs[|bs| - 1])
        case None => Err(KeyError)
        case Some(x) => if 0 <= x < 256 then Ok(prefix + [x as Byte]) else Err(ValueError)
  }

  /**
    What `__init__` computes from the rank table, in its order: the merges,
    the table they build, the byte permutation; the first error wins.
  */
  function Built(ranks: Ranks): Result<(Merges, Vocab, Dict<int, int>)> {
    match Recovered(ranks)
    case Err(e) => Err(e)
    case Ok(ms) =>
      match ExtendVocab(BaseVocab(), ms)
      case Err(e) => Err(e)
      case Ok(v) =>
        match ByteShuffle(ranks)
        case Err(e) => Err(e)
        case Ok(s) => Ok((ms, v, s))
  }

  /** Each byte's single-byte token is ranked, within 0..255, and no two bytes share a rank. */
  ghost predicate BytesPermuted(ranks: Ranks) {
    BytesRanked(ranks) && forall b, c :: 0 <= b < 256 && 0 <= c < 256 && b != c ==> Get(ranks, ByteToken(b)) != Get(ranks, ByteToken(c))
  }

  /** Each byte's single-byte token is ranked, within 0..255. */
  ghost predicate BytesRanked(ranks: Ranks) {
    forall b :: 0 <= b < 256 ==> Get(ranks, ByteToken(b)).Some? && 0 <= Get(ranks, ByteToken(b)).value < 256
  }

  /** A merge that `recover_merges` can record: both parts and their concatenation are ranked tokens. */
  ghost predicate Recovers(ranks: Ranks, e: (Pair, int)) {
    exists t0, t1 :: (t0, e.0.0) in ranks && (t1, e.0.1) in ranks && (t0 + t1, e.1) in ranks
  }

  /**
    Merge ids never stand in for an id an earlier or the same merge uses, and
    no two merges share an id, so no entry of the table is overwritten once
    read.
  */
  ghost predicate Fresh(ms: Merges) {
    && (forall k, j :: 0 <= k <= j < |ms| ==> ms[j].1 != ms[k].0.0 && ms[j].1 != ms[k].0.1)
    && (forall k, j :: 0 <= k < j < |ms| ==> ms[j].1 != ms[k].1)
  }

  class Gpt4Tokenizer {
    const regex: RegexTokenizer
    var byteShuffle: Dict<int, int>
    var inverseByteShuffle: Dict<int, int>

    /**
      The assignments of `__init__` once the merges, the table and the byte
      permutation are computed: `super().__init__` with the GPT-4 pattern,
      the three computed fields, the inverse permutation, then the GPT-4
      special tokens registered.
    */
    constructor (compile: string -> (string -> seq<string>), ms: Merges, v: Vocab, shuffle: Dict<int, int>)
      ensures fresh(regex) && fresh(regex.base)
      ensures regex.base.pattern == Gpt4SplitPattern && regex.segment == compile(Gpt4SplitPattern)
      ensures regex.base.merges == ms && regex.base.vocab == v
      ensures byteShuffle == shuffle && inverseByteShuffle == Invert(shuffle)
      ensures regex.base.specialTokens == Gpt4SpecialTokens && regex.inverseSpecialTokens == Invert(Gpt4SpecialTokens)
    {
      regex := new RegexTokenizer(Some(Gpt4SplitPattern), compile);
      byteShuffle := shuffle;
      inverseByteShuffle := Invert(shuffle);
      new;
      regex.base.merges := ms;
      regex.base.vocab := v;
      regex.RegisterSpecialTokens(Gpt4SpecialTokens);
    }

    /**
      `_encode_chunk` as intended, given the chunk's bytes: each byte through
      `byte_shuffle`, then the inherited merge loop on the result. This is the
      corrected form of `EncodeChunkAsWritten`.
    */
    function EncodeChunk(chunkBytes: Bytes): (r: Result<seq<int>>)
      reads this, regex, regex.base
      ensures r.Ok? <==> MapBytes(byteShuffle, chunkBytes).Ok?
      ensures r.Ok? ==> r.value == EncodeIds(regex.base.merges, MapBytes(byteShuffle, chunkBytes).value)
    {
      match MapBytes(byteShuffle, chunkBytes)
      case Err(e) => Err(e)
      case Ok(permuted) => Ok(EncodeIds(regex.base.merges, permuted))
    }

    /**
      `_encode_chunk` as written, called as the inherited `encode_ordinary`
      calls it, with the chunk's bytes: its first line calls `.encode("utf-8")`
      on them, and `bytes` has no `encode`, so every call raises
      AttributeError. (Handed a `str` instead, the permuted `bytes` it passes
      to the parent's `_encode_chunk` meet the same call there.)
    */
    function EncodeChunkAsWritten(chunkBytes: Bytes): (r: Result<seq<int>>)
      ensures r == Err(AttributeError)
    {
      Err(AttributeError)
    }

    /**
      `decode(ids)`: the table's bytes joined, each byte through
      `inverse_byte_shuffle`, decoded with replacement. Special tokens are not
      looked up, so their ids raise KeyError like unknown ids.
    */
    function Decode(ids: seq<int>): (r: Result<string>)
      reads this, regex, regex.base
      ensures (exists i :: 0 <= i < |ids| && ids[i] !in regex.base.vocab) ==> r == Err(KeyError)
      ensures r.Ok? ==> exists u :: MapBytes(inverseByteShuffle, Join(regex.base.vocab, ids).value) == Ok(u) && r.value == Utf8.Decode(u)
    {
      match Join(regex.base.vocab, ids)
      case Err(e) => Err(e)
      case Ok(textBytes) =>
        match MapBytes(inverseByteShuffle, textBytes)
        case Err(e) => Err(e)
        case Ok(u) => Ok(Utf8.Decode(u))
    }

    /** `save` always raises NotImplementedError. */
    method Save(filePrefix: string) returns (err: Option<Error>)
      ensures err == Some(NotImplementedError)
    {
      return Some(NotImplementedError);
    }

    /** `load` always raises NotImplementedError and changes nothing. */
    method Load(modelFile: string) returns (err: Option<Error>)
      ensures err == Some(NotImplementedError)
    {
      return Some(NotImplementedError);
    }
  }

  /**
    `GPT4Tokenizer()` given the rank table: the merges recovered from it, the
    table rebuilt from them, the byte permutation and its inverse, then the
    GPT-4 special tokens registered; any error the source raises is returned.
  */
  method Create(ranks: Ranks, compile: string -> (string -> seq<string>)) returns (r: Result<Gpt4Tokenizer>)
    ensures r.Err? <==> Built(ranks).Err?
    ensures r.Err? ==> r.error == Built(ranks).error
    ensures r.Ok? ==> fresh(r.value) && fresh(r.value.regex) && fresh(r.value.regex.base)
    ensures r.Ok? ==>
      var t := r.value;
      && t.regex.base.merges == Built(ranks).value.0
      && t.regex.base.vocab == Built(ranks).value.1
      && t.byteShuffle == Built(ranks).value.2
      && t.inverseByteShuffle == Invert(t.byteShuffle)
      && t.regex.base.specialTokens == Gpt4SpecialTokens
      && t.regex.inverseSpecialTokens == Invert(Gpt4SpecialTokens)
      && t.regex.base.pattern == Gpt4SplitPattern && t.regex.segment == compile(Gpt4SplitPattern)
  {
    var built := Build(ranks);
    if built.Err? {
      return Err(built.error);
    }
    var (merges, vocab, shuffle) := built.value;
    var t := new Gpt4Tokenizer(compile, merges, vocab, shuffle);
    return Ok(t);
  }

  /** The computations of `__init__` that can fail, in its order. */
  method Build(ranks: Ranks) returns (r: Result<(Merges, Vocab, Dict<int, int>)>)
    ensures r == Built(ranks)
  {
    var merges := RecoverMerges(ranks);
    if merges.Err? {
      return Err(merges.error);
    }
    var vocab := RebuildVocab(merges.value);
    if vocab.Err? {
      return Err(vocab.error);
    }
    var shuffle := ShuffleBytes(ranks);
    if shuffle.Err? {
      return Err(shuffle.error);
    }
    return Ok((merges.value, vocab.value, shuffle.value));
  }

  /** `bpe(mergeable_ranks, token, max_rank)`. */
  method Bpe(ranks: Ranks, token: Bytes, maxRank: Option<int>) returns (parts: seq<Bytes>)
    ensures parts == BpeParts(ranks, Singles(token), maxRank)
  {
    parts := Singles(token);
    while true
      invariant BpeParts(ranks, parts, maxRank) == BpeParts(ranks, Singles(token), maxRank)
      decreases |parts|
    {
      var m := LowestPair(ranks, parts);
      if m.None? || (maxRank.Some? && m.value.1 >= maxRank.value) {
        break;
      }
      BpeStep(ranks, parts, maxRank);
      parts := MergeAt(parts, m.value.0);
    }
  }

  /** The inner loop of `bpe`: `min_idx` and `min_rank` over the adjacent pairs. */
  method LowestPair(ranks: Ranks, parts: seq<Bytes>) returns (m: Option<(nat, int)>)
    ensures m == MinPair(ranks, parts, Gaps(parts))
  {
    m := None;
    for i := 0 to Gaps(parts)
      invariant m == MinPair(ranks, parts, i)
    {
      var rank := Get(ranks, parts[i] + parts[i + 1]);
      if rank.Some? && (m.None? || rank.value < m.value.1) {
        m := Some((i, rank.value));
      }
    }
  }

  /** `recover_merges(mergeable_ranks)`. */
  method RecoverMerges(ranks: Ranks) returns (r: Result<Merges>)
    ensures r == Recovered(ranks)
  {
    var merges: Merges := [];
    for k := 0 to |ranks|
      invariant RecoverFrom(ranks, k, merges) == Recovered(ranks)
    {
      var (token, rank) := ranks[k];
      if |token| == 1 {
        continue;
      }
      var pair := Bpe(ranks, token, Some(rank));
      if |pair| != 2 {
        return Err(AssertionError);
      }
      var idx0 := Get(ranks, pair[0]);
      if idx0.None? {
        return Err(KeyError);
      }
      var idx1 := Get(ranks, pair[1]);
      if idx1.None? {
        return Err(KeyError);
      }
      merges := Put(merges, (idx0.value, idx1.value), rank);
    }
    return Ok(merges);
  }

  /** The table loop of `__init__`: the byte ids, then `vocab[idx] = vocab[p0] + vocab[p1]` per merge. */
  method RebuildVocab(ms: Merges) returns (r: Result<Vocab>)
    ensures r == ExtendVocab(BaseVocab(), ms)
  {
    var vocab := BaseVocab();
    for k := 0 to |ms|
      invariant ExtendVocab(vocab, ms[k..]) == ExtendVocab(BaseVocab(), ms)
    {
      var (pair, idx) := ms[k];
      if pair.0 !in vocab || pair.1 !in vocab {
        return Err(KeyError);
      }
      assert ms[k..][1..] == ms[k + 1..];
      vocab := vocab[idx := vocab[pair.0] + vocab[pair.1]];
    }
    assert ms[|ms|..] == [];
    return Ok(vocab);
  }

  /** `{i: mergeable_ranks[bytes([i])] for i in range(256)}`. */
  method ShuffleBytes(ranks: Ranks) returns (r: Result<Dict<int, int>>)
    ensures r == ByteShuffle(ranks)
  {
    var shuffle: Dict<int, int> := [];
    for i := 0 to 256
      invariant ByteShuffleUpTo(ranks, i) == Ok(shuffle)
    {
      var rank := Get(ranks, ByteToken(i));
      if rank.None? {
        return Err(KeyError);
      }
      shuffle := shuffle + [(i, rank.value)];
    }
    return Ok(shuffle);
  }

  // ----- Lemmas -----

  lemma {:induction false} FlattenAppend(a: seq<Bytes>, b: seq<Bytes>)
    ensures Flatten(a + b) == Flatten(a) + Flatten(b)
    decreases |b|
  {
    if b == [] {
      assert a + b == a;
    } else {
      var init := b[..|b| - 1];
      FlattenAppend(a, init);
      assert (a + b)[..|a + b| - 1] == a + init;
    }
  }

  lemma FlattenTwo(a: Bytes, b: Bytes)
    ensures Flatten([a, b]) == a + b
  {
    assert [a, b][..1] == [a];
    FlattenOne(a);
  }

  lemma FlattenOne(a: Bytes)
    ensures Flatten([a]) == a
  {
    assert [a][..0] == [];
    assert [] + a == a;
  }

  /** The bytes of the parts are those before part `i`, then part `i`, then those after it. */
  lemma FlattenAt(ps: seq<Bytes>, i: nat)
    requires i < |ps|
    ensures Flatten(ps) == (Flatten(ps[..i]) + ps[i]) + Flatten(ps[i + 1..])
  {
    FlattenSplit(ps, i + 1);
    FlattenLast(ps, i);
  }

  lemma FlattenSplit(ps: seq<Bytes>, k: nat)
    requires k <= |ps|
    ensures Flatten(ps) == Flatten(ps[..k]) + Flatten(ps[k..])
  {
    assert ps == ps[..k] + ps[k..];
    FlattenAppend(ps[..k], ps[k..]);
  }

  lemma FlattenLast(ps: seq<Bytes>, i: nat)
    requires i < |ps|
    ensures Flatten(ps[..i + 1]) == Flatten(ps[..i]) + ps[i]
  {
    var q := ps[..i + 1];
    assert q[..|q| - 1] == ps[..i] && q[|q| - 1] == ps[i];
  }

  lemma FlattenMerged(parts: seq<Bytes>, i: nat)
    requires i + 1 < |parts|
    ensures Flatten(MergeAt(parts, i)) == (Flatten(parts[..i]) + (parts[i] + parts[i + 1])) + Flatten(parts[i + 2..])
  {
    var m := MergeAt(parts, i);
    FlattenAt(m, i);
    assert m[..i] == parts[..i] && m[i] == parts[i] + parts[i + 1] && m[i + 1..] == parts[i + 2..];
  }

  lemma FlattenNeighbours(parts: seq<Bytes>, i: nat)
    requires i + 1 < |parts|
    ensures Flatten(parts) == ((Flatten(parts[..i]) + parts[i]) + parts[i + 1]) + Flatten(parts[i + 2..])
  {
    FlattenAt(parts, i + 1);
    FlattenLast(parts, i);
  }

  lemma BytesAssoc(x: Bytes, y: Bytes, z: Bytes)
    ensures (x + y) + z == x + (y + z)
  {
  }

  /** Merging two neighbouring parts keeps the bytes the parts spell. */
  lemma MergeAtFlatten(parts: seq<Bytes>, i: nat)
    requires i + 1 < |parts|
    ensures Flatten(MergeAt(parts, i)) == Flatten(parts)
  {
    FlattenMerged(parts, i);
    FlattenNeighbours(parts, i);
    BytesAssoc(Flatten(parts[..i]), parts[i], parts[i + 1]);
  }

  lemma {:induction false} SinglesFlatten(token: Bytes)
    ensures Flatten(Singles(token)) == token
    decreases |token|
  {
    if token != [] {
      var init := token[..|token| - 1];
      SinglesFlatten(init);
      assert Singles(token)[..|token| - 1] == Singles(init);
    }
  }

  /** `bpe` never changes the bytes its parts spell: they always join to the token. */
  lemma {:induction false} BpeFlatten(ranks: Ranks, parts: seq<Bytes>, maxRank: Option<int>)
    ensures Flatten(BpeParts(ranks, parts, maxRank)) == Flatten(parts)
    decreases |parts|
  {
    var m := MinPair(ranks, parts, Gaps(parts));
    if !(m.None? || (maxRank.Some? && m.value.1 >= maxRank.value)) {
      MergeAtFlatten(parts, m.value.0);
      BpeFlatten(ranks, MergeAt(parts, m.value.0), maxRank);
    }
  }

  /**
    `bpe` stops only when no adjacent pair of its result has a rank below
    `maxRank` (no rank at all when there is no cap), and never adds parts.
  */
  lemma {:induction false} BpeFinal(ranks: Ranks, parts: seq<Bytes>, maxRank: Option<int>)
    ensures var r := BpeParts(ranks, parts, maxRank);
      && |r| <= |parts|
      && forall j :: 0 <= j < Gaps(r) ==>
           PairRank(ranks, r, j).None? || (maxRank.Some? && PairRank(ranks, r, j).value >= maxRank.value)
    decreases |parts|
  {
    var m := MinPair(ranks, parts, Gaps(parts));
    if !(m.None? || (maxRank.Some? && m.value.1 >= maxRank.value)) {
      BpeFinal(ranks, MergeAt(parts, m.value.0), maxRank);
    }
  }

  /** `bpe` merges while some pair is ranked below the cap, so each such step removes a part. */
  lemma BpeStep(ranks: Ranks, parts: seq<Bytes>, maxRank: Option<int>)
    requires MinPair(ranks, parts, Gaps(parts)).Some?
    requires maxRank.None? || MinPair(ranks, parts, Gaps(parts)).value.1 < maxRank.value
    ensures BpeParts(ranks, parts, maxRank) ==
      BpeParts(ranks, MergeAt(parts, MinPair(ranks, parts, Gaps(parts)).value.0), maxRank)
    ensures |MergeAt(parts, MinPair(ranks, parts, Gaps(parts)).value.0)| == |parts| - 1
  {
  }

  /** The two parts of a recovered merge join to the token it was recovered from. */
  lemma RecoverOneOf(ranks: Ranks, token: Bytes, rank: int)
    requires (token, rank) in ranks && RecoverOne(ranks, token, rank).Ok?
    ensures Recovers(ranks, RecoverOne(ranks, token, rank).value)
    ensures RecoverOne(ranks, token, rank).value.1 == rank
  {
    var pair := BpeParts(ranks, Singles(token), Some(rank));
    var e := RecoverOne(ranks, token, rank).value;
    assert |pair| == 2;
    BpeFlatten(ranks, Singles(token), Some(rank));
    SinglesFlatten(token);
    assert pair == [pair[0], pair[1]];
    FlattenTwo(pair[0], pair[1]);
    assert pair[0] + pair[1] == token;
    assert Get(ranks, pair[0]) == Some(e.0.0) && Get(ranks, pair[1]) == Some(e.0.1);
    assert (pair[0], e.0.0) in ranks && (pair[1], e.0.1) in ranks;
  }

  /**
    Every merge `recover_merges` records is sound: it joins two ranked tokens
    whose concatenation is the ranked token of the merge's id.
  */
  lemma {:induction false} RecoverFromSound(ranks: Ranks, k: nat, acc: Merges)
    requires k <= |ranks| && RecoverFrom(ranks, k, acc).Ok?
    requires forall e :: e in acc ==> Recovers(ranks, e)
    ensures forall e :: e in RecoverFrom(ranks, k, acc).value ==> Recovers(ranks, e)
    decreases |ranks| - k
  {
    if k < |ranks| {
      if |ranks[k].0| == 1 {
        RecoverFromSound(ranks, k + 1, acc);
      } else {
        var m := RecoverOne(ranks, ranks[k].0, ranks[k].1).value;
        assert ranks[k] in ranks;
        RecoverOneOf(ranks, ranks[k].0, ranks[k].1);
        PutEntries(acc, m.0, m.1);
        RecoverFromSound(ranks, k + 1, Put(acc, m.0, m.1));
      }
    }
  }

  lemma RecoveredSound(ranks: Ranks)
    requires Recovered(ranks).Ok?
    ensures forall e :: e in Recovered(ranks).value ==> Recovers(ranks, e)
  {
    RecoverFromSound(ranks, 0, []);
  }

  /** Single-byte tokens are skipped: a table of them alone gives no merges. */
  lemma {:induction false} RecoverSingles(ranks: Ranks, k: nat, acc: Merges)
    requires k <= |ranks| && forall j :: k <= j < |ranks| ==> |ranks[j].0| == 1
    ensures RecoverFrom(ranks, k, acc) == Ok(acc)
    decreases |ranks| - k
  {
    if k < |ranks| {
      RecoverSingles(ranks, k + 1, acc);
    }
  }

  /** A longer token that `bpe` capped at its own rank cannot split in two makes `recover_merges` fail. */
  lemma RecoverUnsplit(ranks: Ranks, k: nat, acc: Merges)
    requires k < |ranks| && |ranks[k].0| != 1
    requires |BpeParts(ranks, Singles(ranks[k].0), Some(ranks[k].1))| != 2
    ensures RecoverFrom(ranks, k, acc) == Err(AssertionError)
  {
  }

  /** In a dict whose keys are `off, off+1, ...`, key `b` finds entry `b - off`. */
  lemma {:induction false} GetIndexed(d: Dict<int, int>, off: int, b: int)
    requires forall i :: 0 <= i < |d| ==> d[i].0 == off + i
    requires off <= b < off + |d|
    ensures Get(d, b) == Some(d[b - off].1)
    decreases |d|
  {
    if b != off {
      assert forall i :: 0 <= i < |d[1..]| ==> d[1..][i].0 == off + 1 + i by {
        forall i | 0 <= i < |d[1..]| ensures d[1..][i].0 == off + 1 + i {
          assert d[1..][i] == d[i + 1];
        }
      }
      GetIndexed(d[1..], off + 1, b);
    }
  }

  /** The permutation sends byte `b` to the rank of its single-byte token. */
  lemma ShuffleGet(ranks: Ranks, b: int)
    requires ByteShuffle(ranks).Ok? && 0 <= b < 256
    ensures Get(ByteShuffle(ranks).value, b) == Get(ranks, ByteToken(b))
  {
    GetIndexed(ByteShuffle(ranks).value, 0, b);
  }

  /** When the byte ranks are distinct, the inverse sends byte `b`'s rank back to `b`. */
  lemma UnshuffleGet(ranks: Ranks, b: int)
    requires BytesPermuted(ranks) && 0 <= b < 256
    ensures ByteShuffle(ranks).Ok?
    ensures Get(Invert(ByteShuffle(ranks).value), Get(ranks, ByteToken(b)).value) == Some(b)
  {
    var s := ByteShuffle(ranks).value;
    var x := Get(ranks, ByteToken(b)).value;
    assert s[b] == (b, x);
    forall j | b < j < |s| ensures s[j].1 != x {
      assert s[j] == (j, Get(ranks, ByteToken(j)).value);
    }
    InvertGet(s, x);
  }

  /** Every byte has a rank in 0..255, so shuffling any bytes succeeds, byte by byte. */
  lemma ShuffleOk(ranks: Ranks, bs: Bytes)
    requires BytesRanked(ranks)
    ensures ByteShuffle(ranks).Ok?
    ensures MapBytes(ByteShuffle(ranks).value, bs).Ok?
    ensures forall i :: 0 <= i < |bs| ==>
      MapBytes(ByteShuffle(ranks).value, bs).value[i] == Get(ranks, ByteToken(bs[i])).value
  {
    ShuffleEach(ranks, bs);
    MapRanked(ByteShuffle(ranks).value, ranks, bs);
  }

  /** A dict that gives each byte its single-byte token's rank maps the bytes to those ranks. */
  lemma MapRanked(d: Dict<int, int>, ranks: Ranks, bs: Bytes)
    requires forall i :: 0 <= i < |bs| ==>
      && Get(d, bs[i]) == Get(ranks, ByteToken(bs[i]))
      && Get(ranks, ByteToken(bs[i])).Some? && 0 <= Get(ranks, ByteToken(bs[i])).value < 256
    ensures MapBytes(d, bs).Ok?
    ensures forall i :: 0 <= i < |bs| ==> MapBytes(d, bs).value[i] == Get(ranks, ByteToken(bs[i])).value
  {
  }

  lemma ShuffleEach(ranks: Ranks, bs: Bytes)
    requires BytesRanked(ranks)
    ensures ByteShuffle(ranks).Ok?
    ensures forall i :: 0 <= i < |bs| ==>
      && Get(ByteShuffle(ranks).value, bs[i]) == Get(ranks, ByteToken(bs[i]))
      && Get(ranks, ByteToken(bs[i])).Some? && 0 <= Get(ranks, ByteToken(bs[i])).value < 256
  {
    forall i | 0 <= i < |bs|
      ensures Get(ByteShuffle(ranks).value, bs[i]) == Get(ranks, ByteToken(bs[i]))
    {
      ShuffleGet(ranks, bs[i]);
    }
  }

  /**
    When the single-byte tokens' ranks permute 0..255, shuffling then
    unshuffling any bytes gives them back.
  */
  lemma ShuffleRoundTrip(ranks: Ranks, bs: Bytes)
    requires BytesPermuted(ranks)
    ensures ByteShuffle(ranks).Ok?
    ensures MapBytes(ByteShuffle(ranks).value, bs).Ok?
    ensures MapBytes(Invert(ByteShuffle(ranks).value), MapBytes(ByteShuffle(ranks).value, bs).value) == Ok(bs)
  {
    ShuffleOk(ranks, bs);
    var s := ByteShuffle(ranks).value;
    var p := MapBytes(s, bs).value;
    forall i | 0 <= i < |p| ensures Get(Invert(s), p[i]) == Some(bs[i] as int) {
      UnshuffleGet(ranks, bs[i]);
    }
    MapBytesBack(Invert(s), p, bs);
  }

  /** Mapping ids that each look up a given byte yields those bytes. */
  lemma MapBytesBack(d: Dict<int, int>, p: seq<int>, bs: Bytes)
    requires |p| == |bs| && forall i :: 0 <= i < |p| ==> Get(d, p[i]) == Some(bs[i] as int)
    ensures MapBytes(d, p) == Ok(bs)
  {
    var u := MapBytes(d, p).value;
    assert u == bs;
  }

  /**
    Extending a table with merges that overwrite no entry they read: every
    merge id stands for its pair's bytes, and ids no merge defines keep their
    entries.
  */
  lemma {:induction false} ExtendFresh(v: Vocab, ms: Merges)
    requires ExtendVocab(v, ms).Ok? && Fresh(ms)
    ensures Consistent(ExtendVocab(v, ms).value, ms)
    ensures forall x :: (forall k :: 0 <= k < |ms| ==> ms[k].1 != x) ==>
      (x in ExtendVocab(v, ms).value <==> x in v) && (x in v ==> ExtendVocab(v, ms).value[x] == v[x])
    decreases |ms|
  {
    if ms != [] {
      var (p, n) := ms[0];
      var v' := v[n := v[p.0] + v[p.1]];
      var rest := ms[1..];
      assert forall k :: 0 <= k < |rest| ==> rest[k] == ms[k + 1];
      ExtendFresh(v', rest);
      var w := ExtendVocab(v, ms).value;
      assert w == ExtendVocab(v', rest).value;
      forall k | 0 <= k < |ms|
        ensures ms[k].1 in w && ms[k].0.0 in w && ms[k].0.1 in w
        ensures w[ms[k].1] == w[ms[k].0.0] + w[ms[k].0.1]
      {
        if k > 0 {
          assert ms[k] == rest[k - 1];
        } else {
          assert forall j :: 0 <= j < |rest| ==> rest[j].1 != n && rest[j].1 != p.0 && rest[j].1 != p.1;
        }
      }
    }
  }

  /**
    The state `__init__` leaves is what the round trip needs, when the byte
    ranks permute 0..255 and the recovered merges are fresh and above 255.
  */
  lemma BuiltConsistent(ranks: Ranks)
    requires Built(ranks).Ok? && Fresh(Built(ranks).value.0)
    requires forall k :: 0 <= k < |Built(ranks).value.0| ==> Built(ranks).value.0[k].1 >= 256
    ensures Consistent(Built(ranks).value.1, Built(ranks).value.0) && KeepsBytes(Built(ranks).value.1)
  {
    var ms := Built(ranks).value.0;
    ExtendFresh(BaseVocab(), ms);
    BaseVocabShape();
  }

  /**
    Where the corrected `_encode_chunk` encodes every chunk (each byte has a
    rank in 0..255), the code as written raises AttributeError on every chunk.
  */
  lemma EncodeChunkAsWrittenFails(t: Gpt4Tokenizer, ranks: Ranks, bs: Bytes)
    requires BytesRanked(ranks) && ByteShuffle(ranks).Ok? && t.byteShuffle == ByteShuffle(ranks).value
    ensures t.EncodeChunkAsWritten(bs) == Err(AttributeError)
    ensures t.EncodeChunk(bs).Ok?
    ensures t.EncodeChunk(bs).value == EncodeIds(t.regex.base.merges, MapBytes(t.byteShuffle, bs).value)
  {
    ShuffleOk(ranks, bs);
  }

  /**
    With such a state, decoding the encoding of a chunk's bytes gives back the
    chunk: the permuted bytes join back from the merged ids and unpermute to
    the original bytes.
  */
  lemma ChunkRoundTrip(t: Gpt4Tokenizer, ranks: Ranks, text: string)
    requires BytesPermuted(ranks) && ByteShuffle(ranks).Ok?
    requires t.byteShuffle == ByteShuffle(ranks).value && t.inverseByteShuffle == Invert(t.byteShuffle)
    requires Consistent(t.regex.base.vocab, t.regex.base.merges) && KeepsBytes(t.regex.base.vocab)
    ensures t.EncodeChunk(Utf8.Encode(text)).Ok?
    ensures t.Decode(t.EncodeChunk(Utf8.Encode(text)).value) == Ok(text)
  {
    var bs := Utf8.Encode(text);
    ShuffleRoundTrip(ranks, bs);
    var p := MapBytes(t.byteShuffle, bs).value;
    var ids := EncodeIds(t.regex.base.merges, p);
    EncodeJoin(t.regex.base.vocab, t.regex.base.merges, p);
    JoinBytes(t.regex.base.vocab, p);
    Utf8.DecodeEncode(text);
  }

  /** Special-token ids do not decode unless the table happens to hold them. */
  lemma SpecialNotDecoded(t: Gpt4Tokenizer)
    requires 100257 !in t.regex.base.vocab
    ensures t.Decode([100257]) == Err(KeyError)
  {
    assert [100257][0] !in t.regex.base.vocab;
  }
}
