/**
  `RegexTokenizer` (minbpe/regex_tokenizer.py): BPE within the chunks a split
  pattern cuts the text into, plus special tokens. The compiled pattern is
  the function `segment` (`re.findall(compiled_pattern, text)`), built once
  by `compile` when the tokenizer is made; the regular-expression engine
  itself is not part of this model. The inherited state lives in `base`.
*/
module Regex {
  import opened Wrappers
  import opened Dicts
  import opened Counting
  import opened Merging
  import opened Vocabulary
  import opened Text
  import opened BpeCore
  import opened Base
  import Utf8

  /** `GPT4_SPLIT_PATTERN`, the default split pattern. */
  const Gpt4SplitPattern: string :=
    @"'(?i:[sdmt]|ll|ve|re)|[^\r\n\p{L}\p{N}]?+\p{L}+|\p{N}{1,3}| ?[^\s\p{L}\p{N}]++[\r\n]*|\s*[\r\n]|\s+(?!\S)|\s+"

  /** The `allowed_special_tokens` argument of `encode`: a string or a set of token strings. */
  datatype Allowed = Named(name: string) | Only(tokens: set<string>)

  /** `[list(chunk.encode("utf-8")) for chunk in text_chunks]`. */
  function ChunkBytes(cs: seq<string>): (r: seq<seq<int>>)
    ensures |r| == |cs| && forall j :: 0 <= j < |cs| ==> r[j] == Utf8.Encode(cs[j])
  {
    seq(|cs|, j requires 0 <= j < |cs| => Utf8.Encode(cs[j]))
  }

  /** The ids of `encode_ordinary`: each chunk's bytes through the merge loop, in chunk order. */
  function OrdinaryIds(ms: Merges, cs: seq<string>): seq<int>
    decreases |cs|
  {
    if cs == [] then [] else OrdinaryIds(ms, cs[..|cs| - 1]) + EncodeIds(ms, Utf8.Encode(cs[|cs| - 1]))
  }

  /**
    The bytes `decode` joins: the table's bytes for an id it holds, else the
    UTF-8 bytes of the special token the inverse map gives, else ValueError.
  */
  function DecodedBytes(v: Vocab, inverse: Dict<int, string>, ids: seq<int>): (r: Result<Bytes>)
    ensures r.Ok? <==> forall i :: 0 <= i < |ids| ==> ids[i] in v || Get(inverse, ids[i]).Some?
    ensures r.Err? ==> r.error == ValueError
    decreases |ids|
  {
    if ids == [] then Ok([])
    else
      var idx := ids[|ids| - 1];
      assert forall i :: 0 <= i < |ids| - 1 ==> ids[..|ids| - 1][i] == ids[i];
      match DecodedBytes(v, inverse, ids[..|ids| - 1])
      case Err(e) => Err(e)
      case Ok(b) =>
        if idx in v then Ok(b + v[idx])
        else match Get(inverse, idx)
          case Some(token) => Ok(b + Utf8.Encode(token))
          case None => Err(ValueError)
  }

  /** `s.startswith(t)`. */
  predicate StartsWith(s: string, t: string) {
    |t| <= |s| && s[..|t|] == t
  }

  /** `t in s` for strings: `t` occurs somewhere in `s` (the empty string occurs everywhere). */
  predicate Occurs(t: string, s: string)
    decreases |s|
  {
    StartsWith(s, t) || (s != [] && Occurs(t, s[1..]))
  }

  /** The entries of `st` whose keys are in `names`, assigned into `acc` in iteration order. */
  function RestrictInto(acc: Specials, st: Specials, names: set<string>): Specials
    decreases |st|
  {
    if st == [] then acc
    else RestrictInto(if st[0].0 in names then Put(acc, st[0].0, st[0].1) else acc, st[1..], names)
  }

  /** `{k: v for k, v in st.items() if k in names}`. */
  function Restrict(st: Specials, names: set<string>): Specials {
    RestrictInto([], st, names)
  }

  /**
    The special tokens `encode` looks for: "all" takes every registered one,
    "none" none, "none_raise" none but fails with AssertionError when a
    registered token occurs in the text, a set those registered tokens in it;
    any other value raises ValueError.
  */
  function AllowedSpecials(st: Specials, allowed: Allowed, text: string): Result<Specials> {
    match allowed
    case Named(name) =>
      if name == "all" then Ok(st)
      else if name == "none" then Ok([])
      else if name == "none_raise" then
        if exists k :: 0 <= k < |st| && Occurs(st[k].0, text) then Err(AssertionError) else Ok([])
      else Err(ValueError)
    case Only(names) => Ok(Restrict(st, names))
  }

  /**
    The first of the alternatives `ts` that matches at position `p`, the way
    a regular-expression alternation of escaped literals tries them in order;
    `nonEmpty` rules out an empty match.
  */
  function FirstMatch(ts: seq<string>, text: string, p: nat, nonEmpty: bool): (r: Option<string>)
    requires p <= |text|
    ensures r.Some? ==> r.value in ts && StartsWith(text[p..], r.value) && (nonEmpty ==> r.value != [])
    ensures r.None? ==> forall t :: t in ts && (nonEmpty ==> t != []) ==> !StartsWith(text[p..], t)
    decreases |ts|
  {
    if ts == [] then None
    else if StartsWith(text[p..], ts[0]) && (!nonEmpty || ts[0] != []) then Some(ts[0])
    else FirstMatch(ts[1..], text, p, nonEmpty)
  }

  /**
    `re.findall` from position `p` of a pattern with one capture group around
    the alternatives: the matched strings, left to right and without overlap.
    After an empty match the next match at the same position must not be
    empty; when nothing matches the search moves one character on.
  */
  function Scan(ts: seq<string>, text: string, p: nat, mustAdvance: bool): seq<string>
    requires p <= |text|
    decreases |text| - p, if mustAdvance then 0 else 1
  {
    match FirstMatch(ts, text, p, mustAdvance)
    case Some(t) =>
      if t == [] then [t] + Scan(ts, text, p, true)
      else [t] + Scan(ts, text, p + |t|, false)
    case None =>
      if p == |text| then [] else Scan(ts, text, p + 1, false)
  }

  /** `re.findall("(" + "|".join(re.escape(t) for t in ts) + ")", text)`. */
  function FindAll(ts: seq<string>, text: string): seq<string> {
    Scan(ts, text, 0, false)
  }

  /**
    The loop over the parts `findall` returns: a special token's id, or the
    ordinary encoding of any other part.
  */
  function PartIds(ms: Merges, segment: string -> seq<string>, sp: Specials, parts: seq<string>): seq<int>
    decreases |parts|
  {
    if parts == [] then []
    else
      var part := parts[|parts| - 1];
      PartIds(ms, segment, sp, parts[..|parts| - 1])
        + match Get(sp, part)
          case Some(id) => [id]
          case None => OrdinaryIds(ms, segment(part))
  }

  /** What `encode` returns once the allowed special tokens `sp` are known. */
  function EncodedWith(ms: Merges, segment: string -> seq<string>, sp: Specials, text: string): seq<int> {
    if sp == [] then OrdinaryIds(ms, segment(text))
    else PartIds(ms, segment, sp, FindAll(Keys(sp), text))
  }

  /**
    `encode_ordinary` as the source has it: the chunk's bytes are handed to
    `_encode_chunk`, which calls `.encode("utf-8")` on them, and `bytes` has
    no such method; so the first chunk raises AttributeError.
  */
  function OrdinaryAsWritten(ms: Merges, cs: seq<string>): (r: Result<seq<int>>)
    ensures r.Ok? <==> cs == []
  {
    if cs == [] then Ok([]) else Err(AttributeError)
  }

  class RegexTokenizer {
    const base: Tokenizer
    /** `re.findall(self.compiled_pattern, ·)`, fixed when the tokenizer is made. */
    const segment: string -> seq<string>
    var inverseSpecialTokens: Dict<int, string>

    /**
      `RegexTokenizer(split_pattern)`: the base state, the given pattern (the
      GPT-4 pattern by default) compiled once, and no special tokens.
    */
    constructor (splitPattern: Option<string>, compile: string -> (string -> seq<string>))
      ensures fresh(base)
      ensures base.pattern == (if splitPattern.None? then Gpt4SplitPattern else splitPattern.value)
      ensures segment == compile(base.pattern)
      ensures base.merges == [] && base.specialTokens == [] && base.vocab == BaseVocab()
      ensures inverseSpecialTokens == []
    {
      var pattern := if splitPattern.None? then Gpt4SplitPattern else splitPattern.value;
      base := new Tokenizer();
      segment := compile(pattern);
      inverseSpecialTokens := [];
      new;
      base.pattern := pattern;
    }

    /**
      `train(text, vocab_size)`: like the basic tokenizer's, on the UTF-8
      bytes of each chunk, never counting or merging across two chunks.
    */
    method Train(text: string, vocabSize: int) returns (err: Option<Error>)
      modifies base
      ensures var t := Trained(ChunkBytes(segment(text)), vocabSize);
        && (t.Ok? ==>
              && err == None && base.merges == t.value.0 && base.vocab == t.value.1
              && base.pattern == old(base.pattern) && base.specialTokens == old(base.specialTokens))
        && (t.Err? ==> err == Some(t.error) && unchanged(base))
    {
      if vocabSize < 256 {
        return Some(AssertionError);
      }
      var textChunks := segment(text);
      var indices := ChunkBytes(textChunks);
      var learned := LearnChunks(indices, vocabSize - 256);
      if learned.Err? {
        return Some(learned.error);
      }
      base.merges := learned.value.0;
      base.vocab := learned.value.1;
      return None;
    }

    /**
      `register_special_tokens(special_tokens)`: both maps are replaced; the
      inverse sends each id to the last token registered with it
      (`Dicts.InvertGet`). The table is not rebuilt. The argument is a dict,
      so no token appears twice.
    */
    method RegisterSpecialTokens(st: Specials)
      requires DistinctKeys(st)
      modifies this, base
      ensures base.specialTokens == st && inverseSpecialTokens == Invert(st)
      ensures base.merges == old(base.merges) && base.pattern == old(base.pattern) && base.vocab == old(base.vocab)
    {
      base.specialTokens := st;
      inverseSpecialTokens := Invert(st);
    }

    /** `decode(ids)`: `part_bytes` filled id by id, joined and decoded with replacement. */
    method Decode(ids: seq<int>) returns (r: Result<string>)
      ensures DecodedBytes(base.vocab, inverseSpecialTokens, ids).Ok? ==>
        r == Ok(Utf8.Decode(DecodedBytes(base.vocab, inverseSpecialTokens, ids).value))
      ensures DecodedBytes(base.vocab, inverseSpecialTokens, ids).Err? ==> r == Err(ValueError)
    {
      var textBytes: Bytes := [];
      for i := 0 to |ids|
        invariant DecodedBytes(base.vocab, inverseSpecialTokens, ids[..i]) == Ok(textBytes)
      {
        var idx := ids[i];
        assert ids[..i + 1][..i] == ids[..i];
        if idx in base.vocab {
          textBytes := textBytes + base.vocab[idx];
        } else if Get(inverseSpecialTokens, idx).Some? {
          textBytes := textBytes + Utf8.Encode(Get(inverseSpecialTokens, idx).value);
        } else {
          return Err(ValueError);
        }
      }
      assert ids[..|ids|] == ids;
      return Ok(Utf8.Decode(textBytes));
    }

    /**
      `_encode_chunk` as intended, given the chunk's bytes: the merge loop on
      them. As written, the method first calls `.encode("utf-8")` on the bytes
      it is given and raises AttributeError (see `OrdinaryAsWritten`).
    */
    method EncodeChunk(chunkBytes: Bytes) returns (ids: seq<int>)
      ensures ids == EncodeIds(base.merges, chunkBytes)
    {
      ids := MergeLoop(base.merges, chunkBytes);
    }

    /**
      `encode_ordinary(text)` as intended: the chunks' encodings, concatenated
      in order. As written it raises AttributeError on any text with a chunk;
      `OrdinaryAsWritten` models that.
    */
    method EncodeOrdinary(text: string) returns (ids: seq<int>)
      ensures ids == OrdinaryIds(base.merges, segment(text))
    {
      var textChunks := segment(text);
      ids := [];
      for j := 0 to |textChunks|
        invariant ids == OrdinaryIds(base.merges, textChunks[..j])
      {
        var chunkBytes := Utf8.Encode(textChunks[j]);
        var chunkIds := EncodeChunk(chunkBytes);
        OrdinaryIdsSnoc(base.merges, textChunks, j);
        ids := ids + chunkIds;
      }
      assert textChunks[..|textChunks|] == textChunks;
    }

    /**
      `encode(text, allowed_special_tokens)`: the allowed special tokens, then
      the ordinary encoding when there are none, otherwise the ids of the
      parts `findall` returns. Built on the intended `EncodeOrdinary`: as
      written, the path without special tokens raises AttributeError whenever
      the text has a chunk, as `OrdinaryAsWritten` does.
    */
    method Encode(text: string, allowed: Allowed) returns (r: Result<seq<int>>)
      ensures AllowedSpecials(base.specialTokens, allowed, text).Err? ==>
        r == Err(AllowedSpecials(base.specialTokens, allowed, text).error)
      ensures AllowedSpecials(base.specialTokens, allowed, text).Ok? ==>
        r == Ok(EncodedWith(base.merges, segment, AllowedSpecials(base.specialTokens, allowed, text).value, text))
    {
      var specialTokens: Specials;
      if allowed == Named("all") {
        specialTokens := base.specialTokens;
      } else if allowed == Named("none") {
        specialTokens := [];
      } else if allowed == Named("none_raise") {
        specialTokens := [];
        if exists k :: 0 <= k < |base.specialTokens| && Occurs(base.specialTokens[k].0, text) {
          return Err(AssertionError);
        }
      } else if allowed.Only? {
        specialTokens := Restrict(base.specialTokens, allowed.tokens);
      } else {
        return Err(ValueError);
      }
      if specialTokens == [] {
        var ids := EncodeOrdinary(text);
        return Ok(ids);
      }
      var specialChunks := FindAll(Keys(specialTokens), text);
      var ids := [];
      for j := 0 to |specialChunks|
        invariant ids == PartIds(base.merges, segment, specialTokens, specialChunks[..j])
      {
        var part := specialChunks[j];
        assert specialChunks[..j + 1][..j] == specialChunks[..j];
        var id := Get(specialTokens, part);
        if id.Some? {
          ids := ids + [id.value];
        } else {
          var partIds := EncodeOrdinary(part);
          ids := ids + partIds;
        }
      }
      assert specialChunks[..|specialChunks|] == specialChunks;
      return Ok(ids);
    }
  }

  /** The training loop over chunks: count over all chunks, pick, merge every chunk. */
  method LearnChunks(chunks: seq<seq<int>>, nMerges: nat) returns (r: Result<(Merges, Vocab)>)
    ensures r == Learn(chunks, 0, nMerges, [], BaseVocab())
  {
    var indices := chunks;
    var merges: Merges := [];
    var vocab := BaseVocab();
    for i := 0 to nMerges
      invariant Learn(indices, i, nMerges, merges, vocab) == Learn(chunks, 0, nMerges, [], BaseVocab())
    {
      var idx := 256 + i;
      var freqs := CountChunks(indices);
      if freqs == [] {
        return Err(ValueError);
      }
      var pair := freqs[MostFrequent(freqs)].0;
      indices := MergeAll(indices, pair, idx);
      merges := Put(merges, pair, idx);
      if pair.0 !in vocab || pair.1 !in vocab {
        return Err(KeyError);
      }
      vocab := vocab[idx := vocab[pair.0] + vocab[pair.1]];
    }
    return Ok((merges, vocab));
  }

  /** `for chunk_ids in indices: get_pair_frequencies(chunk_ids, byte_pair_freqs)`, from an empty dict. */
  method CountChunks(chunks: seq<seq<int>>) returns (c: Counts)
    ensures c == TallyChunks([], chunks)
  {
    c := [];
    for j := 0 to |chunks|
      invariant TallyChunks(c, chunks[j..]) == TallyChunks([], chunks)
    {
      assert chunks[j..][1..] == chunks[j + 1..];
      c := GetPairFrequencies(chunks[j], Some(c));
    }
    assert chunks[|chunks|..] == [];
  }

  /** `[merge_pair(chunk_ids, pair, idx) for chunk_ids in indices]`. */
  method MergeAll(chunks: seq<seq<int>>, pair: Pair, idx: int) returns (r: seq<seq<int>>)
    ensures r == MergeChunks(chunks, pair, idx)
  {
    r := [];
    for j := 0 to |chunks|
      invariant |r| == j && forall k :: 0 <= k < j ==> r[k] == Merge(chunks[k], pair, idx)
    {
      var merged := MergePair(chunks[j], pair, idx);
      r := r + [merged];
    }
  }

  // ----- Lemmas -----

  /** Decoding looks in the table first: ids all in the table decode to their joined bytes. */
  lemma {:induction false} DecodedFromTable(v: Vocab, inverse: Dict<int, string>, ids: seq<int>)
    requires forall i :: 0 <= i < |ids| ==> ids[i] in v
    ensures DecodedBytes(v, inverse, ids) == Join(v, ids)
    decreases |ids|
  {
    if ids != [] {
      var init, last := ids[..|ids| - 1], ids[|ids| - 1];
      DecodedFromTable(v, inverse, init);
      assert ids == init + [last];
      assert forall i :: 0 <= i < |init| ==> init[i] == ids[i];
      JoinCons(v, last, []);
      assert [last] + [] == [last] && v[last] + [] == v[last];
      JoinAppend(v, init, [last]);
    }
  }

  /** An id only the inverse map knows decodes to its special token's UTF-8 bytes. */
  lemma DecodedSpecial(v: Vocab, inverse: Dict<int, string>, idx: int)
    requires idx !in v && Get(inverse, idx).Some?
    ensures DecodedBytes(v, inverse, [idx]) == Ok(Utf8.Encode(Get(inverse, idx).value))
  {
    assert [idx][..0] == [];
    assert [] + Utf8.Encode(Get(inverse, idx).value) == Utf8.Encode(Get(inverse, idx).value);
  }

  /**
    The ordinary encoding joins back to the UTF-8 bytes of the concatenated
    chunks, when the table keeps the byte ids and gives each merge id the
    bytes of its pair.
  */
  lemma {:induction false} OrdinaryJoin(v: Vocab, ms: Merges, cs: seq<string>)
    requires Consistent(v, ms) && KeepsBytes(v)
    ensures Join(v, OrdinaryIds(ms, cs)) == Ok(Utf8.Encode(Concat(cs)))
    decreases |cs|
  {
    if cs != [] {
      var init, last := cs[..|cs| - 1], cs[|cs| - 1];
      OrdinaryJoin(v, ms, init);
      EncodeRoundTrip(v, ms, last);
      JoinAppend(v, OrdinaryIds(ms, init), EncodeIds(ms, Utf8.Encode(last)));
      Utf8.EncodeAppend(Concat(init), last);
    }
  }

  /**
    When the chunks of the text put together give the text back, decoding
    its ordinary encoding gives the text back, whatever the special tokens.
  */
  lemma OrdinaryRoundTrip(v: Vocab, ms: Merges, inverse: Dict<int, string>, cs: seq<string>, text: string)
    requires Consistent(v, ms) && KeepsBytes(v) && Concat(cs) == text
    ensures DecodedBytes(v, inverse, OrdinaryIds(ms, cs)) == Ok(Utf8.Encode(text))
    ensures Utf8.Decode(DecodedBytes(v, inverse, OrdinaryIds(ms, cs)).value) == text
  {
    OrdinaryJoin(v, ms, cs);
    DecodedFromTable(v, inverse, OrdinaryIds(ms, cs));
    Utf8.DecodeEncode(text);
  }

  /** One chunk more appends that chunk's encoding. */
  lemma OrdinaryIdsSnoc(ms: Merges, cs: seq<string>, j: nat)
    requires j < |cs|
    ensures OrdinaryIds(ms, cs[..j + 1]) == OrdinaryIds(ms, cs[..j]) + EncodeIds(ms, Utf8.Encode(cs[j]))
  {
    var q := cs[..j + 1];
    assert q[..|q| - 1] == cs[..j] && q[|q| - 1] == cs[j];
  }

  /** Text without chunks encodes to no ids. */
  lemma OrdinaryNoChunks(ms: Merges)
    ensures OrdinaryIds(ms, []) == []
  {
  }

  /** `t` sits at position `i` of `s`. */
  predicate FoundAt(t: string, s: string, i: int) {
    0 <= i && i + |t| <= |s| && s[i..i + |t|] == t
  }

  /** `t in s` holds exactly when `t` is found at some position of `s`. */
  lemma {:induction false} OccursAt(t: string, s: string)
    ensures Occurs(t, s) <==> exists i :: FoundAt(t, s, i)
    decreases |s|
  {
    if StartsWith(s, t) {
      assert FoundAt(t, s, 0);
    } else if s != [] {
      OccursAt(t, s[1..]);
      if Occurs(t, s[1..]) {
        var i :| FoundAt(t, s[1..], i);
        assert s[1..][i..i + |t|] == s[i + 1..i + 1 + |t|];
        assert FoundAt(t, s, i + 1);
      }
      if exists i :: FoundAt(t, s, i) {
        var i :| FoundAt(t, s, i);
        assert i != 0;
        assert s[1..][i - 1..i - 1 + |t|] == s[i..i + |t|];
        assert FoundAt(t, s[1..], i - 1);
      }
    }
  }

  /** Restricting into `acc` gives a kept key its value in `st` and leaves every other key as `acc` had it. */
  lemma {:induction false} RestrictIntoGet(acc: Specials, st: Specials, names: set<string>, k: string)
    requires DistinctKeys(st)
    ensures Get(RestrictInto(acc, st, names), k) == if k in names && k in Keys(st) then Get(st, k) else Get(acc, k)
    decreases |st|
  {
    if st != [] {
      var (k0, v0) := st[0];
      var acc' := if k0 in names then Put(acc, k0, v0) else acc;
      RestrictIntoGet(acc', st[1..], names, k);
      if k == k0 {
        if k0 in names {
          PutFacts(acc, k0, v0);
        }
      } else if k0 in names {
        PutOther(acc, k0, v0, k);
      }
    }
  }

  /** A set keeps exactly the registered tokens it names, with their ids. */
  lemma RestrictGet(st: Specials, names: set<string>, k: string)
    requires DistinctKeys(st)
    ensures Get(Restrict(st, names), k) == if k in names then Get(st, k) else None
  {
    RestrictIntoGet([], st, names, k);
  }

  /** Every part `findall` returns is one of the alternatives. */
  lemma {:induction false} ScanTokens(ts: seq<string>, text: string, p: nat, mustAdvance: bool)
    requires p <= |text|
    ensures forall x :: x in Scan(ts, text, p, mustAdvance) ==> x in ts
    decreases |text| - p, if mustAdvance then 0 else 1
  {
    match FirstMatch(ts, text, p, mustAdvance)
    case Some(t) =>
      if t == [] {
        ScanTokens(ts, text, p, true);
      } else {
        ScanTokens(ts, text, p + |t|, false);
      }
    case None =>
      if p < |text| {
        ScanTokens(ts, text, p + 1, false);
      }
  }

  /** When no alternative occurs in the rest of the text, `findall` finds nothing there. */
  lemma {:induction false} ScanNone(ts: seq<string>, text: string, p: nat, mustAdvance: bool)
    requires p <= |text| && forall t :: t in ts ==> !Occurs(t, text[p..])
    ensures Scan(ts, text, p, mustAdvance) == []
    decreases |text| - p
  {
    forall t | t in ts ensures !StartsWith(text[p..], t) {
      assert !Occurs(t, text[p..]);
    }
    assert FirstMatch(ts, text, p, mustAdvance).None?;
    if p < |text| {
      forall t | t in ts ensures !Occurs(t, text[p + 1..]) {
        assert text[p..][1..] == text[p + 1..];
      }
      ScanNone(ts, text, p + 1, false);
    }
  }

  /** With allowed special tokens, `encode` returns just their ids, one per match, in match order. */
  lemma {:induction false} PartIdsSpecial(ms: Merges, segment: string -> seq<string>, sp: Specials, parts: seq<string>)
    requires forall x :: x in parts ==> x in Keys(sp)
    ensures |PartIds(ms, segment, sp, parts)| == |parts|
    ensures forall i :: 0 <= i < |parts| ==> Get(sp, parts[i]) == Some(PartIds(ms, segment, sp, parts)[i])
    decreases |parts|
  {
    if parts != [] {
      var init, last := parts[..|parts| - 1], parts[|parts| - 1];
      assert forall x :: x in init ==> x in parts;
      PartIdsSpecial(ms, segment, sp, init);
      assert last in parts;
      var id := Get(sp, last).value;
      var prev := PartIds(ms, segment, sp, init);
      assert PartIds(ms, segment, sp, parts) == prev + [id];
      forall i | 0 <= i < |parts| ensures Get(sp, parts[i]) == Some((prev + [id])[i]) {
        if i < |init| {
          assert parts[i] == init[i];
        }
      }
    }
  }

  /**
    With a non-empty map of allowed special tokens, `encode` returns the ids
    of the special tokens found in the text, left to right, one per match,
    and nothing for the text around them; text in which none of them occurs
    encodes to no ids at all.
  */
  lemma EncodeOnlySpecials(ms: Merges, segment: string -> seq<string>, sp: Specials, text: string)
    requires sp != []
    ensures var parts := FindAll(Keys(sp), text);
      && |EncodedWith(ms, segment, sp, text)| == |parts|
      && (forall i :: 0 <= i < |parts| ==> Get(sp, parts[i]) == Some(EncodedWith(ms, segment, sp, text)[i]))
    ensures (forall k :: 0 <= k < |sp| ==> !Occurs(sp[k].0, text)) ==> EncodedWith(ms, segment, sp, text) == []
  {
    var parts := FindAll(Keys(sp), text);
    ScanTokens(Keys(sp), text, 0, false);
    PartIdsSpecial(ms, segment, sp, parts);
    if forall k :: 0 <= k < |sp| ==> !Occurs(sp[k].0, text) {
      forall t | t in Keys(sp) ensures !Occurs(t, text[0..]) {
        var k :| 0 <= k < |sp| && Keys(sp)[k] == t;
        KeyAt(sp, k);
        assert text[0..] == text;
      }
      ScanNone(Keys(sp), text, 0, false);
    }
  }

  /** The parts that are not special tokens are left out: with one allowed token absent from the text, nothing is encoded. */
  lemma DroppedText(ms: Merges, segment: string -> seq<string>)
    ensures EncodedWith(ms, segment, [("<|endoftext|>", 100257)], "hello") == []
  {
    var sp := [("<|endoftext|>", 100257)];
    assert !Occurs("<|endoftext|>", "hello") by {
      OccursAt("<|endoftext|>", "hello");
    }
    EncodeOnlySpecials(ms, segment, sp, "hello");
  }

  /** The source's `encode_ordinary` fails on any text with a chunk, where the intended one encodes it. */
  lemma OrdinaryAsWrittenFails(ms: Merges)
    ensures OrdinaryAsWritten(ms, ["a"]) == Err(AttributeError)
    ensures OrdinaryIds(ms, ["a"]) == [97]
  {
    assert Utf8.Encode("a") == [97];
    assert ["a"][..0] == [];
  }
}
