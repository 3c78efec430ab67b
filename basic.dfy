/**
  `BasicTokenizer` (minbpe/basic_tokenizer.py): byte-level BPE on the whole
  text, without splitting it into chunks and without special tokens. Its
  state is the state of the base `Tokenizer`, held in `base`.
*/
module Basic {
  import opened Wrappers
  import opened Dicts
  import opened Counting
  import opened Merging
  import opened Vocabulary
  import opened BpeCore
  import opened Base
  import Utf8

  class BasicTokenizer {
    const base: Tokenizer

    /** `BasicTokenizer()`: the base tokenizer's empty state. */
    constructor ()
      ensures fresh(base)
      ensures base.merges == [] && base.pattern == "" && base.specialTokens == [] && base.vocab == BaseVocab()
    {
      base := new Tokenizer();
    }

    /**
      `train(text, vocab_size)`: AssertionError below 256; otherwise
      `vocab_size - 256` rounds on the text's bytes. The merges and the table
      replace the old ones only when every round succeeds.
    */
    method Train(text: string, vocabSize: int) returns (err: Option<Error>)
      modifies base
      ensures var t := Trained([Utf8.Encode(text)], vocabSize);
        && (t.Ok? ==>
              && err == None && base.merges == t.value.0 && base.vocab == t.value.1
              && base.pattern == old(base.pattern) && base.specialTokens == old(base.specialTokens))
        && (t.Err? ==> err == Some(t.error) && unchanged(base))
    {
      if vocabSize < 256 {
        return Some(AssertionError);
      }
      var learned := LearnText(Utf8.Encode(text), vocabSize - 256);
      if learned.Err? {
        return Some(learned.error);
      }
      base.merges := learned.value.0;
      base.vocab := learned.value.1;
      return None;
    }

    /** `encode(text)`: the merge loop on the text's UTF-8 bytes. */
    method Encode(text: string) returns (ids: seq<int>)
      ensures ids == EncodeIds(base.merges, Utf8.Encode(text))
    {
      ids := MergeLoop(base.merges, Utf8.Encode(text));
    }

    /**
      `decode(ids)`: the bytes of the ids, decoded with replacement; an id
      missing from the table raises KeyError.
    */
    function Decode(ids: seq<int>): (r: Result<string>)
      reads this, base
      ensures r.Ok? <==> forall i :: 0 <= i < |ids| ==> ids[i] in base.vocab
      ensures r.Err? ==> r.error == KeyError
    {
      match Join(base.vocab, ids)
      case Ok(b) => Ok(Utf8.Decode(b))
      case Err(e) => Err(e)
    }
  }

  /**
    The loop of `train`: each round counts the pairs of `ids`, takes the most
    frequent one, gives it the next id, replaces it and extends the table.
  */
  method LearnText(bytes: seq<int>, nMerges: nat) returns (r: Result<(Merges, Vocab)>)
    ensures r == Learn([bytes], 0, nMerges, [], BaseVocab())
  {
    var ids := bytes;
    var merges: Merges := [];
    var vocab := BaseVocab();
    for i := 0 to nMerges
      invariant Learn([ids], i, nMerges, merges, vocab) == Learn([bytes], 0, nMerges, [], BaseVocab())
    {
      var idx := 256 + i;
      var freqs := GetPairFrequencies(ids, None);
      OneChunk(ids);
      if freqs == [] {
        return Err(ValueError);
      }
      var pair := freqs[MostFrequent(freqs)].0;
      merges := Put(merges, pair, idx);
      OneChunkMerged(ids, pair, idx);
      ids := MergePair(ids, pair, idx);
      if pair.0 !in vocab || pair.1 !in vocab {
        return Err(KeyError);
      }
      vocab := vocab[idx := vocab[pair.0] + vocab[pair.1]];
    }
    return Ok((merges, vocab));
  }

  // ----- Lemmas -----

  /** A single chunk counts its own pairs. */
  lemma OneChunk(ids: seq<int>)
    ensures TallyChunks([], [ids]) == Tally([], Pairs(ids))
  {
    assert [ids][1..] == [];
  }

  lemma OneChunkMerged(ids: seq<int>, pair: Pair, idx: int)
    ensures MergeChunks([ids], pair, idx) == [Merge(ids, pair, idx)]
  {
  }

  /**
    Encoding then decoding gives back the text whenever the table keeps the
    byte ids and gives each merge id the bytes of its pair, as training makes it.
  */
  lemma RoundTrip(t: BasicTokenizer, text: string)
    requires Consistent(t.base.vocab, t.base.merges) && KeepsBytes(t.base.vocab)
    ensures t.Decode(EncodeIds(t.base.merges, Utf8.Encode(text))) == Ok(text)
  {
    EncodeRoundTrip(t.base.vocab, t.base.merges, text);
  }

  /** What training leaves behind meets the conditions of the round trip, with `vocab_size` ids. */
  lemma TrainedRoundTrip(text: string, vocabSize: int, other: string)
    requires Trained([Utf8.Encode(text)], vocabSize).Ok?
    ensures var (ms, v) := Trained([Utf8.Encode(text)], vocabSize).value;
      |v| == vocabSize && Join(v, EncodeIds(ms, Utf8.Encode(other))) == Ok(Utf8.Encode(other))
  {
    var chunks: seq<seq<int>> := [Utf8.Encode(text)];
    TrainedConsistent(chunks, vocabSize);
    var (ms, v) := Trained(chunks, vocabSize).value;
    EncodeRoundTrip(v, ms, other);
  }
}
