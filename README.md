# minbpe tokenizers in Dafny

This project models the byte-pair-encoding (BPE) tokenizers of the `minbpe` package and proves properties of the model.

- **`Tokenizer`** (`minbpe/base.py`) is the shared state: learned merges, a split pattern, special tokens and the vocabulary built from them. Beside it sit the helpers that count adjacent pairs, replace a pair by a new id and escape control characters. It also defines the `.model` file that `save` writes and `load` reads.
- **`BasicTokenizer`** (`minbpe/basic_tokenizer.py`) trains, encodes and decodes on the raw UTF-8 bytes of the whole text.
- **`RegexTokenizer`** (`minbpe/regex_tokenizer.py`) first splits the text into chunks with a regular expression. It trains and encodes chunk by chunk, and handles special tokens under four encoding policies.
- **`GPT4Tokenizer`** (`minbpe/gpt4_bpe_tokenizer.py`) rebuilds the GPT-4 merges from a table of mergeable ranks with the `bpe`/`recover_merges` pair. It permutes the byte ids the way that table numbers them. It refuses `save` and `load`.

## Modules

| module | what it holds |
|---|---|
| `Wrappers` | `Option`, `Result` and the Python exceptions the core raises (`AssertionError`, `ValueError`, `KeyError`, `NotImplementedError`, `AttributeError`) |
| `Dicts` | a Python `dict` as an association list in insertion order (`Get`, `Put`, `Keys`, `Invert`) |
| `Utf8` | `str.encode("utf-8")`, and `bytes.decode("utf-8", errors="replace")` with one U+FFFD per maximal ill-formed subpart |
| `Text` | `strip`, `split`, `int`, `str` of an integer, line splitting, `"".join` |
| `Counting` | `get_pair_frequencies` |
| `Merging` | `merge_pair` |
| `Vocabulary` | the byte table, `_build_vocab`, joining the bytes of ids |
| `ControlChars` | `replace_control_characters` |
| `ModelFile` | the `.model` file's text and its parser |
| `Base` | class `Tokenizer` |
| `BpeCore` | the training rounds and the encoding loop that the basic and regex tokenizers share |
| `Basic` | class `BasicTokenizer` |
| `Regex` | class `RegexTokenizer` |
| `Gpt4` | class `GPT4Tokenizer` and the merge recovery |

### How the model is built

- **Inheritance.** A subclass holds its superclass's state as a `const` field: `BasicTokenizer.base`, `RegexTokenizer.base`, `Gpt4Tokenizer.regex`.
- **Dictionaries keep insertion order.** That order decides two things:
  - the tie-break of `max` and `min`, which take the first best key in iteration order;
  - the order of the lines in the model file.
- **External inputs are parameters.**
  - The compiled regular expression is a function `string -> seq<string>`, given by `compile`.
  - Unicode general categories are a function `char -> Category`.
  - The tiktoken rank table is a `Dict<Bytes, int>`.
  - A file's content is a `string`.

### Behaviour worth knowing

The model follows the code in each of these.

- **Tie-break.** Among equally frequent pairs, training takes the one counted first, not the smallest pair (`max` over dict keys, `minbpe/basic_tokenizer.py:134`).
- **Running out of pairs.** When no pairs are left, training does not stop early. `max` of an empty sequence raises ValueError and nothing is stored (`BpeCore.TrainNoPairs`).
- **Order of merges when encoding.** Encoding does not replay the merges in learned order. Each round merges every occurrence of the present pair with the lowest merge id (`minbpe/basic_tokenizer.py:242-252`).
- **Registering special tokens.** `register_special_tokens` replaces the whole table. It does not check for conflicting ids.
- **Error on an unknown id.** `BasicTokenizer.decode` raises KeyError on an unknown id; `RegexTokenizer.decode` raises ValueError.
- **Special ids in GPT-4 decoding.** `GPT4Tokenizer.decode` looks only in the vocabulary, so the ids of its special tokens raise KeyError (`Gpt4.SpecialNotDecoded`).
- **`load` on a regex tokenizer leaves the inverse special-token map stale.** The inherited `load` replaces `special_tokens` but never touches `inverse_special_tokens` (`minbpe/base.py:528-531`). The model keeps that: `Base.Tokenizer.Load` changes only the base state. The special ids read from the file still decode, because the rebuilt vocabulary holds them and `decode` looks there first. But an id registered before the load and absent from the file still decodes to its old token through the stale map, where a freshly built tokenizer would raise ValueError.
- **Text around special tokens is dropped.** `encode` with special tokens enabled calls `re.findall` with a single capture group. That returns only the special tokens found, so the text between them is dropped (`Regex.DroppedText`).

## Model

| member | source | states |
|---|---|---|
| `Dicts.InvertGet` | minbpe/regex_tokenizer.py:232 | the inverted dict maps a value to the key of the last entry holding it, and has no entry for a value no entry holds |
| `Counting.Pairs` | minbpe/base.py:65 | `zip(ids, ids[1:])`: one pair fewer than ids (none below two), the i-th pair being ids i and i+1 |
| `Counting.GetPairFrequencies` | minbpe/base.py:64-67 | the result is the given counts (or an empty dict) with one added for each adjacent pair, in order |
| `Counting.TallyCount` | minbpe/base.py:64-67 | each pair's count grows by the number of times it occurs adjacently |
| `Counting.TallyTotal` | minbpe/base.py:64-67 | the counts together grow by the number of adjacent pairs |
| `Counting.TallyKeys` | minbpe/base.py:64-67 | no pair is counted under two keys, keys already present keep their places, and the keys are exactly the old ones and the pairs seen |
| `Counting.PairFrequencies` | minbpe/base.py:64-67 | over a sequence of ids: total grows by len-1, each pair by its occurrences, and fewer than two ids leave the counts as they were |
| `Merging.Merge` | minbpe/base.py:106-115 | replacing a pair never makes the sequence longer |
| `Merging.MergePair` | minbpe/base.py:106-115 | the loop computes the left-to-right, non-overlapping replacement `Merge` |
| `Merging.MergeShorter` | minbpe/base.py:106-115 | the sequence comes back unchanged exactly when the pair does not occur, and shorter exactly when it does |
| `Merging.MergeCount` | minbpe/base.py:106-115 | with a new id, each occurrence of it in the result stands for two ids of the input |
| `Merging.ExpandMerge` | minbpe/base.py:106-115 | with a new id, expanding it back into the pair gives the input again |
| `Merging.MergePairs` | minbpe/base.py:106-115 | afterwards the pair no longer occurs, and every new adjacent pair involves the new id |
| `Merging.MergeIds` | minbpe/base.py:106-115 | the result holds only ids of the input and the new id |
| `ControlChars.ReplaceControlCharacters` | minbpe/base.py:157-163 | the loop escapes each character of category C* and keeps every other one |
| `ControlChars.ReplacedOne` | minbpe/base.py:159-162 | a control character becomes `\u` and its code in hex; any other character stays |
| `ControlChars.ReplacedAppend` | minbpe/base.py:157-163 | the replacement works character by character: that of a concatenation is the concatenation of the replacements |
| `ControlChars.ReplacedUnchanged` | minbpe/base.py:157-163 | a string with no control character comes back unchanged |
| `ControlChars.HexValueOf` | minbpe/base.py:162 | the hexadecimal digits written read back as the number |
| `ControlChars.Hex4Value` | minbpe/base.py:162 | `{:04x}` reads back as the code point and has exactly four digits below 0x10000 |
| `Utf8.EncodeAppend` | minbpe/basic_tokenizer.py:124 | the encoding of a concatenation is the concatenation of the encodings |
| `Utf8.DecodeEncode` | minbpe/basic_tokenizer.py:186 | decoding with replacement gives back every string that was encoded |
| `Text.ParseIntToString` | minbpe/base.py:517 | `int(str(n))` gives back `n`, negative numbers included |
| `Text.LinesOfTerminated` | minbpe/base.py:429-440 | reading back lines written each followed by "\n" gives those lines |
| `Vocabulary.Join` | minbpe/basic_tokenizer.py:185 | joining succeeds exactly when every id is in the table; otherwise KeyError |
| `Vocabulary.BaseVocabShape` | minbpe/base.py:270 | the initial table has exactly the ids 0..255, each standing for its own byte |
| `Vocabulary.JoinBytes` | minbpe/basic_tokenizer.py:185 | with byte ids that stand for themselves, joining byte ids gives those bytes |
| `Vocabulary.JoinMerge` | minbpe/base.py:272 | replacing a pair by an id that stands for the pair's bytes leaves the joined bytes unchanged |
| `Vocabulary.JoinAppend` | minbpe/basic_tokenizer.py:185 | joining a concatenation concatenates the joins |
| `Vocabulary.ExtendError` | minbpe/base.py:271-272 | the only way to build the merges' entries can fail is KeyError |
| `Vocabulary.ExtendChained` | minbpe/base.py:271-272 | merges numbered on from m, each joining earlier ids, extend an m-entry table to one more entry per merge, consistent with every merge |
| `Vocabulary.BuildChained` | minbpe/base.py:270-272 | merges numbered from 256 build a table of 256 + len(merges) ids, keeping the byte ids, each merge id standing for its pair's bytes |
| `Vocabulary.AddSpecialsOther` | minbpe/base.py:273-274 | an id no special token uses keeps its entry |
| `Vocabulary.AddSpecialsLast` | minbpe/base.py:273-274 | a special token's id (the last token using it) stands for the token's UTF-8 bytes |
| `Vocabulary.VocabOfError` | minbpe/base.py:270-275 | building the vocabulary fails only with KeyError |
| `ModelFile.SpecialLines` | minbpe/base.py:436-437 | one "token id" line per special token, in order |
| `ModelFile.MergeLines` | minbpe/base.py:439-440 | one "id1 id2" line per merge, in order |
| `ModelFile.SpecialEntryOf` | minbpe/base.py:519-520 | a written special-token line (token non-empty, without whitespace) parses back to the entry |
| `ModelFile.MergeEntryOf` | minbpe/base.py:524 | a written merge line parses back to its pair |
| `ModelFile.SaveLoad` | minbpe/base.py:429-440 | loading the content `save` writes gives back pattern, special tokens and merges, for a single-line pattern without surrounding whitespace, tokens without whitespace and merges numbered from 256 |
| `ModelFile.ReadBack` | minbpe/base.py:506-526 | the lines laid out as `save` writes them parse back to the model |
| `ModelFile.LoadedShape` | minbpe/base.py:513-526 | whatever `load` accepts has distinct special tokens and distinct merges whose ids lie in 256 .. 255 + the number of merge lines; when no pair repeats, the merges are the lines' pairs in line order with ids 256, 257, ... |
| `ModelFile.ReadMergesFresh` | minbpe/base.py:520-524 | the merge loop over lines that repeat no pair appends each pair with the next id, in line order |
| `ModelFile.LoadedLastId` | minbpe/base.py:520-524 | a pair read on several merge lines has the id of the last of them: 256 plus the number of merge lines before it |
| `ModelFile.LoadedFirstPlace` | minbpe/base.py:520-524 | a pair read on several merge lines keeps the place of the first of them, right after the pairs read on the merge lines before it |
| `Base.Tokenizer.constructor` | minbpe/base.py:244-247 | no merges, empty pattern, no special tokens, the 256 byte tokens |
| `Base.Tokenizer.BuildVocab` | minbpe/base.py:270-275 | the loop builds the byte table, extended by every merge and then every special token, or KeyError |
| `Base.Tokenizer.Save` | minbpe/base.py:426-440 | the file is `prefix.model` and holds the version, the pattern, the count and lines of special tokens, then the merges |
| `Base.WriteSpecialLines` | minbpe/base.py:436-437 | the loop appends one terminated line per special token |
| `Base.WriteMergeLines` | minbpe/base.py:439-440 | the loop appends one terminated line per merge |
| `Base.Tokenizer.Load` | minbpe/base.py:506-531 | AssertionError for a name not ending in .model and errors of the parser leave the tokenizer alone; otherwise merges, pattern and special tokens are replaced, and the vocabulary rebuilt or KeyError |
| `Base.Tokenizer.Install` | minbpe/base.py:528-531 | the parsed fields replace the current ones and the vocabulary is rebuilt, or stays on KeyError |
| `Base.ReadModel` | minbpe/base.py:510-517 | "minbpe v1" is required (AssertionError) and the count must be an integer (ValueError) |
| `Base.ReadBody` | minbpe/base.py:516-526 | the special-token lines, then every further line is a merge |
| `Base.ReadSpecialTokens` | minbpe/base.py:518-520 | the loop reads `n` "token id" entries, ValueError on a malformed one |
| `Base.ReadMergeLines` | minbpe/base.py:522-526 | the loop numbers the merge lines 256, 257, ..., ValueError on a malformed one |
| `Base.VocabOfChained` | minbpe/base.py:270-275 | with merges numbered from 256, the vocabulary holds exactly the ids below 256 + len(merges) plus the special ids, each special id standing for its token's bytes |
| `BpeCore.MostFrequent` | minbpe/basic_tokenizer.py:134 | `max` by count: a largest count, and the first such key in iteration order |
| `BpeCore.LowestRanked` | minbpe/basic_tokenizer.py:245 | `min` by merge id with infinity for unknown pairs: a smallest, and the first such pair |
| `BpeCore.PairKeysOf` | minbpe/basic_tokenizer.py:244-245 | the keys counted are exactly the adjacent pairs, without repetition, and there is one whenever two ids remain |
| `BpeCore.MergeLoop` | minbpe/basic_tokenizer.py:242-253 | the loop computes `EncodeIds`: merge the lowest-ranked pair while it is learned |
| `BpeCore.EncodeJoin` | minbpe/basic_tokenizer.py:242-253 | when every merge id stands for its pair's bytes, encoding does not change the bytes the ids stand for |
| `BpeCore.EncodeFinal` | minbpe/basic_tokenizer.py:248-249 | when encoding stops, no adjacent pair is a learned merge |
| `BpeCore.NoMergesEncode` | minbpe/basic_tokenizer.py:240-253 | without merges the ids are the text's bytes |
| `BpeCore.EncodeRoundTrip` | minbpe/basic_tokenizer.py:185-186 | decoding the encoding of a text gives the text back, for a consistent table that keeps the byte ids |
| `BpeCore.TallyChunksOf` | minbpe/regex_tokenizer.py:181-183 | counting over all chunks gives each pair its total number of occurrences, and the keys are the pairs of some chunk |
| `BpeCore.PickedMostFrequent` | minbpe/regex_tokenizer.py:184 | the chosen pair occurs at least as often as any pair, and more often than the pairs counted before it |
| `BpeCore.TrainedShape` | minbpe/basic_tokenizer.py:116-143 | AssertionError below 256, otherwise only ValueError; a success has vocab_size - 256 merges numbered from 256, and the table `_build_vocab` would build from them |
| `BpeCore.FirstMergeMostFrequent` | minbpe/regex_tokenizer.py:179-187 | the first merge is a most frequent pair of the input |
| `BpeCore.TrainedConsistent` | minbpe/basic_tokenizer.py:130-137 | after training the vocabulary has exactly vocab_size ids, keeps the bytes and gives each merge its pair's bytes |
| `BpeCore.TrainNoPairs` | minbpe/basic_tokenizer.py:133-134 | a merge asked of a text without pairs raises ValueError |
| `BpeCore.TrainNothing` | minbpe/basic_tokenizer.py:116-131 | vocab_size 256 learns no merges and keeps the byte table |
| `Basic.BasicTokenizer.constructor` | minbpe/base.py:244-247 | the base tokenizer's empty state |
| `Basic.BasicTokenizer.Train` | minbpe/basic_tokenizer.py:116-143 | the merges and table become those of training on the text's bytes, or the error is returned and nothing changes |
| `Basic.LearnText` | minbpe/basic_tokenizer.py:124-140 | the loop performs the training rounds on one sequence of bytes |
| `Basic.BasicTokenizer.Encode` | minbpe/basic_tokenizer.py:240-253 | the ids are the merge loop on the text's UTF-8 bytes |
| `Basic.BasicTokenizer.Decode` | minbpe/basic_tokenizer.py:185-187 | decoding succeeds exactly when every id is in the table, otherwise KeyError |
| `Basic.RoundTrip` | minbpe/basic_tokenizer.py:185-187 | `decode(encode(text)) == text` for a consistent table that keeps the byte ids |
| `Basic.TrainedRoundTrip` | minbpe/basic_tokenizer.py:116-143 | after training, the table has vocab_size ids and the encoding of any text joins back to its bytes |
| `Regex.ChunkBytes` | minbpe/regex_tokenizer.py:173 | one byte sequence per chunk, its UTF-8 encoding |
| `Regex.RegexTokenizer.constructor` | minbpe/regex_tokenizer.py:109-113 | the GPT-4 pattern unless one is given, compiled; empty merges and special tokens, byte table |
| `Regex.RegexTokenizer.Train` | minbpe/regex_tokenizer.py:162-194 | merges and table become those of training on the chunks' bytes, or the error is returned and nothing changes |
| `Regex.LearnChunks` | minbpe/regex_tokenizer.py:176-188 | the loop performs the training rounds over all chunks |
| `Regex.CountChunks` | minbpe/regex_tokenizer.py:181-183 | the loop counts the pairs of every chunk into one dict |
| `Regex.MergeAll` | minbpe/regex_tokenizer.py:186 | the loop replaces the pair in every chunk |
| `Regex.RegexTokenizer.RegisterSpecialTokens` | minbpe/regex_tokenizer.py:231-232 | given a dict (no token twice), the special tokens are replaced and their inverse rebuilt, nothing else changes |
| `Regex.DecodedBytes` | minbpe/regex_tokenizer.py:284-291 | succeeds exactly when every id is in the vocabulary or a special id; otherwise ValueError |
| `Regex.DecodedFromTable` | minbpe/regex_tokenizer.py:286-287 | ids all in the vocabulary decode as the vocabulary joins them |
| `Regex.DecodedSpecial` | minbpe/regex_tokenizer.py:288-289 | an id only the special tokens know stands for its token's UTF-8 bytes |
| `Regex.RegexTokenizer.Decode` | minbpe/regex_tokenizer.py:284-294 | the loop yields the replacement-decoded bytes, or ValueError |
| `Regex.RegexTokenizer.EncodeChunk` | minbpe/regex_tokenizer.py:329-339 | as intended (corrected member of the first Findings row): the merge loop on the chunk's bytes |
| `Regex.RegexTokenizer.EncodeOrdinary` | minbpe/regex_tokenizer.py:380-386 | as intended (corrected member of the first Findings row): the chunks' encodings, concatenated in order |
| `Regex.OrdinaryJoin` | minbpe/regex_tokenizer.py:380-386 | the ordinary encoding of the chunks joins back to the bytes of their concatenation |
| `Regex.OrdinaryRoundTrip` | minbpe/regex_tokenizer.py:380-386 | when the chunks make up the text, decoding its ordinary encoding gives the text back |
| `Regex.OrdinaryNoChunks` | minbpe/regex_tokenizer.py:380-386 | no chunks, no ids |
| `Regex.OccursAt` | minbpe/regex_tokenizer.py:465 | `token in text` holds exactly when the token occurs at some position |
| `Regex.RestrictGet` | minbpe/regex_tokenizer.py:467 | the allowed set keeps exactly the registered tokens it names, with their ids |
| `Regex.RestrictIntoGet` | minbpe/regex_tokenizer.py:467 | the comprehension's entries as it is built |
| `Regex.FirstMatch` | minbpe/regex_tokenizer.py:476-477 | the alternation matches the first listed token that starts here, and none if no token starts here |
| `Regex.ScanTokens` | minbpe/regex_tokenizer.py:477 | `findall` with the one capture group returns only special tokens |
| `Regex.ScanNone` | minbpe/regex_tokenizer.py:477 | and nothing when no token occurs |
| `Regex.PartIdsSpecial` | minbpe/regex_tokenizer.py:480-484 | each special part becomes its id, one id per part |
| `Regex.RegexTokenizer.Encode` | minbpe/regex_tokenizer.py:458-485 | "all", "none", "none_raise" (AssertionError when a token occurs) or a set select the special tokens, anything else is ValueError; none selected means the ordinary encoding, as intended (built on the corrected `EncodeOrdinary` of the first Findings row), otherwise the ids of the parts `findall` returns |
| `Regex.EncodeOnlySpecials` | minbpe/regex_tokenizer.py:476-485 | with special tokens selected, the output is the ids of the special tokens found, in order, and empty when none occurs |
| `Regex.DroppedText` | minbpe/regex_tokenizer.py:476-485 | "hello" with `<\|endoftext\|>` allowed encodes to no ids at all |
| `Regex.OrdinaryAsWritten` | minbpe/regex_tokenizer.py:380-386 | as written, encoding chunks succeeds only when there are none; the first chunk raises AttributeError |
| `Regex.OrdinaryAsWrittenFails` | minbpe/regex_tokenizer.py:384 | for the text "a" the code raises AttributeError where the intended result is `[97]` |
| `Gpt4.Singles` | minbpe/gpt4_bpe_tokenizer.py:70 | one single-byte part per byte |
| `Gpt4.SinglesFlatten` | minbpe/gpt4_bpe_tokenizer.py:70 | the single-byte parts join back to the token |
| `Gpt4.MinPair` | minbpe/gpt4_bpe_tokenizer.py:72-78 | none exactly when no adjacent pair is ranked; otherwise a ranked pair of lowest rank, the first such |
| `Gpt4.LowestPair` | minbpe/gpt4_bpe_tokenizer.py:72-78 | the loop finds `MinPair` over all adjacent pairs |
| `Gpt4.MergeAt` | minbpe/gpt4_bpe_tokenizer.py:82 | joining two neighbouring parts leaves one part fewer |
| `Gpt4.MergeAtFlatten` | minbpe/gpt4_bpe_tokenizer.py:82 | joining two neighbours does not change the bytes |
| `Gpt4.Bpe` | minbpe/gpt4_bpe_tokenizer.py:70-83 | the loop computes `BpeParts` on the token's single bytes |
| `Gpt4.BpeFlatten` | minbpe/gpt4_bpe_tokenizer.py:70-83 | the parts `bpe` returns join back to the token |
| `Gpt4.BpeFinal` | minbpe/gpt4_bpe_tokenizer.py:79-80 | at the end no adjacent pair has a rank below `max_rank`, and there are no more parts than at the start |
| `Gpt4.BpeStep` | minbpe/gpt4_bpe_tokenizer.py:79-82 | while a pair ranked below the cap exists, the lowest is joined and the loop goes on |
| `Gpt4.RecoverMerges` | minbpe/gpt4_bpe_tokenizer.py:119-130 | the loop computes `Recovered`: skip single bytes, split each token by `bpe` capped at its rank, AssertionError unless two parts, KeyError for an unranked part |
| `Gpt4.RecoverOneOf` | minbpe/gpt4_bpe_tokenizer.py:123-129 | for a token with its rank in the table, a recovered merge carries that rank and joins two ranked tokens whose bytes make the token |
| `Gpt4.RecoverFromSound` | minbpe/gpt4_bpe_tokenizer.py:120-129 | the loop only ever adds merges that join two ranked tokens into a ranked token |
| `Gpt4.RecoveredSound` | minbpe/gpt4_bpe_tokenizer.py:119-130 | every recovered merge joins the ranks of two tokens whose concatenation is ranked under the merge's id |
| `Gpt4.RecoverSingles` | minbpe/gpt4_bpe_tokenizer.py:121-122 | single-byte tokens add no merge |
| `Gpt4.RecoverUnsplit` | minbpe/gpt4_bpe_tokenizer.py:124 | a token `bpe` does not split in two raises AssertionError |
| `Gpt4.ByteShuffleUpTo` | minbpe/gpt4_bpe_tokenizer.py:222 | byte i maps to the rank of its single-byte token, KeyError exactly when one is unranked |
| `Gpt4.ShuffleBytes` | minbpe/gpt4_bpe_tokenizer.py:222 | the loop builds the byte permutation |
| `Gpt4.ShuffleGet` | minbpe/gpt4_bpe_tokenizer.py:222 | looking a byte up in the permutation gives its token's rank |
| `Gpt4.UnshuffleGet` | minbpe/gpt4_bpe_tokenizer.py:223 | when ranks permute the bytes, the inverse sends a byte's rank back to the byte |
| `Gpt4.MapBytes` | minbpe/gpt4_bpe_tokenizer.py:262 | `bytes(d[b] for b in bs)`: succeeds exactly when every lookup succeeds within 0..255 and maps elementwise; KeyError or ValueError otherwise |
| `Gpt4.ShuffleOk` | minbpe/gpt4_bpe_tokenizer.py:262 | permuting any bytes succeeds, byte by byte |
| `Gpt4.ShuffleRoundTrip` | minbpe/gpt4_bpe_tokenizer.py:222-223 | unpermuting permuted bytes gives them back |
| `Gpt4.RebuildVocab` | minbpe/gpt4_bpe_tokenizer.py:216-218 | the loop extends the byte table by every merge, or KeyError |
| `Gpt4.ExtendFresh` | minbpe/gpt4_bpe_tokenizer.py:216-218 | when no merge id overwrites an id in use, every merge id stands for its pair's bytes and other ids keep their entries |
| `Gpt4.BuiltConsistent` | minbpe/gpt4_bpe_tokenizer.py:214-219 | such merges numbered from 256 on give a table consistent with them that keeps the byte tokens |
| `Gpt4.Build` | minbpe/gpt4_bpe_tokenizer.py:214-223 | recover the merges, build the table, build the permutation, the first error winning |
| `Gpt4.Gpt4Tokenizer.constructor` | minbpe/gpt4_bpe_tokenizer.py:209-225 | GPT-4 pattern, the given merges, table and permutation, its inverse, and the GPT-4 special tokens registered |
| `Gpt4.Create` | minbpe/gpt4_bpe_tokenizer.py:209-225 | construction fails exactly when recovery, table or permutation fail, with that error; otherwise the fields are those computed |
| `Gpt4.Gpt4Tokenizer.EncodeChunk` | minbpe/gpt4_bpe_tokenizer.py:261-264 | as intended: permute the chunk's bytes, then the merge loop; fails exactly when the permutation does (the corrected member of the second Findings row) |
| `Gpt4.Gpt4Tokenizer.EncodeChunkAsWritten` | minbpe/gpt4_bpe_tokenizer.py:261 | as written, `.encode("utf-8")` on the chunk's bytes raises AttributeError for every chunk |
| `Gpt4.EncodeChunkAsWrittenFails` | minbpe/gpt4_bpe_tokenizer.py:261-264 | with every byte ranked in 0..255, the as-written method fails on every chunk while the intended one encodes it |
| `Gpt4.Gpt4Tokenizer.Decode` | minbpe/gpt4_bpe_tokenizer.py:300-303 | an id missing from the vocabulary raises KeyError; a result is the unpermuted joined bytes, decoded |
| `Gpt4.ChunkRoundTrip` | minbpe/gpt4_bpe_tokenizer.py:261-264 | when ranks permute the bytes and the table is consistent, decoding an encoded chunk gives the chunk back |
| `Gpt4.SpecialNotDecoded` | minbpe/gpt4_bpe_tokenizer.py:300 | `<\|endoftext\|>`'s id is not decoded but raises KeyError |
| `Gpt4.Gpt4Tokenizer.Save` | minbpe/gpt4_bpe_tokenizer.py:337 | always NotImplementedError |
| `Gpt4.Gpt4Tokenizer.Load` | minbpe/gpt4_bpe_tokenizer.py:371 | always NotImplementedError |

## Left out

- Regular expressions. The engine behind `re.compile`/`re.findall` is a parameter (`compile`, and the `segment` it returns). The GPT-4 split pattern is kept only as a string.
- tiktoken. `cl100k_base`'s rank table is an argument of `Gpt4.Create`.
- File I/O. `save` returns the model file's name and content, and `load` is given the content.
- The `.vocab` file, `render_token`, `save_vocab` and the inverted-merges dict used only for it. These are for human readers and nothing reads them back.
- `verbose` printing.
- Unicode general categories. They are a parameter of `ControlChars`.
- The file holding documentation tooling, expert-doc-writer.py. It is not part of this model.
- `load` assigns `pattern` but does not recompile the segmenter, exactly as the source does. The model keeps `segment` as it was.
- Subclass overrides are not dispatched. `GPT4Tokenizer` inherits `encode` and `encode_ordinary`, which reach its `_encode_chunk` through overriding. The model states `Gpt4.Gpt4Tokenizer.EncodeChunk` and `Gpt4.Gpt4Tokenizer.Decode` alone and does not compose them with `Regex.RegexTokenizer.Encode`.
- Text.ParseInt: reads `int()` on ASCII only. Python's `int` also accepts underscores between digits ("1_000") and non-ASCII decimal digits; for those `load` reads a number where the model raises ValueError.
- Lone surrogates. Dafny's `char` excludes surrogate code points, so no model string stands for a Python `str` holding one. On such a string `.encode("utf-8")` in `train` and `encode` raises UnicodeEncodeError; the model has no such input.
- Regex.RegexTokenizer.Encode: built on the corrected `Regex.RegexTokenizer.EncodeOrdinary`. As written, `encode` with no special token selected calls `encode_ordinary` (minbpe/regex_tokenizer.py:471-473) and inherits its AttributeError on any text with a chunk; this includes the default "none_raise" with no tokens registered. `Regex.OrdinaryAsWritten` states that failure.
- Object identity. Python dicts are values here: when the special-token dict passed to `register_special_tokens` is later changed by the caller, the tokenizer in Python sees that change and the model does not.
- Gpt4.Gpt4Tokenizer.Decode: states the KeyError case and the form of a success, not the exact condition for the ValueError of an out-of-range inverse lookup.
- Gpt4.RecoveredSound: states that every recovered merge joins two ranked tokens into a ranked token, not that it is the split tiktoken itself learned.
- Gpt4.ChunkRoundTrip: holds under three conditions. The single bytes must be ranked as a permutation of 0..255. Merge ids must not overwrite ids in use (`Fresh`). Merge ids must be at least 256. The source assumes these of `cl100k_base` without checking them.
- Basic.RoundTrip, Regex.OrdinaryRoundTrip: hold for tables that keep the byte ids and give each merge its pair's bytes. `BpeCore.TrainedConsistent` proves that training produces such tables; a loaded model file is not checked for it.

## Findings

| source | as written | input that shows it | evidently intended | confidence | as-written member | corrected member |
|---|---|---|---|---|---|---|
| minbpe/regex_tokenizer.py:383-384 | `encode_ordinary` encodes each chunk to `bytes` and passes that to `_encode_chunk`, which calls `.encode("utf-8")` on it (line 329); `bytes` has no `encode`, so AttributeError. The GPT-4 tokenizer's override has the same fault (next row). | any text with at least one chunk, e.g. "a" | each chunk's UTF-8 bytes go through the merge loop and the ids are concatenated ("a" gives `[97]`) | high (not executed) | `Regex.OrdinaryAsWrittenFails` | `Regex.RegexTokenizer.EncodeOrdinary` |
| minbpe/gpt4_bpe_tokenizer.py:261-263 | `GPT4Tokenizer._encode_chunk` calls `.encode("utf-8")` on the chunk's bytes it is given (line 261), so AttributeError; handed a `str`, it passes the permuted `bytes` to `RegexTokenizer._encode_chunk`, whose line 329 fails the same way | any chunk, e.g. the bytes of "a" | each chunk byte goes through `byte_shuffle`, then the merge loop | high (not executed) | `Gpt4.EncodeChunkAsWrittenFails` | `Gpt4.Gpt4Tokenizer.EncodeChunk` |
