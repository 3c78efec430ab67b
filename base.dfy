/**
  The state every tokenizer of minbpe/base.py shares (`Tokenizer`): the learned
  merges, the split pattern, the special tokens and the vocabulary built from
  them, together with `_build_vocab`, the model-file part of `save` and `load`.
  The file system is not modelled: `save` returns the name and the content of
  the file it would write, and `load` is given the content of the file it reads.
*/
module Base {
  import opened Wrappers
  import opened Dicts
  import opened Counting
  import opened Vocabulary
  import opened Text
  import opened ModelFile
  import Utf8

  class Tokenizer {
    var merges: Merges
    var pattern: string
    var specialTokens: Specials
    var vocab: Vocab

    /** `Tokenizer()`: no merges, an empty pattern, no special tokens, the 256 byte tokens. */
    constructor ()
      ensures merges == [] && pattern == "" && specialTokens == []
      ensures vocab == BaseVocab()
    {
      merges := [];
      pattern := "";
      specialTokens := [];
      new;
      var r := BuildVocab();
      vocab := r.value;
    }

    /**
      `_build_vocab()`: the byte tokens, then each merge in order, then each
      special token; a merge whose parts are not yet in the table raises KeyError.
    */
    method BuildVocab() returns (r: Result<Vocab>)
      ensures r == VocabOf(merges, specialTokens)
    {
      var v: Vocab := map[];
      var b := 0;
      while b < 256
        invariant b <= 256 && v == ByteTable(b)
      {
        v := v[b := [b as Byte]];
        b := b + 1;
      }
      var i := 0;
      while i < |merges|
        invariant i <= |merges|
        invariant ExtendVocab(v, merges[i..]) == ExtendVocab(BaseVocab(), merges)
      {
        var (p, idx) := merges[i];
        if p.0 !in v || p.1 !in v {
          return Err(KeyError);
        }
        assert merges[i..][1..] == merges[i + 1..];
        v := v[idx := v[p.0] + v[p.1]];
        i := i + 1;
      }
      assert merges[i..] == [];
      var j := 0;
      while j < |specialTokens|
        invariant j <= |specialTokens|
        invariant AddSpecials(v, specialTokens[j..]) == AddSpecials(ExtendVocab(BaseVocab(), merges).value, specialTokens)
      {
        var (token, idx) := specialTokens[j];
        assert specialTokens[j..][1..] == specialTokens[j + 1..];
        v := v[idx := Utf8.Encode(token)];
        j := j + 1;
      }
      assert specialTokens[j..] == [];
      return Ok(v);
    }

    /**
      The model-file part of `save(file_prefix)`: the file is named
      `file_prefix + ".model"` and holds the version line, the pattern, the
      number of special tokens, a line per special token and a line per merge.
    */
    method Save(filePrefix: string) returns (modelFile: string, content: string)
      ensures modelFile == filePrefix + ".model"
      ensures content == ModelText(pattern, specialTokens, merges)
    {
      modelFile := filePrefix + ".model";
      ghost var ls := ModelLines(pattern, specialTokens, merges);
      ModelLinesAt(pattern, specialTokens, merges);
      assert ls[..0] == [];
      content := [];
      TerminatedPrefix(ls, 0);
      content := content + Version + "\n";
      TerminatedPrefix(ls, 1);
      content := content + pattern + "\n";
      TerminatedPrefix(ls, 2);
      content := content + IntToString(|specialTokens|) + "\n";
      content := WriteSpecialLines(ls, 3, specialTokens, content);
      content := WriteMergeLines(ls, 3 + |specialTokens|, merges, content);
      assert ls[..|ls|] == ls;
    }

    /**
      `load(model_file)`, given the file's content. A name not ending in
      ".model" raises AssertionError and a file `ReadModel` refuses raises its
      error; in those cases nothing changes. Otherwise merges, pattern and
      special tokens are replaced, and the vocabulary is rebuilt, which raises
      KeyError (leaving the old vocabulary) when a merge refers to an id not
      defined before it.
    */
    method Load(modelFile: string, content: string) returns (err: Option<Error>)
      modifies this
      ensures !EndsWith(modelFile, ".model") ==> err == Some(AssertionError) && unchanged(this)
      ensures EndsWith(modelFile, ".model") && ParseModel(content).Err? ==>
        err == Some(ParseModel(content).error) && unchanged(this)
      ensures EndsWith(modelFile, ".model") && ParseModel(content).Ok? ==>
        var m := ParseModel(content).value;
        && merges == m.merges && pattern == m.pattern && specialTokens == m.specials
        && (VocabOf(m.merges, m.specials).Ok? ==> err == None && vocab == VocabOf(m.merges, m.specials).value)
        && (VocabOf(m.merges, m.specials).Err? ==> err == Some(KeyError) && vocab == old(vocab))
    {
      if !EndsWith(modelFile, ".model") {
        return Some(AssertionError);
      }
      var model := ReadModel(content);
      if model.Err? {
        return Some(model.error);
      }
      err := Install(model.value);
    }

    /**
      The end of `load`: the model's merges, pattern and special tokens replace
      the current ones and the vocabulary is rebuilt from them; when that
      raises KeyError the old vocabulary stays.
    */
    method Install(m: Model) returns (err: Option<Error>)
      modifies this
      ensures merges == m.merges && pattern == m.pattern && specialTokens == m.specials
      ensures VocabOf(m.merges, m.specials).Ok? ==> err == None && vocab == VocabOf(m.merges, m.specials).value
      ensures VocabOf(m.merges, m.specials).Err? ==> err == Some(KeyError) && vocab == old(vocab)
    {
      merges := m.merges;
      pattern := m.pattern;
      specialTokens := m.specials;
      var v := BuildVocab();
      if v.Err? {
        VocabOfError(m.merges, m.specials);
        return Some(v.error);
      }
      vocab := v.value;
      return None;
    }
  }

  /** `for special, idx in self.special_tokens.items()`: a "token id" line per special token. */
  method WriteSpecialLines(ghost ls: seq<string>, start: nat, st: Specials, content: string) returns (c: string)
    requires start + |st| <= |ls| && forall k :: 0 <= k < |st| ==> ls[start + k] == SpecialLine(st[k])
    requires content == Terminated(ls[..start])
    ensures c == Terminated(ls[..start + |st|])
  {
    c := content;
    var i := 0;
    while i < |st|
      invariant i <= |st| && c == Terminated(ls[..start + i])
    {
      var (token, idx) := st[i];
      var line := token + " " + IntToString(idx);
      assert line == ls[start + i];
      TerminatedPrefix(ls, start + i);
      c := c + line + "\n";
      i := i + 1;
    }
  }

  /** `for idx1, idx2 in self.merges`: an "id1 id2" line per merge, in order. */
  method WriteMergeLines(ghost ls: seq<string>, start: nat, ms: Merges, content: string) returns (c: string)
    requires start + |ms| <= |ls| && forall k :: 0 <= k < |ms| ==> ls[start + k] == MergeLine(ms[k].0)
    requires content == Terminated(ls[..start])
    ensures c == Terminated(ls[..start + |ms|])
  {
    c := content;
    var j := 0;
    while j < |ms|
      invariant j <= |ms| && c == Terminated(ls[..start + j])
    {
      var (idx1, idx2) := ms[j].0;
      var line := IntToString(idx1) + " " + IntToString(idx2);
      assert line == ls[start + j];
      TerminatedPrefix(ls, start + j);
      c := c + line + "\n";
      j := j + 1;
    }
  }

  /**
    The `with open(model_file)` block of `load`: the version line must be
    "minbpe v1" (AssertionError), then come the pattern and the count of
    special tokens (ValueError when it is not an integer).
  */
  method ReadModel(content: string) returns (r: Result<Model>)
    ensures r == ParseModel(content)
  {
    var ls := Lines(content);
    var version := ReadLine(ls, 0);
    if version != Version {
      return Err(AssertionError);
    }
    var pattern := ReadLine(ls, 1);
    var count := ParseInt(ReadLine(ls, 2));
    if count.None? {
      return Err(ValueError);
    }
    r := ReadBody(ls, pattern, count.value);
  }

  /**
    The rest of the file: `n` "token id" lines, then "id1 id2" merge lines to
    the end of the file, numbered from 256 (ValueError for a line that does
    not parse).
  */
  method ReadBody(ls: seq<string>, pattern: string, n: int) returns (r: Result<Model>)
    ensures r == ParseBody(ls, pattern, n)
  {
    var st := ReadSpecialTokens(SpecialReader(ls), n);
    if st.Err? {
      return Err(st.error);
    }
    var ms := ReadMergeLines(ls, 3 + (if n > 0 then n else 0));
    if ms.Err? {
      return Err(ms.error);
    }
    return Ok(Model(pattern, st.value, ms.value));
  }

  /**
    `for _ in range(n_special_tokens)`: `n` entries from the fourth line on,
    `entry(i)` being line i stripped, split and parsed.
  */
  method ReadSpecialTokens(entry: nat -> Result<(string, int)>, n: int) returns (r: Result<Specials>)
    ensures r == ReadSpecials(entry, 3, n, [])
  {
    var st: Specials := [];
    var line: nat := 3;
    var left := n;
    while left > 0
      invariant ReadSpecials(entry, line, left, st) == ReadSpecials(entry, 3, n, [])
      decreases left
    {
      var e := entry(line);
      if e.Err? {
        return Err(e.error);
      }
      var (token, idx) := e.value;
      st := Put(st, token, idx);
      line := line + 1;
      left := left - 1;
    }
    return Ok(st);
  }

  /** `for line in f`: the remaining lines, each a merge numbered one past the one before. */
  method ReadMergeLines(ls: seq<string>, start: nat) returns (r: Result<Merges>)
    ensures r == ReadMerges(MergeReader(ls), |ls|, start, 256, [])
  {
    var ms: Merges := [];
    var idx := 256;
    var j := start;
    while j < |ls|
      invariant ReadMerges(MergeReader(ls), |ls|, j, idx, ms) == ReadMerges(MergeReader(ls), |ls|, start, 256, [])
      decreases |ls| - j
    {
      var pair := MergeEntry(ls[j]);
      assert pair == MergeReader(ls)(j);
      if pair.Err? {
        return Err(pair.error);
      }
      ms := Put(ms, pair.value, idx);
      idx := idx + 1;
      j := j + 1;
    }
    return Ok(ms);
  }

  // ----- Lemmas -----

  /**
    The vocabulary of merges numbered 256, 257, ... that each join earlier
    ids: every id not taken by a special token is a byte token or a merge, and
    a special token's id (the last entry using it) stands for its UTF-8 bytes.
  */
  lemma VocabOfChained(ms: Merges, st: Specials)
    requires Chained(ms, 256)
    ensures VocabOf(ms, st).Ok?
    ensures forall x :: (forall k :: 0 <= k < |st| ==> st[k].1 != x) ==>
      (x in VocabOf(ms, st).value <==> 0 <= x < 256 + |ms|)
    ensures forall k :: 0 <= k < |st| && (forall j :: k < j < |st| ==> st[j].1 != st[k].1) ==>
      st[k].1 in VocabOf(ms, st).value && VocabOf(ms, st).value[st[k].1] == Utf8.Encode(st[k].0)
  {
    BuildChained(ms);
    var v := ExtendVocab(BaseVocab(), ms).value;
    forall x | forall k :: 0 <= k < |st| ==> st[k].1 != x
      ensures x in AddSpecials(v, st) <==> 0 <= x < 256 + |ms|
    {
      AddSpecialsOther(v, st, x);
    }
    forall k | 0 <= k < |st| && (forall j :: k < j < |st| ==> st[j].1 != st[k].1)
      ensures st[k].1 in AddSpecials(v, st) && AddSpecials(v, st)[st[k].1] == Utf8.Encode(st[k].0)
    {
      AddSpecialsLast(v, st, k);
    }
  }
}
