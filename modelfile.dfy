/**
  The `.model` file that `Tokenizer.save` writes and `Tokenizer.load` reads
  (minbpe/base.py), as text: the version line "minbpe v1", the split pattern,
  the number of special tokens, one "token id" line per special token and one
  "id1 id2" line per merge. Merge ids are not stored: loading numbers the merge
  lines 256, 257, ... in file order.
*/
module ModelFile {
  import opened Wrappers
  import opened Dicts
  import opened Counting
  import opened Vocabulary
  import opened Text

  const Version: string := "minbpe v1"

  /** `f'{token} {idx}'`. */
  function SpecialLine(e: (string, int)): string {
    e.0 + " " + IntToString(e.1)
  }

  /** `f'{idx1} {idx2}'`. */
  function MergeLine(p: Pair): string {
    IntToString(p.0) + " " + IntToString(p.1)
  }

  function SpecialLines(st: Specials): (ls: seq<string>)
    ensures |ls| == |st| && forall k :: 0 <= k < |st| ==> ls[k] == SpecialLine(st[k])
  {
    seq(|st|, k requires 0 <= k < |st| => SpecialLine(st[k]))
  }

  function MergeLines(ms: Merges): (ls: seq<string>)
    ensures |ls| == |ms| && forall k :: 0 <= k < |ms| ==> ls[k] == MergeLine(ms[k].0)
  {
    seq(|ms|, k requires 0 <= k < |ms| => MergeLine(ms[k].0))
  }

  /** The lines `save` writes, without their terminators. */
  function ModelLines(pattern: string, st: Specials, ms: Merges): seq<string> {
    [Version, pattern, IntToString(|st|)] + SpecialLines(st) + MergeLines(ms)
  }

  /** The content of the `.model` file `save` writes. */
  function ModelText(pattern: string, st: Specials, ms: Merges): string {
    Terminated(ModelLines(pattern, st, ms))
  }

  /** What `load` takes from a model file. */
  datatype Model = Model(pattern: string, specials: Specials, merges: Merges)

  /** `f.readline().strip()` as the i-th call: past the end of the file it reads "". */
  function ReadLine(ls: seq<string>, i: nat): string {
    if i < |ls| then Strip(ls[i]) else ""
  }

  /** `token, idx_val = line.split()` and `int(idx_val)`. */
  function SpecialEntry(line: string): Result<(string, int)> {
    var w := Words(line);
    if |w| != 2 then Err(ValueError)
    else match ParseInt(w[1])
      case None => Err(ValueError)
      case Some(n) => Ok((w[0], n))
  }

  /** `idx1, idx2 = map(int, line.split())`. */
  function MergeEntry(line: string): Result<Pair> {
    var w := Words(line);
    if |w| != 2 then Err(ValueError)
    else match (ParseInt(w[0]), ParseInt(w[1]))
      case (Some(a), Some(b)) => Ok((a, b))
      case _ => Err(ValueError)
  }

  /** The i-th `f.readline().strip().split()` of the special-token loop, parsed. */
  function SpecialReader(ls: seq<string>): nat -> Result<(string, int)> {
    (i: nat) => SpecialEntry(ReadLine(ls, i))
  }

  /** The i-th line of the merge loop, parsed. */
  function MergeReader(ls: seq<string>): nat -> Result<Pair> {
    (i: nat) => if i < |ls| then MergeEntry(ls[i]) else Err(ValueError)
  }

  /**
    The special-token loop of `load`: `count` more entries from line `i` on,
    entered into `acc`; a non-positive count reads nothing.
  */
  function ReadSpecials(entry: nat -> Result<(string, int)>, i: nat, count: int, acc: Specials): Result<Specials>
    decreases if count > 0 then count else 0
  {
    if count <= 0 then Ok(acc)
    else match entry(i)
      case Err(e) => Err(e)
      case Ok(e) => ReadSpecials(entry, i + 1, count - 1, Put(acc, e.0, e.1))
  }

  /** The merge loop of `load`: the lines `i .. end-1`, numbered from `idx`. */
  function ReadMerges(entry: nat -> Result<Pair>, end: nat, i: nat, idx: int, acc: Merges): Result<Merges>
    decreases end - i
  {
    if i >= end then Ok(acc)
    else match entry(i)
      case Err(e) => Err(e)
      case Ok(p) => ReadMerges(entry, end, i + 1, idx + 1, Put(acc, p, idx))
  }

  /**
    What `load` reads from a model file's content: `AssertionError` for a
    wrong version line, `ValueError` for a malformed count, special-token line
    or merge line.
  */
  function ParseModel(content: string): Result<Model> {
    ParseLines(Lines(content))
  }

  /** What `load` reads from the lines of a model file. */
  function ParseLines(ls: seq<string>): Result<Model> {
    if ReadLine(ls, 0) != Version then Err(AssertionError)
    else
      match ParseInt(ReadLine(ls, 2))
      case None => Err(ValueError)
      case Some(n) => ParseBody(ls, ReadLine(ls, 1), n)
  }

  /** The special-token lines and the merge lines, once the header has been read. */
  function ParseBody(ls: seq<string>, pattern: string, n: int): Result<Model> {
    match ReadSpecials(SpecialReader(ls), 3, n, [])
    case Err(e) => Err(e)
    case Ok(st) =>
      match ReadMerges(MergeReader(ls), |ls|, 3 + (if n > 0 then n else 0), 256, [])
      case Err(e) => Err(e)
      case Ok(ms) => Ok(Model(pattern, st, ms))
  }

  /** Special tokens `save` writes one per line and `load` splits back: non-empty, without whitespace. */
  ghost predicate WritableSpecials(st: Specials) {
    DistinctKeys(st) && forall k :: 0 <= k < |st| ==> st[k].0 != [] && NoSpace(st[k].0)
  }

  /** Merges numbered 256, 257, ... in insertion order, as `train` makes them. */
  ghost predicate NumberedMerges(ms: Merges) {
    DistinctKeys(ms) && forall k :: 0 <= k < |ms| ==> ms[k].1 == 256 + k
  }

  /** The states of a tokenizer that `save` writes and `load` reads back unchanged. */
  ghost predicate Saveable(pattern: string, st: Specials, ms: Merges) {
    NoLineBreak(pattern) && Strip(pattern) == pattern && WritableSpecials(st) && NumberedMerges(ms)
  }

  /** The reader gives the entries of `st`, one per line from line `b` on. */
  ghost predicate ReadsSpecials(entry: nat -> Result<(string, int)>, b: nat, st: Specials) {
    forall k :: 0 <= k < |st| ==> entry(b + k) == Ok(st[k])
  }

  /** The reader gives the pairs of `ms`, one per line from line `b` on. */
  ghost predicate ReadsMerges(entry: nat -> Result<Pair>, b: nat, ms: Merges) {
    forall k :: 0 <= k < |ms| ==> entry(b + k) == Ok(ms[k].0)
  }

  // ----- Lemmas -----

  lemma SpecialLineStripped(e: (string, int))
    requires e.0 != [] && NoSpace(e.0)
    ensures Strip(SpecialLine(e)) == SpecialLine(e)
  {
    var l := SpecialLine(e);
    var n := IntToString(e.1);
    IntToStringPlain(e.1);
    assert l[0] == e.0[0] && l[|l| - 1] == n[|n| - 1];
    StripUnchanged(l);
  }

  lemma SpecialEntryOf(e: (string, int))
    requires e.0 != [] && NoSpace(e.0)
    ensures SpecialEntry(SpecialLine(e)) == Ok(e)
  {
    IntToStringPlain(e.1);
    WordsOfPair(e.0, IntToString(e.1));
    ParseIntToString(e.1);
  }

  lemma MergeEntryOf(p: Pair)
    ensures MergeEntry(MergeLine(p)) == Ok(p)
  {
    IntToStringPlain(p.0);
    IntToStringPlain(p.1);
    WordsOfPair(IntToString(p.0), IntToString(p.1));
    ParseIntToString(p.0);
    ParseIntToString(p.1);
  }

  /** A key not yet present is appended, so entering the entries in order rebuilds the dict. */
  lemma PutNext<K, V>(d: Dict<K, V>, j: nat)
    requires DistinctKeys(d) && j < |d|
    ensures Put(d[..j], d[j].0, d[j].1) == d[..j + 1]
  {
    DistinctPrefix(d, j);
    PutFacts(d[..j], d[j].0, d[j].1);
    assert d[..j] + [(d[j].0, d[j].1)] == d[..j + 1];
  }

  lemma ReadSpecialsStep(entry: nat -> Result<(string, int)>, i: nat, count: int, acc: Specials, e: (string, int))
    requires count > 0 && entry(i) == Ok(e)
    ensures ReadSpecials(entry, i, count, acc) == ReadSpecials(entry, i + 1, count - 1, Put(acc, e.0, e.1))
  {
  }

  lemma {:induction false} ReadSpecialsOf(entry: nat -> Result<(string, int)>, b: nat, st: Specials, j: nat)
    requires j <= |st| && DistinctKeys(st) && ReadsSpecials(entry, b, st)
    ensures ReadSpecials(entry, b + j, |st| - j, st[..j]) == Ok(st)
    decreases |st| - j
  {
    if j < |st| {
      var e := st[j];
      var next := st[..j + 1];
      assert entry(b + j) == Ok(e);
      ReadSpecialsStep(entry, b + j, |st| - j, st[..j], e);
      PutNext(st, j);
      ReadSpecialsOf(entry, b, st, j + 1);
      assert ReadSpecials(entry, b + (j + 1), |st| - (j + 1), next) == Ok(st);
    } else {
      assert st[..j] == st;
    }
  }

  lemma {:induction false} ReadMergesOf(entry: nat -> Result<Pair>, b: nat, ms: Merges, j: nat)
    requires j <= |ms| && NumberedMerges(ms) && ReadsMerges(entry, b, ms)
    ensures ReadMerges(entry, b + |ms|, b + j, 256 + j, ms[..j]) == Ok(ms)
    decreases |ms| - j
  {
    if j < |ms| {
      assert entry(b + j) == Ok(ms[j].0);
      PutNext(ms, j);
      assert ReadMerges(entry, b + |ms|, b + j, 256 + j, ms[..j])
        == ReadMerges(entry, b + |ms|, b + (j + 1), 256 + (j + 1), ms[..j + 1]);
      ReadMergesOf(entry, b, ms, j + 1);
    } else {
      assert ms[..j] == ms;
    }
  }

  lemma SpecialLineUnbroken(e: (string, int))
    requires NoSpace(e.0)
    ensures NoLineBreak(SpecialLine(e))
  {
    NoSpaceNoLineBreak(e.0);
    IntToStringPlain(e.1);
    NoLineBreakConcat(e.0, " ");
    NoLineBreakConcat(e.0 + " ", IntToString(e.1));
  }

  lemma MergeLineUnbroken(p: Pair)
    ensures NoLineBreak(MergeLine(p))
  {
    IntToStringPlain(p.0);
    IntToStringPlain(p.1);
    NoLineBreakConcat(IntToString(p.0), " ");
    NoLineBreakConcat(IntToString(p.0) + " ", IntToString(p.1));
  }

  /** Where each line of the model file sits. */
  ghost predicate LaidOut(ls: seq<string>, pattern: string, st: Specials, ms: Merges) {
    && |ls| == 3 + |st| + |ms| && ls[0] == Version && ls[1] == pattern && ls[2] == IntToString(|st|)
    && (forall k :: 0 <= k < |st| ==> ls[3 + k] == SpecialLine(st[k]))
    && (forall k :: 0 <= k < |ms| ==> ls[3 + |st| + k] == MergeLine(ms[k].0))
  }

  lemma ModelLinesAt(pattern: string, st: Specials, ms: Merges)
    ensures LaidOut(ModelLines(pattern, st, ms), pattern, st, ms)
  {
  }

  lemma ModelLinesUnbroken(ls: seq<string>, pattern: string, st: Specials, ms: Merges)
    requires LaidOut(ls, pattern, st, ms)
    requires NoLineBreak(pattern) && forall k :: 0 <= k < |st| ==> NoSpace(st[k].0)
    ensures forall i :: 0 <= i < |ls| ==> NoLineBreak(ls[i])
  {
    forall i | 0 <= i < |ls|
      ensures NoLineBreak(ls[i])
    {
      if 3 <= i < 3 + |st| {
        assert ls[3 + (i - 3)] == SpecialLine(st[i - 3]);
        SpecialLineUnbroken(st[i - 3]);
      } else if i >= 3 + |st| {
        assert ls[3 + |st| + (i - 3 - |st|)] == MergeLine(ms[i - 3 - |st|].0);
        MergeLineUnbroken(ms[i - 3 - |st|].0);
      }
    }
  }

  lemma SpecialLineReads(ls: seq<string>, i: nat, e: (string, int))
    requires i < |ls| && ls[i] == SpecialLine(e) && e.0 != [] && NoSpace(e.0)
    ensures SpecialReader(ls)(i) == Ok(e)
  {
    SpecialLineStripped(e);
    SpecialEntryOf(e);
  }

  lemma SpecialsReadBack(ls: seq<string>, pattern: string, st: Specials, ms: Merges)
    requires LaidOut(ls, pattern, st, ms) && WritableSpecials(st)
    ensures ReadsSpecials(SpecialReader(ls), 3, st)
  {
    forall k | 0 <= k < |st|
      ensures SpecialReader(ls)(3 + k) == Ok(st[k])
    {
      SpecialLineReads(ls, 3 + k, st[k]);
    }
  }

  lemma MergeLineReads(ls: seq<string>, i: nat, p: Pair)
    requires i < |ls| && ls[i] == MergeLine(p)
    ensures MergeReader(ls)(i) == Ok(p)
  {
    MergeEntryOf(p);
  }

  lemma MergesReadBack(ls: seq<string>, pattern: string, st: Specials, ms: Merges)
    requires LaidOut(ls, pattern, st, ms)
    ensures ReadsMerges(MergeReader(ls), 3 + |st|, ms)
  {
    forall k | 0 <= k < |ms|
      ensures MergeReader(ls)(3 + |st| + k) == Ok(ms[k].0)
    {
      assert ls[3 + |st| + k] == MergeLine(ms[k].0);
      MergeLineReads(ls, 3 + |st| + k, ms[k].0);
    }
  }

  lemma CountReadBack(n: int)
    ensures ParseInt(Strip(IntToString(n))) == Some(n)
  {
    var count := IntToString(n);
    IntToStringPlain(n);
    assert !IsSpace(count[0]) && !IsSpace(count[|count| - 1]);
    StripUnchanged(count);
    ParseIntToString(n);
  }

  lemma ParseLinesOf(ls: seq<string>, pattern: string, st: Specials, ms: Merges)
    requires ReadLine(ls, 0) == Version && ReadLine(ls, 1) == pattern
    requires ParseInt(ReadLine(ls, 2)) == Some(|st|)
    requires ReadSpecials(SpecialReader(ls), 3, |st|, []) == Ok(st)
    requires ReadMerges(MergeReader(ls), |ls|, 3 + |st|, 256, []) == Ok(ms)
    ensures ParseLines(ls) == Ok(Model(pattern, st, ms))
  {
  }

  /** The first three lines read back as the version, the pattern and the count. */
  lemma HeaderBack(ls: seq<string>, pattern: string, st: Specials, ms: Merges)
    requires LaidOut(ls, pattern, st, ms) && Strip(pattern) == pattern
    ensures ReadLine(ls, 0) == Version && ReadLine(ls, 1) == pattern
    ensures ParseInt(ReadLine(ls, 2)) == Some(|st|)
  {
    StripUnchanged(Version);
    CountReadBack(|st|);
  }

  /** Entries read one after another from line `b` on rebuild the dict they came from. */
  lemma ReadSpecialsAll(entry: nat -> Result<(string, int)>, b: nat, st: Specials)
    requires DistinctKeys(st) && ReadsSpecials(entry, b, st)
    ensures ReadSpecials(entry, b, |st|, []) == Ok(st)
  {
    ReadSpecialsOf(entry, b, st, 0);
    assert st[..0] == [];
  }

  /** Merge entries read from line `b` to the end come back numbered from 256. */
  lemma ReadMergesAll(entry: nat -> Result<Pair>, end: nat, b: nat, ms: Merges)
    requires end == b + |ms| && NumberedMerges(ms) && ReadsMerges(entry, b, ms)
    ensures ReadMerges(entry, end, b, 256, []) == Ok(ms)
  {
    ReadMergesOf(entry, b, ms, 0);
    assert ms[..0] == [];
  }

  /**
    `save` followed by `load` gives back the pattern, the special tokens and
    the merges, in order, when the pattern is one line without surrounding
    whitespace, the special tokens are non-empty and free of whitespace, and
    the merges carry the ids 256, 257, ... in order.
  */
  lemma SaveLoad(pattern: string, st: Specials, ms: Merges)
    requires Saveable(pattern, st, ms)
    ensures ParseModel(ModelText(pattern, st, ms)) == Ok(Model(pattern, st, ms))
  {
    var ls := ModelLines(pattern, st, ms);
    ModelLinesAt(pattern, st, ms);
    ModelLinesUnbroken(ls, pattern, st, ms);
    LinesOfTerminated(ls);
    ReadBack(ls, pattern, st, ms);
  }

  /** Reading back lines laid out as `save` lays them out gives what was saved. */
  lemma ReadBack(ls: seq<string>, pattern: string, st: Specials, ms: Merges)
    requires LaidOut(ls, pattern, st, ms) && Saveable(pattern, st, ms)
    ensures ParseLines(ls) == Ok(Model(pattern, st, ms))
  {
    HeaderBack(ls, pattern, st, ms);
    SpecialsReadBack(ls, pattern, st, ms);
    ReadSpecialsAll(SpecialReader(ls), 3, st);
    MergesReadBack(ls, pattern, st, ms);
    ReadMergesAll(MergeReader(ls), |ls|, 3 + |st|, ms);
    ParseLinesOf(ls, pattern, st, ms);
  }

  /** What holds of every model `load` accepts: both are dicts, no key twice. */
  ghost predicate WellFormed(m: Model) {
    DistinctKeys(m.specials) && DistinctKeys(m.merges)
  }

  /** Every merge id is past the 256 byte tokens and below `hi`. */
  ghost predicate MergeIds(ms: Merges, hi: int) {
    forall k :: 0 <= k < |ms| ==> 256 <= ms[k].1 < hi
  }

  /** The line the merges start on: after the header and the special-token lines. */
  function MergeStart(ls: seq<string>): nat {
    match ParseInt(ReadLine(ls, 2))
    case None => 3
    case Some(n) => 3 + (if n > 0 then n else 0)
  }

  /** The number of merge lines. */
  function MergeLineCount(ls: seq<string>): nat {
    if |ls| > MergeStart(ls) then |ls| - MergeStart(ls) else 0
  }

  /** No two merge lines name the same pair. */
  ghost predicate NoRepeatedPair(ls: seq<string>) {
    forall j, j' :: MergeStart(ls) <= j < j' < |ls| ==> MergeEntry(ls[j]) != MergeEntry(ls[j'])
  }

  /**
    Whatever lines `load` accepts, it reads two dicts whose merge ids lie in
    256 .. 255 + the number of merge lines; when no pair repeats, the merges
    are the lines' pairs in order with the ids 256, 257, ... (A pair on
    several lines: `LoadedFirstPlace` and `LoadedLastId`.)
  */
  lemma LoadedShape(ls: seq<string>)
    requires ParseLines(ls).Ok?
    ensures WellFormed(ParseLines(ls).value)
    ensures MergeIds(ParseLines(ls).value.merges, 256 + MergeLineCount(ls))
    ensures NoRepeatedPair(ls) ==>
      var ms := ParseLines(ls).value.merges;
      NumberedMerges(ms) && |ms| == MergeLineCount(ls) && ReadsMerges(MergeReader(ls), MergeStart(ls), ms)
  {
    LoadedParts(ls);
    ReadSpecialsShape(SpecialReader(ls), 3, ParseInt(ReadLine(ls, 2)).value, []);
    MergeLinesShape(ls, MergeStart(ls));
    if NoRepeatedPair(ls) {
      MergeLinesNumbered(ls);
    }
  }

  /**
    A pair that `load` reads on several merge lines takes the id of the last
    of them, as the later dict assignment overwrites the earlier.
  */
  lemma LoadedLastId(ls: seq<string>, j: nat)
    requires ParseLines(ls).Ok?
    requires MergeStart(ls) <= j < |ls| && MergeEntry(ls[j]).Ok?
    requires forall j' :: j < j' < |ls| ==> MergeEntry(ls[j']) != MergeEntry(ls[j])
    ensures var id := Get(ParseLines(ls).value.merges, MergeEntry(ls[j]).value);
      id.Some? && id.value - 256 == j - MergeStart(ls)
  {
    LoadedParts(ls);
    var start := MergeStart(ls);
    assert ParseLines(ls).value.merges == ReadMerges(MergeReader(ls), |ls|, start, 256, []).value;
    MergeLineLast(ls, start, j);
  }

  lemma MergeLineLast(ls: seq<string>, start: nat, j: nat)
    requires start <= j < |ls| && MergeEntry(ls[j]).Ok?
    requires forall j' :: j < j' < |ls| ==> MergeEntry(ls[j']) != MergeEntry(ls[j])
    requires ReadMerges(MergeReader(ls), |ls|, start, 256, []).Ok?
    ensures Get(ReadMerges(MergeReader(ls), |ls|, start, 256, []).value, MergeEntry(ls[j]).value) == Some(256 + (j - start))
  {
    var entry := MergeReader(ls);
    assert entry(j) == MergeEntry(ls[j]);
    forall j' | j < j' < |ls|
      ensures entry(j') != entry(j)
    {
      assert entry(j') == MergeEntry(ls[j']);
    }
    ReadMergesLast(entry, |ls|, start, 256, [], j);
  }

  /**
    A pair that `load` reads on several merge lines keeps the place of the
    first of them: it comes right after the pairs of the merge lines before it.
  */
  lemma LoadedFirstPlace(ls: seq<string>, j: nat)
    requires ParseLines(ls).Ok?
    requires MergeStart(ls) <= j < |ls| && MergeEntry(ls[j]).Ok?
    requires forall j' :: MergeStart(ls) <= j' < j ==> MergeEntry(ls[j']) != MergeEntry(ls[j])
    ensures ReadMerges(MergeReader(ls), j, MergeStart(ls), 256, []).Ok?
    ensures var before := ReadMerges(MergeReader(ls), j, MergeStart(ls), 256, []).value;
      |before| < |ParseLines(ls).value.merges| && ParseLines(ls).value.merges[|before|].0 == MergeEntry(ls[j]).value
  {
    LoadedParts(ls);
    MergeLineFirst(ls, MergeStart(ls), j);
  }

  lemma MergeLineFirst(ls: seq<string>, start: nat, j: nat)
    requires start <= j < |ls| && MergeEntry(ls[j]).Ok?
    requires forall j' :: start <= j' < j ==> MergeEntry(ls[j']) != MergeEntry(ls[j])
    requires ReadMerges(MergeReader(ls), |ls|, start, 256, []).Ok?
    ensures ReadMerges(MergeReader(ls), j, start, 256, []).Ok?
    ensures var before := ReadMerges(MergeReader(ls), j, start, 256, []).value;
      |before| < |ReadMerges(MergeReader(ls), |ls|, start, 256, []).value| &&
      ReadMerges(MergeReader(ls), |ls|, start, 256, []).value[|before|].0 == MergeEntry(ls[j]).value
  {
    var entry := MergeReader(ls);
    assert entry(j) == MergeEntry(ls[j]);
    forall j' | start <= j' < j
      ensures entry(j') != entry(j)
    {
      assert entry(j') == MergeEntry(ls[j']);
    }
    ReadMergesFirst(entry, |ls|, start, j);
  }

  /** The merge loop run over the merge lines: distinct pairs, ids within range. */
  lemma MergeLinesShape(ls: seq<string>, start: nat)
    requires ReadMerges(MergeReader(ls), |ls|, start, 256, []).Ok?
    ensures var ms := ReadMerges(MergeReader(ls), |ls|, start, 256, []).value;
      DistinctKeys(ms) && MergeIds(ms, 256 + (if |ls| > start then |ls| - start else 0))
  {
    ReadMergesShape(MergeReader(ls), |ls|, start, 256, []);
  }

  /** The merge loop run over merge lines that repeat no pair: the lines' pairs, numbered from 256. */
  lemma MergeLinesNumbered(ls: seq<string>)
    requires ReadMerges(MergeReader(ls), |ls|, MergeStart(ls), 256, []).Ok?
    requires NoRepeatedPair(ls)
    ensures var ms := ReadMerges(MergeReader(ls), |ls|, MergeStart(ls), 256, []).value;
      NumberedMerges(ms) && |ms| == MergeLineCount(ls) && ReadsMerges(MergeReader(ls), MergeStart(ls), ms)
  {
    ReadersDistinct(ls);
    ReadMergesFresh(MergeReader(ls), |ls|, MergeStart(ls), MergeStart(ls), []);
  }

  /** What `load` accepted is the special-token loop's dict and the merge loop's dict. */
  lemma LoadedParts(ls: seq<string>)
    requires ParseLines(ls).Ok?
    ensures ParseInt(ReadLine(ls, 2)).Some?
    ensures ReadSpecials(SpecialReader(ls), 3, ParseInt(ReadLine(ls, 2)).value, []).Ok?
    ensures ReadMerges(MergeReader(ls), |ls|, MergeStart(ls), 256, []).Ok?
    ensures ParseLines(ls).value.specials == ReadSpecials(SpecialReader(ls), 3, ParseInt(ReadLine(ls, 2)).value, []).value
    ensures ParseLines(ls).value.merges == ReadMerges(MergeReader(ls), |ls|, MergeStart(ls), 256, []).value
  {
  }

  /** Distinct merge lines read as distinct entries. */
  lemma ReadersDistinct(ls: seq<string>)
    requires NoRepeatedPair(ls)
    ensures forall j, j' :: MergeStart(ls) <= j < j' < |ls| ==> MergeReader(ls)(j) != MergeReader(ls)(j')
  {
    forall j, j' | MergeStart(ls) <= j < j' < |ls|
      ensures MergeReader(ls)(j) != MergeReader(ls)(j')
    {
      assert MergeReader(ls)(j) == MergeEntry(ls[j]);
      assert MergeReader(ls)(j') == MergeEntry(ls[j']);
    }
  }

  lemma {:induction false} ReadSpecialsShape(entry: nat -> Result<(string, int)>, i: nat, count: int, acc: Specials)
    requires DistinctKeys(acc) && ReadSpecials(entry, i, count, acc).Ok?
    ensures DistinctKeys(ReadSpecials(entry, i, count, acc).value)
    decreases if count > 0 then count else 0
  {
    if count > 0 {
      var e := entry(i).value;
      PutDistinct(acc, e.0, e.1);
      ReadSpecialsShape(entry, i + 1, count - 1, Put(acc, e.0, e.1));
    }
  }

  lemma {:induction false} ReadMergesShape(entry: nat -> Result<Pair>, end: nat, i: nat, idx: int, acc: Merges)
    requires DistinctKeys(acc) && idx >= 256 && MergeIds(acc, idx)
    requires ReadMerges(entry, end, i, idx, acc).Ok?
    ensures DistinctKeys(ReadMerges(entry, end, i, idx, acc).value)
    ensures MergeIds(ReadMerges(entry, end, i, idx, acc).value, idx + (if end > i then end - i else 0))
    decreases end - i
  {
    if i < end {
      var p := entry(i).value;
      var acc' := Put(acc, p, idx);
      PutDistinct(acc, p, idx);
      PutEntries(acc, p, idx);
      forall k | 0 <= k < |acc'|
        ensures 256 <= acc'[k].1 < idx + 1
      {
        assert acc'[k] in acc';
      }
      ReadMergesShape(entry, end, i + 1, idx + 1, acc');
    }
  }

  /**
    With no pair read twice, each line appends its pair with the next id, so
    the merges come out in line order numbered consecutively from 256.
  */
  lemma {:induction false} ReadMergesFresh(entry: nat -> Result<Pair>, end: nat, b: nat, i: nat, acc: Merges)
    requires i == b + |acc| && NumberedMerges(acc) && ReadsMerges(entry, b, acc)
    requires forall j, j' :: b <= j < j' < end ==> entry(j) != entry(j')
    requires ReadMerges(entry, end, i, 256 + |acc|, acc).Ok?
    ensures var ms := ReadMerges(entry, end, i, 256 + |acc|, acc).value;
      NumberedMerges(ms) && |ms| == |acc| + (if end > i then end - i else 0) && ReadsMerges(entry, b, ms)
    decreases end - i
  {
    if i < end {
      var p := entry(i).value;
      PairNotRead(entry, end, b, i, acc);
      var acc' := FreshStep(entry, b, acc, p);
      ReadMergesFresh(entry, end, b, i + 1, acc');
    }
  }

  /** The pair on line `i` is none of the pairs read before it. */
  lemma PairNotRead(entry: nat -> Result<Pair>, end: nat, b: nat, i: nat, acc: Merges)
    requires i == b + |acc| && i < end && ReadsMerges(entry, b, acc) && entry(i).Ok?
    requires forall j, j' :: b <= j < j' < end ==> entry(j) != entry(j')
    ensures entry(i).value !in Keys(acc)
  {
    forall k | 0 <= k < |acc|
      ensures Keys(acc)[k] != entry(i).value
    {
      KeyAt(acc, k);
      assert entry(b + k) == Ok(acc[k].0);
    }
  }

  /** Appending a new pair with the next id keeps the merges numbered and read in line order. */
  lemma FreshStep(entry: nat -> Result<Pair>, b: nat, acc: Merges, p: Pair) returns (acc': Merges)
    requires NumberedMerges(acc) && ReadsMerges(entry, b, acc)
    requires entry(b + |acc|) == Ok(p) && p !in Keys(acc)
    ensures acc' == Put(acc, p, 256 + |acc|) && |acc'| == |acc| + 1
    ensures NumberedMerges(acc') && ReadsMerges(entry, b, acc')
  {
    PutFacts(acc, p, 256 + |acc|);
    PutDistinct(acc, p, 256 + |acc|);
    acc' := acc + [(p, 256 + |acc|)];
    forall k | 0 <= k < |acc'|
      ensures acc'[k].1 == 256 + k && entry(b + k) == Ok(acc'[k].0)
    {
      if k < |acc| {
        assert acc'[k] == acc[k];
      }
    }
  }

  /** A pair no remaining line reads keeps the value it had before the loop. */
  lemma {:induction false} ReadMergesKeep(entry: nat -> Result<Pair>, end: nat, i: nat, idx: int, acc: Merges, p: Pair)
    requires forall j :: i <= j < end ==> entry(j) != Ok(p)
    requires ReadMerges(entry, end, i, idx, acc).Ok?
    ensures Get(ReadMerges(entry, end, i, idx, acc).value, p) == Get(acc, p)
    decreases end - i
  {
    if i < end {
      var q := entry(i).value;
      PutOther(acc, q, idx, p);
      ReadMergesKeep(entry, end, i + 1, idx + 1, Put(acc, q, idx), p);
    }
  }

  /** The pair of line `j`, read on no later line, ends up with line `j`'s id. */
  lemma {:induction false} ReadMergesLast(entry: nat -> Result<Pair>, end: nat, i: nat, idx: int, acc: Merges, j: nat)
    requires i <= j < end && entry(j).Ok?
    requires forall j' :: j < j' < end ==> entry(j') != entry(j)
    requires ReadMerges(entry, end, i, idx, acc).Ok?
    ensures Get(ReadMerges(entry, end, i, idx, acc).value, entry(j).value) == Some(idx + (j - i))
    decreases end - i
  {
    var q := entry(i).value;
    if i == j {
      PutFacts(acc, q, idx);
      ReadMergesKeep(entry, end, i + 1, idx + 1, Put(acc, q, idx), q);
    } else {
      ReadMergesLast(entry, end, i + 1, idx + 1, Put(acc, q, idx), j);
    }
  }

  /** Later lines never move a key: every entry of `acc` keeps its key and place. */
  lemma {:induction false} ReadMergesPlaces(entry: nat -> Result<Pair>, end: nat, i: nat, idx: int, acc: Merges)
    requires ReadMerges(entry, end, i, idx, acc).Ok?
    ensures |acc| <= |ReadMerges(entry, end, i, idx, acc).value|
    ensures forall k :: 0 <= k < |acc| ==> ReadMerges(entry, end, i, idx, acc).value[k].0 == acc[k].0
    decreases end - i
  {
    if i < end {
      var q := entry(i).value;
      var acc' := Put(acc, q, idx);
      PutPlaces(acc, q, idx);
      ReadMergesPlaces(entry, end, i + 1, idx + 1, acc');
    }
  }

  /** Assigning keeps every entry's key in its place, and never shortens the dict. */
  lemma PutPlaces(d: Merges, q: Pair, v: int)
    ensures |d| <= |Put(d, q, v)|
    ensures forall k :: 0 <= k < |d| ==> Put(d, q, v)[k].0 == d[k].0
  {
    PutFacts(d, q, v);
    if q !in Keys(d) {
      assert forall k :: 0 <= k < |d| ==> (d + [(q, v)])[k] == d[k];
    } else {
      forall k | 0 <= k < |d|
        ensures Put(d, q, v)[k].0 == d[k].0
      {
        KeyAt(d, k);
        KeyAt(Put(d, q, v), k);
      }
    }
  }

  /** Reading up to line `m`, then on from there, is reading all the lines. */
  lemma {:induction false} ReadMergesSplit(entry: nat -> Result<Pair>, end: nat, m: nat, i: nat, idx: int, acc: Merges)
    requires i <= m <= end
    requires ReadMerges(entry, end, i, idx, acc).Ok?
    ensures ReadMerges(entry, m, i, idx, acc).Ok?
    ensures ReadMerges(entry, end, i, idx, acc) == ReadMerges(entry, end, m, idx + (m - i), ReadMerges(entry, m, i, idx, acc).value)
    decreases m - i
  {
    if i < m {
      var q := entry(i).value;
      ReadMergesSplit(entry, end, m, i + 1, idx + 1, Put(acc, q, idx));
    }
  }

  /**
    The pair of line `j`, read on no earlier line, takes the place right after
    the pairs read before line `j`.
  */
  lemma ReadMergesFirst(entry: nat -> Result<Pair>, end: nat, b: nat, j: nat)
    requires b <= j < end && entry(j).Ok?
    requires forall j' :: b <= j' < j ==> entry(j') != entry(j)
    requires ReadMerges(entry, end, b, 256, []).Ok?
    ensures ReadMerges(entry, j, b, 256, []).Ok?
    ensures var before := ReadMerges(entry, j, b, 256, []).value;
      |before| < |ReadMerges(entry, end, b, 256, []).value| &&
      ReadMerges(entry, end, b, 256, []).value[|before|].0 == entry(j).value
  {
    ReadMergesSplit(entry, end, j, b, 256, []);
    var before := ReadMerges(entry, j, b, 256, []).value;
    ReadMergesKeep(entry, j, b, 256, [], entry(j).value);
    ReadMergesNewKey(entry, end, j, 256 + (j - b), before);
  }

  /** The pair of line `i`, not yet a key, is appended and stays in that place. */
  lemma ReadMergesNewKey(entry: nat -> Result<Pair>, end: nat, i: nat, idx: int, acc: Merges)
    requires i < end && entry(i).Ok? && entry(i).value !in Keys(acc)
    requires ReadMerges(entry, end, i, idx, acc).Ok?
    ensures |acc| < |ReadMerges(entry, end, i, idx, acc).value|
    ensures ReadMerges(entry, end, i, idx, acc).value[|acc|].0 == entry(i).value
  {
    var p := entry(i).value;
    PutFacts(acc, p, idx);
    var after := acc + [(p, idx)];
    assert ReadMerges(entry, end, i, idx, acc) == ReadMerges(entry, end, i + 1, idx + 1, after);
    ReadMergesPlaces(entry, end, i + 1, idx + 1, after);
  }
}
