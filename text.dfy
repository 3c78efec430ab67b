/**
  The few `str` operations the model file format depends on: `strip()`,
  `split()`, `int(...)`, `str(int)`, and the universal-newline line splitting of
  a file opened in text mode.
*/
module Text {
  import opened Wrappers

  /** `c.isspace()`: the characters Python counts as whitespace. */
  predicate IsSpace(c: char) {
    var n := c as int;
    (0x09 <= n <= 0x0D) || (0x1C <= n <= 0x20) || n == 0x85 || n == 0xA0 || n == 0x1680
    || (0x2000 <= n <= 0x200A) || n == 0x2028 || n == 0x2029 || n == 0x202F || n == 0x205F
    || n == 0x3000
  }

  /** The characters at which a file opened in text mode ends a line. */
  predicate IsLineBreak(c: char) {
    c == '\n' || c == '\r'
  }

  predicate NoSpace(s: string) {
    forall i :: 0 <= i < |s| ==> !IsSpace(s[i])
  }

  predicate NoLineBreak(s: string) {
    forall i :: 0 <= i < |s| ==> !IsLineBreak(s[i])
  }

  /** The number of whitespace characters at the start of `s`. */
  function LeadingSpace(s: string): (k: nat)
    ensures k <= |s| && (k < |s| ==> !IsSpace(s[k]))
    decreases |s|
  {
    if s != [] && IsSpace(s[0]) then 1 + LeadingSpace(s[1..]) else 0
  }

  /** The length of `s` without its trailing whitespace. */
  function TrailingStart(s: string): (k: nat)
    ensures k <= |s| && (k > 0 ==> !IsSpace(s[k - 1]))
    decreases |s|
  {
    if s != [] && IsSpace(s[|s| - 1]) then TrailingStart(s[..|s| - 1]) else |s|
  }

  /** `s.lstrip()`. */
  function StripStart(s: string): string {
    s[LeadingSpace(s)..]
  }

  /** `s.rstrip()`. */
  function StripEnd(s: string): string {
    s[..TrailingStart(s)]
  }

  /** `s.strip()`. */
  function Strip(s: string): (r: string)
    ensures r == [] || (!IsSpace(r[0]) && !IsSpace(r[|r| - 1]))
  {
    StripEnd(StripStart(s))
  }

  /** The index of the first whitespace character, or |s|. */
  function WordEnd(s: string): (k: nat)
    ensures k <= |s| && NoSpace(s[..k]) && (k < |s| ==> IsSpace(s[k]))
  {
    if s == [] || IsSpace(s[0]) then 0 else 1 + WordEnd(s[1..])
  }

  /** `s.split()`: the maximal runs of non-whitespace characters. */
  function Words(s: string): (ws: seq<string>)
    ensures forall i :: 0 <= i < |ws| ==> ws[i] != [] && NoSpace(ws[i])
    decreases |s|
  {
    var t := StripStart(s);
    if t == [] then []
    else
      var k := WordEnd(t);
      var rest := Words(t[k..]);
      assert k > 0;
      [t[..k]] + rest
  }

  function DigitChar(d: nat): char
    requires d < 10
  {
    ('0' as int + d) as char
  }

  predicate IsDigit(c: char) {
    '0' <= c <= '9'
  }

  /** `str(n)` for a natural number: decimal digits, no leading zero. */
  function Digits(n: nat): (s: string)
    ensures s != [] && forall i :: 0 <= i < |s| ==> IsDigit(s[i])
    decreases n
  {
    if n < 10 then [DigitChar(n)] else Digits(n / 10) + [DigitChar(n % 10)]
  }

  /** `str(n)`. */
  function IntToString(n: int): string {
    if n < 0 then "-" + Digits(-n) else Digits(n)
  }

  /** The value of a non-empty run of decimal digits. */
  function DigitsValue(s: string): nat
    requires forall i :: 0 <= i < |s| ==> IsDigit(s[i])
  {
    if s == [] then 0
    else
      assert IsDigit(s[|s| - 1]);
      10 * DigitsValue(s[..|s| - 1]) + (s[|s| - 1] as int - '0' as int)
  }

  predicate AllDigits(s: string) {
    s != [] && forall i :: 0 <= i < |s| ==> IsDigit(s[i])
  }

  /**
    `int(s)` restricted to ASCII: surrounding whitespace, an optional sign and
    at least one ASCII digit; None otherwise. Python's `int` also accepts
    underscores between digits and non-ASCII decimal digits, which this
    returns None for.
  */
  function ParseInt(s: string): (r: Option<int>)
  {
    ParseSigned(Strip(s))
  }

  /** An optional sign followed by at least one ASCII digit. */
  function ParseSigned(t: string): (r: Option<int>)
  {
    if t != [] && (t[0] == '-' || t[0] == '+') then
      if AllDigits(t[1..]) then
        var v: int := DigitsValue(t[1..]);
        Some(if t[0] == '-' then -v else v)
      else None
    else if AllDigits(t) then Some(DigitsValue(t))
    else None
  }

  /** The index of the first line break, or |s|. */
  function LineEnd(s: string): (i: nat)
    ensures i <= |s| && NoLineBreak(s[..i]) && (i < |s| ==> IsLineBreak(s[i]))
  {
    if s == [] || IsLineBreak(s[0]) then 0 else 1 + LineEnd(s[1..])
  }

  /**
    The lines of a file read in text mode, without their terminators: "\n",
    "\r\n" and a lone "\r" each end a line, and a last line needs no terminator.
  */
  function Lines(s: string): (ls: seq<string>)
    ensures forall i :: 0 <= i < |ls| ==> NoLineBreak(ls[i])
    decreases |s|
  {
    if s == [] then []
    else
      var i := LineEnd(s);
      if i == |s| then [s]
      else
        var next := if s[i] == '\r' && i + 1 < |s| && s[i + 1] == '\n' then i + 2 else i + 1;
        [s[..i]] + Lines(s[next..])
  }

  /** `s.endswith(suffix)`. */
  predicate EndsWith(s: string, suffix: string) {
    |suffix| <= |s| && s[|s| - |suffix|..] == suffix
  }

  /** `"".join(parts)`. */
  function Concat(parts: seq<string>): string {
    if parts == [] then [] else Concat(parts[..|parts| - 1]) + parts[|parts| - 1]
  }

  /** What writing each string followed by "\n" puts in a file. */
  function Terminated(ls: seq<string>): string {
    if ls == [] then [] else ls[0] + "\n" + Terminated(ls[1..])
  }

  // ----- Lemmas -----

  lemma {:induction false} DigitsValueOf(n: nat)
    ensures DigitsValue(Digits(n)) == n
    decreases n
  {
    var s := Digits(n);
    if n >= 10 {
      DigitsValueOf(n / 10);
      assert s[..|s| - 1] == Digits(n / 10);
    }
  }

  lemma {:induction false} ParseDigits(n: nat)
    ensures ParseSigned(Digits(n)) == Some(n)
  {
    var s := Digits(n);
    assert IsDigit(s[0]);
    DigitsValueOf(n);
  }

  lemma {:induction false} ParseNegative(n: nat)
    ensures ParseSigned("-" + Digits(n)) == Some(-(n as int))
  {
    var s := "-" + Digits(n);
    assert s[1..] == Digits(n);
    DigitsValueOf(n);
  }

  lemma {:induction false} ParseNonNegative(n: int)
    requires n >= 0
    ensures ParseInt(IntToString(n)) == Some(n)
  {
    IntToStringPlain(n);
    StripUnchanged(IntToString(n));
    ParseSignedNonNegative(n);
  }

  /** `str(n)` is non-empty and holds neither whitespace nor a line break. */
  lemma IntToStringPlain(n: int)
    ensures IntToString(n) != [] && NoSpace(IntToString(n)) && NoLineBreak(IntToString(n))
  {
    var s := IntToString(n);
    assert forall i :: 0 <= i < |s| ==> s[i] == '-' || IsDigit(s[i]);
  }

  lemma {:induction false} ParseSignedNonNegative(n: int)
    requires n >= 0
    ensures ParseSigned(IntToString(n)) == Some(n)
  {
    assert IntToString(n) == Digits(n);
    ParseDigits(n);
  }

  lemma {:induction false} ParseSignedBelowZero(n: int)
    requires n < 0
    ensures ParseSigned(IntToString(n)) == Some(n)
  {
    assert IntToString(n) == "-" + Digits(-n);
    ParseNegative(-n);
  }

  lemma {:induction false} ParseBelowZero(n: int)
    requires n < 0
    ensures ParseInt(IntToString(n)) == Some(n)
  {
    IntToStringPlain(n);
    StripUnchanged(IntToString(n));
    ParseSignedBelowZero(n);
  }

  /** `int(str(n)) == n`. */
  lemma {:induction false} ParseIntToString(n: int)
    ensures ParseInt(IntToString(n)) == Some(n)
  {
    if n < 0 {
      ParseBelowZero(n);
    } else {
      ParseNonNegative(n);
    }
  }

  lemma {:induction false} StripUnchanged(s: string)
    requires s == [] || (!IsSpace(s[0]) && !IsSpace(s[|s| - 1]))
    ensures Strip(s) == s
  {
  }

  lemma {:induction false} WordEndOf(w: string, rest: string)
    requires NoSpace(w) && (rest == [] || IsSpace(rest[0]))
    ensures WordEnd(w + rest) == |w|
  {
    if w != [] {
      assert (w + rest)[1..] == w[1..] + rest;
      WordEndOf(w[1..], rest);
    } else {
      assert w + rest == rest;
    }
  }

  /** A word followed by whitespace or nothing is split off first. */
  lemma {:induction false} WordsOfWord(w: string, rest: string)
    requires w != [] && NoSpace(w) && (rest == [] || IsSpace(rest[0]))
    ensures Words(w + rest) == [w] + Words(rest)
  {
    var s := w + rest;
    assert !IsSpace(s[0]);
    WordEndOf(w, rest);
    assert s[..|w|] == w && s[|w|..] == rest;
  }

  lemma {:induction false} WordsAfterSpace(b: string)
    requires b != [] && !IsSpace(b[0])
    ensures Words(" " + b) == Words(b)
  {
    assert (" " + b)[1..] == b;
    assert StripStart(" " + b) == StripStart(b);
  }

  lemma {:induction false} WordsOfOne(b: string)
    requires b != [] && NoSpace(b)
    ensures Words(b) == [b]
  {
    WordsOfWord(b, []);
    assert b + [] == b;
  }

  lemma {:induction false} WordsOfSpaced(b: string)
    requires b != [] && NoSpace(b)
    ensures Words(" " + b) == [b]
  {
    WordsAfterSpace(b);
    WordsOfOne(b);
  }

  lemma {:induction false} WordsOfFirst(a: string, b: string)
    requires a != [] && NoSpace(a) && b != [] && NoSpace(b)
    ensures Words(a + " " + b) == [a] + Words(" " + b)
  {
    assert a + " " + b == a + (" " + b);
    WordsOfWord(a, " " + b);
  }

  /** Splitting "a b" gives back a and b when neither is empty or holds whitespace. */
  lemma {:induction false} WordsOfPair(a: string, b: string)
    requires a != [] && NoSpace(a) && b != [] && NoSpace(b)
    ensures Words(a + " " + b) == [a, b]
  {
    WordsOfFirst(a, b);
    WordsOfSpaced(b);
  }

  lemma {:induction false} LineEndOf(l: string, rest: string)
    requires NoLineBreak(l) && (rest == [] || IsLineBreak(rest[0]))
    ensures LineEnd(l + rest) == |l|
  {
    if l != [] {
      assert (l + rest)[1..] == l[1..] + rest;
      LineEndOf(l[1..], rest);
    } else {
      assert l + rest == rest;
    }
  }

  /** Reading back the lines written with "\n" after each gives the same lines. */
  lemma {:induction false} LinesOfTerminated(ls: seq<string>)
    requires forall i :: 0 <= i < |ls| ==> NoLineBreak(ls[i])
    ensures Lines(Terminated(ls)) == ls
  {
    if ls != [] {
      var l, rest := ls[0], Terminated(ls[1..]);
      var s := l + "\n" + rest;
      assert Terminated(ls) == s;
      LineEndOf(l, "\n" + rest);
      assert s == l + ("\n" + rest);
      assert s[|l|] == '\n' && s[..|l|] == l && s[|l| + 1..] == rest;
      LinesOfTerminated(ls[1..]);
    }
  }

  /** Writing one more line appends it and its terminator. */
  lemma {:induction false} TerminatedSnoc(ls: seq<string>, l: string)
    ensures Terminated(ls + [l]) == Terminated(ls) + l + "\n"
    decreases |ls|
  {
    if ls == [] {
      assert Terminated([l]) == l + "\n" + Terminated([]);
    } else {
      assert (ls + [l])[1..] == ls[1..] + [l];
      TerminatedSnoc(ls[1..], l);
    }
  }

  /** Writing the first k + 1 lines is writing the first k, then line k and its terminator. */
  lemma TerminatedPrefix(ls: seq<string>, k: nat)
    requires k < |ls|
    ensures Terminated(ls[..k + 1]) == Terminated(ls[..k]) + ls[k] + "\n"
  {
    assert ls[..k + 1] == ls[..k] + [ls[k]];
    TerminatedSnoc(ls[..k], ls[k]);
  }

  /** Line breaks are whitespace, so a string without whitespace has none. */
  lemma NoSpaceNoLineBreak(s: string)
    requires NoSpace(s)
    ensures NoLineBreak(s)
  {
    forall i | 0 <= i < |s|
      ensures !IsLineBreak(s[i])
    {
      assert !IsSpace(s[i]);
    }
  }

  lemma NoLineBreakConcat(a: string, b: string)
    requires NoLineBreak(a) && NoLineBreak(b)
    ensures NoLineBreak(a + b)
  {
    forall i | 0 <= i < |a + b|
      ensures !IsLineBreak((a + b)[i])
    {
      if i >= |a| {
        assert (a + b)[i] == b[i - |a|];
      }
    }
  }
}
