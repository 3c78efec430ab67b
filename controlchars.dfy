/**
  `replace_control_characters` (minbpe/base.py): every character whose Unicode
  General Category is one of the "Other" categories (the two-letter value starts
  with C) becomes `\u` followed by its code point in lower-case hexadecimal,
  padded with zeros to at least four digits; every other character is kept.
*/
module ControlChars {
  import opened Text


  /** The General Category values of Unicode Standard Annex #44, section 5.7.1. */
  datatype Category =
    | Lu | Ll | Lt | Lm | Lo
    | Mn | Mc | Me
    | Nd | Nl | No
    | Pc | Pd | Ps | Pe | Pi | Pf | Po
    | Sm | Sc | Sk | So
    | Zs | Zl | Zp
    | Cc | Cf | Cs | Co | Cn

  /** The category's two-letter name starts with "C". */
  predicate IsOther(g: Category) {
    g.Cc? || g.Cf? || g.Cs? || g.Co? || g.Cn?
  }

  function HexDigit(d: nat): char
    requires d < 16
  {
    if d < 10 then ('0' as int + d) as char else ('a' as int + d - 10) as char
  }

  predicate IsHexDigit(c: char) {
    '0' <= c <= '9' || 'a' <= c <= 'f'
  }

  function HexDigitValue(c: char): nat
    requires IsHexDigit(c)
  {
    if c <= '9' then c as int - '0' as int else c as int - 'a' as int + 10
  }

  /** `format(n, 'x')`: lower-case hexadecimal digits without leading zeros. */
  function Hex(n: nat): (s: string)
    ensures s != [] && forall i :: 0 <= i < |s| ==> IsHexDigit(s[i])
    decreases n
  {
    if n < 16 then [HexDigit(n)] else Hex(n / 16) + [HexDigit(n % 16)]
  }

  function Zeros(k: nat): (s: string)
    ensures |s| == k && forall i :: 0 <= i < k ==> s[i] == '0'
  {
    if k == 0 then [] else Zeros(k - 1) + ['0']
  }

  /** `format(n, '04x')`: at least four digits, zero-padded on the left. */
  function Hex4(n: nat): (s: string)
    ensures forall i :: 0 <= i < |s| ==> IsHexDigit(s[i])
  {
    var h := Hex(n);
    if |h| >= 4 then h else Zeros(4 - |h|) + h
  }

  /** `f'\\u{ord(ch):04x}'`. */
  function Escape(c: char): string {
    "\\u" + Hex4(c as int)
  }

  /** What one character becomes. */
  function Piece(category: char -> Category, c: char): string {
    if IsOther(category(c)) then Escape(c) else [c]
  }

  /** The replacement of a whole string, one character after another. */
  function Replaced(category: char -> Category, s: string): string
    decreases |s|
  {
    if s == [] then [] else Replaced(category, s[..|s| - 1]) + Piece(category, s[|s| - 1])
  }

  /**
    `replace_control_characters(s)`, with `unicodedata.category` as the
    parameter `category`.
  */
  method ReplaceControlCharacters(category: char -> Category, s: string) returns (r: string)
    ensures r == Replaced(category, s)
  {
    var chars: seq<string> := [];
    var i := 0;
    while i < |s|
      invariant i <= |s|
      invariant Concat(chars) == Replaced(category, s[..i])
    {
      var ch := s[i];
      if !IsOther(category(ch)) {
        chars := chars + [[ch]];
      } else {
        chars := chars + [Escape(ch)];
      }
      assert s[..i + 1][..i] == s[..i];
      i := i + 1;
    }
    assert s[..i] == s;
    r := Concat(chars);
  }

  /** The value of a run of hexadecimal digits. */
  function HexValue(s: string): nat
    requires forall i :: 0 <= i < |s| ==> IsHexDigit(s[i])
  {
    if s == [] then 0 else 16 * HexValue(s[..|s| - 1]) + HexDigitValue(s[|s| - 1])
  }

  // ----- Lemmas -----

  lemma {:induction false} HexValueOf(n: nat)
    ensures HexValue(Hex(n)) == n
    decreases n
  {
    var s := Hex(n);
    if n >= 16 {
      HexValueOf(n / 16);
      assert s[..|s| - 1] == Hex(n / 16);
    }
  }

  lemma {:induction false} ZerosValue(k: nat, s: string)
    requires forall i :: 0 <= i < |s| ==> IsHexDigit(s[i])
    ensures HexValue(Zeros(k) + s) == HexValue(s)
    decreases |s|, k
  {
    var t := Zeros(k) + s;
    if s != [] {
      assert t[..|t| - 1] == Zeros(k) + s[..|s| - 1];
      ZerosValue(k, s[..|s| - 1]);
    } else if k > 0 {
      assert t == Zeros(k - 1) + ['0'];
      assert t[..|t| - 1] == Zeros(k - 1) + [];
      ZerosValue(k - 1, []);
    }
  }

  /**
    The digits of an escape read back as the code point, and there are exactly
    four of them for every character of the Basic Multilingual Plane.
  */
  lemma Hex4Value(n: nat)
    ensures HexValue(Hex4(n)) == n
    ensures |Hex4(n)| >= 4 && (n < 0x10000 ==> |Hex4(n)| == 4)
  {
    HexValueOf(n);
    if |Hex(n)| < 4 {
      ZerosValue(4 - |Hex(n)|, Hex(n));
    }
    HexLength(n);
  }

  lemma {:induction false} HexLength(n: nat)
    ensures n < 0x10000 ==> |Hex(n)| <= 4
    ensures n < 0x1000 ==> |Hex(n)| <= 3
    ensures n < 0x100 ==> |Hex(n)| <= 2
    ensures n < 0x10 ==> |Hex(n)| == 1
    decreases n
  {
    if n >= 16 {
      HexLength(n / 16);
    }
  }

  lemma ReplacedSnoc(category: char -> Category, s: string, c: char)
    ensures Replaced(category, s + [c]) == Replaced(category, s) + Piece(category, c)
  {
    assert (s + [c])[..|s|] == s;
  }

  /** Replacing is done character by character: it distributes over concatenation. */
  lemma {:induction false} ReplacedAppend(category: char -> Category, s: string, t: string)
    ensures Replaced(category, s + t) == Replaced(category, s) + Replaced(category, t)
    decreases |t|
  {
    if t == [] {
      assert s + t == s;
    } else {
      var t', c := t[..|t| - 1], t[|t| - 1];
      ReplacedAppend(category, s, t');
      calc {
        Replaced(category, s + t);
        { SplitLast(s, t); }
        Replaced(category, (s + t') + [c]);
        { ReplacedSnoc(category, s + t', c); }
        Replaced(category, s + t') + Piece(category, c);
        (Replaced(category, s) + Replaced(category, t')) + Piece(category, c);
        { StringAssoc(Replaced(category, s), Replaced(category, t'), Piece(category, c)); }
        Replaced(category, s) + (Replaced(category, t') + Piece(category, c));
        { assert t == t' + [c]; ReplacedSnoc(category, t', c); }
        Replaced(category, s) + Replaced(category, t);
      }
    }
  }

  lemma SplitLast(s: string, t: string)
    requires t != []
    ensures s + t == (s + t[..|t| - 1]) + [t[|t| - 1]]
  {
    assert t == t[..|t| - 1] + [t[|t| - 1]];
  }

  lemma StringAssoc(a: string, b: string, c: string)
    ensures (a + b) + c == a + (b + c)
  {
  }

  /** A string without control characters comes back unchanged. */
  lemma {:induction false} ReplacedUnchanged(category: char -> Category, s: string)
    requires forall i :: 0 <= i < |s| ==> !IsOther(category(s[i]))
    ensures Replaced(category, s) == s
    decreases |s|
  {
    if s != [] {
      ReplacedUnchanged(category, s[..|s| - 1]);
      assert s == s[..|s| - 1] + [s[|s| - 1]];
    }
  }

  /** A control character becomes exactly its escape. */
  lemma ReplacedOne(category: char -> Category, c: char)
    ensures IsOther(category(c)) ==> Replaced(category, [c]) == Escape(c)
    ensures !IsOther(category(c)) ==> Replaced(category, [c]) == [c]
  {
    assert [c][..0] == [];
  }
}
