/**
  UTF-8 as section 3 of RFC 3629 defines it: `str.encode("utf-8")` and
  `bytes.decode("utf-8", errors="replace")`. Dafny's `char` is a Unicode scalar
  value, so every string has an encoding. The decoder replaces each maximal
  subpart of an ill-formed sequence by U+FFFD, one replacement per subpart, and
  so never fails.
*/
module Utf8 {
  import opened Wrappers

  const Replacement: char := '\U{FFFD}'

  /** The encoding of one scalar value: 1 to 4 bytes. */
  function EncodeChar(c: char): (r: Bytes)
    ensures 1 <= |r| <= 4
  {
    var n := c as int;
    var q1, r1 := n / 64, n % 64;
    var q2, r2 := q1 / 64, q1 % 64;
    var q3, r3 := q2 / 64, q2 % 64;
    if n < 0x80 then [n]
    else if n < 0x800 then [0xC0 + q1, 0x80 + r1]
    else if n < 0x10000 then [0xE0 + q2, 0x80 + r2, 0x80 + r1]
    else [0xF0 + q3, 0x80 + r3, 0x80 + r2, 0x80 + r1]
  }

  /** `s.encode("utf-8")`. */
  function Encode(s: string): (r: Bytes)
    ensures |s| <= |r| <= 4 * |s|
  {
    if s == [] then [] else EncodeChar(s[0]) + Encode(s[1..])
  }

  predicate IsContinuation(b: Byte) {
    0x80 <= b < 0xC0
  }

  /** The length of the sequence a lead byte announces; 0 for a byte no sequence starts with. */
  function SequenceLength(lead: Byte): nat {
    if lead < 0x80 then 1
    else if lead < 0xC2 then 0
    else if lead < 0xE0 then 2
    else if lead < 0xF0 then 3
    else if lead < 0xF5 then 4
    else 0
  }

  /** The bounds of the second byte after a lead byte, which exclude overlong forms, surrogates and values past U+10FFFF. */
  function SecondLow(lead: Byte): Byte {
    if lead == 0xE0 then 0xA0 else if lead == 0xF0 then 0x90 else 0x80
  }

  function SecondHigh(lead: Byte): Byte {
    if lead == 0xED then 0x9F else if lead == 0xF4 then 0x8F else 0xBF
  }

  /**
    The number of bytes at the start of `b` that belong together: the whole
    sequence when it is well formed, otherwise its longest well-formed prefix
    (at least one byte).
  */
  function Subpart(b: Bytes): (k: nat)
    requires |b| > 0
    ensures 1 <= k <= |b|
    ensures SequenceLength(b[0]) >= 1 ==> k <= SequenceLength(b[0])
  {
    var len := SequenceLength(b[0]);
    if len <= 1 then 1
    else if |b| < 2 || !(SecondLow(b[0]) <= b[1] <= SecondHigh(b[0])) then 1
    else if len == 2 then 2
    else if |b| < 3 || !IsContinuation(b[2]) then 2
    else if len == 3 then 3
    else if |b| < 4 || !IsContinuation(b[3]) then 3
    else 4
  }

  /** The scalar value of a well-formed sequence at the start of `b`. */
  function ScalarAt(b: Bytes): (c: char)
    requires |b| > 0 && Subpart(b) == SequenceLength(b[0])
  {
    var len := SequenceLength(b[0]);
    var b0: int, b1: int := b[0], if len >= 2 then b[1] else 0;
    var b2: int, b3: int := if len >= 3 then b[2] else 0, if len >= 4 then b[3] else 0;
    if len == 1 then b0 as char
    else if len == 2 then ((b0 - 0xC0) * 64 + (b1 - 0x80)) as char
    else if len == 3 then
      var n := ((b0 - 0xE0) * 64 + (b1 - 0x80)) * 64 + (b2 - 0x80);
      assert b0 == 0xED ==> n < 0xD800;
      n as char
    else
      var n := (((b0 - 0xF0) * 64 + (b1 - 0x80)) * 64 + (b2 - 0x80)) * 64 + (b3 - 0x80);
      assert b0 == 0xF4 ==> n < 0x110000;
      n as char
  }

  /** `b.decode("utf-8", errors="replace")`. */
  function Decode(b: Bytes): (s: string)
    ensures |s| <= |b|
    decreases |b|
  {
    if b == [] then []
    else
      var k := Subpart(b);
      (if k == SequenceLength(b[0]) then [ScalarAt(b)] else [Replacement]) + Decode(b[k..])
  }

  lemma {:induction false} EncodeAppend(s: string, t: string)
    ensures Encode(s + t) == Encode(s) + Encode(t)
  {
    if s != [] {
      assert (s + t)[0] == s[0] && (s + t)[1..] == s[1..] + t;
      EncodeAppend(s[1..], t);
      calc {
        Encode(s + t);
        EncodeChar(s[0]) + Encode(s[1..] + t);
        EncodeChar(s[0]) + (Encode(s[1..]) + Encode(t));
        (EncodeChar(s[0]) + Encode(s[1..])) + Encode(t);
      }
    } else {
      assert s + t == t;
    }
  }

  /** Bytes that start with the encoding of `c` start with a well-formed sequence for `c`. */
  lemma CharAt(c: char, b: Bytes)
    requires |EncodeChar(c)| <= |b| && b[..|EncodeChar(c)|] == EncodeChar(c)
    ensures Subpart(b) == |EncodeChar(c)| == SequenceLength(b[0])
    ensures ScalarAt(b) == c
  {
    var n := c as int;
    var e := EncodeChar(c);
    assert forall i :: 0 <= i < |e| ==> b[i] == e[i] by {
      forall i | 0 <= i < |e| ensures b[i] == e[i] {
        assert b[..|e|][i] == b[i];
      }
    }
    if n < 0x80 {
    } else if n < 0x800 {
    } else if n < 0x10000 {
    } else {
    }
  }

  /** The bytes of one character decode to that character, whatever follows. */
  lemma DecodeEncodeChar(c: char, rest: Bytes)
    ensures Decode(EncodeChar(c) + rest) == [c] + Decode(rest)
  {
    var e := EncodeChar(c);
    var b := e + rest;
    assert b[..|e|] == e;
    CharAt(c, b);
    assert b[|e|..] == rest;
  }

  /** Decoding undoes encoding. */
  lemma {:induction false} DecodeEncode(s: string)
    ensures Decode(Encode(s)) == s
  {
    if s != [] {
      DecodeEncodeChar(s[0], Encode(s[1..]));
      DecodeEncode(s[1..]);
    }
  }
}
