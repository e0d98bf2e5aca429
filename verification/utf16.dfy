/**
 * JavaScript strings are sequences of UTF-16 code units: `length`, `text[i]`,
 * `slice` and a regular expression without the `u` flag all count and index
 * code units, not characters. The model's strings are Dafny `string`s
 * (sequences of Unicode scalar values); this module gives their UTF-16 form.
 */
module Utf16 {
  import opened Wrappers

  type CodeUnit = u: int | 0 <= u < 0x1_0000

  /** A character of the Basic Multilingual Plane takes one code unit. */
  predicate IsBmp(c: char) {
    (c as int) < 0x1_0000
  }

  predicate IsHighSurrogate(u: int) { 0xD800 <= u < 0xDC00 }
  predicate IsLowSurrogate(u: int) { 0xDC00 <= u < 0xE000 }

  /** The scalar value a surrogate pair stands for. */
  function Combine(hi: int, lo: int): int {
    0x1_0000 + (hi - 0xD800) * 0x400 + (lo - 0xDC00)
  }

  /** The code units of one character: itself, or a surrogate pair. */
  function Units(c: char): (r: seq<CodeUnit>)
    ensures IsBmp(c) ==> r == [c as int]
    ensures !IsBmp(c) ==> |r| == 2 && IsHighSurrogate(r[0]) && IsLowSurrogate(r[1])
    ensures !IsBmp(c) ==> c as int == Combine(r[0], r[1])
  {
    var n := c as int;
    if n < 0x1_0000 then [n]
    else
      var v := n - 0x1_0000;
      [0xD800 + v / 0x400, 0xDC00 + v % 0x400]
  }

  /** The UTF-16 encoding of a string: what JavaScript holds for it. */
  function Encode(s: string): (r: seq<CodeUnit>)
    ensures |s| <= |r| <= 2 * |s|
  {
    if s == [] then [] else Units(s[0]) + Encode(s[1..])
  }

  /** Decoding of well-formed UTF-16; a lone surrogate makes it fail. */
  function Decode(u: seq<CodeUnit>): (r: Option<string>)
    decreases |u|
  {
    if u == [] then Some([])
    else if IsLowSurrogate(u[0]) then None
    else if IsHighSurrogate(u[0]) then
      if |u| < 2 || !IsLowSurrogate(u[1]) then None
      else
        var n := Combine(u[0], u[1]);
        match Decode(u[2..])
        case None => None
        case Some(rest) => Some([n as char] + rest)
    else
      match Decode(u[1..])
      case None => None
      case Some(rest) => Some([u[0] as char] + rest)
  }

  lemma {:induction false} EncodeAppend(a: string, b: string)
    ensures Encode(a + b) == Encode(a) + Encode(b)
  {
    if a == [] {
      assert a + b == b;
    } else {
      assert (a + b)[1..] == a[1..] + b;
      EncodeAppend(a[1..], b);
    }
  }

  /** Decoding undoes encoding: the encoding loses nothing. */
  lemma {:induction false} DecodeEncode(s: string)
    ensures Decode(Encode(s)) == Some(s)
  {
    if s != [] {
      var u := Units(s[0]);
      assert Encode(s) == u + Encode(s[1..]);
      DecodeEncode(s[1..]);
      if IsBmp(s[0]) {
        assert Encode(s)[1..] == Encode(s[1..]);
      } else {
        assert Encode(s)[2..] == Encode(s[1..]);
      }
      assert [s[0]] + s[1..] == s;
    }
  }

  /** A string of BMP characters has one code unit per character, unchanged. */
  lemma {:induction false} EncodeBmp(s: string)
    requires forall i :: 0 <= i < |s| ==> IsBmp(s[i])
    ensures |Encode(s)| == |s|
    ensures forall i :: 0 <= i < |s| ==> Encode(s)[i] == s[i] as int
  {
    if s != [] {
      EncodeBmp(s[1..]);
    }
  }
}
