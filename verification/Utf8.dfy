/** UTF-8 validity as Go's unicode/utf8 decides it: the byte table of section 4 of
    RFC 3629. The table is proved to accept exactly the encodings of scalar values. */
module Utf8 {
  import opened Basics

  predicate Continuation(b: Byte) {
    0x80 <= b <= 0xBF
  }

  /** Width of the well-formed sequence that starts `s`, or 0 when there is none. */
  function RuneWidth(s: Bytes): (w: nat)
    ensures w <= |s|
    ensures w <= 4
  {
    if |s| >= 1 && s[0] <= 0x7F then 1
    else if |s| >= 2 && 0xC2 <= s[0] <= 0xDF && Continuation(s[1]) then 2
    else if |s| >= 3 && Lead3(s[0], s[1]) && Continuation(s[2]) then 3
    else if |s| >= 4 && Lead4(s[0], s[1]) && Continuation(s[2]) && Continuation(s[3]) then 4
    else 0
  }

  /** First two bytes of a three-byte sequence; overlong forms and surrogates are out. */
  predicate Lead3(a: Byte, b: Byte) {
    || (a == 0xE0 && 0xA0 <= b <= 0xBF)
    || (0xE1 <= a <= 0xEC && Continuation(b))
    || (a == 0xED && 0x80 <= b <= 0x9F)
    || (0xEE <= a <= 0xEF && Continuation(b))
  }

  /** First two bytes of a four-byte sequence, up to U+10FFFF. */
  predicate Lead4(a: Byte, b: Byte) {
    || (a == 0xF0 && 0x90 <= b <= 0xBF)
    || (0xF1 <= a <= 0xF3 && Continuation(b))
    || (a == 0xF4 && 0x80 <= b <= 0x8F)
  }

  predicate Valid(s: Bytes)
    decreases |s|
  {
    s == [] || (RuneWidth(s) > 0 && Valid(s[RuneWidth(s)..]))
  }

  /** A Unicode scalar value: any code point but the surrogates. */
  type Scalar = c: int | 0 <= c <= 0xD7FF || 0xE000 <= c <= 0x10FFFF

  /** The encoding of one scalar value, section 3 of RFC 3629. */
  function EncodeRune(c: Scalar): Bytes {
    var low, high := c % 0x40, c / 0x40;
    var middle, top := high % 0x40, high / 0x40;
    if c <= 0x7F then var single: Byte := c; [single]
    else if c <= 0x7FF then var lead: Byte := 0xC0 + high; [lead, 0x80 + low]
    else if c <= 0xFFFF then var lead: Byte := 0xE0 + top; [lead, 0x80 + middle, 0x80 + low]
    else var lead: Byte := 0xF0 + top / 0x40; [lead, 0x80 + top % 0x40, 0x80 + middle, 0x80 + low]
  }

  function EncodeRunes(cs: seq<Scalar>): Bytes {
    if cs == [] then [] else EncodeRune(cs[0]) + EncodeRunes(cs[1..])
  }

  lemma EncodedWidth(c: Scalar, rest: Bytes)
    ensures RuneWidth(EncodeRune(c) + rest) == |EncodeRune(c)|
  {
    var s := EncodeRune(c) + rest;
    assert forall i :: 0 <= i < |EncodeRune(c)| ==> s[i] == EncodeRune(c)[i];
  }

  lemma Decode2(s: Bytes) returns (c: Scalar)
    requires RuneWidth(s) == 2
    ensures EncodeRune(c) == s[..2]
  {
    var lead: int, low: int := s[0], s[1];
    c := (lead - 0xC0) * 0x40 + (low - 0x80);
    assert c / 0x40 == lead - 0xC0 && c % 0x40 == low - 0x80;
  }

  lemma Decode3(s: Bytes) returns (c: Scalar)
    requires RuneWidth(s) == 3
    ensures EncodeRune(c) == s[..3]
  {
    var lead: int, middle: int, low: int := s[0], s[1], s[2];
    var high := (lead - 0xE0) * 0x40 + (middle - 0x80);
    c := high * 0x40 + (low - 0x80);
    assert c / 0x40 == high && c % 0x40 == low - 0x80;
    assert high / 0x40 == lead - 0xE0 && high % 0x40 == middle - 0x80;
  }

  lemma Decode4(s: Bytes) returns (c: Scalar)
    requires RuneWidth(s) == 4
    ensures EncodeRune(c) == s[..4]
  {
    var lead: int, upper: int, middle: int, low: int := s[0], s[1], s[2], s[3];
    var top := (lead - 0xF0) * 0x40 + (upper - 0x80);
    var high := top * 0x40 + (middle - 0x80);
    c := high * 0x40 + (low - 0x80);
    assert c / 0x40 == high && c % 0x40 == low - 0x80;
    assert high / 0x40 == top && high % 0x40 == middle - 0x80;
    assert top / 0x40 == lead - 0xF0 && top % 0x40 == upper - 0x80;
  }

  /** The scalar value that a well-formed sequence encodes. */
  lemma DecodeRune(s: Bytes) returns (c: Scalar)
    requires RuneWidth(s) > 0
    ensures EncodeRune(c) == s[..RuneWidth(s)]
  {
    if RuneWidth(s) == 1 {
      c := s[0];
    } else if RuneWidth(s) == 2 {
      c := Decode2(s);
    } else if RuneWidth(s) == 3 {
      c := Decode3(s);
    } else {
      c := Decode4(s);
    }
  }

  lemma {:induction false} EncodedIsValid(cs: seq<Scalar>)
    ensures Valid(EncodeRunes(cs))
  {
    if cs != [] {
      var rest := EncodeRunes(cs[1..]);
      EncodedIsValid(cs[1..]);
      EncodedWidth(cs[0], rest);
      assert (EncodeRune(cs[0]) + rest)[|EncodeRune(cs[0])|..] == rest;
    }
  }

  lemma {:induction false} ValidIsEncoded(s: Bytes) returns (cs: seq<Scalar>)
    requires Valid(s)
    ensures EncodeRunes(cs) == s
    decreases |s|
  {
    if s == [] {
      cs := [];
    } else {
      var w := RuneWidth(s);
      var c := DecodeRune(s);
      var rest := ValidIsEncoded(s[w..]);
      cs := [c] + rest;
      assert cs[1..] == rest;
      assert s[..w] + s[w..] == s;
    }
  }

  /** Valid is exactly what encodes some sequence of scalar values. */
  lemma ValidIffEncoding(s: Bytes)
    ensures Valid(s) <==> exists cs :: EncodeRunes(cs) == s
  {
    if Valid(s) {
      var cs := ValidIsEncoded(s);
    }
    if cs :| EncodeRunes(cs) == s {
      EncodedIsValid(cs);
    }
  }
}
