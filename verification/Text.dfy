/** The few functions of Go's strings and bytes packages that the model needs, on bytes. */
module Text {
  import opened Basics
  import opened Utf8

  /** Width of the white-space character that starts `s`, or 0: ASCII space and controls,
      U+0085, U+00A0, U+1680, U+2000 to U+200A, U+2028, U+2029, U+202F, U+205F, U+3000. */
  function LeadingSpace(s: Bytes): (w: nat)
    ensures w <= |s|
  {
    if |s| >= 1 && AsciiSpace(s[0]) then 1
    else if |s| >= 2 && Space2(s[0], s[1]) then 2
    else if |s| >= 3 && Space3(s[0], s[1], s[2]) then 3
    else 0
  }

  function TrailingSpace(s: Bytes): (w: nat)
    ensures w <= |s|
  {
    var n := |s|;
    if n >= 1 && AsciiSpace(s[n - 1]) then 1
    else if n >= 2 && Space2(s[n - 2], s[n - 1]) then 2
    else if n >= 3 && Space3(s[n - 3], s[n - 2], s[n - 1]) then 3
    else 0
  }

  predicate AsciiSpace(b: Byte) {
    9 <= b <= 13 || b == 32
  }

  predicate Space2(a: Byte, b: Byte) {
    a == 0xC2 && (b == 0x85 || b == 0xA0)
  }

  predicate Space3(a: Byte, b: Byte, c: Byte) {
    || (a == 0xE1 && b == 0x9A && c == 0x80)
    || (a == 0xE2 && b == 0x80 && (0x80 <= c <= 0x8A || c == 0xA8 || c == 0xA9 || c == 0xAF))
    || (a == 0xE2 && b == 0x81 && c == 0x9F)
    || (a == 0xE3 && b == 0x80 && c == 0x80)
  }

  function TrimLeft(s: Bytes): (t: Bytes)
    ensures LeadingSpace(t) == 0
    ensures |t| <= |s|
    decreases |s|
  {
    if LeadingSpace(s) == 0 then s else TrimLeft(s[LeadingSpace(s)..])
  }

  function TrimRight(s: Bytes): (t: Bytes)
    ensures TrailingSpace(t) == 0
    ensures t <= s
    decreases |s|
  {
    if TrailingSpace(s) == 0 then s else TrimRight(s[..|s| - TrailingSpace(s)])
  }

  function TrimSpace(s: Bytes): Bytes {
    TrimRight(TrimLeft(s))
  }

  /** A string that neither starts nor ends with white space is kept, and loses a final LF. */
  lemma TrimKeeps(s: Bytes)
    requires s != [] && LeadingSpace(s) == 0 && TrailingSpace(s) == 0
    ensures TrimSpace(s) == s
    ensures s[0] < 0x80 ==> TrimSpace(s + [LF]) == s
  {
    assert (s + [LF])[..|s|] == s;
    assert TrailingSpace(s + [LF]) == 1;
  }

  predicate HasSuffix(s: Bytes, suffix: Bytes) {
    |suffix| <= |s| && s[|s| - |suffix|..] == suffix
  }

  // ----- what white space is, and what trimming leaves -----

  /** The characters with the property White_Space of the Unicode standard. */
  predicate WhiteSpace(c: Scalar) {
    || 0x09 <= c <= 0x0D || c == 0x20 || c == 0x85 || c == 0xA0 || c == 0x1680 || 0x2000 <= c <= 0x200A
    || c == 0x2028 || c == 0x2029 || c == 0x202F || c == 0x205F || c == 0x3000
  }

  lemma SpaceCharacter(s: Bytes) returns (c: Scalar)
    requires LeadingSpace(s) > 0
    ensures WhiteSpace(c) && EncodeRune(c) == s[..LeadingSpace(s)]
  {
    if LeadingSpace(s) == 1 {
      c := s[0];
    } else if LeadingSpace(s) == 2 {
      c := s[1];
    } else if s[0] == 0xE1 {
      c := 0x1680;
    } else if s[0] == 0xE3 {
      c := 0x3000;
    } else if s[1] == 0x80 {
      c := 0x2000 + (s[2] as int - 0x80);
    } else {
      c := 0x205F;
    }
  }

  lemma SpaceAlone(c: Scalar)
    requires WhiteSpace(c)
    ensures LeadingSpace(EncodeRune(c)) == |EncodeRune(c)| == TrailingSpace(EncodeRune(c)) > 0
    ensures EncodeRune(c)[0] < 0x80 || EncodeRune(c)[0] >= 0xC0
  {
    if c == 0x85 || c == 0xA0 {
      assert EncodeRune(c) == [0xC2, c];
    } else if c == 0x1680 {
      assert EncodeRune(c) == [0xE1, 0x9A, 0x80];
    } else if c == 0x3000 {
      assert EncodeRune(c) == [0xE3, 0x80, 0x80];
    } else if c == 0x205F {
      assert EncodeRune(c) == [0xE2, 0x81, 0x9F];
    } else if c >= 0x2000 {
      assert c / 0x40 == 0x80 && c % 0x40 == c - 0x2000;
      assert EncodeRune(c) == [0xE2, 0x80, 0x80 + (c - 0x2000)];
    }
  }

  lemma SpaceInContext(t: Bytes, rest: Bytes)
    ensures LeadingSpace(t) == |t| > 0 ==> LeadingSpace(t + rest) == |t|
    ensures TrailingSpace(t) == |t| > 0 ==> TrailingSpace(rest + t) == |t|
  {
  }

  /** The byte tables take from either end exactly one encoded white-space character. */
  lemma SpaceIff(s: Bytes)
    ensures LeadingSpace(s) > 0 <==> exists c :: WhiteSpace(c) && EncodeRune(c) <= s
    ensures forall c :: WhiteSpace(c) && EncodeRune(c) <= s ==> LeadingSpace(s) == |EncodeRune(c)|
    ensures forall c :: WhiteSpace(c) && HasSuffix(s, EncodeRune(c)) ==> TrailingSpace(s) == |EncodeRune(c)|
    ensures TrailingSpace(s) > 0 ==> exists c :: WhiteSpace(c) && HasSuffix(s, EncodeRune(c))
  {
    hide EncodeRune, WhiteSpace, LeadingSpace, TrailingSpace;
    if LeadingSpace(s) > 0 {
      var c := SpaceCharacter(s);
    }
    forall c | WhiteSpace(c) && EncodeRune(c) <= s ensures LeadingSpace(s) == |EncodeRune(c)| > 0 {
      SpaceAlone(c);
      SpaceInContext(EncodeRune(c), s[|EncodeRune(c)|..]);
      assert s == EncodeRune(c) + s[|EncodeRune(c)|..];
    }
    forall c | WhiteSpace(c) && HasSuffix(s, EncodeRune(c)) ensures TrailingSpace(s) == |EncodeRune(c)| {
      var n := |s| - |EncodeRune(c)|;
      SpaceAlone(c);
      SpaceInContext(EncodeRune(c), s[..n]);
      assert s == s[..n] + EncodeRune(c);
    }
    if TrailingSpace(s) > 0 {
      var n := |s| - TrailingSpace(s);
      SpaceAtEnd(s);
      var c := SpaceCharacter(s[n..]);
      assert s[n..][..LeadingSpace(s[n..])] == s[n..];
    }
  }

  lemma SpaceAtEnd(s: Bytes)
    requires TrailingSpace(s) > 0
    ensures LeadingSpace(s[|s| - TrailingSpace(s)..]) == TrailingSpace(s)
  {
  }

  /** Neither end is white space. */
  predicate Bare(t: Bytes) {
    t != [] && LeadingSpace(t) == 0 && TrailingSpace(t) == 0
  }

  ghost predicate AllSpace(cs: seq<Scalar>) {
    forall c :: c in cs ==> WhiteSpace(c)
  }

  /** What follows cannot complete a white-space character that `t` only begins. */
  lemma StillBare(t: Bytes, rest: Bytes)
    requires t != [] && LeadingSpace(t) == 0
    requires rest != [] ==> rest[0] < 0x80 || rest[0] >= 0xC0
    ensures LeadingSpace(t + rest) == 0
  {
    assert forall i :: 0 <= i < |t| ==> (t + rest)[i] == t[i];
    assert rest != [] ==> (t + rest)[|t|] == rest[0];
  }

  lemma {:induction false} TrimLeftSpaces(cs: seq<Scalar>, t: Bytes)
    requires AllSpace(cs) && LeadingSpace(t) == 0
    ensures TrimLeft(EncodeRunes(cs) + t) == t
  {
    hide EncodeRune, WhiteSpace, LeadingSpace;
    if cs == [] {
      assert EncodeRunes(cs) + t == t;
    } else {
      var first, rest := EncodeRune(cs[0]), EncodeRunes(cs[1..]) + t;
      assert EncodeRunes(cs) + t == first + rest;
      SpaceAlone(cs[0]);
      SpaceInContext(first, rest);
      assert (first + rest)[|first|..] == rest;
      TrimLeftSpaces(cs[1..], t);
    }
  }

  lemma {:induction false} RunesSplit(cs: seq<Scalar>, ds: seq<Scalar>)
    ensures EncodeRunes(cs + ds) == EncodeRunes(cs) + EncodeRunes(ds)
  {
    if cs == [] {
      assert cs + ds == ds;
    } else {
      assert (cs + ds)[1..] == cs[1..] + ds;
      RunesSplit(cs[1..], ds);
    }
  }

  lemma {:induction false} TrimRightSpaces(t: Bytes, cs: seq<Scalar>)
    requires AllSpace(cs) && TrailingSpace(t) == 0
    ensures TrimRight(t + EncodeRunes(cs)) == t
  {
    hide EncodeRune, WhiteSpace, TrailingSpace;
    if cs == [] {
      assert t + EncodeRunes(cs) == t;
    } else {
      var last := |cs| - 1;
      var rest, end := t + EncodeRunes(cs[..last]), EncodeRune(cs[last]);
      RunesSplit(cs[..last], [cs[last]]);
      assert cs == cs[..last] + [cs[last]];
      assert EncodeRunes([cs[last]]) == end + EncodeRunes([]) == end;
      assert t + EncodeRunes(cs) == rest + end;
      SpaceAlone(cs[last]);
      SpaceInContext(end, rest);
      assert (rest + end)[..|rest|] == rest;
      TrimRightSpaces(t, cs[..last]);
    }
  }

  lemma SpacesStart(cs: seq<Scalar>)
    requires AllSpace(cs)
    ensures EncodeRunes(cs) != [] ==> EncodeRunes(cs)[0] < 0x80 || EncodeRunes(cs)[0] >= 0xC0
  {
    hide EncodeRune, WhiteSpace;
    if cs != [] {
      SpaceAlone(cs[0]);
    }
  }

  /** TrimSpace takes away any white space on both sides and nothing else. */
  lemma TrimIs(cs: seq<Scalar>, t: Bytes, ds: seq<Scalar>)
    requires AllSpace(cs) && AllSpace(ds) && (t == [] || Bare(t))
    ensures TrimSpace(EncodeRunes(cs) + t + EncodeRunes(ds)) == t
  {
    hide EncodeRune, EncodeRunes, LeadingSpace, TrailingSpace, WhiteSpace, TrimLeft, TrimRight;
    var before, after := EncodeRunes(cs), EncodeRunes(ds);
    if t == [] {
      TrimRightSpaces([], []);
      RunesSplit(cs, ds);
      TrimLeftSpaces(cs + ds, []);
      assert before + t + after == EncodeRunes(cs + ds) + [];
    } else {
      SpacesStart(ds);
      StillBare(t, after);
      assert before + t + after == before + (t + after);
      TrimLeftSpaces(cs, t + after);
      TrimRightSpaces(t, ds);
    }
  }

  /** Blanks, tabs and line ends. */
  ghost predicate Blank(s: Bytes) {
    forall b :: b in s ==> b == ' ' as int || b == '\t' as int || b == '\r' as int || b == '\n' as int
  }

  lemma {:induction false} BlankIsSpace(s: Bytes) returns (cs: seq<Scalar>)
    requires Blank(s)
    ensures AllSpace(cs) && EncodeRunes(cs) == s
  {
    if s == [] {
      cs := [];
    } else {
      assert s[0] in s && forall b :: b in s[1..] ==> b in s;
      var rest := BlankIsSpace(s[1..]);
      cs := [s[0] as int] + rest;
      assert cs[1..] == rest && s == [s[0]] + s[1..];
    }
  }

  lemma TrimBlank(before: Bytes, t: Bytes, after: Bytes)
    requires Blank(before) && Blank(after) && (t == [] || Bare(t))
    ensures TrimSpace(before + t + after) == t
  {
    var cs := BlankIsSpace(before);
    var ds := BlankIsSpace(after);
    TrimIs(cs, t, ds);
  }

  /** Position of the first occurrence of `part`, if there is one. */
  function Index(s: Bytes, part: Bytes): (i: Option<nat>)
    ensures i.Some? ==> i.value + |part| <= |s| && s[i.value..i.value + |part|] == part
    decreases |s|
  {
    if part <= s then Some(0)
    else if s == [] then None
    else match Index(s[1..], part)
      case None => None
      case Some(n) => Some(n + 1)
  }

  /** The pieces between separators; always at least one. */
  function Split(s: Bytes, separator: Byte): (pieces: seq<Bytes>)
    ensures pieces != []
    decreases |s|
  {
    if s == [] then [[]]
    else
      var rest := Split(s[1..], separator);
      if s[0] == separator then [[]] + rest else [[s[0]] + rest[0]] + rest[1..]
  }

  function Join(pieces: seq<Bytes>, separator: Byte): Bytes
    requires pieces != []
  {
    if |pieces| == 1 then pieces[0] else pieces[0] + [separator] + Join(pieces[1..], separator)
  }

  /** Splitting cuts at every separator and nowhere else. */
  lemma {:induction false} SplitJoins(s: Bytes, separator: Byte)
    ensures Join(Split(s, separator), separator) == s
    ensures forall piece :: piece in Split(s, separator) ==> separator !in piece
    decreases |s|
  {
    if s != [] {
      var rest := Split(s[1..], separator);
      SplitJoins(s[1..], separator);
      assert s == [s[0]] + s[1..];
      if s[0] == separator {
        assert ([[]] + rest)[1..] == rest;
      } else {
        assert ([[s[0]] + rest[0]] + rest[1..])[1..] == rest[1..];
      }
    }
  }

  /** strings.Trim with a set of ASCII characters. */
  function TrimLeftAny(s: Bytes, cut: set<Byte>): Bytes
    decreases |s|
  {
    if s != [] && s[0] in cut then TrimLeftAny(s[1..], cut) else s
  }

  function TrimRightAny(s: Bytes, cut: set<Byte>): Bytes
    decreases |s|
  {
    if s != [] && s[|s| - 1] in cut then TrimRightAny(s[..|s| - 1], cut) else s
  }

  function TrimAny(s: Bytes, cut: set<Byte>): Bytes {
    TrimRightAny(TrimLeftAny(s, cut), cut)
  }

  // ----- parts of strings -----

  ghost predicate Within(part: Bytes, whole: Bytes) {
    exists before, after :: whole == before + part + after
  }

  lemma CutWithin(whole: Bytes, i: nat, j: nat)
    requires i <= j <= |whole|
    ensures Within(whole[i..j], whole)
  {
    assert whole == whole[..i] + whole[i..j] + whole[j..];
  }

  lemma WithinWithin(a: Bytes, b: Bytes, c: Bytes)
    requires Within(a, b) && Within(b, c)
    ensures Within(a, c)
  {
    var p, q :| b == p + a + q;
    var r, t :| c == r + b + t;
    assert c == (r + p) + a + (q + t);
  }

  lemma {:induction false} TrimLeftWithin(s: Bytes)
    ensures Within(TrimLeft(s), s)
    decreases |s|
  {
    var w := LeadingSpace(s);
    CutWithin(s, w, |s|);
    assert s[w..|s|] == s[w..];
    if w == 0 {
      assert s[0..] == s;
    } else {
      TrimLeftWithin(s[w..]);
      WithinWithin(TrimLeft(s), s[w..], s);
    }
  }

  lemma TrimSpaceWithin(s: Bytes)
    ensures Within(TrimSpace(s), s)
  {
    var t := TrimLeft(s);
    TrimLeftWithin(s);
    CutWithin(t, 0, |TrimRight(t)|);
    assert t[0..|TrimRight(t)|] == TrimRight(t);
    WithinWithin(TrimRight(t), t, s);
  }

  lemma {:induction false} TrimLeftAnyWithin(s: Bytes, cut: set<Byte>)
    ensures Within(TrimLeftAny(s, cut), s)
    decreases |s|
  {
    if s != [] && s[0] in cut {
      TrimLeftAnyWithin(s[1..], cut);
      CutWithin(s, 1, |s|);
      assert s[1..|s|] == s[1..];
      WithinWithin(TrimLeftAny(s, cut), s[1..], s);
    } else {
      CutWithin(s, 0, |s|);
      assert s[0..|s|] == s;
    }
  }

  lemma {:induction false} TrimRightAnyWithin(s: Bytes, cut: set<Byte>)
    ensures Within(TrimRightAny(s, cut), s)
    decreases |s|
  {
    if s != [] && s[|s| - 1] in cut {
      TrimRightAnyWithin(s[..|s| - 1], cut);
      CutWithin(s, 0, |s| - 1);
      WithinWithin(TrimRightAny(s, cut), s[..|s| - 1], s);
    } else {
      CutWithin(s, 0, |s|);
      assert s[0..|s|] == s;
    }
  }

  lemma TrimAnyWithin(s: Bytes, cut: set<Byte>)
    ensures Within(TrimAny(s, cut), s)
  {
    TrimLeftAnyWithin(s, cut);
    TrimRightAnyWithin(TrimLeftAny(s, cut), cut);
    WithinWithin(TrimAny(s, cut), TrimLeftAny(s, cut), s);
  }

  lemma {:induction false} JoinedWithin(pieces: seq<Bytes>, separator: Byte, k: nat)
    requires k < |pieces|
    ensures Within(pieces[k], Join(pieces, separator))
  {
    var whole := Join(pieces, separator);
    if k == 0 {
      CutWithin(whole, 0, |pieces[0]|);
      assert whole[0..|pieces[0]|] == pieces[0];
    } else {
      JoinedWithin(pieces[1..], separator, k - 1);
      CutWithin(whole, |pieces[0]| + 1, |whole|);
      assert whole[|pieces[0]| + 1..|whole|] == Join(pieces[1..], separator);
      WithinWithin(pieces[k], Join(pieces[1..], separator), whole);
    }
  }

  /** Every piece is a part of the string and holds no separator. */
  lemma PieceWithin(s: Bytes, separator: Byte, piece: Bytes)
    requires piece in Split(s, separator)
    ensures Within(piece, s) && separator !in piece
  {
    SplitJoins(s, separator);
    var k :| 0 <= k < |Split(s, separator)| && Split(s, separator)[k] == piece;
    JoinedWithin(Split(s, separator), separator, k);
  }
}
