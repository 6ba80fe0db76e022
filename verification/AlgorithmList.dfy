/** The OpenSSL list normaliser of internal/openssl/client.go: ListAlgorithms on the output
    of the subprocess, addAlgorithmAliases and isOID, with sort.Strings as a function. */
module AlgorithmList {
  import opened Basics
  import opened Text

  const AT: Bytes := Ascii(" @ ")
  const ARROW: Bytes := Ascii(" => ")
  const IDS: Bytes := Ascii("IDs:")
  const IMPLEMENTATION: Bytes := Ascii(" implementation")
  const COLON: Bytes := Ascii(":")
  const COMMA: Byte := 0x2C
  const OPEN: Byte := 0x7B
  const CLOSE: Byte := 0x7D
  const TAB: Byte := 0x09
  const DOT: Byte := 0x2E

  /** Headings and properties of an algorithm, which name none. */
  predicate Ignored(line: Bytes) {
    || line == [] || HasSuffix(line, COLON) || Ascii("Name:") <= line || Ascii("Type:") <= line
    || Ascii("OID:") <= line || Ascii("PEM string:") <= line || Ascii("Alias for:") <= line
  }

  function Before(line: Bytes, part: Bytes): Bytes {
    match Index(line, part)
    case None => line
    case Some(i) => line[..i]
  }

  predicate IsOID(value: Bytes) {
    (forall c :: c in value ==> 0x30 <= c <= 0x39 || c == DOT) && DOT in value
  }

  // ----- what one line names -----

  function UsableAliases(pieces: set<Bytes>): set<Bytes> {
    set piece | piece in pieces && TrimSpace(piece) != [] && !IsOID(TrimSpace(piece)) :: TrimSpace(piece)
  }

  function AliasNames(value: Bytes): set<Bytes> {
    UsableAliases(Elements(Split(TrimSpace(TrimAny(value, {OPEN, CLOSE})), COMMA)))
  }

  /** The list of aliases that a line holds, if it is such a line. */
  function AliasList(line: Bytes): Option<Bytes> {
    if IDS <= line then Some(TrimSpace(line[|IDS|..]))
    else if line != [] && line[0] == OPEN then Some(line)
    else None
  }

  predicate Unusable(name: Bytes) {
    OPEN in name || CLOSE in name || TAB in name || Index(name, IMPLEMENTATION).Some?
  }

  function PlainName(line: Bytes): Bytes {
    if Index(line, ARROW).Some? then TrimSpace(Before(line, ARROW)) else line
  }

  function LineNames(raw: Bytes): set<Bytes> {
    var line := TrimSpace(raw);
    if Ignored(line) then {}
    else
      var entry := Before(line, AT);
      match AliasList(entry)
      case Some(aliases) => AliasNames(aliases)
      case None => if Unusable(PlainName(entry)) then {} else {PlainName(entry)}
  }

  function Names(lines: set<Bytes>): set<Bytes> {
    set line, name | line in lines && name in LineNames(line) :: name
  }

  // ----- the listing -----

  /** Byte-wise order, as sort.Strings compares. */
  predicate Less(a: Bytes, b: Bytes) {
    if b == [] then false
    else if a == [] then true
    else a[0] < b[0] || (a[0] == b[0] && Less(a[1..], b[1..]))
  }

  predicate Increasing(names: seq<Bytes>) {
    forall i, j :: 0 <= i < j < |names| ==> Less(names[i], names[j])
  }

  function Insert(name: Bytes, sorted: seq<Bytes>): seq<Bytes> {
    if sorted == [] then [name]
    else if Less(sorted[0], name) then [sorted[0]] + Insert(name, sorted[1..])
    else [name] + sorted
  }

  /** sort.Strings. */
  function Sorted(names: seq<Bytes>): seq<Bytes> {
    if names == [] then [] else Insert(names[0], Sorted(names[1..]))
  }

  function Elements(names: seq<Bytes>): (s: set<Bytes>)
    ensures forall n :: n in s <==> n in names
  {
    set n | n in names
  }

  predicate NoRepeats(names: seq<Bytes>) {
    forall i, j :: 0 <= i < j < |names| ==> names[i] != names[j]
  }

  lemma {:induction false} LessTotal(a: Bytes, b: Bytes)
    ensures !Less(a, a)
    ensures Less(a, b) || Less(b, a) || a == b
    ensures !(Less(a, b) && Less(b, a))
  {
    if a != [] {
      LessTotal(a[1..], if b == [] then [] else b[1..]);
      if b != [] {
        assert a == [a[0]] + a[1..] && b == [b[0]] + b[1..];
      }
    }
  }

  /** At the first difference `a` has the smaller byte, or is at its end. */
  ghost predicate Precedes(a: Bytes, b: Bytes) {
    exists n: nat :: n <= |a| && n < |b| && a[..n] == b[..n] && (n == |a| || a[n] < b[n])
  }

  lemma {:induction false} LessPrecedes(a: Bytes, b: Bytes)
    ensures Less(a, b) ==> Precedes(a, b)
  {
    if Less(a, b) {
      if a == [] || a[0] < b[0] {
        assert a[..0] == b[..0];
      } else {
        LessPrecedes(a[1..], b[1..]);
        var n: nat :|
          && n <= |a[1..]| && n < |b[1..]| && a[1..][..n] == b[1..][..n]
          && (n == |a[1..]| || a[1..][n] < b[1..][n]);
        assert a[..n + 1] == [a[0]] + a[1..][..n] == b[..n + 1];
      }
    }
  }

  lemma {:induction false} LessTransitive(a: Bytes, b: Bytes, c: Bytes)
    requires Less(a, b) && Less(b, c)
    ensures Less(a, c)
  {
    if a != [] {
      if a[0] == b[0] == c[0] {
        LessTransitive(a[1..], b[1..], c[1..]);
      }
    }
  }

  lemma {:induction false} InsertKeeps(name: Bytes, sorted: seq<Bytes>)
    requires Increasing(sorted) && name !in sorted
    ensures Increasing(Insert(name, sorted))
    ensures forall n :: n in Insert(name, sorted) <==> n == name || n in sorted
  {
    if sorted != [] {
      var head, tail := sorted[0], sorted[1..];
      assert sorted == [head] + tail;
      LessTotal(head, name);
      if Less(head, name) {
        InsertKeeps(name, tail);
        var rest := Insert(name, tail);
        forall n | n in rest ensures Less(head, n) {
          assert n == name || n in tail;
        }
        assert forall j :: 0 <= j < |rest| ==> rest[j] in rest;
      } else {
        forall n | n in sorted ensures Less(name, n) {
          if n != head {
            LessTransitive(name, head, n);
          }
        }
        assert forall j :: 0 <= j < |sorted| ==> sorted[j] in sorted;
      }
    }
  }

  lemma {:induction false} SortedIsCanonical(names: seq<Bytes>)
    requires NoRepeats(names)
    ensures Increasing(Sorted(names)) && Elements(Sorted(names)) == Elements(names)
  {
    if names != [] {
      SortedIsCanonical(names[1..]);
      var rest := Sorted(names[1..]);
      assert names == [names[0]] + names[1..];
      assert names[0] !in names[1..] && (names[0] in rest <==> names[0] in Elements(rest));
      InsertKeeps(names[0], rest);
    }
  }

  lemma FirstIsLeast(a: seq<Bytes>, n: Bytes)
    requires Increasing(a) && n in a
    ensures n == a[0] || Less(a[0], n)
  {
    var i :| 0 <= i < |a| && a[i] == n;
  }

  lemma TailElements(a: seq<Bytes>)
    requires Increasing(a) && a != []
    ensures Increasing(a[1..]) && Elements(a[1..]) == Elements(a) - {a[0]}
  {
    LessTotal(a[0], a[0]);
    assert a == [a[0]] + a[1..];
  }

  lemma NonEmptyElements(a: seq<Bytes>)
    ensures a == [] <==> Elements(a) == {}
  {
    if a != [] {
      assert a[0] in Elements(a);
    }
  }

  /** A set of names has only one increasing listing. */
  lemma {:induction false} IncreasingIsUnique(a: seq<Bytes>, b: seq<Bytes>)
    requires Increasing(a) && Increasing(b) && Elements(a) == Elements(b)
    ensures a == b
  {
    NonEmptyElements(a);
    NonEmptyElements(b);
    if a != [] && b != [] {
      assert a[0] in Elements(b) && b[0] in Elements(a);
      FirstIsLeast(a, b[0]);
      FirstIsLeast(b, a[0]);
      LessTotal(a[0], b[0]);
      TailElements(a);
      TailElements(b);
      IncreasingIsUnique(a[1..], b[1..]);
      assert a == [a[0]] + a[1..] && b == [b[0]] + b[1..];
    }
  }

  lemma AliasesOfOneMore(pieces: seq<Bytes>, piece: Bytes)
    ensures UsableAliases(Elements(pieces + [piece]))
         == UsableAliases(Elements(pieces))
            + (if TrimSpace(piece) == [] || IsOID(TrimSpace(piece)) then {} else {TrimSpace(piece)})
  {
    hide TrimSpace, IsOID;
    assert Elements(pieces + [piece]) == Elements(pieces) + {piece};
  }

  /** addAlgorithmAliases: the set of names seen so far is returned with the aliases added. */
  method AddAlgorithmAliases(seen: set<Bytes>, value: Bytes) returns (r: set<Bytes>)
    ensures r == seen + AliasNames(value)
  {
    hide TrimSpace, IsOID, Split, TrimAny;
    r := seen;
    var pieces := Split(TrimSpace(TrimAny(value, {OPEN, CLOSE})), COMMA);
    for i := 0 to |pieces|
      invariant r == seen + UsableAliases(Elements(pieces[..i]))
    {
      AliasesOfOneMore(pieces[..i], pieces[i]);
      hide UsableAliases;
      assert pieces[..i + 1] == pieces[..i] + [pieces[i]];
      var alias := TrimSpace(pieces[i]);
      if alias == [] || IsOID(alias) {
        continue;
      }
      r := r + {alias};
    }
    assert pieces[..|pieces|] == pieces;
  }

  /** The body of the loop over the lines. */
  method AddLine(seen: set<Bytes>, raw: Bytes) returns (r: set<Bytes>)
    ensures r == seen + LineNames(raw)
  {
    hide TrimSpace, Index, Ignored, Before, AliasNames, Unusable;
    var line := TrimSpace(raw);
    if Ignored(line) {
      return seen;
    }
    line := Before(line, AT);
    if IDS <= line {
      r := AddAlgorithmAliases(seen, TrimSpace(line[|IDS|..]));
      return;
    }
    if line != [] && line[0] == OPEN {
      r := AddAlgorithmAliases(seen, line);
      return;
    }
    if Index(line, ARROW).Some? {
      line := TrimSpace(Before(line, ARROW));
    }
    return if Unusable(line) then seen else seen + {line};
  }

  /** ListAlgorithms on the subprocess output. The map of names is walked in any order. */
  method ListAlgorithms(output: Bytes) returns (result: seq<Bytes>)
    ensures Increasing(result)
    ensures forall i, j :: 0 <= i < j < |result| ==> Precedes(result[i], result[j])
    ensures Elements(result) == Names(Elements(Split(output, LF)))
  {
    hide Names, LineNames;
    var seen: set<Bytes> := {};
    var lines := Split(output, LF);
    NamesOfNone();
    for i := 0 to |lines|
      invariant seen == Names(Elements(lines[..i]))
    {
      NamesOfOneMore(lines[..i], lines[i]);
      assert lines[..i + 1] == lines[..i] + [lines[i]];
      seen := AddLine(seen, lines[i]);
    }
    assert lines[..|lines|] == lines;
    result := [];
    var rest := seen;
    while rest != {}
      invariant rest <= seen && NoRepeats(result)
      invariant Elements(result) == seen - rest
      decreases rest
    {
      var name :| name in rest;
      assert name !in Elements(result);
      result := result + [name];
      rest := rest - {name};
    }
    SortedIsCanonical(result);
    result := Sorted(result);
    forall i, j | 0 <= i < j < |result| ensures Precedes(result[i], result[j]) {
      LessPrecedes(result[i], result[j]);
    }
  }

  lemma NamesOfNone()
    ensures Names(Elements([])) == {}
  {
  }

  lemma NamesOfOneMore(lines: seq<Bytes>, line: Bytes)
    ensures Names(Elements(lines + [line])) == Names(Elements(lines)) + LineNames(line)
  {
    assert Elements(lines + [line]) == Elements(lines) + {line};
  }

  // ----- what the listing guarantees -----

  /** Only the set of lines matters: neither their order, nor repetition, nor the order in
      which the map is walked can change the result. */
  lemma ListingIsCanonical(output: Bytes, other: Bytes, result: seq<Bytes>, result': seq<Bytes>)
    requires Increasing(result) && Elements(result) == Names(Elements(Split(output, LF)))
    requires Increasing(result') && Elements(result') == Names(Elements(Split(other, LF)))
    requires Elements(Split(output, LF)) == Elements(Split(other, LF))
    ensures result == result'
  {
    IncreasingIsUnique(result, result');
  }

  lemma BeforeWithin(line: Bytes, part: Bytes)
    ensures Within(Before(line, part), line)
  {
    CutWithin(line, 0, |Before(line, part)|);
    assert line[0..|Before(line, part)|] == Before(line, part);
  }

  lemma AliasWithin(value: Bytes, name: Bytes)
    requires name in AliasNames(value)
    ensures Within(name, value)
  {
    hide TrimSpace, Split, TrimAny, IsOID, Within;
    var bare := TrimAny(value, {OPEN, CLOSE});
    var piece :| piece in Split(TrimSpace(bare), COMMA) && name == TrimSpace(piece);
    TrimSpaceWithin(piece);
    PieceWithin(TrimSpace(bare), COMMA, piece);
    TrimSpaceWithin(bare);
    TrimAnyWithin(value, {OPEN, CLOSE});
    WithinWithin(TrimSpace(bare), bare, value);
    WithinWithin(piece, TrimSpace(bare), value);
    WithinWithin(name, piece, value);
  }

  /** Whatever a line names stands in that line. */
  lemma NameWithinLine(raw: Bytes, name: Bytes)
    requires name in LineNames(raw)
    ensures Within(name, raw)
  {
    hide TrimSpace, Split, TrimAny, Index, IsOID, Unusable, Within, Ignored, Before, AliasNames;
    var line := TrimSpace(raw);
    var entry := Before(line, AT);
    TrimSpaceWithin(raw);
    BeforeWithin(line, AT);
    WithinWithin(entry, line, raw);
    match AliasList(entry)
    case Some(aliases) =>
      AliasWithin(aliases, name);
      if IDS <= entry {
        CutWithin(entry, |IDS|, |entry|);
        assert entry[|IDS|..|entry|] == entry[|IDS|..];
        TrimSpaceWithin(entry[|IDS|..]);
        WithinWithin(entry[|IDS|..], entry, raw);
        WithinWithin(aliases, entry[|IDS|..], raw);
      }
      WithinWithin(name, aliases, raw);
    case None =>
      BeforeWithin(entry, ARROW);
      TrimSpaceWithin(Before(entry, ARROW));
      WithinWithin(Before(entry, ARROW), entry, raw);
      if Index(entry, ARROW).Some? {
        WithinWithin(name, Before(entry, ARROW), raw);
      }
  }

  /** Nothing is made up: every listed name stands, in one piece, within one line of the
      output. */
  lemma NamesStandInLines(output: Bytes, name: Bytes)
    requires name in Names(Elements(Split(output, LF)))
    ensures LF !in name
    ensures exists line :: line in Split(output, LF) && Within(line, output) && LF !in line && Within(name, line)
  {
    var line :| line in Split(output, LF) && name in LineNames(line);
    NameWithinLine(line, name);
    PieceWithin(output, LF, line);
  }

  /** No listed name is empty, and a dotted OID never comes from an alias list. */
  lemma NamesAreProper(lines: set<Bytes>, name: Bytes)
    requires name in Names(lines)
    ensures name != []
    ensures IsOID(name) ==>
              forall line :: line in lines && name in LineNames(line) ==> AliasList(Before(TrimSpace(line), AT)).None?
  {
    forall line | line in lines && name in LineNames(line)
      ensures name != [] && (IsOID(name) ==> AliasList(Before(TrimSpace(line), AT)).None?)
    {
      LineNamesAreProper(line, name);
    }
  }

  lemma LineNamesAreProper(raw: Bytes, name: Bytes)
    requires name in LineNames(raw)
    ensures name != []
    ensures AliasList(Before(TrimSpace(raw), AT)).Some? ==> !IsOID(name)
  {
    hide TrimSpace, Split, TrimAny, Index, IsOID, Unusable, LeadingSpace;
    var line := TrimSpace(raw);
    var entry := Before(line, AT);
    TrimmedStart(raw);
    CutKeepsStart(line, AT);
    CutKeepsStart(entry, ARROW);
    if AliasList(entry).None? && Index(entry, ARROW).Some? {
      TrimKeepsStart(Before(entry, ARROW));
    }
  }

  /** A trimmed line starts with something that is not white space. */
  lemma TrimmedStart(s: Bytes)
    ensures TrimSpace(s) != [] ==> LeadingSpace(TrimSpace(s)) == 0
  {
    var left := TrimLeft(s);
    var t := TrimRight(left);
  }

  /** Cutting at a part that starts with a space leaves something of such a line. */
  lemma CutKeepsStart(line: Bytes, part: Bytes)
    requires line != [] && LeadingSpace(line) == 0 && part != [] && part[0] == 32
    ensures Before(line, part) != [] && LeadingSpace(Before(line, part)) == 0
  {
  }

  lemma {:induction false} TrimRightKeepsStart(s: Bytes)
    requires s != [] && LeadingSpace(s) == 0
    ensures TrimRight(s) != []
    decreases |s|
  {
    if TrailingSpace(s) > 0 {
      TrimRightKeepsStart(s[..|s| - TrailingSpace(s)]);
    }
  }

  lemma TrimKeepsStart(s: Bytes)
    requires s != [] && LeadingSpace(s) == 0
    ensures TrimSpace(s) != []
  {
    TrimRightKeepsStart(s);
  }
}
