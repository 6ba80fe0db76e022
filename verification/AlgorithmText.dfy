/** Completeness of the listing: what OpenSSL prints is written down entry by entry, with
    literal characters, and each entry is listed under exactly the names it stands for. */
module AlgorithmText {
  import opened Basics
  import opened Text
  import opened AlgorithmList

  /** One line of an OpenSSL list. */
  datatype Entry =
    | Plain(name: Bytes)
    | Renamed(name: Bytes, target: Bytes)
    | Identifiers(aliases: seq<Bytes>)
    | Group(aliases: seq<Bytes>)
    | Heading(text: Bytes)
    | Property(kind: Bytes, text: Bytes)
    | Remark(text: Bytes)
    | Empty

  /** An entry with the blanks around it and, if it names one, its provider. */
  datatype Line = Line(before: Bytes, entry: Entry, provider: Option<Bytes>, after: Bytes)

  // ----- printing -----

  function Listed(aliases: seq<Bytes>): Bytes {
    if aliases == [] then []
    else if |aliases| == 1 then aliases[0]
    else aliases[0] + Ascii(", ") + Listed(aliases[1..])
  }

  function Body(e: Entry): Bytes {
    match e
    case Plain(name) => name
    case Renamed(name, target) => name + Ascii(" => ") + target
    case Identifiers(aliases) => Ascii("IDs: { ") + Listed(aliases) + Ascii(" }")
    case Group(aliases) => Ascii("{ ") + Listed(aliases) + Ascii(" }")
    case Heading(text) => text + Ascii(":")
    case Property(kind, text) => kind + text
    case Remark(text) => text
    case Empty => []
  }

  function Printed(l: Line): Bytes {
    match l.provider
    case None => Body(l.entry)
    case Some(p) => Body(l.entry) + Ascii(" @ ") + p
  }

  function PrintAll(lines: seq<Line>): Bytes {
    if lines == [] then []
    else lines[0].before + Printed(lines[0]) + lines[0].after + Ascii("\n") + PrintAll(lines[1..])
  }

  // ----- which texts are meant -----

  /** `part` starts nowhere within `s`, not even when it follows `s`. */
  ghost predicate Clear(s: Bytes, part: Bytes) {
    forall i :: 0 <= i < |s| ==> !(part <= (s + part)[i..])
  }

  ghost predicate StartsWithLabel(s: Bytes) {
    || Ascii("Name:") <= s || Ascii("Type:") <= s || Ascii("OID:") <= s || Ascii("PEM string:") <= s
    || Ascii("Alias for:") <= s
  }

  ghost predicate Dotted(alias: Bytes) {
    && (forall c :: c in alias ==> c == '.' as int || '0' as int <= c <= '9' as int)
    && '.' as int in alias
  }

  /** A name can stand on a line of its own. */
  ghost predicate ProperName(name: Bytes) {
    && Bare(name)
    && '{' as int !in name && '}' as int !in name && '\t' as int !in name
    && !(Ascii("IDs:") <= name)
    && Clear(name, Ascii(" => ")) && Clear(name, Ascii(" implementation"))
  }

  ghost predicate ProperAliases(aliases: seq<Bytes>) {
    aliases != [] && forall a :: a in aliases ==> Bare(a) && ',' as int !in a
  }

  ghost predicate ProperEntry(e: Entry) {
    match e
    case Plain(name) => ProperName(name)
    case Renamed(name, target) => ProperName(name) && target != []
    case Identifiers(aliases) => ProperAliases(aliases)
    case Group(aliases) => ProperAliases(aliases)
    case Property(kind, _) =>
      kind in {Ascii("Name:"), Ascii("Type:"), Ascii("OID:"), Ascii("PEM string:"), Ascii("Alias for:")}
    case Remark(text) =>
      && text != [] && text[0] != '{' as int && !(Ascii("IDs:") <= text) && Clear(text, Ascii(" => "))
      && (|| '{' as int in text || '}' as int in text || '\t' as int in text
          || Within(Ascii(" implementation"), text))
    case _ => true
  }

  /** A line that is laid out as OpenSSL does, and cannot be taken for another kind of line. */
  ghost predicate ProperLine(l: Line) {
    && Blank(l.before) && Blank(l.after) && '\n' as int !in l.before + Printed(l) + l.after
    && ProperEntry(l.entry)
    && (l.entry.Empty? || l.entry.Heading? ==> l.provider.None?)
    && (!l.entry.Empty? ==> Bare(Printed(l)) && Clear(Body(l.entry), Ascii(" @ ")))
    && (l.entry.Plain? || l.entry.Renamed? ==> !StartsWithLabel(Printed(l)))
    && (l.entry.Plain? || l.entry.Renamed? || l.entry.Identifiers? || l.entry.Group? ==>
          Printed(l)[|Printed(l)| - 1] != ':' as int)
  }

  /** The names that an entry stands for. */
  ghost function Meant(e: Entry): set<Bytes> {
    match e
    case Plain(name) => {name}
    case Renamed(name, _) => {name}
    case Identifiers(aliases) => Undotted(aliases)
    case Group(aliases) => Undotted(aliases)
    case _ => {}
  }

  ghost function AllMeant(lines: seq<Line>): set<Bytes> {
    set l, name | l in lines && name in Meant(l.entry) :: name
  }

  // ----- finding the markers -----

  lemma ClearTail(s: Bytes, part: Bytes, rest: Bytes)
    requires s != [] && Clear(s, part) && part != []
    ensures Clear(s[1..], part)
    ensures !(part <= s + part + rest) && !(part <= s)
  {
    var t := s + part;
    forall i | 0 <= i < |s| - 1 ensures !(part <= (s[1..] + part)[i..]) {
      assert (s[1..] + part)[i..] == t[i + 1..];
    }
    assert t[0..] == t;
    assert (t + rest)[..|part|] == t[..|part|];
    if |part| <= |s| {
      assert t[..|part|] == s[..|part|];
    }
  }

  lemma IndexHere(part: Bytes, rest: Bytes)
    ensures Index(part + rest, part) == Some(0)
    ensures part != [] ==> Index([], part) == None
  {
  }

  lemma IndexSkips(s: Bytes, part: Bytes)
    requires s != [] && !(part <= s)
    ensures Index(s, part) == match Index(s[1..], part) case None => None case Some(n) => Some(n + 1)
  {
  }

  lemma WithoutFirst(s: Bytes, part: Bytes, rest: Bytes)
    requires s != []
    ensures (s + part + rest)[1..] == s[1..] + part + rest
  {
  }

  lemma {:induction false} FirstOccurrence(s: Bytes, part: Bytes, rest: Bytes)
    requires Clear(s, part) && part != []
    ensures Index(s + part + rest, part) == Some(|s|)
    ensures Index(s, part).None?
  {
    hide Index, Clear;
    if s == [] {
      IndexHere(part, rest);
      assert [] + part == part;
    } else {
      ClearTail(s, part, rest);
      IndexSkips(s + part + rest, part);
      IndexSkips(s, part);
      WithoutFirst(s, part, rest);
      FirstOccurrence(s[1..], part, rest);
    }
  }

  lemma {:induction false} Occurrence(before: Bytes, part: Bytes, after: Bytes)
    ensures Index(before + part + after, part).Some?
  {
    var whole := before + part + after;
    if before == [] {
      assert whole == part + after;
    } else {
      Occurrence(before[1..], part, after);
      assert whole[1..] == before[1..] + part + after;
    }
  }

  lemma BodyIsCut(l: Line)
    requires ProperLine(l) && !l.entry.Empty?
    ensures Before(Printed(l), AT) == Body(l.entry)
  {
    var body := Body(l.entry);
    hide Index, Body, ProperEntry, Bare, Blank;
    FirstOccurrence(body, AT, if l.provider.Some? then l.provider.value else []);
    if l.provider.Some? {
      assert (body + AT + l.provider.value)[..|body|] == body;
    }
  }

  // ----- lists of aliases -----

  lemma SplitFirst(piece: Bytes, separator: Byte, rest: Bytes)
    requires separator !in piece
    ensures Split(piece + [separator] + rest, separator) == [piece] + Split(rest, separator)
    ensures Split(piece, separator) == [piece]
    decreases |piece|
  {
    var whole := piece + [separator] + rest;
    if piece == [] {
      assert whole[1..] == rest;
    } else {
      SplitFirst(piece[1..], separator, rest);
      assert whole[1..] == piece[1..] + [separator] + rest;
      assert [piece[0]] + piece[1..] == piece;
    }
  }

  ghost function Undotted(aliases: seq<Bytes>): set<Bytes> {
    set a | a in aliases && !Dotted(a)
  }

  lemma DottedIsOID(a: Bytes)
    ensures Dotted(a) <==> IsOID(a)
  {
  }

  lemma OneAlias(before: Bytes, a: Bytes)
    requires Bare(a) && Blank(before)
    ensures UsableAliases({before + a}) == if Dotted(a) then {} else {a}
  {
    TrimBlank(before, a, []);
    DottedIsOID(a);
    hide TrimSpace, IsOID, Bare;
    assert before + a + [] == before + a;
  }

  lemma UsableUnion(a: set<Bytes>, b: set<Bytes>)
    ensures UsableAliases(a + b) == UsableAliases(a) + UsableAliases(b)
  {
    hide TrimSpace, IsOID;
  }

  lemma CommaAndBlank()
    ensures Ascii(", ") == [COMMA] + Ascii(" ")
  {
  }

  lemma ListedStarts(aliases: seq<Bytes>)
    requires |aliases| > 1
    ensures Listed(aliases) == aliases[0] + Ascii(", ") + Listed(aliases[1..])
  {
    hide Ascii;
  }

  lemma ListedApart(before: Bytes, aliases: seq<Bytes>)
    requires |aliases| > 1
    ensures before + Listed(aliases) == before + aliases[0] + [COMMA] + (Ascii(" ") + Listed(aliases[1..]))
  {
    hide Listed, Ascii;
    var tail := Listed(aliases[1..]);
    ListedStarts(aliases);
    CommaAndBlank();
    Regroup(before, aliases[0], [COMMA], Ascii(" "), tail);
  }

  lemma Regroup(a: Bytes, b: Bytes, c: Bytes, d: Bytes, e: Bytes)
    ensures a + (b + (c + d) + e) == a + b + c + (d + e)
  {
  }

  lemma UndottedOfMore(a: Bytes, aliases: seq<Bytes>)
    ensures Undotted([a] + aliases) == (if Dotted(a) then {} else {a}) + Undotted(aliases)
  {
    hide Dotted;
  }

  lemma FirstPieceUsable(before: Bytes, a: Bytes, rest: Bytes)
    requires Bare(a) && COMMA !in a && Blank(before) && COMMA !in before
    ensures UsableAliases(Elements(Split(before + a + [COMMA] + rest, COMMA)))
         == (if Dotted(a) then {} else {a}) + UsableAliases(Elements(Split(rest, COMMA)))
    ensures UsableAliases(Elements(Split(before + a, COMMA))) == if Dotted(a) then {} else {a}
  {
    hide Split, UsableAliases, Bare, Dotted;
    OneAlias(before, a);
    SplitFirst(before + a, COMMA, rest);
    assert Elements([before + a]) == {before + a};
    assert Elements([before + a] + Split(rest, COMMA)) == {before + a} + Elements(Split(rest, COMMA));
    UsableUnion({before + a}, Elements(Split(rest, COMMA)));
  }

  lemma {:induction false} AliasesListed(before: Bytes, aliases: seq<Bytes>)
    requires ProperAliases(aliases) && Blank(before) && COMMA !in before
    ensures UsableAliases(Elements(Split(before + Listed(aliases), COMMA))) == Undotted(aliases)
    decreases |aliases|
  {
    var a := aliases[0];
    assert a in aliases;
    hide Split, UsableAliases, Bare, Undotted, Elements;
    assert aliases == [a] + aliases[1..];
    UndottedOfMore(a, aliases[1..]);
    if |aliases| == 1 {
      FirstPieceUsable(before, a, []);
      UndottedOfNone();
    } else {
      assert forall x :: x in aliases[1..] ==> x in aliases;
      AliasesListed(Ascii(" "), aliases[1..]);
      ListedApart(before, aliases);
      FirstPieceUsable(before, a, Ascii(" ") + Listed(aliases[1..]));
    }
  }

  lemma UndottedOfNone()
    ensures Undotted([]) == {}
  {
  }

  /** What precedes cannot complete a white-space character that `t` only ends. */
  lemma EndsBare(before: Bytes, t: Bytes)
    requires Bare(t) && before != [] && before[|before| - 1] < 0x80
    ensures TrailingSpace(before + t) == 0
  {
    var n := |before|;
    assert forall i :: 0 <= i < |t| ==> (before + t)[n + i] == t[i];
    assert (before + t)[n - 1] == before[n - 1];
  }

  lemma {:induction false} ListedBare(aliases: seq<Bytes>)
    requires ProperAliases(aliases)
    ensures Bare(Listed(aliases))
    decreases |aliases|
  {
    var a := aliases[0];
    assert a in aliases;
    if |aliases| > 1 {
      assert forall x :: x in aliases[1..] ==> x in aliases;
      ListedBare(aliases[1..]);
      ListedStarts(aliases);
      var tail := Listed(aliases[1..]);
      hide Listed, LeadingSpace, TrailingSpace;
      StillBare(a, Ascii(", ") + tail);
      EndsBare(a + Ascii(", "), tail);
      assert a + Ascii(", ") + tail == a + (Ascii(", ") + tail);
    }
  }

  lemma TrimBraces(x: Bytes)
    requires x != [] && x[0] == 32 && x[|x| - 1] == 32
    ensures TrimAny([OPEN] + x + [CLOSE], {OPEN, CLOSE}) == x
  {
    var whole := [OPEN] + x + [CLOSE];
    assert whole[1..] == x + [CLOSE];
    assert (x + [CLOSE])[..|x|] == x;
    assert TrimLeftAny(x + [CLOSE], {OPEN, CLOSE}) == x + [CLOSE];
    assert (x + [CLOSE])[|x|] == CLOSE;
    assert TrimRightAny(x, {OPEN, CLOSE}) == x;
  }

  lemma GroupBare(aliases: seq<Bytes>)
    ensures Bare(Body(Group(aliases))) && Body(Group(aliases))[0] == OPEN
  {
    hide Listed;
    var body := Body(Group(aliases));
    assert body[|body| - 1] == CLOSE;
  }

  lemma GroupTrimmed(listed: Bytes)
    requires Bare(listed)
    ensures TrimSpace(TrimAny(Ascii("{ ") + listed + Ascii(" }"), {OPEN, CLOSE})) == listed
  {
    var inner := Ascii(" ") + listed + Ascii(" ");
    BracesAndBlanks(listed);
    hide TrimSpace, TrimAny, Bare;
    TrimBraces(inner);
    TrimBlank(Ascii(" "), listed, Ascii(" "));
  }

  lemma GroupNames(aliases: seq<Bytes>)
    requires ProperAliases(aliases)
    ensures AliasNames(Body(Group(aliases))) == Undotted(aliases)
  {
    ListedBare(aliases);
    var listed := Listed(aliases);
    hide Listed, TrimSpace, TrimAny, UsableAliases, Split, Undotted, Bare, Ascii;
    GroupTrimmed(listed);
    AliasesListed([], aliases);
    assert [] + listed == listed;
  }

  lemma BracesAndBlanks(listed: Bytes)
    ensures Ascii("{ ") + listed + Ascii(" }") == [OPEN] + (Ascii(" ") + listed + Ascii(" ")) + [CLOSE]
  {
    assert Ascii("{ ") == [OPEN] + Ascii(" ") && Ascii(" }") == Ascii(" ") + [CLOSE];
  }

  lemma IdentifiersNames(aliases: seq<Bytes>)
    requires ProperAliases(aliases)
    ensures AliasList(Body(Identifiers(aliases))) == Some(Body(Group(aliases)))
    ensures Body(Identifiers(aliases))[0] == 'I' as int
  {
    var group := Body(Group(aliases));
    GroupBare(aliases);
    LabelAndBlank(Listed(aliases));
    hide Listed, TrimSpace, Bare, Blank, AliasNames;
    TrimOneBlank(group);
    assert (IDS + (Ascii(" ") + group))[|IDS|..] == Ascii(" ") + group;
  }

  lemma TrimOneBlank(t: Bytes)
    requires Bare(t)
    ensures TrimSpace(Ascii(" ") + t) == t
  {
    TrimBlank(Ascii(" "), t, []);
    assert Ascii(" ") + t + [] == Ascii(" ") + t;
  }

  lemma LabelAndBlank(listed: Bytes)
    ensures Ascii("IDs: { ") + listed + Ascii(" }") == IDS + (Ascii(" ") + (Ascii("{ ") + listed + Ascii(" }")))
  {
    assert Ascii("IDs: { ") == IDS + Ascii(" ") + Ascii("{ ");
  }

  lemma TrimNothing(t: Bytes)
    requires Bare(t)
    ensures TrimSpace(t) == t
  {
    TrimBlank([], t, []);
    assert [] + t + [] == t;
  }

  // ----- one line -----

  /** What is left of a line once it is trimmed and its provider cut off. */
  function EntryNames(entry: Bytes): set<Bytes> {
    match AliasList(entry)
    case Some(aliases) => AliasNames(aliases)
    case None => if Unusable(PlainName(entry)) then {} else {PlainName(entry)}
  }

  lemma EntryIsMeant(e: Entry)
    requires ProperEntry(e) && !e.Heading? && !e.Property? && !e.Empty?
    ensures EntryNames(Body(e)) == Meant(e)
  {
    match e
    case Plain(name) => PlainIsMeant(name);
    case Renamed(name, target) => RenamedIsMeant(name, target);
    case Identifiers(aliases) =>
      IdentifiersNames(aliases);
      GroupNames(aliases);
    case Group(aliases) => GroupIsMeant(aliases);
    case Remark(text) => RemarkIsMeant(text);
  }

  lemma GroupIsMeant(aliases: seq<Bytes>)
    requires ProperAliases(aliases)
    ensures EntryNames(Body(Group(aliases))) == Undotted(aliases)
  {
    GroupNames(aliases);
    GroupBare(aliases);
    hide AliasNames, Undotted, Bare, Body;
    assert !(IDS <= Body(Group(aliases)));
  }

  lemma PlainIsMeant(name: Bytes)
    requires ProperName(name)
    ensures EntryNames(name) == {name}
  {
    FirstOccurrence(name, ARROW, []);
    FirstOccurrence(name, IMPLEMENTATION, []);
    hide Index, Clear, LeadingSpace, TrailingSpace;
    assert name[0] in name;
  }

  lemma RenamedIsMeant(name: Bytes, target: Bytes)
    requires ProperName(name)
    ensures EntryNames(name + Ascii(" => ") + target) == {name}
  {
    var entry := name + ARROW + target;
    FirstOccurrence(name, ARROW, target);
    FirstOccurrence(name, IMPLEMENTATION, []);
    TrimNothing(name);
    NotIdentifiers(name, target);
    hide Index, Clear, LeadingSpace, TrailingSpace, TrimSpace;
    assert name[0] in name && entry[0] == name[0];
    assert entry[..|name|] == name;
  }

  lemma NotIdentifiers(name: Bytes, target: Bytes)
    ensures IDS <= name + ARROW + target ==> IDS <= name
  {
    var entry := name + ARROW + target;
    assert |name| < 4 ==> entry[|name|] == 32;
    if |name| >= 4 {
      assert entry[..4] == name[..4];
    }
  }

  lemma RemarkIsMeant(text: Bytes)
    requires ProperEntry(Remark(text))
    ensures EntryNames(text) == {}
  {
    FirstOccurrence(text, ARROW, []);
    RemarkUnusable(text);
    hide Index, Clear, Within, Unusable;
    assert AliasList(text).None?;
  }

  lemma RemarkUnusable(text: Bytes)
    requires ProperEntry(Remark(text))
    ensures Unusable(text)
  {
    hide Index, Clear;
    if Within(Ascii(" implementation"), text) {
      var b, a :| text == b + Ascii(" implementation") + a;
      Occurrence(b, IMPLEMENTATION, a);
    }
  }

  lemma LineNamesAre(raw: Bytes)
    ensures LineNames(raw) == if Ignored(TrimSpace(raw)) then {} else EntryNames(Before(TrimSpace(raw), AT))
  {
    hide TrimSpace, Ignored, Before, AliasList, AliasNames, Unusable, PlainName;
  }

  lemma StartsOtherwise(line: Bytes)
    requires line != [] && (line[0] == 'I' as int || line[0] == '{' as int) && line[|line| - 1] != ':' as int
    ensures !Ignored(line)
  {
  }

  lemma IgnoredIff(l: Line)
    requires ProperLine(l) && !l.entry.Remark?
    ensures Ignored(Printed(l)) <==> l.entry.Heading? || l.entry.Property? || l.entry.Empty?
  {
    hide Clear, LeadingSpace, TrailingSpace, Blank, ProperName, ProperAliases, Index;
    match l.entry
    case Heading(text) => assert HasSuffix(Printed(l), COLON);
    case Property(kind, text) => assert kind <= Printed(l);
    case Identifiers(aliases) => StartsOtherwise(Printed(l));
    case Group(aliases) => StartsOtherwise(Printed(l));
    case Empty => assert Printed(l) == [];
    case Plain(name) => NoLabel(Printed(l));
    case Renamed(name, target) => NoLabel(Printed(l));
  }

  lemma NoLabel(line: Bytes)
    requires line != [] && !StartsWithLabel(line) && line[|line| - 1] != ':' as int
    ensures !Ignored(line)
  {
  }

  /** A line is listed under exactly the names that its entry stands for. */
  lemma LineIsMeant(l: Line)
    requires ProperLine(l)
    ensures LineNames(l.before + Printed(l) + l.after) == Meant(l.entry)
  {
    var raw := l.before + Printed(l) + l.after;
    TrimBlank(l.before, Printed(l), l.after);
    LineNamesAre(raw);
    if !l.entry.Remark? {
      IgnoredIff(l);
    }
    if !Ignored(Printed(l)) {
      BodyIsCut(l);
      EntryIsMeant(l.entry);
    }
  }

  // ----- the whole output -----

  ghost predicate AllProper(lines: seq<Line>) {
    forall l :: l in lines ==> ProperLine(l)
  }

  lemma NamesOfFirst(line: Bytes, rest: seq<Bytes>)
    ensures Names(Elements([line] + rest)) == LineNames(line) + Names(Elements(rest))
  {
    hide LineNames;
    assert Elements([line] + rest) == {line} + Elements(rest);
  }

  lemma MeantOfFirst(l: Line, rest: seq<Line>)
    ensures AllMeant([l] + rest) == Meant(l.entry) + AllMeant(rest)
  {
    hide Meant;
  }

  /** Completeness: the names listed of an output are exactly those that its entries mean. */
  lemma {:induction false} ListingIsComplete(lines: seq<Line>)
    requires AllProper(lines)
    ensures Names(Elements(Split(PrintAll(lines), '\n' as int))) == AllMeant(lines)
  {
    hide ProperLine, LineNames, Split, Meant, Names, AllMeant, Printed, Elements, PrintAll;
    if lines == [] {
      EmptyOutput();
      NothingMeant();
    } else {
      var l, rest := lines[0], PrintAll(lines[1..]);
      var raw := l.before + Printed(l) + l.after;
      assert l in lines && forall x :: x in lines[1..] ==> x in lines;
      LineIsMeant(l);
      NoLineEnd(l);
      ListingIsComplete(lines[1..]);
      FirstPrinted(lines);
      SplitFirst(raw, LF, rest);
      NamesOfFirst(raw, Split(rest, LF));
      MeantOfFirst(l, lines[1..]);
      assert lines == [l] + lines[1..];
    }
  }

  lemma NoLineEnd(l: Line)
    requires ProperLine(l)
    ensures LF !in l.before + Printed(l) + l.after
  {
  }

  lemma FirstPrinted(lines: seq<Line>)
    requires lines != []
    ensures PrintAll(lines)
         == lines[0].before + Printed(lines[0]) + lines[0].after + [LF] + PrintAll(lines[1..])
  {
    hide Printed;
    assert Ascii("\n") == [LF];
  }

  lemma NothingMeant()
    ensures AllMeant([]) == {}
  {
  }

  lemma EmptyOutput()
    ensures Names(Elements(Split(PrintAll([]), LF))) == {}
  {
    assert Split([], LF) == [[]];
    assert LineNames([]) == {};
  }

  /** ListAlgorithms on an output that is printed from entries. */
  method ListEntries(lines: seq<Line>) returns (result: seq<Bytes>)
    requires AllProper(lines)
    ensures Increasing(result) && Elements(result) == AllMeant(lines)
  {
    ListingIsComplete(lines);
    result := ListAlgorithms(PrintAll(lines));
  }
}
