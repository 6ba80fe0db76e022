/** readLine of examples/swift/CryptoWrapperRPC.swift: lines put together again from chunks
    that the response pipe delivers with arbitrary cuts. */
module LineReader {
  import opened Basics

  function Flatten(chunks: seq<Bytes>): Bytes {
    if chunks == [] then [] else chunks[0] + Flatten(chunks[1..])
  }

  /** Position of the first LF, or the length when there is none. */
  function FirstNewline(b: Bytes): (i: nat)
    ensures i <= |b|
    ensures forall k :: 0 <= k < i ==> b[k] != '\n' as int
    ensures i < |b| ==> b[i] == '\n' as int
  {
    if b == [] || b[0] == LF then 0 else 1 + FirstNewline(b[1..])
  }

  /** What one call of readLine leaves: the line, or None for serverClosed. */
  datatype Turn = Turn(line: Option<Bytes>, buffer: Bytes, chunks: seq<Bytes>)

  function NextLine(buffer: Bytes, chunks: seq<Bytes>): Turn
    decreases |chunks|
  {
    var newline := FirstNewline(buffer);
    if newline < |buffer| then Turn(Some(buffer[..newline]), buffer[newline + 1..], chunks)
    else if chunks == [] then Turn(None, buffer, [])
    else if chunks[0] == [] then Turn(None, buffer, chunks[1..])
    else NextLine(buffer + chunks[0], chunks[1..])
  }

  class Client {
    var responseBuffer: Bytes
    /** What the reads of the response pipe are going to deliver; an empty read or none
        left is its end. */
    var incoming: seq<Bytes>

    constructor (incoming: seq<Bytes>)
      ensures responseBuffer == [] && this.incoming == incoming
    {
      responseBuffer, this.incoming := [], incoming;
    }

    /** One read of the pipe. */
    method Receive() returns (chunk: Bytes)
      modifies this`incoming
      ensures old(incoming) == [] ==> chunk == [] && incoming == []
      ensures old(incoming) != [] ==> chunk == old(incoming)[0] && incoming == old(incoming)[1..]
    {
      if incoming == [] {
        return [];
      }
      chunk := incoming[0];
      incoming := incoming[1..];
    }

    method ReadLine() returns (line: Option<Bytes>)
      modifies this
      ensures Turn(line, responseBuffer, incoming) == NextLine(old(responseBuffer), old(incoming))
    {
      while true
        invariant NextLine(responseBuffer, incoming) == NextLine(old(responseBuffer), old(incoming))
        decreases |incoming|
      {
        var newline := FirstNewline(responseBuffer);
        if newline < |responseBuffer| {
          line := Some(responseBuffer[..newline]);
          responseBuffer := responseBuffer[newline + 1..];
          return;
        }
        var chunk := Receive();
        if chunk == [] {
          return None;
        }
        responseBuffer := responseBuffer + chunk;
      }
    }
  }

  // ----- whole sessions -----

  /** The lines that successive calls return, and what is retained when the server closes. */
  datatype Lines = Lines(lines: seq<Bytes>, retained: Bytes)

  function Session(buffer: Bytes, chunks: seq<Bytes>): Lines
    decreases |buffer| + |Flatten(chunks)|
  {
    var turn := NextLine(buffer, chunks);
    if turn.line.None? then Lines([], turn.buffer)
    else
      NextLineTakes(buffer, chunks);
      var rest := Session(turn.buffer, turn.chunks);
      Lines([turn.line.value] + rest.lines, rest.retained)
  }

  /** The bytes before the first empty read. */
  function Delivered(chunks: seq<Bytes>): Bytes {
    if chunks == [] || chunks[0] == [] then [] else chunks[0] + Delivered(chunks[1..])
  }

  lemma {:induction false} NextLineTakes(buffer: Bytes, chunks: seq<Bytes>)
    ensures var turn := NextLine(buffer, chunks);
            turn.line.Some? ==> |turn.buffer| + |Flatten(turn.chunks)| < |buffer| + |Flatten(chunks)|
    decreases |chunks|
  {
    if FirstNewline(buffer) == |buffer| && chunks != [] && chunks[0] != [] {
      NextLineTakes(buffer + chunks[0], chunks[1..]);
    }
  }

  lemma FirstNewlineIs(b: Bytes, i: nat)
    requires i <= |b| && (forall k :: 0 <= k < i ==> b[k] != LF) && (i < |b| ==> b[i] == LF)
    ensures FirstNewline(b) == i
  {
  }

  /** One call takes the first line of all that is there or still comes. */
  lemma {:induction false} NextLineIsFirst(buffer: Bytes, chunks: seq<Bytes>)
    ensures var all := buffer + Delivered(chunks);
            var turn := NextLine(buffer, chunks);
            var i := FirstNewline(all);
            if i < |all| then
              turn.line == Some(all[..i]) && turn.buffer + Delivered(turn.chunks) == all[i + 1..]
            else
              turn.line == None && turn.buffer == all
    decreases |chunks|
  {
    hide FirstNewline;
    var all := buffer + Delivered(chunks);
    var newline := FirstNewline(buffer);
    if newline < |buffer| {
      assert all[..newline] == buffer[..newline];
      assert forall k :: 0 <= k < newline ==> all[k] == buffer[k];
      FirstNewlineIs(all, newline);
      assert all[newline + 1..] == buffer[newline + 1..] + Delivered(chunks);
    } else if chunks == [] || chunks[0] == [] {
      assert all == buffer;
    } else {
      NextLineIsFirst(buffer + chunks[0], chunks[1..]);
      assert buffer + chunks[0] + Delivered(chunks[1..]) == all;
    }
  }

  /** The lines of a byte string, without reference to any chunk. */
  function SplitLines(b: Bytes): Lines
    decreases |b|
  {
    var i := FirstNewline(b);
    if i == |b| then Lines([], b)
    else
      var rest := SplitLines(b[i + 1..]);
      Lines([b[..i]] + rest.lines, rest.retained)
  }

  /** Every line followed by LF, then what is retained. */
  function Joined(l: Lines): Bytes
    decreases |l.lines|
  {
    if l.lines == [] then l.retained
    else l.lines[0] + ['\n' as int] + Joined(Lines(l.lines[1..], l.retained))
  }

  ghost predicate NoNewlineInside(l: Lines) {
    '\n' as int !in l.retained && forall line :: line in l.lines ==> '\n' as int !in line
  }

  lemma {:induction false} SplitJoins(b: Bytes)
    ensures Joined(SplitLines(b)) == b && NoNewlineInside(SplitLines(b))
    decreases |b|
  {
    hide FirstNewline;
    var i := FirstNewline(b);
    if i < |b| {
      SplitJoins(b[i + 1..]);
      var rest := SplitLines(b[i + 1..]);
      assert ([b[..i]] + rest.lines)[1..] == rest.lines;
      assert b == b[..i] + [LF] + b[i + 1..];
    }
  }

  lemma {:induction false} JoinedSplits(l: Lines)
    requires NoNewlineInside(l)
    ensures SplitLines(Joined(l)) == l
    decreases |l.lines|
  {
    hide FirstNewline;
    var b := Joined(l);
    if l.lines == [] {
      FirstNewlineIs(b, |b|);
    } else {
      var tail := Lines(l.lines[1..], l.retained);
      var n := |l.lines[0]|;
      assert l.lines[0] in l.lines;
      assert b[..n] == l.lines[0] && b[n + 1..] == Joined(tail);
      assert forall k :: 0 <= k < n ==> b[k] == l.lines[0][k];
      FirstNewlineIs(b, n);
      assert forall line :: line in tail.lines ==> line in l.lines;
      JoinedSplits(tail);
      assert [l.lines[0]] + tail.lines == l.lines;
    }
  }

  /** Splitting is the one way to write a byte string as lines. */
  lemma SplitIffJoined(b: Bytes, l: Lines)
    ensures SplitLines(b) == l <==> Joined(l) == b && NoNewlineInside(l)
  {
    SplitJoins(b);
    if NoNewlineInside(l) {
      JoinedSplits(l);
    }
  }

  lemma {:induction false} SessionIsSplit(buffer: Bytes, chunks: seq<Bytes>)
    ensures Session(buffer, chunks) == SplitLines(buffer + Delivered(chunks))
    decreases |buffer| + |Flatten(chunks)|
  {
    hide NextLine, FirstNewline, Delivered, Flatten;
    var turn := NextLine(buffer, chunks);
    NextLineIsFirst(buffer, chunks);
    if turn.line.Some? {
      NextLineTakes(buffer, chunks);
      SessionIsSplit(turn.buffer, turn.chunks);
    }
  }

  /** The lines do not depend on how the response was cut into chunks, and together with
      the retained bytes they are exactly what was received. */
  lemma ChunkingIrrelevant(chunks: seq<Bytes>, others: seq<Bytes>)
    requires Delivered(chunks) == Delivered(others)
    ensures Session([], chunks) == Session([], others)
    ensures Joined(Session([], chunks)) == Delivered(chunks)
    ensures NoNewlineInside(Session([], chunks))
  {
    SessionIsSplit([], chunks);
    SessionIsSplit([], others);
    assert [] + Delivered(chunks) == Delivered(chunks);
    SplitIffJoined(Delivered(chunks), Session([], chunks));
  }
}
