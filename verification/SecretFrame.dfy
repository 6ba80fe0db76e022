/** The CWS1 framing of internal/rpcapi/secrets.go and of the example Go client:
    the frame format, the reader, both writers, and what whole streams decode to. */
module SecretFrame {
  import opened Basics
  import Utf8

  const MAGIC: Bytes := Ascii("CWS1")
  const MAX_REFERENCE: nat := 256
  const MAX_SECRET: nat := 64 * 1024
  const HEADER: nat := 10

  datatype Frame = Frame(reference: Bytes, payload: Bytes)

  /** What makes a read fail; the reader underneath only ever ends or breaks. */
  datatype StreamError =
    | HeaderUnreadable
    | BadMagic
    | BadReferenceLength
    | PayloadTooLong
    | ReferenceUnreadable
    | ReferenceNotUtf8
    | PayloadUnreadable

  datatype WriteError = InvalidReference | SecretTooLong

  predicate ValidReference(r: Bytes) {
    1 <= |r| <= MAX_REFERENCE && Utf8.Valid(r)
  }

  predicate ValidFrame(f: Frame) {
    ValidReference(f.reference) && |f.payload| <= MAX_SECRET
  }

  // ----- length fields -----

  /** Big-endian bytes of `uint16(n)`: larger values wrap around. */
  function PutUint16(n: nat): (b: Bytes)
    ensures |b| == 2
  {
    [n / 0x100 % 0x100, n % 0x100]
  }

  /** Big-endian bytes of `uint32(n)`: larger values wrap around. */
  function PutUint32(n: nat): (b: Bytes)
    ensures |b| == 4
  {
    PutUint16(n / 0x10000) + PutUint16(n)
  }

  function Uint16(b: Bytes): nat
    requires |b| == 2
  {
    var high: int, low: int := b[0], b[1];
    high * 0x100 + low
  }

  function Uint32(b: Bytes): nat
    requires |b| == 4
  {
    Uint16(b[..2]) * 0x10000 + Uint16(b[2..])
  }

  /** Quotient and remainder of 0x100, from the two digits. */
  lemma Digits(n: nat, high: nat, low: nat)
    requires n == high * 0x100 + low && low < 0x100
    ensures n / 0x100 == high && n % 0x100 == low
  {
  }

  lemma Uint16OfPut(n: nat)
    ensures Uint16(PutUint16(n)) == n % 0x1_0000
  {
    var above, high, low := n / 0x100 / 0x100, n / 0x100 % 0x100, n % 0x100;
    var rest := n % 0x10000;
    Digits(n / 0x100, above, high);
    Digits(n, n / 0x100, low);
    assert n == above * 0x10000 + (high * 0x100 + low);
    assert rest == high * 0x100 + low;
  }

  /** A length field keeps a length exactly when the length fits its width. */
  lemma LengthFieldsRoundTrip(n: nat)
    ensures Uint16(PutUint16(n)) == n <==> n < 0x1_0000
    ensures Uint32(PutUint32(n)) == n <==> n < 0x1_0000_0000
  {
    hide PutUint16, Uint16;
    var b := PutUint32(n);
    assert b[..2] == PutUint16(n / 0x10000) && b[2..] == PutUint16(n);
    Uint16OfPut(n);
    Uint16OfPut(n / 0x10000);
  }

  lemma Uint16Determines(b: Bytes)
    requires |b| == 2
    ensures PutUint16(Uint16(b)) == b
    ensures Uint16(b) < 0x1_0000
  {
  }

  lemma Uint32Determines(b: Bytes)
    requires |b| == 4
    ensures PutUint32(Uint32(b)) == b
  {
    Uint16Determines(b[..2]);
    Uint16Determines(b[2..]);
    var n, high, low := Uint32(b), Uint16(b[..2]), Uint16(b[2..]);
    assert n / 0x10000 == high && n % 0x10000 == low;
    assert PutUint16(n) == PutUint16(low) by {
      PutUint16Wraps(n);
    }
    assert b[..2] + b[2..] == b;
  }

  lemma PutUint16Wraps(n: nat)
    ensures PutUint16(n) == PutUint16(n % 0x10000)
  {
    Uint16OfPut(n);
    Uint16OfPut(n % 0x10000);
    hide PutUint16;
    Uint16Determines(PutUint16(n));
    Uint16Determines(PutUint16(n % 0x10000));
  }

  // ----- the frame format -----

  function Header(referenceLength: nat, secretLength: nat): (h: Bytes)
    ensures |h| == HEADER
  {
    MAGIC + PutUint16(referenceLength) + PutUint32(secretLength)
  }

  function Encode(f: Frame): (b: Bytes)
    ensures |b| == Size(f)
  {
    Header(|f.reference|, |f.payload|) + f.reference + f.payload
  }

  function Size(f: Frame): nat {
    HEADER + |f.reference| + |f.payload|
  }

  /** What is known once the header and the reference have been read. */
  datatype Head = Head(reference: Bytes, secretLength: nat)

  function ReadHead(input: Bytes): Result<Head, StreamError> {
    if |input| < HEADER then Failure(HeaderUnreadable)
    else if input[..4] != MAGIC then Failure(BadMagic)
    else
      var referenceLength, secretLength := Uint16(input[4..6]), Uint32(input[6..10]);
      if referenceLength < 1 || referenceLength > MAX_REFERENCE then Failure(BadReferenceLength)
      else if secretLength > MAX_SECRET then Failure(PayloadTooLong)
      else if |input| < HEADER + referenceLength then Failure(ReferenceUnreadable)
      else
        var reference := input[HEADER..HEADER + referenceLength];
        if !Utf8.Valid(reference) then Failure(ReferenceNotUtf8)
        else Success(Head(reference, secretLength))
  }

  function HeadSize(h: Head): nat {
    HEADER + |h.reference|
  }

  function ReadFrame(input: Bytes): Result<Frame, StreamError> {
    match ReadHead(input)
    case Failure(e) => Failure(e)
    case Success(h) =>
      if |input| < HeadSize(h) + h.secretLength then Failure(PayloadUnreadable)
      else Success(Frame(h.reference, input[HeadSize(h)..HeadSize(h) + h.secretLength]))
  }

  lemma HeadOfEncoding(f: Frame, input: Bytes)
    requires ValidFrame(f)
    requires HEADER + |f.reference| <= |input|
    requires input[..HEADER + |f.reference|] == Encode(f)[..HEADER + |f.reference|]
    ensures ReadHead(input) == Success(Head(f.reference, |f.payload|))
  {
    var e := Encode(f);
    var n := HEADER + |f.reference|;
    assert forall i, j :: 0 <= i <= j <= n ==> input[i..j] == input[..n][i..j] == e[i..j];
    assert e[..4] == MAGIC && e[4..6] == PutUint16(|f.reference|) && e[6..10] == PutUint32(|f.payload|);
    assert e[HEADER..n] == f.reference;
    LengthFieldsRoundTrip(|f.reference|);
    LengthFieldsRoundTrip(|f.payload|);
  }

  lemma HeadIsEncoded(input: Bytes, f: Frame)
    requires ReadHead(input) == Success(Head(f.reference, |f.payload|))
    ensures ValidFrame(f)
    ensures HEADER + |f.reference| <= |input|
    ensures input[..HEADER + |f.reference|] == Header(|f.reference|, |f.payload|) + f.reference
  {
    Uint16Determines(input[4..6]);
    Uint32Determines(input[6..10]);
    var n := HEADER + |f.reference|;
    assert input[..n] == input[..4] + input[4..6] + input[6..10] + input[HEADER..n];
  }

  /** The codec is a bijection: a frame is read exactly when it is valid and its
      encoding is what the input starts with. */
  lemma ReadIffEncoded(input: Bytes, f: Frame)
    ensures ReadFrame(input) == Success(f) <==> ValidFrame(f) && Encode(f) <= input
  {
    if ValidFrame(f) && Encode(f) <= input {
      var n := HEADER + |f.reference|;
      assert input[..n] == Encode(f)[..n];
      HeadOfEncoding(f, input);
      assert input[n..Size(f)] == Encode(f)[n..] == f.payload;
    }
    if ReadFrame(input) == Success(f) {
      var n := HEADER + |f.reference|;
      HeadIsEncoded(input, f);
      assert input[..Size(f)] == input[..n] + input[n..Size(f)] == Encode(f);
    }
  }

  /** Only valid frames are told apart by their first bytes alone. */
  lemma PrefixFree(f: Frame, g: Frame)
    requires ValidFrame(f) && ValidFrame(g)
    requires Encode(f) <= Encode(g)
    ensures f == g
  {
    ReadIffEncoded(Encode(g), f);
    ReadIffEncoded(Encode(g), g);
  }

  // ----- streams of frames -----

  /** Everything that repeated reading yields: the frames, then the error that ends it. */
  datatype Stream = Stream(frames: seq<Frame>, end: StreamError)

  function ReadAll(input: Bytes): Stream
    decreases |input|
  {
    match ReadFrame(input)
    case Failure(e) => Stream([], e)
    case Success(f) =>
      var rest := ReadAll(input[Size(f)..]);
      Stream([f] + rest.frames, rest.end)
  }

  function EncodeAll(frames: seq<Frame>): Bytes {
    if frames == [] then [] else Encode(frames[0]) + EncodeAll(frames[1..])
  }

  predicate AllValid(frames: seq<Frame>) {
    forall f :: f in frames ==> ValidFrame(f)
  }

  lemma ReadAllOneFrame(f: Frame, rest: Bytes)
    requires ValidFrame(f)
    ensures ReadAll(Encode(f) + rest) == Stream([f] + ReadAll(rest).frames, ReadAll(rest).end)
  {
    ReadIffEncoded(Encode(f) + rest, f);
    assert (Encode(f) + rest)[Size(f)..] == rest;
  }

  lemma {:induction false} ReadAllOfEncoded(frames: seq<Frame>, tail: Bytes)
    requires AllValid(frames)
    ensures ReadAll(EncodeAll(frames) + tail)
         == Stream(frames + ReadAll(tail).frames, ReadAll(tail).end)
  {
    hide ReadAll, ReadFrame, ValidFrame, Encode;
    var end := ReadAll(tail);
    if frames == [] {
      assert EncodeAll(frames) + tail == tail;
    } else {
      var f, rest := frames[0], EncodeAll(frames[1..]) + tail;
      calc {
        ReadAll(EncodeAll(frames) + tail);
        { assert EncodeAll(frames) + tail == Encode(f) + rest; }
        ReadAll(Encode(f) + rest);
        { assert f in frames; ReadAllOneFrame(f, rest); }
        Stream([f] + ReadAll(rest).frames, ReadAll(rest).end);
        { ReadAllOfEncoded(frames[1..], tail); }
        Stream([f] + (frames[1..] + end.frames), end.end);
        { assert [f] + (frames[1..] + end.frames) == frames + end.frames; }
        Stream(frames + end.frames, end.end);
      }
    }
  }

  /** Whatever a stream yields re-encodes to exactly the bytes that were consumed. */
  lemma {:induction false} ReadAllIsEncoded(input: Bytes)
    ensures AllValid(ReadAll(input).frames)
    ensures EncodeAll(ReadAll(input).frames) <= input
    decreases |input|
  {
    hide ReadFrame, Encode, ValidFrame;
    if ReadFrame(input).Success? {
      var f := ReadFrame(input).value;
      ReadIffEncoded(input, f);
      ReadAllIsEncoded(input[Size(f)..]);
      var rest := ReadAll(input[Size(f)..]).frames;
      assert ([f] + rest)[1..] == rest;
      assert input == Encode(f) + input[Size(f)..];
    }
  }

  /** No two frame lists share an encoding, and reading finds the list again. */
  lemma UniquelyDecodable(fs: seq<Frame>, gs: seq<Frame>)
    requires AllValid(fs) && AllValid(gs)
    ensures ReadAll(EncodeAll(fs)) == Stream(fs, HeaderUnreadable)
    ensures EncodeAll(fs) == EncodeAll(gs) ==> fs == gs
  {
    ReadAllOfEncoded(fs, []);
    ReadAllOfEncoded(gs, []);
    assert EncodeAll(fs) + [] == EncodeAll(fs) && EncodeAll(gs) + [] == EncodeAll(gs);
  }

  /** The field in which a frame breaks off when only `kept` of its bytes arrive. */
  function CutError(f: Frame, kept: nat): StreamError {
    if kept < HEADER then HeaderUnreadable
    else if kept < HEADER + |f.reference| then ReferenceUnreadable
    else PayloadUnreadable
  }

  lemma CutHead(f: Frame, kept: nat)
    requires ValidFrame(f)
    requires HEADER <= kept < HEADER + |f.reference|
    ensures ReadHead(Encode(f)[..kept]) == Failure(ReferenceUnreadable)
  {
    var h, cut := Header(|f.reference|, |f.payload|), Encode(f)[..kept];
    assert h[..4] == MAGIC && h[4..6] == PutUint16(|f.reference|) && h[6..10] == PutUint32(|f.payload|);
    assert cut[..HEADER] == h;
    assert cut[..4] == h[..4] && cut[4..6] == h[4..6] && cut[6..10] == h[6..10];
    LengthFieldsRoundTrip(|f.reference|);
    LengthFieldsRoundTrip(|f.payload|);
  }

  lemma CutFrame(f: Frame, kept: nat)
    requires ValidFrame(f)
    requires kept < Size(f)
    ensures ReadFrame(Encode(f)[..kept]) == Failure(CutError(f, kept))
  {
    var n := HEADER + |f.reference|;
    if kept >= n {
      assert Encode(f)[..kept][..n] == Encode(f)[..n];
      HeadOfEncoding(f, Encode(f)[..kept]);
    } else if kept >= HEADER {
      CutHead(f, kept);
    }
  }

  /** A stream that stops inside a frame yields every earlier frame, then the error
      of the field in which it stopped, and never the cut frame. */
  lemma TruncatedStream(frames: seq<Frame>, last: Frame, kept: nat)
    requires AllValid(frames) && ValidFrame(last)
    requires kept < Size(last)
    ensures ReadAll(EncodeAll(frames) + Encode(last)[..kept]) == Stream(frames, CutError(last, kept))
  {
    CutFrame(last, kept);
    ReadAllOfEncoded(frames, Encode(last)[..kept]);
    assert frames + [] == frames;
  }

  // ----- reading less of the input -----

  /** A read that succeeds on part of the input does not depend on what follows. */
  lemma HeadOfLonger(input: Bytes, cut: nat)
    requires cut <= |input|
    ensures ReadHead(input[..cut]).Success? ==> ReadHead(input) == ReadHead(input[..cut])
    ensures ReadHead(input).Success? ==> HeadSize(ReadHead(input).value) <= |input|
  {
    var s := input[..cut];
    if ReadHead(s).Success? {
      var n := HeadSize(ReadHead(s).value);
      assert forall i, j :: 0 <= i <= j <= cut ==> s[i..j] == input[i..j];
      assert s[..4] == input[..4] && s[4..6] == input[4..6] && s[6..10] == input[6..10];
      assert s[HEADER..n] == input[HEADER..n];
    }
  }

  // ----- the writers -----

  /** What both writers must produce, apart from the client's missing UTF-8 check. */
  function AppendFrame(dst: Bytes, f: Frame): Result<Bytes, WriteError> {
    if !ValidReference(f.reference) then Failure(InvalidReference)
    else if |f.payload| > MAX_SECRET then Failure(SecretTooLong)
    else Success(dst + Encode(f))
  }

  function ClientFrame(f: Frame): Result<Bytes, WriteError> {
    if |f.reference| < 1 || |f.reference| > MAX_REFERENCE then Failure(InvalidReference)
    else if |f.payload| > MAX_SECRET then Failure(SecretTooLong)
    else Success(Encode(f))
  }

  /** The bytes of a frame as they go over the wire: "CWS1", a big-endian 16-bit length of
      the reference, a big-endian 32-bit length of the secret, then both. */
  ghost predicate OnTheWire(v: Bytes, reference: Bytes, secret: Bytes) {
    && |v| == 10 + |reference| + |secret|
    && v[..4] == [0x43, 0x57, 0x53, 0x31]
    && v[4] as int * 256 + v[5] as int == |reference|
    && ((v[6] as int * 256 + v[7] as int) * 256 + v[8] as int) * 256 + v[9] as int == |secret|
    && v[10..10 + |reference|] == reference
    && v[10 + |reference|..] == secret
  }

  lemma EncodedOnTheWire(f: Frame)
    requires |f.reference| <= 256 && |f.payload| <= 65536
    ensures OnTheWire(Encode(f), f.reference, f.payload)
  {
    var v, n := Encode(f), |f.reference|;
    assert v[4..6] == PutUint16(n) && v[6..10] == PutUint32(|f.payload|);
    LengthFieldsRoundTrip(n);
    LengthFieldsRoundTrip(|f.payload|);
    assert [v[4], v[5]] == v[4..6] && v[6..10][..2] == [v[6], v[7]] && v[6..10][2..] == [v[8], v[9]];
  }

  /** What is wrong with an input that is not read as a frame, with the first fault first. */
  ghost predicate Fault(input: Bytes, e: StreamError) {
    if |input| < 10 then e == HeaderUnreadable
    else if input[..4] != [0x43, 0x57, 0x53, 0x31] then e == BadMagic
    else
      var n := input[4] as int * 256 + input[5] as int;
      var m := ((input[6] as int * 256 + input[7] as int) * 256 + input[8] as int) * 256 + input[9] as int;
      if n == 0 || n > 256 then e == BadReferenceLength
      else if m > 65536 then e == PayloadTooLong
      else if |input| < 10 + n then e == ReferenceUnreadable
      else if !Utf8.Valid(input[10..10 + n]) then e == ReferenceNotUtf8
      else |input| < 10 + n + m && e == PayloadUnreadable
  }

  /** Reading gives the frame that the input starts with on the wire, or the first fault. */
  lemma ReadIsTheWire(input: Bytes)
    ensures forall e :: ReadFrame(input) == Failure(e) <==> Fault(input, e)
    ensures ReadFrame(input).Success? ==>
              var f := ReadFrame(input).value;
              Size(f) <= |input| && OnTheWire(input[..Size(f)], f.reference, f.payload)
  {
    if |input| >= 10 {
      assert [input[4], input[5]] == input[4..6];
      assert input[6..10][..2] == [input[6], input[7]] && input[6..10][2..] == [input[8], input[9]];
    }
    if ReadFrame(input).Success? {
      var f := ReadFrame(input).value;
      ReadIffEncoded(input, f);
      EncodedOnTheWire(f);
      assert input[..Size(f)] == Encode(f);
    }
  }

  /** AppendSecretFrame: fills a header buffer, then appends header, reference, secret. */
  method AppendSecretFrame(dst: Bytes, reference: Bytes, secret: Bytes) returns (r: Result<Bytes, WriteError>)
    ensures r == AppendFrame(dst, Frame(reference, secret))
    ensures r.Success? ==> dst <= r.value && OnTheWire(r.value[|dst|..], reference, secret)
    ensures r == Failure(InvalidReference) <==> !(1 <= |reference| <= 256 && Utf8.Valid(reference))
    ensures r == Failure(SecretTooLong) <==> 1 <= |reference| <= 256 && Utf8.Valid(reference) && |secret| > 65536
  {
    if reference == [] || |reference| > MAX_REFERENCE || !Utf8.Valid(reference) {
      return Failure(InvalidReference);
    }
    if |secret| > MAX_SECRET {
      return Failure(SecretTooLong);
    }
    var header := new Byte[HEADER](_ => 0);
    Copy(header, 0, MAGIC);
    Copy(header, 4, PutUint16(|reference|));
    Copy(header, 6, PutUint32(|secret|));
    assert header[..] == Header(|reference|, |secret|);
    var out := dst + header[..];
    out := out + reference;
    out := out + secret;
    assert out == dst + Encode(Frame(reference, secret));
    EncodedOnTheWire(Frame(reference, secret));
    return Success(out);
  }

  /** Copies `bytes` into `a` from index `at` on. */
  method Copy(a: array<Byte>, at: nat, bytes: Bytes)
    requires at + |bytes| <= a.Length
    modifies a
    ensures a[..] == old(a[..at]) + bytes + old(a[at + |bytes|..])
  {
    for i := 0 to |bytes|
      invariant forall k :: 0 <= k < a.Length ==> a[k] == if at <= k < at + i then bytes[k - at] else old(a[k])
    {
      a[at + i] := bytes[i];
    }
  }

  /** The example client's secretFrame, written field by field into a buffer. */
  method ClientSecretFrame(reference: Bytes, secret: Bytes) returns (r: Result<Bytes, WriteError>)
    ensures r == ClientFrame(Frame(reference, secret))
    ensures r.Success? ==> OnTheWire(r.value, reference, secret)
    ensures r == Failure(InvalidReference) <==> !(1 <= |reference| <= 256)
    ensures r == Failure(SecretTooLong) <==> 1 <= |reference| <= 256 && |secret| > 65536
  {
    if reference == [] || |reference| > MAX_REFERENCE {
      return Failure(InvalidReference);
    }
    if |secret| > MAX_SECRET {
      return Failure(SecretTooLong);
    }
    var frame := MAGIC;
    frame := frame + PutUint16(|reference|);
    frame := frame + PutUint32(|secret|);
    frame := frame + reference;
    frame := frame + secret;
    EncodedOnTheWire(Frame(reference, secret));
    return Success(frame);
  }

  /** What the client writes is read back as the pair it was given if the reference is
      UTF-8, and otherwise refused by the server for that very reason. */
  lemma ClientFrameIsRead(f: Frame, rest: Bytes)
    requires ClientFrame(f).Success?
    ensures ReadFrame(ClientFrame(f).value + rest)
         == if Utf8.Valid(f.reference) then Success(f) else Failure(ReferenceNotUtf8)
  {
    var input := Encode(f) + rest;
    if Utf8.Valid(f.reference) {
      ReadIffEncoded(input, f);
    } else {
      var n := HEADER + |f.reference|;
      assert input[..4] == MAGIC && input[4..6] == PutUint16(|f.reference|) && input[6..10] == PutUint32(|f.payload|);
      assert input[HEADER..n] == f.reference;
      LengthFieldsRoundTrip(|f.reference|);
      LengthFieldsRoundTrip(|f.payload|);
    }
  }

  /** The two writers give the same result exactly for references that are UTF-8 or badly
      sized. What the server's writer produces the reader accepts; what only the client's
      produces it refuses as not UTF-8. */
  method WriteWithBoth(reference: Bytes, secret: Bytes)
    returns (server: Result<Bytes, WriteError>, client: Result<Bytes, WriteError>)
    ensures server == client <==> Utf8.Valid(reference) || !(1 <= |reference| <= MAX_REFERENCE)
    ensures server.Success? ==> server == client && ReadFrame(server.value) == Success(Frame(reference, secret))
    ensures server.Failure? && client.Success? ==>
              server.error == InvalidReference && ReadFrame(client.value) == Failure(ReferenceNotUtf8)
  {
    server := AppendSecretFrame([], reference, secret);
    client := ClientSecretFrame(reference, secret);
    var f := Frame(reference, secret);
    assert [] + Encode(f) == Encode(f) == Encode(f) + [];
    if client.Success? {
      ClientFrameIsRead(f, []);
    }
  }
}
