/** SecretReader of internal/rpcapi/secrets.go as the object it is: buffers are arrays that
    are overwritten in place, the wake-up channel is closed and replaced. Every method is
    proved to do to its fields what the matching function of ChannelCore does to the model. */
module SecretReader {
  import opened Basics
  import opened SecretFrame
  import opened ChannelCore
  import Utf8

  /** The io.Reader underneath: it delivers its bytes and then ends. */
  class ByteSource {
    const bytes: Bytes
    var pos: nat
    /** The buffers that were given to be filled, in order. */
    ghost var filled: seq<array<Byte>>

    constructor (bytes: Bytes)
      ensures this.bytes == bytes && pos == 0 && filled == []
    {
      this.bytes := bytes;
      pos, filled := 0, [];
    }

    ghost predicate Valid()
      reads this
    {
      pos <= |bytes|
    }

    ghost function Rest(): Bytes
      requires Valid()
      reads this
    {
      bytes[pos..]
    }

    /** io.ReadFull: fills the buffer, or copies what is left and fails. */
    method ReadFull(buffer: array<Byte>) returns (ok: bool)
      requires Valid()
      modifies this, buffer
      ensures Valid()
      ensures ok <==> buffer.Length <= old(|Rest()|)
      ensures ok ==> buffer[..] == old(Rest())[..buffer.Length] && Rest() == old(Rest())[buffer.Length..]
      ensures pos >= old(pos)
      ensures filled == old(filled) + [buffer]
    {
      filled := filled + [buffer];
      var count := 0;
      while count < buffer.Length && pos < |bytes|
        invariant count <= buffer.Length && pos <= |bytes|
        invariant pos == old(pos) + count && filled == old(filled) + [buffer]
        invariant buffer[..count] == bytes[old(pos)..pos]
      {
        buffer[count] := bytes[pos];
        count, pos := count + 1, pos + 1;
      }
      ok := count == buffer.Length;
      if ok {
        assert buffer[..] == buffer[..count];
        assert bytes[old(pos)..pos] == old(Rest())[..buffer.Length];
      }
    }
  }

  /** What a failed read has already allocated for the payload: a buffer, by then erased. */
  function Spill(input: Bytes): seq<Bytes> {
    if ReadFrame(input).Failure? && ReadHead(input).Success? then [Zeros(ReadHead(input).value.secretLength)] else []
  }

  ghost predicate IsZero(buffer: array<Byte>)
    reads buffer
  {
    buffer[..] == Zeros(buffer.Length)
  }

  /** Faults of header and reference are those of the whole frame. */
  lemma HeadIsTheWire(input: Bytes)
    ensures ReadHead(input).Failure? ==> Fault(input, ReadHead(input).error)
    ensures ReadHead(input).Success? ==> forall e :: Fault(input, e) ==> e == PayloadUnreadable
  {
    ReadIsTheWire(input);
  }

  /** The first half of readSecretFrame: header and reference. */
  method ReadSecretHead(source: ByteSource) returns (reference: Bytes, secretLength: nat, err: Option<StreamError>)
    requires source.Valid()
    modifies source
    ensures source.Valid()
    ensures match ReadHead(old(source.Rest()))
            case Success(h) =>
              err.None? && h == Head(reference, secretLength) && source.Rest() == old(source.Rest())[HeadSize(h)..]
            case Failure(e) => err == Some(e)
    ensures err.Some? ==> Fault(old(source.Rest()), err.value)
    ensures err.None? ==> forall e :: Fault(old(source.Rest()), e) ==> e == PayloadUnreadable
    ensures old(source.filled) <= source.filled
    // the second buffer of the call, which held the reference, is erased
    ensures err.None? || err == Some(ReferenceNotUtf8) ==>
              && |source.filled| == |old(source.filled)| + 2
              && fresh(source.filled[|old(source.filled)| + 1])
              && IsZero(source.filled[|old(source.filled)| + 1])
  {
    ghost var input := source.Rest();
    HeadIsTheWire(input);
    hide Fault;
    var header := new Byte[HEADER](_ => 0);
    var ok := source.ReadFull(header);
    if !ok {
      return [], 0, Some(HeaderUnreadable);
    }
    assert header[..4] == input[..4] && header[4..6] == input[4..6] && header[6..10] == input[6..10];
    if header[..4] != MAGIC {
      return [], 0, Some(BadMagic);
    }
    var referenceLength := Uint16(header[4..6]);
    secretLength := Uint32(header[6..10]);
    if referenceLength < 1 || referenceLength > MAX_REFERENCE {
      return [], 0, Some(BadReferenceLength);
    }
    if secretLength > MAX_SECRET {
      return [], 0, Some(PayloadTooLong);
    }
    var name := new Byte[referenceLength](_ => 0);
    ok := source.ReadFull(name);
    if !ok {
      return [], 0, Some(ReferenceUnreadable);
    }
    assert name[..] == input[HEADER..HEADER + referenceLength];
    reference, err := name[..], None;
    Zero(name);
    if !Utf8.Valid(reference) {
      return [], 0, Some(ReferenceNotUtf8);
    }
  }

  /** The second half: the payload, read into a buffer of its own. */
  method ReadPayload(source: ByteSource, length: nat) returns (payload: array<Byte>, ok: bool)
    requires source.Valid()
    modifies source
    ensures source.Valid() && fresh(payload) && payload.Length == length
    ensures source.filled == old(source.filled) + [payload]
    ensures ok <==> length <= old(|source.Rest()|)
    ensures ok ==> payload[..] == old(source.Rest())[..length] && source.Rest() == old(source.Rest())[length..]
    ensures !ok ==> IsZero(payload)
  {
    payload := new Byte[length](_ => 0);
    ok := source.ReadFull(payload);
    if !ok {
      Zero(payload);
    }
  }

  /** readSecretFrame. The ghost result is the payload buffer, if one was allocated. */
  method ReadSecretFrame(source: ByteSource)
    returns (reference: Bytes, secret: array?<Byte>, err: Option<StreamError>, ghost buffer: array?<Byte>)
    requires source.Valid()
    modifies source
    ensures source.Valid()
    ensures err.Some? <==> secret == null
    ensures secret != null ==> buffer == secret
    ensures buffer != null ==> fresh(buffer)
    // the buffer is the one that the payload was read into, and erased if it came in part
    ensures err == Some(PayloadUnreadable) <==> err.Some? && buffer != null
    ensures old(source.filled) <= source.filled
    ensures buffer != null ==>
              && |source.filled| == |old(source.filled)| + 3 && source.filled[|source.filled| - 1] == buffer
              && IsZero(source.filled[|source.filled| - 2])
    ensures err == Some(PayloadUnreadable) ==>
              source.filled != [] && IsZero(source.filled[|source.filled| - 1])
    ensures if err.Some? then Fault(old(source.Rest()), err.value)
            else
              && 10 + |reference| + secret.Length <= old(|source.Rest()|)
              && OnTheWire(old(source.Rest())[..10 + |reference| + secret.Length], reference, secret[..])
    ensures match ReadFrame(old(source.Rest()))
            case Success(f) =>
              && secret != null && reference == f.reference && secret[..] == f.payload
              && source.Rest() == old(source.Rest())[Size(f)..]
            case Failure(e) =>
              && err == Some(e)
              && Spill(old(source.Rest())) == if buffer == null then [] else [buffer[..]]
  {
    ghost var input := source.Rest();
    ReadIsTheWire(input);
    hide Fault, OnTheWire;
    var secretLength;
    reference, secretLength, err := ReadSecretHead(source);
    hide ReadHead;
    secret, buffer := null, null;
    if err.Some? {
      return;
    }
    ghost var h := Head(reference, secretLength);
    var payload, ok := ReadPayload(source, secretLength);
    buffer := payload;
    if !ok {
      return [], null, Some(PayloadUnreadable), payload;
    }
    secret := payload;
    assert payload[..] == input[HeadSize(h)..HeadSize(h) + secretLength];
    assert source.Rest() == input[HeadSize(h) + secretLength..];
  }

  /** A Go channel that is only ever closed. */
  class Channel {
    var closed: bool

    constructor ()
      ensures !closed
    {
      closed := false;
    }
  }

  class SecretReader {
    var pending: map<Bytes, array<Byte>>
    var update: Channel
    var err: Option<ChannelError>
    var closed: bool
    const source: ByteSource

    ghost var model: Core
    ghost var buffers: seq<array<Byte>>
    ghost var channels: seq<Channel>

    /** The fields are what the model says: buffers by number, one channel a generation. */
    ghost predicate Valid()
      reads this, buffers, channels
    {
      && ChannelsOk(model.wake)
      && BuffersOk(model.heap)
      && PendingOk(model.pending)
      && err == model.err && closed == model.closed
    }

    ghost predicate BuffersOk(heap: seq<Bytes>)
      reads this`buffers, buffers
    {
      && |buffers| == |heap|
      && (forall b :: 0 <= b < |buffers| ==> buffers[b][..] == heap[b])
      && (forall a, b :: 0 <= a < b < |buffers| ==> buffers[a] != buffers[b])
    }

    ghost predicate PendingOk(numbers: map<Bytes, nat>)
      reads this`pending, this`buffers
    {
      && pending.Keys == numbers.Keys
      && (forall r :: r in pending ==> numbers[r] < |buffers| && pending[r] == buffers[numbers[r]])
    }

    ghost predicate ChannelsOk(wake: nat)
      reads this`update, this`channels, channels
    {
      && |channels| == wake + 1
      && update == channels[wake]
      && (forall f, g :: 0 <= f < g < |channels| ==> channels[f] != channels[g])
      && (forall g :: 0 <= g < |channels| ==> (channels[g].closed <==> g < wake))
    }

    constructor (source: ByteSource)
      ensures Valid() && model == EMPTY && this.source == source
      ensures buffers == [] && fresh(channels)
    {
      this.source := source;
      pending, err, closed := map[], None, false;
      model, buffers := EMPTY, [];
      var first := new Channel();
      update, channels := first, [first];
    }

    /** Closes the current wake-up channel and puts a fresh one in its place. */
    method SignalLocked()
      requires Valid()
      modifies this`update, this`model, this`channels, update
      ensures Valid() && model == ChannelCore.SignalLocked(old(model))
      ensures channels == old(channels) + [update] && fresh(update)
    {
      update.closed := true;
      update := new Channel();
      model, channels := ChannelCore.SignalLocked(model), channels + [update];
    }

    /** zero(secret) on buffer number `b`. */
    method EraseBuffer(secret: array<Byte>, ghost b: nat)
      requires Valid() && b < |buffers| && buffers[b] == secret
      modifies this`model, secret
      ensures Valid() && model == old(model).(heap := Erase(old(model.heap), {b}))
    {
      assert forall i :: 0 <= i < |buffers| && i != b ==> buffers[i] != secret;
      Zero(secret);
      assert forall i :: 0 <= i < |buffers| && i != b ==> buffers[i][..] == old(buffers[i][..]);
      model := model.(heap := Erase(model.heap, {b}));
    }

    /** delete(pending, reference). */
    method Drop(reference: Bytes)
      requires Valid() && reference in pending
      modifies this`pending, this`model
      ensures Valid() && model == old(model).(pending := old(model.pending) - {reference})
      ensures pending == old(pending) - {reference} && |pending| < |old(pending)|
      ensures pending.Values <= old(pending.Values)
    {
      hide ChannelsOk, BuffersOk;
      Without(pending, reference);
      pending := pending - {reference};
      model := model.(pending := model.pending - {reference});
    }

    /** One turn of the loop that clears the map: zero(secret), delete(pending, reference). */
    method ClearOne() returns (reference: Bytes)
      requires Valid() && pending != map[]
      modifies this`pending, this`model, pending.Values
      ensures Valid() && reference in old(model.pending)
      ensures old(model.pending)[reference] < |old(model.heap)|
      ensures model == old(model).(heap := Erase(old(model.heap), {old(model.pending)[reference]}),
                                   pending := old(model.pending) - {reference})
      ensures |pending| < |old(pending)| && pending.Values <= old(pending.Values)
    {
      hide Valid;
      reference :| reference in pending;
      PendingBuffer(reference);
      Without(pending, reference);
      EraseBuffer(pending[reference], model.pending[reference]);
      Drop(reference);
    }

    /** Erases and forgets every pending secret, in whatever order the map yields them. */
    method ClearPending()
      requires Valid()
      modifies this`pending, this`model, pending.Values
      ensures Valid() && pending == map[]
      ensures model == old(model).(heap := Erase(old(model).heap, old(model).pending.Values), pending := map[])
    {
      hide Valid, Erase, Cleared;
      ghost var done: set<nat> := {};
      NothingCleared(model);
      while pending != map[]
        invariant Valid() && Cleared(old(model), done, model)
        invariant pending.Values <= old(pending.Values)
        decreases |pending|
      {
        ghost var before := model;
        var reference := ClearOne();
        ClearedOneMore(old(model), done, before, reference);
        done := done + {before.pending[reference]};
      }
      NothingPending();
      AllCleared(old(model), done, model);
    }

    lemma PendingBuffer(reference: Bytes)
      requires Valid() && reference in pending
      ensures reference in model.pending && model.pending[reference] < |buffers| == |model.heap|
      ensures buffers[model.pending[reference]] == pending[reference]
    {
    }

    lemma HeapSize()
      requires Valid()
      ensures |buffers| == |model.heap|
    {
    }

    lemma NothingPending()
      requires Valid() && pending == map[]
      ensures model.pending == map[]
    {
      assert model.pending.Keys == {};
    }

    /** Only the first error is recorded. */
    method RecordError(e: ChannelError)
      requires Valid()
      modifies this`err, this`model
      ensures Valid()
      ensures model == if old(model.err).None? then old(model).(err := Some(e)) else old(model)
    {
      hide ChannelsOk, BuffersOk, PendingOk;
      if err.None? {
        err := Some(e);
        model := model.(err := Some(e));
      }
    }

    method SetErrorLocked(e: ChannelError, clearPending: bool)
      requires Valid()
      modifies this`pending, this`err, this`update, this`model, this`channels, update, pending.Values
      ensures Valid() && model == ChannelCore.SetErrorLocked(old(model), e, clearPending)
      ensures channels == old(channels) + [update] && fresh(update)
      ensures pending.Values <= old(pending.Values)
    {
      hide Valid;
      RecordError(e);
      if clearPending {
        ClearPending();
      }
      SignalLocked();
    }

    /** The locked section of Read: a secret, an error, or the channel to wait on. */
    method LookupLocked(reference: Bytes)
      returns (secret: array?<Byte>, cause: Option<ChannelError>, wait: Channel?)
      requires Valid()
      modifies this`pending, this`model
      ensures Valid() && model == ChannelCore.LookupLocked(old(model), reference).0
      ensures match ChannelCore.LookupLocked(old(model), reference).1
              case Claimed(b) => b < |buffers| && secret == buffers[b] && cause.None? && wait == null
              case Refused(e) => secret == null && cause == Some(e) && wait == null
              case Wait(g) => secret == null && cause.None? && wait == channels[g] && !wait.closed
    {
      secret, cause, wait := null, None, null;
      if reference in pending {
        hide ChannelsOk;
        secret := pending[reference];
        pending := pending - {reference};
        model := model.(pending := model.pending - {reference});
      } else if err.Some? {
        cause := err;
      } else {
        wait := update;
      }
    }

    /** pending[reference] = secret. */
    method File(reference: Bytes, secret: array<Byte>, ghost b: nat)
      requires Valid() && b < |buffers| && buffers[b] == secret
      modifies this`pending, this`model
      ensures Valid() && pending == old(pending)[reference := secret]
      ensures model == old(model).(pending := old(model.pending)[reference := b])
    {
      hide ChannelsOk, BuffersOk;
      pending := pending[reference := secret];
      model := model.(pending := model.pending[reference := b]);
    }

    lemma Mirrored()
      requires Valid()
      ensures closed == model.closed && pending.Keys == model.pending.Keys
    {
    }

    /** The pump's locked section for the frame in buffer number `b`. */
    method DeliverLocked(reference: Bytes, secret: array<Byte>, ghost b: nat) returns (more: bool)
      requires Valid() && b < |buffers| && buffers[b] == secret
      modifies this`pending, this`err, this`update, this`model, this`channels, update, secret, pending.Values
      ensures Valid() && (model, more) == ChannelCore.DeliverLocked(old(model), reference, b)
      ensures update == old(update) || fresh(update)
      ensures pending.Values <= old(pending.Values) + {secret}
    {
      hide Valid;
      Mirrored();
      if closed {
        EraseBuffer(secret, b);
        return false;
      }
      if reference in pending {
        EraseBuffer(secret, b);
        SetErrorLocked(Duplicate, true);
        return false;
      }
      SameSize(pending, model.pending);
      if |pending| >= MAX_PENDING {
        EraseBuffer(secret, b);
        SetErrorLocked(Overflow, true);
        return false;
      }
      File(reference, secret, b);
      SignalLocked();
      more := true;
    }

    /** A freshly allocated secret buffer gets the next number. */
    ghost method Track(secret: array<Byte>)
      requires Valid() && secret !in buffers
      modifies this`model, this`buffers
      ensures Valid() && buffers == old(buffers) + [secret]
      ensures model == old(model).(heap := old(model).heap + [secret[..]])
    {
      buffers := buffers + [secret];
      model := model.(heap := model.heap + [secret[..]]);
    }

    /** One turn of the pump's loop; it goes on exactly when a frame was filed. */
    method PumpOnce() returns (more: bool)
      requires Valid() && source.Valid()
      modifies this, source, update, pending.Values
      ensures Valid() && source.Valid()
      ensures match ReadFrame(old(source.Rest()))
              case Failure(e) =>
                && !more
                && model == ChannelCore.SetErrorLocked(
                              old(model).(heap := old(model).heap + Spill(old(source.Rest()))), Broken(e), false)
              case Success(f) =>
                && (model, more) == ChannelCore.DeliverLocked(
                                      old(model).(heap := old(model).heap + [f.payload]),
                                      f.reference, |old(model).heap|)
                && source.Rest() == old(source.Rest())[Size(f)..]
      ensures update == old(update) || fresh(update)
      ensures forall a :: a in pending.Values ==> a in old(pending.Values) || fresh(a)
    {
      hide Valid, ReadFrame, ChannelCore.DeliverLocked, ChannelCore.SetErrorLocked;
      ghost var input := source.Rest();
      HeapSize();
      var reference, secret, failure, buffer := ReadSecretFrame(source);
      if buffer != null {
        Track(buffer);
      }
      if failure.Some? {
        assert model == old(model).(heap := old(model).heap + Spill(input));
        SetErrorLocked(Broken(failure.value), false);
        return false;
      }
      more := DeliverLocked(reference, secret, |buffers| - 1);
    }

    /** The pump left alone: it files frames until the stream or the channel ends it. */
    method Pump()
      requires Valid() && source.Valid()
      modifies this, source, update, pending.Values
      ensures Valid() && source.Valid()
      ensures model == PumpAll(old(model), old(source.Rest()))
    {
      hide Valid, ReadFrame, ChannelCore.DeliverLocked, ChannelCore.SetErrorLocked;
      var more := true;
      while more
        invariant Valid() && source.Valid()
        invariant more ==> PumpAll(model, source.Rest()) == PumpAll(old(model), old(source.Rest()))
        invariant !more ==> model == PumpAll(old(model), old(source.Rest()))
        invariant update == old(update) || fresh(update)
        invariant forall a :: a in pending.Values ==> a in old(pending.Values) || fresh(a)
        decreases more, |source.bytes| - source.pos
      {
        FrameFits(source.Rest());
        more := PumpOnce();
      }
    }

    /** Close, up to the release of the mutex. */
    method Close()
      requires Valid()
      modifies this`pending, this`err, this`closed, this`update, this`model, this`channels, update, pending.Values
      ensures Valid() && model == CloseLocked(old(model))
    {
      if closed {
        return;
      }
      closed := true;
      model := model.(closed := true);
      SetErrorLocked(Closed, true);
    }
  }

  /** What the whole pump makes of the rest of the input when nobody interferes. */
  function PumpAll(c: Core, input: Bytes): Core
    decreases |input|
  {
    match ReadFrame(input)
    case Failure(e) => SetErrorLocked(c.(heap := c.heap + Spill(input)), Broken(e), false)
    case Success(f) =>
      var (next, more) := DeliverLocked(c.(heap := c.heap + [f.payload]), f.reference, |c.heap|);
      if more then PumpAll(next, input[Size(f)..]) else next
  }

  /** The pending map after filing `frames` from buffer number `first` on. */
  function Filed(pending: map<Bytes, nat>, frames: seq<Frame>, first: nat): map<Bytes, nat>
    decreases |frames|
  {
    if frames == [] then pending
    else Filed(pending[frames[0].reference := first], frames[1..], first + 1)
  }

  function PayloadsOf(frames: seq<Frame>): seq<Bytes> {
    seq(|frames|, i requires 0 <= i < |frames| => frames[i].payload)
  }

  /** The pump takes the first frame of a stream, files it and goes on with the rest. */
  lemma PumpFilesOne(c: Core, f: Frame, rest: Bytes)
    requires ValidFrame(f) && f.reference !in c.pending
    requires !c.closed && c.err.None? && |c.pending| < MAX_PENDING
    ensures PumpAll(c, Encode(f) + rest)
         == PumpAll(Core(c.pending[f.reference := |c.heap|], c.wake + 1, None, false, c.heap + [f.payload]), rest)
  {
    hide ReadFrame, ReadHead, DeliverLocked, Encode, ValidFrame;
    DeliverFiles(c.(heap := c.heap + [f.payload]), f.reference, |c.heap|);
    ReadIffEncoded(Encode(f) + rest, f);
    assert (Encode(f) + rest)[Size(f)..] == rest;
  }

  lemma DeliverFiles(c: Core, r: Bytes, b: nat)
    requires !c.closed && r !in c.pending && |c.pending| < MAX_PENDING
    ensures DeliverLocked(c, r, b) == (SignalLocked(c.(pending := c.pending[r := b])), true)
  {
  }

  lemma PumpEnds(c: Core)
    requires !c.closed && c.err.None?
    ensures PumpAll(c, []) == Core(c.pending, c.wake + 1, Some(Broken(HeaderUnreadable)), false, c.heap)
  {
    assert c.heap + [] == c.heap;
  }

  /** Each frame is found under its reference, by its number; what was pending stays, and
      there is nothing else. */
  lemma {:induction false} FiledAt(pending: map<Bytes, nat>, frames: seq<Frame>, first: nat)
    requires forall i, j :: 0 <= i < j < |frames| ==> frames[i].reference != frames[j].reference
    requires forall i :: 0 <= i < |frames| ==> frames[i].reference !in pending
    ensures forall i :: 0 <= i < |frames| ==>
              frames[i].reference in Filed(pending, frames, first)
              && Filed(pending, frames, first)[frames[i].reference] == first + i
    ensures forall r :: r in pending ==>
              r in Filed(pending, frames, first) && Filed(pending, frames, first)[r] == pending[r]
    ensures forall r :: r in Filed(pending, frames, first) ==>
              r in pending || exists i :: 0 <= i < |frames| && frames[i].reference == r
    decreases |frames|
  {
    if frames != [] {
      var next := pending[frames[0].reference := first];
      FiledAt(next, frames[1..], first + 1);
      assert frames[0].reference in next;
      assert forall i :: 1 <= i < |frames| ==> frames[i] == frames[1..][i - 1];
    }
  }

  lemma {:induction false} PumpMakes(c: Core, frames: seq<Frame>)
    requires AllValid(frames)
    requires forall i, j :: 0 <= i < j < |frames| ==> frames[i].reference != frames[j].reference
    requires forall i :: 0 <= i < |frames| ==> frames[i].reference !in c.pending
    requires !c.closed && c.err.None? && |c.pending| + |frames| <= MAX_PENDING
    ensures PumpAll(c, EncodeAll(frames))
         == Core(Filed(c.pending, frames, |c.heap|), c.wake + |frames| + 1, Some(Broken(HeaderUnreadable)), false,
                 c.heap + PayloadsOf(frames))
    decreases |frames|
  {
    hide PumpAll, ValidFrame;
    if frames == [] {
      PumpEnds(c);
      assert c.heap + PayloadsOf(frames) == c.heap;
    } else {
      var f := frames[0];
      assert f in frames;
      PumpFilesOne(c, f, EncodeAll(frames[1..]));
      var next := Core(c.pending[f.reference := |c.heap|], c.wake + 1, None, false, c.heap + [f.payload]);
      PumpMakes(next, frames[1..]);
      assert next.heap + PayloadsOf(frames[1..]) == c.heap + PayloadsOf(frames);
    }
  }

  /** Left alone, the pump files every frame of a stream that repeats no reference and fits
      the 32 places: each is then found intact under its own reference, what was pending
      still is, and the end of the stream is recorded. */
  lemma PumpFilesAll(c: Core, frames: seq<Frame>)
    requires AllValid(frames)
    requires forall i, j :: 0 <= i < j < |frames| ==> frames[i].reference != frames[j].reference
    requires forall i :: 0 <= i < |frames| ==> frames[i].reference !in c.pending
    requires !c.closed && c.err.None? && |c.pending| + |frames| <= MAX_PENDING
    ensures var t := PumpAll(c, EncodeAll(frames));
            && t.err == Some(Broken(HeaderUnreadable)) && !t.closed && t.wake == c.wake + |frames| + 1
            && c.heap <= t.heap && |t.heap| == |c.heap| + |frames|
            && (forall i :: 0 <= i < |frames| ==>
                  && frames[i].reference in t.pending && t.pending[frames[i].reference] == |c.heap| + i
                  && t.heap[|c.heap| + i] == frames[i].payload)
            && (forall r :: r in c.pending ==> r in t.pending && t.pending[r] == c.pending[r])
            && (forall r :: r in t.pending ==>
                  r in c.pending || exists i :: 0 <= i < |frames| && frames[i].reference == r)
  {
    hide PumpAll, Filed;
    PumpMakes(c, frames);
    FiledAt(c.pending, frames, |c.heap|);
    assert forall i :: 0 <= i < |frames| ==> (c.heap + PayloadsOf(frames))[|c.heap| + i] == frames[i].payload;
  }

  lemma FrameFits(input: Bytes)
    ensures ReadFrame(input).Success? ==> HEADER <= Size(ReadFrame(input).value) <= |input|
  {
    if ReadFrame(input).Success? {
      ReadIffEncoded(input, ReadFrame(input).value);
    }
  }

  /** `now` is `c` with the pending buffers in `done` erased and forgotten. */
  ghost predicate Cleared(c: Core, done: set<nat>, now: Core) {
    && now == c.(heap := Erase(c.heap, done), pending := now.pending)
    && done + now.pending.Values == c.pending.Values
  }

  lemma NothingCleared(c: Core)
    ensures Cleared(c, {}, c)
  {
    EraseNone(c.heap);
  }

  lemma ClearedOneMore(c: Core, done: set<nat>, now: Core, r: Bytes)
    requires Cleared(c, done, now) && r in now.pending && now.pending[r] < |now.heap|
    ensures Cleared(c, done + {now.pending[r]},
                    now.(heap := Erase(now.heap, {now.pending[r]}), pending := now.pending - {r}))
  {
    EraseOneMore(c.heap, done, now.pending[r]);
    ValuesWithout(now.pending, r);
  }

  lemma AllCleared(c: Core, done: set<nat>, now: Core)
    requires Cleared(c, done, now) && now.pending == map[]
    ensures now == c.(heap := Erase(c.heap, c.pending.Values), pending := map[])
  {
    assert done == c.pending.Values;
  }

  lemma EraseNone(heap: seq<Bytes>)
    ensures Erase(heap, {}) == heap
  {
  }

  lemma EraseOneMore(heap: seq<Bytes>, done: set<nat>, b: nat)
    requires b < |heap|
    ensures Erase(Erase(heap, done), {b}) == Erase(heap, done + {b})
  {
  }

  lemma Without<A>(m: map<Bytes, A>, r: Bytes)
    requires r in m
    ensures |m - {r}| < |m|
    ensures (m - {r}).Values <= m.Values
    ensures m[r] in m.Values
  {
    assert (m - {r}).Keys == m.Keys - {r};
    assert |m| == |m.Keys| && |m - {r}| == |(m - {r}).Keys|;
  }

  lemma ValuesWithout(m: map<Bytes, nat>, r: Bytes)
    requires r in m
    ensures m.Values == (m - {r}).Values + {m[r]}
  {
    forall v | v in m.Values ensures v in (m - {r}).Values + {m[r]} {
      var q :| q in m && m[q] == v;
      assert q != r ==> q in m - {r};
    }
  }

  lemma SameSize<A, B>(a: map<Bytes, A>, b: map<Bytes, B>)
    requires a.Keys == b.Keys
    ensures |a| == |b|
  {
    assert |a| == |a.Keys| && |b| == |b.Keys|;
  }
}
