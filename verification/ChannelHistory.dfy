/** What the histories of a run look like: the story of each operation, the record of
    claims, the queue of frames behind each reference, and the parsed part of the input. */
module ChannelHistory {
  import opened Basics
  import opened SecretFrame
  import opened ChannelCore
  import opened ChannelSystem
  import opened ChannelInvariant

  // ----- the story of one operation -----

  function Prologue(r: Request): seq<Stage> {
    if r.secretRef == [] then [Started] else [Started, AwaitingSecret]
  }

  predicate RunnerReply(reply: Reply) {
    reply.ContextError? || reply.Result? || (reply.CommandRpcError? && reply.code == RpcCode(reply.exitCode))
  }

  function LastStage(reply: Reply): Stage
    requires RunnerReply(reply)
  {
    match reply
    case ContextError => Cancelled
    case CommandRpcError(_, _) => Failed
    case Result(_) => Completed
  }

  /** The single call of the runner: the request's arguments, and a secret exactly if one
      was requested, which then is the payload of a frame with that very reference. */
  ghost predicate CalledOnce(frames: seq<Frame>, op: Op) {
    && |op.calls| == 1
    && op.calls[0].arguments == RunnerArguments(op.request)
    && (op.calls[0].secret.Some? <==> op.request.secretRef != [])
    && (op.calls[0].secret.Some? ==> Frame(op.request.secretRef, op.calls[0].secret.value) in frames)
  }

  ghost predicate Story(frames: seq<Frame>, op: Op) {
    && (op.phase.Arrived? || (ParamsRejected(op.request) <==> op.phase == Done(RejectedParams)))
    && match op.phase
       case Arrived => op.trace == [] && op.calls == []
       case Checking => op.trace == Prologue(op.request) && op.calls == [] && op.request.secretRef != []
       case Waiting(_) => op.trace == Prologue(op.request) && op.calls == [] && op.request.secretRef != []
       case Ready(b) => op.trace == Prologue(op.request) && op.calls == [] && (b.Some? <==> op.request.secretRef != [])
       case InRunner(b) => op.trace == Prologue(op.request) + [Running] && CalledOnce(frames, op)
       case Erasing(b, reply) => Concluded(frames, op, reply)
       case Done(RejectedParams) => op.trace == [] && op.calls == []
       case Done(SecretError(_)) =>
         op.trace == [Started, AwaitingSecret, Failed] && op.calls == [] && op.request.secretRef != []
       case Done(reply) => Concluded(frames, op, reply)
  }

  ghost predicate Concluded(frames: seq<Frame>, op: Op, reply: Reply) {
    && RunnerReply(reply)
    && op.trace == Prologue(op.request) + [Running, LastStage(reply)]
    && CalledOnce(frames, op)
    && (reply.ContextError? ==> op.cancelled)
  }

  ghost predicate Stories(s: System) {
    forall k :: 0 <= k < |s.ops| ==> Story(s.frames, s.ops[k])
  }

  predicate MovesOp(e: Event) {
    e.Cancel? || e.Begin? || e.LookUp? || e.WakeUp? || e.GiveUp? || e.CallRunner? || e.RunnerReturns? || e.EraseSecret?
  }

  /** An operation's own step touches no other operation and no frame. */
  lemma OthersUntouched(s: System, e: Event)
    requires Enabled(s, e) && MovesOp(e)
    ensures Step(s, e).frames == s.frames && |Step(s, e).ops| == |s.ops|
    ensures forall k :: 0 <= k < |s.ops| && k != e.op ==> Step(s, e).ops[k] == s.ops[k]
    ensures Step(s, e).ops[e.op].request == s.ops[e.op].request
  {
  }

  lemma OpsUntouched(s: System, e: Event)
    requires Enabled(s, e) && !MovesOp(e) && !e.Arrive?
    ensures Step(s, e).ops == s.ops
    ensures s.frames <= Step(s, e).frames
  {
  }

  lemma StoryOpens(s: System, e: Event)
    requires Enabled(s, e) && (e.Cancel? || e.Begin? || e.LookUp? || e.WakeUp? || e.GiveUp?)
    requires Story(s.frames, s.ops[e.op])
    ensures Story(s.frames, Step(s, e).ops[e.op])
  {
    assert Step(s, e).ops[e.op].request == s.ops[e.op].request;
  }

  lemma StoryCloses(s: System, e: Event)
    requires Enabled(s, e) && (e.RunnerReturns? || e.EraseSecret?)
    requires Story(s.frames, s.ops[e.op])
    ensures Story(s.frames, Step(s, e).ops[e.op])
  {
    var op := s.ops[e.op];
    if e.RunnerReturns? {
      var stage := Conclude(op.cancelled, e.outcome).1;
      assert Prologue(op.request) + [Running] + [stage] == Prologue(op.request) + [Running, stage];
    }
  }

  lemma StoryCalls(s: System, k: nat)
    requires Enabled(s, CallRunner(k))
    requires HolderOk(s, s.ops[k])
    requires Story(s.frames, s.ops[k])
    ensures Story(s.frames, CallStep(s, k).ops[k])
  {
    var op := s.ops[k];
    if op.phase.secret.Some? {
      var b := op.Held().value;
      assert s.frames[b] == Frame(op.request.secretRef, s.core.heap[b]);
    }
  }

  lemma StoriesStep(s: System, e: Event)
    requires s in SOUND && Stories(s) && Enabled(s, e)
    ensures Stories(Step(s, e))
  {
    hide Invariant;
    var t := Step(s, e);
    if MovesOp(e) {
      OthersUntouched(s, e);
      HolderFacts(s, e.op);
      hide Step;
      assert Story(s.frames, t.ops[e.op]) by {
        if e.CallRunner? {
          CallIsStep(s, e.op);
          StoryCalls(s, e.op);
        } else if e.RunnerReturns? || e.EraseSecret? {
          StoryCloses(s, e);
        } else {
          StoryOpens(s, e);
        }
      }
    } else if e.Arrive? {
      assert forall k :: 0 <= k < |s.ops| ==> t.ops[k] == s.ops[k];
    } else {
      OpsUntouched(s, e);
      assert forall f :: f in s.frames ==> f in t.frames;
    }
  }

  lemma CallIsStep(s: System, k: nat)
    requires Enabled(s, CallRunner(k))
    ensures Step(s, CallRunner(k)) == CallStep(s, k)
  {
  }

  // ----- the record of claims -----

  /** The operation has got past waiting for its secret. */
  predicate PastRead(op: Op) {
    || op.phase.Ready? || op.phase.InRunner?
    || ((op.phase.Erasing? || op.phase.Done?) && RunnerReply(op.phase.reply))
  }

  ghost predicate ClaimOk(s: System, c: Claim) {
    && c.op < |s.ops| && c.buffer < |s.frames|
    && s.frames[c.buffer] == Frame(c.reference, c.value)
    && s.ops[c.op].request.secretRef == c.reference
    && PastRead(s.ops[c.op])
    && !IsPending(s, c.buffer)
    && !PumpHolds(s.pump, c.buffer)
  }

  ghost predicate ClaimsOk(s: System) {
    && (forall i :: 0 <= i < |s.claims| ==> ClaimOk(s, s.claims[i]))
    && (forall i, j :: 0 <= i < j < |s.claims| ==>
          s.claims[i].op != s.claims[j].op && s.claims[i].buffer != s.claims[j].buffer)
  }

  /** A buffer that has left the pump and the pending map never gets back there. */
  lemma NothingReturns(s: System, e: Event, b: nat)
    requires Enabled(s, e) && b < |s.frames| <= |s.core.heap|
    requires !IsPending(s, b) && !PumpHolds(s.pump, b)
    ensures !IsPending(Step(s, e), b) && !PumpHolds(Step(s, e).pump, b)
  {
  }

  lemma PastStaysPast(s: System, e: Event, k: nat)
    requires Enabled(s, e) && At(s, k) && PastRead(s.ops[k])
    ensures At(Step(s, e), k) && PastRead(Step(s, e).ops[k])
    ensures Step(s, e).ops[k].request == s.ops[k].request
  {
    if MovesOp(e) {
      OthersUntouched(s, e);
    } else if !e.Arrive? {
      OpsUntouched(s, e);
    }
  }

  lemma ShapeFacts(s: System)
    requires s in SOUND
    ensures Shape(s)
  {
  }

  lemma PendingFacts(s: System, r: Bytes)
    requires s in SOUND
    ensures r in s.core.pending ==> PendingEntry(s, r)
  {
  }

  lemma ClaimStays(s: System, e: Event, c: Claim)
    requires s in SOUND && Enabled(s, e)
    requires ClaimOk(s, c)
    ensures ClaimOk(Step(s, e), c)
  {
    hide Invariant;
    ShapeFacts(s);
    NothingReturns(s, e, c.buffer);
    PastStaysPast(s, e, c.op);
    FramesGrow(s, e);
  }

  lemma FramesGrow(s: System, e: Event)
    requires Enabled(s, e)
    ensures s.frames <= Step(s, e).frames
    ensures s.claims <= Step(s, e).claims
  {
  }

  /** A new claim is for a frame and by an operation that were never claimed for before. */
  lemma NewClaim(s: System, k: nat)
    requires s in SOUND && Enabled(s, LookUp(k))
    requires s.ops[k].request.secretRef in s.core.pending
    ensures var t := LookUpStep(s, k);
            && |t.claims| == |s.claims| + 1
            && ClaimOk(t, t.claims[|s.claims|])
            && t.claims[|s.claims|].op == k
            && IsPending(s, t.claims[|s.claims|].buffer)
  {
    hide Invariant;
    PendingFacts(s, s.ops[k].request.secretRef);
  }

  lemma ClaimsStep(s: System, e: Event)
    requires s in SOUND && ClaimsOk(s) && Enabled(s, e)
    ensures ClaimsOk(Step(s, e))
  {
    hide Invariant;
    var t := Step(s, e);
    forall i | 0 <= i < |s.claims| ensures ClaimOk(t, s.claims[i]) {
      ClaimStays(s, e, s.claims[i]);
    }
    if e.LookUp? && s.ops[e.op].request.secretRef in s.core.pending {
      NewClaim(s, e.op);
      assert !PastRead(s.ops[e.op]);
      assert forall i :: 0 <= i < |s.claims| ==> ClaimOk(s, s.claims[i]) && t.claims[i] == s.claims[i];
    } else {
      assert t.claims == s.claims;
    }
  }

  // ----- the queue behind each reference -----

  /** The frames with reference `r`, by number, in stream order. */
  function Indices(frames: seq<Frame>, r: Bytes): seq<nat> {
    if frames == [] then []
    else
      var last := |frames| - 1;
      Indices(frames[..last], r) + (if frames[last].reference == r then [last] else [])
  }

  /** The frames handed out for `r`, by number, in lock order. */
  function Taken(claims: seq<Claim>, r: Bytes): seq<nat> {
    if claims == [] then []
    else
      var last := |claims| - 1;
      Taken(claims[..last], r) + (if claims[last].reference == r then [claims[last].buffer] else [])
  }

  function InPending(c: Core, r: Bytes): seq<nat> {
    if r in c.pending then [c.pending[r]] else []
  }

  function InPump(p: Pump, r: Bytes): seq<nat> {
    if p.Holding? && p.reference == r then [p.buffer] else []
  }

  /** Frames leave in the order in which they came, and as long as the channel is not
      poisoned none is missing: claimed, then pending, then still with the pump. */
  ghost predicate QueueOk(s: System, r: Bytes) {
    && Taken(s.claims, r) <= Indices(s.frames, r)
    && (!s.core.Poisoned() ==>
          Indices(s.frames, r) == Taken(s.claims, r) + InPending(s.core, r) + InPump(s.pump, r))
  }

  lemma IndicesOfOneMore(frames: seq<Frame>, f: Frame, r: Bytes)
    ensures Indices(frames + [f], r) == Indices(frames, r) + (if f.reference == r then [|frames|] else [])
  {
    assert (frames + [f])[..|frames|] == frames;
  }

  lemma TakenOfOneMore(claims: seq<Claim>, c: Claim, r: Bytes)
    ensures Taken(claims + [c], r) == Taken(claims, r) + (if c.reference == r then [c.buffer] else [])
  {
    assert (claims + [c])[..|claims|] == claims;
  }

  lemma PoisonLasts(s: System, e: Event)
    requires Enabled(s, e) && ErrorsOk(s) && s.core.Poisoned()
    ensures Step(s, e).core.Poisoned()
    ensures Step(s, e).claims == s.claims
  {
  }

  /** What a step does to the four places a frame can be in, unless it poisons. */
  lemma QuietStep(s: System, e: Event, r: Bytes)
    requires Enabled(s, e) && !e.PumpPayload? && !e.PumpLock? && !e.LookUp?
    ensures var t := Step(s, e);
            && t.frames == s.frames && t.claims == s.claims
            && (!t.core.Poisoned() ==> !s.core.Poisoned() && InPending(t.core, r) == InPending(s.core, r)
                                       && InPump(t.pump, r) == InPump(s.pump, r))
  {
  }

  /** Parsing a payload adds the frame that the pump then holds, or no frame at all. */
  lemma PayloadOutcome(s: System, limit: nat)
    requires Enabled(s, PumpPayload(limit)) && Shape(s)
    ensures var t := PayloadStep(s, limit);
            && t.core.pending == s.core.pending && t.core.Poisoned() == s.core.Poisoned()
            && t.claims == s.claims
            && ((t.frames == s.frames && t.pump.Discarding?) ||
                exists payload :: t.frames == s.frames + [Frame(s.pump.reference, payload)]
                               && t.pump == Holding(s.pump.reference, |s.frames|))
  {
    var t := PayloadStep(s, limit);
    if !t.pump.Discarding? {
      var payload := s.input[s.pos..s.pos + s.pump.length];
      assert t.frames == s.frames + [Frame(s.pump.reference, payload)];
    }
  }

  lemma QueuePayload(s: System, limit: nat, r: Bytes)
    requires Enabled(s, PumpPayload(limit)) && Shape(s) && QueueOk(s, r)
    ensures QueueOk(PayloadStep(s, limit), r)
  {
    var t := PayloadStep(s, limit);
    PayloadOutcome(s, limit);
    hide PayloadStep, Indices, Taken;
    if payload :| t.frames == s.frames + [Frame(s.pump.reference, payload)] {
      IndicesOfOneMore(s.frames, Frame(s.pump.reference, payload), r);
    }
  }

  lemma QueueLock(s: System, r: Bytes)
    requires Enabled(s, PumpLock) && ErrorsOk(s) && QueueOk(s, r)
    ensures QueueOk(LockStep(s), r)
  {
    var t := LockStep(s);
    assert t.frames == s.frames && t.claims == s.claims;
    if s.core.Poisoned() {
      PoisonLasts(s, PumpLock);
    }
  }

  lemma LookUpOutcome(s: System, k: nat)
    requires Enabled(s, LookUp(k))
    ensures var t := LookUpStep(s, k);
            var r := s.ops[k].request.secretRef;
            && t.frames == s.frames && t.pump == s.pump
            && t.core == s.core.(pending := s.core.pending - {r})
            && (r !in s.core.pending ==> t.claims == s.claims)
            && (r in s.core.pending ==> exists value :: t.claims == s.claims + [Claim(k, r, s.core.pending[r], value)])
  {
    var t := LookUpStep(s, k);
    var r := s.ops[k].request.secretRef;
    if r in s.core.pending {
      assert t.claims == s.claims + [Claim(k, r, s.core.pending[r], s.core.heap[s.core.pending[r]])];
    } else {
      assert s.core.pending - {r} == s.core.pending;
    }
  }

  lemma QueueClaim(s: System, k: nat, r: Bytes)
    requires Enabled(s, LookUp(k)) && ErrorsOk(s) && QueueOk(s, r)
    ensures QueueOk(LookUpStep(s, k), r)
  {
    var t := LookUpStep(s, k);
    var own := s.ops[k].request.secretRef;
    LookUpOutcome(s, k);
    hide LookUpStep, Indices, Taken;
    if own in s.core.pending {
      var value :| t.claims == s.claims + [Claim(k, own, s.core.pending[own], value)];
      TakenOfOneMore(s.claims, Claim(k, own, s.core.pending[own], value), r);
    }
  }

  lemma QueueStep(s: System, e: Event, r: Bytes)
    requires s in SOUND && QueueOk(s, r) && Enabled(s, e)
    ensures QueueOk(Step(s, e), r)
  {
    hide Invariant;
    ShapeFacts(s);
    ErrorFacts(s);
    match e
    case PumpPayload(limit) => QueuePayload(s, limit, r);
    case PumpLock => QueueLock(s, r);
    case LookUp(k) => QueueClaim(s, k, r);
    case _ => QuietStep(s, e, r);
  }

  // ----- the parsed part of the input -----

  function Prepend(frames: seq<Frame>, s: Stream): Stream {
    Stream(frames + s.frames, s.end)
  }

  /** The frames so far are what reading the whole input from its start yields first, and
      the pump's own error is how that reading ends, unless a Close cut it short. */
  ghost predicate Parsed(s: System) {
    && s.pos <= |s.input|
    && s.frames <= ReadAll(s.input).frames
    && match s.pump
       case Idle => s.frames == [] && s.pos == 0
       case Reading => ReadAll(s.input) == Prepend(s.frames, ReadAll(s.input[s.pos..]))
       case Filling(r, b, n) =>
         var start := s.pos - HEADER - |r|;
         && start >= 0
         && ReadHead(s.input[start..]) == Success(Head(r, n))
         && ReadAll(s.input) == Prepend(s.frames, ReadAll(s.input[start..]))
       case Holding(r, b) => ReadAll(s.input) == Prepend(s.frames, ReadAll(s.input[s.pos..]))
       case Discarding(_) => s.core.closed || ReadAll(s.input) == Stream(s.frames, PayloadUnreadable)
       case Failing(e) => s.core.closed || ReadAll(s.input) == Stream(s.frames, e)
       case Exited =>
         s.core.err.Some? && s.core.err.value.Broken? ==>
           ReadAll(s.input) == Stream(s.frames, s.core.err.value.cause)
  }

  lemma ReadAllEnds(input: Bytes)
    requires ReadFrame(input).Failure?
    ensures ReadAll(input) == Stream([], ReadFrame(input).error)
  {
  }

  lemma ReadAllGoesOn(input: Bytes, start: nat, h: Head, pos: nat, next: nat)
    requires start <= |input| && ReadHead(input[start..]) == Success(h)
    requires pos == start + HeadSize(h) && next == pos + h.secretLength <= |input|
    ensures ReadAll(input[start..]) == Prepend([Frame(h.reference, input[pos..next])], ReadAll(input[next..]))
  {
    var f := Frame(h.reference, input[pos..next]);
    assert ReadFrame(input[start..]) == Success(f) by {
      assert input[start..][HeadSize(h)..HeadSize(h) + h.secretLength] == f.payload;
    }
    assert input[start..][Size(f)..] == input[next..];
  }

  lemma PrependTwice(fs: seq<Frame>, gs: seq<Frame>, s: Stream)
    ensures Prepend(fs, Prepend(gs, s)) == Prepend(fs + gs, s)
  {
    assert fs + (gs + s.frames) == fs + gs + s.frames;
  }

  lemma HeadFailsAtEnd(input: Bytes, e: StreamError)
    requires ReadHead(input) == Failure(e)
    ensures ReadAll(input) == Stream([], e)
  {
    ReadAllEnds(input);
  }

  lemma ParsedHead(s: System, limit: nat)
    requires Enabled(s, PumpHead(limit)) && Parsed(s)
    ensures Parsed(HeadStep(s, limit))
  {
    hide ReadAll, ReadHead;
    var rest := s.input[s.pos..];
    HeadOfLonger(rest, limit - s.pos);
    assert rest[..limit - s.pos] == s.input[s.pos..limit];
    match ReadHead(s.input[s.pos..limit])
    case Failure(e) =>
      if !s.core.closed {
        assert s.input[s.pos..limit] == rest;
        HeadFailsAtEnd(rest, e);
        assert s.frames + [] == s.frames;
      }
    case Success(h) =>
  }

  lemma ParsedWhole(s: System, next: nat)
    requires s.pump.Filling? && Parsed(s) && s.pos + s.pump.length == next <= |s.input|
    ensures ReadAll(s.input)
         == Prepend(s.frames + [Frame(s.pump.reference, s.input[s.pos..next])], ReadAll(s.input[next..]))
  {
    hide ReadAll, ReadHead;
    var h := Head(s.pump.reference, s.pump.length);
    ReadAllGoesOn(s.input, s.pos - HeadSize(h), h, s.pos, next);
    PrependTwice(s.frames, [Frame(s.pump.reference, s.input[s.pos..next])], ReadAll(s.input[next..]));
  }

  lemma ParsedBroken(s: System)
    requires s.pump.Filling? && Parsed(s) && s.pos + s.pump.length > |s.input|
    ensures ReadAll(s.input) == Stream(s.frames, PayloadUnreadable)
  {
    var start := s.pos - HEADER - |s.pump.reference|;
    ReadAllEnds(s.input[start..]);
    assert s.frames + [] == s.frames;
  }

  lemma ParsedPayload(s: System, limit: nat)
    requires Enabled(s, PumpPayload(limit)) && Parsed(s)
    ensures Parsed(PayloadStep(s, limit))
  {
    hide ReadAll, ReadHead;
    if s.pos + s.pump.length <= limit {
      ParsedWhole(s, s.pos + s.pump.length);
    } else if !s.core.closed {
      ParsedBroken(s);
    }
  }

  /** Only a read error met before any Close is ever recorded as the cause. */
  lemma LockOutcome(s: System)
    requires Enabled(s, PumpLock) && ErrorsOk(s)
    ensures LockStep(s).input == s.input && LockStep(s).pos == s.pos && LockStep(s).frames == s.frames
    ensures LockStep(s).pump.Reading? ==> s.pump.Holding?
    ensures LockStep(s).pump.Reading? || LockStep(s).pump.Exited?
    ensures LockStep(s).core.err.Some? && LockStep(s).core.err.value.Broken? && LockStep(s).pump.Exited? ==>
              !s.core.closed && s.pump == Failing(LockStep(s).core.err.value.cause)
  {
  }

  lemma ParsedLock(s: System)
    requires Enabled(s, PumpLock) && Parsed(s) && ErrorsOk(s)
    ensures Parsed(LockStep(s))
  {
    hide ReadAll, ReadHead;
    LockOutcome(s);
    hide LockStep;
  }

  lemma QuietForPump(s: System, e: Event)
    requires Enabled(s, e) && !e.PumpHead? && !e.PumpPayload? && !e.PumpLock?
    ensures Step(s, e).input == s.input && Step(s, e).pos == s.pos && Step(s, e).frames == s.frames
    ensures s.core.closed ==> Step(s, e).core.closed
    ensures Step(s, e).core.err == s.core.err || (s.core.err.None? && Step(s, e).core.err == Some(Closed))
    ensures Step(s, e).pump == s.pump
         || (s.pump.Idle? && Step(s, e).pump.Reading?)
         || (s.pump.Discarding? && Step(s, e).pump == Failing(PayloadUnreadable))
  {
  }

  lemma ParsedQuiet(s: System, e: Event)
    requires Enabled(s, e) && Parsed(s) && !e.PumpHead? && !e.PumpPayload? && !e.PumpLock?
    ensures Parsed(Step(s, e))
  {
    hide ReadAll, ReadHead;
    QuietForPump(s, e);
    hide Step, Enabled;
    assert s.pump.Idle? ==> s.input[s.pos..] == s.input && [] + ReadAll(s.input).frames == ReadAll(s.input).frames;
  }

  lemma ParsedStep(s: System, e: Event)
    requires s in SOUND && Parsed(s) && Enabled(s, e)
    ensures Parsed(Step(s, e))
  {
    hide Invariant;
    ErrorFacts(s);
    match e
    case PumpHead(limit) => ParsedHead(s, limit);
    case PumpPayload(limit) => ParsedPayload(s, limit);
    case PumpLock => ParsedLock(s);
    case _ => ParsedQuiet(s, e);
  }

  // ----- every run -----

  ghost predicate History(s: System) {
    && Stories(s)
    && ClaimsOk(s)
    && (forall r :: QueueOk(s, r))
    && Parsed(s)
  }

  /** Every reachable state has sound histories. */
  lemma {:induction false} RunHistory(available: bool, input: Bytes, events: seq<Event>, s: System)
    requires Reaches(available, input, events, s)
    ensures s in SOUND && History(s)
    ensures s.available == available && s.input == input
  {
    RunKeeps(available, input, events, s);
    if events != [] {
      var e := events[|events| - 1];
      var t := Run(Initial(available, input), events[..|events| - 1]).value;
      RunHistory(available, input, events[..|events| - 1], t);
      HistoryStep(t, e);
    }
  }

  lemma GivenStays(s: System, e: Event)
    requires Enabled(s, e)
    ensures Step(s, e).available == s.available && Step(s, e).input == s.input
  {
  }

  lemma HistoryStep(s: System, e: Event)
    requires s in SOUND && History(s) && Enabled(s, e)
    ensures History(Step(s, e))
    ensures Step(s, e).available == s.available && Step(s, e).input == s.input
  {
    hide Invariant, Stories, ClaimsOk, QueueOk, Parsed, Step, Enabled;
    GivenStays(s, e);
    StoriesStep(s, e);
    ClaimsStep(s, e);
    ParsedStep(s, e);
    forall r ensures QueueOk(Step(s, e), r) {
      QueueStep(s, e, r);
    }
  }
}
