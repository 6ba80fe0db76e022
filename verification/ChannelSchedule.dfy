/** Schedules: when the outcome does not depend on how the steps interleave, and when a
    reference can be claimed only once. */
module ChannelSchedule {
  import opened Basics
  import opened SecretFrame
  import opened ChannelCore
  import opened ChannelSystem
  import opened ChannelInvariant
  import opened ChannelHistory
  import opened ChannelTheorems
  import opened ChannelProgress

  predicate DistinctReferences(frames: seq<Frame>) {
    forall i, j :: 0 <= i < j < |frames| ==> frames[i].reference != frames[j].reference
  }

  // ----- why reads fail -----

  /** The recorded cause of a failed read, as far as it can still be seen. */
  ghost predicate FailureOk(s: System, op: Op) {
    op.phase.Done? && op.phase.reply.SecretError? ==>
      match op.phase.reply.cause
      case Unavailable => !s.available
      case BadReference => !ValidReference(op.request.secretRef)
      case ContextDone => op.cancelled
      case FromChannel(e) => s.core.err == Some(e) && op.request.secretRef !in s.core.pending
  }

  ghost predicate FailuresOk(s: System) {
    forall k :: 0 <= k < |s.ops| ==> FailureOk(s, s.ops[k])
  }

  /** Once an error is recorded nothing is added to the pending map. */
  lemma ErrorStopsFiling(s: System, e: Event, r: Bytes)
    requires Enabled(s, e) && ErrorsOk(s)
    requires s.core.err.Some? && r !in s.core.pending
    ensures Step(s, e).core.err == s.core.err && r !in Step(s, e).core.pending
  {
  }

  /** A finished operation stays as it is; it may only still be cancelled. */
  lemma DoneStaysDone(s: System, e: Event, k: nat)
    requires Enabled(s, e) && At(s, k) && s.ops[k].phase.Done?
    ensures Step(s, e).available == s.available
    ensures At(Step(s, e), k) && Step(s, e).ops[k].phase == s.ops[k].phase
    ensures Step(s, e).ops[k].request == s.ops[k].request
    ensures s.ops[k].cancelled ==> Step(s, e).ops[k].cancelled
  {
  }

  lemma FailureStays(s: System, e: Event, k: nat)
    requires Enabled(s, e) && ErrorsOk(s) && At(s, k)
    requires FailureOk(s, s.ops[k]) && s.ops[k].phase.Done?
    ensures At(Step(s, e), k) && FailureOk(Step(s, e), Step(s, e).ops[k])
  {
    var op := s.ops[k];
    DoneStaysDone(s, e, k);
    if op.phase.reply.SecretError? && op.phase.reply.cause.FromChannel? {
      ErrorStopsFiling(s, e, op.request.secretRef);
    }
    hide Step, Enabled;
  }

  lemma FailureMade(s: System, e: Event)
    requires Enabled(s, e) && MovesOp(e) && !s.ops[e.op].phase.Done?
    requires s.ops[e.op].phase.Erasing? ==> RunnerReply(s.ops[e.op].phase.reply)
    ensures FailureOk(Step(s, e), Step(s, e).ops[e.op])
  {
  }

  lemma FailuresStep(s: System, e: Event)
    requires s in SOUND && Stories(s) && FailuresOk(s) && Enabled(s, e)
    ensures FailuresOk(Step(s, e))
  {
    hide Invariant;
    ErrorFacts(s);
    var t := Step(s, e);
    forall k | 0 <= k < |t.ops| ensures FailureOk(t, t.ops[k]) {
      if k < |s.ops| && s.ops[k].phase.Done? {
        FailureStays(s, e, k);
      } else if MovesOp(e) && e.op == k {
        assert Story(s.frames, s.ops[k]);
        FailureMade(s, e);
      } else if MovesOp(e) {
        OthersUntouched(s, e);
      } else if !e.Arrive? {
        OpsUntouched(s, e);
      }
    }
  }

  // ----- calm runs -----

  /** Nobody cancels and nobody closes. */
  predicate Calm(events: seq<Event>) {
    forall e :: e in events ==> !e.Cancel? && !e.CloseChannel?
  }

  /** At most 32 frames arrive, and no two of them share a reference. */
  ghost predicate Modest(input: Bytes) {
    DistinctReferences(ReadAll(input).frames) && |ReadAll(input).frames| <= 32
  }

  function References(frames: seq<Frame>): (refs: set<Bytes>)
    ensures |refs| <= |frames|
    ensures forall i :: 0 <= i < |frames| ==> frames[i].reference in refs
  {
    if frames == [] then {} else {frames[0].reference} + References(frames[1..])
  }

  /** While the pump still holds a frame, the pending ones are earlier and fewer. */
  lemma PendingAreEarlier(s: System)
    requires s in SOUND && s.pump.Holding?
    ensures |s.core.pending| < |s.frames|
    ensures DistinctReferences(s.frames) ==> s.pump.reference !in s.core.pending
  {
    hide Invariant;
    ShapeFacts(s);
    var earlier := s.frames[..s.pump.buffer];
    forall r | r in s.core.pending ensures r in References(earlier) {
      PendingFacts(s, r);
      assert earlier[s.core.pending[r]].reference == r;
    }
    SubsetSize(s.core.pending.Keys, References(earlier));
    if s.pump.reference in s.core.pending {
      PendingFacts(s, s.pump.reference);
    }
  }

  lemma SubsetSize(a: set<Bytes>, b: set<Bytes>)
    requires a <= b
    ensures |a| <= |b|
  {
    assert b == a + (b - a);
  }

  lemma PrefixDistinct(fs: seq<Frame>, gs: seq<Frame>)
    requires fs <= gs && DistinctReferences(gs)
    ensures DistinctReferences(fs)
  {
  }

  ghost predicate CalmState(s: System) {
    && !s.core.Poisoned()
    && forall k :: 0 <= k < |s.ops| ==> !s.ops[k].cancelled
  }

  lemma CalmStep(s: System, e: Event)
    requires s in SOUND && Enabled(s, e) && CalmState(s)
    requires !e.Cancel? && !e.CloseChannel?
    requires s.pump.Holding? ==> s.pump.reference !in s.core.pending && |s.core.pending| < 32
    ensures CalmState(Step(s, e))
  {
    hide Invariant;
    var t := Step(s, e);
    if MovesOp(e) {
      OthersUntouched(s, e);
    } else if !e.Arrive? {
      OpsUntouched(s, e);
    }
  }

  lemma {:induction false} CalmRun(available: bool, input: Bytes, events: seq<Event>, s: System)
    requires Reaches(available, input, events, s) && Calm(events) && Modest(input)
    ensures s in SOUND && History(s) && FailuresOk(s) && CalmState(s)
    ensures s.available == available && s.input == input
  {
    hide Invariant, ReadAll;
    RunHistory(available, input, events, s);
    if events != [] {
      var e := events[|events| - 1];
      var t := Run(Initial(available, input), events[..|events| - 1]).value;
      assert e in events && forall x :: x in events[..|events| - 1] ==> x in events;
      CalmRun(available, input, events[..|events| - 1], t);
      PrefixDistinct(t.frames, ReadAll(input).frames);
      if t.pump.Holding? {
        PendingAreEarlier(t);
      }
      FailuresStep(t, e);
      CalmStep(t, e);
    }
  }

  // ----- schedule independence -----

  /** No two operations ask for the same reference. */
  ghost predicate OwnReferences(ops: seq<Op>) {
    forall j, k :: 0 <= j < k < |ops| && ops[j].request.secretRef != [] ==>
      ops[j].request.secretRef != ops[k].request.secretRef
  }

  /** In a calm run a valid read fails only because the stream has ended. */
  lemma FailedReadCause(s: System, k: nat)
    requires s in SOUND && Parsed(s) && FailuresOk(s) && CalmState(s) && s.available
    requires At(s, k) && s.ops[k].phase.Done? && s.ops[k].phase.reply.SecretError?
    requires ValidReference(s.ops[k].request.secretRef)
    ensures s.ops[k].phase.reply == SecretError(FromChannel(Broken(ReadAll(s.input).end)))
    ensures s.frames == ReadAll(s.input).frames
    ensures s.pump.Exited? && s.ops[k].request.secretRef !in s.core.pending
  {
    hide Invariant, ReadAll;
    ErrorFacts(s);
    assert FailureOk(s, s.ops[k]);
    assert s.core.err.value.Broken?;
    assert s.pump.Exited?;
  }

  /** The claim by which frame `i` left, once it is neither pending nor with the pump. */
  lemma ClaimFor(s: System, i: nat) returns (c: Claim)
    requires History(s) && !s.core.Poisoned() && s.pump.Exited?
    requires i < |s.frames| && s.frames[i].reference !in s.core.pending
    ensures ClaimOk(s, c) && c.reference == s.frames[i].reference
  {
    hide Parsed;
    var r := s.frames[i].reference;
    assert QueueOk(s, r);
    IndexPresent(s.frames, i);
    TakenIsClaimed(s.claims, r, i);
    var n :| 0 <= n < |s.claims| && s.claims[n].reference == r;
    c := s.claims[n];
  }

  /** In a calm run no read fails of a reference that the stream carries. */
  lemma FailedReadIsAbsent(s: System, k: nat, i: nat)
    requires s in SOUND && History(s) && FailuresOk(s) && CalmState(s)
    requires s.available && OwnReferences(s.ops)
    requires At(s, k) && s.ops[k].phase.Done? && s.ops[k].phase.reply.SecretError?
    requires ValidReference(s.ops[k].request.secretRef)
    requires i < |ReadAll(s.input).frames|
    ensures ReadAll(s.input).frames[i].reference != s.ops[k].request.secretRef
  {
    hide Invariant, ReadAll;
    FailedReadCause(s, k);
    if s.frames[i].reference == s.ops[k].request.secretRef {
      var c := ClaimFor(s, i);
    }
  }

  /** Distinct references leave the runner's single call no choice of secret. */
  lemma CallIsDetermined(fs: seq<Frame>, op: Op)
    requires DistinctReferences(fs) && CalledOnce(fs, op) && op.request.secretRef != []
    ensures exists i :: 0 <= i < |fs| && fs[i].reference == op.request.secretRef
    ensures forall i :: 0 <= i < |fs| && fs[i].reference == op.request.secretRef ==>
              op.calls == [Call(RunnerArguments(op.request), Some(fs[i].payload))]
  {
    var n :| 0 <= n < |fs| && fs[n] == Frame(op.request.secretRef, op.calls[0].secret.value);
    assert op.calls == [op.calls[0]];
  }

  /** What a stream of these frames and this end owes an operation that asks for a secret. */
  ghost predicate Served(stream: Stream, op: Op) {
    && (forall i :: 0 <= i < |stream.frames| && stream.frames[i].reference == op.request.secretRef ==>
          op.calls == [Call(RunnerArguments(op.request), Some(stream.frames[i].payload))])
    && ((forall i :: 0 <= i < |stream.frames| ==> stream.frames[i].reference != op.request.secretRef) ==>
          op.calls == [] && op.phase == Done(SecretError(FromChannel(Broken(stream.end)))))
  }

  lemma FailedIsServed(s: System, k: nat)
    requires s in SOUND && History(s) && FailuresOk(s) && CalmState(s)
    requires s.available && OwnReferences(s.ops)
    requires At(s, k) && s.ops[k].phase.Done? && s.ops[k].phase.reply.SecretError?
    requires ValidReference(s.ops[k].request.secretRef)
    ensures Served(ReadAll(s.input), s.ops[k])
  {
    hide Invariant, ReadAll;
    forall i: nat | i < |ReadAll(s.input).frames|
      ensures ReadAll(s.input).frames[i].reference != s.ops[k].request.secretRef
    {
      FailedReadIsAbsent(s, k, i);
    }
    FailedReadCause(s, k);
    assert Story(s.frames, s.ops[k]);
  }

  /** Every interleaving gives each reader its own payload, and readers of references that
      the stream does not carry the error that ends the stream: for a stream of at most 32
      frames with distinct references, no Close, no cancellation, and operations that ask
      for distinct references, what a finished operation got depends on the stream alone. */
  lemma ScheduleIndependent(input: Bytes, events: seq<Event>, s: System, k: nat)
    requires Reaches(true, input, events, s) && Calm(events) && Modest(input)
    requires OwnReferences(s.ops)
    requires At(s, k) && s.ops[k].phase.Done?
    requires ValidReference(s.ops[k].request.secretRef) && !ParamsRejected(s.ops[k].request)
    ensures Served(ReadAll(input), s.ops[k])
  {
    hide Invariant, ReadAll, Run;
    CalmRun(true, input, events, s);
    if s.ops[k].phase.reply.SecretError? {
      FailedIsServed(s, k);
    } else {
      OperationStory(true, input, events, s, k);
      hide History, FailuresOk;
      assert s.ops[k].trace[|Prologue(s.ops[k].request)|] == Running;
      CallIsDetermined(ReadAll(input).frames, s.ops[k]);
    }
  }

  /** The same for whole runs: run it until nothing is left to do, and every operation is
      back with the outcome that the stream determines. */
  lemma EveryReaderServed(input: Bytes, events: seq<Event>, s: System, k: nat, i: nat)
    requires Reaches(true, input, events, s) && Calm(events) && Modest(input)
    requires OwnReferences(s.ops) && AtRest(s)
    requires At(s, k) && !ParamsRejected(s.ops[k].request)
    requires i < |ReadAll(input).frames| && ReadAll(input).frames[i].reference == s.ops[k].request.secretRef
    ensures s.ops[k].phase.Done?
    ensures s.ops[k].calls == [Call(RunnerArguments(s.ops[k].request), Some(ReadAll(input).frames[i].payload))]
  {
    RestIsCompletion(true, input, events, s);
    ReadAllIsEncoded(input);
    assert ReadAll(input).frames[i] in ReadAll(input).frames;
    ScheduleIndependent(input, events, s, k);
  }

  // ----- one claim per reference -----

  /** Between two frames, with every frame so far claimed. */
  ghost predicate Drained(s: System) {
    && (s.pump.Reading? || s.pump.Idle?)
    && s.available
    && s.core.pending == map[] && s.core.err.None? && !s.core.closed
    && |s.claims| == |s.frames|
    && forall i :: 0 <= i < |s.claims| ==> s.claims[i].reference == s.frames[i].reference
  }

  lemma NextFrame(s: System)
    requires Parsed(s) && (s.pump.Reading? || s.pump.Idle?)
    requires |s.frames| < |ReadAll(s.input).frames|
    ensures ReadFrame(s.input[s.pos..]) == Success(ReadAll(s.input).frames[|s.frames|])
  {
    var rest := s.input[s.pos..];
    if s.pump.Idle? {
      assert rest == s.input;
    }
    assert ReadAll(rest).frames != [];
  }

  /** A new operation asks for reference `r` and finds the pump reading. */
  lemma DrainAsk(s: System, r: Bytes)
    requires Drained(s) && ValidReference(r)
    ensures var request := Request(r, false, false, []);
            && Enabled(s, Arrive(request))
            && Enabled(Step(s, Arrive(request)), Begin(|s.ops|))
            && Step(Step(s, Arrive(request)), Begin(|s.ops|))
            == s.(pump := Reading, ops := s.ops + [Op(request, false, Checking, [Started, AwaitingSecret], [])])
  {
    var request := Request(r, false, false, []);
    var t := Step(s, Arrive(request));
    var none: seq<Stage> := [];
    assert none + [Started, AwaitingSecret] == [Started, AwaitingSecret];
    assert t.ops[|s.ops|] == Op(request, false, Arrived, [], []);
    assert t.ops[|s.ops| := Op(request, false, Checking, [Started, AwaitingSecret], [])]
        == s.ops + [Op(request, false, Checking, [Started, AwaitingSecret], [])];
  }

  lemma DrainParse(s: System, f: Frame)
    requires s.pump.Reading? && s.pos <= |s.input| && ReadFrame(s.input[s.pos..]) == Success(f)
    requires |s.core.heap| == |s.frames|
    ensures Enabled(s, PumpHead(|s.input|))
    ensures Enabled(Step(s, PumpHead(|s.input|)), PumpPayload(|s.input|))
    ensures Step(Step(s, PumpHead(|s.input|)), PumpPayload(|s.input|))
         == s.(pos := s.pos + Size(f), pump := Holding(f.reference, |s.frames|),
               core := s.core.(heap := s.core.heap + [f.payload]), frames := s.frames + [f])
  {
    var rest := s.input[s.pos..];
    assert s.input[s.pos..|s.input|] == rest;
    var t := Step(s, PumpHead(|s.input|));
    assert s.input[t.pos..t.pos + |f.payload|] == f.payload;
    assert t.core.heap[|s.core.heap| := f.payload] == s.core.heap + [f.payload];
  }

  /** An operation that finds nothing pending waits, and is then cancelled. */
  lemma WaitThenCancel(s: System, k: nat)
    requires At(s, k) && s.ops[k].phase.Checking? && s.core == EMPTY
    ensures Enabled(s, LookUp(k)) && Enabled(Step(s, LookUp(k)), Cancel(k))
    ensures Step(Step(s, LookUp(k)), Cancel(k))
         == s.(ops := s.ops[k := s.ops[k].(phase := Waiting(0), cancelled := true)])
  {
  }

  /** The state from which CancelledWaiterHasTwoEnds starts is reached with every input that
      begins with a frame: the operation waits, is cancelled, and then the frame comes. */
  lemma CancelledWaiterReached(input: Bytes, f: Frame) returns (events: seq<Event>, s: System)
    requires ReadFrame(input) == Success(f)
    ensures Reaches(true, input, events, s)
    ensures At(s, 0) && s.ops[0].phase.Waiting? && s.ops[0].cancelled
    ensures s.ops[0].request.secretRef == f.reference && f.reference in s.core.pending
  {
    hide Run, ReadFrame;
    var start, limit := Initial(true, input), |input|;
    ReadIffEncoded(input, f);
    assert input[0..] == input;
    var request := Request(f.reference, false, false, []);
    DrainAsk(start, f.reference);
    var asking := Step(Step(start, Arrive(request)), Begin(0));
    WaitThenCancel(asking, 0);
    var waiting := Step(Step(asking, LookUp(0)), Cancel(0));
    DrainParse(waiting, f);
    var parsed := Step(Step(waiting, PumpHead(limit)), PumpPayload(limit));
    s := Step(parsed, PumpLock);
    assert s.ops[0] == Op(request, true, Waiting(0), [Started, AwaitingSecret], []);
    hide Step, Enabled;
    RunFirst(start, Arrive(request));
    RunOneMore(start, [Arrive(request)], Step(start, Arrive(request)), Begin(0));
    events := [Arrive(request)] + [Begin(0)];
    RunTwoMore(start, events, asking, LookUp(0), Cancel(0));
    events := events + [LookUp(0)] + [Cancel(0)];
    RunTwoMore(start, events, waiting, PumpHead(limit), PumpPayload(limit));
    events := events + [PumpHead(limit)] + [PumpPayload(limit)];
    RunOneMore(start, events, parsed, PumpLock);
    events := events + [PumpLock];
  }

  /** The frame is filed, looked up by operation `k` and thereby claimed. */
  lemma DrainClaim(s: System, k: nat)
    requires s.pump.Holding? && At(s, k) && s.ops[k].phase.Checking?
    requires s.ops[k].request.secretRef == s.pump.reference
    requires s.core.pending == map[] && s.core.err.None? && !s.core.closed
    requires s.pump.buffer < |s.core.heap|
    ensures Enabled(s, PumpLock) && Enabled(Step(s, PumpLock), LookUp(k))
    ensures var t := Step(Step(s, PumpLock), LookUp(k));
            && t.pump.Reading? && t.available == s.available && t.frames == s.frames
            && t.core.pending == map[] && t.core.err.None? && !t.core.closed
            && |t.claims| == |s.claims| + 1 && s.claims <= t.claims
            && t.claims[|s.claims|].reference == s.pump.reference
  {
    assert map[s.pump.reference := s.pump.buffer] - {s.pump.reference} == map[];
  }

  /** An operation arrives, asks for the next frame, the frame is filed and claimed. */
  lemma DrainOne(input: Bytes, events: seq<Event>, s: System) returns (events': seq<Event>, t: System)
    requires Reaches(true, input, events, s) && Drained(s)
    requires |s.frames| < |ReadAll(input).frames|
    ensures Reaches(true, input, events', t) && Drained(t)
    ensures |t.frames| == |s.frames| + 1
  {
    hide Invariant, ReadAll, Step, Enabled, Run;
    RunHistory(true, input, events, s);
    ShapeFacts(s);
    NextFrame(s);
    var f := ReadAll(input).frames[|s.frames|];
    ReadIffEncoded(input[s.pos..], f);
    hide ReadFrame, Parsed, Stories, ClaimsOk, QueueOk;
    var start, limit, k := Initial(true, input), |input|, |s.ops|;
    var request := Request(f.reference, false, false, []);
    DrainAsk(s, f.reference);
    RunTwoMore(start, events, s, Arrive(request), Begin(k));
    var asked := Step(Step(s, Arrive(request)), Begin(k));
    DrainParse(asked, f);
    RunTwoMore(start, events + [Arrive(request)] + [Begin(k)], asked, PumpHead(limit), PumpPayload(limit));
    events' := events + [Arrive(request)] + [Begin(k)] + [PumpHead(limit)] + [PumpPayload(limit)];
    var parsed := Step(Step(asked, PumpHead(limit)), PumpPayload(limit));
    DrainClaim(parsed, k);
    RunTwoMore(start, events', parsed, PumpLock, LookUp(k));
    events' := events' + [PumpLock] + [LookUp(k)];
    t := Step(Step(parsed, PumpLock), LookUp(k));
  }

  /** Every frame of every stream can be claimed. */
  lemma {:induction false} DrainRun(input: Bytes, n: nat) returns (events: seq<Event>, s: System)
    requires n <= |ReadAll(input).frames|
    ensures Reaches(true, input, events, s) && Drained(s)
    ensures |s.frames| == n
  {
    if n == 0 {
      events, s := [], Initial(true, input);
    } else {
      events, s := DrainRun(input, n - 1);
      events, s := DrainOne(input, events, s);
    }
  }

  ghost predicate EachReferenceOnce(s: System) {
    forall i, j :: 0 <= i < j < |s.claims| ==> s.claims[i].reference != s.claims[j].reference
  }

  /** RPC.md says that each reference can be claimed once. The reader only refuses a
      reference that is still pending, so this holds exactly of the streams that do not
      repeat a reference: any repetition can be claimed again in some run. */
  lemma ReferenceClaimedOnceIff(input: Bytes)
    ensures (forall events, s :: Reaches(true, input, events, s) ==> EachReferenceOnce(s))
       <==> DistinctReferences(ReadAll(input).frames)
  {
    var fs := ReadAll(input).frames;
    if DistinctReferences(fs) {
      forall events, s | Reaches(true, input, events, s) ensures EachReferenceOnce(s) {
        forall i, j | 0 <= i < j < |s.claims| ensures s.claims[i].reference != s.claims[j].reference {
          FrameClaimedOnce(true, input, events, s, i, j);
          ClaimCarriesItsFrame(true, input, events, s, i);
          ClaimCarriesItsFrame(true, input, events, s, j);
        }
      }
    }
    if forall events, s :: Reaches(true, input, events, s) ==> EachReferenceOnce(s) {
      var events, s := DrainRun(input, |fs|);
      RunHistory(true, input, events, s);
      assert s.frames == fs;
      assert EachReferenceOnce(s);
    }
  }
}
