/** Causes: why an operation ended as it did and why the channel failed, read off the run. */
module ChannelCauses {
  import opened Basics
  import opened SecretFrame
  import opened ChannelCore
  import opened ChannelSystem
  import opened ChannelInvariant
  import opened ChannelHistory
  import opened ChannelTheorems
  import opened ChannelSchedule
  import Utf8

  // ----- the reply and the runner -----

  /** The code that a client gets for an exit status of the command. */
  function CodeFor(exitCode: int): int {
    if exitCode == 2 then 1002 else if exitCode == 3 then 1003 else if exitCode == 4 then 1004 else 1001
  }

  /** The answer owed to a client whose runner came back. */
  function Owed(cancelled: bool, outcome: Outcome): Reply {
    if cancelled then ContextError
    else if outcome.Produced? then Result(outcome.json)
    else CommandRpcError(CodeFor(outcome.exitCode), outcome.exitCode)
  }

  /** The runner is back and the operation is going to give, or has given, this answer. */
  predicate Answers(op: Op, reply: Reply) {
    (op.phase.Erasing? || op.phase.Done?) && op.phase.reply == reply
  }

  lemma AnswerMade(s: System, k: nat, outcome: Outcome)
    requires Enabled(s, RunnerReturns(k, outcome))
    ensures At(Step(s, RunnerReturns(k, outcome)), k)
    ensures Answers(Step(s, RunnerReturns(k, outcome)).ops[k], Owed(s.ops[k].cancelled, outcome))
  {
  }

  lemma AnswerStays(s: System, e: Event, k: nat, reply: Reply)
    requires Enabled(s, e) && At(s, k) && Answers(s.ops[k], reply)
    ensures At(Step(s, e), k) && Answers(Step(s, e).ops[k], reply)
  {
    if MovesOp(e) {
      OthersUntouched(s, e);
    } else if !e.Arrive? {
      OpsUntouched(s, e);
    }
  }

  lemma {:induction false} AnswerForEver(s: System, events: seq<Event>, t: System, k: nat, reply: Reply)
    requires At(s, k) && Answers(s.ops[k], reply) && Run(s, events) == Some(t)
    ensures At(t, k) && Answers(t.ops[k], reply)
  {
    hide Answers, Enabled, Step, Run;
    if events == [] {
      RunNothing(s);
    } else {
      var u := RunLast(s, events, t);
      AnswerForEver(s, events[..|events| - 1], u, k, reply);
      AnswerStays(u, events[|events| - 1], k, reply);
    }
  }

  /** What the runner returned is what the client gets, in every continuation: its output,
      or the code of its exit status; `cancelled` only if it was cancelled by then. */
  lemma ReplyIsTheRunners(s: System, k: nat, outcome: Outcome, more: seq<Event>, t: System)
    requires Enabled(s, RunnerReturns(k, outcome)) && Run(Step(s, RunnerReturns(k, outcome)), more) == Some(t)
    ensures At(t, k)
    ensures t.ops[k].phase.Done? ==> t.ops[k].phase.reply == Owed(s.ops[k].cancelled, outcome)
  {
    AnswerMade(s, k, outcome);
    AnswerForEver(Step(s, RunnerReturns(k, outcome)), more, t, k, Owed(s.ops[k].cancelled, outcome));
  }

  // ----- the same for whole runs -----

  /** An operation counts as cancelled from the event that cancels it on. */
  lemma {:induction false} CancelledIff(available: bool, input: Bytes, events: seq<Event>, s: System, k: nat)
    requires Reaches(available, input, events, s) && At(s, k)
    ensures s.ops[k].cancelled <==> Cancel(k) in events
  {
    hide Enabled, Step, Run;
    if events == [] {
      RunNothing(Initial(available, input));
    } else {
      var last := |events| - 1;
      var t := RunLast(Initial(available, input), events, s);
      assert events == events[..last] + [events[last]];
      if At(t, k) {
        CancelledIff(available, input, events[..last], t, k);
      } else {
        NotYetCancelled(available, input, events[..last], t, k);
      }
      CancelledStep(t, events[last], k);
    }
  }

  lemma CancelledStep(s: System, e: Event, k: nat)
    requires Enabled(s, e) && At(Step(s, e), k)
    ensures Step(s, e).ops[k].cancelled <==> (At(s, k) && s.ops[k].cancelled) || e == Cancel(k)
  {
    if MovesOp(e) {
      OthersUntouched(s, e);
    } else if !e.Arrive? {
      OpsUntouched(s, e);
    }
  }

  lemma OpsGrow(s: System, e: Event)
    requires Enabled(s, e)
    ensures |s.ops| <= |Step(s, e).ops|
    ensures e.Cancel? ==> At(s, e.op)
  {
  }

  lemma {:induction false} NotYetCancelled(available: bool, input: Bytes, events: seq<Event>, s: System, k: nat)
    requires Reaches(available, input, events, s) && !At(s, k)
    ensures Cancel(k) !in events
  {
    hide Enabled, Step, Run;
    if events != [] {
      var last := |events| - 1;
      var t := RunLast(Initial(available, input), events, s);
      OpsGrow(t, events[last]);
      NotYetCancelled(available, input, events[..last], t, k);
      assert events == events[..last] + [events[last]];
    }
  }

  /** Event number `n` is the return of the runner of operation `k`, and `reply` is what its
      outcome, and a cancellation before it, call for. */
  ghost predicate RepliedAt(events: seq<Event>, k: nat, n: nat, reply: Reply) {
    && n < |events| && events[n].RunnerReturns? && events[n].op == k
    && reply == Owed(Cancel(k) in events[..n], events[n].outcome)
  }

  /** An answer comes from a runner that came back, or from one already there. */
  lemma AnswerComesFrom(s: System, e: Event, k: nat)
    requires Enabled(s, e) && At(Step(s, e), k)
    requires Step(s, e).ops[k].phase.Erasing? || Step(s, e).ops[k].phase.Done?
    requires RunnerReply(Step(s, e).ops[k].phase.reply)
    ensures
      || (At(s, k) && Answers(s.ops[k], Step(s, e).ops[k].phase.reply))
      || (&& e.RunnerReturns? && e.op == k && At(s, k)
          && Step(s, e).ops[k].phase.reply == Owed(s.ops[k].cancelled, e.outcome))
  {
    if MovesOp(e) && e.op != k {
      OthersUntouched(s, e);
    } else if !MovesOp(e) && !e.Arrive? {
      OpsUntouched(s, e);
    }
  }

  lemma {:induction false} RunnerCameBack(available: bool, input: Bytes, events: seq<Event>, s: System, k: nat)
    requires Reaches(available, input, events, s) && At(s, k)
    requires (s.ops[k].phase.Erasing? || s.ops[k].phase.Done?) && RunnerReply(s.ops[k].phase.reply)
    ensures exists n: nat :: RepliedAt(events, k, n, s.ops[k].phase.reply)
  {
    hide Enabled, Step, Run, RunnerReply, Owed;
    if events == [] {
      RunNothing(Initial(available, input));
    } else {
      var last, reply := |events| - 1, s.ops[k].phase.reply;
      var t := RunLast(Initial(available, input), events, s);
      AnswerComesFrom(t, events[last], k);
      if At(t, k) && Answers(t.ops[k], reply) {
        RunnerCameBack(available, input, events[..last], t, k);
        var n: nat :| RepliedAt(events[..last], k, n, reply);
        assert events[..last][..n] == events[..n];
        assert RepliedAt(events, k, n, reply);
      } else {
        CancelledIff(available, input, events[..last], t, k);
        assert RepliedAt(events, k, last, reply);
      }
    }
  }

  // ----- why there was no runner -----

  /** The parameters are refused: both choices at once, or none where one is required. */
  predicate Refused(r: Request) {
    if r.secretRef != [] then r.noPassphrase else r.requireChoice && !r.noPassphrase
  }

  /** What Read makes of a reference before it looks at the channel. */
  ghost predicate Admitted(s: System, op: Op) {
    !op.phase.Arrived? && op.request.secretRef != [] && !Refused(op.request) ==>
      && (op.phase == Done(SecretError(Unavailable)) <==> !s.available)
      && (op.phase == Done(SecretError(BadReference))
          <==> s.available && (|op.request.secretRef| > 256 || !Utf8.Valid(op.request.secretRef)))
  }

  lemma AdmittedStep(s: System, e: Event, k: nat)
    requires Enabled(s, e) && At(Step(s, e), k)
    requires At(s, k) ==> Admitted(s, s.ops[k]) && Story(s.frames, s.ops[k])
    ensures Admitted(Step(s, e), Step(s, e).ops[k])
  {
    GivenStays(s, e);
    if MovesOp(e) && e.op != k {
      OthersUntouched(s, e);
    } else if !MovesOp(e) && !e.Arrive? {
      OpsUntouched(s, e);
    }
  }

  lemma {:induction false} RunAdmitted(available: bool, input: Bytes, events: seq<Event>, s: System, k: nat)
    requires Reaches(available, input, events, s) && At(s, k)
    ensures Admitted(s, s.ops[k])
  {
    hide Enabled, Step, Run, Admitted, Story, ReadAll, Invariant;
    if events == [] {
      RunNothing(Initial(available, input));
    } else {
      var last := |events| - 1;
      var t := RunLast(Initial(available, input), events, s);
      if At(t, k) {
        RunAdmitted(available, input, events[..last], t, k);
        RunHistory(available, input, events[..last], t);
        assert Story(t.frames, t.ops[k]);
      }
      AdmittedStep(t, events[last], k);
    }
  }

  lemma {:induction false} RunFailures(available: bool, input: Bytes, events: seq<Event>, s: System)
    requires Reaches(available, input, events, s)
    ensures FailuresOk(s)
  {
    hide Enabled, Step, Run, ReadAll, Invariant;
    if events == [] {
      RunNothing(Initial(available, input));
    } else {
      var last := |events| - 1;
      var t := RunLast(Initial(available, input), events, s);
      RunFailures(available, input, events[..last], t);
      RunHistory(available, input, events[..last], t);
      hide FailuresOk, Stories;
      FailuresStep(t, events[last]);
    }
  }

  /** Every reply of every run has its cause, and the cause can be seen from outside:
      refused parameters in the request; a missing channel or a bad reference; a
      cancellation of the wait; the channel's own error; or what the runner returned. */
  lemma ReplyExplained(available: bool, input: Bytes, events: seq<Event>, s: System, k: nat)
    requires Reaches(available, input, events, s) && At(s, k) && s.ops[k].phase.Done?
    ensures s.ops[k].phase.reply.RejectedParams? <==> Refused(s.ops[k].request)
    ensures !Refused(s.ops[k].request) && s.ops[k].request.secretRef != [] ==>
              && (s.ops[k].phase.reply == SecretError(Unavailable) <==> !available)
              && (s.ops[k].phase.reply == SecretError(BadReference)
                  <==> available && (|s.ops[k].request.secretRef| > 256 || !Utf8.Valid(s.ops[k].request.secretRef)))
    ensures s.ops[k].phase.reply == SecretError(ContextDone) ==> Cancel(k) in events
    ensures s.ops[k].phase.reply.SecretError? && s.ops[k].phase.reply.cause.FromChannel? ==>
              s.core.err == Some(s.ops[k].phase.reply.cause.cause)
    ensures Running in s.ops[k].trace ==> exists n: nat :: RepliedAt(events, k, n, s.ops[k].phase.reply)
    ensures Running !in s.ops[k].trace ==> s.ops[k].phase.reply.RejectedParams? || s.ops[k].phase.reply.SecretError?
  {
    hide Invariant, ReadAll, Run;
    RunHistory(available, input, events, s);
    RunAdmitted(available, input, events, s, k);
    RunFailures(available, input, events, s);
    CancelledIff(available, input, events, s, k);
    hide Parsed, QueueOk, CalledOnce, RepliedAt;
    assert Story(s.frames, s.ops[k]);
    assert FailureOk(s, s.ops[k]);
    FinishedStory(s.frames, s.ops[k]);
    if RunnerReply(s.ops[k].phase.reply) {
      RunnerCameBack(available, input, events, s, k);
    }
  }

  // ----- why the channel failed -----

  /** In this state this event gives the channel its first error. */
  predicate Causes(s: System, e: Event, cause: ChannelError) {
    && s.core.err.None?
    && match cause
       case Duplicate => e == PumpLock && s.pump.Holding? && s.pump.reference in s.core.pending
       case Overflow =>
         e == PumpLock && s.pump.Holding? && s.pump.reference !in s.core.pending && |s.core.pending| == 32
       case Closed => e == CloseChannel
       case Broken(end) => e == PumpLock && s.pump == Failing(end)
  }

  lemma CausedByStep(s: System, e: Event, cause: ChannelError)
    requires s in SOUND && Enabled(s, e) && s.core.err.None?
    ensures Step(s, e).core.err == Some(cause) <==> Causes(s, e, cause)
  {
    hide Invariant;
    ErrorFacts(s);
  }

  ghost predicate CausedAt(available: bool, input: Bytes, events: seq<Event>, n: nat, cause: ChannelError) {
    && n < |events|
    && var before := Run(Initial(available, input), events[..n]);
       before.Some? && Causes(before.value, events[n], cause)
  }

  ghost predicate Caused(available: bool, input: Bytes, events: seq<Event>, cause: ChannelError) {
    exists n: nat :: CausedAt(available, input, events, n, cause)
  }

  lemma CausedByLast(available: bool, input: Bytes, events: seq<Event>, t: System, cause: ChannelError)
    requires events != [] && Run(Initial(available, input), events[..|events| - 1]) == Some(t)
    ensures Caused(available, input, events, cause)
       <==> Caused(available, input, events[..|events| - 1], cause) || Causes(t, events[|events| - 1], cause)
  {
    var last := |events| - 1;
    hide Causes, Run;
    forall n: nat | n < last
      ensures CausedAt(available, input, events, n, cause) <==> CausedAt(available, input, events[..last], n, cause)
    {
      assert events[..last][..n] == events[..n];
    }
    assert CausedAt(available, input, events, last, cause) <==> Causes(t, events[last], cause);
  }

  /** The recorded error tells what happened: Duplicate that the pump held a frame whose
      reference was pending, Overflow that it held another while 32 waited, Closed that the
      channel was closed, and a read error how the pump's reading ended, in each case while
      no error was recorded yet. */
  lemma {:induction false} ErrorIff(available: bool, input: Bytes, events: seq<Event>, s: System, cause: ChannelError)
    requires Reaches(available, input, events, s)
    ensures s.core.err == Some(cause) <==> Caused(available, input, events, cause)
  {
    hide Invariant, Causes, Caused, Enabled, Step, Run;
    if events == [] {
      RunNothing(Initial(available, input));
      NothingCaused(available, input, cause);
    } else {
      var last := |events| - 1;
      var t := RunLast(Initial(available, input), events, s);
      ErrorIff(available, input, events[..last], t, cause);
      RunKeeps(available, input, events[..last], t);
      CausedByLast(available, input, events, t, cause);
      if t.core.err.None? {
        CausedByStep(t, events[last], cause);
      } else {
        ErrorStays(t, events[last]);
        OnlyTheFirst(t, events[last], cause);
      }
    }
  }

  lemma OnlyTheFirst(s: System, e: Event, cause: ChannelError)
    requires s.core.err.Some?
    ensures !Causes(s, e, cause)
  {
  }

  lemma NothingCaused(available: bool, input: Bytes, cause: ChannelError)
    ensures !Caused(available, input, [], cause)
  {
  }
}
