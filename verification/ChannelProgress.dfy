/** Progress: the steps of the pump and of the operations always run out, and they do not
    run out before every operation has returned. */
module ChannelProgress {
  import opened Basics
  import opened SecretFrame
  import opened ChannelCore
  import opened ChannelSystem
  import opened ChannelInvariant
  import opened ChannelHistory
  import opened ChannelTheorems

  /** Steps that the program itself takes, as opposed to its surroundings. */
  predicate Internal(e: Event) {
    !e.Arrive? && !e.Cancel? && !e.CloseChannel? && !e.Scribble?
  }

  // ----- nobody gets stuck -----

  /** The step that the pump can take next. */
  function PumpNext(s: System): Event {
    match s.pump
    case Reading => PumpHead(|s.input|)
    case Filling(_, _, _) => PumpPayload(|s.input|)
    case Discarding(_) => PumpDiscard
    case _ => PumpLock
  }

  lemma PumpGoesOn(s: System)
    requires s in SOUND && !s.pump.Idle? && !s.pump.Exited?
    ensures Enabled(s, PumpNext(s)) && Internal(PumpNext(s))
  {
    hide Invariant;
    ShapeFacts(s);
  }

  /** The step that an operation can take next; a waiter not yet woken has none. */
  function OpNext(s: System, k: nat, outcome: Outcome): Event
    requires At(s, k)
  {
    match s.ops[k].phase
    case Arrived => Begin(k)
    case Checking => LookUp(k)
    case Waiting(_) => WakeUp(k)
    case Ready(_) => CallRunner(k)
    case InRunner(_) => RunnerReturns(k, outcome)
    case _ => EraseSecret(k)
  }

  lemma OpGoesOn(s: System, k: nat, outcome: Outcome)
    requires s in SOUND && At(s, k) && !s.ops[k].phase.Done?
    requires s.ops[k].phase.Waiting? ==> s.pump.Exited?
    ensures Enabled(s, OpNext(s, k, outcome)) && Internal(OpNext(s, k, outcome))
  {
    hide Invariant;
    WellFormedCore(s);
    HolderFacts(s, k);
  }

  /** No reader is ever stuck: as long as an operation has not returned, the pump or that
      operation can take a step of its own. */
  lemma NoStuckOperation(available: bool, input: Bytes, events: seq<Event>, s: System, k: nat, outcome: Outcome)
    requires Reaches(available, input, events, s)
    requires At(s, k) && !s.ops[k].phase.Done?
    ensures Enabled(s, OpNext(s, k, outcome)) || Enabled(s, PumpNext(s))
    ensures s.pump.Exited? ==> Enabled(s, OpNext(s, k, outcome))
  {
    RunKeeps(available, input, events, s);
    hide Invariant;
    HolderFacts(s, k);
    if s.ops[k].phase.Waiting? && !s.pump.Exited? {
      PumpGoesOn(s);
    } else {
      OpGoesOn(s, k, outcome);
    }
  }

  // ----- the steps run out -----

  /** Bounds the steps that the pump may still take. */
  function PumpWork(s: System): nat
    requires s.pos <= |s.input|
  {
    var stage := match s.pump
      case Idle => 6
      case Filling(_, _, _) => 5
      case Holding(_, _) => 4
      case Reading => 3
      case Discarding(_) => 2
      case Failing(_) => 1
      case Exited => 0;
    4 * (|s.input| - s.pos) + stage
  }

  /** Bounds the steps that an operation may still take until the next signal. */
  function OpWork(op: Op, wake: nat): (n: nat)
    ensures n <= 6
  {
    match op.phase
    case Arrived => 6
    case Waiting(w) => if w < wake then 5 else 3
    case Checking => 4
    case Ready(_) => 3
    case InRunner(_) => 2
    case Erasing(_, _) => 1
    case Done(_) => 0
  }

  function OpsWork(ops: seq<Op>, wake: nat): (n: nat)
    ensures n <= 6 * |ops|
  {
    if ops == [] then 0 else OpWork(ops[0], wake) + OpsWork(ops[1..], wake)
  }

  function Work(s: System): nat
    requires s.pos <= |s.input|
  {
    PumpWork(s) * (6 * |s.ops| + 1) + OpsWork(s.ops, s.core.wake)
  }

  lemma {:induction false} OpsWorkUpdate(ops: seq<Op>, k: nat, op: Op, wake: nat)
    requires k < |ops|
    ensures OpsWork(ops[k := op], wake) == OpsWork(ops, wake) - OpWork(ops[k], wake) + OpWork(op, wake)
  {
    if k == 0 {
      assert ops[k := op][1..] == ops[1..];
    } else {
      assert ops[k := op][1..] == ops[1..][k - 1 := op];
      OpsWorkUpdate(ops[1..], k - 1, op, wake);
    }
  }

  lemma HeadStepWork(s: System, limit: nat)
    requires Enabled(s, PumpHead(limit)) && s.pos <= |s.input|
    ensures HeadStep(s, limit).ops == s.ops
    ensures HeadStep(s, limit).pos <= |HeadStep(s, limit).input|
    ensures PumpWork(HeadStep(s, limit)) < PumpWork(s)
  {
    HeadFits(s.input[s.pos..limit]);
    hide ReadHead;
  }

  lemma LaterStepWork(s: System, e: Event)
    requires Enabled(s, e) && (e.PumpPayload? || e.PumpDiscard? || e.PumpLock?) && s.pos <= |s.input|
    ensures Step(s, e).ops == s.ops
    ensures Step(s, e).pos <= |Step(s, e).input|
    ensures PumpWork(Step(s, e)) < PumpWork(s)
  {
  }

  lemma PumpStepWork(s: System, e: Event)
    requires s in SOUND && Enabled(s, e) && Internal(e) && !MovesOp(e)
    ensures Step(s, e).ops == s.ops
    ensures Step(s, e).pos <= |Step(s, e).input| && s.pos <= |s.input|
    ensures PumpWork(Step(s, e)) < PumpWork(s)
  {
    hide Invariant, PumpWork;
    ShapeFacts(s);
    if e.PumpHead? {
      HeadStepWork(s, e.limit);
    } else {
      LaterStepWork(s, e);
    }
  }

  lemma OpStepWork(s: System, e: Event)
    requires s in SOUND && Enabled(s, e) && Internal(e) && MovesOp(e)
    ensures s.pos <= |s.input| && Step(s, e).pos == s.pos && Step(s, e).input == s.input
    ensures PumpWork(Step(s, e)) <= PumpWork(s)
    ensures Step(s, e).core.wake == s.core.wake
    ensures Step(s, e).ops == s.ops[e.op := Step(s, e).ops[e.op]]
    ensures OpWork(Step(s, e).ops[e.op], s.core.wake) < OpWork(s.ops[e.op], s.core.wake)
  {
    hide Invariant;
    ShapeFacts(s);
    OthersUntouched(s, e);
  }

  lemma LessByOps(pump': nat, pump: nat, ops': nat, ops: nat, n: nat)
    requires pump' <= pump && ops' < ops
    ensures pump' * n + ops' < pump * n + ops
  {
    assert pump' * n <= pump * n;
  }

  lemma LessByPump(pump': nat, pump: nat, ops': nat, ops: nat, n: nat)
    requires pump' < pump && ops' < n
    ensures pump' * n + ops' < pump * n + ops
  {
    assert (pump' + 1) * n <= pump * n;
  }

  /** Every internal step uses up work, although signals wake operations again. */
  lemma StepUsesWork(s: System, e: Event)
    requires s in SOUND && Enabled(s, e) && Internal(e)
    ensures s.pos <= |s.input| && Step(s, e).pos <= |Step(s, e).input|
    ensures Work(Step(s, e)) < Work(s)
  {
    hide Invariant;
    var t := Step(s, e);
    var n := 6 * |s.ops| + 1;
    if MovesOp(e) {
      OpStepWork(s, e);
      OpsWorkUpdate(s.ops, e.op, t.ops[e.op], s.core.wake);
      hide Step, PumpWork, Enabled, OpWork, OpsWork;
      LessByOps(PumpWork(t), PumpWork(s), OpsWork(t.ops, t.core.wake), OpsWork(s.ops, s.core.wake), n);
    } else {
      PumpStepWork(s, e);
      hide Step, PumpWork, Enabled, OpWork, OpsWork;
      LessByPump(PumpWork(t), PumpWork(s), OpsWork(t.ops, t.core.wake), OpsWork(s.ops, s.core.wake), n);
    }
  }

  predicate AllInternal(events: seq<Event>) {
    forall e :: e in events ==> Internal(e)
  }

  /** From any reachable state, the program takes at most Work(s) steps of its own before
      it has to wait for its surroundings. */
  lemma {:induction false} StepsRunOut(s: System, events: seq<Event>, t: System)
    requires s in SOUND && Run(s, events) == Some(t) && AllInternal(events)
    ensures t in SOUND
    ensures s.pos <= |s.input| && t.pos <= |t.input|
    ensures |events| + Work(t) <= Work(s)
  {
    hide Invariant;
    ShapeFacts(s);
    if events != [] {
      var e := events[|events| - 1];
      var u := Run(s, events[..|events| - 1]).value;
      assert forall x :: x in events[..|events| - 1] ==> x in events;
      StepsRunOut(s, events[..|events| - 1], u);
      assert e in events;
      StepUsesWork(u, e);
      StepKeeps(u, e);
    }
  }

  /** No step of the program is left. */
  ghost predicate AtRest(s: System) {
    forall e :: Internal(e) ==> !Enabled(s, e)
  }

  /** At rest every operation has returned, and after Close every secret has been erased. */
  lemma RestIsCompletion(available: bool, input: Bytes, events: seq<Event>, s: System)
    requires Reaches(available, input, events, s) && AtRest(s)
    ensures forall k :: 0 <= k < |s.ops| ==> s.ops[k].phase.Done?
    ensures s.pump.Idle? || s.pump.Exited?
    ensures s.core.closed ==> forall b :: 0 <= b < |s.core.heap| ==> s.core.heap[b] == Zeros(|s.core.heap[b]|)
  {
    RunKeeps(available, input, events, s);
    hide Invariant;
    if !s.pump.Idle? && !s.pump.Exited? {
      PumpGoesOn(s);
    }
    forall k | 0 <= k < |s.ops| ensures s.ops[k].phase.Done? {
      if !s.ops[k].phase.Done? {
        HolderFacts(s, k);
        OpGoesOn(s, k, CommandError(1));
      }
    }
    if s.core.closed {
      ErasedAtQuiescence(available, input, events, s);
    }
  }
}
