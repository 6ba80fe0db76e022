/** The one-use secret channel as a transition system: the pump of
    internal/rpcapi/secrets.go, any number of runOperation calls of
    internal/rpcapi/server.go, and Close. Each critical section, and each stretch of code
    that touches nothing shared, is one atomic step; an event names the step taken and
    carries whatever the surroundings choose. */
module ChannelSystem {
  import opened Basics
  import opened SecretFrame
  import opened ChannelCore

  // ----- operations -----

  datatype Request = Request(secretRef: Bytes, noPassphrase: bool, requireChoice: bool, arguments: seq<Bytes>)

  datatype Stage = Started | AwaitingSecret | Running | Completed | Failed | Cancelled

  datatype ReadError = Unavailable | BadReference | FromChannel(cause: ChannelError) | ContextDone

  /** What the runner gave back. */
  datatype Outcome = Produced(json: Bytes) | CommandError(exitCode: int)

  /** What runOperation returns. */
  datatype Reply =
    | RejectedParams
    | SecretError(cause: ReadError)
    | ContextError
    | CommandRpcError(code: int, exitCode: int)
    | Result(json: Bytes)

  /** One invocation of the runner. */
  datatype Call = Call(arguments: seq<Bytes>, secret: Option<Bytes>)

  datatype Phase =
    | Arrived
    | Checking
    | Waiting(wake: nat)
    | Ready(secret: Option<nat>)
    | InRunner(secret: Option<nat>)
    | Erasing(secret: Option<nat>, reply: Reply)
    | Done(reply: Reply)

  datatype Op = Op(request: Request, cancelled: bool, phase: Phase, trace: seq<Stage>, calls: seq<Call>)
  {
    /** The buffer this operation has claimed and not yet erased. */
    function Held(): Option<nat> {
      match phase
      case Ready(b) => b
      case InRunner(b) => b
      case Erasing(b, _) => b
      case _ => None
    }
  }

  const NO_PASSPHRASE: Bytes := Ascii("--no-passphrase")

  predicate ParamsRejected(r: Request) {
    || (r.secretRef != [] && r.noPassphrase)
    || (r.requireChoice && r.secretRef == [] && !r.noPassphrase)
  }

  function RunnerArguments(r: Request): seq<Bytes> {
    if r.noPassphrase then r.arguments + [NO_PASSPHRASE] else r.arguments
  }

  function RpcCode(exitCode: int): int {
    match exitCode
    case 2 => 1002
    case 3 => 1003
    case 4 => 1004
    case _ => 1001
  }

  /** The reply and the last stage once the runner is back; the context is looked at first. */
  function Conclude(cancelled: bool, outcome: Outcome): (Reply, Stage) {
    if cancelled then (ContextError, Cancelled)
    else match outcome
      case CommandError(code) => (CommandRpcError(RpcCode(code), code), Failed)
      case Produced(json) => (Result(json), Completed)
  }

  // ----- the pump -----

  datatype Pump =
    | Idle
    | Reading
    | Filling(reference: Bytes, buffer: nat, length: nat)
    | Holding(reference: Bytes, buffer: nat)
    | Discarding(buffer: nat)
    | Failing(cause: StreamError)
    | Exited

  /** `input` is what the underlying reader delivers before it ends; `pos` counts the bytes
      the pump has consumed. `frames` and `claims` record history: the frames parsed so
      far, frame number i in buffer i, and the successful lookups in lock order. */
  datatype System = System(
    available: bool,
    input: Bytes,
    pos: nat,
    pump: Pump,
    core: Core,
    ops: seq<Op>,
    frames: seq<Frame>,
    claims: seq<Claim>)

  datatype Claim = Claim(op: nat, reference: Bytes, buffer: nat, value: Bytes)

  function Initial(available: bool, input: Bytes): System {
    System(available, input, 0, Idle, EMPTY, [], [], [])
  }

  // ----- events -----

  datatype Event =
    // chosen by the surroundings
    | Arrive(request: Request)
    | Cancel(op: nat)
    | CloseChannel
    | Scribble(op: nat, content: Bytes)
    // the pump
    | PumpHead(limit: nat)
    | PumpPayload(limit: nat)
    | PumpDiscard
    | PumpLock
    // operation number `op`
    | Begin(op: nat)
    | LookUp(op: nat)
    | WakeUp(op: nat)
    | GiveUp(op: nat)
    | CallRunner(op: nat)
    | RunnerReturns(op: nat, outcome: Outcome)
    | EraseSecret(op: nat)

  predicate At(s: System, op: nat) {
    op < |s.ops|
  }

  /** How far the reader delivers: to its end, or less when a Close cuts it short. */
  predicate Delivers(s: System, limit: nat) {
    s.pos <= limit <= |s.input| && (limit == |s.input| || s.core.closed)
  }

  predicate Enabled(s: System, e: Event) {
    match e
    case Arrive(_) => true
    case Cancel(k) => At(s, k)
    case CloseChannel => s.available
    case Scribble(k, content) =>
      && At(s, k) && s.ops[k].phase.InRunner? && s.ops[k].phase.secret.Some?
      && s.ops[k].phase.secret.value < |s.core.heap|
      && |content| == |s.core.heap[s.ops[k].phase.secret.value]|
    case PumpHead(limit) => s.pump.Reading? && Delivers(s, limit)
    case PumpPayload(limit) => s.pump.Filling? && Delivers(s, limit) && s.pump.buffer < |s.core.heap|
    case PumpDiscard => s.pump.Discarding?
    case PumpLock => s.pump.Holding? || s.pump.Failing?
    case Begin(k) => At(s, k) && s.ops[k].phase.Arrived?
    case LookUp(k) => At(s, k) && s.ops[k].phase.Checking? && s.core.WellFormed()
    case WakeUp(k) => At(s, k) && s.ops[k].phase.Waiting? && s.ops[k].phase.wake < s.core.wake
    case GiveUp(k) => At(s, k) && s.ops[k].phase.Waiting? && s.ops[k].cancelled
    case CallRunner(k) => At(s, k) && s.ops[k].phase.Ready? && SecretAllocated(s, k)
    case RunnerReturns(k, _) => At(s, k) && s.ops[k].phase.InRunner?
    case EraseSecret(k) => At(s, k) && s.ops[k].phase.Erasing?
  }

  predicate SecretAllocated(s: System, k: nat)
    requires At(s, k) && s.ops[k].phase.Ready?
  {
    s.ops[k].phase.secret.Some? ==> s.ops[k].phase.secret.value < |s.core.heap|
  }

  function SetOp(s: System, k: nat, op: Op): System
    requires At(s, k)
  {
    s.(ops := s.ops[k := op])
  }

  // ----- steps of the pump -----

  /** Header and reference: on success the payload buffer is allocated, zero-filled. */
  function HeadStep(s: System, limit: nat): System
    requires s.pos <= limit <= |s.input|
  {
    match ReadHead(s.input[s.pos..limit])
    case Failure(e) => s.(pump := Failing(e))
    case Success(h) =>
      s.(pos := s.pos + HeadSize(h),
         pump := Filling(h.reference, |s.core.heap|, h.secretLength),
         core := s.core.(heap := s.core.heap + [Zeros(h.secretLength)]))
  }

  /** The payload: all of it, or the part that still arrived, which must then be erased. */
  function PayloadStep(s: System, limit: nat): System
    requires s.pump.Filling? && s.pos <= limit <= |s.input| && s.pump.buffer < |s.core.heap|
  {
    var Filling(reference, buffer, length) := s.pump;
    if s.pos + length <= limit then
      var payload := s.input[s.pos..s.pos + length];
      s.(pos := s.pos + length,
         pump := Holding(reference, buffer),
         core := s.core.(heap := s.core.heap[buffer := payload]),
         frames := s.frames + [Frame(reference, payload)])
    else
      var partial := s.input[s.pos..limit];
      s.(pos := limit,
         pump := Discarding(buffer),
         core := s.core.(heap := s.core.heap[buffer := partial + Zeros(length - |partial|)]))
  }

  function DiscardStep(s: System): System
    requires s.pump.Discarding?
  {
    s.(pump := Failing(PayloadUnreadable), core := s.core.(heap := Erase(s.core.heap, {s.pump.buffer})))
  }

  function LockStep(s: System): System
    requires s.pump.Holding? || s.pump.Failing?
  {
    match s.pump
    case Holding(reference, buffer) =>
      var (core, more) := DeliverLocked(s.core, reference, buffer);
      s.(core := core, pump := if more then Reading else Exited)
    case Failing(e) =>
      s.(core := SetErrorLocked(s.core, Broken(e), false), pump := Exited)
  }

  // ----- steps of an operation -----

  /** Validation, the first notifications and the entry of Read, which starts the pump. */
  function BeginStep(s: System, k: nat): System
    requires At(s, k)
  {
    var op := s.ops[k];
    if ParamsRejected(op.request) then
      SetOp(s, k, op.(phase := Done(RejectedParams)))
    else if op.request.secretRef == [] then
      SetOp(s, k, op.(phase := Ready(None), trace := op.trace + [Started]))
    else
      var trace := op.trace + [Started, AwaitingSecret];
      if !s.available then
        SetOp(s, k, op.(phase := Done(SecretError(Unavailable)), trace := trace + [Failed]))
      else if !ValidReference(op.request.secretRef) then
        SetOp(s, k, op.(phase := Done(SecretError(BadReference)), trace := trace + [Failed]))
      else
        SetOp(s, k, op.(phase := Checking, trace := trace)).(pump := if s.pump.Idle? then Reading else s.pump)
  }

  function LookUpStep(s: System, k: nat): System
    requires At(s, k) && s.core.WellFormed()
  {
    var op := s.ops[k];
    var reference := op.request.secretRef;
    var (core, found) := LookupLocked(s.core, reference);
    match found
    case Claimed(b) =>
      SetOp(s, k, op.(phase := Ready(Some(b))))
        .(core := core, claims := s.claims + [Claim(k, reference, b, s.core.heap[b])])
    case Refused(e) =>
      SetOp(s, k, op.(phase := Done(SecretError(FromChannel(e))), trace := op.trace + [Failed]))
    case Wait(wake) =>
      SetOp(s, k, op.(phase := Waiting(wake)))
  }

  function GiveUpStep(s: System, k: nat): System
    requires At(s, k)
  {
    var op := s.ops[k];
    SetOp(s, k, op.(phase := Done(SecretError(ContextDone)), trace := op.trace + [Failed]))
  }

  function CallStep(s: System, k: nat): System
    requires At(s, k) && s.ops[k].phase.Ready? && SecretAllocated(s, k)
  {
    var op := s.ops[k];
    var b := op.phase.secret;
    var secret := if b.Some? then Some(s.core.heap[b.value]) else None;
    SetOp(s, k, op.(phase := InRunner(b), trace := op.trace + [Running],
                    calls := op.calls + [Call(RunnerArguments(op.request), secret)]))
  }

  function ReturnStep(s: System, k: nat, outcome: Outcome): System
    requires At(s, k) && s.ops[k].phase.InRunner?
  {
    var op := s.ops[k];
    var (reply, stage) := Conclude(op.cancelled, outcome);
    SetOp(s, k, op.(phase := Erasing(op.phase.secret, reply), trace := op.trace + [stage]))
  }

  /** The deferred zero(secret), after which the call returns. */
  function EraseStep(s: System, k: nat): System
    requires At(s, k) && s.ops[k].phase.Erasing?
  {
    var op := s.ops[k];
    var b := op.phase.secret;
    SetOp(s, k, op.(phase := Done(op.phase.reply)))
      .(core := if b.Some? then s.core.(heap := Erase(s.core.heap, {b.value})) else s.core)
  }

  function Step(s: System, e: Event): System
    requires Enabled(s, e)
  {
    match e
    case Arrive(request) => s.(ops := s.ops + [Op(request, false, Arrived, [], [])])
    case Cancel(k) => SetOp(s, k, s.ops[k].(cancelled := true))
    case CloseChannel => s.(core := CloseLocked(s.core))
    case Scribble(k, content) =>
      s.(core := s.core.(heap := s.core.heap[s.ops[k].phase.secret.value := content]))
    case PumpHead(limit) => HeadStep(s, limit)
    case PumpPayload(limit) => PayloadStep(s, limit)
    case PumpDiscard => DiscardStep(s)
    case PumpLock => LockStep(s)
    case Begin(k) => BeginStep(s, k)
    case LookUp(k) => LookUpStep(s, k)
    case WakeUp(k) => SetOp(s, k, s.ops[k].(phase := Checking))
    case GiveUp(k) => GiveUpStep(s, k)
    case CallRunner(k) => CallStep(s, k)
    case RunnerReturns(k, outcome) => ReturnStep(s, k, outcome)
    case EraseSecret(k) => EraseStep(s, k)
  }

  // ----- runs -----

  /** Performing the events in order; None when one of them cannot be taken. */
  function Run(s: System, events: seq<Event>): Option<System> {
    if events == [] then Some(s)
    else
      var last := |events| - 1;
      match Run(s, events[..last])
      case None => None
      case Some(t) => if Enabled(t, events[last]) then Some(Step(t, events[last])) else None
  }

  predicate Reaches(available: bool, input: Bytes, events: seq<Event>, s: System) {
    Run(Initial(available, input), events) == Some(s)
  }
}
