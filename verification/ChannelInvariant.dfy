/** The inductive invariant of the secret channel, one named part at a time, and the proof
    that every step of every event keeps it. */
module ChannelInvariant {
  import opened Basics
  import opened SecretFrame
  import opened ChannelCore
  import opened ChannelSystem

  // ----- the parts of the invariant -----

  ghost predicate PumpHolds(p: Pump, b: nat) {
    (p.Filling? || p.Holding? || p.Discarding?) && p.buffer == b
  }

  /** Buffers are allocated in frame order; at most the last one has no complete frame. */
  ghost predicate Shape(s: System) {
    && s.pos <= |s.input|
    && |s.frames| <= |s.core.heap|
    && (forall b :: 0 <= b < |s.frames| ==> |s.core.heap[b]| == |s.frames[b].payload|)
    && match s.pump
       case Idle => s.pos == 0 && s.core.heap == [] && s.core.pending == map[]
       case Reading => |s.core.heap| == |s.frames|
       case Filling(r, b, n) => b == |s.frames| && |s.core.heap| == b + 1 && |s.core.heap[b]| == n
       case Holding(r, b) => |s.core.heap| == |s.frames| == b + 1 && s.frames[b] == Frame(r, s.core.heap[b])
       case Discarding(b) => b == |s.frames| && |s.core.heap| == b + 1
       case _ => |s.core.heap| <= |s.frames| + 1
  }

  /** A pending entry is an intact frame filed under its own reference. */
  ghost predicate PendingEntry(s: System, r: Bytes)
    requires r in s.core.pending
  {
    var b := s.core.pending[r];
    && b < |s.frames| && b < |s.core.heap|
    && s.frames[b] == Frame(r, s.core.heap[b])
    && !PumpHolds(s.pump, b)
  }

  ghost predicate PendingIntact(s: System) {
    forall r :: r in s.core.pending ==> PendingEntry(s, r)
  }

  ghost predicate IsPending(s: System, b: nat) {
    b < |s.frames| && s.frames[b].reference in s.core.pending && s.core.pending[s.frames[b].reference] == b
  }

  /** What an operation holds is a frame of its own reference that nobody else holds. */
  ghost predicate HolderOk(s: System, op: Op) {
    op.Held().Some? ==>
      var b := op.Held().value;
      && b < |s.frames| && b < |s.core.heap|
      && op.request.secretRef != []
      && s.frames[b].reference == op.request.secretRef
      && !IsPending(s, b)
      && !PumpHolds(s.pump, b)
      && (op.phase.Ready? ==> s.core.heap[b] == s.frames[b].payload)
  }

  ghost predicate HoldersOk(s: System) {
    && (forall k :: 0 <= k < |s.ops| ==> HolderOk(s, s.ops[k]))
    && (forall j, k :: 0 <= j < k < |s.ops| && s.ops[j].Held().Some? ==> s.ops[j].Held() != s.ops[k].Held())
  }

  ghost predicate Unheld(s: System, b: nat) {
    && !PumpHolds(s.pump, b)
    && !IsPending(s, b)
    && forall k :: 0 <= k < |s.ops| ==> s.ops[k].Held() != Some(b)
  }

  ghost predicate UnheldErased(s: System) {
    forall b :: 0 <= b < |s.core.heap| && Unheld(s, b) ==> s.core.heap[b] == Zeros(|s.core.heap[b]|)
  }

  /** A waiter whose wake-up has not come has nothing to wake up for. */
  ghost predicate WaiterOk(s: System, op: Op) {
    && (op.phase.Checking? || op.phase.Waiting? ==> !s.pump.Idle? && ValidReference(op.request.secretRef))
    && (op.phase.Waiting? ==>
          && op.phase.wake <= s.core.wake
          && (op.phase.wake == s.core.wake ==>
                && op.request.secretRef !in s.core.pending
                && s.core.err.None?
                && !s.core.closed
                && !s.pump.Exited?))
  }

  ghost predicate WaitersOk(s: System) {
    forall k :: 0 <= k < |s.ops| ==> WaiterOk(s, s.ops[k])
  }

  ghost predicate ErrorsOk(s: System) {
    && |s.core.pending| <= MAX_PENDING
    && (s.pump.Exited? ==> s.core.err.Some?)
    && (s.core.closed ==> s.core.err.Some?)
    && (s.core.err.Some? && s.core.err != Some(Closed) ==> s.pump.Exited?)
    && (s.core.err == Some(Closed) ==> s.core.closed)
    && (s.core.Poisoned() ==> s.core.pending == map[])
  }

  ghost predicate Invariant(s: System) {
    && Shape(s)
    && PendingIntact(s)
    && HoldersOk(s)
    && UnheldErased(s)
    && WaitersOk(s)
    && ErrorsOk(s)
  }

  /** The states that satisfy the whole invariant. */
  ghost const SOUND: iset<System> := iset s | Invariant(s)

  lemma InitialInvariant(available: bool, input: Bytes)
    ensures Initial(available, input) in SOUND
  {
  }

  lemma ErrorFacts(s: System)
    requires s in SOUND
    ensures ErrorsOk(s)
  {
  }

  // ----- steps of one operation -----

  /** Any step that only moves operation `k` along and keeps what it holds. */
  lemma OpMoves(s: System, k: nat, op: Op)
    requires s in SOUND && At(s, k)
    requires op.request == s.ops[k].request && op.Held() == s.ops[k].Held()
    requires op.phase.Ready? && op.Held().Some? ==> s.ops[k].phase.Ready?
    requires WaiterOk(s, op)
    ensures SetOp(s, k, op) in SOUND
  {
    var t := SetOp(s, k, op);
    forall b | 0 <= b < |t.core.heap| && Unheld(t, b)
      ensures Unheld(s, b)
    {
      forall j | 0 <= j < |s.ops| ensures s.ops[j].Held() != Some(b) {
        assert s.ops[j].Held() == t.ops[j].Held();
      }
    }
    assert Invariant(t);
  }

  lemma PumpStarts(s: System)
    requires s in SOUND && s.pump.Idle?
    ensures s.(pump := Reading) in SOUND
  {
    var t := s.(pump := Reading);
    assert forall b :: Unheld(t, b) ==> Unheld(s, b);
    assert Invariant(t);
  }

  lemma ArriveKeeps(s: System, request: Request)
    requires s in SOUND
    ensures Step(s, Arrive(request)) in SOUND
  {
    var t := Step(s, Arrive(request));
    forall b | 0 <= b < |t.core.heap| && Unheld(t, b)
      ensures Unheld(s, b)
    {
      forall j | 0 <= j < |s.ops| ensures s.ops[j].Held() != Some(b) {
        assert s.ops[j] == t.ops[j];
      }
    }
    assert Invariant(t);
  }

  function ClaimedBy(s: System, k: nat, b: nat): System
    requires At(s, k)
  {
    SetOp(s, k, s.ops[k].(phase := Ready(Some(b))))
      .(core := s.core.(pending := s.core.pending - {s.ops[k].request.secretRef}))
  }

  lemma ClaimHolders(s: System, k: nat, b: nat)
    requires s in SOUND && At(s, k)
    requires s.ops[k].phase.Checking?
    requires s.ops[k].request.secretRef in s.core.pending && s.core.pending[s.ops[k].request.secretRef] == b
    ensures HoldersOk(ClaimedBy(s, k, b))
  {
    var t := ClaimedBy(s, k, b);
    assert PendingEntry(s, s.ops[k].request.secretRef);
    forall j | 0 <= j < |t.ops| ensures HolderOk(t, t.ops[j]) {
      assert HolderOk(s, s.ops[j]);
      assert j != k ==> t.ops[j] == s.ops[j];
    }
    assert forall j :: 0 <= j < |s.ops| && s.ops[j].Held() == Some(b) ==> HolderOk(s, s.ops[j]);
  }

  lemma ClaimErased(s: System, k: nat, b: nat)
    requires s in SOUND && At(s, k)
    requires s.ops[k].phase.Checking?
    requires s.ops[k].request.secretRef in s.core.pending && s.core.pending[s.ops[k].request.secretRef] == b
    ensures UnheldErased(ClaimedBy(s, k, b))
  {
    var t := ClaimedBy(s, k, b);
    forall c | 0 <= c < |t.core.heap| && Unheld(t, c)
      ensures Unheld(s, c)
    {
      assert t.ops[k].Held() == Some(b) != Some(c);
      forall j | 0 <= j < |s.ops| ensures s.ops[j].Held() != Some(c) {
        assert t.ops[j].Held() != Some(c);
      }
    }
  }

  /** A claim moves a buffer from the pending map to the claiming operation. */
  lemma ClaimKeeps(s: System, k: nat)
    requires s in SOUND && At(s, k)
    requires s.ops[k].phase.Checking? && s.ops[k].request.secretRef in s.core.pending
    ensures ClaimedBy(s, k, s.core.pending[s.ops[k].request.secretRef]) in SOUND
  {
    var b := s.core.pending[s.ops[k].request.secretRef];
    var t := ClaimedBy(s, k, b);
    ClaimHolders(s, k, b);
    ClaimErased(s, k, b);
    assert forall r :: r in t.core.pending ==> PendingEntry(s, r) == PendingEntry(t, r);
    assert Invariant(t);
  }

  /** Writing a buffer of the same length where the owner is an operation past Ready. */
  lemma OverwriteKeeps(s: System, k: nat, b: nat, content: Bytes)
    requires s in SOUND && At(s, k)
    requires s.ops[k].Held() == Some(b) && !s.ops[k].phase.Ready?
    requires b < |s.core.heap| && |content| == |s.core.heap[b]|
    ensures s.(core := s.core.(heap := s.core.heap[b := content])) in SOUND
  {
    var t := s.(core := s.core.(heap := s.core.heap[b := content]));
    assert HolderOk(s, s.ops[k]);
    assert PendingIntact(t) by {
      forall r | r in t.core.pending ensures PendingEntry(t, r) {
        assert PendingEntry(s, r);
      }
    }
    assert forall c :: Unheld(t, c) ==> Unheld(s, c) && c != b;
    assert Invariant(t);
  }

  /** Letting go of a buffer that has been erased. */
  lemma ReleaseKeeps(s: System, k: nat, op: Op)
    requires s in SOUND && At(s, k) && op.Held().None?
    requires op.phase.Done? && op.request == s.ops[k].request
    requires s.ops[k].Held().Some?
    requires s.ops[k].Held().value < |s.core.heap|
    requires s.core.heap[s.ops[k].Held().value] == Zeros(|s.core.heap[s.ops[k].Held().value]|)
    ensures SetOp(s, k, op) in SOUND
  {
    var t := SetOp(s, k, op);
    forall c | 0 <= c < |t.core.heap| && Unheld(t, c)
      ensures t.core.heap[c] == Zeros(|t.core.heap[c]|)
    {
      if s.ops[k].Held() != Some(c) {
        forall j | 0 <= j < |s.ops| ensures s.ops[j].Held() != Some(c) {
          assert t.ops[j].Held() != Some(c);
        }
        assert Unheld(s, c);
      }
    }
    assert Invariant(t);
  }

  lemma EraseOne(heap: seq<Bytes>, b: nat)
    requires b < |heap|
    ensures Erase(heap, {b}) == heap[b := Zeros(|heap[b]|)]
  {
  }

  lemma HolderFacts(s: System, k: nat)
    requires s in SOUND && At(s, k)
    ensures HolderOk(s, s.ops[k]) && WaiterOk(s, s.ops[k])
  {
  }

  lemma EraseKeeps(s: System, k: nat)
    requires s in SOUND && Enabled(s, EraseSecret(k))
    ensures EraseStep(s, k) in SOUND
  {
    hide Invariant;
    var op := s.ops[k].(phase := Done(s.ops[k].phase.reply));
    match s.ops[k].phase.secret
    case None =>
      OpMoves(s, k, op);
    case Some(b) =>
      HolderFacts(s, k);
      EraseOne(s.core.heap, b);
      OverwriteKeeps(s, k, b, Zeros(|s.core.heap[b]|));
      ReleaseKeeps(s.(core := s.core.(heap := Erase(s.core.heap, {b}))), k, op);
  }

  // ----- steps of the pump -----

  lemma AllocateKeeps(s: System, reference: Bytes, length: nat)
    requires s in SOUND && s.pump.Reading?
    ensures s.(pump := Filling(reference, |s.core.heap|, length),
                         core := s.core.(heap := s.core.heap + [Zeros(length)])) in SOUND
  {
    var t := s.(pump := Filling(reference, |s.core.heap|, length),
                core := s.core.(heap := s.core.heap + [Zeros(length)]));
    assert PendingIntact(t) by {
      forall r | r in t.core.pending ensures PendingEntry(t, r) {
        assert PendingEntry(s, r);
      }
    }
    assert forall b :: 0 <= b < |s.core.heap| && Unheld(t, b) ==> Unheld(s, b);
    assert Invariant(t);
  }

  lemma GarbledKeeps(s: System, e: StreamError)
    requires s in SOUND && s.pump.Reading?
    ensures s.(pump := Failing(e)) in SOUND
  {
    var t := s.(pump := Failing(e));
    assert forall r :: r in s.core.pending ==> PendingEntry(s, r) == PendingEntry(t, r);
    assert forall b :: Unheld(t, b) == Unheld(s, b);
    assert Invariant(t);
  }

  lemma HeadKeeps(s: System, limit: nat)
    requires s in SOUND && Enabled(s, PumpHead(limit))
    ensures HeadStep(s, limit) in SOUND
  {
    hide Invariant;
    var read := ReadHead(s.input[s.pos..limit]);
    match read
    case Failure(e) =>
      GarbledKeeps(s, e);
    case Success(h) =>
      HeadFits(s.input[s.pos..limit]);
      PosKeeps(s, s.pos + HeadSize(h));
      AllocateKeeps(s.(pos := s.pos + HeadSize(h)), h.reference, h.secretLength);
  }

  lemma HeadFits(input: Bytes)
    ensures ReadHead(input).Success? ==> HeadSize(ReadHead(input).value) <= |input|
  {
  }

  lemma FillKeeps(s: System, content: Bytes)
    requires s in SOUND && s.pump.Filling?
    requires |content| == s.pump.length
    ensures s.(core := s.core.(heap := s.core.heap[s.pump.buffer := content])) in SOUND
  {
    var t := s.(core := s.core.(heap := s.core.heap[s.pump.buffer := content]));
    assert PendingIntact(t) by {
      forall r | r in t.core.pending ensures PendingEntry(t, r) {
        assert PendingEntry(s, r);
      }
    }
    assert forall b :: Unheld(t, b) ==> Unheld(s, b) && b != s.pump.buffer;
    assert Invariant(t);
  }

  lemma CompleteKeeps(s: System)
    requires s in SOUND && s.pump.Filling?
    ensures s.(pump := Holding(s.pump.reference, s.pump.buffer),
                         frames := s.frames + [Frame(s.pump.reference, s.core.heap[s.pump.buffer])]) in SOUND
  {
    var Filling(r, b, n) := s.pump;
    var t := s.(pump := Holding(r, b), frames := s.frames + [Frame(r, s.core.heap[b])]);
    assert PendingIntact(t) by {
      forall r | r in t.core.pending ensures PendingEntry(t, r) {
        assert PendingEntry(s, r);
      }
    }
    assert forall b :: 0 <= b < |s.frames| ==> t.frames[b] == s.frames[b];
    assert forall b :: Unheld(t, b) ==> Unheld(s, b);
    assert Invariant(t);
  }

  lemma WholePayloadKeeps(s: System, payload: Bytes)
    requires s in SOUND && s.pump.Filling?
    requires |payload| == s.pump.length && s.pos + |payload| <= |s.input|
    requires s.pump.buffer < |s.core.heap|
    ensures s.(pos := s.pos + s.pump.length,
                         pump := Holding(s.pump.reference, s.pump.buffer),
                         core := s.core.(heap := s.core.heap[s.pump.buffer := payload]),
                         frames := s.frames + [Frame(s.pump.reference, payload)]) in SOUND
  {
    hide Invariant;
    PosKeeps(s, s.pos + |payload|);
    FillKeeps(s.(pos := s.pos + |payload|), payload);
    CompleteKeeps(s.(pos := s.pos + |payload|, core := s.core.(heap := s.core.heap[s.pump.buffer := payload])));
  }

  lemma BrokenPayloadKeeps(s: System, content: Bytes, limit: nat)
    requires s in SOUND && s.pump.Filling?
    requires |content| == s.pump.length && limit <= |s.input|
    requires s.pump.buffer < |s.core.heap|
    ensures s.(pos := limit, pump := Discarding(s.pump.buffer),
                         core := s.core.(heap := s.core.heap[s.pump.buffer := content])) in SOUND
  {
    hide Invariant;
    PosKeeps(s, limit);
    FillKeeps(s.(pos := limit), content);
    BreakKeeps(s.(pos := limit, core := s.core.(heap := s.core.heap[s.pump.buffer := content])));
  }

  lemma PayloadKeeps(s: System, limit: nat)
    requires s in SOUND && Enabled(s, PumpPayload(limit))
    ensures PayloadStep(s, limit) in SOUND
  {
    hide Invariant;
    var n := s.pump.length;
    if s.pos + n <= limit {
      WholePayloadKeeps(s, s.input[s.pos..s.pos + n]);
    } else {
      var partial := s.input[s.pos..limit];
      BrokenPayloadKeeps(s, partial + Zeros(n - |partial|), limit);
    }
  }

  lemma PosKeeps(s: System, pos: nat)
    requires s in SOUND && !s.pump.Idle?
    requires pos <= |s.input|
    ensures s.(pos := pos) in SOUND
  {
    var t := s.(pos := pos);
    assert forall r :: r in s.core.pending ==> PendingEntry(s, r) == PendingEntry(t, r);
    assert forall b :: Unheld(t, b) == Unheld(s, b);
    assert Invariant(t);
  }

  lemma BreakKeeps(s: System)
    requires s in SOUND && s.pump.Filling?
    ensures s.(pump := Discarding(s.pump.buffer)) in SOUND
  {
    var t := s.(pump := Discarding(s.pump.buffer));
    assert forall r :: r in s.core.pending ==> PendingEntry(s, r) == PendingEntry(t, r);
    assert forall b :: Unheld(t, b) == Unheld(s, b);
    assert Invariant(t);
  }

  /** The pump erases the buffer it holds and keeps no claim on it. */
  lemma DropKeeps(s: System, e: StreamError)
    requires s in SOUND && (s.pump.Holding? || s.pump.Discarding?)
    ensures s.(pump := Failing(e), core := s.core.(heap := Erase(s.core.heap, {s.pump.buffer}))) in SOUND
  {
    var t := s.(pump := Failing(e), core := s.core.(heap := Erase(s.core.heap, {s.pump.buffer})));
    assert PendingIntact(t) by {
      forall r | r in t.core.pending ensures PendingEntry(t, r) {
        assert PendingEntry(s, r);
      }
    }
    assert UnheldErased(t) by {
      assert forall b :: Unheld(t, b) && b != s.pump.buffer ==> Unheld(s, b);
    }
    assert HoldersOk(t) by {
      assert forall k :: 0 <= k < |t.ops| ==> HolderOk(s, t.ops[k]);
    }
    assert Invariant(t);
  }

  lemma ClearKeeps(s: System)
    requires s in SOUND
    ensures s.(core := s.core.(heap := Erase(s.core.heap, s.core.pending.Values), pending := map[])) in SOUND
  {
    var t := s.(core := s.core.(heap := Erase(s.core.heap, s.core.pending.Values), pending := map[]));
    forall b | b in s.core.pending.Values
      ensures IsPending(s, b) && !PumpHolds(s.pump, b)
    {
      var r :| r in s.core.pending && s.core.pending[r] == b;
      assert PendingEntry(s, r);
    }
    assert HoldersOk(t) by {
      forall k | 0 <= k < |t.ops| ensures HolderOk(t, t.ops[k]) {
        assert HolderOk(s, s.ops[k]);
      }
    }
    forall b | 0 <= b < |t.core.heap| && Unheld(t, b)
      ensures t.core.heap[b] == Zeros(|t.core.heap[b]|)
    {
      if b !in s.core.pending.Values {
        assert !IsPending(s, b);
        assert Unheld(s, b);
      }
    }
    assert Invariant(t);
  }

  /** Recording an error, closing, stopping the pump: all of them signal. */
  lemma SignalKeeps(s: System, err: Option<ChannelError>, closed: bool, pump: Pump)
    requires s in SOUND
    requires s.core.err.Some? ==> err == s.core.err
    requires err.Some? && (err == Some(Closed) ==> closed) && (s.core.closed ==> closed)
    requires err != Some(Closed) ==> pump.Exited?
    requires pump == s.pump || (s.pump.Failing? && pump.Exited?)
    requires s.core.(err := err, closed := closed).Poisoned() ==> s.core.pending == map[]
    ensures s.(pump := pump, core := s.core.(err := err, closed := closed, wake := s.core.wake + 1)) in SOUND
  {
    var t := s.(pump := pump, core := s.core.(err := err, closed := closed, wake := s.core.wake + 1));
    assert forall r :: r in s.core.pending ==> PendingEntry(s, r) == PendingEntry(t, r);
    assert forall b :: Unheld(t, b) == Unheld(s, b);
    assert Invariant(t);
  }

  lemma InsertKeeps(s: System)
    requires s in SOUND && s.pump.Holding?
    requires !s.core.closed && s.pump.reference !in s.core.pending && |s.core.pending| < MAX_PENDING
    ensures s.(pump := Reading,
               core := SignalLocked(s.core.(pending := s.core.pending[s.pump.reference := s.pump.buffer])))
            in SOUND
  {
    var t := s.(pump := Reading,
                core := SignalLocked(s.core.(pending := s.core.pending[s.pump.reference := s.pump.buffer])));
    assert PendingIntact(t) by {
      forall r | r in t.core.pending ensures PendingEntry(t, r) {
        assert r != s.pump.reference ==> PendingEntry(s, r);
      }
    }
    assert forall b :: Unheld(t, b) ==> Unheld(s, b);
    assert Invariant(t);
  }

  /** A duplicate or an overflow: all pending buffers are erased and the pump stops. */
  lemma PoisonKeeps(s: System, e: ChannelError)
    requires s in SOUND && s.pump.Failing? && s.core.err.None?
    requires e == Duplicate || e == Overflow
    ensures s.(pump := Exited, core := SetErrorLocked(s.core, e, true)) in SOUND
  {
    hide Invariant;
    ClearKeeps(s);
    SignalKeeps(s.(core := s.core.(heap := Erase(s.core.heap, s.core.pending.Values), pending := map[])),
                Some(e), s.core.closed, Exited);
  }

  lemma LockKeeps(s: System)
    requires s in SOUND && Enabled(s, PumpLock)
    ensures LockStep(s) in SOUND
  {
    hide Invariant;
    ErrorFacts(s);
    match s.pump
    case Failing(_) => FailKeeps(s);
    case Holding(reference, buffer) =>
      var t := s.(pump := Failing(HeaderUnreadable), core := s.core.(heap := Erase(s.core.heap, {s.pump.buffer})));
      DropKeeps(s, HeaderUnreadable);
      if s.core.closed {
        StopKeeps(t);
      } else if reference in s.core.pending {
        PoisonKeeps(t, Duplicate);
      } else if |s.core.pending| >= MAX_PENDING {
        PoisonKeeps(t, Overflow);
      } else {
        InsertKeeps(s);
      }
  }

  lemma StopKeeps(s: System)
    requires s in SOUND && s.pump.Failing? && s.core.closed
    ensures s.(pump := Exited) in SOUND
  {
    var t := s.(pump := Exited);
    assert forall r :: r in s.core.pending ==> PendingEntry(s, r) == PendingEntry(t, r);
    assert forall b :: Unheld(t, b) == Unheld(s, b);
    assert Invariant(t);
  }

  lemma FailKeeps(s: System)
    requires s in SOUND && s.pump.Failing?
    ensures LockStep(s) in SOUND
  {
    var err := if s.core.err.None? then Some(Broken(s.pump.cause)) else s.core.err;
    hide Invariant;
    ErrorFacts(s);
    SignalKeeps(s, err, s.core.closed, Exited);
  }

  lemma CloseKeeps(s: System)
    requires s in SOUND
    ensures s.(core := CloseLocked(s.core)) in SOUND
  {
    hide Invariant;
    ErrorFacts(s);
    if !s.core.closed {
      ClearKeeps(s);
      var err := if s.core.err.None? then Some(Closed) else s.core.err;
      SignalKeeps(s.(core := s.core.(heap := Erase(s.core.heap, s.core.pending.Values), pending := map[])),
                  err, true, s.pump);
    }
  }

  // ----- every step, every run -----

  lemma BeginKeeps(s: System, k: nat)
    requires s in SOUND && Enabled(s, Begin(k))
    ensures BeginStep(s, k) in SOUND
  {
    hide Invariant;
    var t := BeginStep(s, k);
    if s.available && t.ops[k].phase.Checking? && s.pump.Idle? {
      PumpStarts(s);
      OpMoves(s.(pump := Reading), k, t.ops[k]);
      assert t == SetOp(s.(pump := Reading), k, t.ops[k]);
    } else {
      OpMoves(s, k, t.ops[k]);
      assert t == SetOp(s, k, t.ops[k]);
    }
  }

  lemma LookUpKeeps(s: System, k: nat)
    requires s in SOUND && Enabled(s, LookUp(k))
    ensures LookUpStep(s, k) in SOUND
  {
    hide Invariant;
    var t := LookUpStep(s, k);
    HolderFacts(s, k);
    if s.ops[k].request.secretRef in s.core.pending {
      ClaimKeeps(s, k);
      ClaimRecorded(ClaimedBy(s, k, s.core.pending[s.ops[k].request.secretRef]), t.claims);
    } else {
      ErrorFacts(s);
      OpMoves(s, k, t.ops[k]);
    }
  }

  /** The record of claims is history only. */
  lemma ClaimRecorded(s: System, claims: seq<Claim>)
    requires s in SOUND
    ensures s.(claims := claims) in SOUND
  {
    var t := s.(claims := claims);
    assert forall r :: r in s.core.pending ==> PendingEntry(s, r) == PendingEntry(t, r);
    assert forall b :: Unheld(t, b) == Unheld(s, b);
    assert Invariant(t);
  }

  lemma OpStepKeeps(s: System, e: Event)
    requires s in SOUND && Enabled(s, e)
    requires e.Cancel? || e.WakeUp? || e.GiveUp? || e.CallRunner? || e.RunnerReturns?
    ensures Step(s, e) in SOUND
  {
    hide Invariant;
    var t := Step(s, e);
    HolderFacts(s, e.op);
    OpMoves(s, e.op, t.ops[e.op]);
    assert t == SetOp(s, e.op, t.ops[e.op]);
  }

  lemma ScribbleKeeps(s: System, k: nat, content: Bytes)
    requires s in SOUND && Enabled(s, Scribble(k, content))
    ensures Step(s, Scribble(k, content)) in SOUND
  {
    hide Invariant;
    OverwriteKeeps(s, k, s.ops[k].phase.secret.value, content);
  }

  lemma StepKeeps(s: System, e: Event)
    requires s in SOUND && Enabled(s, e)
    ensures Step(s, e) in SOUND
  {
    hide Invariant;
    match e
    case Arrive(request) => ArriveKeeps(s, request);
    case CloseChannel => CloseKeeps(s);
    case Scribble(k, content) => ScribbleKeeps(s, k, content);
    case PumpHead(limit) => HeadKeeps(s, limit);
    case PumpPayload(limit) => PayloadKeeps(s, limit);
    case PumpDiscard => DropKeeps(s, PayloadUnreadable);
    case PumpLock => LockKeeps(s);
    case Begin(k) => BeginKeeps(s, k);
    case LookUp(k) => LookUpKeeps(s, k);
    case EraseSecret(k) => EraseKeeps(s, k);
    case _ => OpStepKeeps(s, e);
  }

  /** Every reachable state satisfies the invariant. */
  lemma {:induction false} RunKeeps(available: bool, input: Bytes, events: seq<Event>, s: System)
    requires Reaches(available, input, events, s)
    ensures s in SOUND
  {
    if events == [] {
      InitialInvariant(available, input);
    } else {
      var t := Run(Initial(available, input), events[..|events| - 1]).value;
      RunKeeps(available, input, events[..|events| - 1], t);
      StepKeeps(t, events[|events| - 1]);
    }
  }
}
