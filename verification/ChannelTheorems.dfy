/** What the secret channel guarantees in every reachable state and over whole runs. */
module ChannelTheorems {
  import opened Basics
  import opened SecretFrame
  import opened ChannelCore
  import opened ChannelSystem
  import opened ChannelInvariant
  import opened ChannelHistory

  // ----- ownership -----

  datatype Place = WithPump | UnderReference(reference: Bytes) | WithOp(op: nat)

  ghost predicate Has(s: System, place: Place, b: nat) {
    match place
    case WithPump => PumpHolds(s.pump, b)
    case UnderReference(r) => r in s.core.pending && s.core.pending[r] == b
    case WithOp(k) => k < |s.ops| && s.ops[k].Held() == Some(b)
  }

  lemma PendingPlace(s: System, r: Bytes, b: nat)
    requires s in SOUND && Has(s, UnderReference(r), b)
    ensures b < |s.frames| && s.frames[b] == Frame(r, s.core.heap[b]) && IsPending(s, b) && !PumpHolds(s.pump, b)
  {
    assert PendingEntry(s, r);
  }

  lemma OpPlace(s: System, k: nat, b: nat)
    requires s in SOUND && Has(s, WithOp(k), b)
    ensures b < |s.frames| && s.frames[b].reference == s.ops[k].request.secretRef
    ensures !IsPending(s, b) && !PumpHolds(s.pump, b)
    ensures forall j: nat :: Has(s, WithOp(j), b) ==> j == k
  {
    assert HolderOk(s, s.ops[k]);
  }

  lemma NobodyHas(s: System, b: nat)
    requires s in SOUND && b < |s.core.heap|
    requires forall place :: !Has(s, place, b)
    ensures s.core.heap[b] == Zeros(|s.core.heap[b]|)
  {
    assert !Has(s, WithPump, b);
    assert b < |s.frames| ==> !Has(s, UnderReference(s.frames[b].reference), b);
    forall k: nat | k < |s.ops| ensures s.ops[k].Held() != Some(b) {
      assert !Has(s, WithOp(k), b);
    }
    assert Unheld(s, b);
  }

  /** Each secret buffer ever allocated is in one place only - with the pump, pending under
      its own frame's reference, or with the one operation that asked for that reference -
      or it is in none and all zeros. */
  lemma OneHolder(available: bool, input: Bytes, events: seq<Event>, s: System, b: nat)
    requires Reaches(available, input, events, s) && b < |s.core.heap|
    ensures forall p, q :: Has(s, p, b) && Has(s, q, b) ==> p == q
    ensures (forall p :: !Has(s, p, b)) ==> s.core.heap[b] == Zeros(|s.core.heap[b]|)
    ensures forall r :: Has(s, UnderReference(r), b) ==> b < |s.frames| && s.frames[b] == Frame(r, s.core.heap[b])
    ensures forall k: nat :: Has(s, WithOp(k), b) ==>
              b < |s.frames| && s.frames[b].reference == s.ops[k].request.secretRef
  {
    RunKeeps(available, input, events, s);
    hide Invariant;
    forall r | Has(s, UnderReference(r), b)
      ensures b < |s.frames| && s.frames[b] == Frame(r, s.core.heap[b]) && IsPending(s, b) && !PumpHolds(s.pump, b)
    {
      PendingPlace(s, r, b);
    }
    forall k: nat | Has(s, WithOp(k), b)
      ensures b < |s.frames| && s.frames[b].reference == s.ops[k].request.secretRef
      ensures !IsPending(s, b) && !PumpHolds(s.pump, b)
      ensures forall j: nat :: Has(s, WithOp(j), b) ==> j == k
    {
      OpPlace(s, k, b);
    }
    if forall p :: !Has(s, p, b) {
      NobodyHas(s, b);
    }
  }

  /** What a read returns is a frame of the stream, whole, and goes to an operation that
      named its reference. */
  lemma ClaimCarriesItsFrame(available: bool, input: Bytes, events: seq<Event>, s: System, i: nat)
    requires Reaches(available, input, events, s) && i < |s.claims|
    ensures s.claims[i].op < |s.ops| && s.ops[s.claims[i].op].request.secretRef == s.claims[i].reference
    ensures s.claims[i].buffer < |ReadAll(input).frames|
    ensures ReadAll(input).frames[s.claims[i].buffer] == Frame(s.claims[i].reference, s.claims[i].value)
  {
    RunHistory(available, input, events, s);
    hide Invariant, ReadAll;
    assert ClaimOk(s, s.claims[i]);
  }

  /** No frame is returned twice, and no operation gets two. */
  lemma FrameClaimedOnce(available: bool, input: Bytes, events: seq<Event>, s: System, i: nat, j: nat)
    requires Reaches(available, input, events, s)
    requires i < |s.claims| && j < |s.claims| && i != j
    ensures s.claims[i].buffer != s.claims[j].buffer && s.claims[i].op != s.claims[j].op
  {
    RunHistory(available, input, events, s);
    hide Invariant, ReadAll;
  }

  // ----- waiting -----

  /** No lost wake-up: a waiter for whom something has happened can wake up. */
  lemma NoLostWakeup(available: bool, input: Bytes, events: seq<Event>, s: System, k: nat)
    requires Reaches(available, input, events, s)
    requires At(s, k) && s.ops[k].phase.Waiting?
    requires
      || s.ops[k].request.secretRef in s.core.pending
      || s.core.err.Some?
      || s.core.closed
      || s.pump.Exited?
      || s.pump.Idle?
    ensures Enabled(s, WakeUp(k))
  {
    RunKeeps(available, input, events, s);
    hide Invariant;
    HolderFacts(s, k);
  }

  // ----- erasure -----

  predicate Quiescent(s: System) {
    && s.core.closed
    && (s.pump.Exited? || s.pump.Idle?)
    && forall k :: 0 <= k < |s.ops| ==> s.ops[k].phase.Done?
  }

  /** Once the channel is closed, the pump gone and every operation back, no secret is left. */
  lemma ErasedAtQuiescence(available: bool, input: Bytes, events: seq<Event>, s: System)
    requires Reaches(available, input, events, s) && Quiescent(s)
    ensures forall b :: 0 <= b < |s.core.heap| ==> s.core.heap[b] == Zeros(|s.core.heap[b]|)
  {
    RunKeeps(available, input, events, s);
    forall b | 0 <= b < |s.core.heap| ensures s.core.heap[b] == Zeros(|s.core.heap[b]|) {
      assert s.core.Poisoned();
      assert Unheld(s, b);
    }
  }

  // ----- bounds and errors -----

  lemma BoundedAndExplained(available: bool, input: Bytes, events: seq<Event>, s: System)
    requires Reaches(available, input, events, s)
    ensures |s.core.pending| <= 32
    ensures s.pump.Exited? ==> s.core.err.Some?
    ensures s.core.closed ==> s.core.err.Some?
    ensures s.core.Poisoned() ==> s.core.pending == map[]
    ensures s.core.err.Some? && s.core.err.value.Broken? ==>
              ReadAll(input) == Stream(s.frames, s.core.err.value.cause)
  {
    RunHistory(available, input, events, s);
    hide Invariant, ReadAll;
    ErrorFacts(s);
  }

  lemma ErrorStays(s: System, e: Event)
    requires Enabled(s, e) && s.core.err.Some?
    ensures Step(s, e).core.err == s.core.err
  {
  }

  /** The first error stands for the rest of the run. */
  lemma {:induction false} FirstErrorStands(s: System, events: seq<Event>, t: System)
    requires s.core.err.Some? && Run(s, events) == Some(t)
    ensures t.core.err == s.core.err
  {
    if events != [] {
      var u := Run(s, events[..|events| - 1]).value;
      FirstErrorStands(s, events[..|events| - 1], u);
      ErrorStays(u, events[|events| - 1]);
    }
  }

  /** After a duplicate, an overflow or Close nothing is ever pending or claimed again. */
  lemma {:induction false} PoisonedForEver(s: System, events: seq<Event>, t: System)
    requires s in SOUND && s.core.Poisoned() && Run(s, events) == Some(t)
    ensures t in SOUND && t.core.Poisoned()
    ensures t.core.pending == map[] && t.claims == s.claims
  {
    hide Invariant;
    ErrorFacts(s);
    if events != [] {
      var u := Run(s, events[..|events| - 1]).value;
      PoisonedForEver(s, events[..|events| - 1], u);
      ErrorFacts(u);
      PoisonLasts(u, events[|events| - 1]);
      StepKeeps(u, events[|events| - 1]);
      ErrorFacts(t);
    }
  }

  // ----- no frame is lost -----

  ghost predicate IsClaimed(s: System, i: nat)
    requires i < |s.frames|
  {
    exists n :: 0 <= n < |s.claims| && s.claims[n].buffer == i
             && s.frames[i] == Frame(s.claims[n].reference, s.claims[n].value)
  }

  /** Pending under its own reference, untouched. */
  ghost predicate IsWaiting(s: System, i: nat)
    requires i < |s.frames|
  {
    var f := s.frames[i];
    f.reference in s.core.pending && s.core.pending[f.reference] == i < |s.core.heap| && s.core.heap[i] == f.payload
  }

  lemma {:induction false} IndexPresent(frames: seq<Frame>, i: nat)
    requires i < |frames|
    ensures i in Indices(frames, frames[i].reference)
  {
    if i < |frames| - 1 {
      IndexPresent(frames[..|frames| - 1], i);
    }
  }

  lemma {:induction false} TakenIsClaimed(claims: seq<Claim>, r: Bytes, b: nat)
    requires b in Taken(claims, r)
    ensures exists i :: 0 <= i < |claims| && claims[i].reference == r && claims[i].buffer == b
  {
    var last := |claims| - 1;
    if claims[last].reference != r || claims[last].buffer != b {
      TakenIsClaimed(claims[..last], r, b);
      var i :| 0 <= i < last && claims[..last][i].reference == r && claims[..last][i].buffer == b;
      assert claims[i] == claims[..last][i];
    }
  }

  /** A frame neither claimed nor with the pump still waits. */
  lemma QueuedFrame(s: System, i: nat)
    requires s in SOUND && ClaimsOk(s) && i < |s.frames|
    requires QueueOk(s, s.frames[i].reference) && !s.core.Poisoned()
    ensures IsClaimed(s, i) || IsWaiting(s, i) || s.pump == Holding(s.frames[i].reference, i)
  {
    hide Invariant;
    var r := s.frames[i].reference;
    IndexPresent(s.frames, i);
    PendingFacts(s, r);
    if i in Taken(s.claims, r) {
      TakenIsClaimed(s.claims, r, i);
      var n :| 0 <= n < |s.claims| && s.claims[n].reference == r && s.claims[n].buffer == i;
      assert ClaimOk(s, s.claims[n]);
    }
  }

  /** Unless a duplicate, an overflow or Close poisons the channel, no parsed frame is ever
      lost: it is with the pump, or waits intact under its reference, or was returned whole,
      and is in one of these places only. A read error, in particular, costs no frame. */
  lemma NoFrameLost(available: bool, input: Bytes, events: seq<Event>, s: System, i: nat)
    requires Reaches(available, input, events, s) && !s.core.Poisoned()
    requires i < |s.frames|
    ensures IsClaimed(s, i) || IsWaiting(s, i) || s.pump == Holding(s.frames[i].reference, i)
    ensures !(IsClaimed(s, i) && IsWaiting(s, i))
    ensures PumpHolds(s.pump, i) ==> !IsClaimed(s, i) && !IsWaiting(s, i)
  {
    hide Invariant, ReadAll;
    RunHistory(available, input, events, s);
    assert QueueOk(s, s.frames[i].reference);
    QueuedFrame(s, i);
    if IsClaimed(s, i) {
      ClaimsLeft(s, i);
    }
    PendingFacts(s, s.frames[i].reference);
  }

  lemma ClaimsLeft(s: System, i: nat)
    requires ClaimsOk(s) && i < |s.frames| && IsClaimed(s, i)
    ensures !IsPending(s, i) && !PumpHolds(s.pump, i)
  {
    var n :| 0 <= n < |s.claims| && s.claims[n].buffer == i;
    assert ClaimOk(s, s.claims[n]);
  }

  /** A parsed frame can be filed: the channel is open, its reference is free and fewer
      than 32 frames wait. */
  predicate Fileable(s: System)
    requires s.pump.Holding?
  {
    !s.core.closed && s.pump.reference !in s.core.pending && |s.core.pending| < 32
  }

  /** The steps that lose frames. */
  predicate Refuses(s: System, e: Event) {
    e.CloseChannel? || (e.PumpLock? && s.pump.Holding? && !Fileable(s))
  }

  lemma StepPoisons(s: System, e: Event)
    requires s in SOUND && Enabled(s, e)
    ensures Step(s, e).core.Poisoned() <==> s.core.Poisoned() || Refuses(s, e)
    ensures e.PumpLock? && s.pump.Holding? && Fileable(s) ==>
              Step(s, e).core.pending == s.core.pending[s.pump.reference := s.pump.buffer]
  {
    hide Invariant;
    ErrorFacts(s);
  }

  /** Event number `n` of a run was such a step. */
  ghost predicate RefusedAt(available: bool, input: Bytes, events: seq<Event>, n: nat) {
    && n < |events|
    && var before := Run(Initial(available, input), events[..n]);
       before.Some? && Refuses(before.value, events[n])
  }

  ghost predicate SomeRefused(available: bool, input: Bytes, events: seq<Event>) {
    exists n: nat :: RefusedAt(available, input, events, n)
  }

  lemma RefusedByLast(available: bool, input: Bytes, events: seq<Event>, t: System)
    requires events != [] && Run(Initial(available, input), events[..|events| - 1]) == Some(t)
    ensures SomeRefused(available, input, events)
       <==> SomeRefused(available, input, events[..|events| - 1]) || Refuses(t, events[|events| - 1])
  {
    var last := |events| - 1;
    hide Refuses, Run;
    forall n: nat | n < last
      ensures RefusedAt(available, input, events, n) <==> RefusedAt(available, input, events[..last], n)
    {
      assert events[..last][..n] == events[..n];
    }
    assert RefusedAt(available, input, events, last) <==> Refuses(t, events[last]);
  }

  /** The condition of NoFrameLost can be seen in the run: the channel is poisoned if and
      only if it was closed or the pump once held a frame that it could not file. Then all
      that is neither with the pump nor with an operation is erased. */
  lemma {:induction false} PoisonedIff(available: bool, input: Bytes, events: seq<Event>, s: System)
    requires Reaches(available, input, events, s)
    ensures s.core.Poisoned() <==> SomeRefused(available, input, events)
    ensures s.core.Poisoned() ==>
              forall b: nat :: b < |s.core.heap| && !Has(s, WithPump, b) && (forall k :: !Has(s, WithOp(k), b)) ==>
                s.core.heap[b] == Zeros(|s.core.heap[b]|)
  {
    hide Invariant, SomeRefused;
    RunKeeps(available, input, events, s);
    if events == [] {
      NoneRefused(available, input);
    } else {
      var last := |events| - 1;
      var t := Run(Initial(available, input), events[..last]).value;
      PoisonedIff(available, input, events[..last], t);
      RunKeeps(available, input, events[..last], t);
      StepPoisons(t, events[last]);
      RefusedByLast(available, input, events, t);
    }
    if s.core.Poisoned() {
      PoisonedErased(s);
    }
  }

  lemma NoneRefused(available: bool, input: Bytes)
    ensures !SomeRefused(available, input, [])
  {
  }

  lemma PoisonedErased(s: System)
    requires s in SOUND && s.core.Poisoned()
    ensures forall b: nat :: b < |s.core.heap| && !Has(s, WithPump, b) && (forall k :: !Has(s, WithOp(k), b)) ==>
              s.core.heap[b] == Zeros(|s.core.heap[b]|)
  {
    hide Invariant;
    ErrorFacts(s);
    forall b: nat | b < |s.core.heap| && !Has(s, WithPump, b) && (forall k :: !Has(s, WithOp(k), b))
      ensures s.core.heap[b] == Zeros(|s.core.heap[b]|)
    {
      NobodyHas(s, b);
    }
  }

  // ----- the order in which frames are returned -----

  function Payloads(frames: seq<Frame>, r: Bytes): seq<Bytes> {
    if frames == [] then []
    else
      (if frames[0].reference == r then [frames[0].payload] else []) + Payloads(frames[1..], r)
  }

  /** What the successful reads of reference `r` returned, in lock order. */
  function Returned(claims: seq<Claim>, r: Bytes): seq<Bytes> {
    if claims == [] then []
    else
      (if claims[0].reference == r then [claims[0].value] else []) + Returned(claims[1..], r)
  }

  lemma {:induction false} PayloadsSplit(fs: seq<Frame>, gs: seq<Frame>, r: Bytes)
    ensures Payloads(fs + gs, r) == Payloads(fs, r) + Payloads(gs, r)
  {
    if fs == [] {
      assert fs + gs == gs;
    } else {
      assert (fs + gs)[1..] == fs[1..] + gs;
      PayloadsSplit(fs[1..], gs, r);
    }
  }

  lemma {:induction false} ReturnedSplit(cs: seq<Claim>, ds: seq<Claim>, r: Bytes)
    ensures Returned(cs + ds, r) == Returned(cs, r) + Returned(ds, r)
  {
    if cs == [] {
      assert cs + ds == ds;
    } else {
      assert (cs + ds)[1..] == cs[1..] + ds;
      ReturnedSplit(cs[1..], ds, r);
    }
  }

  /** Frame number Indices(frames, r)[i] carries payload number i of reference r. */
  lemma {:induction false} PayloadsByNumber(frames: seq<Frame>, r: Bytes)
    ensures |Payloads(frames, r)| == |Indices(frames, r)|
    ensures forall i :: 0 <= i < |Indices(frames, r)| ==>
              Indices(frames, r)[i] < |frames| && frames[Indices(frames, r)[i]] == Frame(r, Payloads(frames, r)[i])
  {
    if frames != [] {
      var last := |frames| - 1;
      PayloadsByNumber(frames[..last], r);
      PayloadsSplit(frames[..last], frames[last..], r);
      assert frames == frames[..last] + frames[last..];
      assert frames[last..] == [frames[last]] && [frames[last]][1..] == [];
    }
  }

  lemma {:induction false} ReturnedByNumber(frames: seq<Frame>, claims: seq<Claim>, r: Bytes)
    requires forall c :: c in claims ==> c.buffer < |frames| && frames[c.buffer] == Frame(c.reference, c.value)
    ensures |Returned(claims, r)| == |Taken(claims, r)|
    ensures forall i :: 0 <= i < |Taken(claims, r)| ==>
              Taken(claims, r)[i] < |frames| && frames[Taken(claims, r)[i]] == Frame(r, Returned(claims, r)[i])
  {
    if claims != [] {
      var last := |claims| - 1;
      ReturnedByNumber(frames, claims[..last], r);
      ReturnedSplit(claims[..last], claims[last..], r);
      assert claims == claims[..last] + claims[last..];
      assert claims[last..] == [claims[last]] && [claims[last]][1..] == [];
      assert claims[last] in claims;
    }
  }

  lemma ReturnedInOrder(frames: seq<Frame>, claims: seq<Claim>, r: Bytes)
    requires forall c :: c in claims ==> c.buffer < |frames| && frames[c.buffer] == Frame(c.reference, c.value)
    requires Taken(claims, r) <= Indices(frames, r)
    ensures Returned(claims, r) <= Payloads(frames, r)
  {
    hide Taken, Indices, Returned, Payloads;
    PayloadsByNumber(frames, r);
    ReturnedByNumber(frames, claims, r);
    assert forall i :: 0 <= i < |Returned(claims, r)| ==> Taken(claims, r)[i] == Indices(frames, r)[i];
  }

  /** Demultiplexing refines one queue per reference: the reads of a reference return the
      payloads that the stream holds for it, oldest first, however often it is reused. */
  lemma FirstInFirstOut(available: bool, input: Bytes, events: seq<Event>, s: System, r: Bytes)
    requires Reaches(available, input, events, s)
    ensures Returned(s.claims, r) <= Payloads(ReadAll(input).frames, r)
  {
    hide Invariant, ReadAll, Taken, Indices, Returned, Payloads;
    RunHistory(available, input, events, s);
    assert QueueOk(s, r);
    ClaimedFrames(s);
    ReturnedInOrder(s.frames, s.claims, r);
    var n := |s.frames|;
    var all := ReadAll(input).frames;
    assert all == s.frames + all[n..];
    PayloadsSplit(s.frames, all[n..], r);
  }

  lemma ClaimedFrames(s: System)
    requires ClaimsOk(s)
    ensures forall c :: c in s.claims ==> c.buffer < |s.frames| && s.frames[c.buffer] == Frame(c.reference, c.value)
  {
    assert forall c :: c in s.claims ==> ClaimOk(s, c);
  }

  // ----- each operation and its own claim -----

  /** Claim number `n` is the one that operation `k` lives on: it holds the claimed buffer
      until it is done, and the runner was given what the claim returned. */
  ghost predicate OwnClaim(s: System, k: nat, n: nat)
    requires At(s, k)
  {
    && n < |s.claims| && s.claims[n].op == k
    && (s.ops[k].phase.Done? || s.ops[k].Held() == Some(s.claims[n].buffer))
    && (s.ops[k].calls != [] ==> s.ops[k].calls[0].secret == Some(s.claims[n].value))
  }

  ghost predicate HasOwnClaim(s: System, k: nat)
    requires At(s, k)
  {
    PastRead(s.ops[k]) && s.ops[k].request.secretRef != [] ==> exists n: nat :: OwnClaim(s, k, n)
  }

  /** The runner is called with what the claim returned. */
  lemma OwnClaimCalls(s: System, k: nat, n: nat)
    requires s in SOUND && Enabled(s, CallRunner(k)) && Story(s.frames, s.ops[k])
    requires OwnClaim(s, k, n) && ClaimOk(s, s.claims[n])
    ensures OwnClaim(CallStep(s, k), k, n)
  {
    hide Invariant;
    HolderFacts(s, k);
    assert CallStep(s, k).ops[k].calls[0] == CallStep(s, k).ops[k].calls[|s.ops[k].calls|];
  }

  lemma OwnClaimStays(s: System, e: Event, k: nat, n: nat)
    requires s in SOUND && Enabled(s, e) && At(s, k) && Story(s.frames, s.ops[k]) && PastRead(s.ops[k])
    requires OwnClaim(s, k, n) && ClaimOk(s, s.claims[n])
    ensures At(Step(s, e), k) && OwnClaim(Step(s, e), k, n)
  {
    hide Invariant;
    FramesGrow(s, e);
    if e == CallRunner(k) {
      CallIsStep(s, k);
      OwnClaimCalls(s, k, n);
    } else if MovesOp(e) && e.op != k {
      OthersUntouched(s, e);
    } else if !MovesOp(e) && !e.Arrive? {
      OpsUntouched(s, e);
    }
  }

  /** An operation gets past its read by a claim or by asking for no secret. */
  lemma OwnClaimMade(s: System, e: Event, k: nat)
    requires Enabled(s, e) && At(Step(s, e), k) && PastRead(Step(s, e).ops[k])
    requires At(s, k) ==> !PastRead(s.ops[k]) && Story(s.frames, s.ops[k])
    requires Step(s, e).ops[k].request.secretRef != []
    ensures OwnClaim(Step(s, e), k, |s.claims|)
  {
    if MovesOp(e) && e.op != k {
      OthersUntouched(s, e);
    } else if !MovesOp(e) && !e.Arrive? {
      OpsUntouched(s, e);
    }
  }

  lemma OwnClaimStep(s: System, e: Event, k: nat)
    requires s in SOUND && Stories(s) && ClaimsOk(s) && Enabled(s, e)
    requires At(s, k) ==> HasOwnClaim(s, k)
    requires At(Step(s, e), k)
    ensures HasOwnClaim(Step(s, e), k)
  {
    hide Invariant, Step, Enabled;
    var t := Step(s, e);
    if PastRead(t.ops[k]) && t.ops[k].request.secretRef != [] {
      assert At(s, k) ==> Story(s.frames, s.ops[k]);
      if At(s, k) && PastRead(s.ops[k]) {
        PastStaysPast(s, e, k);
        var n: nat :| OwnClaim(s, k, n);
        assert ClaimOk(s, s.claims[n]);
        OwnClaimStays(s, e, k, n);
      } else {
        OwnClaimMade(s, e, k);
        assert OwnClaim(t, k, |s.claims|);
      }
    }
  }

  /** Whoever got past waiting for a secret lives on a claim of its own. */
  lemma {:induction false} RunOwnClaims(available: bool, input: Bytes, events: seq<Event>, s: System, k: nat)
    requires Reaches(available, input, events, s) && At(s, k)
    ensures HasOwnClaim(s, k)
  {
    if events != [] {
      var e := events[|events| - 1];
      var t := Run(Initial(available, input), events[..|events| - 1]).value;
      if At(t, k) {
        RunOwnClaims(available, input, events[..|events| - 1], t, k);
      }
      RunHistory(available, input, events[..|events| - 1], t);
      hide Invariant, HasOwnClaim;
      OwnClaimStep(t, e, k);
    }
  }

  lemma HolderClaimed(available: bool, input: Bytes, events: seq<Event>, s: System, k: nat, b: nat)
    requires Reaches(available, input, events, s) && Has(s, WithOp(k), b)
    ensures exists n: nat :: OwnClaim(s, k, n) && s.claims[n].buffer == b
  {
    RunHistory(available, input, events, s);
    RunOwnClaims(available, input, events, s, k);
    hide Invariant, ReadAll, Parsed, QueueOk;
    HolderFacts(s, k);
    assert Story(s.frames, s.ops[k]);
    var n: nat :| OwnClaim(s, k, n);
  }

  /** A claim belongs to its operation, which has no other. */
  lemma ClaimIsOwn(available: bool, input: Bytes, events: seq<Event>, s: System, i: nat)
    requires Reaches(available, input, events, s) && i < |s.claims|
    ensures At(s, s.claims[i].op) && OwnClaim(s, s.claims[i].op, i)
  {
    RunHistory(available, input, events, s);
    ReadAllIsEncoded(input);
    hide Invariant, ReadAll, QueueOk, Stories, EncodeAll;
    assert ClaimOk(s, s.claims[i]);
    assert s.frames[s.claims[i].buffer] in ReadAll(input).frames;
    RunOwnClaims(available, input, events, s, s.claims[i].op);
    var n: nat :| OwnClaim(s, s.claims[i].op, n);
    assert n == i;
  }

  /** Secret buffers are cleared after the operation: in every reachable state a claimed
      buffer is with the operation that claimed it, or that operation is done and the
      buffer all zeros. */
  lemma ErasedAfterOperation(available: bool, input: Bytes, events: seq<Event>, s: System, i: nat)
    requires Reaches(available, input, events, s) && i < |s.claims|
    ensures At(s, s.claims[i].op) && s.claims[i].buffer < |s.core.heap|
    ensures !s.ops[s.claims[i].op].phase.Done? ==> Has(s, WithOp(s.claims[i].op), s.claims[i].buffer)
    ensures s.ops[s.claims[i].op].phase.Done? ==>
              s.core.heap[s.claims[i].buffer] == Zeros(|s.core.heap[s.claims[i].buffer]|)
  {
    var k, b := s.claims[i].op, s.claims[i].buffer;
    RunHistory(available, input, events, s);
    hide Invariant, ReadAll, Parsed, QueueOk, Stories;
    ShapeFacts(s);
    ClaimIsOwn(available, input, events, s, i);
    assert ClaimOk(s, s.claims[i]);
    if s.ops[k].phase.Done? {
      forall place ensures !Has(s, place, b) {
        match place
        case WithPump =>
        case UnderReference(r) =>
          if Has(s, place, b) {
            PendingPlace(s, r, b);
          }
        case WithOp(j) =>
          if Has(s, place, b) {
            HolderClaimed(available, input, events, s, j, b);
          }
      }
      NobodyHas(s, b);
    }
  }

  // ----- operations -----

  /** The progress notifications that go with a reply. */
  function FullTrace(r: Request, reply: Reply): seq<Stage> {
    match reply
    case RejectedParams => []
    case SecretError(_) => [Started, AwaitingSecret, Failed]
    case ContextError => Prologue(r) + [Running, Cancelled]
    case CommandRpcError(_, _) => Prologue(r) + [Running, Failed]
    case Result(_) => Prologue(r) + [Running, Completed]
  }

  predicate EndsWith(trace: seq<Stage>, stage: Stage) {
    trace != [] && trace[|trace| - 1] == stage
  }

  lemma FinishedStory(frames: seq<Frame>, op: Op)
    requires Story(frames, op) && op.phase.Done?
    ensures op.trace == FullTrace(op.request, op.phase.reply)
    ensures |op.calls| == (if Running in op.trace then 1 else 0)
    ensures op.calls != [] ==> CalledOnce(frames, op)
  {
    var reply := op.phase.reply;
    if RunnerReply(reply) {
      assert op.trace[|Prologue(op.request)|] == Running;
    } else {
      assert Running !in op.trace;
    }
  }

  /** The story of a finished operation: its progress stages follow from its reply, the
      runner was called once if it got to running and else never, with the arguments of the
      request and with the secret that its own read returned, which the stream framed under
      the requested reference. The last stage that a client sees tells the kind of reply. */
  lemma OperationStory(available: bool, input: Bytes, events: seq<Event>, s: System, k: nat)
    requires Reaches(available, input, events, s)
    requires At(s, k) && s.ops[k].phase.Done?
    ensures s.ops[k].trace == FullTrace(s.ops[k].request, s.ops[k].phase.reply)
    ensures s.ops[k].phase.reply.RejectedParams?
       <==> (|| (s.ops[k].request.secretRef != [] && s.ops[k].request.noPassphrase)
             || (s.ops[k].request.secretRef == [] && !s.ops[k].request.noPassphrase && s.ops[k].request.requireChoice))
    ensures |s.ops[k].calls| == (if Running in s.ops[k].trace then 1 else 0)
    ensures s.ops[k].calls != [] ==> CalledOnce(ReadAll(input).frames, s.ops[k])
    ensures s.ops[k].calls != [] && s.ops[k].request.secretRef != [] ==>
              exists n: nat :: OwnClaim(s, k, n) && s.ops[k].calls[0].secret == Some(s.claims[n].value)
    ensures s.ops[k].calls != [] ==>
              (s.ops[k].calls[0].arguments
               == s.ops[k].request.arguments
                  + (if s.ops[k].request.noPassphrase then [Ascii("--no-passphrase")] else []))
    ensures s.ops[k].trace == [] <==> s.ops[k].phase.reply.RejectedParams?
    ensures EndsWith(s.ops[k].trace, Completed) <==> s.ops[k].phase.reply.Result?
    ensures EndsWith(s.ops[k].trace, Cancelled) <==> s.ops[k].phase.reply.ContextError?
    ensures EndsWith(s.ops[k].trace, Failed)
       <==> s.ops[k].phase.reply.SecretError? || s.ops[k].phase.reply.CommandRpcError?
  {
    RunHistory(available, input, events, s);
    hide Invariant, ReadAll;
    assert Story(s.frames, s.ops[k]);
    FinishedStory(s.frames, s.ops[k]);
    RunOwnClaims(available, input, events, s, k);
    assert forall f :: f in s.frames ==> f in ReadAll(input).frames;
  }

  // ----- cancellation -----

  /** Cancelled before the runner came back, or already answered without a result. */
  predicate Doomed(op: Op) {
    match op.phase
    case Erasing(_, reply) => reply.ContextError?
    case Done(reply) => reply.RejectedParams? || reply.SecretError? || reply.ContextError?
    case _ => op.cancelled
  }

  lemma DoomedStays(s: System, e: Event, k: nat)
    requires Enabled(s, e) && At(s, k) && Doomed(s.ops[k])
    ensures At(Step(s, e), k) && Doomed(Step(s, e).ops[k])
    ensures Step(s, e).ops[k].request == s.ops[k].request
  {
    if MovesOp(e) {
      OthersUntouched(s, e);
    } else if !e.Arrive? {
      OpsUntouched(s, e);
    }
  }

  /** An operation cancelled before its runner came back never reports a result nor the
      runner's failure, whatever the runner did and however the run goes on. */
  lemma {:induction false} CancelledNeverCompletes(s: System, events: seq<Event>, t: System, k: nat)
    requires At(s, k) && Doomed(s.ops[k]) && Run(s, events) == Some(t)
    ensures At(t, k) && Doomed(t.ops[k])
    ensures t.ops[k].request == s.ops[k].request
    ensures t.ops[k].phase.Done? ==> !t.ops[k].phase.reply.Result? && !t.ops[k].phase.reply.CommandRpcError?
  {
    if events != [] {
      var u := Run(s, events[..|events| - 1]).value;
      CancelledNeverCompletes(s, events[..|events| - 1], u, k);
      hide Doomed;
      DoomedStays(u, events[|events| - 1], k);
    }
  }

  // ----- how a cancelled operation ends -----

  ghost predicate GotSecret(s: System, k: nat) {
    exists n :: 0 <= n < |s.claims| && s.claims[n].op == k
  }

  lemma RunOneMore(s: System, events: seq<Event>, t: System, e: Event)
    requires Run(s, events) == Some(t) && Enabled(t, e)
    ensures Run(s, events + [e]) == Some(Step(t, e))
  {
    assert (events + [e])[..|events|] == events;
  }

  lemma RunTwoMore(s: System, events: seq<Event>, t: System, d: Event, e: Event)
    requires Run(s, events) == Some(t) && Enabled(t, d) && Enabled(Step(t, d), e)
    ensures Run(s, events + [d] + [e]) == Some(Step(Step(t, d), e))
  {
    hide Enabled, Step;
    RunOneMore(s, events, t, d);
    RunOneMore(s, events + [d], Step(t, d), e);
  }

  lemma RunFirst(s: System, e: Event)
    requires Enabled(s, e)
    ensures Run(s, [e]) == Some(Step(s, e))
  {
    assert [e][..0] == [];
    assert Run(s, []) == Some(s);
  }

  lemma RunNothing(s: System)
    ensures Run(s, []) == Some(s)
  {
  }

  /** The last event of a run. */
  lemma RunLast(s: System, events: seq<Event>, u: System) returns (t: System)
    requires events != [] && Run(s, events) == Some(u)
    ensures Run(s, events[..|events| - 1]) == Some(t)
    ensures Enabled(t, events[|events| - 1]) && u == Step(t, events[|events| - 1])
  {
    hide Enabled, Step;
    t := Run(s, events[..|events| - 1]).value;
  }

  lemma {:induction false} RunJoins(s: System, first: seq<Event>, t: System, more: seq<Event>, u: System)
    requires Run(s, first) == Some(t) && Run(t, more) == Some(u)
    ensures Run(s, first + more) == Some(u)
  {
    hide Run, Enabled, Step;
    if more == [] {
      RunNothing(t);
      assert first + more == first;
    } else {
      var last := |more| - 1;
      var v := RunLast(t, more, u);
      RunJoins(s, first, t, more[..last], v);
      RunOneMore(s, first + more[..last], v, more[last]);
      assert first + more[..last] + [more[last]] == first + more;
    }
  }

  /** An accepted operation that is cancelled before its runner came back ends in one of two
      ways, told apart by its read alone: as `cancelled` if it asked for no secret or got
      one, and as `failed` if it got none. A cancellation does not make the read fail. */
  lemma CancelledEndIff(available: bool, input: Bytes, events: seq<Event>, s: System, more: seq<Event>, t: System,
                        k: nat)
    requires Reaches(available, input, events, s) && Run(s, more) == Some(t)
    requires At(s, k) && Doomed(s.ops[k]) && !ParamsRejected(s.ops[k].request)
    ensures At(t, k)
    ensures t.ops[k].phase.Done? ==>
              var reply, passed := t.ops[k].phase.reply, t.ops[k].request.secretRef == [] || GotSecret(t, k);
              && (reply.ContextError? <==> passed) && (reply.SecretError? <==> !passed)
              && (EndsWith(t.ops[k].trace, Cancelled) <==> passed) && (EndsWith(t.ops[k].trace, Failed) <==> !passed)
              && (Running in t.ops[k].trace <==> passed)
  {
    hide Invariant, ReadAll, Run;
    CancelledNeverCompletes(s, more, t, k);
    RunJoins(Initial(available, input), events, s, more, t);
    if t.ops[k].phase.Done? {
      OperationStory(available, input, events + more, t, k);
      RunOwnClaims(available, input, events + more, t, k);
      RunHistory(available, input, events + more, t);
      hide Parsed, QueueOk, CalledOnce;
      assert (exists n: nat :: OwnClaim(t, k, n)) ==> GotSecret(t, k);
      assert Story(t.frames, t.ops[k]);
      assert forall c :: c in t.claims ==> ClaimOk(t, c);
      FinishedStory(t.frames, t.ops[k]);
    }
  }

  lemma WellFormedCore(s: System)
    requires s in SOUND
    ensures s.core.WellFormed()
  {
    forall r | r in s.core.pending ensures s.core.pending[r] < |s.core.heap| {
      assert PendingEntry(s, r);
    }
  }

  /** A cancelled waiter whose secret has come may still claim it. */
  lemma WokenClaims(s: System, k: nat)
    requires s.core.WellFormed() && Enabled(s, WakeUp(k))
    requires s.ops[k].cancelled && s.ops[k].request.secretRef in s.core.pending
    ensures Enabled(Step(s, WakeUp(k)), LookUp(k))
    ensures var t := Step(Step(s, WakeUp(k)), LookUp(k)); Enabled(t, CallRunner(k)) && t.ops[k].cancelled
  {
  }

  /** Whatever its runner then returns, the operation ends as cancelled. */
  lemma CancelledInRunner(s: System, k: nat, outcome: Outcome)
    requires Enabled(s, CallRunner(k)) && s.ops[k].cancelled
    ensures Enabled(Step(s, CallRunner(k)), RunnerReturns(k, outcome))
    ensures var t := Step(Step(s, CallRunner(k)), RunnerReturns(k, outcome));
            Enabled(t, EraseSecret(k)) && At(Step(t, EraseSecret(k)), k)
            && Step(t, EraseSecret(k)).ops[k].phase == Done(ContextError)
  {
  }

  /** Both ends are open to a cancelled waiter whose secret has come: the wait may notice
      the cancellation or the wake-up first. */
  lemma CancelledWaiterHasTwoEnds(available: bool, input: Bytes, events: seq<Event>, s: System, k: nat,
                                  outcome: Outcome)
    returns (failed: System, cancelled: System)
    requires Reaches(available, input, events, s)
    requires At(s, k) && s.ops[k].phase.Waiting? && s.ops[k].cancelled
    requires s.ops[k].request.secretRef in s.core.pending
    ensures Run(s, [GiveUp(k)]) == Some(failed)
    ensures At(failed, k) && failed.ops[k].phase == Done(SecretError(ContextDone))
    ensures Run(s, [WakeUp(k)] + [LookUp(k)] + [CallRunner(k)] + [RunnerReturns(k, outcome)] + [EraseSecret(k)])
         == Some(cancelled)
    ensures At(cancelled, k) && cancelled.ops[k].phase == Done(ContextError)
  {
    NoLostWakeup(available, input, events, s, k);
    RunKeeps(available, input, events, s);
    hide Invariant;
    WellFormedCore(s);
    RunFirst(s, GiveUp(k));
    failed := Step(s, GiveUp(k));
    WokenClaims(s, k);
    var asking := Step(s, WakeUp(k));
    var ready := Step(asking, LookUp(k));
    CancelledInRunner(ready, k, outcome);
    hide Run, Enabled, Step;
    RunFirst(s, WakeUp(k));
    RunOneMore(s, [WakeUp(k)], asking, LookUp(k));
    RunTwoMore(s, [WakeUp(k)] + [LookUp(k)], ready, CallRunner(k), RunnerReturns(k, outcome));
    var back := Step(Step(ready, CallRunner(k)), RunnerReturns(k, outcome));
    RunOneMore(s, [WakeUp(k)] + [LookUp(k)] + [CallRunner(k)] + [RunnerReturns(k, outcome)], back, EraseSecret(k));
    cancelled := Step(back, EraseSecret(k));
  }
}
