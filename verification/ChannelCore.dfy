/** The fields that the mutex of SecretReader protects, together with the heap of secret
    buffers, and each critical section of internal/rpcapi/secrets.go as one function on
    them. A buffer is named by its index in the heap. The `update` channel is a counter:
    the channel of generation g is closed once the counter has passed g. */
module ChannelCore {
  import opened Basics
  import SecretFrame

  const MAX_PENDING: nat := 32

  datatype ChannelError = Broken(cause: SecretFrame.StreamError) | Duplicate | Overflow | Closed

  datatype Core = Core(
    pending: map<Bytes, nat>,
    wake: nat,
    err: Option<ChannelError>,
    closed: bool,
    heap: seq<Bytes>)
  {
    /** Every pending entry names a buffer. */
    predicate WellFormed() {
      forall r :: r in pending ==> pending[r] < |heap|
    }

    /** After a duplicate, an overflow or Close nothing may be claimed any more. */
    predicate Poisoned() {
      closed || err == Some(Duplicate) || err == Some(Overflow)
    }
  }

  const EMPTY: Core := Core(map[], 0, None, false, [])

  function Erase(heap: seq<Bytes>, victims: set<nat>): (h: seq<Bytes>)
    ensures |h| == |heap|
    ensures forall b :: 0 <= b < |heap| ==> h[b] == if b in victims then Zeros(|heap[b]|) else heap[b]
  {
    seq(|heap|, b requires 0 <= b < |heap| => if b in victims then Zeros(|heap[b]|) else heap[b])
  }

  function SignalLocked(c: Core): Core {
    c.(wake := c.wake + 1)
  }

  function SetErrorLocked(c: Core, e: ChannelError, clearPending: bool): Core {
    var c1 := if c.err.None? then c.(err := Some(e)) else c;
    var c2 := if clearPending then c1.(heap := Erase(c1.heap, c1.pending.Values), pending := map[]) else c1;
    SignalLocked(c2)
  }

  datatype Lookup = Claimed(buffer: nat) | Refused(cause: ChannelError) | Wait(wake: nat)

  /** One turn of the loop in Read: pending first, then the error, then the channel to wait on. */
  function LookupLocked(c: Core, reference: Bytes): (Core, Lookup) {
    if reference in c.pending then
      (c.(pending := c.pending - {reference}), Claimed(c.pending[reference]))
    else if c.err.Some? then
      (c, Refused(c.err.value))
    else
      (c, Wait(c.wake))
  }

  /** The pump's section for a parsed frame; the flag tells whether it goes on reading. */
  function DeliverLocked(c: Core, reference: Bytes, buffer: nat): (Core, bool) {
    if c.closed then
      (c.(heap := Erase(c.heap, {buffer})), false)
    else if reference in c.pending then
      (SetErrorLocked(c.(heap := Erase(c.heap, {buffer})), Duplicate, true), false)
    else if |c.pending| >= MAX_PENDING then
      (SetErrorLocked(c.(heap := Erase(c.heap, {buffer})), Overflow, true), false)
    else
      (SignalLocked(c.(pending := c.pending[reference := buffer])), true)
  }

  function CloseLocked(c: Core): Core {
    if c.closed then c else SetErrorLocked(c.(closed := true), Closed, true)
  }
}
