/**
 The bounded writer queue of android-client/native/utlsws/client.go. Senders, the writer goroutine and Close
 interleave between their critical sections; each section and each channel operation is one step.
 */
module WriterSpec {
  import opened Bytes
  import opened Sums

  /** One call of `SendBinary`, from its first critical section on. */
  datatype Call =
    | Reserved(payload: bytes)                // bytes counted, not yet offered to the channel
    | Rejected(payload: bytes)                // the channel was full; bytes not yet given back
    | Returned(payload: bytes, ok: bool)

  /**
   `queue` is the channel, `inFlight` what the writer is writing; calls are referred to by number. `failing` says
   that the writer has seen an error and is about to close the connection.
   `accepted` and `taken` record the order of enqueueing and of taking for writing.
   */
  datatype Conn = Conn(
    calls: seq<Call>, pendingBytes: int, queue: seq<nat>, inFlight: Option<nat>, failing: bool,
    closed: bool, stopped: bool, accepted: seq<nat>, taken: seq<nat>)

  datatype Limits = Limits(maxMessages: nat, maxBytes: nat)

  datatype Event =
    | Reserve(payload: bytes)
    | Offer(call: nat)
    | GiveBack(call: nat)
    | Take
    | Written(ok: bool)
    | CloseAfterFailure
    | StopWriter
    | Close

  function Init(): Conn {
    Conn([], 0, [], None, false, false, false, [], [])
  }

  /** The test under the lock at the start of `SendBinary`. */
  predicate Admits(c: Conn, payload: bytes, l: Limits) {
    !c.closed && |c.queue| < l.maxMessages && c.pendingBytes + |payload| <= l.maxBytes
  }

  predicate Enabled(c: Conn, e: Event) {
    match e
    case Offer(i) => i < |c.calls| && c.calls[i].Reserved?
    case GiveBack(i) => i < |c.calls| && c.calls[i].Rejected?
    case Take => c.queue != [] && c.inFlight.None? && !c.failing && !c.stopped
    case Written(_) => c.inFlight.Some? && c.inFlight.value < |c.calls|
    case CloseAfterFailure => c.failing
    case StopWriter => c.closed && c.inFlight.None? && !c.failing
    case _ => true
  }

  function After(c: Conn, e: Event, l: Limits): Conn
    requires Enabled(c, e)
  {
    match e
    case Reserve(payload) =>
      if Admits(c, payload, l)
      then c.(calls := c.calls + [Reserved(payload)], pendingBytes := c.pendingBytes + |payload|)
      else c.(calls := c.calls + [Returned(payload, false)])
    case Offer(i) =>
      if |c.queue| < l.maxMessages
      then c.(calls := c.calls[i := Returned(c.calls[i].payload, true)],
              queue := c.queue + [i], accepted := c.accepted + [i])
      else c.(calls := c.calls[i := Rejected(c.calls[i].payload)])
    case GiveBack(i) =>
      c.(calls := c.calls[i := Returned(c.calls[i].payload, false)],
         pendingBytes := c.pendingBytes - |c.calls[i].payload|)
    case Take => c.(inFlight := Some(c.queue[0]), queue := c.queue[1..], taken := c.taken + [c.queue[0]])
    case Written(ok) =>
      c.(inFlight := None, failing := !ok, pendingBytes := c.pendingBytes - |c.calls[c.inFlight.value].payload|)
    case CloseAfterFailure => c.(failing := false, closed := true, stopped := true)
    case StopWriter => c.(stopped := true)
    case Close => c.(closed := true)
  }

  // ---------- Accounting ----------

  /** Bytes a call holds before its payload is in the channel. */
  function Held(call: Call): nat {
    if call.Returned? then 0 else |call.payload|
  }

  /** The payload length of call number `i`. */
  function Weight(calls: seq<Call>): nat -> nat {
    (i: nat) => if i < |calls| then |calls[i].payload| else 0
  }

  function InFlightBytes(c: Conn): nat {
    match c.inFlight
    case Some(i) => if i < |c.calls| then |c.calls[i].payload| else 0
    case None => 0
  }

  predicate Distinct(s: seq<nat>) {
    forall i, j :: 0 <= i < j < |s| ==> s[i] != s[j]
  }

  ghost predicate Inv(c: Conn, l: Limits) {
    && (forall i :: 0 <= i < |c.accepted| ==> c.accepted[i] < |c.calls|)
    && c.accepted == c.taken + c.queue && Distinct(c.accepted)
    && (forall i: nat :: i < |c.calls| ==> (i in c.accepted <==> c.calls[i].Returned? && c.calls[i].ok))
    && (c.inFlight.Some? ==> c.inFlight.value in c.taken)
    && |c.queue| <= l.maxMessages
    && c.pendingBytes == Sum(c.calls, Held) + Sum(c.queue, Weight(c.calls)) + InFlightBytes(c)
    && c.pendingBytes <= l.maxBytes
  }
}

module WriterTheorems {
  import opened Bytes
  import opened Sums
  import opened WriterSpec

  /** Queued bytes do not depend on the state of the calls, only on their payloads. */
  lemma {:induction false} SameWeights(queue: seq<nat>, a: seq<Call>, b: seq<Call>)
    requires |a| <= |b| && forall i: nat :: i < |a| ==> b[i].payload == a[i].payload
    requires forall k :: 0 <= k < |queue| ==> queue[k] < |a|
    ensures Sum(queue, Weight(a)) == Sum(queue, Weight(b))
    decreases |queue|
  {
    if queue != [] {
      SameWeights(queue[..|queue| - 1], a, b);
    }
  }

  lemma {:induction false} SumHead(queue: seq<nat>, w: nat -> nat)
    requires queue != []
    ensures Sum(queue, w) == w(queue[0]) + Sum(queue[1..], w)
    decreases |queue|
  {
    if |queue| > 1 {
      SumHead(queue[..|queue| - 1], w);
      assert queue[1..][..|queue| - 2] == queue[..|queue| - 1][1..];
    }
  }

  lemma QueueIsAccepted(c: Conn, l: Limits)
    requires Inv(c, l)
    ensures forall k :: 0 <= k < |c.queue| ==> c.queue[k] < |c.calls|
    ensures c.inFlight.Some? ==> c.inFlight.value < |c.calls|
  {
    assert forall k :: 0 <= k < |c.queue| ==> c.queue[k] == c.accepted[|c.taken| + k];
    assert forall k :: 0 <= k < |c.taken| ==> c.taken[k] == c.accepted[k];
  }

  /** A new call adds what it holds to the total and changes nothing else. */
  lemma NewCallAdds(c: Conn, call: Call, l: Limits)
    requires Inv(c, l)
    ensures var calls := c.calls + [call];
            && Sum(calls, Held) + Sum(c.queue, Weight(calls)) ==
               Sum(c.calls, Held) + Sum(c.queue, Weight(c.calls)) + Held(call)
            && InFlightBytes(c.(calls := calls)) == InFlightBytes(c)
  {
    QueueIsAccepted(c, l);
    SumAppend(c.calls, Held, call);
    SameWeights(c.queue, c.calls, c.calls + [call]);
  }

  lemma NewCallIsNotAccepted(c: Conn, call: Call, l: Limits)
    requires Inv(c, l) && (call.Returned? ==> !call.ok)
    ensures var calls := c.calls + [call];
            forall i: nat :: i < |calls| ==> (i in c.accepted <==> calls[i].Returned? && calls[i].ok)
  {
  }

  lemma ReserveKeepsInv(c: Conn, payload: bytes, l: Limits)
    requires Inv(c, l)
    ensures Inv(After(c, Reserve(payload), l), l)
  {
    var call := if Admits(c, payload, l) then Reserved(payload) else Returned(payload, false);
    NewCallAdds(c, call, l);
    NewCallIsNotAccepted(c, call, l);
  }

  /** A message that enters the channel moves its bytes from its call to the queue. */
  lemma QueueingKeepsTotal(c: Conn, i: nat, l: Limits)
    requires Inv(c, l) && Enabled(c, Offer(i))
    ensures var calls := c.calls[i := Returned(c.calls[i].payload, true)];
            Sum(calls, Held) + Sum(c.queue + [i], Weight(calls)) == Sum(c.calls, Held) + Sum(c.queue, Weight(c.calls))
  {
    var calls := c.calls[i := Returned(c.calls[i].payload, true)];
    QueueIsAccepted(c, l);
    SumUpdate(c.calls, Held, i, calls[i]);
    SameWeights(c.queue, c.calls, calls);
    SumAppend(c.queue, Weight(calls), i);
  }

  lemma AppendKeepsDistinct(s: seq<nat>, x: nat)
    requires Distinct(s) && x !in s
    ensures Distinct(s + [x])
  {
  }

  lemma OfferKeepsInv(c: Conn, i: nat, l: Limits)
    requires Inv(c, l) && Enabled(c, Offer(i))
    ensures Inv(After(c, Offer(i), l), l)
  {
    if |c.queue| < l.maxMessages {
      QueueingKeepsTotal(c, i, l);
      AppendKeepsDistinct(c.accepted, i);
      assert c.accepted + [i] == c.taken + (c.queue + [i]);
      QueueIsAccepted(c, l);
    } else {
      RefuseKeepsInv(c, i, l);
    }
  }

  lemma RefuseKeepsInv(c: Conn, i: nat, l: Limits)
    requires Inv(c, l) && Enabled(c, Offer(i)) && |c.queue| >= l.maxMessages
    ensures Inv(After(c, Offer(i), l), l)
  {
    var d := After(c, Offer(i), l);
    QueueIsAccepted(c, l);
    SumUpdate(c.calls, Held, i, d.calls[i]);
    SameWeights(c.queue, c.calls, d.calls);
  }

  lemma GiveBackKeepsInv(c: Conn, i: nat, l: Limits)
    requires Inv(c, l) && Enabled(c, GiveBack(i))
    ensures Inv(After(c, GiveBack(i), l), l)
  {
    var d := After(c, GiveBack(i), l);
    QueueIsAccepted(c, l);
    SumUpdate(c.calls, Held, i, d.calls[i]);
    SameWeights(c.queue, c.calls, d.calls);
  }

  lemma TakeKeepsInv(c: Conn, l: Limits)
    requires Inv(c, l) && Enabled(c, Take)
    ensures Inv(After(c, Take, l), l)
  {
    QueueIsAccepted(c, l);
    SumHead(c.queue, Weight(c.calls));
    assert c.taken + c.queue == (c.taken + [c.queue[0]]) + c.queue[1..];
    assert c.queue[0] == (c.taken + [c.queue[0]])[|c.taken|];
  }

  lemma StepKeepsInv(c: Conn, e: Event, l: Limits)
    requires Inv(c, l) && Enabled(c, e)
    ensures Inv(After(c, e, l), l)
  {
    match e {
      case Reserve(payload) => ReserveKeepsInv(c, payload, l);
      case Offer(i) => OfferKeepsInv(c, i, l);
      case GiveBack(i) => GiveBackKeepsInv(c, i, l);
      case Take => TakeKeepsInv(c, l);
      case Written(ok) =>
      case CloseAfterFailure =>
      case StopWriter =>
      case Close =>
    }
  }

  ghost predicate IsRun(cs: seq<Conn>, events: seq<Event>, l: Limits) {
    && |cs| == |events| + 1 && cs[0] == Init()
    && forall i :: 0 <= i < |events| ==> Enabled(cs[i], events[i]) && cs[i + 1] == After(cs[i], events[i], l)
  }

  /**
   In every interleaving: pending bytes are exactly those reserved, queued and being written, and never exceed
   the limit; the channel never exceeds its own; what the writer takes is a prefix of what was accepted, in
   enqueue order, no message twice.
   */
  lemma {:induction false} AccountingIsExact(cs: seq<Conn>, events: seq<Event>, l: Limits, i: nat)
    requires IsRun(cs, events, l) && i < |cs|
    ensures Inv(cs[i], l)
    ensures 0 <= cs[i].pendingBytes <= l.maxBytes && cs[i].taken <= cs[i].accepted
  {
    if i > 0 {
      AccountingIsExact(cs, events, l, i - 1);
      StepKeepsInv(cs[i - 1], events[i - 1], l);
    } else {
      assert Sum<Call>([], Held) == 0 && Sum<nat>([], Weight([])) == 0;
    }
  }

  /** When every call has returned and nothing is queued or being written, no byte is still counted. */
  lemma NothingLeaks(cs: seq<Conn>, events: seq<Event>, l: Limits, i: nat)
    requires IsRun(cs, events, l) && i < |cs|
    requires cs[i].queue == [] && cs[i].inFlight.None?
    requires forall k :: 0 <= k < |cs[i].calls| ==> cs[i].calls[k].Returned?
    ensures cs[i].pendingBytes == 0
  {
    AccountingIsExact(cs, events, l, i);
    SumIsZero(cs[i].calls, Held);
  }

  /** The order of acceptance never changes, and nothing accepted is forgotten. */
  lemma {:induction false} OrderIsStable(cs: seq<Conn>, events: seq<Event>, l: Limits, i: nat, j: nat)
    requires IsRun(cs, events, l) && i <= j < |cs|
    ensures cs[i].accepted <= cs[j].accepted && cs[i].taken <= cs[j].taken
    decreases j - i
  {
    if i < j {
      OrderIsStable(cs, events, l, i + 1, j);
      assert cs[i + 1] == After(cs[i], events[i], l);
    }
  }

  // ---------- Admission ----------

  /** Bytes counted for calls that have not returned, for the queue and for the message being written. */
  function BytesOut(c: Conn): nat {
    Sum(c.calls, Held) + Sum(c.queue, Weight(c.calls)) + InFlightBytes(c)
  }

  /** A new call is let in if and only if the connection is open and neither messages nor bytes would be too many. */
  lemma LetInIff(c: Conn, payload: bytes, l: Limits)
    requires Inv(c, l)
    ensures var d := After(c, Reserve(payload), l);
            && |d.calls| == |c.calls| + 1 && d.queue == c.queue && d.accepted == c.accepted && d.closed == c.closed
            && (d.calls[|c.calls|] == Reserved(payload) <==>
                !c.closed && |c.queue| < l.maxMessages && BytesOut(c) + |payload| <= l.maxBytes)
            && (d.calls[|c.calls|] != Reserved(payload) ==> d.calls[|c.calls|] == Returned(payload, false))
  {
  }

  /** At point `j` nothing is accepted, or can still be, that had not got in at point `i`. */
  ghost predicate NothingNew(c: Conn, d: Conn) {
    && d.closed && |c.calls| <= |d.calls|
    && (forall k: nat :: k < |d.calls| && d.calls[k].Reserved? ==> k < |c.calls| && c.calls[k].Reserved?)
    && (forall k: nat :: k in d.accepted ==> k in c.accepted || (k < |c.calls| && c.calls[k].Reserved?))
  }

  lemma NothingNewNext(c: Conn, d: Conn, e: Event, l: Limits)
    requires NothingNew(c, d) && Enabled(d, e)
    ensures NothingNew(c, After(d, e, l))
  {
  }

  /** A closed connection stays closed, and accepts no call that was not already between its two steps. */
  lemma {:induction false} ClosedAcceptsNothingNew(cs: seq<Conn>, events: seq<Event>, l: Limits, i: nat, j: nat)
    requires IsRun(cs, events, l) && i <= j < |cs| && cs[i].closed
    ensures NothingNew(cs[i], cs[j])
    decreases j
  {
    if i < j {
      ClosedAcceptsNothingNew(cs, events, l, i, j - 1);
      NothingNewNext(cs[i], cs[j - 1], events[j - 1], l);
    }
  }

  // ---------- Failed writes ----------

  /** After a failed write nothing more is ever taken; the connection is about to be closed, or is. */
  lemma {:induction false} FailedWriteIsTheLast(cs: seq<Conn>, events: seq<Event>, l: Limits, i: nat, j: nat)
    requires IsRun(cs, events, l) && i < j < |cs| && events[i] == Written(false)
    ensures cs[j].taken == cs[i].taken && cs[j].inFlight.None?
    ensures cs[j].failing || (cs[j].closed && cs[j].stopped)
    decreases j
  {
    assert cs[j] == After(cs[j - 1], events[j - 1], l);
    if i < j - 1 {
      FailedWriteIsTheLast(cs, events, l, i, j - 1);
    }
  }

  /** A writer that has stopped never takes anything again, though payloads may still be queued. */
  lemma {:induction false} StoppedTakesNothing(cs: seq<Conn>, events: seq<Event>, l: Limits, i: nat, j: nat)
    requires IsRun(cs, events, l) && i < j < |cs| && events[i].StopWriter?
    ensures cs[j].stopped && cs[j].taken == cs[i].taken && cs[j].inFlight.None? && !cs[j].failing
    decreases j
  {
    assert cs[j] == After(cs[j - 1], events[j - 1], l);
    if i < j - 1 {
      StoppedTakesNothing(cs, events, l, i, j - 1);
    }
  }

  /** The writer stops only when the connection is closed, and that only by `Close` or after a failed write. */
  lemma {:induction false} StopsForAReason(cs: seq<Conn>, events: seq<Event>, l: Limits, j: nat)
    requires IsRun(cs, events, l) && j < |cs|
    ensures cs[j].stopped ==> cs[j].closed
    ensures cs[j].closed ==> exists i :: 0 <= i < j && (events[i].Close? || events[i] == Written(false))
    ensures cs[j].failing ==> exists i :: 0 <= i < j && events[i] == Written(false)
  {
    if j > 0 {
      StopsForAReason(cs, events, l, j - 1);
      assert cs[j] == After(cs[j - 1], events[j - 1], l);
    }
  }

  /** The writer can take the next message whenever there is one, it is not writing, and no write has failed yet. */
  lemma TakesIfItCan(cs: seq<Conn>, events: seq<Event>, l: Limits, j: nat)
    requires IsRun(cs, events, l) && j < |cs|
    requires forall i :: 0 <= i < j ==> !events[i].Close? && events[i] != Written(false)
    ensures Enabled(cs[j], Take) <==> cs[j].queue != [] && cs[j].inFlight.None?
    ensures !cs[j].closed
  {
    StopsForAReason(cs, events, l, j);
  }
}
