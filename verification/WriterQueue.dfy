/** The critical sections of `Conn` in android-client/native/utlsws/client.go. */
module WriterQueues {
  import opened Bytes
  import W = WriterSpec
  import T = WriterTheorems

  /** The channel holds the payloads of the queued calls. */
  ghost predicate Mirrors(queue: seq<bytes>, c: W.Conn) {
    && |queue| == |c.queue|
    && forall k :: 0 <= k < |queue| ==> c.queue[k] < |c.calls| && queue[k] == c.calls[c.queue[k]].payload
  }

  /** The fields of the connection are those of `c`. */
  ghost predicate Tracks(pendingBytes: int, closed: bool, queue: seq<bytes>, c: W.Conn, l: W.Limits) {
    W.Inv(c, l) && pendingBytes == c.pendingBytes && closed == c.closed && Mirrors(queue, c)
  }

  /** A call that is enqueued is added to the channel, one that is refused is not. */
  lemma OfferTracks(pendingBytes: int, closed: bool, queue: seq<bytes>, c: W.Conn, l: W.Limits, i: nat,
                    queue': seq<bytes>)
    requires Tracks(pendingBytes, closed, queue, c, l) && W.Enabled(c, W.Offer(i))
    requires queue' == if |queue| < l.maxMessages then queue + [c.calls[i].payload] else queue
    ensures Tracks(pendingBytes, closed, queue', W.After(c, W.Offer(i), l), l) && |queue| == |c.queue|
  {
    T.OfferKeepsInv(c, i, l);
  }

  class WriterQueue {
    const limits: W.Limits
    var pendingBytes: int
    var closed: bool
    /** The channel. */
    var writeQueue: seq<bytes>
    /** Which call each step belongs to, and what was accepted so far. */
    ghost var spec: W.Conn

    ghost predicate Valid()
      reads this
    {
      Tracks(pendingBytes, closed, writeQueue, spec, limits)
    }

    constructor (limits: W.Limits)
      ensures Valid() && spec == W.Init() && this.limits == limits
    {
      this.limits := limits;
      pendingBytes, closed, writeQueue, spec := 0, false, [], W.Init();
    }

    /** The step that a critical section takes. */
    ghost method Follow(e: W.Event)
      requires W.Inv(spec, limits) && W.Enabled(spec, e)
      modifies `spec
      ensures W.Inv(spec, limits) && spec == W.After(old(spec), e, limits)
    {
      T.StepKeepsInv(spec, e, limits);
      spec := W.After(spec, e, limits);
    }

    /** The first critical section of `SendBinary`. */
    method Reserve(payload: bytes) returns (admitted: bool)
      requires Valid()
      modifies this
      ensures Valid() && spec == W.After(old(spec), W.Reserve(payload), limits)
      ensures admitted <==> W.Admits(old(spec), payload, limits)
      ensures admitted <==> && !old(closed) && |old(writeQueue)| < limits.maxMessages
                            && old(pendingBytes) + |payload| <= limits.maxBytes
    {
      Follow(W.Reserve(payload));
      if closed {
        return false;
      }
      if |writeQueue| >= limits.maxMessages || pendingBytes + |payload| > limits.maxBytes {
        return false;
      }
      pendingBytes := pendingBytes + |payload|;
      return true;
    }

    /** The non-blocking send on the channel. */
    method Offer(payload: bytes, ghost call: nat) returns (sent: bool)
      requires Valid() && W.Enabled(spec, W.Offer(call)) && spec.calls[call].payload == payload
      modifies this
      ensures Valid() && spec == W.After(old(spec), W.Offer(call), limits)
      ensures sent <==> |old(spec).queue| < limits.maxMessages
    {
      ghost var next := if |writeQueue| < limits.maxMessages then writeQueue + [payload] else writeQueue;
      OfferTracks(pendingBytes, closed, writeQueue, spec, limits, call, next);
      sent := TrySend(payload);
      spec := W.After(spec, W.Offer(call), limits);
    }

    /** `select` with a default: the channel takes the payload exactly if it has room. */
    method TrySend(payload: bytes) returns (sent: bool)
      modifies `writeQueue
      ensures sent <==> old(|writeQueue|) < limits.maxMessages
      ensures writeQueue == if sent then old(writeQueue) + [payload] else old(writeQueue)
    {
      sent := |writeQueue| < limits.maxMessages;
      if sent {
        writeQueue := writeQueue + [payload];
      }
    }

    /** The second critical section, after a full channel. */
    method GiveBack(payload: bytes, ghost call: nat)
      requires Valid() && W.Enabled(spec, W.GiveBack(call)) && spec.calls[call].payload == payload
      modifies this
      ensures Valid() && spec == W.After(old(spec), W.GiveBack(call), limits)
    {
      Follow(W.GiveBack(call));
      pendingBytes := pendingBytes - |payload|;
    }

    /** A call that no other goroutine interrupts is accepted exactly when the queue admits it. */
    method SendBinary(payload: bytes) returns (ok: bool)
      requires Valid()
      modifies this
      ensures Valid() && (ok <==> W.Admits(old(spec), payload, limits))
      ensures spec.accepted == old(spec).accepted + if ok then [|old(spec).calls|] else []
      ensures pendingBytes == old(pendingBytes) + if ok then |payload| else 0
    {
      ghost var call := |spec.calls|;
      var admitted := Reserve(payload);
      if !admitted {
        return false;
      }
      ok := Offer(payload, call);
      assert ok;  // without interruption the channel still has the room just seen
    }

    /** The writer receives from the channel. */
    method TakeNext() returns (payload: bytes)
      requires Valid() && W.Enabled(spec, W.Take)
      modifies this
      ensures Valid() && spec == W.After(old(spec), W.Take, limits)
      ensures payload == spec.calls[spec.inFlight.value].payload
    {
      Follow(W.Take);
      payload := writeQueue[0];
      writeQueue := writeQueue[1..];
    }

    /** After the write: the bytes are given back, and a failure is remembered. */
    method FinishWrite(payload: bytes, ok: bool)
      requires Valid() && W.Enabled(spec, W.Written(ok)) && spec.calls[spec.inFlight.value].payload == payload
      modifies this
      ensures Valid() && spec == W.After(old(spec), W.Written(ok), limits)
    {
      Follow(W.Written(ok));
      pendingBytes := pendingBytes - |payload|;
    }

    /** The writer's `Close` after a failed write, in a critical section of its own; then it returns. */
    method CloseAfterFailure()
      requires Valid() && W.Enabled(spec, W.CloseAfterFailure)
      modifies this
      ensures Valid() && spec == W.After(old(spec), W.CloseAfterFailure, limits)
    {
      Follow(W.CloseAfterFailure);
      closed := true;
    }

    method Close()
      requires Valid()
      modifies this
      ensures Valid() && spec == W.After(old(spec), W.Close, limits)
      ensures closed && writeQueue == old(writeQueue) && pendingBytes == old(pendingBytes)
    {
      Follow(W.Close);
      closed := true;
    }
  }
}
