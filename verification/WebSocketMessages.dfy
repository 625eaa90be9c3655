/** Reassembly of fragmented messages (sections 5.4 and 5.5 of RFC 6455): `readWebSocketMessage` of websocket.go. */
module WebSocketMessages {
  import opened Bytes
  import opened WebSocketFrames

  /** The result, the payloads of the pongs written meanwhile, and the unread rest of the stream. */
  datatype Outcome = Outcome(result: Result<bytes>, pongs: seq<bytes>, rest: bytes)

  /** The reader between two frames: `done` once it returns. */
  datatype Assembly = Assembly(done: Option<Result<bytes>>, started: bool, fragments: bytes, pongs: seq<bytes>)

  const START := Assembly(None, false, [], [])

  function Finish(a: Assembly, r: Result<bytes>): Assembly {
    a.(done := Some(r))
  }

  /** What one frame does to the reader. */
  function Feed(a: Assembly, f: WsFrame, max: nat): Assembly {
    if f.opcode == 0x0 then
      if !a.started then Finish(a, Err("unexpected continuation frame"))
      else if |a.fragments| + |f.payload| > max then Finish(a, Err("websocket message too large"))
      else if f.fin then Finish(a, Ok(a.fragments + f.payload))
      else a.(fragments := a.fragments + f.payload)
    else if f.opcode == 0x2 then
      if |f.payload| > max then Finish(a, Err("websocket message too large"))
      else if f.fin then Finish(a, Ok(f.payload))
      else a.(started := true, fragments := a.fragments + f.payload)
    else if f.opcode == 0x8 then Finish(a, Err("connection closed"))
    else if f.opcode == 0x9 then a.(pongs := a.pongs + [f.payload])
    else if f.opcode == 0xA then a
    else if f.opcode == 0x1 then Finish(a, Err("text messages are not supported"))
    else Finish(a, Err("unsupported websocket opcode"))
  }

  function ReadMessage(b: bytes, max: nat, masked: bool, a: Assembly): Outcome
    decreases |b|
  {
    match ReadFrame(b, masked)
    case Err(m) => Outcome(Err(m), a.pongs, b)
    case Ok(Read(f, rest)) =>
      var n := Feed(a, f, max);
      if n.done.Some? then Outcome(n.done.value, n.pongs, rest) else ReadMessage(rest, max, masked, n)
  }

  /** The read loop as written: a fragment buffer and a flag. Pongs are written only when there is a control writer. */
  method ReadWebSocketMessage(stream: bytes, max: nat, expectMasked: bool, answersPings: bool) returns (out: Outcome)
    ensures var all := ReadMessage(stream, max, expectMasked, START);
            out == all.(pongs := if answersPings then all.pongs else [])
    ensures forall i :: 0 <= i < |out.pongs| ==> FrameBytes(WsFrame(0xA, true, out.pongs[i]), None).Ok?
  {
    var fragments: bytes := [];
    var inFragment := false;
    var pongs: seq<bytes> := [];
    ghost var pings: seq<bytes> := [];
    var b := stream;
    while true
      invariant ReadMessage(stream, max, expectMasked, START) ==
                ReadMessage(b, max, expectMasked, Assembly(None, inFragment, fragments, pings))
      invariant pongs == if answersPings then pings else []
      invariant forall i :: 0 <= i < |pongs| ==> |pongs[i]| <= 125
      decreases |b|
    {
      var r := ReadFrame(b, expectMasked);
      if r.Err? {
        return Outcome(Err(r.message), pongs, b);
      }
      var f := r.value.frame;
      b := r.value.rest;
      if f.opcode == 0x0 {
        if !inFragment {
          return Outcome(Err("unexpected continuation frame"), pongs, b);
        }
        if |fragments| + |f.payload| > max {
          return Outcome(Err("websocket message too large"), pongs, b);
        }
        fragments := fragments + f.payload;
        if f.fin {
          return Outcome(Ok(fragments), pongs, b);
        }
      } else if f.opcode == 0x2 {
        if |f.payload| > max {
          return Outcome(Err("websocket message too large"), pongs, b);
        }
        if f.fin {
          return Outcome(Ok(f.payload), pongs, b);
        }
        inFragment := true;
        fragments := fragments + f.payload;
      } else if f.opcode == 0x8 {
        return Outcome(Err("connection closed"), pongs, b);
      } else if f.opcode == 0x9 {
        pings := pings + [f.payload];
        if answersPings {
          pongs := pongs + [f.payload];
        }
      } else if f.opcode == 0xA {
        continue;
      } else if f.opcode == 0x1 {
        return Outcome(Err("text messages are not supported"), pongs, b);
      } else {
        return Outcome(Err("unsupported websocket opcode"), pongs, b);
      }
    }
  }

  // ---------- What a peer sends ----------

  /** A frame as sent, with its mask key if any. */
  datatype Sent = Sent(frame: WsFrame, key: Option<MaskKey>)

  /** Frames that `writeFrame` can produce, all masked or all unmasked. */
  ghost predicate Sendable(sent: seq<Sent>, masked: bool) {
    forall i :: 0 <= i < |sent| ==>
                  && sent[i].frame.opcode < 16 && sent[i].key.Some? == masked
                  && |sent[i].frame.payload| <= MAX_INT
                  && (sent[i].frame.opcode >= 8 ==> |sent[i].frame.payload| <= 125)
  }

  function SentBytes(s: Sent): bytes {
    match FrameBytes(s.frame, s.key)
    case Ok(b) => b
    case Err(_) => []
  }

  function Stream(sent: seq<Sent>): bytes {
    if sent == [] then [] else SentBytes(sent[0]) + Stream(sent[1..])
  }

  predicate IsControl(f: WsFrame) {
    f.opcode == 0x9 || f.opcode == 0xA
  }

  /** One binary message in fragments, with final pings and pongs anywhere before its last fragment. */
  predicate Conforming(sent: seq<Sent>, started: bool) {
    if sent == [] then false
    else
      var f := sent[0].frame;
      if IsControl(f) then f.fin && Conforming(sent[1..], started)
      else
        && f.opcode == (if started then 0x0 else 0x2)
        && (if f.fin then sent[1..] == [] else Conforming(sent[1..], true))
  }

  /** The data payloads in order. */
  function MessageOf(sent: seq<Sent>): bytes {
    if sent == [] then []
    else (if IsControl(sent[0].frame) then [] else sent[0].frame.payload) + MessageOf(sent[1..])
  }

  function PingsOf(sent: seq<Sent>): seq<bytes> {
    if sent == [] then []
    else (if sent[0].frame.opcode == 0x9 then [sent[0].frame.payload] else []) + PingsOf(sent[1..])
  }

  predicate WithinFrameLimit(sent: seq<Sent>) {
    sent != [] ==> |sent[0].frame.payload| <= MAX_TUNNEL_MESSAGE_BYTES + 1 && WithinFrameLimit(sent[1..])
  }

  // ---------- From bytes to frames ----------

  lemma ReadsOne(s: Sent, masked: bool, rest: bytes)
    requires Sendable([s], masked)
    ensures |SentBytes(s)| > 0
    ensures |s.frame.payload| <= MAX_TUNNEL_MESSAGE_BYTES + 1 ==>
              ReadFrame(SentBytes(s) + rest, masked) == Ok(Read(s.frame, rest))
    ensures |s.frame.payload| > MAX_TUNNEL_MESSAGE_BYTES + 1 ==> ReadFrame(SentBytes(s) + rest, masked).Err?
  {
    assert [s][0] == s;
    FrameRoundTripIff(s.frame, s.key, rest);
  }

  lemma SendableTail(sent: seq<Sent>, masked: bool)
    requires sent != [] && Sendable(sent, masked)
    ensures Sendable([sent[0]], masked) && Sendable(sent[1..], masked)
  {
    assert forall i :: 0 <= i < |sent| - 1 ==> sent[1..][i] == sent[i + 1];
  }

  lemma ReadsFirst(sent: seq<Sent>, masked: bool, rest: bytes)
    requires sent != [] && Sendable(sent, masked)
    ensures |sent[0].frame.payload| <= MAX_TUNNEL_MESSAGE_BYTES + 1 ==>
              ReadFrame(Stream(sent) + rest, masked) == Ok(Read(sent[0].frame, Stream(sent[1..]) + rest))
    ensures |sent[0].frame.payload| > MAX_TUNNEL_MESSAGE_BYTES + 1 ==> ReadFrame(Stream(sent) + rest, masked).Err?
  {
    var more := Stream(sent[1..]) + rest;
    assert Stream(sent) + rest == SentBytes(sent[0]) + more;
    SendableTail(sent, masked);
    ReadsOne(sent[0], masked, more);
  }

  /** The reader on whole frames: its state when it returns or the frames run out, and the frames left. */
  function FeedAll(sent: seq<Sent>, max: nat, a: Assembly): (Assembly, seq<Sent>) {
    if sent == [] || a.done.Some? then (a, sent)
    else if |sent[0].frame.payload| > MAX_TUNNEL_MESSAGE_BYTES + 1 then (Finish(a, Err("frame too large")), sent[1..])
    else FeedAll(sent[1..], max, Feed(a, sent[0].frame, max))
  }

  /** Reading the bytes of a list of frames is feeding it the frames. */
  lemma {:induction false} ReadingIsFeeding(sent: seq<Sent>, max: nat, masked: bool, rest: bytes, a: Assembly)
    requires Sendable(sent, masked) && a.done.None?
    ensures FeedAll(sent, max, a).0.done.None? ==>
              ReadMessage(Stream(sent) + rest, max, masked, a) ==
              ReadMessage(rest, max, masked, FeedAll(sent, max, a).0)
    ensures FeedAll(sent, max, a).0.done.Some? && FeedAll(sent, max, a).0.done.value.Ok? ==>
              ReadMessage(Stream(sent) + rest, max, masked, a) ==
              Outcome(FeedAll(sent, max, a).0.done.value, FeedAll(sent, max, a).0.pongs,
                      Stream(FeedAll(sent, max, a).1) + rest)
    ensures FeedAll(sent, max, a).0.done.Some? && FeedAll(sent, max, a).0.done.value.Err? ==>
              ReadMessage(Stream(sent) + rest, max, masked, a).result.Err?
    decreases |sent|
  {
    if sent == [] {
      assert Stream(sent) + rest == rest;
    } else {
      ReadsFirst(sent, masked, rest);
      SendableTail(sent, masked);
      if |sent[0].frame.payload| <= MAX_TUNNEL_MESSAGE_BYTES + 1 {
        var n := Feed(a, sent[0].frame, max);
        if n.done.None? {
          ReadingIsFeeding(sent[1..], max, masked, rest, n);
        } else {
          assert FeedAll(sent[1..], max, n) == (n, sent[1..]);
          assert ReadMessage(Stream(sent) + rest, max, masked, a) ==
                 Outcome(n.done.value, n.pongs, Stream(sent[1..]) + rest);
        }
      }
    }
  }

  lemma StreamNotEmpty(sent: seq<Sent>, masked: bool)
    requires Sendable(sent, masked)
    ensures Stream(sent) == [] <==> sent == []
  {
    if sent != [] {
      SendableTail(sent, masked);
      ReadsOne(sent[0], masked, []);
    }
  }

  // ---------- Conforming messages ----------

  ghost predicate Expects(sent: seq<Sent>, max: nat, a: Assembly) {
    Conforming(sent, a.started) && a.done.None? && |a.fragments| <= max && (a.started || a.fragments == [])
  }

  /** One frame of a conforming message moves its payload from the frames to come into the reader. */
  lemma FeedOneConforming(sent: seq<Sent>, max: nat, a: Assembly)
    requires Expects(sent, max, a)
    ensures var n := Feed(a, sent[0].frame, max);
            if n.done.None? then
              && Expects(sent[1..], max, n)
              && n.fragments + MessageOf(sent[1..]) == a.fragments + MessageOf(sent)
              && n.pongs + PingsOf(sent[1..]) == a.pongs + PingsOf(sent)
            else if n.done.value.Ok? then
              && sent[1..] == [] && n.done == Some(Ok(a.fragments + MessageOf(sent)))
              && n.pongs == a.pongs + PingsOf(sent) && |a.fragments| + |MessageOf(sent)| <= max
            else |a.fragments| + |MessageOf(sent)| > max
  {
    var f, tail := sent[0].frame, sent[1..];
    assert a.fragments + f.payload + MessageOf(tail) == a.fragments + (f.payload + MessageOf(tail));
    assert a.pongs + [f.payload] + PingsOf(tail) == a.pongs + ([f.payload] + PingsOf(tail));
    assert [] + MessageOf(tail) == MessageOf(tail) && [] + PingsOf(tail) == PingsOf(tail);
    if !IsControl(f) && f.fin {
      assert MessageOf(tail) == [] && PingsOf(tail) == [];
      assert f.payload + [] == f.payload && [] + f.payload == f.payload;
    }
  }

  /** The general form of `ReadsConforming`, from the middle of a message. */
  lemma {:induction false} FeedsConforming(sent: seq<Sent>, max: nat, a: Assembly)
    requires Expects(sent, max, a)
    ensures FeedAll(sent, max, a).0.done.Some?
    ensures FeedAll(sent, max, a).0.done.value.Ok? <==>
            WithinFrameLimit(sent) && |a.fragments| + |MessageOf(sent)| <= max
    ensures FeedAll(sent, max, a).0.done.value.Ok? ==>
              && FeedAll(sent, max, a).0.done.value.value == a.fragments + MessageOf(sent)
              && FeedAll(sent, max, a).0.pongs == a.pongs + PingsOf(sent)
              && FeedAll(sent, max, a).1 == []
    decreases |sent|
  {
    if |sent[0].frame.payload| <= MAX_TUNNEL_MESSAGE_BYTES + 1 {
      var n := Feed(a, sent[0].frame, max);
      FeedOneConforming(sent, max, a);
      if n.done.Some? {
        assert FeedAll(sent[1..], max, n) == (n, sent[1..]);
      } else {
        FeedsConforming(sent[1..], max, n);
        assert |n.fragments| + |MessageOf(sent[1..])| == |n.fragments + MessageOf(sent[1..])|;
        assert |a.fragments| + |MessageOf(sent)| == |a.fragments + MessageOf(sent)|;
      }
    }
  }

  /**
   Every conforming split of a binary message, with pings and pongs interleaved anywhere, is read back whole:
   the message, one pong per ping with its payload in order, and nothing more of the stream. This holds
   exactly when the message is within `max` and every fragment within the frame limit; otherwise the read fails.
   */
  lemma ReadsConforming(sent: seq<Sent>, max: nat, masked: bool, rest: bytes)
    requires Sendable(sent, masked) && Conforming(sent, false)
    ensures if WithinFrameLimit(sent) && |MessageOf(sent)| <= max
            then ReadMessage(Stream(sent) + rest, max, masked, START) ==
                 Outcome(Ok(MessageOf(sent)), PingsOf(sent), rest)
            else ReadMessage(Stream(sent) + rest, max, masked, START).result.Err?
  {
    FeedsConforming(sent, max, START);
    ReadingIsFeeding(sent, max, masked, rest, START);
    assert [] + MessageOf(sent) == MessageOf(sent) && [] + PingsOf(sent) == PingsOf(sent) && [] + rest == rest;
  }

  // ---------- What else is accepted ----------

  /** What the reader accepts: it checks neither that a message in progress is continued nor that controls are final. */
  predicate Accepted(sent: seq<Sent>, started: bool) {
    if sent == [] then false
    else
      var f := sent[0].frame;
      if IsControl(f) then Accepted(sent[1..], started)
      else
        && (f.opcode == 0x2 || (f.opcode == 0x0 && started))
        && (if f.fin then sent[1..] == [] else Accepted(sent[1..], true))
  }

  /** A new binary frame starts while a message is in progress. */
  predicate Restarts(sent: seq<Sent>, started: bool) {
    && sent != []
    && ((sent[0].frame.opcode == 0x2 && started) || Restarts(sent[1..], started || sent[0].frame.opcode == 0x2))
  }

  predicate ControlsFinal(sent: seq<Sent>) {
    forall i :: 0 <= i < |sent| && IsControl(sent[i].frame) ==> sent[i].frame.fin
  }

  /**
   No frame is stopped by `max`, with `buffered` bytes of a message in progress: a binary frame is measured alone,
   a continuation together with everything buffered.
   */
  predicate FitsMax(sent: seq<Sent>, buffered: nat, max: nat) {
    if sent == [] then true
    else
      var f := sent[0].frame;
      if IsControl(f) then FitsMax(sent[1..], buffered, max)
      else
        && |f.payload| + (if f.opcode == 0x2 then 0 else buffered) <= max
        && FitsMax(sent[1..], buffered + |f.payload|, max)
  }

  /** What the reader returns at the end of an accepted sequence, with `buffered` in its buffer before. */
  function Returned(sent: seq<Sent>, buffered: bytes): bytes
    requires sent != []
  {
    var last := sent[|sent| - 1].frame;
    if last.opcode == 0x2 then last.payload else buffered + MessageOf(sent)
  }

  lemma ReturnedNext(sent: seq<Sent>, buffered: bytes)
    requires |sent| > 1
    ensures var f := sent[0].frame;
            Returned(sent, buffered) == Returned(sent[1..], if IsControl(f) then buffered else buffered + f.payload)
  {
    var f, tail := sent[0].frame, sent[1..];
    assert tail[|tail| - 1] == sent[|sent| - 1];
    assert buffered + ([] + MessageOf(tail)) == buffered + MessageOf(tail);
    assert buffered + (f.payload + MessageOf(tail)) == (buffered + f.payload) + MessageOf(tail);
  }

  lemma ReturnedAlone(s: Sent, buffered: bytes)
    requires !IsControl(s.frame)
    ensures Returned([s], buffered) == if s.frame.opcode == 0x2 then s.frame.payload else buffered + s.frame.payload
  {
    assert MessageOf([s]) == s.frame.payload + MessageOf([s][1..]);
    assert [s][1..] == [] && s.frame.payload + [] == s.frame.payload;
  }

  /** One frame that does not end the reading. */
  lemma FeedGoesOn(sent: seq<Sent>, max: nat, a: Assembly)
    requires sent != [] && a.done.None? && Feed(a, sent[0].frame, max).done.None?
    ensures var f, n := sent[0].frame, Feed(a, sent[0].frame, max);
            && n.fragments == (if IsControl(f) then a.fragments else a.fragments + f.payload)
            && (Accepted(sent, a.started) <==> Accepted(sent[1..], n.started))
            && (FitsMax(sent, |a.fragments|, max) <==> FitsMax(sent[1..], |n.fragments|, max))
            && n.pongs + PingsOf(sent[1..]) == a.pongs + PingsOf(sent)
  {
    var tail := sent[1..];
    assert a.pongs + ([sent[0].frame.payload] + PingsOf(tail)) == (a.pongs + [sent[0].frame.payload]) + PingsOf(tail);
    assert [] + PingsOf(tail) == PingsOf(tail);
  }

  /** One frame that ends the reading. */
  lemma FeedStops(sent: seq<Sent>, max: nat, a: Assembly)
    requires sent != [] && a.done.None? && Feed(a, sent[0].frame, max).done.Some?
    ensures var n := Feed(a, sent[0].frame, max);
            && (n.done.value.Ok? && sent[1..] == [] <==> Accepted(sent, a.started) && FitsMax(sent, |a.fragments|, max))
            && (n.done.value.Ok? && sent[1..] == [] ==>
                  n.done.value.value == Returned(sent, a.fragments) && n.pongs == a.pongs + PingsOf(sent))
  {
    if sent[1..] == [] {
      assert sent == [sent[0]];
      if !IsControl(sent[0].frame) {
        ReturnedAlone(sent[0], a.fragments);
        assert a.pongs + ([] + []) == a.pongs;
      }
    }
  }

  lemma {:induction false} FeedsAccepted(sent: seq<Sent>, max: nat, a: Assembly)
    requires a.done.None?
    ensures var (n, left) := FeedAll(sent, max, a);
            n.done.Some? && n.done.value.Ok? && left == [] <==>
            Accepted(sent, a.started) && WithinFrameLimit(sent) && FitsMax(sent, |a.fragments|, max)
    ensures var (n, left) := FeedAll(sent, max, a);
            n.done.Some? && n.done.value.Ok? && left == [] ==>
            sent != [] && n.done.value.value == Returned(sent, a.fragments) && n.pongs == a.pongs + PingsOf(sent)
    decreases |sent|
  {
    if sent != [] && |sent[0].frame.payload| <= MAX_TUNNEL_MESSAGE_BYTES + 1 {
      var n := Feed(a, sent[0].frame, max);
      if n.done.Some? {
        FeedStops(sent, max, a);
        FinalFrameIsLast(sent, a.started);
        assert FeedAll(sent[1..], max, n) == (n, sent[1..]);
      } else {
        FeedGoesOn(sent, max, a);
        FeedsAccepted(sent[1..], max, n);
        if |sent| > 1 {
          ReturnedNext(sent, a.fragments);
        }
      }
    }
  }

  lemma FinalFrameIsLast(sent: seq<Sent>, started: bool)
    requires sent != []
    ensures sent[1..] == [] ==> (WithinFrameLimit(sent) <==> |sent[0].frame.payload| <= MAX_TUNNEL_MESSAGE_BYTES + 1)
  {
  }

  // ---------- What ends a read without a message ----------

  /** All frames are read and the reader wants more. */
  predicate GoesOn(sent: seq<Sent>, started: bool) {
    sent != [] ==>
      var f := sent[0].frame;
      if IsControl(f) then GoesOn(sent[1..], started)
      else !f.fin && (f.opcode == 0x2 || (f.opcode == 0x0 && started)) && GoesOn(sent[1..], true)
  }

  predicate InMessage(sent: seq<Sent>) {
    exists i :: 0 <= i < |sent| && !IsControl(sent[i].frame)
  }

  lemma InMessageNext(sent: seq<Sent>)
    requires sent != []
    ensures InMessage(sent) <==> !IsControl(sent[0].frame) || InMessage(sent[1..])
  {
    assert forall i :: 0 < i < |sent| ==> sent[i] == sent[1..][i - 1];
    if InMessage(sent[1..]) {
      var i :| 0 <= i < |sent[1..]| && !IsControl(sent[1..][i].frame);
      assert sent[i + 1] == sent[1..][i];
    }
  }

  lemma {:induction false} FeedsOn(sent: seq<Sent>, max: nat, a: Assembly)
    requires a.done.None? && GoesOn(sent, a.started)
    requires WithinFrameLimit(sent) && FitsMax(sent, |a.fragments|, max)
    ensures var n := FeedAll(sent, max, a).0;
            n.done.None? && n.pongs == a.pongs + PingsOf(sent) && (n.started <==> a.started || InMessage(sent))
    decreases |sent|
  {
    if sent != [] {
      var n := Feed(a, sent[0].frame, max);
      FeedGoesOn(sent, max, a);
      InMessageNext(sent);
      FeedsOn(sent[1..], max, n);
    }
  }

  /** The error that a frame other than data, ping or pong is answered with. */
  function Refusal(opcode: byte): string {
    if opcode == 0x0 then "unexpected continuation frame"
    else if opcode == 0x1 then "text messages are not supported"
    else if opcode == 0x8 then "connection closed"
    else "unsupported websocket opcode"
  }

  /** A close frame, a text frame, an unknown one or a continuation of nothing ends the read with its own error. */
  lemma RefusedWith(sent: seq<Sent>, last: Sent, max: nat, masked: bool, rest: bytes)
    requires Sendable(sent, masked) && Sendable([last], masked)
    requires GoesOn(sent, false) && WithinFrameLimit(sent) && FitsMax(sent, 0, max)
    requires |last.frame.payload| <= MAX_TUNNEL_MESSAGE_BYTES + 1
    requires last.frame.opcode !in {0x2, 0x9, 0xA} && (last.frame.opcode == 0x0 ==> !InMessage(sent))
    ensures ReadMessage(Stream(sent) + (SentBytes(last) + rest), max, masked, START) ==
            Outcome(Err(Refusal(last.frame.opcode)), PingsOf(sent), rest)
  {
    FeedsOn(sent, max, START);
    var n := FeedAll(sent, max, START).0;
    ReadingIsFeeding(sent, max, masked, SentBytes(last) + rest, START);
    ReadsOne(last, masked, rest);
    assert [] + PingsOf(sent) == PingsOf(sent);
  }

  predicate IsSuffix(d: bytes, b: bytes) {
    |d| <= |b| && b[|b| - |d|..] == d
  }

  /** `d` starts with a close frame, with `rest` behind it. */
  predicate ClosesAt(d: bytes, masked: bool, rest: bytes) {
    var r := ReadFrame(d, masked);
    r.Ok? && r.value.frame.opcode == 0x8 && r.value.rest == rest
  }

  lemma ClosedByFirst(b: bytes, max: nat, masked: bool, a: Assembly, r: Read)
    requires a.done.None? && ReadFrame(b, masked) == Ok(r)
    ensures var n := Feed(a, r.frame, max);
            && (n.done.None? ==> ReadMessage(b, max, masked, a) == ReadMessage(r.rest, max, masked, n))
            && (n.done.Some? ==> ReadMessage(b, max, masked, a) == Outcome(n.done.value, n.pongs, r.rest)
                                 && (n.done == Some(Err("connection closed")) ==> r.frame.opcode == 0x8))
  {
  }

  /** Only a close frame makes the read end as closed: it is what was read last. */
  lemma {:induction false} OnlyCloseCloses(b: bytes, max: nat, masked: bool, a: Assembly) returns (d: bytes)
    requires a.done.None? && ReadMessage(b, max, masked, a).result == Err("connection closed")
    ensures IsSuffix(d, b) && ClosesAt(d, masked, ReadMessage(b, max, masked, a).rest)
    decreases |b|
  {
    NoFrameIsClosed(b, masked);
    var r := ReadFrame(b, masked).value;
    var n := Feed(a, r.frame, max);
    ClosedByFirst(b, max, masked, a, r);
    if n.done.Some? {
      d := b;
    } else {
      d := OnlyCloseCloses(r.rest, max, masked, n);
      RestIsSuffix(b, masked);
      SuffixOfSuffix(b, r.rest, d);
    }
  }

  lemma SuffixOfSuffix(b: bytes, c: bytes, d: bytes)
    requires IsSuffix(d, c) && IsSuffix(c, b)
    ensures IsSuffix(d, b)
  {
    assert b[|b| - |d|..] == b[|b| - |c|..][|c| - |d|..];
  }

  /** An error of the frame reader is never the one for a close frame. */
  lemma NoFrameIsClosed(b: bytes, masked: bool)
    ensures ReadFrame(b, masked) != Err("connection closed")
  {
  }

  lemma RestIsSuffix(b: bytes, masked: bool)
    requires ReadFrame(b, masked).Ok?
    ensures IsSuffix(ReadFrame(b, masked).value.rest, b)
  {
    var r := ReadFrame(b, masked).value;
    ReadFrameIff(b, masked, r.frame, r.rest);
  }

  /**
   The reader returns a message exactly at the end of the frames if and only if they are accepted and within the
   limits. It returns the last frame alone if that is a binary one, else all data payloads put together; and one
   pong per ping.
   */
  lemma AcceptedIff(sent: seq<Sent>, max: nat, masked: bool)
    requires Sendable(sent, masked)
    ensures var out := ReadMessage(Stream(sent), max, masked, START);
            && (out.result.Ok? && out.rest == [] <==>
                Accepted(sent, false) && WithinFrameLimit(sent) && FitsMax(sent, 0, max))
            && (out.result.Ok? && out.rest == [] ==>
                  sent != [] && out.result.value == Returned(sent, []) && out.pongs == PingsOf(sent))
  {
    FeedsAccepted(sent, max, START);
    ReadingIsFeeding(sent, max, masked, [], START);
    var left := FeedAll(sent, max, START).1;
    LeftIsSendable(sent, max, masked, START);
    StreamNotEmpty(left, masked);
    assert Stream(sent) + [] == Stream(sent) && Stream(left) + [] == Stream(left);
    assert [] + PingsOf(sent) == PingsOf(sent);
    assert ReadFrame([], masked).Err?;
  }

  /** A conforming sequence fits exactly when the whole message does. */
  lemma {:induction false} ConformingFitsIff(sent: seq<Sent>, started: bool, buffered: nat, max: nat)
    requires Conforming(sent, started) && (!started ==> buffered == 0)
    ensures FitsMax(sent, buffered, max) <==> buffered + |MessageOf(sent)| <= max
    decreases |sent|
  {
    var f, tail := sent[0].frame, sent[1..];
    if tail != [] {
      ConformingFitsIff(tail, if IsControl(f) then started else true,
                        if IsControl(f) then buffered else buffered + |f.payload|, max);
    }
  }

  lemma {:induction false} LeftIsSendable(sent: seq<Sent>, max: nat, masked: bool, a: Assembly)
    requires Sendable(sent, masked)
    ensures Sendable(FeedAll(sent, max, a).1, masked)
    decreases |sent|
  {
    if sent != [] {
      SendableTail(sent, masked);
      LeftIsSendable(sent[1..], max, masked, Feed(a, sent[0].frame, max));
    }
  }

  /** An accepted sequence conforms iff no message restarts in the middle and every control frame is final. */
  lemma {:induction false} AcceptedConformsIff(sent: seq<Sent>, started: bool)
    requires Accepted(sent, started)
    ensures Conforming(sent, started) <==> !Restarts(sent, started) && ControlsFinal(sent)
    decreases |sent|
  {
    var tail := sent[1..];
    assert ControlsFinal(sent) <==> (IsControl(sent[0].frame) ==> sent[0].frame.fin) && ControlsFinal(tail) by {
      assert forall i :: 0 <= i < |tail| ==> tail[i] == sent[i + 1];
      assert forall i :: 0 < i < |sent| ==> sent[i] == tail[i - 1];
    }
    if tail != [] {
      AcceptedConformsIff(tail, if IsControl(sent[0].frame) then started else true);
    }
  }

  /** A final binary frame in the middle of a message is returned alone: the fragment before it is lost. */
  lemma RestartLosesFragments(first: bytes, second: bytes)
    requires |first| <= MAX_TUNNEL_MESSAGE_BYTES && |second| <= MAX_TUNNEL_MESSAGE_BYTES
    ensures var sent := [Sent(WsFrame(0x2, false, first), None), Sent(WsFrame(0x2, true, second), None)];
            ReadMessage(Stream(sent), MAX_TUNNEL_MESSAGE_BYTES, false, START).result == Ok(second)
  {
    var sent := [Sent(WsFrame(0x2, false, first), None), Sent(WsFrame(0x2, true, second), None)];
    assert sent[1..] == [sent[1]] && sent[1..][1..] == [];
    assert Accepted(sent[1..], true) && Accepted(sent, false);
    assert WithinFrameLimit(sent[1..]) && FitsMax(sent[1..], |first|, MAX_TUNNEL_MESSAGE_BYTES);
    AcceptedIff(sent, MAX_TUNNEL_MESSAGE_BYTES, false);
  }
}
