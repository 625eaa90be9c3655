/**
 The upload side of one session in tunnel/xhttpHandler.js: posts are pushed into the reorder queue and
 the consume loop decodes what the queue delivers and hands each frame to `onFrame`.
 */
module UploadSpec {
  import opened Bytes
  import opened Protocol
  import R = ReorderSpec

  const MAX_POST_BODY_SIZE := 70_000

  /** `processed` counts the reads whose payload was handled, `frames` is everything passed to `onFrame`. */
  datatype Session = Session(queue: R.Queue, processed: nat, frames: seq<Frame>)

  datatype Event =
    | Post(seqNo: nat, body: bytes)
    | Ask      // the loop calls `read`
    | Resume   // the awaited read has a payload: the loop handles it
    | Shut     // the session is closed

  function Init(limit: nat): Session {
    Session(R.Init(limit), 0, [])
  }

  /** A batch that does not decode is skipped. */
  function FramesOf(body: bytes): seq<Frame> {
    match DecodeFrames(body)
    case Ok(fs) => fs
    case Err(_) => []
  }

  function FramesOfAll(bodies: seq<bytes>): seq<Frame> {
    if bodies == [] then []
    else FramesOfAll(bodies[..|bodies| - 1]) + FramesOf(bodies[|bodies| - 1])
  }

  /** Empty bodies are keep-alives and oversized ones are refused; neither reaches the queue. */
  predicate Accepted(body: bytes) {
    0 < |body| <= MAX_POST_BODY_SIZE
  }

  /** A push is refused when the queue is closed, or when it comes early and the buffer is full. */
  ghost predicate Refuses(q: R.Queue, n: nat) {
    q.closed || (n > |q.delivered| && |q.buffered| >= q.limit)
  }

  predicate CanAsk(s: Session) {
    !s.queue.closed && s.queue.asked == s.processed
  }

  predicate CanResume(s: Session) {
    s.queue.asked == s.processed + 1 && s.processed < |s.queue.delivered|
  }

  /** The awaited read was answered with null: everything delivered is handled and the queue is closed. */
  predicate SeesNull(s: Session) {
    s.queue.closed && s.queue.asked == s.processed + 1 && s.processed == |s.queue.delivered|
  }

  function Handle(s: Session): Session
    requires s.processed < |s.queue.delivered|
  {
    s.(processed := s.processed + 1, frames := s.frames + FramesOf(s.queue.delivered[s.processed]))
  }

  ghost predicate Step(s: Session, e: Event, s': Session) {
    match e
    case Post(n, body) =>
      if Accepted(body) then R.Step(s.queue, R.Push(n, body), s'.queue) && s' == s.(queue := s'.queue)
      else s' == s
    case Ask => CanAsk(s) && s' == s.(queue := s.queue.(asked := s.queue.asked + 1))
    case Resume => CanResume(s) && s' == Handle(s)
    case Shut => s' == s.(queue := R.CloseQueue(s.queue))
  }

  /** The loop has handled exactly the first `processed` deliveries and is at most one read ahead. */
  ghost predicate Inv(s: Session) {
    && s.processed <= |s.queue.delivered|
    && s.processed <= s.queue.asked <= s.processed + 1
    && s.frames == FramesOfAll(s.queue.delivered[..s.processed])
  }
}

module UploadSessions {
  import opened Bytes
  import opened Protocol
  import opened UploadSpec
  import R = ReorderSpec
  import UploadQueues

  /** The upload fields of a session object; its timers and attempts are in the record of the session table. */
  class UploadSession {
    const queue: UploadQueues.UploadQueue
    var processed: nat
    var frames: seq<Frame>
    var lastPing: Option<bytes>

    ghost function State(): Session
      reads this, queue
    {
      Session(queue.State(), processed, frames)
    }

    ghost predicate Valid()
      reads this, queue
    {
      queue.Valid() && Inv(State())
    }

    constructor (limit: nat)
      ensures Valid() && State() == Init(limit) && fresh(queue)
    {
      queue := new UploadQueues.UploadQueue(limit);
      processed, frames, lastPing := 0, [], None;
    }

    /** The queue's part of POST /upload and the status code; 503 makes the handler close the session. */
    method HandleUpload(n: nat, body: bytes) returns (status: nat)
      requires Valid()
      modifies queue
      ensures queue.Valid() && processed == old(processed) && frames == old(frames)
      ensures Step(old(State()), Post(n, body), State())
      ensures status == if |body| > 70_000 then 400 else if queue.closed && body != [] then 503 else 200
      ensures status == 503 <==> Accepted(body) && Refuses(old(queue.State()), n)
    {
      if |body| > MAX_POST_BODY_SIZE {
        return 400;
      }
      if |body| == 0 {
        return 200;
      }
      var ok := queue.Push(n, body);
      if !ok {
        return 503;
      }
      return 200;
    }

    /** The frame is handed on; a PONG with the last nonce answers the last ping. */
    method HandOn(f: Frame)
      modifies this
      ensures frames == old(frames) + [f] && processed == old(processed)
      ensures lastPing == if f.Pong? && old(lastPing) == Some(f.payload) then None else old(lastPing)
    {
      if f.Pong? && lastPing == Some(f.payload) {
        lastPing := None;
      }
      frames := frames + [f];
    }

    /** The payload of the answered read. */
    method Answered() returns (payload: bytes)
      requires Valid() && CanResume(State())
      ensures payload == queue.delivered[processed]
    {
      payload := queue.promises[processed].payload.value;
    }

    /** The frames of the answered payload have been handed on. */
    method Done(ghost before: Session)
      requires queue.Valid() && Inv(before) && CanResume(before) && queue.State() == before.queue
      requires processed == before.processed && frames == before.frames + FramesOf(before.queue.delivered[processed])
      modifies this`processed
      ensures Valid() && State() == Handle(before)
    {
      processed := processed + 1;
      ghost var done := queue.delivered[..processed];
      assert done[..|done| - 1] == queue.delivered[..processed - 1];
    }

    /** The top of the loop: one more read, unless the queue is closed. */
    method AskNext()
      requires Valid() && CanAsk(State())
      modifies queue
      ensures Valid() && Step(old(State()), Ask, State())
    {
      var promise := queue.Read();
    }
  }
}

module EndToEnd {
  import opened Bytes
  import opened Protocol
  import opened ProtocolTheorems
  import opened UploadSpec
  import R = ReorderSpec
  import Python = PythonCodec
  import Runs = ReorderRuns

  datatype Run = Run(states: seq<Session>, events: seq<Event>)

  ghost predicate IsRun(r: Run, limit: nat) {
    && |r.states| == |r.events| + 1
    && r.states[0] == Init(limit)
    && forall i :: 0 <= i < |r.events| ==> Step(r.states[i], r.events[i], r.states[i + 1])
  }

  function Last(r: Run): Session
    requires |r.states| > 0
  {
    r.states[|r.states| - 1]
  }

  /** The queue event behind a session event, if any. */
  function QueueEvents(e: Event): seq<R.Event> {
    match e
    case Post(n, body) => if Accepted(body) then [R.Push(n, body)] else []
    case Ask => [R.Read]
    case Resume => []
    case Shut => [R.Close]
  }

  function AllQueueEvents(events: seq<Event>): seq<R.Event> {
    if events == [] then []
    else AllQueueEvents(events[..|events| - 1]) + QueueEvents(events[|events| - 1])
  }

  /** The event does not post a number that is waiting in the queue. */
  ghost predicate Fresh(s: Session, e: Event) {
    e.Post? && Accepted(e.body) ==> Runs.NoRepeat(s.queue, R.Push(e.seqNo, e.body))
  }

  ghost predicate NeverRepeats(r: Run)
    requires |r.states| == |r.events| + 1
  {
    forall i :: 0 <= i < |r.events| ==> Fresh(r.states[i], r.events[i])
  }

  function Shorter(r: Run): Run
    requires |r.events| > 0 && |r.states| == |r.events| + 1
  {
    Run(r.states[..|r.events|], r.events[..|r.events| - 1])
  }

  lemma ShorterIsRun(r: Run, limit: nat)
    requires IsRun(r, limit) && |r.events| > 0
    ensures IsRun(Shorter(r), limit)
    ensures Step(Last(Shorter(r)), r.events[|r.events| - 1], Last(r))
  {
    var s, n := Shorter(r), |r.events| - 1;
    assert Last(s) == r.states[n] && Last(r) == r.states[n + 1];
    forall i | 0 <= i < |s.events|
      ensures Step(s.states[i], s.events[i], s.states[i + 1])
    {
      assert s.states[i] == r.states[i] && s.events[i] == r.events[i] && s.states[i + 1] == r.states[i + 1];
    }
  }

  lemma ShorterNeverRepeats(r: Run)
    requires |r.states| == |r.events| + 1 && |r.events| > 0 && NeverRepeats(r)
    ensures NeverRepeats(Shorter(r)) && Fresh(Last(Shorter(r)), r.events[|r.events| - 1])
  {
    var s := Shorter(r);
    forall i | 0 <= i < |s.events|
      ensures Fresh(s.states[i], s.events[i])
    {
      assert s.states[i] == r.states[i] && s.events[i] == r.events[i];
    }
    assert Last(s) == r.states[|r.events| - 1];
  }

  lemma QueueStep(s: Session, e: Event, s': Session)
    requires Step(s, e, s')
    ensures if QueueEvents(e) == [] then s'.queue == s.queue else R.Step(s.queue, QueueEvents(e)[0], s'.queue)
  {
  }

  lemma ExtendNeverRepeats(q: Runs.Run, e: R.Event, s: Runs.Run)
    requires |q.states| == |q.events| + 1 && Runs.NeverRepeats(q) && Runs.NoRepeat(Runs.Last(q), e)
    requires |s.states| == |s.events| + 1 && s.events == q.events + [e] && s.states[..|q.states|] == q.states
    ensures Runs.NeverRepeats(s)
  {
    assert forall i :: 0 <= i < |q.states| ==> s.states[i] == q.states[i];
    assert forall i :: 0 <= i < |q.events| ==> s.events[i] == q.events[i];
  }

  lemma ExtendBy(was: Runs.Run, limit: nat, s: Session, e: Event, s': Session) returns (q: Runs.Run)
    requires Runs.IsRun(was, limit) && Runs.Last(was) == s.queue && Step(s, e, s')
    ensures Runs.IsRun(q, limit) && Runs.Last(q) == s'.queue && q.events == was.events + QueueEvents(e)
    ensures Runs.NeverRepeats(was) && Fresh(s, e) ==> Runs.NeverRepeats(q)
  {
    QueueStep(s, e, s');
    q := was;
    if QueueEvents(e) != [] {
      q := Runs.Run(was.states + [s'.queue], was.events + [QueueEvents(e)[0]]);
      if Runs.NeverRepeats(was) && Fresh(s, e) {
        ExtendNeverRepeats(was, QueueEvents(e)[0], q);
      }
    }
  }

  /** The queue of a session run makes a queue run. */
  lemma {:induction false} QueueRun(r: Run, limit: nat) returns (q: Runs.Run)
    requires IsRun(r, limit)
    ensures Runs.IsRun(q, limit) && Runs.Last(q) == Last(r).queue && q.events == AllQueueEvents(r.events)
    ensures NeverRepeats(r) ==> Runs.NeverRepeats(q)
    decreases |r.events|
  {
    if |r.events| == 0 {
      q := Runs.Run([R.Init(limit)], []);
    } else {
      ShorterIsRun(r, limit);
      if NeverRepeats(r) {
        ShorterNeverRepeats(r);
      }
      var was := QueueRun(Shorter(r), limit);
      var e := r.events[|r.events| - 1];
      assert AllQueueEvents(r.events) == was.events + QueueEvents(e);
      q := ExtendBy(was, limit, Last(Shorter(r)), e, Last(r));
      assert NeverRepeats(r) ==> Runs.NeverRepeats(q);
    }
  }

  /** On every run the frames handed on are exactly those of the deliveries handled so far, in order. */
  lemma {:induction false} LoopFollowsDeliveries(r: Run, limit: nat)
    requires IsRun(r, limit)
    ensures Inv(Last(r))
    decreases |r.events|
  {
    if |r.events| > 0 {
      ShorterIsRun(r, limit);
      LoopFollowsDeliveries(Shorter(r), limit);
      StepInv(Last(Shorter(r)), r.events[|r.events| - 1], Last(r));
    }
  }

  lemma StepInv(s: Session, e: Event, s': Session)
    requires Inv(s) && Step(s, e, s')
    ensures Inv(s')
  {
    if e.Post? && Accepted(e.body) {
      Runs.StepGrows(s.queue, R.Push(e.seqNo, e.body), s'.queue);
      assert s'.queue.asked == s.queue.asked by {
        if R.PushStep(s.queue, e.seqNo, e.body, s'.queue, true) && !s.queue.closed && e.seqNo == |s.queue.delivered| {
          Runs.DrainFacts(R.Deliver(s.queue, e.body), s'.queue);
        }
      }
      assert s'.queue.delivered[..s.processed] == s.queue.delivered[..s.processed];
    } else if e.Resume? {
      var done := s'.queue.delivered[..s'.processed];
      assert done[..|done| - 1] == s.queue.delivered[..s.processed];
    }
  }

  // ---------- The client ----------

  /** The client's post bodies: each encodes its own non-empty chunk of the frame list. */
  ghost predicate Bodies(chunks: seq<seq<Frame>>, bodies: seq<bytes>) {
    && |chunks| == |bodies|
    && forall i :: 0 <= i < |bodies| ==>
                     EncodeAll(chunks[i]) == Ok(bodies[i]) && AllFit(chunks[i]) && Accepted(bodies[i])
  }

  function Flatten(chunks: seq<seq<Frame>>): seq<Frame> {
    if chunks == [] then [] else Flatten(chunks[..|chunks| - 1]) + chunks[|chunks| - 1]
  }

  /** Every post of the run is one of the client's, under its own number. */
  ghost predicate FromClient(events: seq<Event>, bodies: seq<bytes>) {
    forall e :: e in events && e.Post? ==> e.seqNo < |bodies| && e.body == bodies[e.seqNo]
  }

  ghost predicate AllPosted(events: seq<Event>, bodies: seq<bytes>) {
    forall n :: 0 <= n < |bodies| ==> Post(n, bodies[n]) in events
  }

  lemma {:induction false} PushesArePosts(events: seq<Event>, n: nat, body: bytes)
    ensures R.Push(n, body) in AllQueueEvents(events) <==> Post(n, body) in events && Accepted(body)
    decreases |events|
  {
    if events != [] {
      PushesArePosts(events[..|events| - 1], n, body);
      assert events == events[..|events| - 1] + [events[|events| - 1]];
    }
  }

  lemma {:induction false} FramesOfBodies(chunks: seq<seq<Frame>>, bodies: seq<bytes>, n: nat)
    requires Bodies(chunks, bodies) && n <= |bodies|
    ensures FramesOfAll(bodies[..n]) == Flatten(chunks[..n])
    decreases n
  {
    if n > 0 {
      FramesOfBodies(chunks, bodies, n - 1);
      BatchRoundTripIff(chunks[n - 1]);
      assert bodies[..n][..n - 1] == bodies[..n - 1] && chunks[..n][..n - 1] == chunks[..n - 1];
    }
  }

  lemma {:induction false} FlattenPrefix(chunks: seq<seq<Frame>>, n: nat)
    requires n <= |chunks|
    ensures Flatten(chunks[..n]) <= Flatten(chunks)
    decreases |chunks|
  {
    if n < |chunks| {
      var shorter := chunks[..|chunks| - 1];
      FlattenPrefix(shorter, n);
      assert shorter[..n] == chunks[..n];
    } else {
      assert chunks[..n] == chunks;
    }
  }

  lemma DeliveredBody(r: Run, q: Runs.Run, bodies: seq<bytes>, k: nat)
    requires |r.states| > 0 && FromClient(r.events, bodies) && q.events == AllQueueEvents(r.events)
    requires Runs.Sourced(Last(r).queue, q.events) && k < |Last(r).queue.delivered|
    ensures k < |bodies| && Last(r).queue.delivered[k] == bodies[k]
  {
    var body := Last(r).queue.delivered[k];
    assert R.Push(k, body) in q.events;
    PushesArePosts(r.events, k, body);
    assert Post(k, body) in r.events;
  }

  /** What was delivered is what the client put under that number. */
  lemma DeliveredBodies(r: Run, limit: nat, bodies: seq<bytes>) returns (q: Runs.Run)
    requires IsRun(r, limit) && FromClient(r.events, bodies)
    ensures Runs.IsRun(q, limit) && Runs.Last(q) == Last(r).queue && q.events == AllQueueEvents(r.events)
    ensures NeverRepeats(r) ==> Runs.NeverRepeats(q)
    ensures Last(r).queue.delivered <= bodies
  {
    q := QueueRun(r, limit);
    Runs.DeliveredInOrder(q, limit);
    var d := Last(r).queue.delivered;
    forall k | 0 <= k < |d|
      ensures k < |bodies| && d[k] == bodies[k]
    {
      DeliveredBody(r, q, bodies, k);
    }
    if |d| > 0 {
      DeliveredBody(r, q, bodies, |d| - 1);
    }
  }

  /**
   In every interleaving of posts, duplicates, reads and closes, `onFrame` has been called with a prefix
   of the client's frame list.
   */
  lemma OnFrameSeesAPrefix(r: Run, limit: nat, chunks: seq<seq<Frame>>, bodies: seq<bytes>)
    requires IsRun(r, limit) && Bodies(chunks, bodies) && FromClient(r.events, bodies)
    ensures Last(r).frames <= Flatten(chunks)
  {
    LoopFollowsDeliveries(r, limit);
    var q := DeliveredBodies(r, limit, bodies);
    var s := Last(r);
    assert s.queue.delivered[..s.processed] == bodies[..s.processed];
    FramesOfBodies(chunks, bodies, s.processed);
    FlattenPrefix(chunks, s.processed);
  }

  /** Every post has arrived, none repeated a number still waiting, nothing is closed and the loop is at rest. */
  ghost predicate Complete(r: Run, bodies: seq<bytes>)
    requires |r.states| == |r.events| + 1
  {
    && AllPosted(r.events, bodies) && NeverRepeats(r) && !Last(r).queue.closed
    && !CanAsk(Last(r)) && !CanResume(Last(r))
  }

  /**
   When every post has arrived, in any order, none repeating a number still waiting and nothing closed,
   the consume loop comes to rest having passed exactly the client's frame list to `onFrame`.
   */
  lemma OnFrameSeesEverything(r: Run, limit: nat, chunks: seq<seq<Frame>>, bodies: seq<bytes>)
    requires IsRun(r, limit) && Bodies(chunks, bodies) && FromClient(r.events, bodies)
    requires Complete(r, bodies)
    ensures Last(r).frames == Flatten(chunks)
  {
    LoopFollowsDeliveries(r, limit);
    var q := DeliveredBodies(r, limit, bodies);
    Runs.NextIsLeastNeverPushed(q, limit);
    var s := Last(r);
    var d := s.queue.delivered;
    if |d| < |bodies| {
      PushesArePosts(r.events, |d|, bodies[|d|]);
      assert false;
    }
    assert s.processed == |d| == |bodies|;
    assert d[..s.processed] == bodies[..|bodies|];
    FramesOfBodies(chunks, bodies, |bodies|);
    assert chunks[..|bodies|] == chunks;
  }

  lemma ChunkIsNotEmpty(chunk: seq<Frame>, body: bytes)
    requires EncodeAll(chunk) == Ok(body) && Accepted(body)
    ensures chunk != []
  {
  }

  lemma MissingChunkShows(chunks: seq<seq<Frame>>, n: nat)
    requires n < |chunks| && chunks[n] != []
    ensures Flatten(chunks[..n]) != Flatten(chunks)
  {
    FlattenPrefix(chunks, n + 1);
    assert chunks[..n + 1][..n] == chunks[..n];
    assert |Flatten(chunks[..n + 1])| == |Flatten(chunks[..n])| + |chunks[n]|;
  }

  /** The drain started by the last post that came in order, if there was one, met no obstacle. */
  ghost predicate LastDrainUnblocked(r: Run)
    requires |r.states| == |r.events| + 1
    decreases |r.events|
  {
    if |r.events| == 0 then true
    else
      var q, e := Last(Shorter(r)).queue, r.events[|r.events| - 1];
      if e.Post? && Accepted(e.body) && !q.closed && e.seqNo == |q.delivered| then Runs.Unblocked(R.Deliver(q, e.body))
      else LastDrainUnblocked(Shorter(r))
  }

  /** On every open run the expected number is buffered exactly when the last drain was blocked. */
  lemma {:induction false} ExpectedIsBufferedIff(r: Run, limit: nat)
    requires IsRun(r, limit) && !Last(r).queue.closed
    ensures !R.Buffers(Last(r).queue, |Last(r).queue.delivered|) <==> LastDrainUnblocked(r)
    decreases |r.events|
  {
    if |r.events| > 0 {
      ShorterIsRun(r, limit);
      var s, e, s' := Last(Shorter(r)), r.events[|r.events| - 1], Last(r);
      QueueStep(s, e, s');
      if QueueEvents(e) == [] {
        ExpectedIsBufferedIff(Shorter(r), limit);
      } else if e.Post? && e.seqNo == |s.queue.delivered| {
        Runs.PushDrainsFullyIff(s.queue, e.body, s'.queue);
      } else {
        Runs.OtherStepsKeepExpected(s.queue, QueueEvents(e)[0], s'.queue);
        ExpectedIsBufferedIff(Shorter(r), limit);
      }
    }
  }

  /** With every post arrived, the last drain was unblocked exactly when everything is delivered. */
  lemma AllDeliveredIff(r: Run, limit: nat, bodies: seq<bytes>)
    requires IsRun(r, limit) && FromClient(r.events, bodies) && AllPosted(r.events, bodies)
    requires !Last(r).queue.closed && forall n :: 0 <= n < |bodies| ==> Accepted(bodies[n])
    ensures Last(r).queue.delivered == bodies <==> LastDrainUnblocked(r)
  {
    var q := DeliveredBodies(r, limit, bodies);
    Runs.NextIsLeastNeverPushedIff(q, limit);
    Runs.ExpectedIsBufferedIff(q, limit);
    ExpectedIsBufferedIff(r, limit);
    var n := |Last(r).queue.delivered|;
    if n < |bodies| {
      PushesArePosts(r.events, n, bodies[n]);
    } else {
      NothingBeyond(r.events, q.events, bodies);
    }
  }

  /** A loop at rest has handed on the whole frame list exactly when everything is delivered. */
  lemma AllHeardIff(r: Run, limit: nat, chunks: seq<seq<Frame>>, bodies: seq<bytes>)
    requires IsRun(r, limit) && Bodies(chunks, bodies) && Last(r).queue.delivered <= bodies
    requires !Last(r).queue.closed && !CanAsk(Last(r)) && !CanResume(Last(r))
    ensures Last(r).frames == Flatten(chunks) <==> Last(r).queue.delivered == bodies
  {
    LoopFollowsDeliveries(r, limit);
    var n := |Last(r).queue.delivered|;
    assert Last(r).processed == n && Last(r).queue.delivered[..n] == bodies[..n];
    FramesOfBodies(chunks, bodies, n);
    if n < |bodies| {
      ChunkIsNotEmpty(chunks[n], bodies[n]);
      MissingChunkShows(chunks, n);
    } else {
      assert chunks[..n] == chunks;
    }
  }

  /**
   The exact condition, repeats allowed: when every post has arrived, nothing is closed and the loop is at rest,
   `onFrame` has seen the client's whole frame list if and only if the last drain of the queue was unblocked.
   */
  lemma OnFrameSeesEverythingIff(r: Run, limit: nat, chunks: seq<seq<Frame>>, bodies: seq<bytes>)
    requires IsRun(r, limit) && Bodies(chunks, bodies) && FromClient(r.events, bodies) && AllPosted(r.events, bodies)
    requires !Last(r).queue.closed && !CanAsk(Last(r)) && !CanResume(Last(r))
    ensures Last(r).frames == Flatten(chunks) <==> LastDrainUnblocked(r)
  {
    var q := DeliveredBodies(r, limit, bodies);
    AllDeliveredIff(r, limit, bodies);
    AllHeardIff(r, limit, chunks, bodies);
  }

  lemma NothingBeyond(events: seq<Event>, pushes: seq<R.Event>, bodies: seq<bytes>)
    requires FromClient(events, bodies) && pushes == AllQueueEvents(events)
    ensures !Runs.Pushed(pushes, |bodies|)
  {
    if Runs.Pushed(pushes, |bodies|) {
      var e :| e in pushes && e.Push? && e.seqNo == |bodies|;
      PushesArePosts(events, e.seqNo, e.payload);
      assert false;
    }
  }

  /** The post bodies of the Python client, from its own encoder. */
  ghost predicate PythonBodies(chunks: seq<seq<Frame>>, bodies: seq<bytes>) {
    && |chunks| == |bodies|
    && forall i :: 0 <= i < |bodies| ==>
                     && Python.EncodePyAll(chunks[i]) == Ok(bodies[i]) && Accepted(bodies[i])
                     && forall j :: 0 <= j < |chunks[i]| ==> Python.Sayable(chunks[i][j])
  }

  lemma PythonBodiesAreBodies(chunks: seq<seq<Frame>>, bodies: seq<bytes>)
    requires PythonBodies(chunks, bodies)
    ensures Bodies(chunks, bodies)
  {
    forall i | 0 <= i < |bodies|
      ensures EncodeAll(chunks[i]) == Ok(bodies[i]) && AllFit(chunks[i])
    {
      Python.ClientBatchIsServerBatch(chunks[i]);
    }
  }

  /**
   From the encoder of the Python client to `onFrame` of the server: always a prefix of what the client said,
   and all of it once every post has arrived without repeats and without a close and the loop is at rest.
   */
  lemma ServerHearsPythonClient(r: Run, limit: nat, chunks: seq<seq<Frame>>, bodies: seq<bytes>)
    requires IsRun(r, limit) && PythonBodies(chunks, bodies) && FromClient(r.events, bodies)
    ensures Last(r).frames <= Flatten(chunks)
    ensures Complete(r, bodies) ==> Last(r).frames == Flatten(chunks)
  {
    PythonBodiesAreBodies(chunks, bodies);
    OnFrameSeesAPrefix(r, limit, chunks, bodies);
    if Complete(r, bodies) {
      OnFrameSeesEverything(r, limit, chunks, bodies);
    }
  }
}
