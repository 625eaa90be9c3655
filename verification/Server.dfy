/**
 The session table together with the upload side of every session ever created. A session that has left the table
 is still here: its consume loop and requests that found it earlier go on with it.
 */
module ServerSpec {
  import opened Bytes
  import S = SessionSpec
  import U = UploadSpec
  import R = ReorderSpec

  datatype Server = Server(table: S.Table, uploads: map<S.Name, U.Session>)

  datatype Config = Config(table: S.Config, maxBuffered: nat)

  datatype Event =
    | TableEvent(event: S.Event)                          // a handler or timer on the table alone
    | Post(sid: S.Name, seqNo: nat, body: bytes)          // the body of a POST /upload is complete
    | Ask(sid: S.Name)                                    // a consume loop calls `read`
    | Resume(sid: S.Name, now: int)                       // a consume loop handles a payload
    | SawNull(sid: S.Name)                                // a read of a consume loop was answered with null

  function Init(token: S.Name): Server {
    Server(S.Empty(token), map[])
  }

  /** Frames and closed queues reach the table only through the upload side. */
  predicate OnTable(s: Server, e: S.Event) {
    && S.Enabled(s.table, e) && !e.FrameArrived? && !e.QueueClosed?
    && (e.Create? ==> e.sid !in s.uploads)
  }

  function Shut(u: U.Session): U.Session {
    u.(queue := R.CloseQueue(u.queue))
  }

  /** A session that leaves the table closes its queue; a new session starts with an empty one. */
  function Follow(s: Server, table: S.Table, c: Config): map<S.Name, U.Session> {
    map sid | sid in s.uploads.Keys + table.sessions.Keys ::
      if sid !in s.uploads then U.Init(c.maxBuffered)
      else if sid in s.table.sessions && sid !in table.sessions then Shut(s.uploads[sid])
      else s.uploads[sid]
  }

  /** The upload side of `sid` takes step `e`, and no other changes. */
  ghost predicate Moves(s: Server, sid: S.Name, e: U.Event, s': Server) {
    && sid in s.uploads && sid in s'.uploads && s'.uploads == s.uploads[sid := s'.uploads[sid]]
    && U.Step(s.uploads[sid], e, s'.uploads[sid])
  }

  ghost predicate Step(s: Server, e: Event, s': Server, c: Config) {
    match e
    case TableEvent(te) =>
      && OnTable(s, te) && s'.table == S.After(s.table, te, c.table)
      && s'.uploads == Follow(s, s'.table, c)
    case Post(sid, n, body) =>
      && Moves(s, sid, U.Post(n, body), s')
      && s'.table == if U.Accepted(body) && s'.uploads[sid].queue.closed
                     then S.After(s.table, S.QueueClosed(sid), c.table) else s.table
    case Ask(sid) => Moves(s, sid, U.Ask, s') && s'.table == s.table
    case Resume(sid, now) =>
      && Moves(s, sid, U.Resume, s')
      && s'.table == if s'.uploads[sid].frames != s.uploads[sid].frames
                     then S.After(s.table, S.FrameArrived(sid, now), c.table) else s.table
    case SawNull(sid) =>
      && sid in s.uploads && U.SeesNull(s.uploads[sid]) && s'.uploads == s.uploads
      && s'.table == S.After(s.table, S.QueueClosed(sid), c.table)
  }

  /** A session is in the table exactly as long as its queue is open. */
  ghost predicate Inv(s: Server, c: Config) {
    && S.Inv(s.table)
    && (forall sid :: sid in s.table.sessions ==> sid in s.uploads)
    && (forall sid :: sid in s.uploads ==>
                        && U.Inv(s.uploads[sid]) && s.uploads[sid].queue.limit == c.maxBuffered
                        && (sid in s.table.sessions <==> !s.uploads[sid].queue.closed))
  }

  /** The reasons for which a step of the server ends a session of the table. */
  ghost predicate Closes(s: Server, e: Event, c: Config, sid: S.Name)
    requires sid in s.table.sessions && sid in s.uploads
  {
    match e
    case TableEvent(te) => S.Closes(s.table, te, c.table, s.table.sessions[sid], sid)
    case Post(id, n, body) =>
      && id == sid && U.Accepted(body)
      && n > |s.uploads[sid].queue.delivered| && |s.uploads[sid].queue.buffered| >= c.maxBuffered
    case _ => false
  }
}

module ServerTheorems {
  import opened Bytes
  import opened ServerSpec
  import P = Protocol
  import S = SessionSpec
  import T = SessionTheorems
  import U = UploadSpec
  import E = EndToEnd
  import R = ReorderSpec
  import Runs = ReorderRuns

  // ---------- One step ----------

  lemma QueueClosedEffect(t: S.Table, sid: S.Name, c: S.Config)
    requires S.Inv(t)
    ensures S.Inv(S.After(t, S.QueueClosed(sid), c))
    ensures S.After(t, S.QueueClosed(sid), c).sessions == t.sessions - {sid}
    ensures sid !in t.sessions ==> S.After(t, S.QueueClosed(sid), c) == t
  {
    T.StepKeepsInv(t, S.QueueClosed(sid), c);
    if sid !in t.sessions {
      assert t.sessions - {sid} == t.sessions;
      assert forall tok :: tok in t.byToken ==> t.byToken[tok] - {sid} == t.byToken[tok];
      assert S.CloseSet(t, {sid}).byToken == t.byToken;
    }
  }

  /** A push closes an open queue exactly when it comes early and the buffer is full; a closed one stays closed. */
  lemma PostCloses(u: U.Session, n: nat, body: bytes, u': U.Session)
    requires U.Step(u, U.Post(n, body), u')
    ensures u'.queue.closed <==> u.queue.closed || (U.Accepted(body) && U.Refuses(u.queue, n))
    ensures u'.queue.limit == u.queue.limit
  {
    if U.Accepted(body) && !u.queue.closed && n == |u.queue.delivered| {
      Runs.DrainShape(R.Deliver(u.queue, body), u'.queue);
    }
  }

  lemma OnlyCreateAdds(t: S.Table, e: S.Event, c: S.Config, sid: S.Name)
    requires S.Enabled(t, e)
    ensures sid in S.After(t, e, c).sessions && sid !in t.sessions ==> e.Create? && e.sid == sid
  {
  }

  lemma OpenAsLongAsListed(s: Server, te: S.Event, table: S.Table, c: Config, sid: S.Name)
    requires OnTable(s, te) && table == S.After(s.table, te, c.table) && sid in Follow(s, table, c)
    requires sid in s.table.sessions ==> sid in s.uploads
    requires sid in s.uploads ==>
               && U.Inv(s.uploads[sid]) && s.uploads[sid].queue.limit == c.maxBuffered
               && (sid in s.table.sessions <==> !s.uploads[sid].queue.closed)
    ensures var u := Follow(s, table, c)[sid];
            U.Inv(u) && u.queue.limit == c.maxBuffered && (sid in table.sessions <==> !u.queue.closed)
  {
    OnlyCreateAdds(s.table, te, c.table, sid);
    if sid !in s.uploads {
      assert U.Init(c.maxBuffered).queue.delivered[..0] == [];
    }
  }

  lemma TableStepKeepsInv(s: Server, te: S.Event, s': Server, c: Config)
    requires Inv(s, c) && Step(s, TableEvent(te), s', c)
    ensures Inv(s', c)
  {
    T.StepKeepsInv(s.table, te, c.table);
    forall sid | sid in s'.uploads
      ensures U.Inv(s'.uploads[sid]) && s'.uploads[sid].queue.limit == c.maxBuffered
      ensures sid in s'.table.sessions <==> !s'.uploads[sid].queue.closed
    {
      OpenAsLongAsListed(s, te, s'.table, c, sid);
    }
  }

  lemma MoveKeepsInv(s: Server, sid: S.Name, e: U.Event, s': Server, c: Config)
    requires Inv(s, c) && Moves(s, sid, e, s') && !e.Shut?
    ensures U.Inv(s'.uploads[sid]) && s'.uploads[sid].queue.limit == c.maxBuffered
    ensures s'.uploads[sid].queue.closed <==>
            s.uploads[sid].queue.closed || (e.Post? && U.Accepted(e.body) && U.Refuses(s.uploads[sid].queue, e.seqNo))
  {
    E.StepInv(s.uploads[sid], e, s'.uploads[sid]);
    if e.Post? {
      PostCloses(s.uploads[sid], e.seqNo, e.body, s'.uploads[sid]);
    }
  }

  lemma PostKeepsInv(s: Server, sid: S.Name, n: nat, body: bytes, s': Server, c: Config)
    requires Inv(s, c) && Step(s, Post(sid, n, body), s', c)
    ensures Inv(s', c)
  {
    MoveKeepsInv(s, sid, U.Post(n, body), s', c);
    QueueClosedEffect(s.table, sid, c.table);
  }

  lemma FrameArrivedEffect(t: S.Table, sid: S.Name, now: int, c: S.Config)
    requires S.Inv(t)
    ensures S.Inv(S.After(t, S.FrameArrived(sid, now), c))
    ensures S.After(t, S.FrameArrived(sid, now), c).sessions.Keys == t.sessions.Keys
  {
    T.StepKeepsInv(t, S.FrameArrived(sid, now), c);
  }

  /** One upload side moved without closing, and the table still lists the same sessions. */
  lemma OneMoved(s: Server, sid: S.Name, s': Server, c: Config)
    requires Inv(s, c) && S.Inv(s'.table) && s'.table.sessions.Keys == s.table.sessions.Keys
    requires sid in s.uploads && sid in s'.uploads && s'.uploads == s.uploads[sid := s'.uploads[sid]]
    requires U.Inv(s'.uploads[sid]) && s'.uploads[sid].queue.limit == c.maxBuffered
    requires s'.uploads[sid].queue.closed == s.uploads[sid].queue.closed
    ensures Inv(s', c)
  {
    forall id | id in s'.uploads
      ensures U.Inv(s'.uploads[id]) && s'.uploads[id].queue.limit == c.maxBuffered
      ensures id in s'.table.sessions <==> !s'.uploads[id].queue.closed
    {
      assert id != sid ==> s'.uploads[id] == s.uploads[id];
      assert id in s'.table.sessions <==> id in s.table.sessions.Keys;
    }
    forall id | id in s'.table.sessions
      ensures id in s'.uploads
    {
      assert id in s.table.sessions.Keys;
    }
  }

  lemma ResumeKeepsInv(s: Server, sid: S.Name, now: int, s': Server, c: Config)
    requires Inv(s, c) && Step(s, Resume(sid, now), s', c)
    ensures Inv(s', c) && s'.table.sessions.Keys == s.table.sessions.Keys
  {
    MoveKeepsInv(s, sid, U.Resume, s', c);
    FrameArrivedEffect(s.table, sid, now, c.table);
    OneMoved(s, sid, s', c);
  }

  /** The consume loop never finds a listed session with a closed queue: its own close at the null answer is idle. */
  lemma SawNullChangesNothing(s: Server, sid: S.Name, s': Server, c: Config)
    requires Inv(s, c) && Step(s, SawNull(sid), s', c)
    ensures s' == s
  {
    QueueClosedEffect(s.table, sid, c.table);
  }

  lemma StepKeepsInv(s: Server, e: Event, s': Server, c: Config)
    requires Inv(s, c) && Step(s, e, s', c)
    ensures Inv(s', c)
  {
    match e {
      case TableEvent(te) => TableStepKeepsInv(s, te, s', c);
      case Post(sid, n, body) => PostKeepsInv(s, sid, n, body, s', c);
      case Ask(sid) =>
        MoveKeepsInv(s, sid, U.Ask, s', c);
        OneMoved(s, sid, s', c);
      case Resume(sid, now) => ResumeKeepsInv(s, sid, now, s', c);
      case SawNull(sid) => SawNullChangesNothing(s, sid, s', c);
    }
  }

  /**
   A step ends a session exactly for one of the reasons: those of the table, or a post that comes early while the
   session's buffer is full.
   */
  lemma SessionEndsIff(s: Server, e: Event, s': Server, c: Config, sid: S.Name)
    requires Inv(s, c) && Step(s, e, s', c) && sid in s.table.sessions
    ensures sid !in s'.table.sessions <==> Closes(s, e, c, sid)
  {
    match e {
      case TableEvent(te) => T.ClosedForAReason(s.table, te, c.table, sid);
      case Post(id, n, body) =>
        MoveKeepsInv(s, id, U.Post(n, body), s', c);
        QueueClosedEffect(s.table, id, c.table);
      case Ask(id) =>
      case Resume(id, now) => ResumeKeepsInv(s, id, now, s', c);
      case SawNull(id) => SawNullChangesNothing(s, id, s', c);
    }
  }

  // ---------- Runs ----------

  datatype Run = Run(states: seq<Server>, events: seq<Event>)

  ghost predicate IsRun(r: Run, token: S.Name, c: Config) {
    && |r.states| == |r.events| + 1 && r.states[0] == Init(token)
    && forall i :: 0 <= i < |r.events| ==> Step(r.states[i], r.events[i], r.states[i + 1], c)
  }

  function Last(r: Run): Server
    requires |r.states| > 0
  {
    r.states[|r.states| - 1]
  }

  function Shorter(r: Run): Run
    requires |r.events| > 0 && |r.states| == |r.events| + 1
  {
    Run(r.states[..|r.events|], r.events[..|r.events| - 1])
  }

  lemma ShorterIsRun(r: Run, token: S.Name, c: Config)
    requires IsRun(r, token, c) && |r.events| > 0
    ensures IsRun(Shorter(r), token, c)
    ensures Step(Last(Shorter(r)), r.events[|r.events| - 1], Last(r), c)
  {
    var s, n := Shorter(r), |r.events| - 1;
    assert Last(s) == r.states[n] && Last(r) == r.states[n + 1];
    forall i | 0 <= i < |s.events|
      ensures Step(s.states[i], s.events[i], s.states[i + 1], c)
    {
      assert s.states[i] == r.states[i] && s.events[i] == r.events[i] && s.states[i + 1] == r.states[i + 1];
    }
  }

  /** On every run of the server a session is in the table exactly as long as its upload queue is open. */
  lemma {:induction false} RunKeepsInv(r: Run, token: S.Name, c: Config)
    requires IsRun(r, token, c)
    ensures Inv(Last(r), c)
    decreases |r.events|
  {
    if |r.events| > 0 {
      ShorterIsRun(r, token, c);
      RunKeepsInv(Shorter(r), token, c);
      StepKeepsInv(Last(Shorter(r)), r.events[|r.events| - 1], Last(r), c);
    }
  }

  // ---------- One session among many ----------

  /** What an event is for the upload side of session `sid`, if anything. */
  function UploadEvents(s: Server, e: Event, s': Server, sid: S.Name): seq<U.Event> {
    match e
    case TableEvent(_) => if sid in s.table.sessions && sid !in s'.table.sessions then [U.Shut] else []
    case Post(id, n, body) => if id == sid then [U.Post(n, body)] else []
    case Ask(id) => if id == sid then [U.Ask] else []
    case Resume(id, _) => if id == sid then [U.Resume] else []
    case SawNull(_) => []
  }

  lemma UploadStep(s: Server, e: Event, s': Server, c: Config, sid: S.Name)
    requires Step(s, e, s', c) && sid in s.uploads
    ensures sid in s'.uploads && |UploadEvents(s, e, s', sid)| <= 1
    ensures if UploadEvents(s, e, s', sid) == [] then s'.uploads[sid] == s.uploads[sid]
            else U.Step(s.uploads[sid], UploadEvents(s, e, s', sid)[0], s'.uploads[sid])
  {
  }

  lemma UploadBegins(s: Server, e: Event, s': Server, c: Config, sid: S.Name)
    requires Step(s, e, s', c) && sid !in s.uploads && sid in s'.uploads
    ensures s'.uploads[sid] == U.Init(c.maxBuffered)
  {
  }

  /** Every post of the run to `sid` is one of the client's, under its own number. */
  ghost predicate FromClient(events: seq<Event>, sid: S.Name, bodies: seq<bytes>) {
    forall e :: e in events && e.Post? && e.sid == sid ==> e.seqNo < |bodies| && e.body == bodies[e.seqNo]
  }

  lemma FromClientPrefix(events: seq<Event>, sid: S.Name, bodies: seq<bytes>, n: nat)
    requires FromClient(events, sid, bodies) && n <= |events|
    ensures FromClient(events[..n], sid, bodies)
  {
  }

  /** Every post of the run to `sid` is among `posts`. */
  ghost predicate Covers(posts: seq<U.Event>, events: seq<Event>, sid: S.Name) {
    forall e :: e in events && e.Post? && e.sid == sid ==> U.Post(e.seqNo, e.body) in posts
  }

  /** The drain started by the last post to `sid` that came in order, if there was one, met no obstacle. */
  ghost predicate LastDrainUnblocked(r: Run, sid: S.Name)
    requires |r.states| == |r.events| + 1
    decreases |r.events|
  {
    if |r.events| == 0 then true
    else
      var s, e := Last(Shorter(r)), r.events[|r.events| - 1];
      if e.Post? && e.sid == sid && sid in s.uploads && InOrder(s.uploads[sid], e.seqNo, e.body)
      then Runs.Unblocked(R.Deliver(s.uploads[sid].queue, e.body))
      else LastDrainUnblocked(Shorter(r), sid)
  }

  predicate InOrder(u: U.Session, n: nat, body: bytes) {
    U.Accepted(body) && !u.queue.closed && n == |u.queue.delivered|
  }

  lemma UploadsStay(s: Server, e: Event, s': Server, c: Config, sid: S.Name)
    requires Step(s, e, s', c) && sid !in s'.uploads
    ensures sid !in s.uploads
  {
  }

  lemma NoPostYet(s: Server, e: Event, s': Server, c: Config, sid: S.Name)
    requires Step(s, e, s', c) && sid !in s.uploads
    ensures !(e.Post? && e.sid == sid)
  {
  }

  /** Before a session is created there is no post to it and no drain. */
  lemma {:induction false} NoPostsYet(r: Run, token: S.Name, c: Config, sid: S.Name)
    requires IsRun(r, token, c) && sid !in Last(r).uploads
    ensures Covers([], r.events, sid)
    decreases |r.events|
  {
    if |r.events| > 0 {
      ShorterIsRun(r, token, c);
      var s, e, s' := Last(Shorter(r)), r.events[|r.events| - 1], Last(r);
      UploadsStay(s, e, s', c, sid);
      NoPostYet(s, e, s', c, sid);
      NoPostsYet(Shorter(r), token, c, sid);
      assert r.events == Shorter(r).events + [e];
    }
  }

  lemma {:induction false} NoDrainYet(r: Run, token: S.Name, c: Config, sid: S.Name)
    requires IsRun(r, token, c) && sid !in Last(r).uploads
    ensures LastDrainUnblocked(r, sid)
    decreases |r.events|
  {
    if |r.events| > 0 {
      ShorterIsRun(r, token, c);
      UploadsStay(Last(Shorter(r)), r.events[|r.events| - 1], Last(r), c, sid);
      NoDrainYet(Shorter(r), token, c, sid);
    }
  }

  lemma Extend(u: E.Run, limit: nat, e: U.Event, next: U.Session, bodies: seq<bytes>) returns (v: E.Run)
    requires E.IsRun(u, limit) && U.Step(E.Last(u), e, next) && E.FromClient(u.events, bodies)
    requires e.Post? ==> e.seqNo < |bodies| && e.body == bodies[e.seqNo]
    ensures E.IsRun(v, limit) && E.Last(v) == next && E.FromClient(v.events, bodies)
    ensures v.events == u.events + [e]
    ensures E.LastDrainUnblocked(v) <==>
            if e.Post? && InOrder(E.Last(u), e.seqNo, e.body) then Runs.Unblocked(R.Deliver(E.Last(u).queue, e.body))
            else E.LastDrainUnblocked(u)
  {
    v := E.Run(u.states + [next], u.events + [e]);
    assert E.Shorter(v) == u;
  }

  /** Among all other sessions, the upload side of one session makes a run of its own. */
  lemma {:induction false} UploadRun(r: Run, token: S.Name, c: Config, sid: S.Name, bodies: seq<bytes>)
    returns (u: E.Run)
    requires IsRun(r, token, c) && sid in Last(r).uploads && FromClient(r.events, sid, bodies)
    ensures E.IsRun(u, c.maxBuffered) && E.Last(u) == Last(r).uploads[sid] && E.FromClient(u.events, bodies)
    ensures Covers(u.events, r.events, sid)
    ensures E.LastDrainUnblocked(u) <==> LastDrainUnblocked(r, sid)
    decreases |r.events|
  {
    ShorterIsRun(r, token, c);
    var s, e, s' := Last(Shorter(r)), r.events[|r.events| - 1], Last(r);
    assert r.events == Shorter(r).events + [e];
    if sid !in s.uploads {
      UploadBegins(s, e, s', c, sid);
      NoPostsYet(Shorter(r), token, c, sid);
      NoDrainYet(Shorter(r), token, c, sid);
      u := E.Run([U.Init(c.maxBuffered)], []);
    } else {
      FromClientPrefix(r.events, sid, bodies, |r.events| - 1);
      u := UploadRun(Shorter(r), token, c, sid, bodies);
      UploadStep(s, e, s', c, sid);
      var es := UploadEvents(s, e, s', sid);
      if es != [] {
        assert e in r.events;
        u := Extend(u, c.maxBuffered, es[0], s'.uploads[sid], bodies);
      }
    }
  }

  ghost predicate AllPosted(events: seq<Event>, sid: S.Name, bodies: seq<bytes>) {
    forall n :: 0 <= n < |bodies| ==> Post(sid, n, bodies[n]) in events
  }

  /**
   In the whole server: of a listed session whose posts have all arrived and whose loop is at rest, `onFrame` has seen
   everything its client said if and only if the drain of its last in-order post was unblocked.
   */
  lemma EverySessionIsHeardIff(r: Run, token: S.Name, c: Config, sid: S.Name,
                               chunks: seq<seq<P.Frame>>, bodies: seq<bytes>)
    requires IsRun(r, token, c) && sid in Last(r).table.sessions && sid in Last(r).uploads
    requires E.Bodies(chunks, bodies) && FromClient(r.events, sid, bodies) && AllPosted(r.events, sid, bodies)
    requires !U.CanAsk(Last(r).uploads[sid]) && !U.CanResume(Last(r).uploads[sid])
    ensures Last(r).uploads[sid].frames == E.Flatten(chunks) <==> LastDrainUnblocked(r, sid)
  {
    RunKeepsInv(r, token, c);
    var u := UploadRun(r, token, c, sid, bodies);
    forall n | 0 <= n < |bodies|
      ensures U.Post(n, bodies[n]) in u.events
    {
      assert Post(sid, n, bodies[n]) in r.events;
    }
    E.OnFrameSeesEverythingIff(u, c.maxBuffered, chunks, bodies);
  }

  /**
   In the whole server, with any number of sessions, takeovers, timeouts and overflows: what `onFrame` has seen of a
   session is a prefix of what its client said, and exactly the frames of the posts its consume loop has handled.
   */
  lemma EverySessionIsHeardInOrder(r: Run, token: S.Name, c: Config, sid: S.Name,
                                   chunks: seq<seq<P.Frame>>, bodies: seq<bytes>)
    requires IsRun(r, token, c) && sid in Last(r).uploads
    requires E.Bodies(chunks, bodies) && FromClient(r.events, sid, bodies)
    ensures Last(r).uploads[sid].frames <= E.Flatten(chunks)
    ensures Last(r).uploads[sid].queue.delivered <= bodies
    ensures Last(r).uploads[sid].processed <= |bodies|
    ensures Last(r).uploads[sid].frames == U.FramesOfAll(bodies[..Last(r).uploads[sid].processed])
  {
    var u := UploadRun(r, token, c, sid, bodies);
    E.OnFrameSeesAPrefix(u, c.maxBuffered, chunks, bodies);
    E.LoopFollowsDeliveries(u, c.maxBuffered);
    var q := E.DeliveredBodies(u, c.maxBuffered, bodies);
    var s := Last(r).uploads[sid];
    assert s.queue.delivered[..s.processed] == bodies[..s.processed];
  }
}
