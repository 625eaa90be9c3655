/**
 The session server joined with the request table: a session that closes disconnects its requests
 (tunnel/server.js, proxy/proxy.js), and every frame that a consume loop handles goes to `handleFrame`.
 */
module ServiceSpec {
  import opened Bytes
  import P = Protocol
  import M = ManagerSpec
  import S = SessionSpec
  import ST = SessionTheorems
  import U = UploadSpec
  import V = ServerSpec
  import T = TunnelManagers

  datatype Config = Config(server: V.Config, requests: M.Config, isTunnelDomain: P.Address -> bool)

  datatype Service = Service(server: V.Server, requests: M.Table)

  datatype Event =
    | ServerEvent(event: V.Event)
    | Forward                         // a reverse request over the active session
    | RequestEvent(request: M.Event)    // stream ends, timeouts and socket events of requests

  function Init(token: S.Name): Service {
    Service(V.Init(token), M.Init())
  }

  // ---------- Frames ----------

  function EventOf(f: P.Frame, sid: S.Name, c: Config): Option<M.Event> {
    T.FrameEvent(f, sid, f.Connect? && c.isTunnelDomain(f.addr))
  }

  /** `handleFrame` for one frame of session `sid`. */
  function OnFrame(t: M.Table, f: P.Frame, sid: S.Name, c: Config): M.Table {
    match EventOf(f, sid, c)
    case Some(e) => M.After(t, e, c.requests)
    case None => t
  }

  function OnFrames(t: M.Table, fs: seq<P.Frame>, sid: S.Name, c: Config): M.Table {
    if fs == [] then t else OnFrame(OnFrames(t, fs[..|fs| - 1], sid, c), fs[|fs| - 1], sid, c)
  }

  /** The payload that the consume loop of `sid` handles next. */
  function NextFrames(s: V.Server, sid: S.Name): seq<P.Frame> {
    if sid in s.uploads && U.CanResume(s.uploads[sid])
    then U.FramesOf(s.uploads[sid].queue.delivered[s.uploads[sid].processed]) else []
  }

  function Received(s: Service, e: V.Event, c: Config): M.Table {
    if e.Resume? then OnFrames(s.requests, NextFrames(s.server, e.sid), e.sid, c) else s.requests
  }

  // ---------- Steps ----------

  function OfSessions(t: M.Table, gone: set<S.Name>): set<nat> {
    set r | r in t.active && t.active[r] < |t.entries| && t.entries[t.active[r]].session in gone
  }

  /** The requests of all sessions that a step closed are cleared. */
  function DisconnectAll(t: M.Table, gone: set<S.Name>): M.Table {
    M.Clear(t, OfSessions(t, gone))
  }

  function Gone(s: V.Server, s': V.Server): set<S.Name> {
    s.table.sessions.Keys - s'.table.sessions.Keys
  }

  ghost predicate Step(s: Service, e: Event, s': Service, c: Config) {
    match e
    case ServerEvent(ve) =>
      && V.Step(s.server, ve, s'.server, c.server)
      && s'.requests == DisconnectAll(Received(s, ve, c), Gone(s.server, s'.server))
    case Forward =>
      && s'.server == s.server
      && exists sid | ST.IsActive(s.server.table, sid) ::
           s'.requests == M.After(s.requests, M.OpenReverse(sid), c.requests)
    case RequestEvent(me) =>
      && (me.EndRequest? || me.Cleanup?)
      && s'.server == s.server && s'.requests == M.After(s.requests, me, c.requests)
  }

  ghost predicate Inv(s: Service, c: Config) {
    V.Inv(s.server, c.server) && M.Inv(s.requests, c.requests)
  }

  // ---------- Requests of closed sessions ----------

  /** Every request belongs to a session that is listed. */
  ghost predicate Clean(s: Service) {
    forall sid: S.Name :: sid !in s.server.table.sessions ==> Unnamed(s.requests, sid)
  }

  predicate Unnamed(t: M.Table, sid: S.Name) {
    M.OfSession(t, sid) == {}
  }

  /** Frame number `k` makes a request that is still live when all frames are handled. */
  predicate Leaves(t: M.Table, fs: seq<P.Frame>, sid: S.Name, c: Config, k: nat)
    requires k < |fs|
  {
    var before := OnFrames(t, fs[..k], sid, c);
    Connects(before, fs[k], sid, c) && M.Live(OnFrames(t, fs, sid, c), |before.entries|)
  }

  /** The frame is a CONNECT that is accepted. */
  predicate Connects(t: M.Table, f: P.Frame, sid: S.Name, c: Config) {
    EventOf(f, sid, c).Some? && M.Names(t, EventOf(f, sid, c).value, sid, c.requests)
  }

  /** The consume loop of a closed session handles a payload with a CONNECT that is accepted and not ended by it. */
  ghost predicate Strays(s: Service, e: Event, c: Config) {
    && e.ServerEvent? && e.event.Resume? && e.event.sid !in s.server.table.sessions
    && exists k :: 0 <= k < |NextFrames(s.server, e.event.sid)|
                   && Leaves(s.requests, NextFrames(s.server, e.event.sid), e.event.sid, c, k)
  }
}

module ServiceTheorems {
  import opened Bytes
  import opened ServiceSpec
  import P = Protocol
  import PT = ProtocolTheorems
  import M = ManagerSpec
  import MT = ManagerTheorems
  import S = SessionSpec
  import ST = SessionTheorems
  import U = UploadSpec
  import R = ReorderSpec
  import V = ServerSpec
  import VT = ServerTheorems
  import T = TunnelManagers

  // ---------- Frames ----------

  lemma OnFrameKeepsInv(t: M.Table, f: P.Frame, sid: S.Name, c: Config)
    requires M.Inv(t, c.requests)
    ensures M.Inv(OnFrame(t, f, sid, c), c.requests)
  {
    if EventOf(f, sid, c).Some? {
      MT.StepKeepsInv(t, EventOf(f, sid, c).value, c.requests);
    }
  }

  /** `handleFrame` on the table; a CONNECT to a tunnel domain makes no request. */
  lemma OnFrameEffect(t: M.Table, f: P.Frame, sid: S.Name, c: Config)
    requires M.Recorded(t)
    ensures f.CloseStream? || f.ConnectFailed? ==> OnFrame(t, f, sid, c).active == t.active - {f.reqid}
    ensures f.Connect? ==>
              OnFrame(t, f, sid, c).active ==
              if c.isTunnelDomain(f.addr) || t.forwardCount >= c.requests.maxForward then t.active
              else t.active[f.reqid := |t.entries|]
    ensures !f.CloseStream? && !f.ConnectFailed? && (f.Connect? ==> c.isTunnelDomain(f.addr)) ==>
              OnFrame(t, f, sid, c) == t
  {
    T.FrameEffect(t, f, sid, f.Connect? && c.isTunnelDomain(f.addr), c.requests);
  }

  lemma {:induction false} OnFramesKeepsInv(t: M.Table, fs: seq<P.Frame>, sid: S.Name, c: Config)
    requires M.Inv(t, c.requests)
    ensures M.Inv(OnFrames(t, fs, sid, c), c.requests)
    decreases |fs|
  {
    if fs != [] {
      OnFramesKeepsInv(t, fs[..|fs| - 1], sid, c);
      OnFrameKeepsInv(OnFrames(t, fs[..|fs| - 1], sid, c), fs[|fs| - 1], sid, c);
    }
  }

  /** Frames of one session make no request of another. */
  lemma OnFrameNamesOnlyItsOwn(t: M.Table, f: P.Frame, sid: S.Name, c: Config, other: S.Name)
    requires M.Recorded(t) && M.Recorded(OnFrame(t, f, sid, c)) && other != sid && Unnamed(t, other)
    ensures Unnamed(OnFrame(t, f, sid, c), other)
  {
    if EventOf(f, sid, c).Some? {
      MT.NamedNextIff(t, EventOf(f, sid, c).value, c.requests, other);
    }
  }

  lemma {:induction false} OnFramesNamesOnlyItsOwn(t: M.Table, fs: seq<P.Frame>, sid: S.Name, c: Config, other: S.Name)
    requires M.Inv(t, c.requests) && other != sid && Unnamed(t, other)
    ensures Unnamed(OnFrames(t, fs, sid, c), other)
    decreases |fs|
  {
    if fs != [] {
      OnFramesNamesOnlyItsOwn(t, fs[..|fs| - 1], sid, c, other);
      OnFramesKeepsInv(t, fs[..|fs| - 1], sid, c);
      OnFramesKeepsInv(t, fs, sid, c);
      OnFrameNamesOnlyItsOwn(OnFrames(t, fs[..|fs| - 1], sid, c), fs[|fs| - 1], sid, c, other);
    }
  }

  /** What one frame does to the live entries of its session. */
  lemma LiveOfFrame(t: M.Table, f: P.Frame, sid: S.Name, c: Config)
    requires M.Recorded(t)
    ensures var u := OnFrame(t, f, sid, c);
            && M.LiveOf(u, sid) == (set id | id in M.LiveOf(t, sid) && M.Live(u, id))
                                    + (if Connects(t, f, sid, c) then {|t.entries|} else {})
            && |t.entries| <= |u.entries| && (Connects(t, f, sid, c) ==> |u.entries| == |t.entries| + 1)
  {
    if EventOf(f, sid, c).Some? {
      MT.LiveOfNext(t, EventOf(f, sid, c).value, c.requests, sid);
    }
  }

  /** An old entry that is live after a frame was live before it. */
  lemma OldEntry(t: M.Table, f: P.Frame, sid: S.Name, c: Config, id: nat)
    requires M.Recorded(t) && id < |t.entries| && M.Live(OnFrame(t, f, sid, c), id)
    ensures M.Live(t, id)
  {
    if EventOf(f, sid, c).Some? {
      MT.OldEntries(t, EventOf(f, sid, c).value, c.requests, id);
    }
  }

  lemma {:induction false} EntriesGrow(t: M.Table, fs: seq<P.Frame>, sid: S.Name, c: Config, k: nat)
    requires M.Inv(t, c.requests) && k < |fs| && Connects(OnFrames(t, fs[..k], sid, c), fs[k], sid, c)
    ensures |OnFrames(t, fs[..k], sid, c).entries| < |OnFrames(t, fs, sid, c).entries|
    decreases |fs|
  {
    var rest, last := fs[..|fs| - 1], fs[|fs| - 1];
    OnFramesKeepsInv(t, rest, sid, c);
    LiveOfFrame(OnFrames(t, rest, sid, c), last, sid, c);
    if k < |fs| - 1 {
      assert rest[..k] == fs[..k];
      EntriesGrow(t, rest, sid, c, k);
    }
  }

  /** Some entry number `id` was made by a frame and is live in the end. */
  ghost predicate LeftAs(t: M.Table, fs: seq<P.Frame>, sid: S.Name, c: Config, id: nat) {
    exists k :: 0 <= k < |fs| && Leaves(t, fs, sid, c, k) && |OnFrames(t, fs[..k], sid, c).entries| == id
  }

  /** The live requests of a session that had none are those that its frames leave. */
  lemma {:induction false} LiveOfFrames(t: M.Table, fs: seq<P.Frame>, sid: S.Name, c: Config)
    requires M.Inv(t, c.requests) && Unnamed(t, sid)
    ensures forall id :: id in M.LiveOf(OnFrames(t, fs, sid, c), sid) <==> LeftAs(t, fs, sid, c, id)
    decreases |fs|
  {
    if fs == [] {
      MT.NoneNamedIff(t, sid);
    } else {
      var rest := fs[..|fs| - 1];
      LiveOfFrames(t, rest, sid, c);
      OnFramesKeepsInv(t, rest, sid, c);
      LiveOfFrame(OnFrames(t, rest, sid, c), fs[|fs| - 1], sid, c);
      forall id | id in M.LiveOf(OnFrames(t, fs, sid, c), sid)
        ensures LeftAs(t, fs, sid, c, id)
      {
        LeftNext(t, fs, sid, c, id);
      }
      forall id | LeftAs(t, fs, sid, c, id)
        ensures id in M.LiveOf(OnFrames(t, fs, sid, c), sid)
      {
        LeftIsLive(t, fs, sid, c, id);
      }
    }
  }

  lemma LeftNext(t: M.Table, fs: seq<P.Frame>, sid: S.Name, c: Config, id: nat)
    requires fs != [] && M.Inv(t, c.requests) && id in M.LiveOf(OnFrames(t, fs, sid, c), sid)
    requires id in M.LiveOf(OnFrames(t, fs[..|fs| - 1], sid, c), sid) ==> LeftAs(t, fs[..|fs| - 1], sid, c, id)
    ensures LeftAs(t, fs, sid, c, id)
  {
    var rest := fs[..|fs| - 1];
    var before := OnFrames(t, rest, sid, c);
    OnFramesKeepsInv(t, rest, sid, c);
    LiveOfFrame(before, fs[|fs| - 1], sid, c);
    if id in M.LiveOf(before, sid) {
      var k :| 0 <= k < |rest| && Leaves(t, rest, sid, c, k) && |OnFrames(t, rest[..k], sid, c).entries| == id;
      assert rest[..k] == fs[..k];
      assert Leaves(t, fs, sid, c, k);
    } else {
      assert Leaves(t, fs, sid, c, |fs| - 1);
    }
  }

  lemma LeftIsLive(t: M.Table, fs: seq<P.Frame>, sid: S.Name, c: Config, id: nat)
    requires fs != [] && M.Inv(t, c.requests) && LeftAs(t, fs, sid, c, id)
    requires LeftAs(t, fs[..|fs| - 1], sid, c, id) ==> id in M.LiveOf(OnFrames(t, fs[..|fs| - 1], sid, c), sid)
    ensures id in M.LiveOf(OnFrames(t, fs, sid, c), sid)
  {
    var rest := fs[..|fs| - 1];
    var before := OnFrames(t, rest, sid, c);
    OnFramesKeepsInv(t, rest, sid, c);
    LiveOfFrame(before, fs[|fs| - 1], sid, c);
    var k :| 0 <= k < |fs| && Leaves(t, fs, sid, c, k) && |OnFrames(t, fs[..k], sid, c).entries| == id;
    if k < |rest| {
      assert rest[..k] == fs[..k];
      EntriesGrow(t, rest, sid, c, k);
      OldEntry(before, fs[|fs| - 1], sid, c, id);
      assert Leaves(t, rest, sid, c, k);
    }
  }

  /** Handling a payload names a session that was not named iff some CONNECT of it is accepted and left live. */
  lemma NamedByFramesIff(t: M.Table, fs: seq<P.Frame>, sid: S.Name, c: Config)
    requires M.Inv(t, c.requests) && Unnamed(t, sid)
    ensures !Unnamed(OnFrames(t, fs, sid, c), sid) <==> exists k :: 0 <= k < |fs| && Leaves(t, fs, sid, c, k)
  {
    var u := OnFrames(t, fs, sid, c);
    OnFramesKeepsInv(t, fs, sid, c);
    MT.NoneNamedIff(u, sid);
    LiveOfFrames(t, fs, sid, c);
    if id :| id in M.LiveOf(u, sid) {
      assert LeftAs(t, fs, sid, c, id);
    }
    if k :| 0 <= k < |fs| && Leaves(t, fs, sid, c, k) {
      assert LeftAs(t, fs, sid, c, |OnFrames(t, fs[..k], sid, c).entries|);
    }
  }

  // ---------- Disconnects ----------

  lemma DisconnectAllEffect(t: M.Table, gone: set<S.Name>, c: M.Config, sid: S.Name)
    requires M.Inv(t, c)
    ensures M.Inv(DisconnectAll(t, gone), c)
    ensures sid in gone || Unnamed(t, sid) ==> Unnamed(DisconnectAll(t, gone), sid)
  {
    MT.ClearKeepsInv(t, OfSessions(t, gone), c);
    AllCleared(t, gone, sid);
  }

  lemma AllCleared(t: M.Table, gone: set<S.Name>, sid: S.Name)
    requires M.Recorded(t)
    ensures sid in gone || Unnamed(t, sid) ==> Unnamed(DisconnectAll(t, gone), sid)
  {
    var u := DisconnectAll(t, gone);
    forall r | r in u.active
      ensures u.entries[u.active[r]].session == t.entries[t.active[r]].session
      ensures t.entries[t.active[r]].session !in gone
      ensures r in M.OfSession(u, sid) ==> r in M.OfSession(t, sid)
    {
      MT.ClearSpares(t, OfSessions(t, gone), r);
    }
  }

  lemma NoneGone(t: M.Table)
    ensures DisconnectAll(t, {}) == t
  {
    assert OfSessions(t, {}) == {};
    T.ClearNothing(t);
  }

  lemma DroppedLater(t: M.Table, a: set<nat>, b: set<nat>)
    requires M.Recorded(t) && a !! b
    ensures M.Dropped(M.Clear(t, a), b) == M.Dropped(t, b)
  {
    var u := M.Clear(t, a);
    MT.ClearEffect(t, a);
    forall id: nat | id < |t.entries| && t.entries[id].reqid in b
      ensures M.Live(u, id) <==> M.Live(t, id)
      ensures u.entries[id].reqid == t.entries[id].reqid
      ensures id !in M.Dropped(t, a)
    {
    }
  }

  /** Clearing two sets of requests one after the other is clearing them together. */
  lemma ClearTwice(t: M.Table, a: set<nat>, b: set<nat>)
    requires M.Recorded(t) && a !! b
    ensures M.Clear(M.Clear(t, a), b) == M.Clear(t, a + b)
  {
    var d, e := M.Dropped(t, a), M.Dropped(t, b);
    DroppedLater(t, a, b);
    T.DroppedTogether(t, a, b);
    T.UncountTwice(t.entries, d, e);
    assert |d + e| == |d| + |e|;
    assert t.active - a - b == t.active - (a + b);
  }

  lemma StillOfSession(t: M.Table, gone: set<S.Name>, sid: S.Name)
    requires M.Recorded(t) && sid !in gone
    ensures M.OfSession(DisconnectAll(t, gone), sid) == M.OfSession(t, sid)
  {
    var u := DisconnectAll(t, gone);
    forall r | r in u.active
      ensures u.active[r] == t.active[r] && u.entries[u.active[r]].session == t.entries[t.active[r]].session
    {
      MT.ClearSpares(t, OfSessions(t, gone), r);
    }
  }

  /** The sessions that a step closes are disconnected one after the other; their order does not matter. */
  lemma DisconnectOneMore(t: M.Table, gone: set<S.Name>, sid: S.Name, c: M.Config)
    requires M.Recorded(t) && sid !in gone
    ensures M.After(DisconnectAll(t, gone), M.Disconnect(sid), c) == DisconnectAll(t, gone + {sid})
  {
    StillOfSession(t, gone, sid);
    assert OfSessions(t, gone + {sid}) == OfSessions(t, gone) + M.OfSession(t, sid);
    ClearTwice(t, OfSessions(t, gone), M.OfSession(t, sid));
  }

  // ---------- One step ----------

  lemma ServerStepKeepsInv(s: Service, e: Event, s': Service, c: Config)
    requires Inv(s, c) && e.ServerEvent? && Step(s, e, s', c)
    ensures Inv(s', c) && M.Inv(Received(s, e.event, c), c.requests)
  {
    VT.StepKeepsInv(s.server, e.event, s'.server, c.server);
    if e.event.Resume? {
      OnFramesKeepsInv(s.requests, NextFrames(s.server, e.event.sid), e.event.sid, c);
    }
    DisconnectAllEffect(Received(s, e.event, c), Gone(s.server, s'.server), c.requests, 0);
  }

  lemma StepKeepsInv(s: Service, e: Event, s': Service, c: Config)
    requires Inv(s, c) && Step(s, e, s', c)
    ensures Inv(s', c)
  {
    match e {
      case ServerEvent(ve) => ServerStepKeepsInv(s, e, s', c);
      case Forward =>
        var sid :| ST.IsActive(s.server.table, sid)
                   && s'.requests == M.After(s.requests, M.OpenReverse(sid), c.requests);
        MT.StepKeepsInv(s.requests, M.OpenReverse(sid), c.requests);
      case RequestEvent(me) => MT.StepKeepsInv(s.requests, me, c.requests);
    }
  }

  /** A reverse request goes to the open stream with the greatest number, and is live as long as the limit allows it. */
  lemma ForwardNamesActive(s: Service, s': Service, c: Config)
    requires Inv(s, c) && Step(s, Forward, s', c) && s.requests.reverseCount < c.requests.maxReverse
    ensures s'.server == s.server && |s'.requests.entries| == |s.requests.entries| + 1
    ensures M.Live(s'.requests, |s.requests.entries|)
    ensures var made := s'.requests.entries[|s.requests.entries|];
            made.direction == M.Reverse && ST.IsActive(s.server.table, made.session)
  {
  }

  /** A step of the server other than a resume leaves no request of an unlisted session. */
  lemma ServerStepIsClean(s: Service, e: Event, s': Service, c: Config, sid: S.Name)
    requires Inv(s, c) && Clean(s) && e.ServerEvent? && !e.event.Resume? && Step(s, e, s', c)
    requires sid !in s'.server.table.sessions
    ensures Unnamed(s'.requests, sid)
  {
    assert sid !in s.server.table.sessions ==> Unnamed(s.requests, sid);
    DisconnectAllEffect(s.requests, Gone(s.server, s'.server), c.requests, sid);
  }

  lemma ResumeStep(s: Service, sid: S.Name, now: int, s': Service, c: Config)
    requires Inv(s, c) && Step(s, ServerEvent(V.Resume(sid, now)), s', c)
    ensures s'.server.table.sessions.Keys == s.server.table.sessions.Keys
    ensures s'.requests == OnFrames(s.requests, NextFrames(s.server, sid), sid, c)
  {
    VT.ResumeKeepsInv(s.server, sid, now, s'.server, c.server);
    assert Gone(s.server, s'.server) == {};
    NoneGone(Received(s, V.Resume(sid, now), c));
  }

  lemma ResumeStraysIff(s: Service, sid: S.Name, now: int, s': Service, c: Config)
    requires Inv(s, c) && Clean(s) && Step(s, ServerEvent(V.Resume(sid, now)), s', c)
    ensures !Clean(s') <==> Strays(s, ServerEvent(V.Resume(sid, now)), c)
  {
    var e := ServerEvent(V.Resume(sid, now));
    ResumeStep(s, sid, now, s', c);
    forall other: S.Name | other !in s'.server.table.sessions && other != sid
      ensures Unnamed(s'.requests, other)
    {
      assert other !in s.server.table.sessions.Keys;
      OnFramesNamesOnlyItsOwn(s.requests, NextFrames(s.server, sid), sid, c, other);
    }
    assert sid in s'.server.table.sessions <==> sid in s.server.table.sessions.Keys;
    if sid !in s.server.table.sessions {
      assert Unnamed(s.requests, sid);
      NamedByFramesIff(s.requests, NextFrames(s.server, sid), sid, c);
    }
  }

  lemma StaysUnnamed(t: M.Table, e: M.Event, c: M.Config, sid: S.Name)
    requires M.Inv(t, c) && Unnamed(t, sid) && !M.Names(t, e, sid, c)
    ensures Unnamed(M.After(t, e, c), sid)
  {
    MT.StepKeepsInv(t, e, c);
    MT.NamedNextIff(t, e, c, sid);
  }

  /** The steps of the request table itself. */
  lemma RequestStepIsClean(s: Service, e: Event, s': Service, c: Config, sid: S.Name)
    requires Inv(s, c) && Clean(s) && !e.ServerEvent? && Step(s, e, s', c)
    requires sid !in s'.server.table.sessions
    ensures Unnamed(s'.requests, sid)
  {
    assert Unnamed(s.requests, sid);
    if e.Forward? {
      var active :| ST.IsActive(s.server.table, active)
                    && s'.requests == M.After(s.requests, M.OpenReverse(active), c.requests);
      StaysUnnamed(s.requests, M.OpenReverse(active), c.requests, sid);
    } else {
      StaysUnnamed(s.requests, e.request, c.requests, sid);
    }
  }

  /**
   When every request belongs to a listed session, a step changes that if and only if it is the consume loop of a
   closed session handling a payload with a CONNECT that is accepted and not ended by the same payload.
   */
  lemma StraysIff(s: Service, e: Event, s': Service, c: Config)
    requires Inv(s, c) && Clean(s) && Step(s, e, s', c)
    ensures !Clean(s') <==> Strays(s, e, c)
  {
    if e.ServerEvent? && e.event.Resume? {
      ResumeStraysIff(s, e.event.sid, e.event.now, s', c);
    } else {
      forall sid: S.Name | sid !in s'.server.table.sessions
        ensures Unnamed(s'.requests, sid)
      {
        if e.ServerEvent? {
          ServerStepIsClean(s, e, s', c, sid);
        } else {
          RequestStepIsClean(s, e, s', c, sid);
        }
      }
    }
  }

  // ---------- Runs ----------

  datatype Run = Run(states: seq<Service>, events: seq<Event>)

  ghost predicate IsRun(r: Run, token: S.Name, c: Config) {
    && |r.states| == |r.events| + 1 && r.states[0] == Init(token)
    && forall i :: 0 <= i < |r.events| ==> Follows(r, c, i)
  }

  ghost predicate Follows(r: Run, c: Config, i: nat) {
    i < |r.events| && i + 1 < |r.states| && Step(r.states[i], r.events[i], r.states[i + 1], c)
  }

  lemma InvAtFirst(token: S.Name, c: Config)
    ensures Inv(Init(token), c) && Clean(Init(token))
  {
    MT.InvAtFirst(c.requests);
    VT.RunKeepsInv(VT.Run([V.Init(token)], []), token, c.server);
  }

  lemma {:induction false} RunKeepsInv(r: Run, token: S.Name, c: Config, i: nat)
    requires IsRun(r, token, c) && i < |r.states|
    ensures Inv(r.states[i], c)
  {
    if i == 0 {
      InvAtFirst(token, c);
    } else {
      RunKeepsInv(r, token, c, i - 1);
      assert Follows(r, c, i - 1);
      StepKeepsInv(r.states[i - 1], r.events[i - 1], r.states[i], c);
    }
  }

  lemma CleanNextIff(r: Run, token: S.Name, c: Config, i: nat)
    requires IsRun(r, token, c) && i < |r.events| && Clean(r.states[i])
    ensures Clean(r.states[i + 1]) <==> !Strays(r.states[i], r.events[i], c)
  {
    RunKeepsInv(r, token, c, i);
    assert Follows(r, c, i);
    StraysIff(r.states[i], r.events[i], r.states[i + 1], c);
  }

  ghost predicate AlwaysClean(r: Run, n: nat)
    requires n <= |r.states|
  {
    forall i :: 0 <= i < n ==> Clean(r.states[i])
  }

  ghost predicate NeverStrays(r: Run, n: nat, c: Config)
    requires n <= |r.events| <= |r.states|
  {
    forall i :: 0 <= i < n ==> !Strays(r.states[i], r.events[i], c)
  }

  /** On every run each request belongs to a listed session at every point, iff no step so far was a stray one. */
  lemma {:induction false} AlwaysCleanIff(r: Run, token: S.Name, c: Config, n: nat)
    requires IsRun(r, token, c) && n < |r.states|
    ensures AlwaysClean(r, n + 1) <==> NeverStrays(r, n, c)
  {
    if n == 0 {
      InvAtFirst(token, c);
    } else {
      AlwaysCleanIff(r, token, c, n - 1);
      assert AlwaysClean(r, n + 1) <==> AlwaysClean(r, n) && Clean(r.states[n]);
      assert NeverStrays(r, n, c) <==> NeverStrays(r, n - 1, c) && !Strays(r.states[n - 1], r.events[n - 1], c);
      if AlwaysClean(r, n) {
        assert Clean(r.states[n - 1]);
        CleanNextIff(r, token, c, n - 1);
      }
    }
  }
}

/** A run in which a request is made for a session that is already closed. */
module ServiceRuns {
  import opened Bytes
  import opened ServiceSpec
  import opened ServiceTheorems
  import P = Protocol
  import PT = ProtocolTheorems
  import M = ManagerSpec
  import S = SessionSpec
  import U = UploadSpec
  import R = ReorderSpec
  import V = ServerSpec

  /** CONNECT to port 80 of the host "a", under the first id of the client. */
  function LateConnect(): P.Frame {
    P.Connect(M.FIRST_FORWARD_ID, P.Domain([97]), 80)
  }

  lemma LateBody() returns (body: bytes)
    ensures U.Accepted(body) && U.FramesOf(body) == [LateConnect()]
  {
    var f := LateConnect();
    body := P.EncodeFrame(f).value;
    assert PT.EncodeAll([f]) == Ok(body) by {
      assert [f][1..] == [] && PT.EncodeAll([]) == Ok([]) && body + [] == body;
    }
    assert PT.AllFit([f]);
    PT.BatchRoundTripIff([f]);
  }

  // ---------- The session server, step by step ----------

  /** Session 1 of client 5, listed or not, with an upload side. */
  function Created(limit: nat): V.Server {
    V.Server(S.Table(map[1 := S.NewSession(5, 7, 0)], map[7 := {1}], 0, 7), map[1 := U.Init(limit)])
  }

  function Asking(limit: nat): U.Session {
    U.Init(limit).(queue := R.Init(limit).(asked := 1))
  }

  function Posted(limit: nat, body: bytes): U.Session {
    Asking(limit).(queue := Asking(limit).queue.(delivered := [body]))
  }

  lemma CreateStep(c: V.Config)
    ensures V.Step(V.Init(7), V.TableEvent(S.Create(1, 5, 0)), Created(c.maxBuffered), c)
  {
    var t := S.After(S.Empty(7), S.Create(1, 5, 0), c.table);
    assert S.Existing(S.Empty(7)) + {1} == {1};
    assert t.sessions == map[1 := S.NewSession(5, 7, 0)] && t.byToken == map[7 := {1}];
    assert V.Follow(V.Init(7), t, c) == map[1 := U.Init(c.maxBuffered)];
  }

  lemma AskStep(c: V.Config)
    ensures var s := Created(c.maxBuffered);
            V.Step(s, V.Ask(1), s.(uploads := map[1 := Asking(c.maxBuffered)]), c)
  {
    var s := Created(c.maxBuffered);
    assert s.uploads[1 := Asking(c.maxBuffered)] == map[1 := Asking(c.maxBuffered)];
  }

  lemma PostStep(c: V.Config, body: bytes)
    requires U.Accepted(body)
    ensures var s := Created(c.maxBuffered);
            V.Step(s.(uploads := map[1 := Asking(c.maxBuffered)]), V.Post(1, 0, body),
                   s.(uploads := map[1 := Posted(c.maxBuffered, body)]), c)
  {
    var q := Asking(c.maxBuffered).queue;
    var d := R.Deliver(q, body);
    assert d == Posted(c.maxBuffered, body).queue;
    assert !R.CanDrain(d) && R.Drains(d, d);
    assert R.PushStep(q, 0, body, d, true);
    var s := map[1 := Asking(c.maxBuffered)];
    assert s[1 := Posted(c.maxBuffered, body)] == map[1 := Posted(c.maxBuffered, body)];
  }

  /** The same client creates a second session; the first, which never opened its stream, is closed. */
  function TakenOver(limit: nat, body: bytes): V.Server {
    V.Server(S.Table(map[2 := S.NewSession(5, 7, 0)], map[7 := {2}], 0, 7),
             map[1 := V.Shut(Posted(limit, body)), 2 := U.Init(limit)])
  }

  lemma TakeoverStep(c: V.Config, body: bytes)
    ensures V.Step(Created(c.maxBuffered).(uploads := map[1 := Posted(c.maxBuffered, body)]),
                   V.TableEvent(S.Create(2, 5, 0)), TakenOver(c.maxBuffered, body), c)
  {
    var s := Created(c.maxBuffered).(uploads := map[1 := Posted(c.maxBuffered, body)]);
    TakeoverTable(c.table);
    var u := TakenOver(c.maxBuffered, body);
    assert u.table == S.After(s.table, S.Create(2, 5, 0), c.table);
    assert V.Follow(s, u.table, c) == u.uploads;
  }

  lemma TakeoverTable(c: S.Config)
    ensures var t := S.Table(map[1 := S.NewSession(5, 7, 0)], map[7 := {1}], 0, 7);
            S.After(t, S.Create(2, 5, 0), c) == S.Table(map[2 := S.NewSession(5, 7, 0)], map[7 := {2}], 0, 7)
  {
    var t := S.Table(map[1 := S.NewSession(5, 7, 0)], map[7 := {1}], 0, 7);
    assert S.Zombies(t, 5) == {1} && S.Foreign(t, 5) == {};
    var cleared := S.CloseSet(t, {1});
    assert cleared.sessions == map[] && cleared.byToken == map[];
    var kept := S.CloseSet(cleared, {});
    assert kept.sessions == map[] && kept.byToken == map[];
    assert S.Existing(kept) + {2} == {2};
  }

  lemma LateResume(c: V.Config, body: bytes)
    requires U.Accepted(body) && U.FramesOf(body) == [LateConnect()]
    ensures var s := TakenOver(c.maxBuffered, body);
            var u := U.Handle(s.uploads[1]);
            V.Step(s, V.Resume(1, 0), s.(uploads := s.uploads[1 := u]), c)
  {
    var s := TakenOver(c.maxBuffered, body);
    assert S.After(s.table, S.FrameArrived(1, 0), c.table) == s.table;
  }

  // ---------- With the request table ----------

  /** As long as no request exists, none is disconnected. */
  lemma NothingToDisconnect(gone: set<S.Name>)
    ensures DisconnectAll(M.Init(), gone) == M.Init()
  {
    assert OfSessions(M.Init(), gone) == {};
    NoneGone(M.Init());
    assert OfSessions(M.Init(), {}) == {};
  }

  lemma QuietStep(s: V.Server, e: V.Event, s': V.Server, c: Config)
    requires V.Step(s, e, s', c.server) && !e.Resume?
    ensures Step(Service(s, M.Init()), ServerEvent(e), Service(s', M.Init()), c)
  {
    NothingToDisconnect(Gone(s, s'));
  }

  lemma LateStep(c: Config, body: bytes, s: V.Server, s': V.Server)
    requires !c.isTunnelDomain(P.Domain([97])) && c.requests.maxForward > 0
    requires U.Accepted(body) && U.FramesOf(body) == [LateConnect()]
    requires s == TakenOver(c.server.maxBuffered, body) && s' == s.(uploads := s.uploads[1 := U.Handle(s.uploads[1])])
    ensures var t := M.After(M.Init(), M.ConnectFrame(M.FIRST_FORWARD_ID, 1, false), c.requests);
            && Step(Service(s, M.Init()), ServerEvent(V.Resume(1, 0)), Service(s', t), c)
            && t.active == map[M.FIRST_FORWARD_ID := 0] && t.entries[0].session == 1
  {
    LateResume(c.server, body);
    assert NextFrames(s, 1) == [LateConnect()];
    assert [LateConnect()][..0] == [];
    var t := M.After(M.Init(), M.ConnectFrame(M.FIRST_FORWARD_ID, 1, false), c.requests);
    assert OnFrames(M.Init(), [], 1, c) == M.Init();
    assert Received(Service(s, M.Init()), V.Resume(1, 0), c) == t;
    assert Gone(s, s') == {};
    NoneGone(t);
  }

  lemma Extend(r: Run, c: Config, e: Event, next: Service) returns (s: Run)
    requires IsRun(r, 7, c) && Step(r.states[|r.events|], e, next, c)
    ensures IsRun(s, 7, c) && s.states == r.states + [next] && s.events == r.events + [e]
  {
    s := Run(r.states + [next], r.events + [e]);
    forall i | 0 <= i < |s.events|
      ensures Follows(s, c, i)
    {
      if i < |r.events| {
        assert Follows(r, c, i);
      }
    }
  }

  /** One more step of the session server while no request exists. */
  lemma ExtendQuietly(r: Run, c: Config, e: V.Event, s: V.Server, s': V.Server) returns (q: Run)
    requires IsRun(r, 7, c) && r.states[|r.events|] == Service(s, M.Init())
    requires V.Step(s, e, s', c.server) && !e.Resume?
    ensures IsRun(q, 7, c) && q.states == r.states + [Service(s', M.Init())] && q.events == r.events + [ServerEvent(e)]
  {
    QuietStep(s, e, s', c);
    q := Extend(r, c, ServerEvent(e), Service(s', M.Init()));
  }

  /** Up to the close of the first session. */
  lemma UntilTakeover(c: Config, body: bytes) returns (r: Run)
    requires U.Accepted(body)
    ensures IsRun(r, 7, c) && |r.states| == 5 && r.states[4] == Service(TakenOver(c.server.maxBuffered, body), M.Init())
    ensures r.events == [ServerEvent(V.TableEvent(S.Create(1, 5, 0))), ServerEvent(V.Ask(1)),
                         ServerEvent(V.Post(1, 0, body)), ServerEvent(V.TableEvent(S.Create(2, 5, 0)))]
  {
    var n := c.server.maxBuffered;
    var s1 := Created(n);
    var s2, s3 := s1.(uploads := map[1 := Asking(n)]), s1.(uploads := map[1 := Posted(n, body)]);
    CreateStep(c.server);
    AskStep(c.server);
    PostStep(c.server, body);
    TakeoverStep(c.server, body);
    r := Run([Init(7)], []);
    r := ExtendQuietly(r, c, V.TableEvent(S.Create(1, 5, 0)), V.Init(7), s1);
    r := ExtendQuietly(r, c, V.Ask(1), s1, s2);
    r := ExtendQuietly(r, c, V.Post(1, 0, body), s2, s3);
    r := ExtendQuietly(r, c, V.TableEvent(S.Create(2, 5, 0)), s3, TakenOver(n, body));
  }

  /**
   A client posts a CONNECT and creates a new session before the consume loop of the first has gone on: the first is
   closed and disconnected, and then its loop makes a request for it.
   */
  lemma LateConnectNamesClosedSession(c: Config) returns (r: Run, body: bytes)
    requires !c.isTunnelDomain(P.Domain([97])) && c.requests.maxForward > 0
    ensures IsRun(r, 7, c) && |r.states| == 6
    ensures r.events == [ServerEvent(V.TableEvent(S.Create(1, 5, 0))), ServerEvent(V.Ask(1)),
                         ServerEvent(V.Post(1, 0, body)), ServerEvent(V.TableEvent(S.Create(2, 5, 0))),
                         ServerEvent(V.Resume(1, 0))]
    ensures 1 !in r.states[4].server.table.sessions && Unnamed(r.states[4].requests, 1)
    ensures !Unnamed(r.states[5].requests, 1) && !Clean(r.states[5])
  {
    body := LateBody();
    r := UntilTakeover(c, body);
    var s4 := TakenOver(c.server.maxBuffered, body);
    var s5 := s4.(uploads := s4.uploads[1 := U.Handle(s4.uploads[1])]);
    var t := M.After(M.Init(), M.ConnectFrame(M.FIRST_FORWARD_ID, 1, false), c.requests);
    LateStep(c, body, s4, s5);
    r := Extend(r, c, ServerEvent(V.Resume(1, 0)), Service(s5, t));
    assert M.OfSession(M.Init(), 1) == {};
    assert M.FIRST_FORWARD_ID in M.OfSession(t, 1);
    assert 1 !in s5.table.sessions;
  }
}
