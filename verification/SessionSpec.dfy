/** The session table of tunnel/xhttpHandler.js as a state machine: each handler or timer firing is one step. */
module SessionSpec {
  import opened Bytes

  /** Session ids, token hashes and client ids are opaque; `NO_NAME` is the empty string. */
  type Name = nat

  const NO_NAME: Name := 0

  /**
   A session. An SSE response is identified by the `order` number it received when it was opened, so
   `online` with `order == n` says that `sseRes` is the response opened as number n.
   */
  datatype Session = Session(
    clientId: Name, token: Name, online: bool, order: nat, lastActivityAt: int,
    cleanupArmed: bool, keepaliveArmed: bool, probeArmed: bool, pingAttempts: nat)

  /** `token` is the one computed from the current credentials. */
  datatype Table = Table(sessions: map<Name, Session>, byToken: map<Name, set<Name>>, order: nat, token: Name)

  datatype Config = Config(takeoverGraceMs: int, livenessTimeoutMs: int)

  const MAX_PROBES := 10

  datatype Event =
    | Create(sid: Name, clientId: Name, now: int)
    | Stream(sid: Name, token: Name, clientId: Name)
    | SseClosed(sid: Name, order: nat)
    | CloseRequest(sid: Name, token: Name)
    | CleanupFired(sid: Name)
    | KeepaliveFired(sid: Name, writable: bool)
    | ProbeFired(sid: Name, writable: bool)
    | FrameArrived(sid: Name, now: int)
    | QueueClosed(sid: Name)    // its upload queue refused a post, or answered the consume loop with null
    | Sweep(now: int)
    | SetCredentials(token: Name)
    | CloseEverything

  // ---------- Steps ----------

  /** The table without some sessions; tokens left without a session disappear. */
  function CloseSet(t: Table, gone: set<Name>): Table {
    t.(sessions := t.sessions - gone,
       byToken := map tok | tok in t.byToken && t.byToken[tok] - gone != {} :: t.byToken[tok] - gone)
  }

  function Existing(t: Table): set<Name> {
    if t.token in t.byToken then t.byToken[t.token] else {}
  }

  /** Sessions of the same client that never opened, or lost, their stream. */
  function Zombies(t: Table, clientId: Name): set<Name> {
    set sid | sid in Existing(t) && sid in t.sessions && t.sessions[sid].clientId == clientId && !t.sessions[sid].online
  }

  function Foreign(t: Table, clientId: Name): set<Name> {
    set sid | sid in Existing(t) && sid in t.sessions && t.sessions[sid].clientId != clientId
  }

  predicate AllStale(t: Table, sids: set<Name>, now: int, c: Config) {
    forall sid :: sid in sids && sid in t.sessions ==> now - t.sessions[sid].lastActivityAt > c.takeoverGraceMs
  }

  function NewSession(clientId: Name, token: Name, now: int): Session {
    Session(clientId, token, false, 0, now, true, false, false, 0)
  }

  function Insert(t: Table, sid: Name, clientId: Name, now: int): Table {
    t.(sessions := t.sessions[sid := NewSession(clientId, t.token, now)],
       byToken := t.byToken[t.token := Existing(t) + {sid}])
  }

  function CreateStatus(t: Table, clientId: Name, now: int, c: Config): nat {
    if clientId == NO_NAME then 400
    else if Foreign(t, clientId) != {} && !AllStale(t, Foreign(t, clientId), now, c) then 409
    else 200
  }

  /** Every other client that holds the current token has been silent for longer than the grace period. */
  predicate TokenIsFree(t: Table, clientId: Name, now: int, c: Config) {
    forall a :: a in t.sessions && t.sessions[a].token == t.token && t.sessions[a].clientId != clientId ==>
                  now - t.sessions[a].lastActivityAt > c.takeoverGraceMs
  }

  function AfterCreate(t: Table, sid: Name, clientId: Name, now: int, c: Config): Table {
    if clientId == NO_NAME then t
    else
      var cleared := CloseSet(t, Zombies(t, clientId));
      if CreateStatus(t, clientId, now, c) == 409 then cleared
      else Insert(CloseSet(cleared, Foreign(t, clientId)), sid, clientId, now)
  }

  function StreamStatus(t: Table, sid: Name, token: Name, clientId: Name): nat {
    if token == NO_NAME || sid == NO_NAME then 400
    else if token != t.token then 401
    else if sid !in t.sessions then 404
    else if t.sessions[sid].clientId != NO_NAME && clientId != t.sessions[sid].clientId then 403
    else 200
  }

  function AfterStream(t: Table, sid: Name, token: Name, clientId: Name): Table {
    if StreamStatus(t, sid, token, clientId) != 200 then t
    else
      t.(order := t.order + 1,
         sessions := t.sessions[sid := t.sessions[sid].(
           online := true, order := t.order + 1, cleanupArmed := false, keepaliveArmed := true)])
  }

  function Offline(s: Session): Session {
    s.(online := false, probeArmed := false, keepaliveArmed := false, cleanupArmed := true)
  }

  function CloseStatus(t: Table, sid: Name, token: Name): nat {
    if token == NO_NAME || token != t.token then 401
    else if sid !in t.sessions then 404
    else if t.sessions[sid].token != token then 403
    else 200
  }

  /** `_sendProbePing`: counts a ping and arms both timers, unless the stream cannot be written. */
  function SendProbe(s: Session, writable: bool): Session {
    if !s.online || !writable then s
    else s.(pingAttempts := s.pingAttempts + 1, probeArmed := true, keepaliveArmed := true)
  }

  /** The keepalive timer: it only pings when no ping is outstanding. */
  function Keepalive(s: Session, writable: bool): Session {
    var fired := s.(keepaliveArmed := false);
    if !s.online || !writable then fired
    else if s.pingAttempts > 0 then fired.(keepaliveArmed := true)
    else SendProbe(fired, writable)
  }

  /** The probe timer gives up, closing the session, after `MAX_PROBES` pings. */
  predicate GivesUp(s: Session) {
    s.online && s.pingAttempts >= MAX_PROBES
  }

  function Probe(s: Session, writable: bool): Session {
    var fired := s.(probeArmed := false);
    if !s.online || s.pingAttempts == 0 then fired else SendProbe(fired, writable)
  }

  function Alive(s: Session, now: int): Session {
    s.(lastActivityAt := now, pingAttempts := 0, probeArmed := false)
  }

  function Idle(t: Table, now: int, c: Config): set<Name> {
    set sid | sid in t.sessions && t.sessions[sid].online && now - t.sessions[sid].lastActivityAt > c.livenessTimeoutMs
  }

  /** A timer fires only while it is armed, and a new session has an unused id. */
  predicate Enabled(t: Table, e: Event) {
    match e
    case Create(sid, _, _) => sid !in t.sessions
    case CleanupFired(sid) => sid in t.sessions && t.sessions[sid].cleanupArmed
    case KeepaliveFired(sid, _) => sid in t.sessions && t.sessions[sid].keepaliveArmed
    case ProbeFired(sid, _) => sid in t.sessions && t.sessions[sid].probeArmed
    case _ => true
  }

  function After(t: Table, e: Event, c: Config): Table
    requires Enabled(t, e)
  {
    match e
    case Create(sid, clientId, now) => AfterCreate(t, sid, clientId, now, c)
    case Stream(sid, token, clientId) => AfterStream(t, sid, token, clientId)
    case SseClosed(sid, order) =>
      if sid in t.sessions && t.sessions[sid].online && t.sessions[sid].order == order
      then t.(sessions := t.sessions[sid := Offline(t.sessions[sid])]) else t
    case CloseRequest(sid, token) => if CloseStatus(t, sid, token) == 200 then CloseSet(t, {sid}) else t
    case CleanupFired(sid) => if t.sessions[sid].online then t else CloseSet(t, {sid})
    case KeepaliveFired(sid, w) => t.(sessions := t.sessions[sid := Keepalive(t.sessions[sid], w)])
    case ProbeFired(sid, w) =>
      if GivesUp(t.sessions[sid]) then CloseSet(t, {sid})
      else t.(sessions := t.sessions[sid := Probe(t.sessions[sid], w)])
    case FrameArrived(sid, now) =>
      if sid in t.sessions then t.(sessions := t.sessions[sid := Alive(t.sessions[sid], now)]) else t
    case QueueClosed(sid) => CloseSet(t, {sid})
    case Sweep(now) => CloseSet(t, Idle(t, now, c))
    case SetCredentials(token) => t.(token := token)
    case CloseEverything => CloseSet(t, t.sessions.Keys)
  }

  /** The reasons for which a step ends session `sid`, whose record is `s`. */
  predicate Closes(t: Table, e: Event, c: Config, s: Session, sid: Name) {
    match e
    case Create(_, clientId, now) =>
      CreateStatus(t, clientId, now, c) == 200 && s.token == t.token && (s.clientId != clientId || !s.online)
    case CloseRequest(id, token) => id == sid && token != NO_NAME && token == s.token == t.token
    case CleanupFired(id) => id == sid
    case ProbeFired(id, _) => id == sid && s.pingAttempts == MAX_PROBES
    case QueueClosed(id) => id == sid
    case Sweep(now) => s.online && now - s.lastActivityAt > c.livenessTimeoutMs
    case CloseEverything => true
    case _ => false
  }

  // ---------- Invariants ----------

  /** Both tables index the same sessions, and no token is left without one. */
  ghost predicate Indexed(t: Table) {
    && (forall tok :: tok in t.byToken ==> t.byToken[tok] != {})
    && (forall sid :: sid in t.sessions ==>
                        t.sessions[sid].token in t.byToken && sid in t.byToken[t.sessions[sid].token])
    && (forall tok, sid :: tok in t.byToken && sid in t.byToken[tok] ==>
                             sid in t.sessions && t.sessions[sid].token == tok)
  }

  /** All sessions of a token belong to one client. */
  ghost predicate SingleOwner(t: Table) {
    forall a, b :: a in t.sessions && b in t.sessions && t.sessions[a].token == t.sessions[b].token ==>
                     t.sessions[a].clientId == t.sessions[b].clientId
  }

  /** Streams are numbered in the order they were opened, without repetition. */
  ghost predicate Ordered(t: Table) {
    && (forall a :: a in t.sessions ==>
                      t.sessions[a].order <= t.order && (t.sessions[a].online ==> t.sessions[a].order > 0))
    && (forall a, b :: a in t.sessions && b in t.sessions && t.sessions[a].order == t.sessions[b].order > 0 ==> a == b)
  }

  predicate TimersFit(s: Session) {
    && s.clientId != NO_NAME
    && (s.cleanupArmed <==> !s.online)
    && (s.keepaliveArmed ==> s.online)
    && s.pingAttempts <= MAX_PROBES
    && (s.probeArmed ==> s.online && 1 <= s.pingAttempts)
  }

  ghost predicate Timed(t: Table) {
    forall a :: a in t.sessions ==> TimersFit(t.sessions[a])
  }

  ghost predicate Inv(t: Table) {
    Indexed(t) && SingleOwner(t) && Ordered(t) && Timed(t)
  }

  function Empty(token: Name): Table {
    Table(map[], map[], 0, token)
  }
}

/** What holds on every run of the session table. */
module SessionTheorems {
  import opened SessionSpec

  lemma CloseSetKeepsInv(t: Table, gone: set<Name>)
    requires Inv(t)
    ensures Inv(CloseSet(t, gone))
  {
    var u := CloseSet(t, gone);
    forall sid | sid in u.sessions
      ensures u.sessions[sid].token in u.byToken && sid in u.byToken[u.sessions[sid].token]
    {
      assert sid in t.byToken[t.sessions[sid].token] - gone;
    }
  }

  /** Closing two sets one after the other is closing their union. */
  lemma CloseSetTwice(t: Table, a: set<Name>, b: set<Name>)
    ensures CloseSet(CloseSet(t, a), b) == CloseSet(t, a + b)
  {
    var u, v := CloseSet(CloseSet(t, a), b), CloseSet(t, a + b);
    assert u.sessions == v.sessions;
    forall tok | tok in t.byToken
      ensures t.byToken[tok] - a - b == t.byToken[tok] - (a + b)
    {
    }
    assert u.byToken == v.byToken;
  }

  lemma CloseNothing(t: Table)
    requires Indexed(t)
    ensures CloseSet(t, {}) == t
  {
    assert t.sessions - {} == t.sessions;
    assert forall tok :: tok in t.byToken ==> t.byToken[tok] - {} == t.byToken[tok];
    assert CloseSet(t, {}).byToken == t.byToken;
  }

  lemma StillThere(t: Table, gone: set<Name>, sid: Name)
    requires sid in t.sessions && sid !in gone
    ensures sid in CloseSet(t, gone).sessions && CloseSet(t, gone).sessions[sid] == t.sessions[sid]
  {
  }

  lemma InsertIndexes(t: Table, sid: Name, clientId: Name, now: int)
    requires Indexed(t) && sid !in t.sessions
    ensures Indexed(Insert(t, sid, clientId, now))
  {
    var u := Insert(t, sid, clientId, now);
    forall tok, s | tok in u.byToken && s in u.byToken[tok]
      ensures s in u.sessions && u.sessions[s].token == tok
    {
    }
  }

  lemma InsertHasOneOwner(t: Table, sid: Name, clientId: Name, now: int)
    requires SingleOwner(t) && sid !in t.sessions
    requires forall a :: a in t.sessions && t.sessions[a].token == t.token ==> t.sessions[a].clientId == clientId
    ensures SingleOwner(Insert(t, sid, clientId, now))
  {
  }

  lemma InsertIsOrdered(t: Table, sid: Name, clientId: Name, now: int)
    requires Ordered(t) && sid !in t.sessions
    ensures Ordered(Insert(t, sid, clientId, now))
  {
  }

  lemma InsertIsTimed(t: Table, sid: Name, clientId: Name, now: int)
    requires Timed(t) && clientId != NO_NAME
    ensures Timed(Insert(t, sid, clientId, now))
  {
  }

  lemma InsertKeepsInv(t: Table, sid: Name, clientId: Name, now: int)
    requires Inv(t) && sid !in t.sessions && clientId != NO_NAME
    requires forall a :: a in t.sessions && t.sessions[a].token == t.token ==> t.sessions[a].clientId == clientId
    ensures Inv(Insert(t, sid, clientId, now))
  {
    InsertIndexes(t, sid, clientId, now);
    InsertHasOneOwner(t, sid, clientId, now);
    InsertIsOrdered(t, sid, clientId, now);
    InsertIsTimed(t, sid, clientId, now);
  }

  lemma CreateKeepsInv(t: Table, sid: Name, clientId: Name, now: int, c: Config)
    requires Inv(t) && sid !in t.sessions
    ensures Inv(AfterCreate(t, sid, clientId, now, c))
  {
    if clientId != NO_NAME {
      var cleared := CloseSet(t, Zombies(t, clientId));
      var u := CloseSet(cleared, Foreign(t, clientId));
      CloseSetKeepsInv(t, Zombies(t, clientId));
      CloseSetKeepsInv(cleared, Foreign(t, clientId));
      if CreateStatus(t, clientId, now, c) == 200 {
        forall a | a in u.sessions && u.sessions[a].token == u.token
          ensures u.sessions[a].clientId == clientId
        {
          assert a in Existing(t);
        }
        InsertKeepsInv(u, sid, clientId, now);
      }
    }
  }

  /** A refused takeover changes nothing: when another client holds the token, there is no own zombie to clear. */
  lemma RefusedCreateChangesNothing(t: Table, sid: Name, clientId: Name, now: int, c: Config)
    requires Inv(t) && CreateStatus(t, clientId, now, c) != 200
    ensures AfterCreate(t, sid, clientId, now, c) == t
  {
    if clientId != NO_NAME {
      var f :| f in Foreign(t, clientId);
      assert Zombies(t, clientId) == {} by {
        forall z | z in Zombies(t, clientId)
          ensures false
        {
        }
      }
      CloseNothing(t);
    }
  }

  /** The three answers to a create; the new session is listed exactly on 200. */
  lemma CreateAnswers(t: Table, sid: Name, clientId: Name, now: int, c: Config)
    requires Inv(t) && sid !in t.sessions
    ensures CreateStatus(t, clientId, now, c) ==
            if clientId == NO_NAME then 400 else if TokenIsFree(t, clientId, now, c) then 200 else 409
    ensures sid in AfterCreate(t, sid, clientId, now, c).sessions <==>
            clientId != NO_NAME && TokenIsFree(t, clientId, now, c)
  {
    forall a | a in t.sessions
      ensures a in Foreign(t, clientId) <==> t.sessions[a].token == t.token && t.sessions[a].clientId != clientId
    {
      assert a in Existing(t) <==> t.sessions[a].token == t.token;
    }
    if clientId != NO_NAME && CreateStatus(t, clientId, now, c) != 200 {
      RefusedCreateChangesNothing(t, sid, clientId, now, c);
    }
  }

  /** What an accepted create closes: own sessions without a stream, and foreign ones past the grace period. */
  lemma CreateCloses(t: Table, sid: Name, clientId: Name, now: int, c: Config, a: Name)
    requires Inv(t) && sid !in t.sessions && CreateStatus(t, clientId, now, c) == 200 && a in t.sessions
    ensures var u := AfterCreate(t, sid, clientId, now, c);
            var s := t.sessions[a];
            && (a in u.sessions <==> s.token != t.token || (s.clientId == clientId && s.online))
            && (a in u.sessions ==> u.sessions[a] == s)
            && (s.token == t.token && s.clientId != clientId ==> now - s.lastActivityAt > c.takeoverGraceMs)
  {
    var gone := Zombies(t, clientId) + Foreign(t, clientId);
    CloseSetTwice(t, Zombies(t, clientId), Foreign(t, clientId));
    var u := AfterCreate(t, sid, clientId, now, c);
    assert u.sessions == (t.sessions - gone)[sid := NewSession(clientId, t.token, now)];
    assert a in Existing(t) <==> t.sessions[a].token == t.token;
    assert a in Foreign(t, clientId) <==> t.sessions[a].token == t.token && t.sessions[a].clientId != clientId;
  }

  /** After an accepted create the token belongs to the new client alone. */
  lemma CreateTakesOver(t: Table, sid: Name, clientId: Name, now: int, c: Config)
    requires Inv(t) && sid !in t.sessions && CreateStatus(t, clientId, now, c) == 200
    ensures var u := AfterCreate(t, sid, clientId, now, c);
            && sid in u.sessions && u.sessions[sid] == NewSession(clientId, t.token, now)
            && t.token in u.byToken && sid in u.byToken[t.token]
            && forall a :: a in u.byToken[t.token] ==> a in u.sessions && u.sessions[a].clientId == clientId
  {
    CreateKeepsInv(t, sid, clientId, now, c);
    var u := AfterCreate(t, sid, clientId, now, c);
    assert u.sessions[sid] == NewSession(clientId, t.token, now);
  }

  /** Replacing one session's record, keeping its identity, keeps the tables and the owner. */
  lemma UpdateKeepsInv(t: Table, sid: Name, s: Session)
    requires Inv(t) && sid in t.sessions && TimersFit(s)
    requires s.clientId == t.sessions[sid].clientId && s.token == t.sessions[sid].token
    requires s.order == t.sessions[sid].order && (s.online ==> s.order > 0)
    ensures Inv(t.(sessions := t.sessions[sid := s]))
  {
  }

  lemma StreamKeepsInv(t: Table, sid: Name, token: Name, clientId: Name)
    requires Inv(t)
    ensures Inv(AfterStream(t, sid, token, clientId))
  {
  }

  /** The steps that change one session's record. */
  lemma RecordStepKeepsInv(t: Table, e: Event, c: Config)
    requires Inv(t) && Enabled(t, e)
    requires e.SseClosed? || e.KeepaliveFired? || e.FrameArrived? || (e.ProbeFired? && !GivesUp(t.sessions[e.sid]))
    ensures Inv(After(t, e, c))
  {
    if e.sid in t.sessions {
      var s := t.sessions[e.sid];
      match e {
        case SseClosed(sid, order) =>
          if s.online {
            UpdateKeepsInv(t, sid, Offline(s));
          }
        case KeepaliveFired(sid, w) => UpdateKeepsInv(t, sid, Keepalive(s, w));
        case ProbeFired(sid, w) => UpdateKeepsInv(t, sid, Probe(s, w));
        case FrameArrived(sid, now) => UpdateKeepsInv(t, sid, Alive(s, now));
      }
    }
  }

  lemma StepKeepsInv(t: Table, e: Event, c: Config)
    requires Inv(t) && Enabled(t, e)
    ensures Inv(After(t, e, c))
  {
    match e {
      case Create(sid, clientId, now) => CreateKeepsInv(t, sid, clientId, now, c);
      case Stream(sid, token, clientId) => StreamKeepsInv(t, sid, token, clientId);
      case SseClosed(sid, order) => RecordStepKeepsInv(t, e, c);
      case CloseRequest(sid, token) => CloseSetKeepsInv(t, {sid});
      case CleanupFired(sid) => CloseSetKeepsInv(t, {sid});
      case KeepaliveFired(sid, w) => RecordStepKeepsInv(t, e, c);
      case ProbeFired(sid, w) =>
        if GivesUp(t.sessions[sid]) {
          CloseSetKeepsInv(t, {sid});
        } else {
          RecordStepKeepsInv(t, e, c);
        }
      case FrameArrived(sid, now) => RecordStepKeepsInv(t, e, c);
      case QueueClosed(sid) => CloseSetKeepsInv(t, {sid});
      case Sweep(now) => CloseSetKeepsInv(t, Idle(t, now, c));
      case SetCredentials(token) =>
      case CloseEverything => CloseSetKeepsInv(t, t.sessions.Keys);
    }
  }

  ghost predicate IsRun(states: seq<Table>, events: seq<Event>, token: Name, c: Config) {
    && |states| == |events| + 1
    && states[0] == Empty(token)
    && forall i :: 0 <= i < |events| ==>
                     Enabled(states[i], events[i]) && states[i + 1] == After(states[i], events[i], c)
  }

  /** On every run: one owner per token, two tables that agree, numbered streams and timers that fit. */
  lemma {:induction false} RunKeepsInv(states: seq<Table>, events: seq<Event>, token: Name, c: Config, i: nat)
    requires IsRun(states, events, token, c) && i < |states|
    ensures Inv(states[i])
  {
    if i > 0 {
      RunKeepsInv(states, events, token, c, i - 1);
      StepKeepsInv(states[i - 1], events[i - 1], c);
    }
  }

  // ---------- What can happen to a session ----------

  /** A step ends a session exactly for one of these reasons; takeover by another client only past its grace period. */
  lemma ClosedForAReason(t: Table, e: Event, c: Config, sid: Name)
    requires Inv(t) && Enabled(t, e) && sid in t.sessions
    ensures var s := t.sessions[sid];
            && (sid !in After(t, e, c).sessions <==> Closes(t, e, c, s, sid))
            && (Closes(t, e, c, s, sid) && e.Create? && s.clientId != e.clientId ==>
                  e.now - s.lastActivityAt > c.takeoverGraceMs)
            && (Closes(t, e, c, s, sid) && e.CleanupFired? ==> !s.online)
            && (Closes(t, e, c, s, sid) && e.ProbeFired? ==> s.online)
  {
    if e.Create? && CreateStatus(t, e.clientId, e.now, c) == 200 {
      CreateCloses(t, e.sid, e.clientId, e.now, c, sid);
    } else if e.Create? {
      RefusedCreateChangesNothing(t, e.sid, e.clientId, e.now, c);
    }
  }

  /** A session that survives a step keeps owner and token; only its owner, with the current token, opens a stream. */
  lemma OnlyTheOwnerOpens(t: Table, e: Event, c: Config, sid: Name)
    requires Inv(t) && Enabled(t, e) && sid in t.sessions && sid in After(t, e, c).sessions
    ensures var s, s' := t.sessions[sid], After(t, e, c).sessions[sid];
            && s'.clientId == s.clientId && s'.token == s.token
            && (s'.online && (!s.online || s'.order != s.order) <==>
                e == Stream(sid, t.token, s.clientId) && t.token != NO_NAME && sid != NO_NAME)
            && (s'.order != s.order ==> forall other :: other in t.sessions ==> s'.order > t.sessions[other].order)
            && (s.online && !s'.online ==> e == SseClosed(sid, s.order))
            && (s'.lastActivityAt != s.lastActivityAt ==> e == FrameArrived(sid, s'.lastActivityAt))
  {
    if e.Create? && CreateStatus(t, e.clientId, e.now, c) == 200 {
      CreateCloses(t, e.sid, e.clientId, e.now, c, sid);
    } else if e.Create? {
      RefusedCreateChangesNothing(t, e.sid, e.clientId, e.now, c);
    }
  }

  /** New credentials close nothing, and lock out whoever still uses the old token. */
  lemma OldTokenIsLockedOut(t: Table, token: Name, c: Config, sid: Name, clientId: Name)
    requires token != t.token && t.token != NO_NAME && sid != NO_NAME
    ensures var u := After(t, SetCredentials(token), c);
            && u.sessions == t.sessions && u.byToken == t.byToken && u.token == token
            && StreamStatus(u, sid, t.token, clientId) == 401 && CloseStatus(u, sid, t.token) == 401
            && forall other :: CloseStatus(u, other, token) == 200 ==> u.sessions[other].token == token
  {
  }

  // ---------- The active session ----------

  function Online(t: Table): set<Name> {
    set sid | sid in t.sessions && t.sessions[sid].online
  }

  /** The stream opened last. */
  ghost predicate IsActive(t: Table, sid: Name) {
    && sid in Online(t)
    && forall other :: other in Online(t) ==> t.sessions[other].order <= t.sessions[sid].order
  }

  /** A stream that opens makes its session the active one, whatever was active before. */
  lemma OpenedIsActive(t: Table, sid: Name, token: Name, clientId: Name)
    requires Inv(t) && StreamStatus(t, sid, token, clientId) == 200
    ensures IsActive(AfterStream(t, sid, token, clientId), sid)
  {
  }

  /** There is exactly one active session if any stream is open. */
  lemma ActiveIsUnique(t: Table, a: Name, b: Name)
    requires Inv(t) && IsActive(t, a) && IsActive(t, b)
    ensures a == b
  {
    assert t.sessions[a].order == t.sessions[b].order;
  }
}
