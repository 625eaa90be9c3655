/** The handlers and timer callbacks of tunnel/xhttpHandler.js on its two session tables. */
module XhttpHandlers {
  import opened Bytes
  import opened SessionSpec
  import opened SessionTheorems
  import opened Protocol
  import U = UploadSpec
  import UploadSessions

  lemma OneLess(all: set<Name>, todo: set<Name>, sid: Name)
    requires sid in todo
    ensures all - (todo - {sid}) == if sid in all then (all - todo) + {sid} else all - todo
    ensures |all - (todo - {sid})| == |all - todo| + if sid in all then 1 else 0
  {
  }

  /** The table after a client was heard at `now`, or not. */
  function Heard(t: Table, sid: Name, now: int, heard: bool, c: Config): Table {
    if heard then After(t, FrameArrived(sid, now), c) else t
  }

  /** Being heard again at the same time changes nothing. */
  lemma HeardTwice(t: Table, sid: Name, now: int, heard: bool, c: Config)
    ensures Heard(Heard(t, sid, now, heard, c), sid, now, true, c) == Heard(t, sid, now, true, c)
  {
    if heard && sid in t.sessions {
      var s := Alive(t.sessions[sid], now);
      assert t.sessions[sid := s][sid := s] == t.sessions[sid := s];
    }
  }

  class XhttpHandler {
    var sessions: map<Name, Session>
    var tokenSessions: map<Name, set<Name>>
    var sessionOrder: nat
    var token: Name
    const config: Config

    ghost function State(): Table
      reads this
    {
      Table(sessions, tokenSessions, sessionOrder, token)
    }

    ghost predicate Valid()
      reads this
    {
      Inv(State())
    }

    constructor (token: Name, config: Config)
      ensures Valid() && State() == Empty(token) && this.config == config
    {
      sessions, tokenSessions, sessionOrder := map[], map[], 0;
      this.token, this.config := token, config;
    }

    method CloseSession(sid: Name)
      requires Valid()
      modifies this
      ensures Valid() && State() == CloseSet(old(State()), {sid})
    {
      ghost var t := State();
      CloseSetKeepsInv(t, {sid});
      if sid !in sessions {
        assert CloseSet(t, {sid}).sessions == t.sessions;
        assert forall tok :: tok in t.byToken ==> t.byToken[tok] - {sid} == t.byToken[tok];
        assert CloseSet(t, {sid}).byToken == t.byToken;
        return;
      }
      var tok := sessions[sid].token;
      sessions := sessions - {sid};
      if tok in tokenSessions {
        var rest := tokenSessions[tok] - {sid};
        if rest == {} {
          tokenSessions := tokenSessions - {tok};
        } else {
          tokenSessions := tokenSessions[tok := rest];
        }
      }
      assert forall o :: o in t.byToken && o != tok ==> t.byToken[o] - {sid} == t.byToken[o];
      assert tokenSessions == CloseSet(t, {sid}).byToken;
    }

    method CloseSessions(sids: set<Name>)
      requires Valid()
      modifies this
      ensures Valid() && State() == CloseSet(old(State()), sids)
    {
      var todo := sids;
      CloseNothing(State());
      assert sids - todo == {};
      while todo != {}
        invariant todo <= sids && Valid() && State() == CloseSet(old(State()), sids - todo)
        decreases todo
      {
        var sid :| sid in todo;
        CloseSetTwice(old(State()), sids - todo, {sid});
        CloseSession(sid);
        assert sids - todo + {sid} == sids - (todo - {sid});
        todo := todo - {sid};
      }
      assert sids - {} == sids;
    }

    /** POST /create once the credentials are accepted; `sid` is the fresh random id. */
    method HandleCreate(sid: Name, clientId: Name, now: int) returns (status: nat)
      requires Valid() && sid !in sessions
      modifies this
      ensures Valid() && State() == AfterCreate(old(State()), sid, clientId, now, config)
      ensures status == CreateStatus(old(State()), clientId, now, config)
      ensures status == if clientId == NO_NAME then 400
                        else if TokenIsFree(old(State()), clientId, now, config) then 200 else 409
      ensures status == 200 <==> sid in sessions
    {
      ghost var t := State();
      CreateKeepsInv(t, sid, clientId, now, config);
      CreateAnswers(t, sid, clientId, now, config);
      if clientId == NO_NAME {
        return 400;
      }
      var foreign := ClearZombies(clientId);
      if foreign != {} {
        var stale := forall f :: f in foreign ==> now - sessions[f].lastActivityAt > config.takeoverGraceMs;
        if !stale {
          return 409;
        }
      }
      CloseSetKeepsInv(State(), foreign);
      CloseSessions(foreign);
      InsertSession(sid, clientId, now);
      return 200;
    }

    /** The new session in both tables. */
    method InsertSession(sid: Name, clientId: Name, now: int)
      modifies this
      ensures State() == Insert(old(State()), sid, clientId, now)
    {
      sessions := sessions[sid := NewSession(clientId, token, now)];
      if token !in tokenSessions {
        tokenSessions := tokenSessions[token := {}];
      }
      tokenSessions := tokenSessions[token := tokenSessions[token] + {sid}];
      assert State().byToken == Insert(old(State()), sid, clientId, now).byToken;
    }

    /** Own sessions without a stream are closed, foreign ones are collected. */
    method ClearZombies(clientId: Name) returns (foreign: set<Name>)
      requires Valid()
      modifies this
      ensures Valid() && State() == CloseSet(old(State()), Zombies(old(State()), clientId))
      ensures foreign == Foreign(old(State()), clientId) && foreign <= sessions.Keys
      ensures forall f :: f in foreign ==> sessions[f] == old(sessions)[f]
    {
      ghost var t := State();
      ghost var zombies := Zombies(t, clientId);
      var existing := if token in tokenSessions then tokenSessions[token] else {};
      assert existing <= sessions.Keys;
      ghost var all := Foreign(t, clientId);
      foreign := VisitExisting(clientId, existing, zombies, all);
      forall f | f in foreign
        ensures f in CloseSet(t, zombies).sessions && CloseSet(t, zombies).sessions[f] == t.sessions[f]
      {
      }
    }

    method VisitOne(clientId: Name, sid: Name, ghost t: Table, ghost closed: set<Name>) returns (other: bool)
      requires Valid() && State() == CloseSet(t, closed) && sid in t.sessions && sid !in closed
      modifies this
      ensures Valid() && other == (t.sessions[sid].clientId != clientId)
      ensures State() == CloseSet(t, if !other && !t.sessions[sid].online then closed + {sid} else closed)
    {
      StillThere(t, closed, sid);
      other := sessions[sid].clientId != clientId;
      if !other && !sessions[sid].online {
        CloseSetTwice(t, closed, {sid});
        CloseSession(sid);
      }
    }

    /** The loop over the sessions already there. */
    method VisitExisting(clientId: Name, existing: set<Name>, ghost zombies: set<Name>, ghost all: set<Name>)
      returns (foreign: set<Name>)
      requires Valid() && existing <= sessions.Keys && zombies <= existing && all <= existing
      requires forall sid :: sid in existing ==>
                               && (sid in all <==> sessions[sid].clientId != clientId)
                               && (sid in zombies <==> sessions[sid].clientId == clientId && !sessions[sid].online)
      modifies this
      ensures Valid() && State() == CloseSet(old(State()), zombies) && foreign == all
    {
      ghost var t := State();
      var todo := existing;
      foreign := {};
      CloseNothing(t);
      ghost var closed: set<Name> := {};
      while todo != {}
        invariant todo <= existing && closed == zombies - todo && foreign == all - todo
        invariant Valid() && State() == CloseSet(t, closed)
        decreases todo
      {
        var sid :| sid in todo;
        var other := VisitOne(clientId, sid, t, closed);
        if other {
          foreign := foreign + {sid};
        }
        closed := if sid in zombies then closed + {sid} else closed;
        OneLess(zombies, todo, sid);
        OneLess(all, todo, sid);
        todo := todo - {sid};
      }
      assert closed == zombies;
    }

    /** GET /stream. */
    method HandleStream(sid: Name, token: Name, clientId: Name) returns (status: nat)
      requires Valid()
      modifies this
      ensures Valid() && State() == AfterStream(old(State()), sid, token, clientId)
      ensures status == StreamStatus(old(State()), sid, token, clientId)
      ensures status == 200 <==> && token == this.token != NO_NAME && sid != NO_NAME
                                 && sid in old(sessions) && clientId == old(sessions)[sid].clientId
      ensures status == 400 <==> token == NO_NAME || sid == NO_NAME
      ensures status == 401 <==> token != NO_NAME && sid != NO_NAME && token != this.token
      ensures status == 403 <==> && token == this.token != NO_NAME && sid != NO_NAME
                                 && sid in old(sessions) && clientId != old(sessions)[sid].clientId
      ensures status in {200, 400, 401, 403, 404}
    {
      ghost var t := State();
      StreamKeepsInv(t, sid, token, clientId);
      if token == NO_NAME || sid == NO_NAME {
        return 400;
      }
      if token != this.token {
        return 401;
      }
      if sid !in sessions {
        return 404;
      }
      var session := sessions[sid];
      if session.clientId != NO_NAME && clientId != session.clientId {
        return 403;
      }
      session := session.(cleanupArmed := false);
      sessionOrder := sessionOrder + 1;
      session := session.(online := true, order := sessionOrder);
      session := session.(keepaliveArmed := true);
      sessions := sessions[sid := session];
      assert State() == AfterStream(t, sid, token, clientId);
      return 200;
    }

    /** The response opened as number `order` closed; a response already replaced is ignored. */
    method HandleSseClose(sid: Name, order: nat)
      requires Valid()
      modifies this
      ensures Valid() && State() == After(old(State()), SseClosed(sid, order), config)
    {
      StepKeepsInv(State(), SseClosed(sid, order), config);
      if sid in sessions && sessions[sid].online && sessions[sid].order == order {
        var session := sessions[sid].(probeArmed := false, online := false);
        session := session.(keepaliveArmed := false);
        if !session.cleanupArmed {
          session := session.(cleanupArmed := true);
        }
        sessions := sessions[sid := session];
      }
    }

    /** POST /close. */
    method HandleClose(sid: Name, token: Name) returns (status: nat)
      requires Valid()
      modifies this
      ensures Valid() && State() == After(old(State()), CloseRequest(sid, token), config)
      ensures status == CloseStatus(old(State()), sid, token)
      ensures status == 200 <==> && token == this.token != NO_NAME
                                 && sid in old(sessions) && old(sessions)[sid].token == token
      ensures status == 401 <==> token == NO_NAME || token != this.token
      ensures status == 404 <==> token == this.token != NO_NAME && sid !in old(sessions)
      ensures sessions == if status == 200 then old(sessions) - {sid} else old(sessions)
    {
      if token == NO_NAME || token != this.token {
        return 401;
      }
      if sid !in sessions {
        return 404;
      }
      if sessions[sid].token != token {
        return 403;
      }
      CloseSession(sid);
      return 200;
    }

    /** Sessions made under the old credentials stay until their streams close. */
    method SetCredentials(token: Name)
      requires Valid()
      modifies `token
      ensures Valid() && State() == After(old(State()), Event.SetCredentials(token), config)
    {
      StepKeepsInv(State(), Event.SetCredentials(token), config);
      this.token := token;
    }

    method CleanupTimeout(sid: Name)
      requires Valid() && Enabled(State(), CleanupFired(sid))
      modifies this
      ensures Valid() && State() == After(old(State()), CleanupFired(sid), config)
    {
      if !sessions[sid].online {
        CloseSession(sid);
      }
    }

    method KeepaliveTimeout(sid: Name, writable: bool)
      requires Valid() && Enabled(State(), KeepaliveFired(sid, writable))
      modifies this
      ensures Valid() && State() == After(old(State()), KeepaliveFired(sid, writable), config)
    {
      UpdateKeepsInv(State(), sid, Keepalive(sessions[sid], writable));
      var session := sessions[sid].(keepaliveArmed := false);
      if session.online && writable {
        if session.pingAttempts > 0 {
          session := session.(keepaliveArmed := true);
        } else {
          session := session.(pingAttempts := session.pingAttempts + 1);
          session := session.(probeArmed := true, keepaliveArmed := true);
        }
      }
      assert session == Keepalive(sessions[sid], writable);
      sessions := sessions[sid := session];
    }

    method ProbeTimeout(sid: Name, writable: bool)
      requires Valid() && Enabled(State(), ProbeFired(sid, writable))
      modifies this
      ensures Valid() && State() == After(old(State()), ProbeFired(sid, writable), config)
    {
      ghost var t := State();
      StepKeepsInv(t, ProbeFired(sid, writable), config);
      if sessions[sid].online && sessions[sid].pingAttempts >= MAX_PROBES {
        CloseSession(sid);
        return;
      }
      var session := sessions[sid].(probeArmed := false);
      if session.online && session.pingAttempts > 0 && writable {
        session := session.(pingAttempts := session.pingAttempts + 1);
        session := session.(probeArmed := true, keepaliveArmed := true);
      }
      sessions := sessions[sid := session];
    }

    method SweepStaleSessions(now: int)
      requires Valid()
      modifies this
      ensures Valid() && State() == After(old(State()), Sweep(now), config)
    {
      var idle := set sid | sid in sessions && sessions[sid].online
                            && now - sessions[sid].lastActivityAt > config.livenessTimeoutMs;
      CloseSessions(idle);
    }

    /** Any decoded frame is a sign of life of its session, if that is still open. */
    method FrameHandled(sid: Name, now: int)
      requires Valid()
      modifies this
      ensures Valid() && State() == After(old(State()), FrameArrived(sid, now), config)
    {
      StepKeepsInv(State(), FrameArrived(sid, now), config);
      if sid in sessions {
        var session := sessions[sid].(lastActivityAt := now);
        session := session.(pingAttempts := 0, probeArmed := false);
        sessions := sessions[sid := session];
      }
    }

    /**
     POST /upload once the body is complete, on the session object found when the request came; that session may
     have left the table since.
     */
    method HandleUpload(sid: Name, n: nat, body: bytes, upload: UploadSessions.UploadSession) returns (status: nat)
      requires Valid() && upload.Valid()
      modifies this, upload.queue
      ensures Valid() && upload.queue.Valid() && U.Step(old(upload.State()), U.Post(n, body), upload.State())
      ensures status == 503 <==> U.Accepted(body) && U.Refuses(old(upload.queue.State()), n)
      ensures State() == if status == 503 then After(old(State()), QueueClosed(sid), config) else old(State())
    {
      status := upload.HandleUpload(n, body);
      if status == 503 {
        CloseSession(sid);
      }
    }

    /** One decoded frame: a sign of life of its session, if that is still open, and handed on. */
    method HandleFrame(sid: Name, upload: UploadSessions.UploadSession, f: Frame, now: int)
      requires Valid()
      modifies this, upload
      ensures Valid() && State() == After(old(State()), FrameArrived(sid, now), config)
      ensures sid in old(sessions) ==> && sid in sessions && sessions[sid].lastActivityAt == now
                                       && sessions[sid].pingAttempts == 0 && !sessions[sid].probeArmed
      ensures upload.frames == old(upload.frames) + [f] && upload.processed == old(upload.processed)
      ensures upload.lastPing ==
              if f.Pong? && old(upload.lastPing) == Some(f.payload) then None else old(upload.lastPing)
    {
      FrameHandled(sid, now);
      upload.HandOn(f);
    }

    /** The frames of one payload, one after the other; none of a payload that does not decode. */
    method HandleBatch(sid: Name, upload: UploadSessions.UploadSession, payload: bytes, now: int)
      requires Valid()
      modifies this, upload
      ensures Valid() && upload.frames == old(upload.frames) + U.FramesOf(payload)
      ensures DecodeFrames(payload).Err? ==> upload.frames == old(upload.frames)
      ensures DecodeFrames(payload).Ok? ==> upload.frames == old(upload.frames) + DecodeFrames(payload).value
      ensures upload.processed == old(upload.processed)
      ensures State() == Heard(old(State()), sid, now, U.FramesOf(payload) != [], config)
    {
      var decoded := DecodeFramesLoop(payload);
      if decoded.Err? {
        return;
      }
      var fs := decoded.value;
      for i := 0 to |fs|
        invariant Valid() && upload.frames == old(upload.frames) + fs[..i] && upload.processed == old(upload.processed)
        invariant State() == Heard(old(State()), sid, now, i > 0, config)
      {
        HeardTwice(old(State()), sid, now, i > 0, config);
        HandleFrame(sid, upload, fs[i], now);
      }
      assert fs[..|fs|] == fs;
    }

    /** The body of the consume loop after its read was answered with a payload. */
    method HandleAnswer(sid: Name, upload: UploadSessions.UploadSession, now: int)
      requires Valid() && upload.Valid() && U.CanResume(upload.State())
      modifies this, upload
      ensures Valid() && upload.Valid() && upload.State() == U.Handle(old(upload.State()))
      ensures State() == Heard(old(State()), sid, now, upload.frames != old(upload.frames), config)
    {
      ghost var before := upload.State();
      var payload := upload.Answered();
      HandleBatch(sid, upload, payload, now);
      upload.Done(before);
    }

    /** One turn of the consume loop: one more read, or one answered payload; else the loop is at rest. */
    method Turn(sid: Name, upload: UploadSessions.UploadSession, now: int) returns (goesOn: bool)
      requires Valid() && upload.Valid()
      modifies this, upload, upload.queue
      ensures Valid() && upload.Valid() && old(upload.frames) <= upload.frames
      ensures upload.queue.State() == old(upload.queue.State()).(asked := upload.queue.State().asked)
      ensures State() == Heard(old(State()), sid, now, upload.frames != old(upload.frames), config)
      ensures goesOn <==> old(U.CanAsk(upload.State()) || U.CanResume(upload.State()))
      ensures goesOn ==> U.Step(old(upload.State()), if old(U.CanAsk(upload.State())) then U.Ask else U.Resume,
                                upload.State())
      ensures !goesOn ==> upload.State() == old(upload.State())
      ensures goesOn ==> || upload.processed == old(upload.processed) + 1
                         || (upload.processed == old(upload.processed)
                             && |upload.queue.promises| == old(|upload.queue.promises|) + 1)
    {
      if |upload.queue.promises| == upload.processed {
        if upload.queue.closed {
          return false;
        }
        upload.AskNext();
        return true;
      }
      var promise := upload.queue.promises[upload.processed];
      if promise.Resolved? && promise.payload.Some? {
        HandleAnswer(sid, upload, now);
        return true;
      }
      return false;
    }

    /**
     The consume loop, from one suspension to the next: it runs until its read has no answer or the queue is closed.
     On a null answer the session, if still listed, is closed.
     */
    method Pump(sid: Name, upload: UploadSessions.UploadSession, now: int) returns (sawNull: bool)
      requires Valid() && upload.Valid()
      modifies this, upload, upload.queue
      ensures Valid() && upload.Valid() && !U.CanAsk(upload.State()) && !U.CanResume(upload.State())
      ensures upload.queue.State() == old(upload.queue.State()).(asked := upload.queue.State().asked)
      ensures !upload.queue.closed ==> upload.processed == |upload.queue.delivered|
      ensures sawNull <==> U.SeesNull(upload.State())
      ensures var heard := Heard(old(State()), sid, now, upload.frames != old(upload.frames), config);
              State() == if sawNull then After(heard, QueueClosed(sid), config) else heard
    {
      var goesOn := true;
      while goesOn
        invariant Valid() && upload.Valid() && old(upload.frames) <= upload.frames
        invariant upload.queue.State() == old(upload.queue.State()).(asked := upload.queue.State().asked)
        invariant State() == Heard(old(State()), sid, now, upload.frames != old(upload.frames), config)
        invariant !goesOn ==> !U.CanAsk(upload.State()) && !U.CanResume(upload.State())
        decreases goesOn, |upload.queue.delivered| - upload.processed, upload.processed + 1 - |upload.queue.promises|
      {
        HeardTwice(old(State()), sid, now, upload.frames != old(upload.frames), config);
        goesOn := Turn(sid, upload, now);
      }
      sawNull := IsNullNext(upload);
      if sawNull {
        HandleNull(sid);
      }
    }

    /** The read that the loop waits for was answered with null. */
    method IsNullNext(upload: UploadSessions.UploadSession) returns (isNull: bool)
      requires upload.Valid() && !U.CanResume(upload.State())
      ensures isNull <==> U.SeesNull(upload.State())
    {
      isNull := |upload.queue.promises| > upload.processed && upload.queue.promises[upload.processed].Resolved?;
    }

    /** The close of the session that the consume loop makes on a null answer. */
    method HandleNull(sid: Name)
      requires Valid()
      modifies this
      ensures Valid() && State() == After(old(State()), QueueClosed(sid), config)
    {
      CloseSession(sid);
    }

    method CloseAll()
      requires Valid()
      modifies this
      ensures Valid() && State() == After(old(State()), CloseEverything, config)
      ensures sessions == map[] && tokenSessions == map[]
    {
      CloseSessions(sessions.Keys);
      assert forall tok :: tok in tokenSessions ==> exists sid :: sid in tokenSessions[tok];
    }

    /** The loop over all sessions for the open stream with the greatest number. */
    method GetActiveSessionId() returns (active: Option<Name>)
      requires Valid()
      ensures match active
              case Some(sid) => IsActive(State(), sid)
              case None => Online(State()) == {}
    {
      var latest: Option<Name> := None;
      var latestOrder := 0;
      var todo := sessions.Keys;
      while todo != {}
        invariant todo <= sessions.Keys
        invariant latest.None? ==> latestOrder == 0 && Online(State()) <= todo
        invariant latest.Some? ==> latest.value in Online(State()) && sessions[latest.value].order == latestOrder
        invariant forall sid :: sid in Online(State()) && sid !in todo ==> sessions[sid].order <= latestOrder
        decreases todo
      {
        var sid :| sid in todo;
        if sessions[sid].online && sessions[sid].order > latestOrder {
          latest, latestOrder := Some(sid), sessions[sid].order;
        }
        todo := todo - {sid};
      }
      return latest;
    }

    /** One active stream if any is open, all others draining. */
    method GetConnectionCounts() returns (active: nat, draining: nat, total: nat)
      requires Valid()
      ensures active == (if Online(State()) == {} then 0 else 1)
      ensures active + draining == |Online(State())| && total == |sessions|
    {
      var activeId := GetActiveSessionId();
      active, draining, total := CountSessions(activeId, Online(State()));
    }

    method CountSessions(activeId: Option<Name>, ghost online: set<Name>)
      returns (active: nat, draining: nat, total: nat)
      requires online <= sessions.Keys && forall sid :: sid in sessions ==> (sid in online <==> sessions[sid].online)
      requires activeId.Some? ==> activeId.value in online
      ensures active == (if activeId.None? then 0 else 1)
      ensures active + draining == |online| && total == |sessions|
    {
      active, draining, total := 0, 0, 0;
      var todo := sessions.Keys;
      while todo != {}
        invariant todo <= sessions.Keys
        invariant total == |sessions.Keys - todo| && active + draining == |online - todo|
        invariant active == if activeId.Some? && activeId.value !in todo then 1 else 0
        decreases todo
      {
        var sid :| sid in todo;
        total := total + 1;
        if sessions[sid].online {
          if activeId == Some(sid) {
            active := active + 1;
          } else {
            draining := draining + 1;
          }
        }
        OneLess(sessions.Keys, todo, sid);
        OneLess(online, todo, sid);
        todo := todo - {sid};
      }
      assert online - todo == online && sessions.Keys - todo == sessions.Keys;
    }
  }
}
