/**
 What the session table knows, said by the history of its events alone: when a client was last heard, and how many
 pings it has left unanswered.
 */
module SessionHistory {
  import opened SessionSpec
  import opened SessionTheorems

  /** When the client of `sid` was last heard: its creation counts, and every frame. */
  function LastHeard(events: seq<Event>, sid: Name): int {
    if events == [] then 0
    else
      var last := events[|events| - 1];
      if (last.FrameArrived? || last.Create?) && last.sid == sid then last.now
      else LastHeard(events[..|events| - 1], sid)
  }

  /** The pings written to `sid` since then: a first one by the keepalive timer, each further one by the probe timer. */
  function Unanswered(events: seq<Event>, sid: Name): nat {
    if events == [] then 0
    else
      var before := Unanswered(events[..|events| - 1], sid);
      match events[|events| - 1]
      case Create(id, _, _) => if id == sid then 0 else before
      case FrameArrived(id, _) => if id == sid then 0 else before
      case KeepaliveFired(id, writable) => if id == sid && writable && before == 0 then 1 else before
      case ProbeFired(id, writable) => if id == sid && writable then before + 1 else before
      case _ => before
  }

  // ---------- One step ----------

  /** Any frame is a sign of life: no attempt counts any more, no probe waits, and nothing else changes. */
  lemma FrameIsHeard(t: Table, sid: Name, now: int, c: Config)
    requires sid in t.sessions
    ensures var u, s := After(t, FrameArrived(sid, now), c), t.sessions[sid];
            && u.sessions.Keys == t.sessions.Keys && u.byToken == t.byToken && u.token == t.token
            && u.sessions[sid].pingAttempts == 0 && !u.sessions[sid].probeArmed && u.sessions[sid].lastActivityAt == now
            && u.sessions[sid].keepaliveArmed == s.keepaliveArmed && u.sessions[sid].online == s.online
            && forall other :: other in t.sessions && other != sid ==> u.sessions[other] == t.sessions[other]
  {
  }

  /** A session that appears was created now; a create that is refused or closes others changes no record that stays. */
  lemma CreatedOrKept(t: Table, e: Event, c: Config, sid: Name)
    requires Inv(t) && Enabled(t, e) && e.Create? && sid in After(t, e, c).sessions
    ensures if sid in t.sessions then sid != e.sid && After(t, e, c).sessions[sid] == t.sessions[sid]
            else sid == e.sid && After(t, e, c).sessions[sid] == NewSession(e.clientId, t.token, e.now)
  {
    if CreateStatus(t, e.clientId, e.now, c) == 200 {
      if sid in t.sessions {
        CreateCloses(t, e.sid, e.clientId, e.now, c, sid);
      } else {
        CreateTakesOver(t, e.sid, e.clientId, e.now, c);
      }
    } else {
      RefusedCreateChangesNothing(t, e.sid, e.clientId, e.now, c);
    }
  }

  /** Activity and attempts after a step. */
  lemma StepIsHistory(t: Table, e: Event, c: Config, sid: Name, before: nat)
    requires Inv(t) && Enabled(t, e) && sid in After(t, e, c).sessions
    requires sid in t.sessions ==> before == t.sessions[sid].pingAttempts
    ensures var s' := After(t, e, c).sessions[sid];
            && (sid !in t.sessions ==> e.Create? && e.sid == sid)
            && ((e.Create? || e.FrameArrived?) && e.sid == sid ==> s'.pingAttempts == 0 && s'.lastActivityAt == e.now)
            && (sid in t.sessions && !(e.FrameArrived? && e.sid == sid) ==>
                  && !(e.Create? && e.sid == sid) && s'.lastActivityAt == t.sessions[sid].lastActivityAt
                  && s'.pingAttempts ==
                     before + if e == ProbeFired(sid, true) || (e == KeepaliveFired(sid, true) && before == 0) then 1
                              else 0)
  {
    if e.Create? {
      CreatedOrKept(t, e, c, sid);
    }
  }

  /** The two timers of a stream after a step. */
  lemma TimersAfter(t: Table, e: Event, c: Config, sid: Name)
    requires Inv(t) && Enabled(t, e) && sid in t.sessions && sid in After(t, e, c).sessions
    ensures var s, s' := t.sessions[sid], After(t, e, c).sessions[sid];
            var lost := s.online && e == SseClosed(sid, s.order);
            && (s'.keepaliveArmed <==>
                || (e == Stream(sid, t.token, s.clientId) && t.token != NO_NAME && sid != NO_NAME)
                || e == KeepaliveFired(sid, true) || e == ProbeFired(sid, true)
                || (s.keepaliveArmed && !lost && e != KeepaliveFired(sid, false)))
            && (s'.probeArmed <==>
                || e == ProbeFired(sid, true) || (e == KeepaliveFired(sid, true) && s.pingAttempts == 0)
                || (s.probeArmed && !lost && e != ProbeFired(sid, false) && !(e.FrameArrived? && e.sid == sid)))
  {
    if e.Create? {
      CreatedOrKept(t, e, c, sid);
    }
  }

  // ---------- Runs ----------

  lemma RunStep(states: seq<Table>, events: seq<Event>, token: Name, c: Config, i: nat)
    requires IsRun(states, events, token, c) && i < |events|
    ensures Inv(states[i]) && Enabled(states[i], events[i]) && states[i + 1] == After(states[i], events[i], c)
    ensures events[..i + 1][..i] == events[..i] && |events[..i + 1]| == i + 1 && events[..i + 1][i] == events[i]
  {
    RunKeepsInv(states, events, token, c, i);
  }

  /** On every run: a listed session was last active when it was last heard, and its attempts are unanswered pings. */
  lemma {:induction false} RecordIsHistory(states: seq<Table>, events: seq<Event>, token: Name, c: Config,
                                           i: nat, sid: Name)
    requires IsRun(states, events, token, c) && i < |states| && sid in states[i].sessions
    ensures states[i].sessions[sid].lastActivityAt == LastHeard(events[..i], sid)
    ensures states[i].sessions[sid].pingAttempts == Unanswered(events[..i], sid)
  {
    if i > 0 {
      RunStep(states, events, token, c, i - 1);
      if sid in states[i - 1].sessions {
        RecordIsHistory(states, events, token, c, i - 1, sid);
      }
      OneMoreEvent(states[i - 1], events[i - 1], states[i], c, sid, events[..i - 1], events[..i]);
    }
  }

  predicate Recorded(t: Table, h: seq<Event>, sid: Name) {
    sid in t.sessions ==>
      t.sessions[sid].lastActivityAt == LastHeard(h, sid) && t.sessions[sid].pingAttempts == Unanswered(h, sid)
  }

  lemma OneMoreEvent(t: Table, e: Event, t': Table, c: Config, sid: Name, h: seq<Event>, h': seq<Event>)
    requires Inv(t) && Enabled(t, e) && t' == After(t, e, c) && |h'| == |h| + 1 && h'[..|h|] == h && h'[|h|] == e
    requires Recorded(t, h, sid) && sid in t'.sessions
    ensures Recorded(t', h', sid)
  {
    StepIsHistory(t, e, c, sid, if sid in t.sessions then t.sessions[sid].pingAttempts else 0);
  }

  /** The probe timer ends a session if and only if ten pings were written since its client was last heard. */
  lemma ProbeEndsIff(states: seq<Table>, events: seq<Event>, token: Name, c: Config, i: nat, sid: Name, writable: bool)
    requires IsRun(states, events, token, c) && i < |events| && events[i] == ProbeFired(sid, writable)
    ensures sid in states[i].sessions && states[i].sessions[sid].online
    ensures sid !in states[i + 1].sessions <==> Unanswered(events[..i], sid) == 10
  {
    RunStep(states, events, token, c, i);
    RecordIsHistory(states, events, token, c, i, sid);
    ClosedForAReason(states[i], events[i], c, sid);
  }

  /** The liveness sweep ends exactly the open streams whose client was not heard within the timeout. */
  lemma SweepEndsIff(states: seq<Table>, events: seq<Event>, token: Name, c: Config, i: nat, sid: Name, now: int)
    requires IsRun(states, events, token, c) && i < |events| && events[i] == Sweep(now) && sid in states[i].sessions
    ensures sid !in states[i + 1].sessions <==>
            states[i].sessions[sid].online && now - LastHeard(events[..i], sid) > c.livenessTimeoutMs
  {
    RunStep(states, events, token, c, i);
    RecordIsHistory(states, events, token, c, i, sid);
    ClosedForAReason(states[i], events[i], c, sid);
  }

  /** The other client has not been heard for longer than the grace period. */
  predicate GivenUp(events: seq<Event>, other: Name, now: int, c: Config) {
    now - LastHeard(events, other) > c.takeoverGraceMs
  }

  /** A create succeeds if and only if every other client with a session of the token is past its grace period. */
  lemma CreateSucceedsIff(states: seq<Table>, events: seq<Event>, token: Name, c: Config, i: nat,
                          sid: Name, clientId: Name, now: int)
    requires IsRun(states, events, token, c) && i < |events| && events[i] == Create(sid, clientId, now)
    ensures var t := states[i];
            sid in states[i + 1].sessions <==>
            && clientId != NO_NAME
            && forall a :: a in t.sessions && t.sessions[a].token == t.token && t.sessions[a].clientId != clientId ==>
                             GivenUp(events[..i], a, now, c)
  {
    var t := states[i];
    RunStep(states, events, token, c, i);
    CreateAnswers(t, sid, clientId, now, c);
    forall a | a in t.sessions
      ensures t.sessions[a].lastActivityAt == LastHeard(events[..i], a)
    {
      RecordIsHistory(states, events, token, c, i, a);
    }
    if !(forall a :: a in t.sessions && t.sessions[a].token == t.token && t.sessions[a].clientId != clientId ==>
                       GivenUp(events[..i], a, now, c)) {
      var a :| a in t.sessions && t.sessions[a].token == t.token && t.sessions[a].clientId != clientId
               && !GivenUp(events[..i], a, now, c);
      assert !TokenIsFree(t, clientId, now, c);
    }
  }

  // ---------- Answering is enough ----------

  predicate Fires(e: Event, sid: Name) {
    e.ProbeFired? && e.sid == sid
  }

  /** The session is heard, or created, by this event. */
  predicate Hears(e: Event, sid: Name) {
    (e.FrameArrived? || e.Create?) && e.sid == sid
  }

  /** The client is heard between any two firings of its probe. */
  ghost predicate AnswersProbes(events: seq<Event>, sid: Name) {
    forall i, j :: 0 <= i < j < |events| && Fires(events[i], sid) && Fires(events[j], sid) ==>
                     HeardWithin(events, sid, i, j)
  }

  ghost predicate HeardWithin(events: seq<Event>, sid: Name, i: nat, j: nat)
    requires i < j <= |events|
  {
    exists k :: i < k < j && Hears(events[k], sid)
  }

  /** More than one unanswered ping means that the probe fired since the client was last heard. */
  lemma {:induction false} SecondPingByProbe(events: seq<Event>, sid: Name, n: nat) returns (i: nat)
    requires n <= |events| && Unanswered(events[..n], sid) > 1
    ensures i < n && Fires(events[i], sid) && forall k :: i < k < n ==> !Hears(events[k], sid)
    decreases n
  {
    var last := events[n - 1];
    assert events[..n][..n - 1] == events[..n - 1];
    if Fires(last, sid) {
      i := n - 1;
    } else {
      i := SecondPingByProbe(events, sid, n - 1);
    }
  }

  /** A client that is heard between any two firings of its probe never loses its session to the probe. */
  lemma AnsweredProbesKeepTheSession(states: seq<Table>, events: seq<Event>, token: Name, c: Config,
                                     j: nat, sid: Name, writable: bool)
    requires IsRun(states, events, token, c) && AnswersProbes(events, sid)
    requires j < |events| && events[j] == ProbeFired(sid, writable)
    ensures sid in states[j + 1].sessions
  {
    ProbeEndsIff(states, events, token, c, j, sid, writable);
    if Unanswered(events[..j], sid) > 1 {
      var i := SecondPingByProbe(events, sid, j);
      assert HeardWithin(events, sid, i, j);
    }
  }
}
