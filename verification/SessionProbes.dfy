/** The liveness probe on runs of the session table: when a silent client loses its session, and when it never does. */
module SessionProbes {
  import opened SessionSpec
  import opened SessionTheorems

  /** A timer of session `sid` fires and its write succeeds. */
  predicate IsTimer(e: Event, sid: Name) {
    e == KeepaliveFired(sid, true) || e == ProbeFired(sid, true)
  }

  /** The event leaves the session as it is. */
  predicate Untouched(t: Table, e: Event, c: Config, sid: Name)
    requires Enabled(t, e)
  {
    sid in t.sessions && sid in After(t, e, c).sessions && After(t, e, c).sessions[sid] == t.sessions[sid]
  }

  /** A stretch of a run in which nothing but its two timers touches session `sid`: its client is silent. */
  ghost predicate IsWatch(ts: seq<Table>, events: seq<Event>, sid: Name, c: Config) {
    && |ts| == |events| + 1
    && forall i :: 0 <= i < |events| ==> Watches(ts[i], events[i], ts[i + 1], sid, c)
  }

  predicate Watches(t: Table, e: Event, t': Table, sid: Name, c: Config) {
    && Enabled(t, e) && t' == After(t, e, c)
    && (e.Create? ==> e.sid != sid)
    && (sid in t.sessions ==> IsTimer(e, sid) || Untouched(t, e, c, sid))
  }

  /** How often the probe timer of `sid` fired in the first `i` events. */
  function ProbesFired(events: seq<Event>, sid: Name, i: nat): nat
    requires i <= |events|
  {
    if i == 0 then 0 else ProbesFired(events, sid, i - 1) + if events[i - 1] == ProbeFired(sid, true) then 1 else 0
  }

  /** How many pings were sent to `sid` in the first `i` steps. */
  function PingsSent(ts: seq<Table>, sid: Name, i: nat): nat
    requires i < |ts|
  {
    if i == 0 then 0 else PingsSent(ts, sid, i - 1) + Sends(ts[i - 1], ts[i], sid)
  }

  function Sends(t: Table, t': Table, sid: Name): nat {
    if sid in t.sessions && sid in t'.sessions && t'.sessions[sid].pingAttempts > t.sessions[sid].pingAttempts then 1
    else 0
  }

  /** No ping is outstanding, or the probe timer waits for the answer to one. */
  predicate Probed(s: Session) {
    s.pingAttempts == 0 || s.probeArmed
  }

  /** How many firings of the probe timer a silent session with record `s` survives. */
  function Patience(s: Session): nat
    requires s.pingAttempts <= MAX_PROBES
  {
    MAX_PROBES - if s.pingAttempts == 0 then 1 else s.pingAttempts
  }

  /** What one step does to a probed session. */
  lemma ProbedStep(t: Table, e: Event, t': Table, sid: Name, c: Config)
    requires Watches(t, e, t', sid, c) && sid in t.sessions
    requires var s := t.sessions[sid]; s.online && s.keepaliveArmed && TimersFit(s) && Probed(s)
    ensures sid !in t'.sessions <==> e == ProbeFired(sid, true) && t.sessions[sid].pingAttempts == MAX_PROBES
    ensures sid in t'.sessions ==>
              var s, s' := t.sessions[sid], t'.sessions[sid];
              && s' == s.(pingAttempts := s.pingAttempts + Sends(t, t', sid), probeArmed := s'.pingAttempts > 0)
              && TimersFit(s') && Probed(s')
              && (e == ProbeFired(sid, true) ==> s.pingAttempts > 0 && Sends(t, t', sid) == 1)
              && (e != ProbeFired(sid, true) && Sends(t, t', sid) == 1 ==> s.pingAttempts == 0)
  {
  }

  lemma StaysGone(t: Table, e: Event, t': Table, sid: Name, c: Config)
    requires Watches(t, e, t', sid, c) && sid !in t.sessions
    ensures sid !in t'.sessions && e != ProbeFired(sid, true)
  {
  }

  /**
   A silent session whose stream is probed leaves the table exactly when its probe timer has fired once more than
   its patience, and not before ten pings are unanswered: on a stream that starts with no attempts, after ten pings.
   */
  lemma {:induction false} TenPingsThenGiveUp(ts: seq<Table>, events: seq<Event>, sid: Name, c: Config, i: nat)
    requires IsWatch(ts, events, sid, c) && i < |ts| && sid in ts[0].sessions
    requires var s := ts[0].sessions[sid]; s.online && s.keepaliveArmed && TimersFit(s) && Probed(s)
    ensures sid in ts[i].sessions <==> ProbesFired(events, sid, i) <= Patience(ts[0].sessions[sid])
    ensures sid in ts[i].sessions ==>
              var s, s' := ts[0].sessions[sid], ts[i].sessions[sid];
              && s' == s.(pingAttempts := s.pingAttempts + PingsSent(ts, sid, i), probeArmed := s'.pingAttempts > 0)
              && TimersFit(s')
              && ProbesFired(events, sid, i) ==
                 (if s'.pingAttempts == 0 then 0 else s'.pingAttempts - (MAX_PROBES - Patience(s)))
    ensures sid !in ts[i].sessions ==> ts[0].sessions[sid].pingAttempts + PingsSent(ts, sid, i) == MAX_PROBES
    ensures ProbesFired(events, sid, i) <= Patience(ts[0].sessions[sid]) + 1
  {
    if i > 0 {
      TenPingsThenGiveUp(ts, events, sid, c, i - 1);
      assert Watches(ts[i - 1], events[i - 1], ts[i], sid, c);
      if sid in ts[i - 1].sessions {
        ProbedStep(ts[i - 1], events[i - 1], ts[i], sid, c);
      } else {
        StaysGone(ts[i - 1], events[i - 1], ts[i], sid, c);
      }
    }
  }

  /** What one step does to a session that is not probed: nothing. */
  lemma UnprobedStep(t: Table, e: Event, t': Table, sid: Name, c: Config)
    requires Watches(t, e, t', sid, c) && sid in t.sessions
    requires var s := t.sessions[sid]; s.online && s.keepaliveArmed && !Probed(s)
    ensures sid in t'.sessions && t'.sessions[sid] == t.sessions[sid] && e != ProbeFired(sid, true)
  {
  }

  /** A silent session with attempts left over and no probe is never pinged and never leaves the table. */
  lemma {:induction false} LeftoverAttemptsStopProbing(ts: seq<Table>, events: seq<Event>, sid: Name, c: Config, i: nat)
    requires IsWatch(ts, events, sid, c) && i < |ts| && sid in ts[0].sessions
    requires var s := ts[0].sessions[sid]; s.online && s.keepaliveArmed && !Probed(s)
    ensures sid in ts[i].sessions && ts[i].sessions[sid] == ts[0].sessions[sid]
    ensures PingsSent(ts, sid, i) == 0 && ProbesFired(events, sid, i) == 0
  {
    if i > 0 {
      LeftoverAttemptsStopProbing(ts, events, sid, c, i - 1);
      assert Watches(ts[i - 1], events[i - 1], ts[i], sid, c);
      UnprobedStep(ts[i - 1], events[i - 1], ts[i], sid, c);
    }
  }

  // ---------- The exact condition ----------

  /** Some silent stretch that starts in `t` ends without the session. */
  ghost predicate CanGiveUp(t: Table, sid: Name, c: Config) {
    exists ts: seq<Table>, events: seq<Event> ::
      IsWatch(ts, events, sid, c) && ts[0] == t && sid !in ts[|events|].sessions
  }

  lemma Prepend(t: Table, e: Event, ts: seq<Table>, events: seq<Event>, sid: Name, c: Config)
    requires IsWatch(ts, events, sid, c) && Watches(t, e, ts[0], sid, c)
    ensures IsWatch([t] + ts, [e] + events, sid, c)
    ensures ([t] + ts)[|events| + 1] == ts[|events|]
  {
    var us, es := [t] + ts, [e] + events;
    forall i | 0 <= i < |es|
      ensures Watches(us[i], es[i], us[i + 1], sid, c)
    {
      if i > 0 {
        assert us[i] == ts[i - 1] && es[i] == events[i - 1] && us[i + 1] == ts[i];
      }
    }
  }

  /** A silent client of a probed session can be given up: the timers only have to fire. */
  lemma {:induction false} GiveUpRun(t: Table, sid: Name, c: Config) returns (ts: seq<Table>, events: seq<Event>)
    requires sid in t.sessions
    requires var s := t.sessions[sid]; s.online && s.keepaliveArmed && TimersFit(s) && Probed(s)
    ensures IsWatch(ts, events, sid, c) && ts[0] == t && sid !in ts[|events|].sessions
    decreases MAX_PROBES - t.sessions[sid].pingAttempts
  {
    var e := if t.sessions[sid].pingAttempts == 0 then KeepaliveFired(sid, true) else ProbeFired(sid, true);
    var t' := After(t, e, c);
    assert Watches(t, e, t', sid, c);
    ProbedStep(t, e, t', sid, c);
    if sid in t'.sessions {
      ts, events := GiveUpRun(t', sid, c);
      Prepend(t, e, ts, events, sid, c);
      ts, events := [t] + ts, [e] + events;
    } else {
      ts, events := [t, t'], [e];
    }
  }

  /** Probing can end the session of a silent client if and only if its stream is probed. */
  lemma GivesUpIffProbed(t: Table, sid: Name, c: Config)
    requires sid in t.sessions
    requires var s := t.sessions[sid]; s.online && s.keepaliveArmed && TimersFit(s)
    ensures CanGiveUp(t, sid, c) <==> Probed(t.sessions[sid])
  {
    if Probed(t.sessions[sid]) {
      var ts, events := GiveUpRun(t, sid, c);
      assert IsWatch(ts, events, sid, c) && ts[0] == t && sid !in ts[|events|].sessions;
    } else {
      forall ts: seq<Table>, events: seq<Event> | IsWatch(ts, events, sid, c) && ts[0] == t
        ensures sid in ts[|events|].sessions
      {
        LeftoverAttemptsStopProbing(ts, events, sid, c, |events|);
      }
    }
  }

  /**
   When a stream is opened, from then on: a silent client can lose the session to the probe if and only if no
   attempt was left over or the probe of the stream it replaces is still armed.
   */
  lemma OpenedStreamGivesUpIff(t: Table, sid: Name, token: Name, clientId: Name, c: Config)
    requires Inv(t) && StreamStatus(t, sid, token, clientId) == 200
    ensures var u := After(t, Stream(sid, token, clientId), c);
            && u.sessions[sid] == t.sessions[sid].(online := true, order := t.order + 1,
                                                   cleanupArmed := false, keepaliveArmed := true)
            && (CanGiveUp(u, sid, c) <==> Probed(t.sessions[sid]))
  {
    var u := After(t, Stream(sid, token, clientId), c);
    StreamKeepsInv(t, sid, token, clientId);
    GivesUpIffProbed(u, sid, c);
  }

  /** A stream that is lost and reopened keeps its attempts and loses its probe: it is probed again iff it had none. */
  lemma ReconnectProbesIff(t: Table, sid: Name, c: Config)
    requires Inv(t) && sid in t.sessions && t.sessions[sid].online
    requires StreamStatus(t, sid, t.token, t.sessions[sid].clientId) == 200
    ensures var s := t.sessions[sid];
            var lost := After(t, SseClosed(sid, s.order), c);
            var back := After(lost, Stream(sid, t.token, s.clientId), c);
            && sid in back.sessions
            && back.sessions[sid] == s.(order := t.order + 1, probeArmed := false, keepaliveArmed := true)
            && (CanGiveUp(back, sid, c) <==> s.pingAttempts == 0)
  {
    var s := t.sessions[sid];
    var lost := After(t, SseClosed(sid, s.order), c);
    StepKeepsInv(t, SseClosed(sid, s.order), c);
    assert lost.sessions[sid] == Offline(s);
    OpenedStreamGivesUpIff(lost, sid, t.token, s.clientId, c);
  }

  /** A run that gets there: one ping, the stream lost and reopened. The session can no longer be given up. */
  lemma LostStreamIsNotProbed(c: Config) returns (ts: seq<Table>, events: seq<Event>)
    ensures IsRun(ts, events, 7, c)
    ensures events == [Create(1, 5, 0), Stream(1, 7, 5), KeepaliveFired(1, true), SseClosed(1, 1), Stream(1, 7, 5)]
    ensures 1 in ts[5].sessions && ts[5].sessions[1].online && ts[5].sessions[1].pingAttempts == 1
    ensures !CanGiveUp(ts[5], 1, c)
  {
    events := [Create(1, 5, 0), Stream(1, 7, 5), KeepaliveFired(1, true), SseClosed(1, 1), Stream(1, 7, 5)];
    var t0 := Empty(7);
    var t1 := After(t0, events[0], c);
    assert t1.sessions == map[1 := NewSession(5, 7, 0)] && t1.token == 7;
    var t2 := After(t1, events[1], c);
    var t3 := After(t2, events[2], c);
    assert t3.sessions[1] == Session(5, 7, true, 1, 0, false, true, true, 1);
    var t4 := After(t3, events[3], c);
    var t5 := After(t4, events[4], c);
    ts := [t0, t1, t2, t3, t4, t5];
    GivesUpIffProbed(t5, 1, c);
  }
}
