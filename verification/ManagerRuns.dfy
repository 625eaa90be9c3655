/** Runs of the request table that overwrite a live reverse request, so that the reverse counter stays too high. */
module ManagerRuns {
  import opened ManagerSpec
  import opened ManagerTheorems
  import opened TunnelManagers

  /** A CONNECT frame of a client that does not keep to its ids takes over a reverse request. */
  lemma ForeignIdOverwrites(session: Name, c: Config) returns (ts: seq<Table>, events: seq<Event>)
    requires c.maxReverse >= 1 && c.maxForward >= 1
    ensures IsRun(ts, events, c) && events == [OpenReverse(session), ConnectFrame(1, session, false)]
    ensures ts[2].reverseCount == 1 && LiveReverse(ts[2]) == {}
  {
    events := [OpenReverse(session), ConnectFrame(1, session, false)];
    var t1 := After(Init(), events[0], c);
    assert t1.active == map[1 := 0] && t1.entries == [Entry(1, Reverse, session, true, false, 1)];
    var t2 := After(t1, events[1], c);
    ts := [Init(), t1, t2];
    assert Follows(ts, events, c, 0) && Follows(ts, events, c, 1);
    assert t2.active == map[1 := 1];
  }

  /** A forward connect is closed and its id used again before its socket closes: the late cleanup ends the new one. */
  lemma LateCleanupEndsSuccessor(session: Name, c: Config) returns (ts: seq<Table>, events: seq<Event>)
    requires c.maxForward >= 2
    ensures IsRun(ts, events, c)
    ensures var r := FIRST_FORWARD_ID;
            events == [ConnectFrame(r, session, false), EndRequest(r), ConnectFrame(r, session, false), Cleanup(0)]
    ensures Live(ts[3], 1) && !Live(ts[4], 1) && ts[4].forwardCount == 1 && ts[4].active == map[]
  {
    var r := FIRST_FORWARD_ID;
    ts, events := OneMore([Init()], [], c, ConnectFrame(r, session, false));
    assert ts[1].active == map[r := 0];
    ClearOne(ts[1], r);
    ts, events := OneMore(ts, events, c, EndRequest(r));
    assert ts[2].active == map[];
    ts, events := OneMore(ts, events, c, ConnectFrame(r, session, false));
    assert ts[3].active == map[r := 1];
    CountersAreExact(ts, events, c, 3);
    CleanupEndsAnotherIff(ts[3], 0, c);
    ts, events := OneMore(ts, events, c, Cleanup(0));
    assert ts[4].active == map[];
  }

  // ---------- A client that keeps to its ids ----------

  /** The first request is live, and `n` more have come and gone. */
  ghost predicate OneOutlives(t: Table, n: nat) {
    && t.active == map[1 := 0] && t.reverseCount == 1 && t.issued == n + 1 && t.forwardCount == 0
    && |t.entries| == n + 1 && t.entries[0].reqid == 1 && t.entries[0].direction == Reverse
    && forall i :: 0 < i < |t.entries| ==> t.entries[i].reqid != 1
  }

  /** In between: request `n + 2` is live beside the first one. */
  ghost predicate BothLive(t: Table, n: nat) {
    && t.active == map[1 := 0, n + 2 := n + 1] && t.reverseCount == 2 && t.issued == n + 2 && t.forwardCount == 0
    && |t.entries| == n + 2 && t.entries[0].reqid == 1 && t.entries[0].direction == Reverse
    && t.entries[n + 1].reqid == n + 2 && t.entries[n + 1].direction == Reverse && t.entries[n + 1].counted
    && forall i :: 0 < i < |t.entries| ==> t.entries[i].reqid != 1
  }

  lemma OpenOneMore(t: Table, n: nat, session: Name, c: Config)
    requires OneOutlives(t, n) && n + 2 <= LAST_REVERSE_ID && c.maxReverse >= 2
    ensures BothLive(After(t, OpenReverse(session), c), n)
  {
    assert IdAfter(t.issued + 1) == n + 2;
  }

  lemma EndOneMore(t: Table, n: nat, c: Config)
    requires BothLive(t, n) && Recorded(t)
    ensures OneOutlives(After(t, EndRequest(n + 2), c), n + 1)
  {
    ClearOne(t, n + 2);
    assert n + 1 in CountedIds(t);
    assert t.active - {n + 2} == map[1 := 0];
  }

  lemma OpenAndEnd(t: Table, n: nat, session: Name, c: Config)
    requires Inv(t, c) && OneOutlives(t, n) && n + 2 <= LAST_REVERSE_ID && c.maxReverse >= 2
    ensures var u := After(After(t, OpenReverse(session), c), EndRequest(n + 2), c);
            Inv(u, c) && OneOutlives(u, n + 1)
  {
    var o := After(t, OpenReverse(session), c);
    StepKeepsInv(t, OpenReverse(session), c);
    StepKeepsInv(o, EndRequest(n + 2), c);
    OpenOneMore(t, n, session, c);
    EndOneMore(o, n, c);
  }

  lemma OneMore(ts: seq<Table>, events: seq<Event>, c: Config, e: Event)
    returns (us: seq<Table>, es: seq<Event>)
    requires IsRun(ts, events, c)
    ensures IsRun(us, es, c) && es == events + [e] && us == ts + [After(ts[|events|], e, c)]
  {
    us, es := ts + [After(ts[|events|], e, c)], events + [e];
    forall i | 0 <= i < |es|
      ensures Follows(us, es, c, i)
    {
      if i < |events| {
        assert Follows(ts, events, c, i);
      }
    }
  }

  lemma TwoMore(ts: seq<Table>, events: seq<Event>, c: Config, a: Event, b: Event)
    returns (us: seq<Table>, es: seq<Event>)
    requires IsRun(ts, events, c)
    ensures IsRun(us, es, c) && es == events + [a, b]
    ensures us[|es|] == After(After(ts[|events|], a, c), b, c)
  {
    var t := ts[|events|];
    us, es := OneMore(ts, events, c, a);
    us, es := OneMore(us, es, c, b);
    assert events + [a] + [b] == events + [a, b];
  }

  /** `n` requests come and go while the first one lives. */
  lemma {:induction false} ManyComeAndGo(n: nat, session: Name, c: Config) returns (ts: seq<Table>, events: seq<Event>)
    requires n + 1 <= LAST_REVERSE_ID && c.maxReverse >= 2
    ensures IsRun(ts, events, c) && Inv(ts[|events|], c) && OneOutlives(ts[|events|], n)
    ensures forall i :: 0 <= i < |events| ==> events[i].OpenReverse? || events[i].EndRequest?
  {
    if n == 0 {
      var t := After(Init(), OpenReverse(session), c);
      ts, events := OneMore([Init()], [], c, OpenReverse(session));
      CountersAreExact(ts, events, c, 1);
      assert t.active == map[1 := 0];
    } else {
      ts, events := ManyComeAndGo(n - 1, session, c);
      OpenAndEnd(ts[|events|], n - 1, session, c);
      ts, events := TwoMore(ts, events, c, OpenReverse(session), EndRequest(n + 1));
    }
  }

  /**
   With a client that sends no CONNECT at all: the counter comes round while the first request is still live, and
   takes its id.
   */
  lemma WrapAroundOverwrites(session: Name, c: Config) returns (ts: seq<Table>, events: seq<Event>)
    requires c.maxReverse >= 2
    ensures IsRun(ts, events, c) && forall i :: 0 <= i < |events| ==> events[i].OpenReverse? || events[i].EndRequest?
    ensures |events| > 0 && Overwrites(ts[|events| - 1], events[|events| - 1], c)
    ensures ts[|events|].reverseCount == 2 && |LiveReverse(ts[|events|])| == 1
  {
    ts, events := ManyComeAndGo(LAST_REVERSE_ID - 1, session, c);
    var t := ts[|events|];
    assert IdAfter(t.issued + 1) == 1 && 0 in LiveReverse(t);
    LastOverwrites(t, After(t, OpenReverse(session), c), session, c);
    ts, events := OneMore(ts, events, c, OpenReverse(session));
  }

  lemma LastOverwrites(t: Table, u: Table, session: Name, c: Config)
    requires OneOutlives(t, LAST_REVERSE_ID - 1) && c.maxReverse >= 2 && u == After(t, OpenReverse(session), c)
    ensures Overwrites(t, OpenReverse(session), c) && u.reverseCount == 2 && |LiveReverse(u)| == 1
  {
    var n := |t.entries|;
    assert IdAfter(t.issued + 1) == 1 && 0 in LiveReverse(t);
    assert u.active == map[1 := n];
    assert LiveReverse(u) == {n};
  }
}
