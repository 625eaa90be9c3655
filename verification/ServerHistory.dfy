/**
 The history of the session table in a run of the whole server: a client is heard exactly when a consume loop handles
 a payload that holds a frame.
 */
module ServerHistory {
  import opened Bytes
  import opened ServerSpec
  import opened ServerTheorems
  import S = SessionSpec
  import T = SessionTheorems
  import H = SessionHistory
  import U = UploadSpec

  /** The payload that the loop of `sid` handles next holds a frame. */
  predicate HoldsAFrame(s: Server, sid: S.Name) {
    && sid in s.uploads && U.CanResume(s.uploads[sid])
    && U.FramesOf(s.uploads[sid].queue.delivered[s.uploads[sid].processed]) != []
  }

  /** What a step of the server is for the session table, if anything. */
  ghost function TableEvents(s: Server, e: Event): seq<S.Event> {
    match e
    case TableEvent(te) => [te]
    case Post(sid, n, body) =>
      if sid in s.uploads && U.Accepted(body) && U.Refuses(s.uploads[sid].queue, n) then [S.QueueClosed(sid)] else []
    case Ask(_) => []
    case Resume(sid, now) => if HoldsAFrame(s, sid) then [S.FrameArrived(sid, now)] else []
    case SawNull(sid) => [S.QueueClosed(sid)]
  }

  lemma TableStep(s: Server, e: Event, s': Server, c: Config)
    requires Inv(s, c) && Step(s, e, s', c)
    ensures var es := TableEvents(s, e);
            && |es| <= 1
            && (es == [] ==> s'.table == s.table)
            && (es != [] ==> S.Enabled(s.table, es[0]) && s'.table == S.After(s.table, es[0], c.table))
  {
    if e.Post? {
      PostCloses(s.uploads[e.sid], e.seqNo, e.body, s'.uploads[e.sid]);
      QueueClosedEffect(s.table, e.sid, c.table);
    } else if e.Resume? {
      var u := s.uploads[e.sid];
      var more := U.FramesOf(u.queue.delivered[u.processed]);
      assert u.frames + more != u.frames <==> more != [] by {
        assert |u.frames + more| == |u.frames| + |more|;
      }
    }
  }

  ghost function History(r: Run): seq<S.Event>
    requires |r.states| == |r.events| + 1
    decreases |r.events|
  {
    if |r.events| == 0 then []
    else History(Shorter(r)) + TableEvents(Last(Shorter(r)), r.events[|r.events| - 1])
  }

  lemma OneMore(ts: seq<S.Table>, es: seq<S.Event>, token: S.Name, c: S.Config, e: S.Event)
    requires T.IsRun(ts, es, token, c) && S.Enabled(ts[|es|], e)
    ensures T.IsRun(ts + [S.After(ts[|es|], e, c)], es + [e], token, c)
  {
  }

  /** A run of the server makes a run of its session table. */
  lemma {:induction false} TableRun(r: Run, token: S.Name, c: Config) returns (ts: seq<S.Table>)
    requires IsRun(r, token, c)
    ensures T.IsRun(ts, History(r), token, c.table) && ts[|History(r)|] == Last(r).table
    decreases |r.events|
  {
    if |r.events| == 0 {
      ts := [S.Empty(token)];
    } else {
      ShorterIsRun(r, token, c);
      var s, e := Last(Shorter(r)), r.events[|r.events| - 1];
      ts := TableRun(Shorter(r), token, c);
      RunKeepsInv(Shorter(r), token, c);
      TableStep(s, e, Last(r), c);
      var es := TableEvents(s, e);
      if es == [] {
        assert History(r) == History(Shorter(r));
      } else {
        OneMore(ts, History(Shorter(r)), token, c.table, es[0]);
        assert es == [es[0]];
        ts := ts + [Last(r).table];
      }
    }
  }

  /** On every run of the server: activity and attempts of a listed session are what its frames and timers say. */
  lemma ServerRecordIsHistory(r: Run, token: S.Name, c: Config, sid: S.Name)
    requires IsRun(r, token, c) && sid in Last(r).table.sessions
    ensures Last(r).table.sessions[sid].lastActivityAt == H.LastHeard(History(r), sid)
    ensures Last(r).table.sessions[sid].pingAttempts == H.Unanswered(History(r), sid)
  {
    var ts := TableRun(r, token, c);
    H.RecordIsHistory(ts, History(r), token, c.table, |History(r)|, sid);
    assert History(r)[..|History(r)|] == History(r);
  }

  /** In the whole server the probe ends a session if and only if ten pings were written since a frame was handled. */
  lemma ServerProbeEndsIff(r: Run, token: S.Name, c: Config, sid: S.Name, writable: bool)
    requires IsRun(r, token, c) && |r.events| > 0
    requires r.events[|r.events| - 1] == TableEvent(S.ProbeFired(sid, writable))
    ensures sid !in Last(r).table.sessions <==> H.Unanswered(History(Shorter(r)), sid) == 10
  {
    ShorterIsRun(r, token, c);
    var s := Last(Shorter(r));
    RunKeepsInv(Shorter(r), token, c);
    ServerRecordIsHistory(Shorter(r), token, c, sid);
    T.ClosedForAReason(s.table, S.ProbeFired(sid, writable), c.table, sid);
  }
}
