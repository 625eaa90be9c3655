/** The request table of tunnel/manager.js as code: counters, cyclic id, cleanup closures and the disconnect loop. */
module TunnelManagers {
  import opened Bytes
  import P = Protocol
  import PT = ProtocolTheorems
  import opened ManagerSpec
  import opened ManagerTheorems

  lemma JustInv(t: Table, e: Event, c: Config)
    requires Inv(t, c)
    ensures Inv(After(t, e, c), c)
  {
    StepKeepsInv(t, e, c);
  }

  lemma DroppedOne(t: Table, r: nat)
    requires Recorded(t)
    ensures Dropped(t, {r}) ==
            if r in t.active && t.active[r] in CountedIds(t) then {t.active[r]} else {}
  {
  }

  lemma UncountOne(entries: seq<Entry>, id: nat)
    requires id < |entries|
    ensures Uncount(entries, {id}) == entries[id := entries[id].(counted := false)]
    ensures Uncount(entries, {}) == entries
  {
  }

  lemma ClearOne(t: Table, r: nat)
    requires Recorded(t)
    ensures var u := Clear(t, {r});
            && u.active == t.active - {r} && u.issued == t.issued && u.forwardCount == t.forwardCount
            && (if r in t.active && t.active[r] in CountedIds(t)
                then u.entries == t.entries[t.active[r] := t.entries[t.active[r]].(counted := false)]
                     && u.reverseCount == t.reverseCount - 1
                else u.entries == t.entries && u.reverseCount == t.reverseCount)
  {
    DroppedOne(t, r);
    if r in t.active {
      UncountOne(t.entries, t.active[r]);
    } else {
      assert Uncount(t.entries, {}) == t.entries;
    }
  }

  lemma ClearNothing(t: Table)
    ensures Clear(t, {}) == t
  {
    assert Dropped(t, {}) == {};
    assert Uncount(t.entries, {}) == t.entries;
    assert t.active - {} == t.active;
  }

  lemma UncountTwice(entries: seq<Entry>, a: set<nat>, b: set<nat>)
    ensures Uncount(Uncount(entries, a), b) == Uncount(entries, a + b)
  {
  }

  lemma DroppedTogether(t: Table, a: set<nat>, b: set<nat>)
    requires a !! b
    ensures Dropped(t, a + b) == Dropped(t, a) + Dropped(t, b) && Dropped(t, a) !! Dropped(t, b)
  {
  }

  lemma DroppedAfter(t: Table, gone: set<nat>, r: nat)
    requires Recorded(t) && r !in gone
    ensures Dropped(Clear(t, gone), {r}) == Dropped(t, {r})
  {
    var u := Clear(t, gone);
    ClearRecords(t, gone);
    DroppedOne(t, r);
    DroppedOne(u, r);
    assert CountedIds(u) == CountedIds(t) - Dropped(t, gone) by {
      ClearEffect(t, gone);
    }
    if r in t.active {
      assert u.active[r] == t.active[r] && t.active[r] !in Dropped(t, gone);
    }
  }

  /** Clearing one more id after a set of others is clearing them together. */
  lemma ClearOneMore(t: Table, gone: set<nat>, r: nat)
    requires Recorded(t) && r !in gone
    ensures Clear(Clear(t, gone), {r}) == Clear(t, gone + {r})
  {
    var d, e := Dropped(t, gone), Dropped(t, {r});
    DroppedAfter(t, gone, r);
    DroppedTogether(t, gone, {r});
    UncountTwice(t.entries, d, e);
    assert |d + e| == |d| + |e|;
    assert t.active - gone - {r} == t.active - (gone + {r});
  }

  lemma CleanupEvent(t: Table, id: nat, c: Config)
    requires id < |t.entries| && t.entries[id].direction == Forward
    ensures id in OpenForward(t) <==> !t.entries[id].cleaned
    ensures After(t, Cleanup(id), c) ==
            if t.entries[id].cleaned then t else Clear(MarkCleaned(t, id), {t.entries[id].reqid})
  {
  }

  /** What a frame from the client does to the request table. */
  function FrameEvent(f: P.Frame, session: Name, refused: bool): Option<Event> {
    match f
    case Connect(reqid, _, _) => Some(ConnectFrame(reqid, session, refused))
    case CloseStream(reqid) => Some(EndRequest(reqid))
    case ConnectFailed(reqid) => Some(EndRequest(reqid))
    case _ => None
  }

  /** The request table after a frame. */
  function OnFrame(t: Table, f: P.Frame, session: Name, refused: bool, c: Config): Table {
    match FrameEvent(f, session, refused)
    case Some(e) => After(t, e, c)
    case None => t
  }

  /** The id names a reverse request that still counts. */
  predicate CountsFor(t: Table, reqid: nat) {
    && reqid in t.active && t.active[reqid] < |t.entries|
    && t.entries[t.active[reqid]].direction == Reverse && t.entries[t.active[reqid]].counted
  }

  /** Which frames end a request, which make one, and that all others leave the table as it is. */
  lemma FrameEffect(t: Table, f: P.Frame, session: Name, refused: bool, c: Config)
    requires Recorded(t)
    ensures var u := OnFrame(t, f, session, refused, c);
            && (f.CloseStream? || f.ConnectFailed? ==>
                  && u.active == t.active - {f.reqid} && u.forwardCount == t.forwardCount && u.issued == t.issued
                  && u.reverseCount == t.reverseCount - (if CountsFor(t, f.reqid) then 1 else 0)
                  && u.entries == if CountsFor(t, f.reqid)
                                  then t.entries[t.active[f.reqid] :=
                                                   t.entries[t.active[f.reqid]].(counted := false)]
                                  else t.entries)
            && (f.Connect? && !refused && t.forwardCount < c.maxForward ==>
                  && u.active == t.active[f.reqid := |t.entries|] && u.forwardCount == t.forwardCount + 1
                  && u.entries == t.entries + [Entry(f.reqid, Forward, session, false, false, t.issued)]
                  && u.reverseCount == t.reverseCount && u.issued == t.issued)
            && (f.Connect? && (refused || t.forwardCount >= c.maxForward) ==> u == t)
            && (!f.CloseStream? && !f.ConnectFailed? && !f.Connect? ==> u == t)
  {
    if f.CloseStream? || f.ConnectFailed? {
      ClearOne(t, f.reqid);
    }
  }

  /** The id counter of the client at the other end (client/tunnel_client.py). */
  class ForwardIds {
    var forwardReqidCounter: nat
    ghost var issued: nat

    ghost predicate Valid()
      reads this
    {
      forwardReqidCounter == ForwardIdAfter(issued)
    }

    constructor ()
      ensures Valid() && issued == 0
    {
      forwardReqidCounter, issued := FIRST_FORWARD_ID, 0;
    }

    method AllocateForwardReqid() returns (reqid: nat)
      requires Valid()
      modifies this
      ensures Valid() && issued == old(issued) + 1 && reqid == ForwardIdAfter(old(issued))
    {
      reqid := forwardReqidCounter;
      forwardReqidCounter := forwardReqidCounter + 1;
      if forwardReqidCounter > LAST_FORWARD_ID {
        forwardReqidCounter := FIRST_FORWARD_ID;
      }
      issued := issued + 1;
    }
  }

  class TunnelManager {
    var entries: seq<Entry>
    var activeRequests: map<nat, nat>
    var reqidCounter: nat
    var forwardCount: int
    var reverseCount: int
    const config: Config
    /** The number of ids handed out so far; the code only keeps the cyclic counter. */
    var issued: nat

    ghost function State(): Table
      reads this
    {
      Table(entries, activeRequests, issued, forwardCount, reverseCount)
    }

    ghost predicate Valid()
      reads this
    {
      Inv(State(), config) && reqidCounter == IdAfter(issued)
    }

    constructor (config: Config)
      ensures Valid() && State() == Init() && this.config == config
    {
      entries, activeRequests, reqidCounter, forwardCount, reverseCount := [], map[], 0, 0, 0;
      issued := 0;
      this.config := config;
    }

    method AllocateReqid() returns (reqid: nat)
      requires reqidCounter == IdAfter(issued)
      modifies `reqidCounter, `issued
      ensures issued == old(issued) + 1 && reqid == reqidCounter == IdAfter(issued)
    {
      reqidCounter := reqidCounter + 1;
      if reqidCounter > 0x7FFF {
        reqidCounter := 1;
      }
      issued := issued + 1;
      reqid := reqidCounter;
    }

    /** `forward` with an active session: refused at the limit, else a new counted entry. */
    method OpenReverseStream(session: Name) returns (reqid: Option<nat>)
      requires Valid()
      modifies this
      ensures Valid() && State() == After(old(State()), OpenReverse(session), config)
      ensures reqid == if old(reverseCount) >= config.maxReverse then None else Some(IdAfter(old(issued) + 1))
    {
      ghost var t := State();
      JustInv(t, OpenReverse(session), config);
      if reverseCount >= config.maxReverse {
        return None;
      }
      var id := AllocateReqid();
      reverseCount := reverseCount + 1;
      activeRequests := activeRequests[id := |entries|];
      entries := entries + [Entry(id, Reverse, session, true, false, issued)];
      assert State() == After(t, OpenReverse(session), config);
      return Some(id);
    }

    /** A CONNECT frame; `refused` says that its target is a tunnel domain. */
    method HandleForwardConnect(reqid: nat, session: Name, refused: bool) returns (accepted: bool)
      requires Valid()
      modifies this
      ensures Valid() && State() == After(old(State()), ConnectFrame(reqid, session, refused), config)
      ensures accepted <==> !refused && old(forwardCount) < config.maxForward
    {
      ghost var t := State();
      JustInv(t, ConnectFrame(reqid, session, refused), config);
      if refused {
        return false;
      }
      if forwardCount >= config.maxForward {
        return false;
      }
      activeRequests := activeRequests[reqid := |entries|];
      entries := entries + [Entry(reqid, Forward, session, false, false, issued)];
      forwardCount := forwardCount + 1;
      assert State() == After(t, ConnectFrame(reqid, session, refused), config);
      return true;
    }

    method ClearActiveRequest(reqid: nat)
      requires Valid()
      modifies this
      ensures Valid() && State() == Clear(old(State()), {reqid}) && issued == old(issued)
    {
      ghost var t := State();
      ClearOne(t, reqid);
      ClearKeepsInv(t, {reqid}, config);
      if reqid !in activeRequests {
        assert t.active - {reqid} == t.active;
        return;
      }
      var id := activeRequests[reqid];
      if entries[id].direction == Reverse && entries[id].counted {
        entries := entries[id := entries[id].(counted := false)];
        reverseCount := reverseCount - 1;
      }
      activeRequests := activeRequests - {reqid};
      assert State() == Clear(t, {reqid});
    }

    /** The `cleanup` closure of forward connect number `id`: only its first call does anything. */
    method RunCleanup(id: nat)
      requires Valid() && id < |entries| && entries[id].direction == Forward
      modifies this
      ensures Valid() && State() == After(old(State()), Cleanup(id), config)
    {
      CleanupEvent(State(), id, config);
      if entries[id].cleaned {
        return;
      }
      MarkOne(id);
      ClearActiveRequest(entries[id].reqid);
    }

    method MarkOne(id: nat)
      requires Valid() && id in OpenForward(State())
      modifies this
      ensures Valid() && State() == MarkCleaned(old(State()), id)
    {
      MarkCleanedKeepsInv(State(), id, config);
      entries := entries[id := entries[id].(cleaned := true)];
      forwardCount := forwardCount - 1;
    }

    /**
     The frames that change the table; DATA, CONNECT_OK, PING, PONG and PADDING do not. A PING is answered with its
     payload and a CONNECT that is refused with CONNECT_FAILED.
     */
    method HandleFrame(f: P.Frame, session: Name, refused: bool) returns (reply: Option<P.Frame>)
      requires Valid()
      modifies this
      ensures Valid()
      ensures State() == OnFrame(old(State()), f, session, refused, config)
      ensures f.CloseStream? || f.ConnectFailed? ==>
                && activeRequests == old(activeRequests) - {f.reqid} && forwardCount == old(forwardCount)
                && reverseCount == old(reverseCount) - (if old(CountsFor(State(), f.reqid)) then 1 else 0)
      ensures f.Connect? && !refused && old(forwardCount) < config.maxForward ==>
                && activeRequests == old(activeRequests)[f.reqid := |old(entries)|]
                && entries == old(entries) + [Entry(f.reqid, Forward, session, false, false, issued)]
                && forwardCount == old(forwardCount) + 1
      ensures !f.CloseStream? && !f.ConnectFailed? && (f.Connect? ==> refused || old(forwardCount) >= config.maxForward)
              ==> State() == old(State())
      ensures reply == if f.Ping? then Some(P.Pong(f.payload))
                       else if f.Connect? && (refused || old(forwardCount) >= config.maxForward)
                       then Some(P.ConnectFailed(f.reqid)) else None
    {
      FrameEffect(State(), f, session, refused, config);
      match f {
        case Connect(reqid, _, _) =>
          var accepted := HandleForwardConnect(reqid, session, refused);
          if !accepted {
            return Some(P.ConnectFailed(reqid));
          }
        case Ping(payload) => return Some(P.Pong(payload));
        case CloseStream(reqid) => ClearActiveRequest(reqid);
        case ConnectFailed(reqid) => ClearActiveRequest(reqid);
        case _ =>
      }
      return None;
    }

    method VisitRequest(reqid: nat, session: Name, ghost t: Table, ghost gone: set<nat>) returns (cleared: bool)
      requires Inv(t, config) && State() == Clear(t, gone) && reqid in t.active && reqid !in gone
      requires reqidCounter == IdAfter(t.issued)
      modifies this
      ensures reqidCounter == IdAfter(t.issued)
      ensures cleared <==> t.entries[t.active[reqid]].session == session
      ensures State() == Clear(t, if cleared then gone + {reqid} else gone)
    {
      ClearKeepsInv(t, gone, config);
      cleared := entries[activeRequests[reqid]].session == session;
      if cleared {
        ClearOneMore(t, gone, reqid);
        ClearActiveRequest(reqid);
      }
    }

    /** The loop over all requests when a session disconnects. */
    method ClearNamed(session: Name, ghost named: set<nat>)
      requires Valid() && named <= activeRequests.Keys
      requires forall r :: r in activeRequests ==> (r in named <==> entries[activeRequests[r]].session == session)
      modifies this
      ensures State() == Clear(old(State()), named) && reqidCounter == IdAfter(issued)
    {
      ghost var t := State();
      var todo := activeRequests.Keys;
      ghost var gone: set<nat> := {};
      ClearNothing(t);
      while todo != {}
        invariant todo <= t.active.Keys && gone == named - todo
        invariant State() == Clear(t, gone) && reqidCounter == IdAfter(t.issued)
        decreases todo
      {
        var reqid :| reqid in todo;
        assert reqid !in gone;
        var cleared := VisitRequest(reqid, session, t, gone);
        gone := if cleared then gone + {reqid} else gone;
        OneLessNamed(named, todo, reqid);
        todo := todo - {reqid};
      }
      assert gone == named;
    }

    method SetDisconnected(session: Name)
      requires Valid()
      modifies this
      ensures Valid() && State() == After(old(State()), Disconnect(session), config)
    {
      ghost var t := State();
      ClearKeepsInv(t, OfSession(t, session), config);
      ClearNamed(session, OfSession(t, session));
    }
  }

  lemma OneLessNamed(all: set<nat>, todo: set<nat>, r: nat)
    requires r in todo
    ensures all - (todo - {r}) == if r in all then (all - todo) + {r} else all - todo
  {
  }

  // ---------- Sending data ----------

  function DataFrames(reqid: nat, chunks: seq<bytes>): seq<P.Frame> {
    seq(|chunks|, i requires 0 <= i < |chunks| => P.Data(reqid, chunks[i]))
  }

  function Join(chunks: seq<bytes>): bytes {
    if chunks == [] then [] else chunks[0] + Join(chunks[1..])
  }

  /** The data cut into chunks that each fit one frame. */
  function Chunks(data: bytes): seq<bytes>
    decreases |data|
  {
    if data == [] then []
    else if |data| <= P.MAX_DATA_CHUNK then [data]
    else [data[..P.MAX_DATA_CHUNK]] + Chunks(data[P.MAX_DATA_CHUNK..])
  }

  /** The chunks are the data, each is non-empty and fits, and all but the last are full. */
  lemma {:induction false} ChunksAreTheData(data: bytes)
    ensures Join(Chunks(data)) == data
    ensures forall i :: 0 <= i < |Chunks(data)| ==> 0 < |Chunks(data)[i]| <= 65_532
    ensures forall i :: 0 <= i < |Chunks(data)| - 1 ==> |Chunks(data)[i]| == 65_532
    decreases |data|
  {
    if |data| > P.MAX_DATA_CHUNK {
      var first, rest := data[..P.MAX_DATA_CHUNK], data[P.MAX_DATA_CHUNK..];
      ChunksAreTheData(rest);
      assert ([first] + Chunks(rest))[1..] == Chunks(rest);
      assert data == first + rest;
    } else if data != [] {
      assert [data][1..] == [] && data + [] == data;
    }
  }

  lemma FirstChunk(tail: bytes, n: nat)
    requires tail != [] && n == if P.MAX_DATA_CHUNK < |tail| then P.MAX_DATA_CHUNK else |tail|
    ensures Chunks(tail) == [tail[..n]] + Chunks(tail[n..])
  {
    if |tail| <= P.MAX_DATA_CHUNK {
      assert tail[..n] == tail && tail[n..] == [];
    }
  }

  lemma SliceOfTail(data: bytes, offset: nat, end: nat)
    requires offset <= end <= |data|
    ensures data[offset..][..end - offset] == data[offset..end] && data[offset..][end - offset..] == data[end..]
  {
  }

  /** Moving one chunk from the data to come to the chunks so far. */
  lemma NextChunk(data: bytes, offset: nat, end: nat, chunks: seq<bytes>)
    requires offset < |data|
    requires end == if offset + P.MAX_DATA_CHUNK < |data| then offset + P.MAX_DATA_CHUNK else |data|
    requires Chunks(data) == chunks + Chunks(data[offset..])
    ensures Chunks(data) == (chunks + [data[offset..end]]) + Chunks(data[end..])
  {
    SliceOfTail(data, offset, end);
    FirstChunk(data[offset..], end - offset);
    ChunksAssociate(chunks, data[offset..end], Chunks(data[end..]));
  }

  lemma ChunksAssociate(before: seq<bytes>, chunk: bytes, after: seq<bytes>)
    ensures before + ([chunk] + after) == (before + [chunk]) + after
  {
  }

  /** `_sendData`: the receiver's frames carry exactly the chunks of the data, in order. */
  method SendData(reqid: nat, data: bytes) returns (wire: bytes)
    requires reqid < 0x1_0000
    ensures P.DecodeFrames(wire) == Ok(DataFrames(reqid, Chunks(data)))
  {
    wire := [];
    var offset := 0;
    ghost var chunks := [];
    ChunksAreTheData(data);
    assert data[0..] == data && [] + Chunks(data) == Chunks(data);
    while offset < |data|
      invariant 0 <= offset <= |data| && Chunks(data) == chunks + Chunks(data[offset..])
      invariant PT.EncodeAll(DataFrames(reqid, chunks)) == Ok(wire)
    {
      var end := if offset + P.MAX_DATA_CHUNK < |data| then offset + P.MAX_DATA_CHUNK else |data|;
      var chunk := data[offset..end];
      var encoded := P.EncodeFrame(P.Data(reqid, chunk)).value;
      OneMoreChunk(reqid, chunks, wire, chunk, encoded);
      NextChunk(data, offset, end, chunks);
      wire, chunks, offset := wire + encoded, chunks + [chunk], end;
    }
    assert chunks + [] == chunks;
    PT.BatchRoundTripIff(DataFrames(reqid, chunks));
  }

  lemma OneMoreChunk(reqid: nat, chunks: seq<bytes>, wire: bytes, chunk: bytes, encoded: bytes)
    requires PT.EncodeAll(DataFrames(reqid, chunks)) == Ok(wire) && P.EncodeFrame(P.Data(reqid, chunk)) == Ok(encoded)
    ensures PT.EncodeAll(DataFrames(reqid, chunks + [chunk])) == Ok(wire + encoded)
  {
    EncodeOneMore(DataFrames(reqid, chunks), wire, P.Data(reqid, chunk), encoded);
    assert DataFrames(reqid, chunks + [chunk]) == DataFrames(reqid, chunks) + [P.Data(reqid, chunk)];
  }

  lemma EncodeAllCons(f: P.Frame, encoded: bytes, fs: seq<P.Frame>)
    requires P.EncodeFrame(f) == Ok(encoded)
    ensures PT.EncodeAll([f] + fs) ==
            match PT.EncodeAll(fs) { case Ok(rest) => Ok(encoded + rest) case Err(m) => Err(m) }
  {
    assert ([f] + fs)[0] == f && ([f] + fs)[1..] == fs;
  }

  lemma EncodeAllUncons(fs: seq<P.Frame>, wire: bytes) returns (first: bytes, rest: bytes)
    requires fs != [] && PT.EncodeAll(fs) == Ok(wire)
    ensures P.EncodeFrame(fs[0]) == Ok(first) && PT.EncodeAll(fs[1..]) == Ok(rest) && wire == first + rest
  {
    first, rest := P.EncodeFrame(fs[0]).value, PT.EncodeAll(fs[1..]).value;
  }

  lemma {:induction false} EncodeOneMore(fs: seq<P.Frame>, wire: bytes, f: P.Frame, encoded: bytes)
    requires PT.EncodeAll(fs) == Ok(wire) && P.EncodeFrame(f) == Ok(encoded)
    ensures PT.EncodeAll(fs + [f]) == Ok(wire + encoded)
    decreases |fs|
  {
    if fs == [] {
      EncodeAllCons(f, encoded, []);
      assert [f] + [] == fs + [f] && encoded + [] == wire + encoded;
    } else {
      var first, rest := EncodeAllUncons(fs, wire);
      EncodeOneMore(fs[1..], rest, f, encoded);
      EncodeAllCons(fs[0], first, fs[1..] + [f]);
      assert [fs[0]] + (fs[1..] + [f]) == fs + [f];
      Associates(first, rest, encoded);
    }
  }
}
