/** The request table of tunnel/manager.js as a state machine: frames, timers and stream events are single steps. */
module ManagerSpec {

  /** Session ids are opaque. */
  type Name = nat

  datatype Direction = Forward | Reverse

  /**
   One entry object. Entries are numbered in order of creation; `counted` is the flag of reverse entries,
   `cleaned` the one captured by the cleanup of a forward connect, `born` the number of ids issued up to it.
   */
  datatype Entry = Entry(reqid: nat, direction: Direction, session: Name, counted: bool, cleaned: bool, born: nat)

  /** `active` maps a request id to the number of its entry; `issued` counts `_allocateReqid` calls. */
  datatype Table = Table(entries: seq<Entry>, active: map<nat, nat>, issued: nat, forwardCount: int, reverseCount: int)

  datatype Config = Config(maxForward: nat, maxReverse: nat)

  const LAST_REVERSE_ID := 0x7FFF
  const FIRST_FORWARD_ID := 0x8000

  datatype Event =
    | OpenReverse(session: Name)                              // forward(): a stream through the tunnel
    | ConnectFrame(reqid: nat, session: Name, refused: bool)  // CONNECT from the client; refused: a tunnel domain
    | EndRequest(reqid: nat)     // CLOSE or CONNECT_FAILED frame, stream end, connect timeout
    | Cleanup(entry: nat)        // any of timeout, idle, close, error, refusal of a forward socket
    | Disconnect(session: Name)

  function Init(): Table {
    Table([], map[], 0, 0, 0)
  }

  /** The value of the cyclic counter after `n` calls. */
  function IdAfter(n: nat): nat {
    if n == 0 then 0 else (n - 1) % LAST_REVERSE_ID + 1
  }

  const LAST_FORWARD_ID := 0xFFFE

  /** The id the client hands out when it has handed out `n` before. */
  function ForwardIdAfter(n: nat): nat {
    FIRST_FORWARD_ID + n % (LAST_FORWARD_ID - FIRST_FORWARD_ID + 1)
  }

  predicate Live(t: Table, id: nat) {
    id < |t.entries| && t.entries[id].reqid in t.active && t.active[t.entries[id].reqid] == id
  }

  function CountedIds(t: Table): set<nat> {
    set id: nat | id < |t.entries| && t.entries[id].direction == Reverse && t.entries[id].counted
  }

  /** Reverse entries the table still holds. */
  function LiveReverse(t: Table): set<nat> {
    set id: nat | id < |t.entries| && t.entries[id].direction == Reverse && Live(t, id)
  }

  /** Forward connects whose cleanup has not run. */
  function OpenForward(t: Table): set<nat> {
    set id: nat | id < |t.entries| && t.entries[id].direction == Forward && !t.entries[id].cleaned
  }

  function Dropped(t: Table, gone: set<nat>): set<nat> {
    set id: nat | id < |t.entries| && Live(t, id) && t.entries[id].reqid in gone && id in CountedIds(t)
  }

  function Uncount(entries: seq<Entry>, ids: set<nat>): seq<Entry> {
    seq(|entries|, i requires 0 <= i < |entries| => if i in ids then entries[i].(counted := false) else entries[i])
  }

  /** `_clearActiveRequest` for a set of ids: each counted reverse entry is uncounted once. */
  function Clear(t: Table, gone: set<nat>): Table {
    t.(entries := Uncount(t.entries, Dropped(t, gone)),
       active := t.active - gone,
       reverseCount := t.reverseCount - |Dropped(t, gone)|)
  }

  function Add(t: Table, e: Entry): Table {
    t.(entries := t.entries + [e], active := t.active[e.reqid := |t.entries|])
  }

  function OfSession(t: Table, session: Name): set<nat> {
    set r | r in t.active && t.active[r] < |t.entries| && t.entries[t.active[r]].session == session
  }

  predicate Refused(t: Table, e: Event, c: Config) {
    (e.OpenReverse? && t.reverseCount >= c.maxReverse)
    || (e.ConnectFrame? && (e.refused || t.forwardCount >= c.maxForward))
  }

  /** The id under which the event stores a new entry. */
  function NewId(t: Table, e: Event): nat
    requires e.OpenReverse? || e.ConnectFrame?
  {
    if e.OpenReverse? then IdAfter(t.issued + 1) else e.reqid
  }

  function MarkCleaned(t: Table, id: nat): Table
    requires id < |t.entries|
  {
    t.(entries := t.entries[id := t.entries[id].(cleaned := true)], forwardCount := t.forwardCount - 1)
  }

  function After(t: Table, e: Event, c: Config): Table {
    match e
    case OpenReverse(session) =>
      if Refused(t, e, c) then t
      else
        Add(t, Entry(NewId(t, e), Reverse, session, true, false, t.issued + 1)).(
          issued := t.issued + 1, reverseCount := t.reverseCount + 1)
    case ConnectFrame(reqid, session, _) =>
      if Refused(t, e, c) then t
      else Add(t, Entry(reqid, Forward, session, false, false, t.issued)).(forwardCount := t.forwardCount + 1)
    case EndRequest(reqid) => Clear(t, {reqid})
    case Cleanup(id) =>
      if id < |t.entries| && id in OpenForward(t) then Clear(MarkCleaned(t, id), {t.entries[id].reqid}) else t
    case Disconnect(session) => Clear(t, OfSession(t, session))
  }

  /** The event stores its entry over a live reverse one. */
  predicate Overwrites(t: Table, e: Event, c: Config) {
    && (e.OpenReverse? || e.ConnectFrame?) && !Refused(t, e, c)
    && NewId(t, e) in t.active && t.active[NewId(t, e)] in LiveReverse(t)
  }

  /** Counted entries that the table no longer holds. */
  function Leaked(t: Table): set<nat> {
    CountedIds(t) - LiveReverse(t)
  }

  /** The event is accepted and makes a request of `session`. */
  predicate Names(t: Table, e: Event, session: Name, c: Config) {
    !Refused(t, e, c) && ((e.OpenReverse? && e.session == session) || (e.ConnectFrame? && e.session == session))
  }

  /** The live entries of a session, by number. */
  function LiveOf(t: Table, session: Name): set<nat> {
    set id: nat | id < |t.entries| && Live(t, id) && t.entries[id].session == session
  }

  /** Every request is stored under its own id, and reverse ids come from the counter. */
  ghost predicate Recorded(t: Table) {
    && (forall r :: r in t.active ==> t.active[r] < |t.entries| && t.entries[t.active[r]].reqid == r)
    && (forall id: nat :: id < |t.entries| && t.entries[id].direction == Reverse ==>
                            1 <= t.entries[id].born <= t.issued && t.entries[id].reqid == IdAfter(t.entries[id].born))
  }

  ghost predicate Counts(t: Table, c: Config) {
    && LiveReverse(t) <= CountedIds(t)
    && t.reverseCount == |CountedIds(t)| <= c.maxReverse
    && t.forwardCount == |OpenForward(t)| <= c.maxForward
  }

  ghost predicate Inv(t: Table, c: Config) {
    Recorded(t) && Counts(t, c)
  }
}

/** Counts and ids on every run of the request table. */
module ManagerTheorems {
  import opened ManagerSpec

  // ---------- Request ids ----------

  /** Ids stay in the server's half of the id space, and any `LAST_REVERSE_ID` consecutive ones are distinct. */
  lemma IdsAreDistinct(a: nat, b: nat)
    requires 1 <= a < b
    ensures 1 <= IdAfter(a) <= LAST_REVERSE_ID < FIRST_FORWARD_ID
    ensures IdAfter(a) == IdAfter(b) ==> b - a >= LAST_REVERSE_ID
  {
    if IdAfter(a) == IdAfter(b) {
      var p, q := (a - 1) / LAST_REVERSE_ID, (b - 1) / LAST_REVERSE_ID;
      assert a - 1 == p * LAST_REVERSE_ID + (a - 1) % LAST_REVERSE_ID;
      assert b - 1 == q * LAST_REVERSE_ID + (b - 1) % LAST_REVERSE_ID;
      assert q > p;
    }
  }

  /** The client's ids stay in its half, so none is ever one of the server's; a run of 0x7FFF of them has no repeat. */
  lemma ForwardIdsAreDistinct(a: nat, b: nat, issued: nat)
    requires a < b && 1 <= issued
    ensures FIRST_FORWARD_ID <= ForwardIdAfter(a) <= LAST_FORWARD_ID
    ensures ForwardIdAfter(a) != IdAfter(issued)
    ensures ForwardIdAfter(a) == ForwardIdAfter(b) ==> b - a >= 0x7FFF
  {
    IdsAreDistinct(issued, issued + 1);
    if ForwardIdAfter(a) == ForwardIdAfter(b) {
      var p, q := a / 0x7FFF, b / 0x7FFF;
      assert a == p * 0x7FFF + a % 0x7FFF;
      assert b == q * 0x7FFF + b % 0x7FFF;
      assert q > p;
    }
  }

  // ---------- One step ----------

  lemma ClearEffect(t: Table, gone: set<nat>)
    ensures CountedIds(Clear(t, gone)) == CountedIds(t) - Dropped(t, gone)
    ensures LiveReverse(Clear(t, gone)) == (set id | id in LiveReverse(t) && t.entries[id].reqid !in gone)
    ensures OpenForward(Clear(t, gone)) == OpenForward(t)
    ensures Dropped(t, gone) <= CountedIds(t)
  {
    var u := Clear(t, gone);
    assert forall id: nat :: id < |t.entries| ==> u.entries[id] == t.entries[id].(counted := u.entries[id].counted);
  }

  lemma ClearRecords(t: Table, gone: set<nat>)
    requires Recorded(t)
    ensures Recorded(Clear(t, gone))
  {
  }

  /** Set reasoning only: taking the same live ids out of two nested sets leaves their difference alone. */
  lemma SameDifference(counted: set<nat>, live: set<nat>, dropped: set<nat>, live': set<nat>)
    requires live <= counted && dropped <= live && live' == live - dropped
    ensures live' <= counted - dropped && (counted - dropped) - live' == counted - live
    ensures |counted - dropped| == |counted| - |dropped|
  {
    assert counted == (counted - dropped) + dropped;
  }

  lemma ClearKeepsInv(t: Table, gone: set<nat>, c: Config)
    requires Inv(t, c)
    ensures Inv(Clear(t, gone), c) && Leaked(Clear(t, gone)) == Leaked(t)
  {
    ClearEffect(t, gone);
    ClearRecords(t, gone);
    DroppedAreLive(t, gone);
    SameDifference(CountedIds(t), LiveReverse(t), Dropped(t, gone), LiveReverse(Clear(t, gone)));
  }

  lemma DroppedAreLive(t: Table, gone: set<nat>)
    requires LiveReverse(t) <= CountedIds(t)
    ensures Dropped(t, gone) <= LiveReverse(t)
    ensures (set id | id in LiveReverse(t) && t.entries[id].reqid !in gone) == LiveReverse(t) - Dropped(t, gone)
  {
  }

  lemma AddReverseEffect(t: Table, e: Entry)
    requires e.direction == Reverse && e.counted
    ensures var u := Add(t, e);
            && CountedIds(u) == CountedIds(t) + {|t.entries|}
            && OpenForward(u) == OpenForward(t)
            && LiveReverse(u) == (set id | id in LiveReverse(t) && t.entries[id].reqid != e.reqid) + {|t.entries|}
  {
  }

  lemma AddForwardEffect(t: Table, e: Entry)
    requires e.direction == Forward && !e.cleaned
    ensures var u := Add(t, e);
            && CountedIds(u) == CountedIds(t)
            && OpenForward(u) == OpenForward(t) + {|t.entries|}
            && LiveReverse(u) == (set id | id in LiveReverse(t) && t.entries[id].reqid != e.reqid)
  {
  }

  lemma MarkCleanedEffect(t: Table, id: nat)
    requires id < |t.entries| && id in OpenForward(t)
    ensures var u := MarkCleaned(t, id);
            && CountedIds(u) == CountedIds(t) && LiveReverse(u) == LiveReverse(t)
            && OpenForward(u) == OpenForward(t) - {id}
  {
  }

  lemma SameSets(t: Table, u: Table)
    requires t.entries == u.entries && t.active == u.active
    ensures CountedIds(t) == CountedIds(u) && LiveReverse(t) == LiveReverse(u) && OpenForward(t) == OpenForward(u)
  {
  }

  lemma AddRecords(t: Table, e: Entry)
    requires Recorded(t)
    requires e.direction == Reverse ==> e.born == t.issued + 1 && e.reqid == IdAfter(e.born)
    ensures Recorded(Add(t, e).(issued := if e.direction == Reverse then t.issued + 1 else t.issued))
  {
  }

  function Overwritten(t: Table, e: Event, c: Config): set<nat>
    requires Recorded(t)
  {
    if Overwrites(t, e, c) then {t.active[NewId(t, e)]} else {}
  }

  /** Set reasoning only: one counted id joins the live ones and `over` leaves them. */
  lemma OneMoreCounted(counted: set<nat>, live: set<nat>, n: nat, over: set<nat>)
    requires live <= counted && over <= live && n !in counted
    ensures (live - over) + {n} <= counted + {n}
    ensures (counted + {n}) - ((live - over) + {n}) == (counted - live) + over
    ensures |counted + {n}| == |counted| + 1
  {
  }

  lemma OneMore(s: set<nat>, n: nat)
    requires n !in s
    ensures |s + {n}| == |s| + 1
  {
  }

  /** What storing a reverse entry does, whatever happens to the counters. */
  lemma StoredReverse(t: Table, entry: Entry, u: Table)
    requires Recorded(t) && entry.direction == Reverse && entry.counted
    requires entry.born == t.issued + 1 && entry.reqid == IdAfter(entry.born)
    requires u.entries == t.entries + [entry] && u.active == t.active[entry.reqid := |t.entries|]
    requires u.issued == t.issued + 1
    ensures Recorded(u) && OpenForward(u) == OpenForward(t)
    ensures CountedIds(u) == CountedIds(t) + {|t.entries|}
    ensures LiveReverse(u) == (set id | id in LiveReverse(t) && t.entries[id].reqid != entry.reqid) + {|t.entries|}
  {
    AddRecords(t, entry);
    AddReverseEffect(t, entry);
    SameSets(Add(t, entry), u);
  }

  lemma OpenReverseEffect(t: Table, e: Event, c: Config)
    requires Inv(t, c) && e.OpenReverse? && !Refused(t, e, c)
    ensures var u := After(t, e, c);
            && Recorded(u)
            && CountedIds(u) == CountedIds(t) + {|t.entries|}
            && LiveReverse(u) == (LiveReverse(t) - Overwritten(t, e, c)) + {|t.entries|}
            && OpenForward(u) == OpenForward(t)
  {
    StoredReverse(t, Entry(NewId(t, e), Reverse, e.session, true, false, t.issued + 1), After(t, e, c));
    StillLive(t, e, c);
  }

  lemma OpenReverseKeepsInv(t: Table, e: Event, c: Config)
    requires Inv(t, c) && e.OpenReverse? && !Refused(t, e, c)
    ensures Inv(After(t, e, c), c) && Leaked(After(t, e, c)) == Leaked(t) + Overwritten(t, e, c)
  {
    OpenReverseEffect(t, e, c);
    StillLive(t, e, c);
    OneMoreCounted(CountedIds(t), LiveReverse(t), |t.entries|, Overwritten(t, e, c));
  }

  /** Set reasoning only: `over` leaves the live ids. */
  lemma SomeLessLive(counted: set<nat>, live: set<nat>, over: set<nat>)
    requires live <= counted && over <= live
    ensures live - over <= counted && counted - (live - over) == (counted - live) + over
  {
  }

  lemma ConnectEffect(t: Table, e: Event, c: Config)
    requires Inv(t, c) && e.ConnectFrame? && !Refused(t, e, c)
    ensures var u := After(t, e, c);
            && Recorded(u)
            && CountedIds(u) == CountedIds(t)
            && LiveReverse(u) == LiveReverse(t) - Overwritten(t, e, c)
            && OpenForward(u) == OpenForward(t) + {|t.entries|}
  {
    var entry := Entry(e.reqid, Forward, e.session, false, false, t.issued);
    AddRecords(t, entry);
    AddForwardEffect(t, entry);
    StillLive(t, e, c);
    SameSets(Add(t, entry), After(t, e, c));
  }

  lemma ConnectKeepsInv(t: Table, e: Event, c: Config)
    requires Inv(t, c) && e.ConnectFrame? && !Refused(t, e, c)
    ensures Inv(After(t, e, c), c) && Leaked(After(t, e, c)) == Leaked(t) + Overwritten(t, e, c)
  {
    ConnectEffect(t, e, c);
    StillLive(t, e, c);
    SomeLessLive(CountedIds(t), LiveReverse(t), Overwritten(t, e, c));
    OneMore(OpenForward(t), |t.entries|);
  }

  /** The live reverse entries under other ids: all but the one that is overwritten, if any. */
  lemma StillLive(t: Table, e: Event, c: Config)
    requires Inv(t, c) && (e.OpenReverse? || e.ConnectFrame?) && !Refused(t, e, c)
    ensures (set id | id in LiveReverse(t) && t.entries[id].reqid != NewId(t, e)) ==
            LiveReverse(t) - Overwritten(t, e, c)
    ensures Overwritten(t, e, c) <= LiveReverse(t)
  {
  }

  lemma MarkCleanedKeepsInv(t: Table, id: nat, c: Config)
    requires Inv(t, c) && id < |t.entries| && id in OpenForward(t)
    ensures Inv(MarkCleaned(t, id), c) && Leaked(MarkCleaned(t, id)) == Leaked(t)
  {
    MarkCleanedEffect(t, id);
  }

  lemma EndKeepsInv(t: Table, e: Event, c: Config)
    requires Inv(t, c) && (e.EndRequest? || e.Disconnect?)
    ensures Inv(After(t, e, c), c) && Leaked(After(t, e, c)) == Leaked(t)
  {
    ClearKeepsInv(t, if e.EndRequest? then {e.reqid} else OfSession(t, e.session), c);
  }

  lemma CleanupKeepsInv(t: Table, id: nat, c: Config)
    requires Inv(t, c)
    ensures Inv(After(t, Cleanup(id), c), c) && Leaked(After(t, Cleanup(id), c)) == Leaked(t)
  {
    if id < |t.entries| && id in OpenForward(t) {
      MarkCleanedKeepsInv(t, id, c);
      ClearKeepsInv(MarkCleaned(t, id), {t.entries[id].reqid}, c);
    }
  }

  /** The counters are exact after every event, and a leak appears exactly when it overwrites a live reverse entry. */
  lemma StepKeepsInv(t: Table, e: Event, c: Config)
    requires Inv(t, c)
    ensures Inv(After(t, e, c), c)
    ensures Leaked(After(t, e, c)) == Leaked(t) + Overwritten(t, e, c)
  {
    if Refused(t, e, c) {
      return;
    }
    match e {
      case OpenReverse(session) => OpenReverseKeepsInv(t, e, c);
      case ConnectFrame(reqid, session, _) => ConnectKeepsInv(t, e, c);
      case EndRequest(reqid) => EndKeepsInv(t, e, c);
      case Cleanup(id) => CleanupKeepsInv(t, id, c);
      case Disconnect(session) => EndKeepsInv(t, e, c);
    }
  }

  // ---------- Runs ----------

  /** Step `i` of the run is the effect of event `i`. */
  predicate Follows(ts: seq<Table>, events: seq<Event>, c: Config, i: nat) {
    i < |events| && i + 1 < |ts| && ts[i + 1] == After(ts[i], events[i], c)
  }

  ghost predicate IsRun(ts: seq<Table>, events: seq<Event>, c: Config) {
    && |ts| == |events| + 1 && ts[0] == Init()
    && forall i :: 0 <= i < |events| ==> Follows(ts, events, c, i)
  }

  lemma InvAtFirst(c: Config)
    ensures Inv(Init(), c)
  {
    assert CountedIds(Init()) == {} && OpenForward(Init()) == {};
  }

  lemma InvNext(ts: seq<Table>, events: seq<Event>, c: Config, i: nat)
    requires IsRun(ts, events, c) && i < |events| && Inv(ts[i], c)
    ensures Inv(ts[i + 1], c)
  {
    assert Follows(ts, events, c, i);
    StepKeepsInv(ts[i], events[i], c);
  }

  /**
   On every run: the forward counter is the number of forward connects not yet cleaned up, the reverse counter
   the number of counted reverse entries, and neither leaves its limits, whatever order timeouts, closes,
   errors and CLOSE frames come in.
   */
  lemma {:induction false} CountersAreExact(ts: seq<Table>, events: seq<Event>, c: Config, i: nat)
    requires IsRun(ts, events, c) && i < |ts|
    ensures Inv(ts[i], c)
    ensures 0 <= ts[i].forwardCount <= c.maxForward && 0 <= ts[i].reverseCount <= c.maxReverse
  {
    if i > 0 {
      CountersAreExact(ts, events, c, i - 1);
      InvNext(ts, events, c, i - 1);
    } else {
      InvAtFirst(c);
    }
  }

  /** No event up to point `i` stored its entry over a live reverse one. */
  predicate NeverOverwrites(ts: seq<Table>, events: seq<Event>, i: nat, c: Config)
    requires |ts| == |events| + 1 && i < |ts|
  {
    forall j :: 0 <= j < i ==> !Overwrites(ts[j], events[j], c)
  }

  lemma LeakedNext(ts: seq<Table>, events: seq<Event>, c: Config, i: nat)
    requires IsRun(ts, events, c) && i < |events|
    ensures Leaked(ts[i + 1]) == {} <==> Leaked(ts[i]) == {} && !Overwrites(ts[i], events[i], c)
  {
    CountersAreExact(ts, events, c, i);
    StepKeepsInv(ts[i], events[i], c);
    assert Follows(ts, events, c, i);
  }

  lemma NothingLeakedAtFirst()
    ensures Leaked(Init()) == {}
  {
  }

  lemma {:induction false} LeakedIff(ts: seq<Table>, events: seq<Event>, c: Config, i: nat)
    requires IsRun(ts, events, c) && i < |ts|
    ensures Leaked(ts[i]) == {} <==> NeverOverwrites(ts, events, i, c)
  {
    if i > 0 {
      LeakedIff(ts, events, c, i - 1);
      LeakedNext(ts, events, c, i - 1);
    } else {
      NothingLeakedAtFirst();
    }
  }

  /** The reverse counter is the number of live reverse requests if and only if no live one was ever overwritten. */
  lemma ReverseCountIsLiveIff(ts: seq<Table>, events: seq<Event>, c: Config, i: nat)
    requires IsRun(ts, events, c) && i < |ts|
    ensures ts[i].reverseCount == |LiveReverse(ts[i])| <==> NeverOverwrites(ts, events, i, c)
  {
    LeakedIff(ts, events, c, i);
    CountersAreExact(ts, events, c, i);
    var t := ts[i];
    assert CountedIds(t) == LiveReverse(t) + Leaked(t);
    assert |CountedIds(t)| == |LiveReverse(t)| + |Leaked(t)|;
  }

  // ---------- When nothing is overwritten ----------

  /** No live reverse request has seen so many ids issued that the next one could be its own. */
  ghost predicate Young(t: Table) {
    forall id :: id in LiveReverse(t) ==> t.issued + 1 - t.entries[id].born < LAST_REVERSE_ID
  }

  /** Young requests and a client that keeps to its half of the ids: no event overwrites a live reverse entry. */
  lemma YoungIsSafe(t: Table, e: Event, c: Config)
    requires Inv(t, c) && Young(t) && (e.ConnectFrame? ==> e.reqid >= FIRST_FORWARD_ID)
    ensures !Overwrites(t, e, c)
  {
    if Overwrites(t, e, c) {
      var id := t.active[NewId(t, e)];
      IdsAreDistinct(t.entries[id].born, t.issued + 1);
    }
  }

  /** If that holds all along a run, the reverse counter always is the number of live reverse requests. */
  lemma ReverseCountIsLive(ts: seq<Table>, events: seq<Event>, c: Config, i: nat)
    requires IsRun(ts, events, c) && i < |ts|
    requires forall j :: 0 <= j < i ==>
                           Young(ts[j]) && (events[j].ConnectFrame? ==> events[j].reqid >= FIRST_FORWARD_ID)
    ensures ts[i].reverseCount == |LiveReverse(ts[i])|
  {
    forall j | 0 <= j < i
      ensures !Overwrites(ts[j], events[j], c)
    {
      CountersAreExact(ts, events, c, j);
      YoungIsSafe(ts[j], events[j], c);
    }
    ReverseCountIsLiveIff(ts, events, c, i);
  }

  lemma ClearSpares(t: Table, gone: set<nat>, r: nat)
    requires Recorded(t) && r in t.active && r !in gone
    ensures var u := Clear(t, gone);
            r in u.active && u.active[r] == t.active[r] && u.entries[u.active[r]] == t.entries[t.active[r]]
  {
  }

  lemma ClearForgets(t: Table, session: Name)
    requires Recorded(t)
    ensures OfSession(Clear(t, OfSession(t, session)), session) == {}
  {
    var gone := OfSession(t, session);
    var u := Clear(t, gone);
    forall r | r in u.active
      ensures r !in OfSession(u, session)
    {
      ClearSpares(t, gone, r);
    }
  }

  /** Clearing the requests of a session leaves the entries of the others alone. */
  lemma OthersKeepTheirEntries(t: Table, session: Name)
    requires Recorded(t)
    ensures forall id: nat :: id < |t.entries| && t.entries[id].session != session ==>
                                id !in Dropped(t, OfSession(t, session))
  {
  }

  lemma DisconnectIsClear(t: Table, session: Name, c: Config)
    ensures After(t, Disconnect(session), c) == Clear(t, OfSession(t, session))
  {
  }

  lemma DisconnectClears(t: Table, session: Name, c: Config, u: Table)
    requires Recorded(t) && u == After(t, Disconnect(session), c)
    ensures OfSession(u, session) == {}
  {
    DisconnectIsClear(t, session, c);
    ClearForgets(t, session);
  }

  /**
   Right after a session disconnects no request names it; the requests of the other sessions are all there, with
   their entries unchanged.
   */
  lemma DisconnectForgets(t: Table, session: Name, c: Config)
    requires Recorded(t)
    ensures OfSession(After(t, Disconnect(session), c), session) == {}
    ensures var u := After(t, Disconnect(session), c);
            && u.active == t.active - OfSession(t, session) && u.forwardCount == t.forwardCount
            && |u.entries| == |t.entries|
            && forall id: nat :: id < |t.entries| && t.entries[id].session != session ==> u.entries[id] == t.entries[id]
  {
    DisconnectClears(t, session, c, After(t, Disconnect(session), c));
    OthersKeepTheirEntries(t, session);
  }

  // ---------- Late cleanups ----------

  /** Some other request is live before the event and not after it. */
  ghost predicate EndsAnother(t: Table, u: Table, id: nat) {
    exists other :: other != id && Live(t, other) && !Live(u, other)
  }

  /**
   The first cleanup of a forward connect counts it down and clears its id, whoever has that id by now: it ends
   another request if and only if another one was stored under the same id since.
   */
  lemma CleanupEndsAnotherIff(t: Table, id: nat, c: Config)
    requires Recorded(t) && id < |t.entries| && t.entries[id].direction == Forward && !t.entries[id].cleaned
    ensures var u, reqid := After(t, Cleanup(id), c), t.entries[id].reqid;
            && u.forwardCount == t.forwardCount - 1 && u.active == t.active - {reqid} && u.issued == t.issued
            && |u.entries| == |t.entries| && u.entries[id].cleaned && After(u, Cleanup(id), c) == u
            && (EndsAnother(t, u, id) <==> reqid in t.active && t.active[reqid] != id)
  {
    var u, reqid := After(t, Cleanup(id), c), t.entries[id].reqid;
    CleanupShape(t, id, c, u);
    SameIdsEndAnother(t, u, id, reqid);
  }

  lemma CleanupShape(t: Table, id: nat, c: Config, u: Table)
    requires id < |t.entries| && t.entries[id].direction == Forward && !t.entries[id].cleaned
    requires u == After(t, Cleanup(id), c)
    ensures u.forwardCount == t.forwardCount - 1 && u.active == t.active - {t.entries[id].reqid}
    ensures u.issued == t.issued && |u.entries| == |t.entries| && u.entries[id].cleaned
    ensures After(u, Cleanup(id), c) == u
    ensures forall other: nat :: other < |t.entries| ==> u.entries[other].reqid == t.entries[other].reqid
  {
    assert id in OpenForward(t) && u == Clear(MarkCleaned(t, id), {t.entries[id].reqid});
  }

  lemma SameIdsEndAnother(t: Table, u: Table, id: nat, reqid: nat)
    requires Recorded(t) && id < |t.entries| && t.entries[id].reqid == reqid
    requires u.active == t.active - {reqid} && |u.entries| == |t.entries|
    requires forall other: nat :: other < |t.entries| ==> u.entries[other].reqid == t.entries[other].reqid
    ensures EndsAnother(t, u, id) <==> reqid in t.active && t.active[reqid] != id
  {
    if reqid in t.active && t.active[reqid] != id {
      assert Live(t, t.active[reqid]) && !Live(u, t.active[reqid]);
    }
  }

  // ---------- After a disconnect ----------

  lemma NoneNamedIff(t: Table, session: Name)
    requires Recorded(t)
    ensures OfSession(t, session) == {} <==> LiveOf(t, session) == {}
  {
    if r :| r in OfSession(t, session) {
      assert t.active[r] in LiveOf(t, session);
    }
    if id :| id in LiveOf(t, session) {
      assert t.entries[id].reqid in OfSession(t, session);
    }
  }

  lemma AddLiveOf(t: Table, e: Entry, session: Name)
    requires Recorded(t)
    ensures var u := Add(t, e);
            LiveOf(u, session) == (set id | id in LiveOf(t, session) && Live(u, id))
                                  + if e.session == session then {|t.entries|} else {}
  {
    var u := Add(t, e);
    assert forall id: nat :: id < |t.entries| ==> u.entries[id] == t.entries[id];
    assert Live(u, |t.entries|);
    forall id | id in LiveOf(u, session) && id < |t.entries|
      ensures id in LiveOf(t, session)
    {
    }
  }

  lemma ClearLiveOf(t: Table, gone: set<nat>, session: Name)
    ensures var u := Clear(t, gone);
            LiveOf(u, session) == (set id | id in LiveOf(t, session) && Live(u, id))
  {
    var u := Clear(t, gone);
    assert forall id: nat :: id < |t.entries| ==> u.entries[id] == t.entries[id].(counted := u.entries[id].counted);
  }

  lemma MarkLiveOf(t: Table, id: nat, session: Name)
    requires id < |t.entries|
    ensures LiveOf(MarkCleaned(t, id), session) == LiveOf(t, session)
    ensures forall other :: Live(MarkCleaned(t, id), other) <==> Live(t, other)
  {
  }

  lemma SameLive(t: Table, u: Table, session: Name)
    requires t.entries == u.entries && t.active == u.active
    ensures LiveOf(t, session) == LiveOf(u, session) && forall id :: Live(t, id) <==> Live(u, id)
  {
  }

  lemma NewLiveOf(t: Table, e: Event, c: Config, session: Name)
    requires Recorded(t) && (e.OpenReverse? || e.ConnectFrame?)
    ensures var u := After(t, e, c);
            LiveOf(u, session) == (set id | id in LiveOf(t, session) && Live(u, id))
                                  + if Names(t, e, session, c) then {|t.entries|} else {}
  {
    if !Refused(t, e, c) {
      var entry := if e.OpenReverse? then Entry(NewId(t, e), Reverse, e.session, true, false, t.issued + 1)
                   else Entry(e.reqid, Forward, e.session, false, false, t.issued);
      AddLiveOf(t, entry, session);
      SameLive(Add(t, entry), After(t, e, c), session);
    }
  }

  /** After one event the live entries of a session are those that stayed live, and the one that it makes, if any. */
  lemma LiveOfNext(t: Table, e: Event, c: Config, session: Name)
    requires Recorded(t)
    ensures var u := After(t, e, c);
            LiveOf(u, session) == (set id | id in LiveOf(t, session) && Live(u, id))
                                  + if Names(t, e, session, c) then {|t.entries|} else {}
  {
    match e {
      case OpenReverse(s) => NewLiveOf(t, e, c, session);
      case ConnectFrame(reqid, s, _) => NewLiveOf(t, e, c, session);
      case EndRequest(reqid) => ClearLiveOf(t, {reqid}, session);
      case Cleanup(id) => CleanupLiveOf(t, id, c, session);
      case Disconnect(s) => ClearLiveOf(t, OfSession(t, s), session);
    }
  }

  lemma CleanupLiveOf(t: Table, id: nat, c: Config, session: Name)
    ensures var u := After(t, Cleanup(id), c);
            LiveOf(u, session) == (set other | other in LiveOf(t, session) && Live(u, other))
  {
    if id < |t.entries| && id in OpenForward(t) {
      MarkLiveOf(t, id, session);
      ClearLiveOf(MarkCleaned(t, id), {t.entries[id].reqid}, session);
    }
  }

  /** A session that no request names is named after an event if and only if the event makes a request of it. */
  lemma NamedNextIff(t: Table, e: Event, c: Config, session: Name)
    requires Recorded(t) && Recorded(After(t, e, c)) && OfSession(t, session) == {}
    ensures OfSession(After(t, e, c), session) != {} <==> Names(t, e, session, c)
  {
    NoneNamedIff(t, session);
    NoneNamedIff(After(t, e, c), session);
    LiveOfNext(t, e, c, session);
  }

  /** The entries are never renumbered, and an entry that is not live never becomes live again. */
  lemma OldEntries(t: Table, e: Event, c: Config, id: nat)
    requires Recorded(t) && id < |t.entries|
    ensures |t.entries| <= |After(t, e, c).entries|
    ensures Live(After(t, e, c), id) ==> Live(t, id)
  {
    if e.Cleanup? && e.entry < |t.entries| && e.entry in OpenForward(t) {
      assert t.entries[e.entry := t.entries[e.entry].(cleaned := true)][id].reqid == t.entries[id].reqid;
    }
  }

  /** Event `k` of a run made a request of `session` that is live in `t`. */
  predicate LeftBehind(ts: seq<Table>, events: seq<Event>, c: Config, k: nat, t: Table, session: Name)
    requires k < |events| && k < |ts|
  {
    Names(ts[k], events[k], session, c) && Live(t, |ts[k].entries|)
  }

  /** Entry `id` was made for `session` by an event between points `i` and `j`, and is live in `t`. */
  ghost predicate MadeBetween(ts: seq<Table>, events: seq<Event>, c: Config, i: nat, j: nat,
                              t: Table, session: Name, id: nat)
    requires i <= j <= |events| && |ts| == |events| + 1
  {
    exists k :: i <= k < j && LeftBehind(ts, events, c, k, t, session) && |ts[k].entries| == id
  }

  lemma RecordedAt(ts: seq<Table>, events: seq<Event>, c: Config, i: nat)
    requires IsRun(ts, events, c) && i < |ts|
    ensures Recorded(ts[i])
  {
    CountersAreExact(ts, events, c, i);
  }

  lemma {:induction false} LiveOfRun(ts: seq<Table>, events: seq<Event>, c: Config, i: nat, j: nat, session: Name)
    requires IsRun(ts, events, c) && i <= j < |ts| && OfSession(ts[i], session) == {}
    ensures forall id :: id in LiveOf(ts[j], session) <==> MadeBetween(ts, events, c, i, j, ts[j], session, id)
    decreases j
  {
    if i == j {
      RecordedAt(ts, events, c, j);
      NoneNamedIff(ts[j], session);
    } else {
      LiveOfRun(ts, events, c, i, j - 1, session);
      LiveOfStep(ts, events, c, i, j - 1, j, ts[j], session);
    }
  }

  lemma LiveOfStep(ts: seq<Table>, events: seq<Event>, c: Config, i: nat, j: nat, j': nat, u: Table, session: Name)
    requires IsRun(ts, events, c) && i <= j < j' == j + 1 < |ts| && u == ts[j']
    requires forall id :: id in LiveOf(ts[j], session) <==> MadeBetween(ts, events, c, i, j, ts[j], session, id)
    ensures forall id :: id in LiveOf(u, session) <==> MadeBetween(ts, events, c, i, j', u, session, id)
  {
    var t := ts[j];
    RecordedAt(ts, events, c, j);
    assert Follows(ts, events, c, j);
    LiveOfNext(t, events[j], c, session);
    forall id | id in LiveOf(u, session)
      ensures MadeBetween(ts, events, c, i, j', u, session, id)
    {
      if id in LiveOf(t, session) {
        assert MadeBetween(ts, events, c, i, j, t, session, id);
        var k :| i <= k < j && LeftBehind(ts, events, c, k, t, session) && |ts[k].entries| == id;
        assert LeftBehind(ts, events, c, k, u, session);
      } else {
        assert LeftBehind(ts, events, c, j, u, session);
      }
    }
    forall id | MadeBetween(ts, events, c, i, j', u, session, id)
      ensures id in LiveOf(u, session)
    {
      var k :| i <= k < j' && LeftBehind(ts, events, c, k, u, session) && |ts[k].entries| == id;
      if k < j {
        EntriesGrow(ts, events, c, k, j, session);
        OldEntries(t, events[j], c, id);
        assert LeftBehind(ts, events, c, k, t, session);
        assert MadeBetween(ts, events, c, i, j, t, session, id);
      }
    }
  }

  /** An entry made by event `k` has its number in every later table. */
  lemma {:induction false} EntriesGrow(ts: seq<Table>, events: seq<Event>, c: Config, k: nat, j: nat, session: Name)
    requires IsRun(ts, events, c) && k < j < |ts| && Names(ts[k], events[k], session, c)
    ensures |ts[k].entries| < |ts[j].entries|
    decreases j
  {
    assert Follows(ts, events, c, j - 1);
    if k < j - 1 {
      EntriesGrow(ts, events, c, k, j - 1, session);
      RecordedAt(ts, events, c, j - 1);
      OldEntries(ts[j - 1], events[j - 1], c, |ts[k].entries|);
    }
  }

  /**
   The exact condition on runs: of a session that no request named at point `i`, some request names it at the later
   point `j` if and only if an event in between made a request of it that is still live.
   */
  lemma NamedLaterIff(ts: seq<Table>, events: seq<Event>, c: Config, i: nat, j: nat, session: Name)
    requires IsRun(ts, events, c) && i <= j < |ts| && OfSession(ts[i], session) == {}
    ensures OfSession(ts[j], session) != {} <==>
            exists k :: i <= k < j && LeftBehind(ts, events, c, k, ts[j], session)
  {
    RecordedAt(ts, events, c, j);
    LiveOfRun(ts, events, c, i, j, session);
    NoneNamedIff(ts[j], session);
    if id :| id in LiveOf(ts[j], session) {
      assert MadeBetween(ts, events, c, i, j, ts[j], session, id);
    }
    if k :| i <= k < j && LeftBehind(ts, events, c, k, ts[j], session) {
      assert MadeBetween(ts, events, c, i, j, ts[j], session, |ts[k].entries|);
    }
  }

  lemma StillForgottenIff(ts: seq<Table>, events: seq<Event>, c: Config, j: nat, session: Name)
    requires IsRun(ts, events, c) && j < |events| && OfSession(ts[j], session) == {}
    ensures OfSession(ts[j + 1], session) == {} <==> !Names(ts[j], events[j], session, c)
  {
    RecordedAt(ts, events, c, j);
    RecordedAt(ts, events, c, j + 1);
    assert Follows(ts, events, c, j);
    NamedNextIff(ts[j], events[j], c, session);
  }

  /** From point `i` on no request names the session. */
  predicate ForgottenFrom(ts: seq<Table>, i: nat, session: Name) {
    forall j :: i <= j < |ts| ==> OfSession(ts[j], session) == {}
  }

  /** From point `i` on no event makes a request of the session. */
  predicate NeverNamed(ts: seq<Table>, events: seq<Event>, i: nat, session: Name, c: Config)
    requires |ts| == |events| + 1
  {
    forall k :: i <= k < |events| ==> !Names(ts[k], events[k], session, c)
  }

  lemma {:induction false} StaysForgotten(ts: seq<Table>, events: seq<Event>, c: Config, i: nat, j: nat, session: Name)
    requires IsRun(ts, events, c) && i <= j < |ts| && OfSession(ts[i], session) == {}
    requires NeverNamed(ts, events, i, session, c)
    ensures OfSession(ts[j], session) == {}
    decreases j
  {
    if i < j {
      StaysForgotten(ts, events, c, i, j - 1, session);
      StillForgottenIff(ts, events, c, j - 1, session);
    }
  }

  /** Once no request names a session, none ever does again if and only if no later event makes one of it. */
  lemma ForgottenIffNeverNamed(ts: seq<Table>, events: seq<Event>, c: Config, i: nat, session: Name)
    requires IsRun(ts, events, c) && i < |ts| && OfSession(ts[i], session) == {}
    ensures ForgottenFrom(ts, i, session) <==> NeverNamed(ts, events, i, session, c)
  {
    if NeverNamed(ts, events, i, session, c) {
      forall j | i <= j < |ts|
        ensures OfSession(ts[j], session) == {}
      {
        StaysForgotten(ts, events, c, i, j, session);
      }
    }
    if ForgottenFrom(ts, i, session) {
      forall k | i <= k < |events|
        ensures !Names(ts[k], events[k], session, c)
      {
        StillForgottenIff(ts, events, c, k, session);
      }
    }
  }

  lemma ForgottenNext(ts: seq<Table>, events: seq<Event>, c: Config, i: nat, session: Name)
    requires IsRun(ts, events, c) && i < |events| && events[i] == Disconnect(session)
    ensures OfSession(ts[i + 1], session) == {}
  {
    assert Follows(ts, events, c, i);
    RecordedAt(ts, events, c, i);
    DisconnectClears(ts[i], session, c, ts[i + 1]);
  }

  /** After a disconnect no request ever names the session again, if and only if no later event makes one of it. */
  lemma ForgottenForGoodIff(ts: seq<Table>, events: seq<Event>, c: Config, i: nat, session: Name)
    requires IsRun(ts, events, c) && i < |events| && events[i] == Disconnect(session)
    ensures ForgottenFrom(ts, i + 1, session) <==> NeverNamed(ts, events, i + 1, session, c)
  {
    ForgottenNext(ts, events, c, i, session);
    ForgottenIffNeverNamed(ts, events, c, i + 1, session);
  }
}
