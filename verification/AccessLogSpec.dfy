/**
 The access log of proxy/attacker.js, and what it is meant to know, defined from the whole history of calls:
 how often an address came in the last two minutes, whether it is exempt, and whether it is marked bad.
 */
module AccessLogSpec {
  import opened Bytes

  const WINDOW_MS := 120_000
  const BAD_THRESHOLD := 20
  const INACTIVE_TIMEOUT := 600_000
  const GOOD_GUY_DURATION := 600_000
  const MAX_RECORDS := 10_000
  const EVICTED_RECORDS := 1000

  /** An address; only its identity matters. */
  type Ip = nat

  datatype Record = Record(timestamps: seq<nat>, isBad: bool, lastSeen: nat, goodUntil: Option<nat>)

  type Log = map<Ip, Record>

  /** One call that changes the log; `evicted` is what the size cap removed during a clean-up. */
  datatype Event =
    | Access(ip: Ip, at: nat)
    | Good(ip: Ip, at: nat)
    | Sweep(at: nat, evicted: set<Ip>)

  // ---------- What the code keeps ----------

  function NewRecord(lastSeen: nat): Record {
    Record([], false, lastSeen, None)
  }

  /** The timestamps later than `since`, in their order. */
  function After(timestamps: seq<nat>, since: int): seq<nat> {
    if timestamps == [] then []
    else
      var rest := After(timestamps[..|timestamps| - 1], since);
      var last := timestamps[|timestamps| - 1];
      if last > since then rest + [last] else rest
  }

  predicate InGoodPeriod(r: Record, now: nat) {
    r.goodUntil.Some? && now < r.goodUntil.value
  }

  function RecordOf(log: Log, ip: Ip): Record {
    if ip in log then log[ip] else NewRecord(0)
  }

  function Accessed(r: Record, now: nat): Record {
    var timestamps := After(r.timestamps, now - WINDOW_MS) + [now];
    Record(timestamps, !InGoodPeriod(r, now) && (r.isBad || |timestamps| >= BAD_THRESHOLD), now, r.goodUntil)
  }

  function Praised(r: Record, now: nat): Record {
    r.(goodUntil := Some(now + GOOD_GUY_DURATION), lastSeen := now, isBad := false)
  }

  predicate Expired(r: Record, now: nat) {
    !InGoodPeriod(r, now) && r.lastSeen < now - INACTIVE_TIMEOUT
  }

  function Pruned(r: Record, now: nat): Record {
    r.(timestamps := After(r.timestamps, now - WINDOW_MS))
  }

  /** A clean-up before the size cap is applied. */
  function Swept(log: Log, now: nat): Log {
    map ip | ip in log && !Expired(log[ip], now) :: Pruned(log[ip], now)
  }

  function Apply(log: Log, e: Event): Log {
    match e
    case Access(ip, at) => log[ip := Accessed(RecordOf(log, ip), at)]
    case Good(ip, at) => log[ip := Praised(RecordOf(log, ip), at)]
    case Sweep(at, evicted) => Swept(log, at) - evicted
  }

  // ---------- What the history says ----------

  type History = seq<Event>

  function End(h: History): nat {
    if h == [] then 0 else h[|h| - 1].at
  }

  /** The clock never runs backwards. */
  predicate Clocked(h: History) {
    forall i, j :: 0 <= i < j < |h| ==> h[i].at <= h[j].at
  }

  predicate Evicts(e: Event, ip: Ip) {
    e.Sweep? && ip in e.evicted
  }

  /** How often `ip` came after `since`, over the whole history. */
  function Visits(h: History, ip: Ip, since: int): nat {
    if h == [] then 0
    else
      var last := h[|h| - 1];
      Visits(h[..|h| - 1], ip, since) + if last.Access? && last.ip == ip && last.at > since then 1 else 0
  }

  /** When `ip` came after `since`, not counting anything before the size cap last evicted it. */
  function Remembered(h: History, ip: Ip, since: int): seq<nat> {
    if h == [] then []
    else
      var rest := Remembered(h[..|h| - 1], ip, since);
      match h[|h| - 1]
      case Access(from, at) => if from == ip && at > since then rest + [at] else rest
      case Good(_, _) => rest
      case Sweep(_, evicted) => if ip in evicted then [] else rest
  }

  predicate NotEvictedAfter(h: History, i: nat, ip: Ip) {
    forall j :: i < j < |h| ==> !Evicts(h[j], ip)
  }

  predicate GoodAt(h: History, i: nat, ip: Ip, now: nat)
    requires i < |h|
  {
    h[i].Good? && h[i].ip == ip && now < h[i].at + GOOD_GUY_DURATION
  }

  /** Some praise of `ip` is less than ten minutes old at `now`, and the size cap has not removed it. */
  predicate Exempt(h: History, ip: Ip, now: nat) {
    exists i :: 0 <= i < |h| && GoodAt(h, i, ip, now) && NotEvictedAfter(h, i, ip)
  }

  predicate About(e: Event, ip: Ip) {
    !e.Sweep? && e.ip == ip
  }

  /** The time of the last call about `ip`. */
  function LastSeen(h: History, ip: Ip): nat {
    if h == [] then 0
    else if About(h[|h| - 1], ip) then h[|h| - 1].at
    else LastSeen(h[..|h| - 1], ip)
  }

  /** Event `k` is an access outside any exemption that brings the count to the threshold. */
  predicate Offends(h: History, k: nat, ip: Ip)
    requires k < |h|
  {
    && h[k].Access? && h[k].ip == ip
    && !Exempt(h[..k], ip, h[k].at)
    && |Remembered(h[..k + 1], ip, h[k].at - WINDOW_MS)| >= BAD_THRESHOLD
  }

  /** Event `j` praises `ip`, or is a clean-up that evicts it or finds it unseen for ten minutes and not exempt. */
  predicate Forgives(h: History, j: nat, ip: Ip)
    requires j < |h|
  {
    || (h[j].Good? && h[j].ip == ip)
    || Evicts(h[j], ip)
    || (h[j].Sweep? && !Exempt(h[..j], ip, h[j].at) && LastSeen(h[..j], ip) < h[j].at - INACTIVE_TIMEOUT)
  }

  predicate NotForgivenAfter(h: History, k: nat, ip: Ip) {
    forall j :: k < j < |h| ==> !Forgives(h, j, ip)
  }

  /** Some offence of `ip` was never forgiven. */
  predicate Flagged(h: History, ip: Ip) {
    exists k :: 0 <= k < |h| && Offends(h, k, ip) && NotForgivenAfter(h, k, ip)
  }

  /** The log after a whole history. */
  function LogOf(h: History): Log {
    if h == [] then map[] else Apply(LogOf(h[..|h| - 1]), h[|h| - 1])
  }
}

module AccessLogTheorems {
  import opened Bytes
  import opened AccessLogSpec

  // ---------- Windows ----------

  lemma {:induction false} AfterAfter(timestamps: seq<nat>, a: int, b: int)
    requires a <= b
    ensures After(After(timestamps, a), b) == After(timestamps, b)
    decreases |timestamps|
  {
    if timestamps != [] {
      var rest, last := timestamps[..|timestamps| - 1], timestamps[|timestamps| - 1];
      AfterAfter(rest, a, b);
      if last > a {
        assert (After(rest, a) + [last])[..|After(rest, a)|] == After(rest, a);
      }
    }
  }

  lemma {:induction false} RememberedAfter(h: History, ip: Ip, a: int, b: int)
    requires a <= b
    ensures After(Remembered(h, ip, a), b) == Remembered(h, ip, b)
    decreases |h|
  {
    if h != [] {
      var rest := Remembered(h[..|h| - 1], ip, a);
      RememberedAfter(h[..|h| - 1], ip, a, b);
      var last := h[|h| - 1];
      if last.Access? && last.ip == ip && last.at > a {
        assert (rest + [last.at])[..|rest|] == rest;
      }
    }
  }

  lemma {:induction false} LastSeenIsPast(h: History, ip: Ip)
    requires Clocked(h)
    ensures LastSeen(h, ip) <= End(h)
    decreases |h|
  {
    if h != [] {
      LastSeenIsPast(h[..|h| - 1], ip);
    }
  }

  lemma {:induction false} NothingSince(h: History, ip: Ip, since: int)
    requires Clocked(h) && LastSeen(h, ip) <= since
    ensures Remembered(h, ip, since) == []
    decreases |h|
  {
    if h != [] {
      LastSeenIsPast(h[..|h| - 1], ip);
      NothingSince(h[..|h| - 1], ip, since);
    }
  }

  // ---------- One more event ----------

  lemma LogOfNext(h: History, e: Event)
    ensures LogOf(h + [e]) == Apply(LogOf(h), e)
  {
    assert (h + [e])[..|h|] == h;
  }

  lemma LogOfAccess(h: History, ip: Ip, at: nat)
    ensures LogOf(h + [Access(ip, at)]) == LogOf(h)[ip := Accessed(RecordOf(LogOf(h), ip), at)]
  {
    LogOfNext(h, Access(ip, at));
  }

  lemma ClockedNext(h: History, e: Event)
    requires Clocked(h) && End(h) <= e.at
    ensures Clocked(h + [e])
  {
  }

  lemma PrefixesAgree(h: History, e: Event)
    ensures forall k :: 0 <= k <= |h| ==> (h + [e])[..k] == h[..k]
  {
  }

  lemma NotEvictedAfterNext(h: History, e: Event, i: nat, ip: Ip)
    requires i < |h|
    ensures NotEvictedAfter(h + [e], i, ip) <==> NotEvictedAfter(h, i, ip) && !Evicts(e, ip)
  {
    var next := h + [e];
    assert next[|h|] == e;
    assert forall j :: 0 <= j < |h| ==> next[j] == h[j];
  }

  lemma ExemptNext(h: History, e: Event, ip: Ip, now: nat)
    ensures Exempt(h + [e], ip, now) <==>
            || (e.Good? && e.ip == ip && now < e.at + GOOD_GUY_DURATION)
            || (Exempt(h, ip, now) && !Evicts(e, ip))
  {
    var next := h + [e];
    forall i | 0 <= i < |h|
      ensures GoodAt(next, i, ip, now) <==> GoodAt(h, i, ip, now)
      ensures NotEvictedAfter(next, i, ip) <==> NotEvictedAfter(h, i, ip) && !Evicts(e, ip)
    {
      NotEvictedAfterNext(h, e, i, ip);
    }
    if Exempt(h, ip, now) && !Evicts(e, ip) {
      var i :| 0 <= i < |h| && GoodAt(h, i, ip, now) && NotEvictedAfter(h, i, ip);
      assert GoodAt(next, i, ip, now) && NotEvictedAfter(next, i, ip);
    }
    if e.Good? && e.ip == ip && now < e.at + GOOD_GUY_DURATION {
      assert GoodAt(next, |h|, ip, now) && NotEvictedAfter(next, |h|, ip);
    }
  }

  lemma JudgedTheSame(h: History, e: Event, k: nat, ip: Ip)
    requires k < |h|
    ensures Offends(h + [e], k, ip) <==> Offends(h, k, ip)
    ensures Forgives(h + [e], k, ip) <==> Forgives(h, k, ip)
  {
    PrefixesAgree(h, e);
  }

  lemma FlaggedNext(h: History, e: Event, ip: Ip)
    ensures Flagged(h + [e], ip) <==>
            Offends(h + [e], |h|, ip) || (Flagged(h, ip) && !Forgives(h + [e], |h|, ip))
  {
    var next := h + [e];
    forall k | 0 <= k < |h|
      ensures Offends(next, k, ip) <==> Offends(h, k, ip)
      ensures NotForgivenAfter(next, k, ip) <==> NotForgivenAfter(h, k, ip) && !Forgives(next, |h|, ip)
    {
      JudgedTheSame(h, e, k, ip);
      forall j | k < j < |h|
        ensures Forgives(next, j, ip) <==> Forgives(h, j, ip)
      {
        JudgedTheSame(h, e, j, ip);
      }
    }
    if Flagged(h, ip) && !Forgives(next, |h|, ip) {
      var k :| 0 <= k < |h| && Offends(h, k, ip) && NotForgivenAfter(h, k, ip);
      assert Offends(next, k, ip) && NotForgivenAfter(next, k, ip);
    }
    if Offends(next, |h|, ip) {
      assert NotForgivenAfter(next, |h|, ip);
    }
  }

  /** Who is exempt was exempt at every earlier time after the praise was given. */
  lemma ExemptBefore(h: History, ip: Ip, a: nat, b: nat)
    requires a <= b && Exempt(h, ip, b)
    ensures Exempt(h, ip, a)
  {
    var i :| 0 <= i < |h| && GoodAt(h, i, ip, b) && NotEvictedAfter(h, i, ip);
    assert GoodAt(h, i, ip, a);
  }

  /** An address whose offence stands is not exempt. */
  lemma FlaggedIsNotExempt(h: History, ip: Ip, now: nat)
    requires Clocked(h) && End(h) <= now && Flagged(h, ip)
    ensures !Exempt(h, ip, now)
  {
    var k :| 0 <= k < |h| && Offends(h, k, ip) && NotForgivenAfter(h, k, ip);
    forall i | 0 <= i < |h| && NotEvictedAfter(h, i, ip)
      ensures !GoodAt(h, i, ip, now)
    {
      if i < k {
        assert NotEvictedAfter(h[..k], i, ip);
        assert !GoodAt(h[..k], i, ip, h[k].at);
      } else if i > k {
        assert !Forgives(h, i, ip);
      }
    }
  }

  // ---------- The log knows what the history says ----------

  /** Record `r` is all that matters about `ip` at the end of `h`. */
  ghost predicate Agrees(r: Record, h: History, ip: Ip) {
    && After(r.timestamps, End(h) - WINDOW_MS) == Remembered(h, ip, End(h) - WINDOW_MS)
    && (forall now: nat :: now >= End(h) ==> (InGoodPeriod(r, now) <==> Exempt(h, ip, now)))
    && (r.isBad <==> Flagged(h, ip))
  }

  lemma AgreesLater(r: Record, h: History, ip: Ip, now: nat)
    requires Agrees(r, h, ip) && End(h) <= now
    ensures After(r.timestamps, now - WINDOW_MS) == Remembered(h, ip, now - WINDOW_MS)
  {
    AfterAfter(r.timestamps, End(h) - WINDOW_MS, now - WINDOW_MS);
    RememberedAfter(h, ip, End(h) - WINDOW_MS, now - WINDOW_MS);
  }

  lemma AccessRemembers(r: Record, h: History, ip: Ip, at: nat)
    requires End(h) <= at && Agrees(r, h, ip)
    ensures var next := h + [Access(ip, at)];
            var timestamps := Accessed(r, at).timestamps;
            timestamps == Remembered(next, ip, at - WINDOW_MS) == After(timestamps, at - WINDOW_MS)
  {
    var next := h + [Access(ip, at)];
    AgreesLater(r, h, ip, at);
    assert next[..|next| - 1] == h;
    RememberedAfter(next, ip, at - WINDOW_MS, at - WINDOW_MS);
  }

  lemma AccessOffendsIff(h: History, ip: Ip, at: nat)
    ensures var next := h + [Access(ip, at)];
            && (Offends(next, |h|, ip) <==>
                !Exempt(h, ip, at) && |Remembered(next, ip, at - WINDOW_MS)| >= BAD_THRESHOLD)
            && !Forgives(next, |h|, ip)
  {
    var next := h + [Access(ip, at)];
    assert next[..|h|] == h && next[..|h| + 1] == next;
  }

  lemma AccessFlags(r: Record, h: History, ip: Ip, at: nat)
    requires Clocked(h) && End(h) <= at && Agrees(r, h, ip)
    ensures Accessed(r, at).isBad <==> Flagged(h + [Access(ip, at)], ip)
  {
    AccessRemembers(r, h, ip, at);
    AccessOffendsIff(h, ip, at);
    FlaggedNext(h, Access(ip, at), ip);
    if Flagged(h, ip) {
      FlaggedIsNotExempt(h, ip, at);
    }
    assert InGoodPeriod(r, at) <==> Exempt(h, ip, at);
  }

  lemma {:induction false} AccessAgrees(r: Record, h: History, ip: Ip, at: nat)
    requires Clocked(h) && End(h) <= at && Agrees(r, h, ip)
    ensures Agrees(Accessed(r, at), h + [Access(ip, at)], ip)
  {
    var next := h + [Access(ip, at)];
    AccessRemembers(r, h, ip, at);
    AccessFlags(r, h, ip, at);
    AccessExempts(r, h, ip, at, next);
    AgreesIf(Accessed(r, at), next, ip, at);
  }

  lemma {:induction false} AgreesIf(r: Record, h: History, ip: Ip, at: nat)
    requires End(h) == at && After(r.timestamps, at - WINDOW_MS) == Remembered(h, ip, at - WINDOW_MS)
    requires forall now: nat :: now >= at ==> (InGoodPeriod(r, now) <==> Exempt(h, ip, now))
    requires r.isBad <==> Flagged(h, ip)
    ensures Agrees(r, h, ip)
  {
  }

  /** An access changes no exemption. */
  lemma {:induction false} AccessExempts(r: Record, h: History, ip: Ip, at: nat, next: History)
    requires End(h) <= at && next == h + [Access(ip, at)]
    requires forall now: nat :: now >= End(h) ==> (InGoodPeriod(r, now) <==> Exempt(h, ip, now))
    ensures forall now: nat :: now >= at ==> (InGoodPeriod(Accessed(r, at), now) <==> Exempt(next, ip, now))
  {
    forall now: nat | now >= at
      ensures InGoodPeriod(Accessed(r, at), now) <==> Exempt(next, ip, now)
    {
      ExemptNext(h, Access(ip, at), ip, now);
      assert InGoodPeriod(r, now) <==> Exempt(h, ip, now);
    }
  }

  lemma GoodAgrees(r: Record, h: History, ip: Ip, at: nat)
    requires Clocked(h) && End(h) <= at && Agrees(r, h, ip)
    ensures Agrees(Praised(r, at), h + [Good(ip, at)], ip)
  {
    var e := Good(ip, at);
    var next := h + [e];
    AgreesLater(r, h, ip, at);
    assert next[..|next| - 1] == h;
    forall now: nat | now >= at
      ensures InGoodPeriod(Praised(r, at), now) <==> Exempt(next, ip, now)
    {
      ExemptNext(h, e, ip, now);
      if Exempt(h, ip, now) {
        GoodIsRecent(h, ip, now);
      }
    }
    FlaggedNext(h, e, ip);
  }

  lemma GoodIsRecent(h: History, ip: Ip, now: nat)
    requires Clocked(h) && Exempt(h, ip, now)
    ensures now < End(h) + GOOD_GUY_DURATION
  {
    var i :| 0 <= i < |h| && GoodAt(h, i, ip, now) && NotEvictedAfter(h, i, ip);
    assert h[i].at <= End(h);
  }

  /** An event about another address, or a clean-up that keeps the record and may prune it. */
  lemma OtherAgrees(r: Record, h: History, ip: Ip, e: Event)
    requires Clocked(h) && End(h) <= e.at && Agrees(r, h, ip)
    requires !About(e, ip) && !Forgives(h + [e], |h|, ip)
    ensures Agrees(r, h + [e], ip)
    ensures Agrees(Pruned(r, e.at), h + [e], ip)
  {
    var next := h + [e];
    AgreesLater(r, h, ip, e.at);
    assert next[..|next| - 1] == h;
    AfterAfter(r.timestamps, e.at - WINDOW_MS, e.at - WINDOW_MS);
    var pruned := Pruned(r, e.at);
    forall now: nat | now >= e.at
      ensures InGoodPeriod(r, now) <==> Exempt(next, ip, now)
      ensures InGoodPeriod(pruned, now) <==> Exempt(next, ip, now)
    {
      ExemptNext(h, e, ip, now);
      assert InGoodPeriod(r, now) <==> Exempt(h, ip, now);
    }
    FlaggedNext(h, e, ip);
  }

  /** Nothing about an address that a clean-up forgets could still matter. */
  lemma ForgottenAgrees(h: History, ip: Ip, e: Event)
    requires Clocked(h) && End(h) <= e.at && e.Sweep? && Forgives(h + [e], |h|, ip)
    ensures Agrees(NewRecord(0), h + [e], ip)
  {
    var next := h + [e];
    assert next[..|h|] == h;
    if !Evicts(e, ip) {
      NothingSince(h, ip, e.at - WINDOW_MS);
    }
    assert Remembered(next, ip, e.at - WINDOW_MS) == [];
    forall now: nat | now >= e.at
      ensures !InGoodPeriod(NewRecord(0), now) && !Exempt(next, ip, now)
    {
      ExemptNext(h, e, ip, now);
      if Exempt(h, ip, now) {
        ExemptBefore(h, ip, e.at, now);
      }
    }
    FlaggedNext(h, e, ip);
  }

  /** The record of `ip`, present or not, agrees with the history, and a present one is dated right. */
  ghost predicate Knows(log: Log, h: History, ip: Ip) {
    && Agrees(RecordOf(log, ip), h, ip)
    && (ip in log ==> log[ip].lastSeen == LastSeen(h, ip))
  }

  lemma SweepKnows(log: Log, h: History, ip: Ip, e: Event)
    requires Clocked(h) && End(h) <= e.at && e.Sweep? && Knows(log, h, ip)
    ensures Knows(Apply(log, e), h + [e], ip)
  {
    var next := h + [e];
    assert next[..|h|] == h;
    assert InGoodPeriod(RecordOf(log, ip), e.at) <==> Exempt(h, ip, e.at);
    if Forgives(next, |h|, ip) {
      ForgottenAgrees(h, ip, e);
    } else {
      OtherAgrees(RecordOf(log, ip), h, ip, e);
    }
  }

  lemma {:induction false} LogKnows(h: History, ip: Ip)
    requires Clocked(h)
    ensures Knows(LogOf(h), h, ip)
    decreases |h|
  {
    if h == [] {
      assert !Exempt(h, ip, 0);
    } else {
      var rest, e := h[..|h| - 1], h[|h| - 1];
      assert h == rest + [e];
      LogKnows(rest, ip);
      if e.Sweep? {
        SweepKnows(LogOf(rest), rest, ip, e);
      } else if e.ip != ip {
        OtherAgrees(RecordOf(LogOf(rest), ip), rest, ip, e);
      } else if e.Access? {
        AccessAgrees(RecordOf(LogOf(rest), ip), rest, ip, e.at);
      } else {
        GoodAgrees(RecordOf(LogOf(rest), ip), rest, ip, e.at);
      }
    }
  }

  // ---------- Main results ----------

  /** Some access of `ip` after `since` was later forgotten because the size cap evicted its record. */
  predicate Lost(h: History, ip: Ip, since: int) {
    exists i :: 0 <= i < |h| && h[i].Access? && h[i].ip == ip && h[i].at > since && !NotEvictedAfter(h, i, ip)
  }

  lemma LostNext(h: History, e: Event, ip: Ip, since: int)
    ensures Lost(h + [e], ip, since) <==> Lost(h, ip, since) || (Evicts(e, ip) && Visits(h, ip, since) > 0)
  {
    var next := h + [e];
    forall i | 0 <= i < |h|
      ensures next[i] == h[i]
      ensures NotEvictedAfter(next, i, ip) <==> NotEvictedAfter(h, i, ip) && !Evicts(e, ip)
    {
      NotEvictedAfterNext(h, e, i, ip);
    }
    VisitedIff(h, ip, since);
    if Lost(h, ip, since) {
      var i :| 0 <= i < |h| && h[i].Access? && h[i].ip == ip && h[i].at > since && !NotEvictedAfter(h, i, ip);
      assert next[i] == h[i] && !NotEvictedAfter(next, i, ip);
    }
    if Evicts(e, ip) && Visits(h, ip, since) > 0 {
      var i :| 0 <= i < |h| && h[i].Access? && h[i].ip == ip && h[i].at > since;
      assert next[i] == h[i] && !NotEvictedAfter(next, i, ip);
    }
  }

  lemma {:induction false} VisitedIff(h: History, ip: Ip, since: int)
    ensures Visits(h, ip, since) > 0 <==> exists i :: 0 <= i < |h| && h[i].Access? && h[i].ip == ip && h[i].at > since
    decreases |h|
  {
    if h != [] {
      VisitedIff(h[..|h| - 1], ip, since);
      assert forall i :: 0 <= i < |h| - 1 ==> h[..|h| - 1][i] == h[i];
    }
  }

  lemma {:induction false} RememberedIsVisitsIff(h: History, ip: Ip, since: int)
    ensures |Remembered(h, ip, since)| <= Visits(h, ip, since)
    ensures |Remembered(h, ip, since)| == Visits(h, ip, since) <==> !Lost(h, ip, since)
    decreases |h|
  {
    if h != [] {
      var rest, e := h[..|h| - 1], h[|h| - 1];
      assert h == rest + [e];
      RememberedIsVisitsIff(rest, ip, since);
      LostNext(rest, e, ip, since);
    }
  }

  /**
   Pruning and the deletion of idle records never change a count: it is the number of accesses of that address in
   the last two minutes of the whole history, this one included, if and only if the size cap has evicted none of them.
   */
  lemma CountIsWindowIff(h: History, ip: Ip, now: nat)
    requires Clocked(h) && End(h) <= now
    ensures var after := h + [Access(ip, now)];
            var count := |LogOf(after)[ip].timestamps|;
            && count == |Remembered(after, ip, now - WINDOW_MS)|
            && (count == Visits(after, ip, now - WINDOW_MS) <==> !Lost(after, ip, now - WINDOW_MS))
  {
    var after := h + [Access(ip, now)];
    LogOfNext(h, Access(ip, now));
    LogKnows(h, ip);
    AccessRemembers(RecordOf(LogOf(h), ip), h, ip, now);
    RememberedIsVisitsIff(after, ip, now - WINDOW_MS);
  }

  /** An address is reported bad exactly when some offence of it was never forgiven. */
  lemma BadIffFlagged(h: History, ip: Ip, now: nat)
    requires Clocked(h) && End(h) <= now
    ensures var r := RecordOf(LogOf(h), ip);
            !InGoodPeriod(r, now) && r.isBad <==> Flagged(h, ip)
  {
    LogKnows(h, ip);
    var r := RecordOf(LogOf(h), ip);
    assert InGoodPeriod(r, now) <==> Exempt(h, ip, now);
    if Flagged(h, ip) {
      FlaggedIsNotExempt(h, ip, now);
    }
  }

  /** A bad address has, since it was last praised, come at least twenty times within two minutes. */
  lemma BadCameTwentyTimes(h: History, ip: Ip) returns (k: nat)
    requires Clocked(h) && Flagged(h, ip)
    ensures k < |h| && h[k].Access? && h[k].ip == ip
    ensures Visits(h[..k + 1], ip, h[k].at - 120_000) >= 20 && !Exempt(h[..k], ip, h[k].at)
    ensures forall j :: k < j < |h| ==> h[j] != Good(ip, h[j].at)
  {
    k :| k < |h| && Offends(h, k, ip) && NotForgivenAfter(h, k, ip);
    RememberedIsVisitsIff(h[..k + 1], ip, h[k].at - WINDOW_MS);
    forall j | k < j < |h|
      ensures h[j] != Good(ip, h[j].at)
    {
      assert !Forgives(h, j, ip);
    }
  }

  /** An access marks its address exactly if no exemption holds and it is the twentieth that is remembered. */
  lemma TwentiethAccessMarks(h: History, ip: Ip, at: nat)
    requires Clocked(h) && End(h) <= at
    ensures var after := h + [Access(ip, at)];
            Flagged(after, ip) <==>
            Flagged(h, ip) || (!Exempt(h, ip, at) && |Remembered(after, ip, at - 120_000)| >= 20)
  {
    FlaggedNext(h, Access(ip, at), ip);
    AccessOffendsIff(h, ip, at);
  }

  /** A bad address stops being bad exactly by praise, by eviction, or by a clean-up ten minutes after it was seen. */
  lemma BadUntilForgiven(h: History, e: Event, ip: Ip)
    requires Clocked(h) && End(h) <= e.at && Flagged(h, ip)
    ensures !Flagged(h + [e], ip) <==>
            (e.Good? && e.ip == ip) || (e.Sweep? && (ip in e.evicted || LastSeen(h, ip) < e.at - 600_000))
  {
    var next := h + [e];
    assert next[..|h|] == h && next[|h|] == e;
    FlaggedNext(h, e, ip);
    FlaggedIsNotExempt(h, ip, e.at);
  }

  /** With the size cap never reached, every count is the true one. */
  lemma NoCapNoLoss(h: History, ip: Ip, since: int)
    requires forall j :: 0 <= j < |h| && h[j].Sweep? ==> h[j].evicted == {}
    ensures |Remembered(h, ip, since)| == Visits(h, ip, since)
  {
    RememberedIsVisitsIff(h, ip, since);
  }
}
