/** The functions of proxy/attacker.js over the one map they share. */
module AccessLogs {
  import opened Bytes
  import opened AccessLogSpec
  import T = AccessLogTheorems

  class AccessLog {
    var ipAccessLog: Log
    /** Every call so far. */
    ghost var history: History

    ghost predicate Valid()
      reads this
    {
      Clocked(history) && ipAccessLog == LogOf(history)
    }

    constructor ()
      ensures Valid() && history == []
    {
      ipAccessLog, history := map[], [];
    }

    /** `countIPAccess`. */
    method CountIPAccess(ip: Ip, now: nat) returns (count: nat)
      requires Valid() && End(history) <= now
      modifies this
      ensures Valid() && history == old(history) + [Access(ip, now)]
      ensures count == |Remembered(history, ip, now - 120_000)|
      ensures count == Visits(history, ip, now - 120_000) <==> !T.Lost(history, ip, now - 120_000)
    {
      T.CountIsWindowIff(history, ip, now);
      var record := NewRecord(0);
      if ip in ipAccessLog {
        record := ipAccessLog[ip];
      }
      var recentTimestamps := After(record.timestamps, now - WINDOW_MS) + [now];
      count := |recentTimestamps|;
      var newIsBad := false;
      if !InGoodPeriod(record, now) {
        newIsBad := record.isBad || count >= BAD_THRESHOLD;
      }
      ipAccessLog := ipAccessLog[ip := Record(recentTimestamps, newIsBad, now, record.goodUntil)];
      Append(Access(ip, now));
    }

    /** `isBadGuy`. */
    method IsBadGuy(ip: Ip, now: nat) returns (bad: bool)
      requires Valid() && End(history) <= now
      ensures bad <==> Flagged(history, ip)
    {
      T.BadIffFlagged(history, ip, now);
      if ip !in ipAccessLog {
        return false;
      }
      var record := ipAccessLog[ip];
      return if InGoodPeriod(record, now) then false else record.isBad;
    }

    /** `setGoodGuy`. */
    method SetGoodGuy(ip: Ip, now: nat)
      requires Valid() && End(history) <= now
      modifies this
      ensures Valid() && history == old(history) + [Good(ip, now)]
      ensures !Flagged(history, ip)
      ensures forall at: nat :: now <= at ==> (Exempt(history, ip, at) <==> at < now + 600_000)
    {
      var record := NewRecord(now);
      if ip in ipAccessLog {
        record := ipAccessLog[ip];
      }
      record := record.(goodUntil := Some(now + GOOD_GUY_DURATION));
      record := record.(lastSeen := now);
      record := record.(isBad := false);
      ipAccessLog := ipAccessLog[ip := record];
      T.FlaggedNext(history, Good(ip, now), ip);
      forall at: nat | now <= at
        ensures Exempt(history + [Good(ip, now)], ip, at) <==> at < now + 600_000
      {
        T.ExemptNext(history, Good(ip, now), ip, at);
        if Exempt(history, ip, at) {
          T.GoodIsRecent(history, ip, at);
        }
      }
      Append(Good(ip, now));
    }

    /** `cleanupInactiveIPs`: one pass over the entries, then the size cap. */
    method CleanupInactiveIPs(now: nat) returns (evicted: set<Ip>)
      requires Valid() && End(history) <= now
      modifies this
      ensures Valid() && history == old(history) + [Sweep(now, evicted)]
      ensures |Swept(old(ipAccessLog), now)| <= 10_000 ==> evicted == {}
      ensures |Swept(old(ipAccessLog), now)| > 10_000 ==> AreOldest(Swept(old(ipAccessLog), now), evicted, 1000)
      ensures forall ip :: ip in ipAccessLog <==> ip !in evicted && Stays(old(history), old(ipAccessLog), ip, now)
      ensures forall ip :: ip in ipAccessLog ==>
                             ipAccessLog[ip].timestamps == Remembered(old(history), ip, now - 120_000)
    {
      SweptFacts(history, ipAccessLog, now);
      SweepEntries(now);
      evicted := {};
      if |ipAccessLog| > MAX_RECORDS {
        evicted := EvictOldest();
      }
      Append(Sweep(now, evicted));
    }

    /** The loop over all entries. */
    method SweepEntries(now: nat)
      modifies `ipAccessLog
      ensures ipAccessLog == Swept(old(ipAccessLog), now)
    {
      var entries := ipAccessLog.Keys;
      while entries != {}
        invariant forall ip :: ip in entries ==> SameAt(ipAccessLog, old(ipAccessLog), ip) && ip in ipAccessLog
        invariant forall ip :: ip !in entries ==> SameAt(ipAccessLog, Swept(old(ipAccessLog), now), ip)
        decreases |entries|
      {
        var ip :| ip in entries;
        SweepEntry(ip, now);
        entries := entries - {ip};
      }
      EqualWhereSame(ipAccessLog, Swept(old(ipAccessLog), now));
    }

    method SweepEntry(ip: Ip, now: nat)
      requires ip in ipAccessLog
      modifies `ipAccessLog
      ensures ipAccessLog == if Expired(old(ipAccessLog[ip]), now) then old(ipAccessLog) - {ip}
                             else old(ipAccessLog)[ip := Pruned(old(ipAccessLog[ip]), now)]
    {
      var record := ipAccessLog[ip];
      if !InGoodPeriod(record, now) && record.lastSeen < now - INACTIVE_TIMEOUT {
        ipAccessLog := ipAccessLog - {ip};
      } else {
        var recent := After(record.timestamps, now - WINDOW_MS);
        if |recent| != |record.timestamps| {
          ipAccessLog := ipAccessLog[ip := record.(timestamps := recent)];
        } else {
          NothingDropped(record.timestamps, now - WINDOW_MS);
          assert ipAccessLog == ipAccessLog[ip := record];
        }
      }
    }

    /** The loop over the entries sorted by `lastSeen`: deletes the oldest remaining record again and again. */
    method EvictOldest() returns (evicted: set<Ip>)
      requires |ipAccessLog| > MAX_RECORDS
      modifies `ipAccessLog
      ensures AreOldest(old(ipAccessLog), evicted, EVICTED_RECORDS)
      ensures ipAccessLog == old(ipAccessLog) - evicted
    {
      evicted := {};
      for i := 0 to EVICTED_RECORDS
        invariant AreOldest(old(ipAccessLog), evicted, i)
        invariant ipAccessLog == old(ipAccessLog) - evicted
      {
        Remaining(old(ipAccessLog), evicted);
        var ip := Oldest(ipAccessLog);
        assert forall other :: other in old(ipAccessLog) && other !in evicted ==> other in ipAccessLog;
        OneMoreOldest(old(ipAccessLog), evicted, i, ip);
        evicted := evicted + {ip};
        ipAccessLog := ipAccessLog - {ip};
      }
    }

    ghost method Append(e: Event)
      requires Clocked(history) && End(history) <= e.at && ipAccessLog == Apply(LogOf(history), e)
      modifies `history
      ensures Valid() && history == old(history) + [e]
    {
      AppendFacts(ipAccessLog, history, e, history + [e]);
      history := history + [e];
    }
  }

  lemma AppendFacts(log: Log, h: History, e: Event, next: History)
    requires Clocked(h) && End(h) <= e.at && log == Apply(LogOf(h), e) && next == h + [e]
    ensures Clocked(next) && log == LogOf(next)
  {
    T.LogOfNext(h, e);
    T.ClockedNext(h, e);
  }

  /** The address was seen in the last ten minutes, or is exempt. */
  ghost predicate Stays(h: History, log: Log, ip: Ip, now: nat) {
    ip in log && (log[ip].lastSeen >= now - 600_000 || Exempt(h, ip, now))
  }

  /** What a clean-up keeps, and that it keeps of each record exactly the accesses in the window. */
  lemma SweptFacts(h: History, log: Log, now: nat)
    requires Clocked(h) && End(h) <= now && log == LogOf(h)
    ensures forall ip :: ip in Swept(log, now) <==> Stays(h, log, ip, now)
    ensures forall ip :: ip in Swept(log, now) ==>
                           Swept(log, now)[ip].timestamps == Remembered(h, ip, now - 120_000)
  {
    forall ip | ip in log
      ensures Expired(log[ip], now) <==> !Stays(h, log, ip, now)
      ensures Pruned(log[ip], now).timestamps == Remembered(h, ip, now - 120_000)
    {
      T.LogKnows(h, ip);
      T.AgreesLater(log[ip], h, ip, now);
      assert InGoodPeriod(log[ip], now) <==> Exempt(h, ip, now);
    }
  }

  /** Both logs hold the same about `ip`. */
  predicate SameAt(a: Log, b: Log, ip: Ip) {
    if ip in a then ip in b && a[ip] == b[ip] else ip !in b
  }

  /** `evicted` are `n` records of `log`, none of them seen later than any that stays. */
  predicate AreOldest(log: Log, evicted: set<Ip>, n: nat) {
    && |evicted| == n && evicted <= log.Keys
    && forall gone, kept :: gone in evicted && kept in log && kept !in evicted ==>
                              log[gone].lastSeen <= log[kept].lastSeen
  }

  lemma EqualWhereSame(a: Log, b: Log)
    requires forall ip: Ip :: SameAt(a, b, ip)
    ensures a == b
  {
    assert forall ip :: ip in a ==> SameAt(a, b, ip);
    assert forall ip :: ip in b ==> SameAt(a, b, ip);
    assert a.Keys == b.Keys;
  }

  lemma OneMoreOldest(log: Log, evicted: set<Ip>, n: nat, ip: Ip)
    requires AreOldest(log, evicted, n) && ip in log && ip !in evicted
    requires forall other :: other in log && other !in evicted ==> log[ip].lastSeen <= log[other].lastSeen
    ensures AreOldest(log, evicted + {ip}, n + 1)
    ensures (log - evicted) - {ip} == log - (evicted + {ip})
  {
    assert |evicted + {ip}| == n + 1;
  }

  lemma {:induction false} NothingDropped(timestamps: seq<nat>, since: int)
    ensures |After(timestamps, since)| <= |timestamps|
    ensures |After(timestamps, since)| == |timestamps| ==> After(timestamps, since) == timestamps
    decreases |timestamps|
  {
    if timestamps != [] {
      NothingDropped(timestamps[..|timestamps| - 1], since);
    }
  }

  lemma Remaining(log: Log, evicted: set<Ip>)
    requires evicted <= log.Keys && |evicted| < |log|
    ensures |log - evicted| == |log| - |evicted|
  {
    assert (log - evicted).Keys == log.Keys - evicted;
    assert |log.Keys - evicted| == |log.Keys| - |evicted|;
  }

  /** A record seen no later than any other. */
  method Oldest(log: Log) returns (ip: Ip)
    requires |log| > 0
    ensures ip in log && forall other :: other in log ==> log[ip].lastSeen <= log[other].lastSeen
  {
    assert log.Keys != {};
    ip :| ip in log;
    var rest := log.Keys - {ip};
    while rest != {}
      invariant ip in log && rest <= log.Keys
      invariant forall other :: other in log && other !in rest ==> log[ip].lastSeen <= log[other].lastSeen
      decreases |rest|
    {
      var other :| other in rest;
      rest := rest - {other};
      if log[other].lastSeen < log[ip].lastSeen {
        ip := other;
      }
    }
  }
}

/** The size cap at work: a log of more than ten thousand addresses forgets an access that is still in the window. */
module AccessLogOverflow {
  import opened Bytes
  import opened AccessLogSpec
  import opened AccessLogs
  import T = AccessLogTheorems

  /** Address `i` comes once, at time `i`. */
  function Crowd(n: nat): History {
    if n == 0 then [] else Crowd(n - 1) + [Access(n - 1, n - 1)]
  }

  function CrowdLog(n: nat): Log {
    if n == 0 then map[] else CrowdLog(n - 1)[n - 1 := Record([n - 1], false, n - 1, None)]
  }

  lemma {:induction false} CrowdLogFacts(n: nat)
    ensures forall i: nat :: i in CrowdLog(n) <==> i < n
    ensures forall i: nat :: i < n ==> i in CrowdLog(n) && CrowdLog(n)[i] == Record([i], false, i, None)
  {
    if n > 0 {
      CrowdLogFacts(n - 1);
    }
  }

  lemma {:induction false} CrowdFacts(n: nat)
    ensures |Crowd(n)| == n && forall i :: 0 <= i < n ==> Crowd(n)[i] == Access(i, i)
    ensures n > 0 ==> Visits(Crowd(n), 0, -1) == 1
    ensures n == 0 ==> Visits(Crowd(n), 0, -1) == 0
  {
    if n > 0 {
      CrowdFacts(n - 1);
      assert Crowd(n)[..n - 1] == Crowd(n - 1);
    }
  }

  lemma FirstAccess(log: Log, at: nat)
    requires at !in log
    ensures log[at := Accessed(RecordOf(log, at), at)] == log[at := Record([at], false, at, None)]
  {
    assert After([], at - WINDOW_MS) == [] && [] + [at] == [at];
  }

  lemma OneMoreComes(m: nat, h: History, log: Log)
    requires LogOf(h) == log && m !in log
    ensures LogOf(h + [Access(m, m)]) == log[m := Record([m], false, m, None)]
  {
    FirstAccess(log, m);
    T.LogOfAccess(h, m, m);
  }

  lemma {:induction false} LogOfCrowd(n: nat)
    ensures LogOf(Crowd(n)) == CrowdLog(n)
  {
    if n > 0 {
      LogOfCrowd(n - 1);
      NotInCrowd(n - 1);
      OneMoreComes(n - 1, Crowd(n - 1), CrowdLog(n - 1));
    }
  }

  lemma NotInCrowd(n: nat)
    ensures n !in CrowdLog(n)
  {
    CrowdLogFacts(n);
  }

  function Below(n: nat): set<Ip> {
    if n == 0 then {} else Below(n - 1) + {n - 1}
  }

  lemma {:induction false} BelowFacts(n: nat)
    ensures |Below(n)| == n && forall i: nat :: i in Below(n) <==> i < n
  {
    if n > 0 {
      BelowFacts(n - 1);
    }
  }

  lemma CrowdSwept(n: nat)
    requires n < WINDOW_MS
    ensures Swept(CrowdLog(n), n) == CrowdLog(n) && |CrowdLog(n)| == n
  {
    forall i: nat | i < n
      ensures After([i], n - WINDOW_MS) == [i]
    {
      assert [i][..0] == [] && [] + [i] == [i];
    }
    BelowFacts(n);
    CrowdLogFacts(n);
    assert CrowdLog(n).Keys == Below(n);
  }

  /** An evicted address starts again at one, however often it came before. */
  lemma EvictedCountsOnce(h: History, evicted: set<Ip>, ip: Ip, at: nat)
    requires ip in evicted
    ensures var after := h + [Sweep(at, evicted)] + [Access(ip, at)];
            |LogOf(after)[ip].timestamps| == 1 && Visits(after, ip, at - WINDOW_MS) == Visits(h, ip, at - WINDOW_MS) + 1
  {
    var swept := h + [Sweep(at, evicted)];
    assert swept[..|h|] == h;
    assert (swept + [Access(ip, at)])[..|swept|] == swept;
    assert ip !in LogOf(swept);
  }

  lemma OldestOfCrowd(n: nat, k: nat)
    requires k <= n
    ensures AreOldest(CrowdLog(n), Below(k), k)
  {
    BelowFacts(k);
    CrowdLogFacts(n);
  }

  /** A legal history in which an address came twice within the window and is counted once. */
  lemma EvictionLosesAnAccess() returns (h: History, evicted: set<Ip>, at: nat)
    ensures Clocked(h) && End(h) <= at
    ensures |Swept(LogOf(h), at)| > MAX_RECORDS && AreOldest(Swept(LogOf(h), at), evicted, EVICTED_RECORDS)
    ensures var after := h + [Sweep(at, evicted)] + [Access(0, at)];
            |LogOf(after)[0].timestamps| == 1 && Visits(after, 0, at - WINDOW_MS) == 2
  {
    at := MAX_RECORDS + 1;
    h, evicted := CrowdOf(at);
    LogOfCrowd(at);
    CrowdSwept(at);
    OldestOfCrowd(at, EVICTED_RECORDS);
    BelowFacts(EVICTED_RECORDS);
    EvictedCountsOnce(h, evicted, 0, at);
    VisitsFrom(h, 0, -1, at - WINDOW_MS);
  }

  lemma CrowdOf(n: nat) returns (h: History, evicted: set<Ip>)
    requires n > 0
    ensures h == Crowd(n) && evicted == Below(EVICTED_RECORDS)
    ensures Clocked(h) && End(h) <= n && Visits(h, 0, -1) == 1
  {
    h, evicted := Crowd(n), Below(EVICTED_RECORDS);
    CrowdFacts(n);
  }

  /** Times are never negative, so every negative start of the window counts the same. */
  lemma {:induction false} VisitsFrom(h: History, ip: Ip, a: int, b: int)
    requires a < 0 && b < 0
    ensures Visits(h, ip, a) == Visits(h, ip, b)
    decreases |h|
  {
    if h != [] {
      VisitsFrom(h[..|h| - 1], ip, a, b);
    }
  }
}
