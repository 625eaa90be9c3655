/**
 Connection admission of client/proxy_core.py: the total ceiling, the per-target limits and the setup slots,
 under every interleaving of connection handlers at their awaits.
 */
module AdmissionSpec {
  import opened Sums

  const TOTAL_CONNECTION_LIMIT := 2048
  const MAX_CONCURRENT := 256
  const TARGET_LIMIT_DEFAULT := 64
  const TARGET_LIMIT_PORT_53 := 8

  /** A normalised target: the lower-case host, kept opaque, and the port. */
  datatype Key = Key(host: nat, port: nat)

  /** Where one handler stands; `slot` says whether it holds a setup slot. */
  datatype Phase =
    | Turned                              // refused by the total ceiling
    | Started                             // counted in the active connections
    | Admitted(key: Key, slot: bool)      // holds a place of its target, until its relay ends
    | Ended

  datatype Proxy = Proxy(active: int, counts: map<Key, nat>, free: int, handlers: seq<Phase>)

  datatype Event =
    | Arrive
    | TryAcquire(handler: nat, key: Key)
    | AcquireSlot(handler: nat)
    | Release(handler: nat)               // the `finally` around setup and relay
    | Finish(handler: nat)

  function Init(): Proxy {
    Proxy(0, map[], MAX_CONCURRENT, [])
  }

  function LimitFor(port: nat): nat {
    if port == 53 then TARGET_LIMIT_PORT_53 else TARGET_LIMIT_DEFAULT
  }

  function CountOf(counts: map<Key, nat>, key: Key): nat {
    if key in counts then counts[key] else 0
  }

  function Decrement(counts: map<Key, nat>, key: Key): map<Key, nat> {
    if CountOf(counts, key) <= 1 then counts - {key} else counts[key := counts[key] - 1]
  }

  predicate Enabled(p: Proxy, e: Event) {
    match e
    case Arrive => true
    case TryAcquire(i, _) => i < |p.handlers| && p.handlers[i].Started?
    case AcquireSlot(i) => i < |p.handlers| && p.handlers[i].Admitted? && !p.handlers[i].slot && p.free > 0
    case Release(i) => i < |p.handlers| && p.handlers[i].Admitted?
    case Finish(i) => i < |p.handlers| && p.handlers[i].Started?
  }

  function After(p: Proxy, e: Event): Proxy
    requires Enabled(p, e)
  {
    match e
    case Arrive =>
      if p.active >= TOTAL_CONNECTION_LIMIT then p.(handlers := p.handlers + [Turned])
      else p.(active := p.active + 1, handlers := p.handlers + [Started])
    case TryAcquire(i, key) =>
      if CountOf(p.counts, key) >= LimitFor(key.port) then p
      else p.(counts := p.counts[key := CountOf(p.counts, key) + 1], handlers := p.handlers[i := Admitted(key, false)])
    case AcquireSlot(i) => p.(free := p.free - 1, handlers := p.handlers[i := p.handlers[i].(slot := true)])
    case Release(i) =>
      p.(free := if p.handlers[i].slot then p.free + 1 else p.free,
         counts := Decrement(p.counts, p.handlers[i].key),
         handlers := p.handlers[i := Started])
    case Finish(i) => p.(active := if p.active > 0 then p.active - 1 else 0, handlers := p.handlers[i := Ended])
  }

  // ---------- Who holds what ----------

  function Counted(h: Phase): nat {
    if h.Started? || h.Admitted? then 1 else 0
  }

  function HoldsSlot(h: Phase): nat {
    if h.Admitted? && h.slot then 1 else 0
  }

  function HoldsTarget(key: Key): Phase -> nat {
    (h: Phase) => if h.Admitted? && h.key == key then 1 else 0
  }

  ghost predicate Inv(p: Proxy) {
    && p.active == Sum(p.handlers, Counted) <= TOTAL_CONNECTION_LIMIT
    && p.free >= 0 && p.free + Sum(p.handlers, HoldsSlot) == MAX_CONCURRENT
    && (forall key :: CountOf(p.counts, key) == Sum(p.handlers, HoldsTarget(key)) <= LimitFor(key.port))
    && (forall key :: key in p.counts ==> p.counts[key] > 0)
  }
}

module AdmissionTheorems {
  import opened Sums
  import opened AdmissionSpec

  /** What one handler changing from its old phase to `h` does to every total. */
  lemma TotalsAfter(p: Proxy, i: nat, h: Phase)
    requires i < |p.handlers|
    ensures var hs := p.handlers[i := h];
            && Sum(hs, Counted) + Counted(p.handlers[i]) == Sum(p.handlers, Counted) + Counted(h)
            && Sum(hs, HoldsSlot) + HoldsSlot(p.handlers[i]) == Sum(p.handlers, HoldsSlot) + HoldsSlot(h)
    ensures forall key :: Sum(p.handlers[i := h], HoldsTarget(key)) + HoldsTarget(key)(p.handlers[i]) ==
                          Sum(p.handlers, HoldsTarget(key)) + HoldsTarget(key)(h)
  {
    SumUpdate(p.handlers, Counted, i, h);
    SumUpdate(p.handlers, HoldsSlot, i, h);
    forall key
      ensures Sum(p.handlers[i := h], HoldsTarget(key)) + HoldsTarget(key)(p.handlers[i]) ==
              Sum(p.handlers, HoldsTarget(key)) + HoldsTarget(key)(h)
    {
      SumUpdate(p.handlers, HoldsTarget(key), i, h);
    }
  }

  lemma ArriveKeepsInv(p: Proxy)
    requires Inv(p)
    ensures Inv(After(p, Arrive))
  {
    var h := if p.active >= TOTAL_CONNECTION_LIMIT then Turned else Started;
    SumAppend(p.handlers, Counted, h);
    SumAppend(p.handlers, HoldsSlot, h);
    forall key
      ensures Sum(p.handlers + [h], HoldsTarget(key)) == Sum(p.handlers, HoldsTarget(key))
    {
      SumAppend(p.handlers, HoldsTarget(key), h);
    }
  }

  lemma TryAcquireKeepsInv(p: Proxy, i: nat, key: Key)
    requires Inv(p) && Enabled(p, TryAcquire(i, key))
    ensures Inv(After(p, TryAcquire(i, key)))
  {
    TotalsAfter(p, i, Admitted(key, false));
  }

  lemma ReleaseKeepsInv(p: Proxy, i: nat)
    requires Inv(p) && Enabled(p, Release(i))
    ensures Inv(After(p, Release(i)))
  {
    var key := p.handlers[i].key;
    TotalsAfter(p, i, Started);
    SumAtLeast(p.handlers, HoldsTarget(key), i);
    var counts := Decrement(p.counts, key);
    assert CountOf(counts, key) == CountOf(p.counts, key) - 1;
    assert forall other :: other != key ==> CountOf(counts, other) == CountOf(p.counts, other);
  }

  lemma StepKeepsInv(p: Proxy, e: Event)
    requires Inv(p) && Enabled(p, e)
    ensures Inv(After(p, e))
  {
    match e {
      case Arrive => ArriveKeepsInv(p);
      case TryAcquire(i, key) => TryAcquireKeepsInv(p, i, key);
      case AcquireSlot(i) => TotalsAfter(p, i, p.handlers[i].(slot := true));
      case Release(i) => ReleaseKeepsInv(p, i);
      case Finish(i) =>
        TotalsAfter(p, i, Ended);
        SumAtLeast(p.handlers, Counted, i);
    }
  }

  ghost predicate IsRun(ps: seq<Proxy>, events: seq<Event>) {
    && |ps| == |events| + 1 && ps[0] == Init()
    && forall i :: 0 <= i < |events| ==> Enabled(ps[i], events[i]) && ps[i + 1] == After(ps[i], events[i])
  }

  /**
   In every interleaving: active connections are those started and not finished, at most 2048; each target's
   count is the number of handlers holding it, within its limit; free and held slots are 256 together.
   */
  lemma {:induction false} CountsAreExact(ps: seq<Proxy>, events: seq<Event>, i: nat)
    requires IsRun(ps, events) && i < |ps|
    ensures Inv(ps[i])
    ensures ps[i].active == Sum(ps[i].handlers, Counted) <= 2048 && ps[i].free + Sum(ps[i].handlers, HoldsSlot) == 256
    ensures forall key :: CountOf(ps[i].counts, key) <= if key.port == 53 then 8 else 64
  {
    if i > 0 {
      CountsAreExact(ps, events, i - 1);
      StepKeepsInv(ps[i - 1], events[i - 1]);
    } else {
      assert Sum<Phase>([], Counted) == 0 && Sum<Phase>([], HoldsSlot) == 0;
      assert forall key :: Sum<Phase>([], HoldsTarget(key)) == 0;
    }
  }

  /** When all handlers have ended everything is back where it started. */
  lemma AllReturned(ps: seq<Proxy>, events: seq<Event>, i: nat)
    requires IsRun(ps, events) && i < |ps|
    requires forall k :: 0 <= k < |ps[i].handlers| ==> ps[i].handlers[k].Turned? || ps[i].handlers[k].Ended?
    ensures ps[i] == Init().(handlers := ps[i].handlers)
  {
    CountsAreExact(ps, events, i);
    var p := ps[i];
    SumIsZero(p.handlers, Counted);
    SumIsZero(p.handlers, HoldsSlot);
    forall key
      ensures key !in p.counts
    {
      SumIsZero(p.handlers, HoldsTarget(key));
      assert CountOf(p.counts, key) == 0;
    }
    assert p.counts == map[];
  }
}

module Admissions {
  import opened Sums
  import opened AdmissionSpec
  import opened AdmissionTheorems

  /** The counters of the proxy, changed by its handlers between their awaits. */
  class LocalProxy {
    var activeConnections: int
    var counts: map<Key, nat>
    var freeSlots: int
    var handlers: seq<Phase>

    ghost function State(): Proxy
      reads this
    {
      Proxy(activeConnections, counts, freeSlots, handlers)
    }

    ghost predicate Valid()
      reads this
    {
      Inv(State())
    }

    constructor ()
      ensures Valid() && State() == Init()
    {
      activeConnections, counts, freeSlots, handlers := 0, map[], MAX_CONCURRENT, [];
      new;
      CountsAreExact([Init()], [], 0);
    }

    /** The entry of `_handle_socks` and `_handle_http`. */
    method Arrived() returns (handler: nat, accepted: bool)
      requires Valid()
      modifies this
      ensures Valid() && State() == After(old(State()), Arrive)
      ensures handler == |old(handlers)| && (accepted <==> old(activeConnections) < 2048)
    {
      StepKeepsInv(State(), Arrive);
      handler := |handlers|;
      if activeConnections >= TOTAL_CONNECTION_LIMIT {
        handlers := handlers + [Turned];
        return handler, false;
      }
      activeConnections := activeConnections + 1;
      handlers := handlers + [Started];
      return handler, true;
    }

    method TryAcquireTarget(handler: nat, key: Key) returns (admitted: bool)
      requires Valid() && Enabled(State(), TryAcquire(handler, key))
      modifies this
      ensures Valid() && State() == After(old(State()), TryAcquire(handler, key))
      ensures admitted <==> CountOf(old(counts), key) < if key.port == 53 then 8 else 64
      ensures CountOf(counts, key) == CountOf(old(counts), key) + if admitted then 1 else 0
    {
      StepKeepsInv(State(), TryAcquire(handler, key));
      var count := if key in counts then counts[key] else 0;
      if count >= LimitFor(key.port) {
        return false;
      }
      counts := counts[key := count + 1];
      handlers := handlers[handler := Admitted(key, false)];
      return true;
    }

    /** The semaphore grants a slot; the handler keeps it through its relay. */
    method GrantSlot(handler: nat)
      requires Valid() && Enabled(State(), AcquireSlot(handler))
      modifies this
      ensures Valid() && State() == After(old(State()), AcquireSlot(handler))
    {
      StepKeepsInv(State(), AcquireSlot(handler));
      freeSlots := freeSlots - 1;
      handlers := handlers[handler := handlers[handler].(slot := true)];
    }

    /** The `finally` block, after setup failure, timeout or the end of the relay. */
    method ReleaseAll(handler: nat)
      requires Valid() && Enabled(State(), Release(handler))
      modifies this
      ensures Valid() && State() == After(old(State()), Release(handler))
    {
      StepKeepsInv(State(), Release(handler));
      var key := handlers[handler].key;
      if handlers[handler].slot {
        freeSlots := freeSlots + 1;
      }
      var count := if key in counts then counts[key] else 0;
      if count <= 1 {
        counts := counts - {key};
      } else {
        counts := counts[key := count - 1];
      }
      handlers := handlers[handler := Started];
    }

    method Finished(handler: nat)
      requires Valid() && Enabled(State(), Finish(handler))
      modifies this
      ensures Valid() && State() == After(old(State()), Finish(handler))
      ensures activeConnections == old(activeConnections) - 1
    {
      StepKeepsInv(State(), Finish(handler));
      SumAtLeast(handlers, Counted, handler);
      activeConnections := if activeConnections - 1 > 0 then activeConnections - 1 else 0;
      handlers := handlers[handler := Ended];
    }
  }
}
