/** What holds on every run of the upload queue, in any interleaving of pushes, reads and closes. */
module ReorderRuns {
  import opened Bytes
  import opened ReorderSpec

  datatype Run = Run(states: seq<Queue>, events: seq<Event>)

  ghost predicate IsRun(r: Run, limit: nat) {
    && |r.states| == |r.events| + 1
    && r.states[0] == Init(limit)
    && forall i :: 0 <= i < |r.events| ==> Step(r.states[i], r.events[i], r.states[i + 1])
  }

  function Last(r: Run): Queue
    requires |r.states| > 0
  {
    r.states[|r.states| - 1]
  }

  function Init1(r: Run): Run
    requires |r.events| > 0 && |r.states| == |r.events| + 1
  {
    Run(r.states[..|r.states| - 1], r.events[..|r.events| - 1])
  }

  lemma PrefixIsRun(r: Run, limit: nat)
    requires IsRun(r, limit) && |r.events| > 0
    ensures IsRun(Init1(r), limit)
    ensures r.events == Init1(r).events + [r.events[|r.events| - 1]]
    ensures Step(Last(Init1(r)), r.events[|r.events| - 1], Last(r))
  {
    var s := Init1(r);
    forall i | 0 <= i < |s.events|
      ensures Step(s.states[i], s.events[i], s.states[i + 1])
    {
      assert s.events[i] == r.events[i] && s.states[i + 1] == r.states[i + 1];
    }
  }

  // ---------- What one drain does ----------

  lemma TakeFacts(q: Queue, x: Item)
    requires x in q.buffered && x.seqNo == |q.delivered|
    ensures var t := Take(q, x);
            && t.buffered <= q.buffered && |t.buffered| < |q.buffered|
            && t.delivered == q.delivered + [x.payload]
            && forall y :: y in q.buffered && y !in t.buffered ==> y == x
  {
  }

  /** A drain only appends to the deliveries and shrinks the buffer, and it stops only when it must. */
  lemma {:induction false} DrainShape(q: Queue, end: Queue)
    requires Drains(q, end)
    ensures q.delivered <= end.delivered && end.buffered <= q.buffered
    ensures end == q.(delivered := end.delivered, buffered := end.buffered)
    ensures !CanDrain(end)
    decreases |q.buffered|
  {
    if CanDrain(q) {
      var x :| x in q.buffered && x.seqNo == |q.delivered| && Drains(Take(q, x), end);
      TakeFacts(q, x);
      DrainShape(Take(q, x), end);
    }
  }

  /** What a drain delivers comes from the buffer under its own number, and nothing else leaves the buffer. */
  lemma {:induction false} DrainFacts(q: Queue, end: Queue)
    requires Drains(q, end)
    ensures q.delivered <= end.delivered && end.buffered <= q.buffered
    ensures end == q.(delivered := end.delivered, buffered := end.buffered)
    ensures !CanDrain(end)
    ensures forall k :: |q.delivered| <= k < |end.delivered| ==> Item(k, end.delivered[k]) in q.buffered
    ensures forall y :: y in q.buffered && y !in end.buffered ==> |q.delivered| <= y.seqNo < |end.delivered|
    decreases |q.buffered|
  {
    DrainShape(q, end);
    if CanDrain(q) {
      var x :| x in q.buffered && x.seqNo == |q.delivered| && Drains(Take(q, x), end);
      var t := Take(q, x);
      TakeFacts(q, x);
      DrainFacts(t, end);
      forall k | |q.delivered| <= k < |end.delivered|
        ensures Item(k, end.delivered[k]) in q.buffered
      {
        if k == |q.delivered| {
          assert end.delivered[k] == t.delivered[k] == x.payload;
        } else {
          assert Item(k, end.delivered[k]) in t.buffered;
        }
      }
    }
  }

  /** Number `n` is buffered more than once. */
  ghost predicate Repeats(q: Queue, n: nat) {
    exists x, y :: x in q.buffered && y in q.buffered && x.seqNo == n && y.seqNo == n && (x != y || q.buffered[x] > 1)
  }

  /** The numbers from `from` to `k` and one more are all buffered. */
  ghost predicate RunsPast(q: Queue, from: nat, k: nat) {
    forall j :: from <= j <= k + 1 ==> Buffers(q, j)
  }

  /**
   A drain started at `q` meets no obstacle: if the expected number is buffered then nothing stale is,
   and in the consecutive stretch of buffered numbers no number but the last is repeated.
   */
  ghost predicate Unblocked(q: Queue) {
    && (Buffers(q, |q.delivered|) ==> !HasStale(q))
    && forall k :: |q.delivered| <= k && RunsPast(q, |q.delivered|, k) ==> !Repeats(q, k)
  }

  lemma TakeBuffers(q: Queue, x: Item, n: nat)
    requires x in q.buffered && x.seqNo == |q.delivered| && n != x.seqNo
    ensures Buffers(Take(q, x), n) <==> Buffers(q, n)
    ensures Repeats(Take(q, x), n) <==> Repeats(q, n)
  {
    var t := Take(q, x);
    assert forall y :: y in q.buffered && y != x ==> y in t.buffered;
    assert forall y :: y in t.buffered ==> y in q.buffered;
    assert forall y :: y != x ==> t.buffered[y] == q.buffered[y];
  }

  /** Taking the expected post leaves a stale one exactly if its number was repeated. */
  lemma TakeLeavesStale(q: Queue, x: Item)
    requires x in q.buffered && x.seqNo == |q.delivered| && !HasStale(q)
    ensures HasStale(Take(q, x)) <==> Repeats(q, x.seqNo)
  {
    var t := Take(q, x);
    if HasStale(t) {
      var y :| y in t.buffered && y.seqNo < |t.delivered|;
      assert y in q.buffered && y.seqNo == x.seqNo;
    }
    if Repeats(q, x.seqNo) {
      var y, z :| y in q.buffered && z in q.buffered && y.seqNo == x.seqNo && z.seqNo == x.seqNo
                  && (y != z || q.buffered[y] > 1);
      assert y in t.buffered || z in t.buffered;
    }
  }

  lemma TakeUnblocked(q: Queue, x: Item)
    requires CanDrain(q) && x in q.buffered && x.seqNo == |q.delivered|
    ensures Unblocked(Take(q, x)) <==> Unblocked(q)
  {
    var t := Take(q, x);
    var n := |q.delivered|;
    TakeLeavesStale(q, x);
    forall m | m != n
      ensures (Buffers(t, m) <==> Buffers(q, m)) && (Repeats(t, m) <==> Repeats(q, m))
    {
      TakeBuffers(q, x, m);
    }
    assert RunsPast(q, n, n) <==> Buffers(t, n + 1);
    forall k | n < k
      ensures RunsPast(t, n + 1, k) <==> RunsPast(q, n, k)
    {
      if RunsPast(q, n, k) {
        assert forall j :: n + 1 <= j <= k + 1 ==> Buffers(q, j);
      }
    }
  }

  /** A drain leaves nothing deliverable exactly when nothing blocks it. */
  lemma {:induction false} DrainsFullyIff(q: Queue, end: Queue)
    requires Drains(q, end)
    ensures !Buffers(end, |end.delivered|) <==> Unblocked(q)
    decreases |q.buffered|
  {
    if CanDrain(q) {
      var x :| x in q.buffered && x.seqNo == |q.delivered| && Drains(Take(q, x), end);
      TakeUnblocked(q, x);
      DrainsFullyIff(Take(q, x), end);
    } else if !Buffers(q, |q.delivered|) {
      assert forall k :: |q.delivered| <= k ==> !RunsPast(q, |q.delivered|, k);
    }
  }

  /** After an in-order push nothing deliverable stays behind, exactly when the drain it starts is unblocked. */
  lemma PushDrainsFullyIff(q: Queue, payload: bytes, q': Queue)
    requires !q.closed && PushStep(q, |q.delivered|, payload, q', true)
    ensures !Buffers(q', |q'.delivered|) <==> Unblocked(Deliver(q, payload))
  {
    DrainsFullyIff(Deliver(q, payload), q');
  }

  // ---------- Safety on every run ----------

  /** Everything delivered or buffered under number `k` was pushed with number `k`. */
  ghost predicate Sourced(q: Queue, events: seq<Event>) {
    && (forall k :: 0 <= k < |q.delivered| ==> Push(k, q.delivered[k]) in events)
    && (forall x :: x in q.buffered ==> Push(x.seqNo, x.payload) in events)
  }

  lemma DrainSourced(q: Queue, events: seq<Event>, e: Event, q': Queue, k: nat)
    requires Sourced(q, events) && e.Push? && e.seqNo == |q.delivered| && Drains(Deliver(q, e.payload), q')
    requires k < |q'.delivered|
    ensures Push(k, q'.delivered[k]) in events + [e]
  {
    var d := Deliver(q, e.payload);
    DrainFacts(d, q');
    if k < |d.delivered| {
      assert q'.delivered[k] == d.delivered[k];
      if k == e.seqNo {
        assert e == (events + [e])[|events|];
      }
    } else {
      assert Item(k, q'.delivered[k]) in q.buffered;
    }
  }

  lemma StepSourced(q: Queue, events: seq<Event>, e: Event, q': Queue)
    requires Sourced(q, events) && Step(q, e, q')
    ensures Sourced(q', events + [e])
    ensures q.delivered <= q'.delivered
  {
    if e.Push? && !q.closed && e.seqNo == |q.delivered| {
      DrainShape(Deliver(q, e.payload), q');
      forall k | 0 <= k < |q'.delivered|
        ensures Push(k, q'.delivered[k]) in events + [e]
      {
        DrainSourced(q, events, e, q', k);
      }
    } else {
      assert forall f :: f in events ==> f in events + [e];
      assert e in events + [e];
    }
  }

  /** On every run the k-th delivered payload was pushed with sequence number k. */
  lemma {:induction false} DeliveredInOrder(r: Run, limit: nat)
    requires IsRun(r, limit)
    ensures Sourced(Last(r), r.events)
    decreases |r.events|
  {
    if |r.events| > 0 {
      PrefixIsRun(r, limit);
      DeliveredInOrder(Init1(r), limit);
      StepSourced(Last(Init1(r)), Init1(r).events, r.events[|r.events| - 1], Last(r));
    }
  }

  /** Deliveries only grow, and a closed queue delivers nothing more. */
  predicate Grows(q: Queue, q': Queue) {
    q.delivered <= q'.delivered && (q.closed ==> q'.closed && q'.delivered == q.delivered)
  }

  lemma StepGrows(q: Queue, e: Event, q': Queue)
    requires Step(q, e, q')
    ensures Grows(q, q')
  {
    if e.Push? && !q.closed && e.seqNo == |q.delivered| {
      DrainFacts(Deliver(q, e.payload), q');
    }
  }

  lemma {:induction false} GrowthIsTransitive(states: seq<Queue>, i: nat, j: nat)
    requires forall k :: 0 <= k < |states| - 1 ==> Grows(states[k], states[k + 1])
    requires i <= j < |states|
    ensures Grows(states[i], states[j])
    decreases j - i
  {
    if i < j {
      GrowthIsTransitive(states, i + 1, j);
      assert Grows(states[i], states[i + 1]);
    }
  }

  /** Between any two points of a run the deliveries grow, and a resolved read keeps its answer. */
  lemma AnswersAreFinal(r: Run, limit: nat, i: nat, j: nat, k: nat)
    requires IsRun(r, limit) && i <= j < |r.states|
    ensures Grows(r.states[i], r.states[j])
    ensures Answer(r.states[i], k) != Pending ==> Answer(r.states[j], k) == Answer(r.states[i], k)
  {
    forall n | 0 <= n < |r.states| - 1
      ensures Grows(r.states[n], r.states[n + 1])
    {
      StepGrows(r.states[n], r.events[n], r.states[n + 1]);
    }
    GrowthIsTransitive(r.states, i, j);
  }

  /** A closed queue buffers nothing, on any run. */
  lemma {:induction false} ClosedIsEmpty(r: Run, limit: nat)
    requires IsRun(r, limit) && Last(r).closed
    ensures Last(r).buffered == multiset{}
    decreases |r.events|
  {
    if |r.events| > 0 {
      PrefixIsRun(r, limit);
      var q, q', e := Last(Init1(r)), Last(r), r.events[|r.events| - 1];
      if q.closed {
        ClosedIsEmpty(Init1(r), limit);
      } else if e.Push? && e.seqNo == |q.delivered| {
        DrainShape(Deliver(q, e.payload), q');
      }
    }
  }

  /** The buffer never holds more than its limit, on any run. */
  lemma {:induction false} BufferIsBounded(r: Run, limit: nat)
    requires IsRun(r, limit)
    ensures |Last(r).buffered| <= limit && Last(r).limit == limit
    decreases |r.events|
  {
    if |r.events| > 0 {
      PrefixIsRun(r, limit);
      BufferIsBounded(Init1(r), limit);
      var q, q', e := Last(Init1(r)), Last(r), r.events[|r.events| - 1];
      if e.Push? && !q.closed && e.seqNo == |q.delivered| {
        DrainFacts(Deliver(q, e.payload), q');
        assert q.buffered == q'.buffered + (q.buffered - q'.buffered);
      }
    }
  }

  // ---------- Runs that never repeat a buffered number ----------

  /** The caller does not push a number that is waiting in the buffer. */
  ghost predicate NoRepeat(q: Queue, e: Event) {
    e.Push? && !q.closed && e.seqNo > |q.delivered| ==> !Buffers(q, e.seqNo)
  }

  ghost predicate NeverRepeats(r: Run)
    requires |r.states| == |r.events| + 1
  {
    forall i :: 0 <= i < |r.events| ==> NoRepeat(r.states[i], r.events[i])
  }

  /** Only future numbers are buffered, each once. */
  ghost predicate Tidy(q: Queue) {
    && (forall x :: x in q.buffered ==> x.seqNo > |q.delivered| && q.buffered[x] == 1)
    && (forall x, y :: x in q.buffered && y in q.buffered && x.seqNo == y.seqNo ==> x == y)
  }

  /** Nothing pushed to an open queue is lost: its number is delivered or buffered. */
  ghost predicate NothingLost(q: Queue, events: seq<Event>) {
    forall e :: e in events && e.Push? && !q.closed ==> e.seqNo < |q.delivered| || Buffers(q, e.seqNo)
  }

  lemma TidyDrains(q: Queue, payload: bytes, q': Queue)
    requires Tidy(q) && Drains(Deliver(q, payload), q')
    ensures Tidy(q')
  {
    var d := Deliver(q, payload);
    DrainShape(d, q');
    forall x | x in q'.buffered
      ensures x.seqNo > |q'.delivered| && q'.buffered[x] == 1
    {
      TidyLeft(q, payload, q', x);
    }
  }

  lemma TidyIsUnblocked(q: Queue, payload: bytes)
    requires Tidy(q)
    ensures Unblocked(Deliver(q, payload))
  {
  }

  /** What a drain of a tidy queue leaves in the buffer lies beyond the next number. */
  lemma TidyLeft(q: Queue, payload: bytes, q': Queue, x: Item)
    requires Tidy(q) && Drains(Deliver(q, payload), q') && x in q'.buffered
    ensures x.seqNo > |q'.delivered| && q'.buffered[x] == 1
  {
    var d := Deliver(q, payload);
    DrainFacts(d, q');
    TidyIsUnblocked(q, payload);
    DrainsFullyIff(d, q');
    assert x in d.buffered && q'.buffered[x] <= d.buffered[x] == 1;
    if x.seqNo < |q'.delivered| {
      TidyLeavesDelivered(q, payload, q', x);
    }
  }

  lemma TidyLeavesDelivered(q: Queue, payload: bytes, q': Queue, x: Item)
    requires Tidy(q) && Drains(Deliver(q, payload), q') && x in q.buffered && x.seqNo < |q'.delivered|
    ensures x !in q'.buffered
  {
    var d := Deliver(q, payload);
    DrainFacts(d, q');
    var y := Item(x.seqNo, q'.delivered[x.seqNo]);
    assert y in q.buffered && y == x;
    DrainRemoves(d, q', x.seqNo);
  }

  /** A drain removes one copy of each post it delivers. */
  lemma {:induction false} DrainRemoves(q: Queue, end: Queue, k: nat)
    requires Drains(q, end) && |q.delivered| <= k < |end.delivered|
    ensures end.buffered[Item(k, end.delivered[k])] < q.buffered[Item(k, end.delivered[k])]
    decreases |q.buffered|
  {
    var x :| x in q.buffered && x.seqNo == |q.delivered| && Drains(Take(q, x), end);
    DrainFacts(Take(q, x), end);
    if k > |q.delivered| {
      DrainRemoves(Take(q, x), end, k);
    }
  }

  /** A buffer that keeps every post at or beyond the next number loses nothing. */
  lemma KeepsPosts(q: Queue, events: seq<Event>, e: Event, q': Queue)
    requires NothingLost(q, events) && (q.closed ==> q'.closed)
    requires |q.delivered| <= |q'.delivered|
    requires !q'.closed ==> forall x :: x in q.buffered ==> x in q'.buffered || x.seqNo < |q'.delivered|
    requires e.Push? && !q'.closed ==> e.seqNo < |q'.delivered| || Buffers(q', e.seqNo)
    ensures NothingLost(q', events + [e])
  {
    forall f | f in events + [e] && f.Push? && !q'.closed
      ensures f.seqNo < |q'.delivered| || Buffers(q', f.seqNo)
    {
      if f in events && f.seqNo >= |q'.delivered| {
        var x :| x in q.buffered && x.seqNo == f.seqNo;
        assert x in q'.buffered;
      }
    }
  }

  lemma StepTidy(q: Queue, events: seq<Event>, e: Event, q': Queue)
    requires Tidy(q) && NothingLost(q, events) && Step(q, e, q') && NoRepeat(q, e)
    ensures Tidy(q') && NothingLost(q', events + [e])
  {
    if e.Push? && !q.closed && e.seqNo == |q.delivered| {
      TidyDrains(q, e.payload, q');
      DrainFacts(Deliver(q, e.payload), q');
    } else if e.Push? && !q.closed && !q'.closed && e.seqNo > |q.delivered| {
      TidyBuffers(q, Item(e.seqNo, e.payload), q');
    }
    KeepsPosts(q, events, e, q');
  }

  lemma TidyBuffers(q: Queue, item: Item, q': Queue)
    requires Tidy(q) && item.seqNo > |q.delivered| && !Buffers(q, item.seqNo)
    requires q' == q.(buffered := q.buffered + multiset{item})
    ensures Tidy(q') && item in q'.buffered
  {
    assert item !in q.buffered;
    assert forall x :: x != item ==> q'.buffered[x] == q.buffered[x];
  }

  lemma {:induction false} RunTidy(r: Run, limit: nat)
    requires IsRun(r, limit) && NeverRepeats(r)
    ensures Tidy(Last(r)) && NothingLost(Last(r), r.events)
    decreases |r.events|
  {
    if |r.events| > 0 {
      PrefixIsRun(r, limit);
      RunTidy(Init1(r), limit);
      StepTidy(Last(Init1(r)), Init1(r).events, r.events[|r.events| - 1], Last(r));
    }
  }

  ghost predicate Pushed(events: seq<Event>, n: nat) {
    exists e :: e in events && e.Push? && e.seqNo == n
  }

  /**
   If no buffered number is pushed again then, while the queue is open, the next expected number is the
   least number never pushed.
   */
  lemma NextIsLeastNeverPushed(r: Run, limit: nat)
    requires IsRun(r, limit) && NeverRepeats(r) && !Last(r).closed
    ensures forall n :: 0 <= n < |Last(r).delivered| ==> Pushed(r.events, n)
    ensures !Pushed(r.events, |Last(r).delivered|)
  {
    DeliveredInOrder(r, limit);
    RunTidy(r, limit);
    forall n | 0 <= n < |Last(r).delivered|
      ensures Pushed(r.events, n)
    {
      assert Push(n, Last(r).delivered[n]) in r.events;
    }
  }

  // ---------- The exact condition, with repeats ----------

  lemma StepLosesNothing(q: Queue, events: seq<Event>, e: Event, q': Queue)
    requires NothingLost(q, events) && Step(q, e, q')
    ensures NothingLost(q', events + [e])
  {
    if e.Push? && !q.closed && e.seqNo == |q.delivered| {
      DrainFacts(Deliver(q, e.payload), q');
    } else if e.Push? && !q.closed && !q'.closed && e.seqNo > |q.delivered| {
      assert Item(e.seqNo, e.payload) in q'.buffered;
    }
    KeepsPosts(q, events, e, q');
  }

  /** On every run, repeats or not, nothing pushed to an open queue is lost. */
  lemma {:induction false} RunLosesNothing(r: Run, limit: nat)
    requires IsRun(r, limit)
    ensures NothingLost(Last(r), r.events)
    decreases |r.events|
  {
    if |r.events| > 0 {
      PrefixIsRun(r, limit);
      RunLosesNothing(Init1(r), limit);
      StepLosesNothing(Last(Init1(r)), Init1(r).events, r.events[|r.events| - 1], Last(r));
    }
  }

  /** The drain of the last in-order push, if there was one, met no obstacle. */
  ghost predicate LastDrainUnblocked(r: Run)
    requires |r.states| == |r.events| + 1
    decreases |r.events|
  {
    if |r.events| == 0 then true
    else
      var q, e := Last(Init1(r)), r.events[|r.events| - 1];
      if e.Push? && !q.closed && e.seqNo == |q.delivered| then Unblocked(Deliver(q, e.payload))
      else LastDrainUnblocked(Init1(r))
  }

  lemma OtherStepsKeepExpected(q: Queue, e: Event, q': Queue)
    requires Step(q, e, q') && !q'.closed && (e.Push? ==> e.seqNo != |q.delivered|)
    ensures !q.closed && q'.delivered == q.delivered
    ensures Buffers(q', |q.delivered|) <==> Buffers(q, |q.delivered|)
  {
    if e.Push? && e.seqNo > |q.delivered| {
      var item := Item(e.seqNo, e.payload);
      assert forall x :: x != item ==> (x in q'.buffered <==> x in q.buffered);
    }
  }

  lemma {:induction false} ExpectedIsBufferedIff(r: Run, limit: nat)
    requires IsRun(r, limit) && !Last(r).closed
    ensures !Buffers(Last(r), |Last(r).delivered|) <==> LastDrainUnblocked(r)
    decreases |r.events|
  {
    if |r.events| > 0 {
      PrefixIsRun(r, limit);
      var q, e := Last(Init1(r)), r.events[|r.events| - 1];
      if e.Push? && e.seqNo == |q.delivered| {
        PushDrainsFullyIff(q, e.payload, Last(r));
      } else {
        OtherStepsKeepExpected(q, e, Last(r));
        ExpectedIsBufferedIff(Init1(r), limit);
      }
    }
  }

  /**
   On every open run all numbers below the expected one were pushed; and the expected number is the least never
   pushed if and only if the drain of the last in-order push was unblocked.
   */
  lemma NextIsLeastNeverPushedIff(r: Run, limit: nat)
    requires IsRun(r, limit) && !Last(r).closed
    ensures forall n :: 0 <= n < |Last(r).delivered| ==> Pushed(r.events, n)
    ensures !Pushed(r.events, |Last(r).delivered|) <==> LastDrainUnblocked(r)
  {
    DeliveredInOrder(r, limit);
    RunLosesNothing(r, limit);
    ExpectedIsBufferedIff(r, limit);
    var q := Last(r);
    forall n | 0 <= n < |q.delivered|
      ensures Pushed(r.events, n)
    {
      assert Push(n, q.delivered[n]) in r.events;
    }
    if Buffers(q, |q.delivered|) {
      var x :| x in q.buffered && x.seqNo == |q.delivered|;
      assert Push(x.seqNo, x.payload) in r.events;
    }
  }

  /** The pushes of `events` are exactly the posts of `posts`, in any order and any number of times. */
  ghost predicate Carries(events: seq<Event>, posts: map<nat, bytes>) {
    && (forall e :: e in events && e.Push? ==> e.seqNo in posts && posts[e.seqNo] == e.payload)
    && (forall n :: n in posts ==> Push(n, posts[n]) in events)
  }

  /** Any two open runs that carry the same posts deliver the same sequence, whatever the arrival orders. */
  lemma OrderDoesNotMatter(r: Run, s: Run, limit: nat, limit': nat, posts: map<nat, bytes>)
    requires IsRun(r, limit) && NeverRepeats(r) && !Last(r).closed && Carries(r.events, posts)
    requires IsRun(s, limit') && NeverRepeats(s) && !Last(s).closed && Carries(s.events, posts)
    ensures Last(r).delivered == Last(s).delivered
  {
    NextIsLeastNeverPushed(r, limit);
    NextIsLeastNeverPushed(s, limit');
    DeliveredInOrder(r, limit);
    DeliveredInOrder(s, limit');
    var a, b := Last(r).delivered, Last(s).delivered;
    assert forall n :: n in posts <==> Pushed(r.events, n);
    assert forall n :: n in posts <==> Pushed(s.events, n);
    assert forall n: nat :: n < |a| ==> n in posts;
    assert forall n: nat :: n < |b| ==> n in posts;
    assert |a| == |b|;
    forall n | 0 <= n < |a|
      ensures a[n] == b[n]
    {
      assert Push(n, a[n]) in r.events && Push(n, b[n]) in s.events;
    }
  }

  // ---------- What a repeated number costs ----------

  /** Once a stale post is buffered in an open queue, nothing leaves the buffer again until the queue closes. */
  lemma {:induction false} StuckForGood(r: Run, limit: nat, i: nat, j: nat)
    requires IsRun(r, limit) && i <= j < |r.states|
    requires HasStale(r.states[i]) && !r.states[j].closed
    ensures HasStale(r.states[j]) && !r.states[i].closed
    ensures r.states[i].buffered <= r.states[j].buffered
    ensures |r.states[j].delivered| <= |r.states[i].delivered| + (j - i)
    decreases j - i
  {
    if i < j {
      assert Step(r.states[i], r.events[i], r.states[i + 1]);
      if r.states[i + 1].closed {
        ClosedStays(r, limit, i + 1, j);
        assert false;
      } else {
        StuckStep(r.states[i], r.events[i], r.states[i + 1]);
        StuckForGood(r, limit, i + 1, j);
      }
    }
  }

  lemma StuckStep(q: Queue, e: Event, q': Queue)
    requires HasStale(q) && Step(q, e, q') && !q'.closed
    ensures HasStale(q') && !q.closed && q.buffered <= q'.buffered && |q'.delivered| <= |q.delivered| + 1
  {
    var x :| x in q.buffered && x.seqNo < |q.delivered|;
    if e.Push? && e.seqNo == |q.delivered| {
      assert HasStale(Deliver(q, e.payload));
      assert q' == Deliver(q, e.payload);
    }
    assert x in q'.buffered;
  }

  lemma {:induction false} ClosedStays(r: Run, limit: nat, i: nat, j: nat)
    requires IsRun(r, limit) && i <= j < |r.states| && r.states[i].closed
    ensures r.states[j].closed
    decreases j - i
  {
    if i < j {
      assert Step(r.states[i], r.events[i], r.states[i + 1]);
      ClosedStays(r, limit, i + 1, j);
    }
  }

  lemma {:induction false} DrainStopsAtRepeat(q: Queue, end: Queue, n: nat)
    requires Drains(q, end) && !HasStale(q) && Repeats(q, n) && |q.delivered| <= n < |end.delivered|
    ensures HasStale(end) && |end.delivered| == n + 1
    decreases |q.buffered|
  {
    var x :| x in q.buffered && x.seqNo == |q.delivered| && Drains(Take(q, x), end);
    TakeLeavesStale(q, x);
    if n > |q.delivered| {
      TakeBuffers(q, x, n);
    }
    if HasStale(Take(q, x)) {
      assert end == Take(q, x);
    } else {
      DrainStopsAtRepeat(Take(q, x), end, n);
    }
  }

  /**
   The whole family behind `StuckForGood`: in a tidy queue, two posts numbered `n` arrive early and then
   the numbers before `n` arrive; the second copy is left behind, stale.
   */
  lemma RepeatGoesStale(q: Queue, payload: bytes, q': Queue, n: nat)
    requires !q.closed && !HasStale(q) && Repeats(q, n) && n > |q.delivered|
    requires PushStep(q, |q.delivered|, payload, q', true) && n < |q'.delivered|
    ensures HasStale(q') && |q'.delivered| == n + 1
  {
    var d := Deliver(q, payload);
    if HasStale(d) {
      assert false;
    } else {
      DrainStopsAtRepeat(d, q', n);
    }
  }

  lemma Extend(r: Run, limit: nat, e: Event, q': Queue) returns (s: Run)
    requires IsRun(r, limit) && Step(Last(r), e, q')
    ensures IsRun(s, limit) && Last(s) == q' && s.events == r.events + [e]
  {
    s := Run(r.states + [q'], r.events + [e]);
  }

  lemma BufferEarly(q: Queue, n: nat, payload: bytes)
    requires !q.closed && n > |q.delivered| && |q.buffered| < q.limit
    ensures Step(q, Push(n, payload), q.(buffered := q.buffered + multiset{Item(n, payload)}))
  {
  }

  /** The second copy of number 1 stops the drain started by number 0. */
  lemma DrainLeavesSecondCopy(a: bytes, b: bytes)
    ensures Step(Queue(multiset{Item(1, b), Item(1, b)}, [], 0, false, 64), Push(0, a),
                 Queue(multiset{Item(1, b)}, [a, b], 0, false, 64))
  {
    var x := Item(1, b);
    var m := Deliver(Queue(multiset{x, x}, [], 0, false, 64), a);
    var stalled := Queue(multiset{x}, [a, b], 0, false, 64);
    assert x in m.buffered;
    assert m.delivered == [a] && Take(m, x).delivered == [a, b];
    assert Take(m, x) == stalled;
    assert x in stalled.buffered;
    assert Drains(m, stalled);
  }

  /** A stale post stops the drain of every later push at once. */
  lemma StalePushStep(q: Queue, payload: bytes)
    requires !q.closed && HasStale(q)
    ensures Step(q, Push(|q.delivered|, payload), Deliver(q, payload))
  {
    assert HasStale(Deliver(q, payload));
  }

  lemma StallPrefix(a: bytes, b: bytes) returns (r: Run)
    ensures IsRun(r, 64) && r.events == [Push(1, b), Push(1, b), Push(0, a)]
    ensures Last(r) == Queue(multiset{Item(1, b)}, [a, b], 0, false, 64)
  {
    var x := Item(1, b);
    var q0 := Init(64);
    var q1 := q0.(buffered := q0.buffered + multiset{x});
    var q2 := q1.(buffered := q1.buffered + multiset{x});
    BufferEarly(q0, 1, b);
    BufferEarly(q1, 1, b);
    assert q2 == Queue(multiset{x, x}, [], 0, false, 64);
    DrainLeavesSecondCopy(a, b);
    r := Run([q0], []);
    r := Extend(r, 64, Push(1, b), q1);
    r := Extend(r, 64, Push(1, b), q2);
    r := Extend(r, 64, Push(0, a), Queue(multiset{x}, [a, b], 0, false, 64));
  }

  /** A run in which number 1 arrives twice early: number 3 is pushed, becomes expected and is not delivered. */
  lemma RepeatedNumberStallsTheQueue(a: bytes, b: bytes, c: bytes, d: bytes) returns (r: Run)
    ensures IsRun(r, 64) && !Last(r).closed
    ensures r.events == [Push(1, b), Push(1, b), Push(0, a), Push(3, d), Push(2, c)]
    ensures Last(r).delivered == [a, b, c] && Buffers(Last(r), 3)
  {
    var x, y := Item(1, b), Item(3, d);
    r := StallPrefix(a, b);
    var q3 := Last(r);
    BufferEarly(q3, 3, d);
    var q4 := q3.(buffered := q3.buffered + multiset{y});
    assert x in q4.buffered && y in q4.buffered;
    StalePushStep(q4, c);
    r := Extend(r, 64, Push(3, d), q4);
    r := Extend(r, 64, Push(2, c), Deliver(q4, c));
  }
}
