/**
 What the upload queue promises, independent of how it stores out-of-order posts.

 A queue is a bag of buffered posts, the list of payloads delivered so far, the number of
 `read` calls made and a closed flag. The next expected sequence number is the number of
 deliveries.
 */
module ReorderSpec {
  import opened Bytes

  datatype Item = Item(seqNo: nat, payload: bytes)

  /** What a promise returned by `read` holds. */
  datatype Promise = Pending | Resolved(payload: Option<bytes>)

  datatype Queue = Queue(buffered: multiset<Item>, delivered: seq<bytes>, asked: nat, closed: bool, limit: nat)

  datatype Event = Push(seqNo: nat, payload: bytes) | Read | Close

  function Init(limit: nat): Queue {
    Queue(multiset{}, [], 0, false, limit)
  }

  /** The promise of read number `k`: read `k` is answered with payload `k`, in any interleaving. */
  function Answer(q: Queue, k: nat): Promise {
    if k < |q.delivered| then Resolved(Some(q.delivered[k]))
    else if q.closed then Resolved(None)
    else Pending
  }

  /** Payloads delivered but not yet read. */
  function Ready(q: Queue): seq<bytes> {
    if q.asked < |q.delivered| then q.delivered[q.asked..] else []
  }

  /** Reads still waiting, by number. */
  function Waiters(q: Queue): seq<nat> {
    if q.closed || q.asked <= |q.delivered| then []
    else seq(q.asked - |q.delivered|, i requires 0 <= i => |q.delivered| + i)
  }

  ghost predicate Buffers(q: Queue, n: nat) {
    exists x :: x in q.buffered && x.seqNo == n
  }

  /** A buffered post whose number was already delivered. */
  ghost predicate HasStale(q: Queue) {
    exists x :: x in q.buffered && x.seqNo < |q.delivered|
  }

  /** The drain loop goes on exactly when a least buffered post is the expected one. */
  ghost predicate CanDrain(q: Queue) {
    Buffers(q, |q.delivered|) && !HasStale(q)
  }

  function Deliver(q: Queue, payload: bytes): Queue {
    q.(delivered := q.delivered + [payload])
  }

  function Take(q: Queue, x: Item): Queue {
    Deliver(q, x.payload).(buffered := q.buffered - multiset{x})
  }

  /** `end` is a state in which the drain loop started at `q` may stop. */
  ghost predicate Drains(q: Queue, end: Queue)
    decreases |q.buffered|
  {
    if CanDrain(q) then
      exists x | x in q.buffered && x.seqNo == |q.delivered| :: Drains(Take(q, x), end)
    else end == q
  }

  function CloseQueue(q: Queue): Queue {
    if q.closed then q else q.(closed := true, buffered := multiset{})
  }

  /** The four outcomes of a push; `ok` is its boolean result. */
  ghost predicate PushStep(q: Queue, n: nat, payload: bytes, q': Queue, ok: bool) {
    if q.closed then q' == q && !ok
    else if n < |q.delivered| then q' == q && ok
    else if n == |q.delivered| then Drains(Deliver(q, payload), q') && ok
    else if |q.buffered| >= q.limit then q' == CloseQueue(q) && !ok
    else q' == q.(buffered := q.buffered + multiset{Item(n, payload)}) && ok
  }

  ghost predicate Step(q: Queue, e: Event, q': Queue) {
    match e
    case Push(n, payload) => PushStep(q, n, payload, q', true) || PushStep(q, n, payload, q', false)
    case Read => q' == q.(asked := q.asked + 1)
    case Close => q' == CloseQueue(q)
  }
}
