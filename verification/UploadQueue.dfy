/** The upload reorder queue of tunnel/uploadQueue.js: an array min-heap, a ready list and waiting reads. */
module UploadQueues {
  import opened Bytes
  import opened ReorderSpec

  /** Cell `c` is a child of cell `p`. */
  predicate Edge(p: nat, c: nat) {
    c == 2 * p + 1 || c == 2 * p + 2
  }

  /** Array heap order: no cell is below its parent. */
  ghost predicate IsHeap(h: seq<Item>) {
    forall p: nat, c: nat :: p < |h| && c < |h| && Edge(p, c) ==> h[p].seqNo <= h[c].seqNo
  }

  /** Every parent of cell `i` is at most every child of cell `i`. */
  ghost predicate Bridged(h: seq<Item>, i: nat) {
    forall p: nat, c: nat :: p < |h| && c < |h| && i < |h| && Edge(p, i) && Edge(i, c) ==> h[p].seqNo <= h[c].seqNo
  }

  /** Heap order everywhere but between cell `i` and its parent. */
  ghost predicate HeapButUp(h: seq<Item>, i: nat) {
    && (forall p: nat, c: nat :: p < |h| && c < |h| && Edge(p, c) && c != i ==> h[p].seqNo <= h[c].seqNo)
    && Bridged(h, i)
  }

  /** Heap order everywhere but between cell `i` and its children. */
  ghost predicate HeapButDown(h: seq<Item>, i: nat) {
    && (forall p: nat, c: nat :: p < |h| && c < |h| && Edge(p, c) && p != i ==> h[p].seqNo <= h[c].seqNo)
    && Bridged(h, i)
  }

  function Swap(h: seq<Item>, i: nat, j: nat): seq<Item>
    requires i < |h| && j < |h|
  {
    h[i := h[j]][j := h[i]]
  }

  /** Swapping a cell with its lesser child moves the only possible disorder down to that child. */
  lemma SwapDown(h: seq<Item>, i: nat, s: nat)
    requires i < |h| && s < |h| && Edge(i, s) && HeapButDown(h, i)
    requires h[s].seqNo < h[i].seqNo
    requires forall c: nat :: c < |h| && Edge(i, c) ==> h[s].seqNo <= h[c].seqNo
    ensures HeapButDown(Swap(h, i, s), s)
    ensures multiset(Swap(h, i, s)) == multiset(h)
  {
    var g := Swap(h, i, s);
    forall p: nat, c: nat | p < |h| && c < |h| && Edge(p, c) && p != s
      ensures g[p].seqNo <= g[c].seqNo
    {
    }
    forall p: nat, c: nat | p < |h| && c < |h| && Edge(p, s) && Edge(s, c)
      ensures g[p].seqNo <= g[c].seqNo
    {
    }
  }

  /** Swapping a cell with its greater parent moves the only possible disorder up to that parent. */
  lemma SwapUp(h: seq<Item>, i: nat, p: nat)
    requires i < |h| && p < |h| && Edge(p, i) && HeapButUp(h, i) && h[i].seqNo < h[p].seqNo
    ensures HeapButUp(Swap(h, i, p), p)
    ensures multiset(Swap(h, i, p)) == multiset(h)
  {
    var g := Swap(h, i, p);
    forall a: nat, c: nat | a < |h| && c < |h| && Edge(a, c) && c != p
      ensures g[a].seqNo <= g[c].seqNo
    {
    }
    forall a: nat, c: nat | a < |h| && c < |h| && Edge(a, p) && Edge(p, c)
      ensures g[a].seqNo <= g[c].seqNo
    {
    }
  }

  /** In a heap the root is a minimum. */
  lemma {:induction false} RootIsLeast(h: seq<Item>, k: nat)
    requires IsHeap(h) && k < |h|
    ensures h[0].seqNo <= h[k].seqNo
    decreases k
  {
    if k > 0 {
      RootIsLeast(h, (k - 1) / 2);
      assert Edge((k - 1) / 2, k);
    }
  }

  /** The root test of the drain loop decides `CanDrain`. */
  lemma RootDecides(h: seq<Item>, q: Queue)
    requires IsHeap(h) && q.buffered == multiset(h)
    ensures CanDrain(q) <==> h != [] && h[0].seqNo == |q.delivered|
  {
    forall x | x in q.buffered
      ensures h != [] && h[0].seqNo <= x.seqNo
    {
      var k :| 0 <= k < |h| && h[k] == x;
      RootIsLeast(h, k);
    }
    if h != [] {
      assert h[0] in q.buffered;
    }
  }

  class UploadQueue {
    var heap: seq<Item>
    var nextSeq: nat
    var ready: seq<bytes>
    var waiters: seq<nat>
    var closed: bool
    const maxBuffered: nat
    /** The promises handed out by `Read`, in call order. */
    var promises: seq<Promise>
    /** Every payload delivered so far. */
    ghost var delivered: seq<bytes>

    ghost function State(): Queue
      reads this
    {
      Queue(multiset(heap), delivered, |promises|, closed, maxBuffered)
    }

    /** All of `Valid` but the sequence counter, which lags inside a delivery. */
    ghost predicate Consistent()
      reads this
    {
      && IsHeap(heap)
      && ready == Ready(State())
      && waiters == Waiters(State())
      && (forall k :: 0 <= k < |promises| ==> promises[k] == Answer(State(), k))
      && (closed ==> heap == [])
    }

    ghost predicate Valid()
      reads this
    {
      Consistent() && nextSeq == |delivered|
    }

    constructor (maxBuffered: nat)
      ensures Valid() && State() == Init(maxBuffered)
    {
      heap, ready, waiters, promises, delivered := [], [], [], [], [];
      nextSeq, closed := 0, false;
      this.maxBuffered := maxBuffered;
    }

    method Push(n: nat, payload: bytes) returns (ok: bool)
      requires Valid()
      modifies this
      ensures Valid()
      ensures PushStep(old(State()), n, payload, State(), ok)
      ensures ok <==> !closed
    {
      if closed {
        return false;
      }
      if n < nextSeq {
        return true;
      }
      if n == nextSeq {
        DeliverOne(payload);
        nextSeq := nextSeq + 1;
        DrainHeap();
      } else {
        if |heap| >= maxBuffered {
          CloseAll();
          return false;
        }
        HeapPush(Item(n, payload));
      }
      return true;
    }

    method Read() returns (promise: nat)
      requires Valid()
      modifies this
      ensures Valid() && promise == old(|promises|) && State() == old(State()).(asked := promise + 1)
      ensures promises == old(promises) + [if promise < |delivered| then Resolved(Some(delivered[promise]))
                                           else if closed then Resolved(None) else Pending]
    {
      promise := |promises|;
      if |ready| > 0 {
        promises := promises + [Resolved(Some(ready[0]))];
        ready := ready[1..];
      } else if closed {
        promises := promises + [Resolved(None)];
      } else {
        promises := promises + [Pending];
        waiters := waiters + [promise];
      }
    }

    method CloseAll()
      requires Valid()
      modifies this
      ensures Valid() && State() == CloseQueue(old(State()))
      ensures closed && |promises| == |old(promises)| && delivered == old(delivered) && ready == old(ready)
      ensures !old(closed) ==> heap == []
      ensures !old(closed) ==> forall k :: 0 <= k < |promises| ==>
                                 promises[k] == if old(promises[k]).Pending? then Resolved(None) else old(promises[k])
    {
      if closed {
        return;
      }
      closed := true;
      var woken, settled := waiters, promises;
      waiters := [];
      for i := 0 to |woken|
        invariant |settled| == |promises|
        invariant forall k :: 0 <= k < |settled| ==>
          settled[k] == if |delivered| <= k < |delivered| + i then Resolved(None) else promises[k]
      {
        settled := settled[woken[i] := Resolved(None)];
      }
      promises := settled;
      heap := [];
    }

    /** Hands a payload to the first waiting read, else stores it as ready. */
    method DeliverOne(payload: bytes)
      requires Consistent() && !closed
      modifies `waiters, `promises, `ready, `delivered
      ensures Consistent() && State() == Deliver(old(State()), payload)
    {
      if |waiters| > 0 {
        promises := promises[waiters[0] := Resolved(Some(payload))];
        waiters := waiters[1..];
      } else {
        ready := ready + [payload];
      }
      delivered := delivered + [payload];
    }

    method DrainHeap()
      requires Valid() && !closed
      modifies this
      ensures Valid() && !closed && Drains(old(State()), State())
    {
      ghost var start := State();
      while |heap| > 0 && heap[0].seqNo == nextSeq
        invariant Valid() && !closed
        invariant forall end :: Drains(State(), end) ==> Drains(start, end)
        decreases |heap|
      {
        ghost var here := State();
        RootDecides(heap, here);
        var frame := HeapShift();
        assert frame in here.buffered;
        DeliverOne(frame.payload);
        nextSeq := nextSeq + 1;
        assert State() == Take(here, frame);
      }
      RootDecides(heap, State());
      assert Drains(State(), State());
    }

    method HeapPush(item: Item)
      requires IsHeap(heap)
      modifies `heap
      ensures IsHeap(heap) && multiset(heap) == old(multiset(heap)) + multiset{item}
    {
      heap := heap + [item];
      HeapBubbleUp(|heap| - 1);
    }

    method HeapShift() returns (top: Item)
      requires IsHeap(heap) && |heap| > 0
      modifies `heap
      ensures top == old(heap)[0]
      ensures IsHeap(heap) && multiset(heap) == old(multiset(heap)) - multiset{top}
    {
      top := heap[0];
      var last := heap[|heap| - 1];
      assert heap == heap[..|heap| - 1] + [last];
      heap := heap[..|heap| - 1];
      if |heap| > 0 {
        heap := heap[0 := last];
        HeapBubbleDown(0);
      }
    }

    method HeapBubbleUp(start: nat)
      requires start < |heap| && HeapButUp(heap, start)
      modifies `heap
      ensures IsHeap(heap) && multiset(heap) == old(multiset(heap))
    {
      var i: nat := start;
      while i > 0
        invariant i < |heap| && HeapButUp(heap, i)
        invariant multiset(heap) == old(multiset(heap))
      {
        var parent := (i - 1) / 2;
        if heap[i].seqNo < heap[parent].seqNo {
          SwapUp(heap, i, parent);
          heap := Swap(heap, i, parent);
          i := parent;
        } else {
          break;
        }
      }
    }

    method HeapBubbleDown(start: nat)
      requires start < |heap| && HeapButDown(heap, start)
      modifies `heap
      ensures IsHeap(heap) && multiset(heap) == old(multiset(heap))
    {
      var i: nat := start;
      var n := |heap|;
      while true
        invariant i < |heap| == n && HeapButDown(heap, i)
        invariant multiset(heap) == old(multiset(heap))
        decreases n - i
      {
        var smallest := i;
        var left := 2 * i + 1;
        var right := 2 * i + 2;
        if left < n && heap[left].seqNo < heap[smallest].seqNo {
          smallest := left;
        }
        if right < n && heap[right].seqNo < heap[smallest].seqNo {
          smallest := right;
        }
        if smallest != i {
          SwapDown(heap, i, smallest);
          heap := Swap(heap, i, smallest);
          i := smallest;
        } else {
          break;
        }
      }
    }
  }
}
