/** The coalescing push queue: a mutable object and the functions on its value that specify it. */
module PushQueues {
  import opened Options

  /** A binding of a tag to a catalog item, without the store's timestamps. */
  datatype Binding = Binding(mac: string, itemID: string, itemName: string, priceCents: int, bridgeID: string)

  datatype Status = Queued | Pushing | Ok | Failed(detail: string)

  datatype Queue = Queue(pending: map<string, Binding>, order: seq<string>, status: map<string, Status>)

  function Enqueued(q: Queue, b: Binding): Queue {
    Queue(q.pending[b.mac := b],
          if b.mac in q.pending then q.order else q.order + [b.mac],
          q.status[b.mac := Queued])
  }

  /** The queue after `next` and the binding it returns, skipping waiting MACs with nothing pending. */
  function Dequeued(q: Queue): (Queue, Option<Binding>)
    decreases |q.order|
  {
    if q.order == [] then (q, None)
    else
      var mac, rest := q.order[0], q.order[1..];
      if mac in q.pending then (q.(order := rest, pending := q.pending - {mac}), Some(q.pending[mac]))
      else Dequeued(q.(order := rest))
  }

  function WithStatus(q: Queue, mac: string, st: Status): Queue {
    q.(status := q.status[mac := st])
  }

  /** `order` lists each pending MAC once, and bindings are filed under their own MAC. */
  ghost predicate WellFormed(q: Queue) {
    && (forall i, j | 0 <= i < j < |q.order| :: q.order[i] != q.order[j])
    && (forall m :: m in q.order <==> m in q.pending)
    && (forall m | m in q.pending :: q.pending[m].mac == m)
  }

  /** Coalescing keeps the waiting list duplicate-free and in step with the pending bindings. */
  lemma EnqueueKeeps(q: Queue, b: Binding)
    requires WellFormed(q)
    ensures WellFormed(Enqueued(q, b))
  {
    var q' := Enqueued(q, b);
    forall m
      ensures m in q'.order <==> m in q'.pending
    {
      assert m in q.order <==> m in q.pending;
    }
  }

  /** In a well-formed queue `next` never skips: it serves the head of the line, or there is nothing pending. */
  lemma NextServesHead(q: Queue)
    requires WellFormed(q)
    ensures WellFormed(Dequeued(q).0)
    ensures q.pending == map[] <==> q.order == []
    ensures q.order == [] ==> Dequeued(q) == (q, None)
    ensures q.order != [] ==>
              && Dequeued(q).1 == Some(q.pending[q.order[0]])
              && Dequeued(q).0 == q.(order := q.order[1..], pending := q.pending - {q.order[0]})
  {
    if q.order == [] {
      assert forall m :: m in q.pending ==> m in q.order;
    } else {
      var mac, q' := q.order[0], Dequeued(q).0;
      assert mac in q.order;
      forall m
        ensures m in q'.order <==> m in q'.pending
      {
        assert m in q.order <==> m == mac || m in q'.order;
      }
    }
  }

  class PushQueue {
    var pending: map<string, Binding>
    var order: seq<string>
    var status: map<string, Status>
    var wake: bool  // the wake channel of capacity 1 holds a token

    ghost function State(): Queue
      reads this
    {
      Queue(pending, order, status)
    }

    constructor ()
      ensures State() == Queue(map[], [], map[]) && !wake
    {
      pending, order, status, wake := map[], [], map[], false;
    }

    /** The critical section of `enqueue`. */
    method EnqueueLocked(b: Binding)
      modifies this`pending, this`order, this`status
      ensures State() == Enqueued(old(State()), b)
      ensures pending == old(pending)[b.mac := b] && status == old(status)[b.mac := Queued]
      ensures order == if b.mac in old(pending) then old(order) else old(order) + [b.mac]
    {
      if b.mac !in pending {
        order := order + [b.mac];
      }
      pending := pending[b.mac := b];
      status := status[b.mac := Queued];
    }

    /** The non-blocking send on the wake channel. */
    method Signal()
      modifies this`wake
      ensures wake
    {
      if !wake {
        wake := true;
      }
    }

    /** The binding replaces any pending one for its MAC, which waits at its old place, and is "queued" now. */
    method Enqueue(b: Binding)
      modifies this
      ensures State() == Enqueued(old(State()), b) && wake
      ensures pending == old(pending)[b.mac := b] && status == old(status)[b.mac := Queued]
      ensures order == if b.mac in old(pending) then old(order) else old(order) + [b.mac]
    {
      EnqueueLocked(b);
      Signal();
    }

    method Next() returns (r: Option<Binding>)
      modifies this`pending, this`order
      ensures (State(), r) == Dequeued(old(State()))
      ensures r.None? ==> order == [] && pending == old(pending)
      ensures r.Some? ==> exists k | 0 <= k < |old(order)| ::
                && old(order)[k] in old(pending) && r.value == old(pending)[old(order)[k]]
                && (forall j | 0 <= j < k :: old(order)[j] !in old(pending))
                && order == old(order)[k + 1..] && pending == old(pending) - {old(order)[k]}
    {
      ghost var k := 0;
      while |order| > 0
        invariant Dequeued(State()) == Dequeued(old(State()))
        invariant pending == old(pending) && 0 <= k <= |old(order)| && order == old(order)[k..]
        invariant forall j | 0 <= j < k :: old(order)[j] !in old(pending)
        decreases |order|
      {
        var mac := order[0];
        assert mac == old(order)[k];
        order := order[1..];
        k := k + 1;
        if mac in pending {
          assert order == old(order)[(k - 1) + 1..];
          r := Some(pending[mac]);
          pending := pending - {mac};
          return;
        }
      }
      r := None;
    }

    method SetStatus(mac: string, st: Status)
      modifies this`status
      ensures State() == WithStatus(old(State()), mac, st)
      ensures status == old(status)[mac := st]
    {
      status := status[mac := st];
    }
  }
}
