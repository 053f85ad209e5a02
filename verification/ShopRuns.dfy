/**
 The whole service as one system: the binding store, the handlers between their store access and their
 enqueue, and the push queue with its worker.
 */
module ShopRuns {
  import opened Options
  import opened PushQueues
  import opened QueueRuns

  /**
   A handler between its store access and its enqueue, or after it: the binding it enqueues, how many
   writes the store had seen with its access, and whether the store took or held that binding.
   */
  datatype Handler = Handler(b: Binding, seen: nat, saved: bool)

  /** `writes` lists every upsert; `held` are handlers still to enqueue, oldest access first, `queued` those done. */
  datatype Shop = Shop(store: map<string, Binding>, writes: seq<Binding>, held: seq<Handler>,
                       queued: seq<Handler>, sys: Sys)

  datatype ShopEvent =
    | Write(b: Binding)        // saveBinding or ReconcileChanged upserts a row
    | FailedWrite(b: Binding)  // ReconcileChanged goes on after an upsert that failed
    | Reread(mac: string)      // handleRefresh, or ReconcileChanged without a cached item, reads a row
    | Finish(i: nat)           // one of those handlers reaches its enqueue
    | Delete(mac: string)      // handleDeleteBinding
    | Radio(e: Event)          // a step of the queue's worker, or a wake-up send

  predicate CanHappen(s: Shop, e: ShopEvent) {
    match e
    case Reread(mac) => mac in s.store
    case Finish(i) => i < |s.held|
    case Radio(e) => !e.Enqueue? && Enabled(s.sys, e)
    case _ => true
  }

  function Happen(s: Shop, e: ShopEvent): Shop
    requires CanHappen(s, e)
  {
    match e
    case Write(b) =>
      s.(store := s.store[b.mac := b], writes := s.writes + [b],
         held := s.held + [Handler(b, |s.writes| + 1, true)])
    case FailedWrite(b) => s.(held := s.held + [Handler(b, |s.writes|, false)])
    case Reread(mac) => s.(held := s.held + [Handler(s.store[mac], |s.writes|, true)])
    case Finish(i) =>
      s.(held := s.held[..i] + s.held[i + 1..], queued := s.queued + [s.held[i]],
         sys := Step(s.sys, Enqueue(s.held[i].b)))
    case Delete(mac) => s.(store := s.store - {mac})
    case Radio(e) => s.(sys := Step(s.sys, e))
  }

  predicate IsShopRun(s: Shop, es: seq<ShopEvent>)
    decreases |es|
  {
    es == [] || (CanHappen(s, es[0]) && IsShopRun(Happen(s, es[0]), es[1..]))
  }

  function ShopAfter(s: Shop, es: seq<ShopEvent>): Shop
    requires IsShopRun(s, es)
    decreases |es|
  {
    if es == [] then s else ShopAfter(Happen(s, es[0]), es[1..])
  }

  ghost predicate Filed(store: map<string, Binding>) {
    forall m | m in store :: store[m].mac == m
  }

  /** The service as it starts on a store that may already hold rows. */
  function Opening(store: map<string, Binding>): Shop {
    Shop(store, [], [], [], INIT)
  }

  // ----- the last handler of a MAC -----

  function LastHandler(m: string, hs: seq<Handler>): Option<Handler> {
    if hs == [] then None
    else if hs[|hs| - 1].b.mac == m then Some(hs[|hs| - 1])
    else LastHandler(m, hs[..|hs| - 1])
  }

  ghost function Bound(hs: seq<Handler>): seq<Binding> {
    seq(|hs|, i requires 0 <= i < |hs| => hs[i].b)
  }

  lemma {:induction false} LastOf(m: string, hs: seq<Handler>)
    ensures var e := Of(m, Bound(hs));
            if LastHandler(m, hs).Some? then e != [] && e[|e| - 1] == LastHandler(m, hs).value.b else e == []
  {
    if hs != [] {
      assert Bound(hs)[..|hs| - 1] == Bound(hs[..|hs| - 1]);
      LastOf(m, hs[..|hs| - 1]);
    }
  }

  lemma {:induction false} LastIsOne(m: string, hs: seq<Handler>)
    ensures LastHandler(m, hs).Some? ==> LastHandler(m, hs).value in hs && LastHandler(m, hs).value.b.mac == m
    ensures LastHandler(m, hs).None? ==> forall h | h in hs :: h.b.mac != m
  {
    if hs != [] {
      var front := hs[..|hs| - 1];
      LastIsOne(m, front);
      assert forall h :: h in hs <==> h in front || h == hs[|hs| - 1];
    }
  }

  lemma {:induction false} LastOfConcat(m: string, a: seq<Handler>, b: seq<Handler>)
    ensures LastHandler(m, a + b) == if LastHandler(m, b).Some? then LastHandler(m, b) else LastHandler(m, a)
    decreases |b|
  {
    if b == [] {
      assert a + b == a;
    } else {
      assert (a + b)[..|a + b| - 1] == a + b[..|b| - 1];
      LastOfConcat(m, a, b[..|b| - 1]);
    }
  }

  // ----- what holds in every run -----

  /** The row of a MAC that a store beginning with `rows` has after some writes, deletions aside. */
  function LastWritten(rows: map<string, Binding>, writes: seq<Binding>, m: string): Option<Binding> {
    if writes == [] then (if m in rows then Some(rows[m]) else None)
    else if writes[|writes| - 1].mac == m then Some(writes[|writes| - 1])
    else LastWritten(rows, writes[..|writes| - 1], m)
  }

  /** A handler whose store access succeeded enqueues the row of that moment. */
  ghost predicate SawRow(rows: map<string, Binding>, writes: seq<Binding>, h: Handler) {
    h.seen <= |writes| && (h.saved ==> LastWritten(rows, writes[..h.seen], h.b.mac) == Some(h.b))
  }

  ghost predicate ShopInv(rows: map<string, Binding>, s: Shop) {
    && Inv(s.sys)
    && Filed(s.store)
    && s.sys.enq == Bound(s.queued)
    && (forall h | h in s.held + s.queued :: SawRow(rows, s.writes, h))
    && (forall m | m in s.store :: LastWritten(rows, s.writes, m) == Some(s.store[m]))
  }

  lemma StillSaw(rows: map<string, Binding>, writes: seq<Binding>, b: Binding, h: Handler)
    requires SawRow(rows, writes, h)
    ensures SawRow(rows, writes + [b], h)
  {
    assert (writes + [b])[..h.seen] == writes[..h.seen];
  }

  lemma WriteKeeps(rows: map<string, Binding>, s: Shop, b: Binding)
    requires ShopInv(rows, s)
    ensures ShopInv(rows, Happen(s, Write(b)))
  {
    var s' := Happen(s, Write(b));
    assert s'.writes[..|s.writes|] == s.writes && s'.writes[..|s'.writes|] == s'.writes;
    forall h | h in s'.held + s'.queued
      ensures SawRow(rows, s'.writes, h)
    {
      if h in s.held + s.queued {
        StillSaw(rows, s.writes, b, h);
      }
    }
  }

  lemma HoldKeeps(rows: map<string, Binding>, s: Shop, e: ShopEvent)
    requires ShopInv(rows, s) && CanHappen(s, e) && (e.Reread? || e.FailedWrite?)
    ensures ShopInv(rows, Happen(s, e))
  {
    var s' := Happen(s, e);
    assert s.writes[..|s.writes|] == s.writes;
    assert forall h | h in s'.held + s'.queued :: h in s.held + s.queued || h == s'.held[|s.held|];
  }

  lemma FinishKeeps(rows: map<string, Binding>, s: Shop, i: nat)
    requires ShopInv(rows, s) && i < |s.held|
    ensures ShopInv(rows, Happen(s, Finish(i)))
  {
    var s' := Happen(s, Finish(i));
    StepKeeps(s.sys, Enqueue(s.held[i].b));
    assert Bound(s'.queued) == Bound(s.queued) + [s.held[i].b];
    forall h | h in s'.held + s'.queued
      ensures h in s.held + s.queued
    {
      assert s.held[i] in s.held;
    }
  }

  lemma {:induction false} ShopKeeps(rows: map<string, Binding>, s: Shop, es: seq<ShopEvent>)
    requires ShopInv(rows, s) && IsShopRun(s, es)
    ensures ShopInv(rows, ShopAfter(s, es))
    decreases |es|
  {
    if es != [] {
      match es[0] {
        case Write(b) => WriteKeeps(rows, s, b);
        case FailedWrite(_) => HoldKeeps(rows, s, es[0]);
        case Reread(_) => HoldKeeps(rows, s, es[0]);
        case Finish(i) => FinishKeeps(rows, s, i);
        case Delete(_) =>
        case Radio(e) => StepKeeps(s.sys, e);
      }
      ShopKeeps(rows, Happen(s, es[0]), es[1..]);
    }
  }

  lemma OpeningKeeps(rows: map<string, Binding>)
    requires Filed(rows)
    ensures ShopInv(rows, Opening(rows))
  {
    InitKeeps();
  }

  // ----- agreement, exactly -----

  /** The last binding delivered to a MAC. */
  ghost function LastDelivered(s: Shop, m: string): Option<Binding> {
    var d := Of(m, Bindings(s.sys.done));
    if d == [] then None else Some(d[|d| - 1])
  }

  /** In a quiet system the last binding delivered to a MAC is that of the last handler to enqueue for it. */
  lemma DeliveredIsLastQueued(rows: map<string, Binding>, s: Shop, m: string)
    requires ShopInv(rows, s) && Quiet(s.sys)
    ensures LastHandler(m, s.queued).Some? ==> LastDelivered(s, m) == Some(LastHandler(m, s.queued).value.b)
  {
    assert LatestWins(s.sys, m) && s.sys.deq == Bindings(s.sys.done);
    LatestMeans(s.sys, m);
    LastOf(m, s.queued);
  }

  /** The bindings that a MAC had at the start or was ever given are pairwise different. */
  ghost predicate AllDifferent(rows: map<string, Binding>, s: Shop, m: string) {
    && (forall i, j | 0 <= i < j < |s.writes| && s.writes[i].mac == m :: s.writes[i] != s.writes[j])
    && (m in rows ==> rows[m] !in s.writes)
    && (forall h | h in s.queued && !h.saved && h.b.mac == m :: h.b !in s.writes && (m in rows ==> h.b != rows[m]))
  }

  /** No write for a MAC comes after the first n. */
  predicate NoWriteSince(writes: seq<Binding>, n: nat, m: string) {
    forall k | n <= k < |writes| :: writes[k].mac != m
  }

  lemma {:induction false} LastWrittenSince(rows: map<string, Binding>, writes: seq<Binding>, n: nat, m: string)
    requires n <= |writes|
    ensures if NoWriteSince(writes, n, m) then LastWritten(rows, writes, m) == LastWritten(rows, writes[..n], m)
            else exists k | n <= k < |writes| :: LastWritten(rows, writes, m) == Some(writes[k]) && writes[k].mac == m
    decreases |writes|
  {
    if n == |writes| {
      assert writes[..n] == writes;
    } else if writes[|writes| - 1].mac != m {
      var front := writes[..|writes| - 1];
      LastWrittenSince(rows, front, n, m);
      assert front[..n] == writes[..n];
      if !NoWriteSince(front, n, m) {
        var k :| n <= k < |front| && LastWritten(rows, front, m) == Some(front[k]) && front[k].mac == m;
        assert writes[k] == front[k];
      } else {
        assert forall k | n <= k < |front| :: writes[k] == front[k];
      }
    }
  }

  lemma {:induction false} LastWrittenIsOne(rows: map<string, Binding>, writes: seq<Binding>, m: string)
    requires Filed(rows)
    ensures var r := LastWritten(rows, writes, m);
            r.Some? ==> (m in rows && r.value == rows[m]) ||
                        exists k | 0 <= k < |writes| :: writes[k] == r.value && writes[k].mac == m
  {
    if writes != [] && writes[|writes| - 1].mac != m {
      LastWrittenIsOne(rows, writes[..|writes| - 1], m);
    }
  }

  /** A handler holds the current row exactly when its access succeeded and no write came after it. */
  lemma HoldsRow(rows: map<string, Binding>, s: Shop, h: Handler)
    requires ShopInv(rows, s) && Filed(rows) && h in s.queued && h.b.mac in s.store && AllDifferent(rows, s, h.b.mac)
    ensures h.b == s.store[h.b.mac] <==> h.saved && NoWriteSince(s.writes, h.seen, h.b.mac)
  {
    var m := h.b.mac;
    assert h in s.held + s.queued && SawRow(rows, s.writes, h);
    LastWrittenSince(rows, s.writes, h.seen, m);
    if !h.saved {
      LastWrittenIsOne(rows, s.writes, m);
    } else if !NoWriteSince(s.writes, h.seen, m) {
      var early := s.writes[..h.seen];
      LastWrittenIsOne(rows, early, m);
      var k :| h.seen <= k < |s.writes| && s.store[m] == s.writes[k] && s.writes[k].mac == m;
      if j :| 0 <= j < |early| && early[j] == h.b && early[j].mac == m {
        assert s.writes[j] == h.b;
      }
    }
  }

  /**
   Agreement, exactly.  Take any run from any store, handlers overlapping and failing as they may, in which
   the bindings of a MAC are pairwise different.  Whenever the system is quiet, the last binding delivered
   to a tag that is still bound equals its row if and only if the last handler to enqueue for it did access
   the store, and did so with or after the last write for that MAC.
   */
  lemma AgreesIff(rows: map<string, Binding>, es: seq<ShopEvent>, m: string)
    requires Filed(rows) && IsShopRun(Opening(rows), es)
    requires var s := ShopAfter(Opening(rows), es);
             Quiet(s.sys) && m in s.store && LastHandler(m, s.queued).Some? && AllDifferent(rows, s, m)
    ensures var s := ShopAfter(Opening(rows), es);
            var last := LastHandler(m, s.queued).value;
            LastDelivered(s, m) == Some(s.store[m]) <==> last.saved && NoWriteSince(s.writes, last.seen, m)
  {
    OpeningKeeps(rows);
    ShopKeeps(rows, Opening(rows), es);
    var s := ShopAfter(Opening(rows), es);
    LastIsOne(m, s.queued);
    DeliveredIsLastQueued(rows, s, m);
    HoldsRow(rows, s, LastHandler(m, s.queued).value);
  }

  // ----- handlers that enqueue in the order of their store accesses -----

  predicate Held(s: Shop, mac: string) {
    exists i | 0 <= i < |s.held| :: s.held[i].b.mac == mac
  }

  /** The handler that enqueues is the oldest one held for its MAC, and its write did not fail. */
  predicate InTurn(s: Shop, e: ShopEvent)
    requires CanHappen(s, e)
  {
    && !e.FailedWrite?
    && (e.Finish? ==> forall j | 0 <= j < e.i :: s.held[j].b.mac != s.held[e.i].b.mac)
  }

  /** Writes succeed, and handlers for one MAC, overlapping or not, enqueue in the order of their store accesses. */
  predicate InOrder(s: Shop, es: seq<ShopEvent>)
    requires IsShopRun(s, es)
    decreases |es|
  {
    es == [] || (InTurn(s, es[0]) && InOrder(Happen(s, es[0]), es[1..]))
  }

  /** The last handler to access the store for a MAC, whether or not it has enqueued. */
  function Newest(s: Shop, m: string): Option<Handler> {
    if LastHandler(m, s.held).Some? then LastHandler(m, s.held) else LastHandler(m, s.queued)
  }

  ghost predicate NewestIsRow(s: Shop) {
    forall m | m in s.store && Newest(s, m).Some? :: Newest(s, m).value.b == s.store[m]
  }

  lemma FinishInTurn(s: Shop, i: nat, m: string)
    requires i < |s.held| && InTurn(s, Finish(i))
    ensures Newest(Happen(s, Finish(i)), m) == Newest(s, m)
  {
    var a, h, b := s.held[..i], s.held[i], s.held[i + 1..];
    assert s.held == a + ([h] + b);
    LastIsOne(m, a);
    TakenOut(m, a, h, b, s.queued);
  }

  /** Moving a handler with none of its MAC before it from the held to the queued ones leaves the newest one. */
  lemma TakenOut(m: string, a: seq<Handler>, h: Handler, b: seq<Handler>, queued: seq<Handler>)
    requires h.b.mac == m ==> LastHandler(m, a).None?
    ensures (if LastHandler(m, a + b).Some? then LastHandler(m, a + b) else LastHandler(m, queued + [h]))
         == (if LastHandler(m, a + ([h] + b)).Some? then LastHandler(m, a + ([h] + b)) else LastHandler(m, queued))
  {
    LastOfConcat(m, a, [h] + b);
    LastOfConcat(m, [h], b);
    LastOfConcat(m, a, b);
    LastOfConcat(m, queued, [h]);
    assert [h][..0] == [];
  }

  lemma AccessIsNewest(s: Shop, h: Handler, m: string)
    ensures LastHandler(m, s.held + [h]) == if h.b.mac == m then Some(h) else LastHandler(m, s.held)
  {
    assert (s.held + [h])[..|s.held|] == s.held;
  }

  lemma NewestStep(s: Shop, e: ShopEvent)
    requires Filed(s.store) && NewestIsRow(s) && CanHappen(s, e) && InTurn(s, e)
    ensures NewestIsRow(Happen(s, e))
  {
    var s' := Happen(s, e);
    forall m | m in s'.store && Newest(s', m).Some?
      ensures Newest(s', m).value.b == s'.store[m]
    {
      match e {
        case Write(b) => AccessIsNewest(s, Handler(b, |s.writes| + 1, true), m);
        case Reread(mac) => AccessIsNewest(s, Handler(s.store[mac], |s.writes|, true), m);
        case Finish(i) => FinishInTurn(s, i, m);
        case _ =>
      }
    }
  }

  lemma {:induction false} NewestKeeps(rows: map<string, Binding>, s: Shop, es: seq<ShopEvent>)
    requires ShopInv(rows, s) && NewestIsRow(s) && IsShopRun(s, es) && InOrder(s, es)
    ensures NewestIsRow(ShopAfter(s, es))
    decreases |es|
  {
    if es != [] {
      NewestStep(s, es[0]);
      ShopKeeps(rows, s, es[..1]);
      assert es[..1] == [es[0]] && [es[0]][1..] == [];
      assert ShopAfter(s, es[..1]) == Happen(s, es[0]);
      NewestKeeps(rows, Happen(s, es[0]), es[1..]);
    }
  }

  lemma RowsAgree(rows: map<string, Binding>, s: Shop, m: string)
    requires ShopInv(rows, s) && NewestIsRow(s) && m in s.store && !Held(s, m)
    ensures m in s.sys.q.pending ==> s.sys.q.pending[m] == s.store[m]
    ensures Quiet(s.sys) && Of(m, s.sys.enq) != [] ==> LastDelivered(s, m) == Some(s.store[m])
  {
    LastIsOne(m, s.held);
    LastOf(m, s.queued);
    assert LatestWins(s.sys, m);
    LatestMeans(s.sys, m);
    if Quiet(s.sys) {
      DeliveredIsLastQueued(rows, s, m);
    }
  }

  /**
   Agreement: take any run from any store in which writes succeed and handlers for one MAC, overlapping or
   not, enqueue in the order of their store accesses.  In every state a pending binding equals its row once
   its handlers are done; and whenever the system is quiet, the last binding delivered to each tag that was
   ever enqueued, has no handler in progress and is still bound equals its row, in item, name, price and
   bridge.
   */
  lemma TagsFollowStore(rows: map<string, Binding>, es: seq<ShopEvent>, m: string)
    requires Filed(rows) && IsShopRun(Opening(rows), es) && InOrder(Opening(rows), es)
    requires var s := ShopAfter(Opening(rows), es); m in s.store && !Held(s, m)
    ensures var s := ShopAfter(Opening(rows), es);
            && (m in s.sys.q.pending ==> s.sys.q.pending[m] == s.store[m])
            && (Quiet(s.sys) && Of(m, s.sys.enq) != [] ==> LastDelivered(s, m) == Some(s.store[m]))
  {
    OpeningKeeps(rows);
    ShopKeeps(rows, Opening(rows), es);
    NewestKeeps(rows, Opening(rows), es);
    RowsAgree(rows, ShopAfter(Opening(rows), es), m);
  }

  // ----- out of order, agreement can be lost -----

  function Overtaking(b1: Binding, b2: Binding): seq<ShopEvent> {
    [Write(b1), Write(b2), Finish(1), Finish(0)] + [Radio(Take), Radio(Mark), Radio(Return(Ok)), Radio(Report)]
  }

  /** Both handlers have enqueued, the one that wrote first last. */
  function Queued2(b1: Binding, b2: Binding): Shop {
    Shop(map[b1.mac := b2], [b1, b2], [], [Handler(b2, 2, true), Handler(b1, 1, true)],
         Sys(Queue(map[b1.mac := b1], [b1.mac], map[b1.mac := Queued]), false, 2, Ready, [b2, b1], [], []))
  }

  function Outcome(b1: Binding, b2: Binding): Shop {
    Queued2(b1, b2).(sys := Sys(Queue(map[], [], map[b1.mac := Ok]), false, 2, Settling, [b2, b1], [b1],
                                [Delivery(b1, Ok)]))
  }

  lemma TwoWrites(b1: Binding, b2: Binding)
    requires b1.mac == b2.mac
    ensures var es := [Write(b1), Write(b2)];
            IsShopRun(Opening(map[]), es) && ShopAfter(Opening(map[]), es) == Written2(b1, b2)
  {
    var first := Happen(Opening(map[]), Write(b1));
    var second := Happen(first, Write(b2));
    assert first.writes == [b1] && first.held == [Handler(b1, 1, true)];
    assert second.writes == [b1, b2] && second.held == [Handler(b1, 1, true), Handler(b2, 2, true)];
    assert second.store == map[b1.mac := b2];
    Chain([Opening(map[]), first, second], [Write(b1), Write(b2)]);
  }

  function Written2(b1: Binding, b2: Binding): Shop {
    Shop(map[b1.mac := b2], [b1, b2], [Handler(b1, 1, true), Handler(b2, 2, true)], [], INIT)
  }

  /** The handler that wrote last has enqueued first. */
  function Queued1(b1: Binding, b2: Binding): Shop {
    Shop(map[b1.mac := b2], [b1, b2], [Handler(b1, 1, true)], [Handler(b2, 2, true)],
         Sys(Queue(map[b1.mac := b2], [b1.mac], map[b1.mac := Queued]), false, 1, Ready, [b2], [], []))
  }

  lemma FinishLater(b1: Binding, b2: Binding)
    requires b1.mac == b2.mac
    ensures Happen(Written2(b1, b2), Finish(1)) == Queued1(b1, b2)
  {
    assert Happen(Written2(b1, b2), Finish(1)).held == Queued1(b1, b2).held;
  }

  lemma FinishEarlier(b1: Binding, b2: Binding)
    requires b1.mac == b2.mac
    ensures Happen(Queued1(b1, b2), Finish(0)) == Queued2(b1, b2)
  {
    assert Happen(Queued1(b1, b2), Finish(0)).held == Queued2(b1, b2).held;
    assert Enqueued(Queued1(b1, b2).sys.q, b1) == Queued2(b1, b2).sys.q;
  }

  lemma TwoFinishes(b1: Binding, b2: Binding)
    requires b1.mac == b2.mac
    ensures var es := [Finish(1), Finish(0)];
            IsShopRun(Written2(b1, b2), es) && ShopAfter(Written2(b1, b2), es) == Queued2(b1, b2)
  {
    FinishLater(b1, b2);
    FinishEarlier(b1, b2);
    var es := [Finish(1), Finish(0)];
    assert es[1..] == [Finish(0)] && [Finish(0)][1..] == [];
    assert IsShopRun(Queued1(b1, b2), es[1..]);
  }

  lemma OvertakingWrites(b1: Binding, b2: Binding)
    requires b1.mac == b2.mac
    ensures var es := Overtaking(b1, b2)[..4];
            IsShopRun(Opening(map[]), es) && ShopAfter(Opening(map[]), es) == Queued2(b1, b2)
  {
    var writes, finishes := [Write(b1), Write(b2)], [Finish(1), Finish(0)];
    TwoWrites(b1, b2);
    assert IsShopRun(Opening(map[]), writes);
    TwoFinishes(b1, b2);
    Then(Opening(map[]), writes, finishes);
    assert Overtaking(b1, b2)[..4] == writes + finishes;
  }

  lemma OvertakingDelivers(b1: Binding, b2: Binding)
    ensures var es := Overtaking(b1, b2)[4..];
            IsShopRun(Queued2(b1, b2), es) && ShopAfter(Queued2(b1, b2), es) == Outcome(b1, b2)
  {
    var m, s := b1.mac, Queued2(b1, b2);
    var q := Queue(map[], [], map[m := Queued]);
    assert s.sys.q.pending - {m} == map[] && s.sys.q.order[1..] == [];
    assert Dequeued(s.sys.q) == (q, Some(b1));
    var taken := s.(sys := s.sys.(q := q, worker := Marking(b1), deq := [b1]));
    var marked := taken.(sys := taken.sys.(q := Queue(map[], [], map[m := Pushing]), worker := Delivering(b1)));
    Chain([s, taken, marked, marked.(sys := marked.sys.(worker := Reporting(b1, Ok))), Outcome(b1, b2)],
          Overtaking(b1, b2)[4..]);
  }

  /**
   Two handlers for one MAC with different bindings, the second overtaking the first, leave the tag with
   the binding that the store no longer holds, in a quiet system and with status "ok".
   */
  lemma OvertakingLosesAgreement(b1: Binding, b2: Binding)
    requires b1.mac == b2.mac && b1 != b2
    ensures var es := Overtaking(b1, b2);
            && IsShopRun(Opening(map[]), es)
            && var s := ShopAfter(Opening(map[]), es);
               && Quiet(s.sys) && s.held == []
               && s.sys.q.status == map[b1.mac := Ok]
               && s.sys.done == [Delivery(b1, Ok)]
               && s.store == map[b1.mac := b2]
  {
    OvertakingWrites(b1, b2);
    OvertakingDelivers(b1, b2);
    Then(Opening(map[]), Overtaking(b1, b2)[..4], Overtaking(b1, b2)[4..]);
    assert Overtaking(b1, b2)[..4] + Overtaking(b1, b2)[4..] == Overtaking(b1, b2);
  }

  /** Runs compose. */
  lemma {:induction false} Then(s: Shop, es: seq<ShopEvent>, more: seq<ShopEvent>)
    requires IsShopRun(s, es) && IsShopRun(ShopAfter(s, es), more)
    ensures IsShopRun(s, es + more) && ShopAfter(s, es + more) == ShopAfter(ShopAfter(s, es), more)
    ensures InOrder(s, es) && InOrder(ShopAfter(s, es), more) ==> InOrder(s, es + more)
    decreases |es|
  {
    if es == [] {
      assert es + more == more;
    } else {
      assert (es + more)[1..] == es[1..] + more;
      Then(Happen(s, es[0]), es[1..], more);
    }
  }

  /** A run given state by state. */
  lemma {:induction false} Chain(states: seq<Shop>, es: seq<ShopEvent>)
    requires |states| == |es| + 1
    requires forall k | 0 <= k < |es| :: CanHappen(states[k], es[k]) && Happen(states[k], es[k]) == states[k + 1]
    ensures IsShopRun(states[0], es) && ShopAfter(states[0], es) == states[|es|]
    ensures (forall k | 0 <= k < |es| :: InTurn(states[k], es[k])) ==> InOrder(states[0], es)
    decreases |es|
  {
    if es != [] {
      assert CanHappen(states[0], es[0]);
      Chain(states[1..], es[1..]);
    }
  }
}
