/** From a change of the catalog to the tags: the poller's operations within the runs of the whole service. */
module Freshness {
  import opened Options
  import opened PushQueues
  import opened Catalog
  import opened Server
  import opened Polling
  import QueueRuns
  import opened ShopRuns

  // ----- the worker does not interfere with the store -----

  /** A run without the steps of the queue's worker and the wake-up sends. */
  function Deskwork(es: seq<ShopEvent>): seq<ShopEvent> {
    if es == [] then [] else (if es[0].Radio? then [] else [es[0]]) + Deskwork(es[1..])
  }

  /** The two differ at most in the queue and its worker. */
  predicate SameDesk(s: Shop, s': Shop) {
    s.store == s'.store && s.writes == s'.writes && s.held == s'.held && s.queued == s'.queued
  }

  lemma {:induction false} WorkerAside(s: Shop, s': Shop, es: seq<ShopEvent>)
    requires SameDesk(s, s') && IsShopRun(s, es)
    ensures IsShopRun(s', Deskwork(es)) && SameDesk(ShopAfter(s, es), ShopAfter(s', Deskwork(es)))
    ensures InOrder(s, es) <==> InOrder(s', Deskwork(es))
    decreases |es|
  {
    if es != [] {
      var e, rest := es[0], Deskwork(es[1..]);
      SameStep(s, s', e);
      if e.Radio? {
        assert Deskwork(es) == rest;
        WorkerAside(Happen(s, e), s', es[1..]);
      } else {
        assert Deskwork(es) == [e] + rest && ([e] + rest)[1..] == rest;
        WorkerAside(Happen(s, e), Happen(s', e), es[1..]);
      }
    }
  }

  lemma SameStep(s: Shop, s': Shop, e: ShopEvent)
    requires SameDesk(s, s') && CanHappen(s, e)
    ensures e.Radio? ==> SameDesk(Happen(s, e), s') && InTurn(s, e)
    ensures !e.Radio? ==> CanHappen(s', e) && SameDesk(Happen(s, e), Happen(s', e)) && (InTurn(s, e) <==> InTurn(s', e))
  {
  }

  /** Two runs with the same deskwork, however their workers interleave, end with the same store and enqueues. */
  lemma SameDeskwork(rows: map<string, Binding>, es: seq<ShopEvent>, es': seq<ShopEvent>)
    requires IsShopRun(Opening(rows), es) && IsShopRun(Opening(rows), es') && Deskwork(es) == Deskwork(es')
    ensures SameDesk(ShopAfter(Opening(rows), es), ShopAfter(Opening(rows), es'))
    ensures InOrder(Opening(rows), es) <==> InOrder(Opening(rows), es')
  {
    WorkerAside(Opening(rows), Opening(rows), es);
    WorkerAside(Opening(rows), Opening(rows), es');
  }

  // ----- the poller's run -----

  /** The service starting on these rows. */
  function Fresh(rows: map<string, Binding>): Desk {
    Desk(rows, QueueRuns.INIT.q)
  }

  /** A run in which the poller's operations happen, interleaved with the worker in any way. */
  ghost predicate IsPolledRun(rows: map<string, Binding>, ops: seq<Op>, es: seq<ShopEvent>) {
    IsShopRun(Opening(rows), es) && Deskwork(es) == Deskwork(AllEvents(ops))
  }

  lemma PolledRunEnds(rows: map<string, Binding>, d': Desk, ops: seq<Op>, es: seq<ShopEvent>)
    requires Filed(rows) && Performed(Fresh(rows), d', ops, Always) && IsPolledRun(rows, ops, es)
    ensures InOrder(Opening(rows), es)
    ensures var s := ShopAfter(Opening(rows), es);
            && ShopInv(rows, s) && s.held == [] && s.store == d'.store
            && forall m | m in d'.q.pending :: QueueRuns.Of(m, s.sys.enq) != []
  {
    HandlersAreRuns(Opening(rows), ops);
    SameDeskwork(rows, es, AllEvents(ops));
    OpeningKeeps(rows);
    ShopKeeps(rows, Opening(rows), es);
    ShopKeeps(rows, Opening(rows), AllEvents(ops));
    var s1 := ShopAfter(Opening(rows), AllEvents(ops));
    forall m | m in d'.q.pending
      ensures QueueRuns.Of(m, s1.sys.enq) != []
    {
      assert QueueRuns.LatestWins(s1.sys, m);
      QueueRuns.LatestMeans(s1.sys, m);
    }
  }

  /** A tag that was never enqueued was never delivered anything. */
  lemma NothingDelivered(rows: map<string, Binding>, s: Shop, m: string)
    requires ShopInv(rows, s) && QueueRuns.Of(m, s.sys.enq) == [] && QueueRuns.Quiet(s.sys)
    ensures LastDelivered(s, m) == None
  {
    assert QueueRuns.LatestWins(s.sys, m);
    QueueRuns.LatestMeans(s.sys, m);
    assert s.sys.deq == QueueRuns.Bindings(s.sys.done);
  }

  /** A bound row of a modification that some round reached shows it in the end, and was enqueued. */
  lemma ReachedIsSettled(rows: map<string, Binding>, d': Desk, ops: seq<Op>, es: seq<ShopEvent>, mods: seq<Mod>,
                         st: Station, rounds: seq<Round>, k: nat, i: nat, m: string)
    requires Filed(rows) && Polled(mods, st, rounds, Fresh(rows), d', ops) && IsPolledRun(rows, ops, es)
    requires InSequence(st, rounds) && Polling.Newest(mods, i) && Polling.Bound(mods, st, i, m)
    requires k < |rounds| && Reaches(mods, st, rounds, k, i)
    ensures InOrder(Opening(rows), es)
    ensures var s := ShopAfter(Opening(rows), es);
            && s.held == [] && QueueRuns.Of(m, s.sys.enq) != []
            && m in s.store && Carries(s.store[m], mods[i].item)
  {
    PolledRunEnds(rows, d', ops, es);
    assert rounds[..|rounds|] == rounds;
    ReachedStays(mods, st, rounds, k, |rounds|, i, m);
    assert WasReported(mods, st, rounds, mods[i].item.id);
    assert m in d'.q.pending;
  }

  /** The last delivery to the tag carried the item's name and price. */
  ghost predicate WasSent(s: Shop, m: string, it: Item) {
    LastDelivered(s, m).Some? && Carries(LastDelivered(s, m).value, it)
  }

  /**
   Which changes arrive at the tags, exactly: take the operations of the poller's loop over any rounds, with
   fetches and reloads failing as they may, in any interleaving with the queue's worker.  Whenever the
   system is quiet, the last binding delivered to a tag whose row did not show a newest modification at the
   start carries it if and only if some round reported the item while the cached listing was not older.
   */
  lemma {:induction false} ChangeDeliveredIff(rows: map<string, Binding>, d': Desk, ops: seq<Op>, es: seq<ShopEvent>,
                                              mods: seq<Mod>, st: Station, rounds: seq<Round>, i: nat, m: string)
    requires Filed(rows) && Polled(mods, st, rounds, Fresh(rows), d', ops) && IsPolledRun(rows, ops, es)
    requires QueueRuns.Quiet(ShopAfter(Opening(rows), es).sys)
    requires InSequence(st, rounds) && Polling.Newest(mods, i) && Polling.Bound(mods, st, i, m)
    requires !Carries(st.rows[m], mods[i].item)
    ensures WasSent(ShopAfter(Opening(rows), es), m, mods[i].item)
       <==> exists k | 0 <= k < |rounds| :: Reaches(mods, st, rounds, k, i)
  {
    var s := ShopAfter(Opening(rows), es);
    PolledRunEnds(rows, d', ops, es);
    ChangeArrivesIff(mods, st, rounds, i, m);
    if k :| 0 <= k < |rounds| && Reaches(mods, st, rounds, k, i) {
      ReachedIsSettled(rows, d', ops, es, mods, st, rounds, k, i, m);
    }
    if QueueRuns.Of(m, s.sys.enq) == [] {
      NothingDelivered(rows, s, m);
    } else {
      TagsFollowStore(rows, es, m);
    }
  }
}
