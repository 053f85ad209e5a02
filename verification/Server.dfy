/** The service's handlers over the binding store, the catalog cache and the push queue. */
module Server {
  import opened Options
  import opened PushQueues
  import opened Catalog
  import opened QueueRuns
  import opened ShopRuns

  datatype UpsertReq = UpsertReq(mac: string, itemID: string, itemName: string, priceCents: int, bridgeID: string)

  /** The cached catalog: None when no catalog is configured. */
  type Listing = Option<seq<Item>>

  function Lookup(listing: Listing, id: string): Option<Item> {
    if listing.Some? then Indexed(listing.value, id) else None
  }

  /** The binding `saveBinding` stores: catalog name and price override the form's. */
  function Resolved(req: UpsertReq, listing: Listing): Binding {
    var it := Lookup(listing, req.itemID);
    Binding(req.mac, req.itemID,
            if it.Some? then it.value.name else req.itemName,
            if it.Some? then it.value.price else req.priceCents,
            req.bridgeID)
  }

  /** A row brought up to date with the catalog; an item without a cached name leaves it as it is. */
  function Refreshed(b: Binding, listing: Listing): Binding {
    var it := Lookup(listing, b.itemID);
    if it.Some? && it.value.name != "" then b.(itemName := it.value.name, priceCents := it.value.price) else b
  }

  /** The item at k is the last one listed under its id. */
  predicate LastListed(listing: Listing, k: nat, id: string) {
    && listing.Some? && k < |listing.value| && listing.value[k].id == id
    && forall j | k < j < |listing.value| :: listing.value[j].id != id
  }

  predicate NotListed(listing: Listing, id: string) {
    listing.Some? ==> forall j | 0 <= j < |listing.value| :: listing.value[j].id != id
  }

  /** The binding of a request: its tag, item and bridge, with the catalog's name and price, or the form's. */
  ghost predicate Resolves(req: UpsertReq, listing: Listing, b: Binding) {
    && b.mac == req.mac && b.itemID == req.itemID && b.bridgeID == req.bridgeID
    && (forall k: nat | LastListed(listing, k, req.itemID) ::
          b.itemName == listing.value[k].name && b.priceCents == listing.value[k].price)
    && (NotListed(listing, req.itemID) ==> b.itemName == req.itemName && b.priceCents == req.priceCents)
  }

  /** What a change of the catalog makes of a row: the same but for the name and price of an item that has a name. */
  ghost predicate Refreshes(row: Binding, listing: Listing, b: Binding) {
    && b.mac == row.mac && b.itemID == row.itemID && b.bridgeID == row.bridgeID
    && (forall k: nat | LastListed(listing, k, row.itemID) ::
          if listing.value[k].name != ""
          then b.itemName == listing.value[k].name && b.priceCents == listing.value[k].price else b == row)
    && (NotListed(listing, row.itemID) ==> b == row)
  }

  lemma LookupMeans(listing: Listing, id: string)
    ensures forall k: nat | LastListed(listing, k, id) :: Lookup(listing, id) == Some(listing.value[k])
    ensures NotListed(listing, id) ==> Lookup(listing, id) == None
  {
    if listing.Some? {
      var k := IndexedIsListed(listing.value, id);
    }
  }

  /** Every binding resolved or refreshed is what the request, the row and the catalog say. */
  lemma BindingsMean(req: UpsertReq, row: Binding, listing: Listing)
    ensures Resolves(req, listing, Resolved(req, listing)) && Refreshes(row, listing, Refreshed(row, listing))
  {
    LookupMeans(listing, req.itemID);
    LookupMeans(listing, row.itemID);
  }

  // ----- what the handlers do, as operations -----

  /** A row written and queued, a binding queued although its write failed, a row queued as it is, a row deleted. */
  datatype Op = Put(b: Binding) | Push(b: Binding) | Touch(mac: string) | Drop(mac: string)

  datatype Desk = Desk(store: map<string, Binding>, q: Queue)

  predicate CanApply(d: Desk, op: Op) {
    op.Touch? ==> op.mac in d.store
  }

  function Apply(d: Desk, op: Op): Desk
    requires CanApply(d, op)
  {
    match op
    case Put(b) => Desk(d.store[b.mac := b], Enqueued(d.q, b))
    case Push(b) => d.(q := Enqueued(d.q, b))
    case Touch(mac) => d.(q := Enqueued(d.q, d.store[mac]))
    case Drop(mac) => d.(store := d.store - {mac})
  }

  /** What each operation does to the store and the pending bindings; a binding queued is "queued", and waits once. */
  lemma OpMeans(d: Desk, op: Op)
    requires CanApply(d, op)
    ensures var d' := Apply(d, op);
            && d'.store == (match op
                            case Put(b) => d.store[b.mac := b]
                            case Drop(mac) => map m | m in d.store && m != mac :: d.store[m]
                            case _ => d.store)
            && (op.Drop? ==> d'.q == d.q)
            && (!op.Drop? ==>
                  var b := if op.Touch? then d.store[op.mac] else op.b;
                  && d'.q.pending == d.q.pending[b.mac := b] && d'.q.status == d.q.status[b.mac := Queued]
                  && d'.q.order == if b.mac in d.q.pending then d.q.order else d.q.order + [b.mac])
  {
  }

  predicate CanApplyAll(d: Desk, ops: seq<Op>)
    decreases |ops|
  {
    ops == [] || (CanApply(d, ops[0]) && CanApplyAll(Apply(d, ops[0]), ops[1..]))
  }

  function ApplyAll(d: Desk, ops: seq<Op>): Desk
    requires CanApplyAll(d, ops)
    decreases |ops|
  {
    if ops == [] then d else ApplyAll(Apply(d, ops[0]), ops[1..])
  }

  lemma {:induction false} ApplyMore(d: Desk, ops: seq<Op>, more: seq<Op>)
    requires CanApplyAll(d, ops) && CanApplyAll(ApplyAll(d, ops), more)
    ensures CanApplyAll(d, ops + more) && ApplyAll(d, ops + more) == ApplyAll(ApplyAll(d, ops), more)
    decreases |ops|
  {
    if ops == [] {
      assert ops + more == more;
    } else {
      assert (ops + more)[1..] == ops[1..] + more;
      ApplyMore(Apply(d, ops[0]), ops[1..], more);
    }
  }

  /** The steps of the whole system that an operation stands for, when no handler is in progress. */
  function Events(op: Op): seq<ShopEvent> {
    match op
    case Put(b) => [Write(b), Finish(0), Radio(Send)]
    case Push(b) => [FailedWrite(b), Finish(0), Radio(Send)]
    case Touch(mac) => [Reread(mac), Finish(0), Radio(Send)]
    case Drop(mac) => [Delete(mac)]
  }

  lemma HeldIsQueued(s: Shop)
    requires |s.held| == 1
    ensures var s' := Happen(s, Finish(0));
            && CanHappen(s', Radio(Send)) && InTurn(s, Finish(0)) && s'.held == [] && s'.store == s.store
            && Happen(s', Radio(Send)) == s'.(sys := Happen(s', Radio(Send)).sys)
            && Happen(s', Radio(Send)).sys.q == Enqueued(s.sys.q, s.held[0].b)
  {
  }

  lemma OpIsRun(s: Shop, op: Op)
    requires s.held == [] && CanApply(Desk(s.store, s.sys.q), op)
    ensures IsShopRun(s, Events(op)) && (!op.Push? ==> InOrder(s, Events(op)))
    ensures var s' := ShopAfter(s, Events(op));
            s'.held == [] && Desk(s'.store, s'.sys.q) == Apply(Desk(s.store, s.sys.q), op)
  {
    var es := Events(op);
    var s1 := Happen(s, es[0]);
    if op.Drop? {
      Chain([s, s1], es);
    } else {
      assert es == [es[0], Finish(0), Radio(Send)];
      HeldIsQueued(s1);
      var s2 := Happen(s1, es[1]);
      Chain([s, s1, s2, Happen(s2, es[2])], es);
    }
  }

  function AllEvents(ops: seq<Op>): seq<ShopEvent> {
    if ops == [] then [] else Events(ops[0]) + AllEvents(ops[1..])
  }

  predicate AllSaved(ops: seq<Op>) {
    forall op | op in ops :: !op.Push?
  }

  /**
   A handler that runs alone is a run of the system, in order unless a write failed, so what holds of the
   system's runs covers every handler below.
   */
  lemma {:induction false} HandlersAreRuns(s: Shop, ops: seq<Op>)
    requires s.held == [] && CanApplyAll(Desk(s.store, s.sys.q), ops)
    ensures IsShopRun(s, AllEvents(ops)) && (AllSaved(ops) ==> InOrder(s, AllEvents(ops)))
    ensures var s' := ShopAfter(s, AllEvents(ops));
            s'.held == [] && Desk(s'.store, s'.sys.q) == ApplyAll(Desk(s.store, s.sys.q), ops)
    decreases |ops|
  {
    if ops != [] {
      OpIsRun(s, ops[0]);
      assert ops[0] in ops && forall op | op in ops[1..] :: op in ops;
      var s1 := ShopAfter(s, Events(ops[0]));
      HandlersAreRuns(s1, ops[1..]);
      Then(s, Events(ops[0]), AllEvents(ops[1..]));
    }
  }

  // ----- the handlers -----

  datatype Reply = Saved | BadRequest | NotFound | ServerError

  /** A request of a batch that was not queued, and why. */
  datatype Skip = Skip(mac: string, why: Reply)

  class Server {
    var store: map<string, Binding>
    const queue: PushQueue
    const cache: Cache?

    /** Opens on a database that may already hold rows. */
    constructor (rows: map<string, Binding>, queue: PushQueue, cache: Cache?)
      requires Filed(rows) && (cache != null ==> cache.Valid())
      ensures Valid() && this.queue == queue && this.cache == cache && store == rows
    {
      this.queue, this.cache, store := queue, cache, rows;
    }

    ghost predicate Valid()
      reads this, queue, cache
    {
      Filed(store) && (cache != null ==> cache.Valid())
    }

    ghost function Value(): Desk
      reads this, queue
    {
      Desk(store, queue.State())
    }

    ghost function Listed(): Listing
      reads cache
    {
      if cache == null then None else Some(cache.items)
    }

    method CacheGet(id: string) returns (r: Option<Item>)
      requires Valid()
      ensures r == Lookup(Listed(), id)
    {
      if cache == null {
        r := None;
      } else {
        r := cache.Get(id);
      }
    }

    /** `dbOk` says whether the store accepts the write. */
    method SaveBinding(req: UpsertReq, dbOk: bool) returns (ghost ops: seq<Op>)
      requires Valid()
      modifies this`store, queue
      ensures Valid() && ops == if dbOk then [Put(Resolved(req, Listed()))] else []
      ensures Value() == ApplyAll(old(Value()), ops)
      ensures if dbOk then Stored(old(Value()), Value(), req, Listed()) else Value() == old(Value())
      ensures Signalled(old(queue.wake), queue.wake, ops)
    {
      var b := Binding(req.mac, req.itemID, req.itemName, req.priceCents, req.bridgeID);
      var it := CacheGet(req.itemID);
      if it.Some? {
        b := b.(itemName := it.value.name, priceCents := it.value.price);
      }
      if !dbOk {
        return [];
      }
      store := store[b.mac := b];
      queue.Enqueue(b);
      ops := [Put(b)];
      BindingsMean(req, b, Listed());
    }

    method HandleUpsert(req: UpsertReq, dbOk: bool) returns (r: Reply, ghost ops: seq<Op>)
      requires Valid()
      modifies this`store, queue
      ensures Valid() && CanApplyAll(old(Value()), ops) && Value() == ApplyAll(old(Value()), ops)
      ensures r.BadRequest? <==> req.mac == "" || req.itemID == ""
      ensures r.Saved? <==> req.mac != "" && req.itemID != "" && dbOk
      ensures ops == if r.Saved? then [Put(Resolved(req, Listed()))] else []
      ensures if r.Saved? then Stored(old(Value()), Value(), req, Listed()) else Value() == old(Value())
      ensures Signalled(old(queue.wake), queue.wake, ops)
    {
      if req.mac == "" || req.itemID == "" {
        return BadRequest, [];
      }
      ops := SaveBinding(req, dbOk);
      r := if dbOk then Saved else ServerError;
    }

    /**
     `dbOk[k]` says whether the store accepts the k-th write.  Accepted requests are queued in array order,
     the others reported with their MACs, in array order too.
     */
    method HandleBatch(reqs: seq<UpsertReq>, dbOk: seq<bool>)
      returns (queued: nat, skipped: seq<Skip>, ghost ops: seq<Op>)
      requires Valid() && |dbOk| == |reqs|
      modifies this`store, queue
      ensures Valid() && Batched(old(Value()), Value(), reqs, dbOk, Listed(), queued, skipped, ops)
      ensures Signalled(old(queue.wake), queue.wake, ops)
    {
      queued, skipped, ops := 0, [], [];
      for k := 0 to |reqs|
        invariant Valid() && Batched(old(Value()), Value(), reqs[..k], dbOk[..k], Listed(), queued, skipped, ops)
        invariant Signalled(old(queue.wake), queue.wake, ops)
      {
        ghost var before := Value();
        var skip;
        ghost var more;
        skip, more := BatchOne(reqs[k], dbOk[k]);
        OneMoreRequest(old(Value()), before, Value(), reqs, dbOk, k, Listed(), queued, skipped, ops,
                       skip, more);
        ops := ops + more;
        queued, skipped := Tally(queued, skipped, skip);
      }
      assert reqs[..|reqs|] == reqs && dbOk[..|reqs|] == dbOk;
    }

    method Tally(queued0: nat, skipped0: seq<Skip>, skip: Option<Skip>)
      returns (queued: nat, skipped: seq<Skip>)
      ensures queued == if skip.Some? then queued0 else queued0 + 1
      ensures skipped == if skip.Some? then skipped0 + [skip.value] else skipped0
    {
      queued, skipped := queued0, skipped0;
      if skip.Some? {
        skipped := skipped + [skip.value];
      } else {
        queued := queued + 1;
      }
    }

    method BatchOne(req: UpsertReq, dbOk: bool) returns (skip: Option<Skip>, ghost ops: seq<Op>)
      requires Valid()
      modifies this`store, queue
      ensures Valid() && RequestDone(old(Value()), Value(), req, dbOk, Listed(), skip, ops)
      ensures Signalled(old(queue.wake), queue.wake, ops)
    {
      if req.mac == "" || req.itemID == "" {
        return Some(Skip(req.mac, BadRequest)), [];
      }
      ops := SaveBinding(req, dbOk);
      skip := if dbOk then None else Some(Skip(req.mac, ServerError));
    }

    method HandleDelete(mac: string, dbOk: bool) returns (r: Reply, ghost ops: seq<Op>)
      requires Valid()
      modifies this`store
      ensures if dbOk then r == Saved && ops == [Drop(mac)] else r == ServerError && ops == []
      ensures store == if dbOk then map m | m in old(store) && m != mac :: old(store)[m] else old(store)
      ensures Valid() && CanApplyAll(old(Value()), ops) && Value() == ApplyAll(old(Value()), ops)
    {
      if !dbOk {
        return ServerError, [];
      }
      store := store - {mac};
      r, ops := Saved, [Drop(mac)];
    }

    /** `dbOk` says whether the store can be read; a failed read is answered like a missing row. */
    method HandleRefresh(mac: string, dbOk: bool) returns (r: Reply, ghost ops: seq<Op>)
      requires Valid()
      modifies queue
      ensures Valid() && CanApplyAll(old(Value()), ops) && Value() == ApplyAll(old(Value()), ops)
      ensures if dbOk && mac in store then r == Saved && ops == [Touch(mac)] else r == NotFound && ops == []
      ensures r.Saved? ==> queue.pending == old(queue.pending)[mac := store[mac]]
      ensures r.Saved? ==> queue.status == old(queue.status)[mac := Queued]
      ensures Signalled(old(queue.wake), queue.wake, ops)
    {
      if !dbOk || mac !in store {
        return NotFound, [];
      }
      queue.Enqueue(store[mac]);
      r, ops := Saved, [Touch(mac)];
    }

    /** The rows bound to an item, in whatever order the database yields them. */
    method ByItem(id: string) returns (rows: seq<Binding>)
      requires Valid()
      ensures AreRows(Value(), rows, id)
      ensures forall m | m in store && store[m].itemID == id :: store[m] in rows
    {
      rows := [];
      var todo := store.Keys;
      while todo != {}
        invariant todo <= store.Keys
        invariant forall b | b in rows :: b.mac in store && store[b.mac] == b && b.itemID == id && b.mac !in todo
        invariant forall m | m in store && m !in todo && store[m].itemID == id :: store[m] in rows
        invariant forall i, j | 0 <= i < j < |rows| :: rows[i].mac != rows[j].mac
        decreases |todo|
      {
        var m :| m in todo;
        if store[m].itemID == id {
          rows := rows + [store[m]];
        }
        todo := todo - {m};
      }
    }

    /** One row: refreshed in the store if the item has a cached name, and queued even if that write fails. */
    method ReconcileRow(row: Binding, it: Option<Item>, writeOk: bool) returns (ghost op: Op)
      requires Valid() && row.mac in store && store[row.mac] == row
      requires it == Lookup(Listed(), row.itemID)
      modifies this`store, queue
      ensures Valid() && RowChanged(old(Value()), Value(), row, op, Listed(), writeOk) && queue.wake
    {
      if it.Some? && it.value.name != "" {
        var b := row.(itemName := it.value.name, priceCents := it.value.price);
        op := Push(b);
        if writeOk {
          store := store[b.mac := b];
          op := Put(b);
        }
        queue.Enqueue(b);
      } else {
        queue.Enqueue(row);
        op := Touch(row.mac);
      }
    }

    method ReconcileRows(rows: seq<Binding>, id: string, it: Option<Item>, writeOk: string -> bool)
      returns (ghost ops: seq<Op>)
      requires Valid() && it == Lookup(Listed(), id) && AreRows(Value(), rows, id)
      modifies this`store, queue
      ensures Valid() && Performed(old(Value()), Value(), ops, writeOk)
      ensures Signalled(old(queue.wake), queue.wake, ops)
      ensures RowsDone(old(Value()), Value(), rows, Listed(), writeOk)
    {
      ops := [];
      for k := 0 to |rows|
        invariant Valid() && Performed(old(Value()), Value(), ops, writeOk)
        invariant Signalled(old(queue.wake), queue.wake, ops)
        invariant RowsDone(old(Value()), Value(), rows[..k], Listed(), writeOk)
      {
        ghost var before := Value();
        NextRow(old(Value()), before, rows, k, id, Listed(), writeOk);
        ghost var op := ReconcileRow(rows[k], it, writeOk(rows[k].mac));
        OneMoreRow(old(Value()), before, Value(), ops, op, rows, k, Listed(), writeOk);
        ops := ops + [op];
      }
      assert rows[..|rows|] == rows;
    }

    /** One changed item whose rows can be read: every row bound to it is refreshed from the catalog and queued. */
    method ReconcileItem(id: string, writeOk: string -> bool) returns (ghost ops: seq<Op>)
      requires Valid()
      modifies this`store, queue
      ensures Valid() && Performed(old(Value()), Value(), ops, writeOk)
      ensures Signalled(old(queue.wake), queue.wake, ops)
      ensures Reconciled(old(Value()), Value(), Listed(), {id}, writeOk)
    {
      var rows := ByItem(id);
      if rows == [] {
        return [];
      }
      var it := CacheGet(id);
      ops := ReconcileRows(rows, id, it, writeOk);
      AllRows(old(Value()), Value(), rows, id, Listed(), writeOk);
    }

    /**
     After a catalog change every row bound to a changed item is queued as the catalog has it, and stored so
     where the write succeeds; no other row moves.  `readOk` says for which items the rows can be read, the
     others being passed over, and `writeOk` for which MACs a write succeeds.
     */
    method ReconcileChanged(ids: seq<string>, readOk: string -> bool, writeOk: string -> bool)
      returns (ghost ops: seq<Op>)
      requires Valid()
      modifies this`store, queue
      ensures Valid() && Performed(old(Value()), Value(), ops, writeOk)
      ensures Signalled(old(queue.wake), queue.wake, ops)
      ensures Reconciled(old(Value()), Value(), Listed(), Ids(ids, readOk), writeOk)
    {
      ops := [];
      for k := 0 to |ids|
        invariant Valid() && Performed(old(Value()), Value(), ops, writeOk)
        invariant Signalled(old(queue.wake), queue.wake, ops)
        invariant Reconciled(old(Value()), Value(), Listed(), Ids(ids[..k], readOk), writeOk)
      {
        assert ids[..k + 1] == ids[..k] + [ids[k]];
        if readOk(ids[k]) {
          ghost var before := Value();
          ghost var more := ReconcileItem(ids[k], writeOk);
          PerformedMore(old(Value()), before, Value(), ops, more, writeOk);
          ops := ops + more;
          ReconcileTwice(old(Value()), before, Value(), Listed(), Ids(ids[..k], readOk), ids[k], writeOk);
          assert Ids(ids[..k + 1], readOk) == Ids(ids[..k], readOk) + {ids[k]};
        } else {
          assert Ids(ids[..k + 1], readOk) == Ids(ids[..k], readOk);
        }
      }
      assert ids[..|ids|] == ids;
    }
  }

  /** One row, the request's as the catalog has it, is stored and pending; every other row and binding is as before. */
  ghost predicate Stored(d: Desk, d': Desk, req: UpsertReq, listing: Listing) {
    && req.mac in d'.store && Resolves(req, listing, d'.store[req.mac])
    && d'.store == d.store[req.mac := d'.store[req.mac]]
    && d'.q.pending == d.q.pending[req.mac := d'.store[req.mac]]
    && d'.q.status == d.q.status[req.mac := Queued]
  }

  /** Every binding queued leaves a wake-up token, and nothing takes one away. */
  predicate Signalled(wake: bool, wake': bool, ops: seq<Op>) {
    wake' <==> wake || ops != []
  }

  /** The operations lead from one state to the other, and none is a failed write if all writes succeed. */
  ghost predicate Performed(d: Desk, d': Desk, ops: seq<Op>, writeOk: string -> bool) {
    && CanApplyAll(d, ops) && d' == ApplyAll(d, ops)
    && ((forall m :: writeOk(m)) ==> AllSaved(ops))
  }

  lemma PerformedMore(d: Desk, d1: Desk, d2: Desk, ops: seq<Op>, more: seq<Op>, writeOk: string -> bool)
    requires Performed(d, d1, ops, writeOk) && Performed(d1, d2, more, writeOk)
    ensures Performed(d, d2, ops + more, writeOk)
  {
    ApplyMore(d, ops, more);
  }

  lemma PerformedOne(d: Desk, d1: Desk, d2: Desk, ops: seq<Op>, op: Op, writeOk: string -> bool)
    requires Performed(d, d1, ops, writeOk) && CanApply(d1, op) && d2 == Apply(d1, op)
    requires (forall m :: writeOk(m)) ==> !op.Push?
    ensures Performed(d, d2, ops + [op], writeOk)
  {
    assert [op][1..] == [];
    PerformedMore(d, d1, d2, ops, [op], writeOk);
  }

  /** Why a request of a batch is skipped, if it is. */
  function Skipping(req: UpsertReq, dbOk: bool): Option<Skip> {
    if req.mac == "" || req.itemID == "" then Some(Skip(req.mac, BadRequest))
    else if !dbOk then Some(Skip(req.mac, ServerError))
    else None
  }

  function BatchOps(reqs: seq<UpsertReq>, dbOk: seq<bool>, listing: Listing): seq<Op>
    requires |dbOk| == |reqs|
  {
    if reqs == [] then []
    else
      var n := |reqs| - 1;
      var earlier := BatchOps(reqs[..n], dbOk[..n], listing);
      if Skipping(reqs[n], dbOk[n]).Some? then earlier else earlier + [Put(Resolved(reqs[n], listing))]
  }

  function BatchSkips(reqs: seq<UpsertReq>, dbOk: seq<bool>): seq<Skip>
    requires |dbOk| == |reqs|
  {
    if reqs == [] then []
    else
      var n := |reqs| - 1;
      var earlier, skip := BatchSkips(reqs[..n], dbOk[..n]), Skipping(reqs[n], dbOk[n]);
      if skip.Some? then earlier + [skip.value] else earlier
  }

  /** How many of the first n requests are taken: those that name a tag and an item, and whose write succeeds. */
  function Taken(reqs: seq<UpsertReq>, dbOk: seq<bool>, n: nat): nat
    requires |dbOk| == |reqs| && n <= |reqs|
  {
    if n == 0 then 0 else Taken(reqs, dbOk, n - 1) + (if Takes(reqs[n - 1], dbOk[n - 1]) then 1 else 0)
  }

  predicate Takes(req: UpsertReq, dbOk: bool) {
    req.mac != "" && req.itemID != "" && dbOk
  }

  lemma {:induction false} TakenInside(reqs: seq<UpsertReq>, dbOk: seq<bool>, reqs': seq<UpsertReq>,
                                       dbOk': seq<bool>, n: nat)
    requires |dbOk| == |reqs| && |dbOk'| == |reqs'| && n <= |reqs| && reqs <= reqs' && dbOk <= dbOk'
    ensures Taken(reqs, dbOk, n) == Taken(reqs', dbOk', n) <= n
    decreases n
  {
    if n > 0 {
      TakenInside(reqs, dbOk, reqs', dbOk', n - 1);
    }
  }

  /**
   What becomes of each request of a batch: one that names a tag and an item, and whose write succeeds, is
   put, after those put before it; any other is reported in its turn, with its MAC, as a bad request if a
   field is missing and as a server error if only the write failed.
   */
  lemma {:induction false} BatchMeans(reqs: seq<UpsertReq>, dbOk: seq<bool>, listing: Listing, k: nat)
    requires |dbOk| == |reqs| && k < |reqs|
    ensures var a := Taken(reqs, dbOk, k);
            && a <= k && |BatchOps(reqs, dbOk, listing)| == Taken(reqs, dbOk, |reqs|)
            && Dealt(reqs[k], dbOk[k], listing, BatchOps(reqs, dbOk, listing), a, BatchSkips(reqs, dbOk), k - a)
    decreases |reqs|
  {
    var n := |reqs| - 1;
    var front, ok := reqs[..n], dbOk[..n];
    BatchCounts(front, ok, listing);
    BatchCounts(reqs, dbOk, listing);
    BatchStep(reqs, dbOk, listing);
    TakenInside(front, ok, reqs, dbOk, n);
    TakenInside(front, ok, reqs, dbOk, k);
    if k < n {
      BatchMeans(front, ok, listing, k);
      StillDealt(reqs[k], dbOk[k], listing, BatchOps(front, ok, listing), BatchOps(reqs, dbOk, listing),
                 Taken(reqs, dbOk, k), BatchSkips(front, ok), BatchSkips(reqs, dbOk), k - Taken(reqs, dbOk, k));
    } else {
      LastDealt(reqs[n], dbOk[n], listing, BatchOps(front, ok, listing), BatchSkips(front, ok));
    }
  }

  lemma StillDealt(req: UpsertReq, dbOk: bool, listing: Listing, ops: seq<Op>, ops': seq<Op>, a: int,
                   skips: seq<Skip>, skips': seq<Skip>, s: int)
    requires Dealt(req, dbOk, listing, ops, a, skips, s) && ops <= ops' && skips <= skips'
    ensures Dealt(req, dbOk, listing, ops', a, skips', s)
  {
  }

  lemma LastDealt(req: UpsertReq, dbOk: bool, listing: Listing, ops: seq<Op>, skips: seq<Skip>)
    ensures var skip := Skipping(req, dbOk);
            Dealt(req, dbOk, listing, ops + RequestOps(req, dbOk, listing), |ops|,
                  skips + (if skip.Some? then [skip.value] else []), |skips|)
  {
    BindingsMean(req, Resolved(req, listing), listing);
  }

  /** A request was put as the a-th operation, or reported as the s-th skip with the reason its fields give. */
  ghost predicate Dealt(req: UpsertReq, dbOk: bool, listing: Listing, ops: seq<Op>, a: int, skips: seq<Skip>, s: int) {
    if req.mac == "" || req.itemID == "" then 0 <= s < |skips| && skips[s] == Skip(req.mac, BadRequest)
    else if !dbOk then 0 <= s < |skips| && skips[s] == Skip(req.mac, ServerError)
    else 0 <= a < |ops| && ops[a].Put? && Resolves(req, listing, ops[a].b)
  }

  lemma {:induction false} BatchCounts(reqs: seq<UpsertReq>, dbOk: seq<bool>, listing: Listing)
    requires |dbOk| == |reqs|
    ensures var n := Taken(reqs, dbOk, |reqs|);
            n <= |reqs| && |BatchOps(reqs, dbOk, listing)| == n && |BatchSkips(reqs, dbOk)| == |reqs| - n
    decreases |reqs|
  {
    if reqs != [] {
      var n := |reqs| - 1;
      BatchCounts(reqs[..n], dbOk[..n], listing);
      BatchStep(reqs, dbOk, listing);
      TakenInside(reqs[..n], dbOk[..n], reqs, dbOk, n);
    }
  }

  /** Exactly the requests not skipped were written and queued, in array order, and the skipped ones are listed. */
  ghost predicate Batched(d: Desk, d': Desk, reqs: seq<UpsertReq>, dbOk: seq<bool>, listing: Listing,
                          queued: nat, skipped: seq<Skip>, ops: seq<Op>)
    requires |dbOk| == |reqs|
  {
    && ops == BatchOps(reqs, dbOk, listing) && skipped == BatchSkips(reqs, dbOk)
    && queued == |ops| && queued + |skipped| == |reqs|
    && CanApplyAll(d, ops) && d' == ApplyAll(d, ops)
  }

  /** The operations of one request. */
  function RequestOps(req: UpsertReq, dbOk: bool, listing: Listing): seq<Op> {
    if Skipping(req, dbOk).Some? then [] else [Put(Resolved(req, listing))]
  }

  lemma BatchStep(reqs: seq<UpsertReq>, dbOk: seq<bool>, listing: Listing)
    requires |dbOk| == |reqs| > 0
    ensures var n := |reqs| - 1;
            && BatchOps(reqs, dbOk, listing)
               == BatchOps(reqs[..n], dbOk[..n], listing) + RequestOps(reqs[n], dbOk[n], listing)
            && BatchSkips(reqs, dbOk)
               == BatchSkips(reqs[..n], dbOk[..n]) +
                  (var skip := Skipping(reqs[n], dbOk[n]); if skip.Some? then [skip.value] else [])
  {
  }

  /** One request: skipped for a reason, or written and queued. */
  ghost predicate RequestDone(d: Desk, d': Desk, req: UpsertReq, dbOk: bool, listing: Listing,
                              skip: Option<Skip>, ops: seq<Op>) {
    && skip == Skipping(req, dbOk) && ops == RequestOps(req, dbOk, listing)
    && CanApplyAll(d, ops) && d' == ApplyAll(d, ops)
  }

  lemma OneMoreRequest(d: Desk, d1: Desk, d2: Desk, reqs: seq<UpsertReq>, dbOk: seq<bool>, k: nat, listing: Listing,
                       queued: nat, skipped: seq<Skip>, ops: seq<Op>, skip: Option<Skip>, more: seq<Op>)
    requires |dbOk| == |reqs| && k < |reqs|
    requires Batched(d, d1, reqs[..k], dbOk[..k], listing, queued, skipped, ops)
    requires RequestDone(d1, d2, reqs[k], dbOk[k], listing, skip, more)
    ensures Batched(d, d2, reqs[..k + 1], dbOk[..k + 1], listing,
                    if skip.Some? then queued else queued + 1,
                    if skip.Some? then skipped + [skip.value] else skipped, ops + more)
  {
    BatchStep(reqs[..k + 1], dbOk[..k + 1], listing);
    assert reqs[..k + 1][..k] == reqs[..k] && dbOk[..k + 1][..k] == dbOk[..k];
    ApplyMore(d, ops, more);
  }

  /** The items of a list whose rows can be read. */
  ghost function Ids(ids: seq<string>, readOk: string -> bool): set<string> {
    set id | id in ids && readOk(id)
  }

  predicate Unlisted(m: string, rows: seq<Binding>) {
    forall j | 0 <= j < |rows| :: rows[j].mac != m
  }

  predicate SamePending(d: Desk, d': Desk, m: string) {
    Pending(d.q, m) == Pending(d'.q, m)
  }

  /** A row is queued as the catalog has it, and stored so if the write succeeds. */
  predicate Refreshing(d: Desk, b: Binding, listing: Listing, writeOk: bool) {
    && Pending(d.q, b.mac) == Some(Refreshed(b, listing))
    && b.mac in d.store && d.store[b.mac] == if writeOk then Refreshed(b, listing) else b
  }

  /**
   The rows of the given items are queued as the catalog has them, and stored so where the write succeeds;
   every other row and its pending binding are as before; no row appears or disappears.
   */
  ghost predicate Reconciled(d: Desk, d': Desk, listing: Listing, ids: set<string>, writeOk: string -> bool) {
    && d'.store.Keys == d.store.Keys
    && forall m | m in d.store ::
         if d.store[m].itemID in ids then Refreshing(d', d.store[m], listing, writeOk(m)) && d.store[m].mac == m
         else d'.store[m] == d.store[m] && SamePending(d, d', m)
  }

  lemma ReconcileTwice(d: Desk, d1: Desk, d2: Desk, listing: Listing, ids: set<string>, id: string,
                       writeOk: string -> bool)
    requires Filed(d.store) && Filed(d1.store)
    requires Reconciled(d, d1, listing, ids, writeOk) && Reconciled(d1, d2, listing, {id}, writeOk)
    ensures Reconciled(d, d2, listing, ids + {id}, writeOk)
  {
    forall m | m in d.store
      ensures if d.store[m].itemID in ids + {id} then
                Refreshing(d2, d.store[m], listing, writeOk(m)) && d.store[m].mac == m
              else d2.store[m] == d.store[m] && SamePending(d, d2, m)
    {
      assert m in d1.store;
    }
  }

  /** The listed rows are queued as the catalog has them, the others untouched. */
  ghost predicate RowsDone(d: Desk, d': Desk, rows: seq<Binding>, listing: Listing, writeOk: string -> bool) {
    && d'.store.Keys == d.store.Keys
    && (forall j | 0 <= j < |rows| :: Refreshing(d', rows[j], listing, writeOk(rows[j].mac)))
    && (forall m | m in d.store && Unlisted(m, rows) :: d'.store[m] == d.store[m] && SamePending(d, d', m))
  }

  /** An operation on one row refreshes and queues it, and touches no other. */
  ghost predicate RowChanged(d: Desk, d': Desk, row: Binding, op: Op, listing: Listing, writeOk: bool) {
    && CanApply(d, op) && d' == Apply(d, op)
    && (writeOk ==> !op.Push?)
    && Refreshing(d', row, listing, writeOk)
    && d'.store.Keys == d.store.Keys
    && forall m | m in d.store && m != row.mac :: d'.store[m] == d.store[m] && SamePending(d, d', m)
  }

  /** These are rows bound to an item, each listed once. */
  ghost predicate AreRows(d: Desk, rows: seq<Binding>, id: string) {
    && (forall b | b in rows :: b.mac in d.store && d.store[b.mac] == b && b.itemID == id)
    && (forall i, j | 0 <= i < j < |rows| :: rows[i].mac != rows[j].mac)
  }

  lemma NextRow(d: Desk, d1: Desk, rows: seq<Binding>, k: nat, id: string, listing: Listing, writeOk: string -> bool)
    requires k < |rows| && AreRows(d, rows, id) && RowsDone(d, d1, rows[..k], listing, writeOk)
    ensures Unlisted(rows[k].mac, rows[..k])
    ensures rows[k].itemID == id && rows[k].mac in d1.store && d1.store[rows[k].mac] == rows[k]
  {
    assert rows[k] in rows;
  }

  lemma OneMoreRow(d: Desk, d1: Desk, d2: Desk, ops: seq<Op>, op: Op, rows: seq<Binding>, k: nat,
                   listing: Listing, writeOk: string -> bool)
    requires k < |rows| && Unlisted(rows[k].mac, rows[..k])
    requires Performed(d, d1, ops, writeOk) && RowsDone(d, d1, rows[..k], listing, writeOk)
    requires RowChanged(d1, d2, rows[k], op, listing, writeOk(rows[k].mac))
    ensures Performed(d, d2, ops + [op], writeOk)
    ensures RowsDone(d, d2, rows[..k + 1], listing, writeOk)
  {
    PerformedOne(d, d1, d2, ops, op, writeOk);
    RowsAppend(d, d1, d2, rows[..k], rows[k], op, listing, writeOk);
    assert rows[..k + 1] == rows[..k] + [rows[k]];
  }

  lemma RowsAppend(d: Desk, d1: Desk, d2: Desk, rows: seq<Binding>, row: Binding, op: Op,
                   listing: Listing, writeOk: string -> bool)
    requires RowsDone(d, d1, rows, listing, writeOk) && Unlisted(row.mac, rows)
    requires RowChanged(d1, d2, row, op, listing, writeOk(row.mac))
    ensures RowsDone(d, d2, rows + [row], listing, writeOk)
  {
    var rows' := rows + [row];
    forall j | 0 <= j < |rows'|
      ensures Refreshing(d2, rows'[j], listing, writeOk(rows'[j].mac))
    {
      if j < |rows| {
        assert Refreshing(d1, rows[j], listing, writeOk(rows[j].mac)) && SamePending(d1, d2, rows[j].mac);
      }
    }
    forall m | m in d.store && Unlisted(m, rows')
      ensures d2.store[m] == d.store[m] && SamePending(d, d2, m)
    {
      assert rows'[|rows|] == row;
      assert forall j | 0 <= j < |rows| :: rows'[j] == rows[j];
      assert Unlisted(m, rows);
    }
  }

  lemma AllRows(d: Desk, d': Desk, rows: seq<Binding>, id: string, listing: Listing, writeOk: string -> bool)
    requires Filed(d.store) && RowsDone(d, d', rows, listing, writeOk)
    requires AreRows(d, rows, id)
    requires forall m | m in d.store && d.store[m].itemID == id :: d.store[m] in rows
    ensures Reconciled(d, d', listing, {id}, writeOk)
  {
    forall m | m in d.store
      ensures if d.store[m].itemID in {id} then Refreshing(d', d.store[m], listing, writeOk(m)) && d.store[m].mac == m
              else d'.store[m] == d.store[m] && SamePending(d, d', m)
    {
      if d.store[m].itemID != id {
        forall j | 0 <= j < |rows|
          ensures rows[j].mac != m
        {
          assert rows[j] in rows;
        }
      }
    }
  }
}
