/**
 Saving a new binding for a MAC while a catalog change is being reconciled: `ReconcileChanged` writes back
 whole rows that it read earlier.
 */
module Rebinding {
  import opened PushQueues
  import opened ShopRuns

  /** The service, and the rows that reconciliations have read. */
  datatype Edit = Edit(shop: Shop, copies: seq<Binding>)

  datatype Step =
    | Save(b: Binding)                                  // saveBinding upserts a row
    | Read(mac: string)                                 // ReconcileChanged reads a row
    | WriteBack(i: nat, itemName: string, price: int)   // and upserts it with the catalog's name and price
    | Other(e: ShopEvent)                               // anything else that happens in the service

  predicate CanTake(s: Edit, t: Step) {
    match t
    case Save(_) => true
    case Read(mac) => mac in s.shop.store
    case WriteBack(i, _, _) => i < |s.copies|
    case Other(e) => !e.Write? && CanHappen(s.shop, e)
  }

  /** The step of the service, if it is one. */
  function Events(s: Edit, t: Step): seq<ShopEvent>
    requires CanTake(s, t)
  {
    match t
    case Save(b) => [Write(b)]
    case Read(_) => []
    case WriteBack(i, name, price) => [Write(s.copies[i].(itemName := name, priceCents := price))]
    case Other(e) => [e]
  }

  function Take(s: Edit, t: Step): Edit
    requires CanTake(s, t)
  {
    match t
    case Read(mac) => s.(copies := s.copies + [s.shop.store[mac]])
    case _ => s.(shop := Happen(s.shop, Events(s, t)[0]))
  }

  predicate AreSteps(s: Edit, ts: seq<Step>)
    decreases |ts|
  {
    ts == [] || (CanTake(s, ts[0]) && AreSteps(Take(s, ts[0]), ts[1..]))
  }

  function EditAfter(s: Edit, ts: seq<Step>): Edit
    requires AreSteps(s, ts)
    decreases |ts|
  {
    if ts == [] then s else EditAfter(Take(s, ts[0]), ts[1..])
  }

  function AllEvents(s: Edit, ts: seq<Step>): seq<ShopEvent>
    requires AreSteps(s, ts)
    decreases |ts|
  {
    if ts == [] then [] else Events(s, ts[0]) + AllEvents(Take(s, ts[0]), ts[1..])
  }

  /** These are runs of the service, so what is proved of those holds here. */
  lemma {:induction false} StepsAreRun(s: Edit, ts: seq<Step>)
    requires AreSteps(s, ts)
    ensures IsShopRun(s.shop, AllEvents(s, ts)) && ShopAfter(s.shop, AllEvents(s, ts)) == EditAfter(s, ts).shop
    decreases |ts|
  {
    if ts != [] {
      var rest := AllEvents(Take(s, ts[0]), ts[1..]);
      StepsAreRun(Take(s, ts[0]), ts[1..]);
      if ts[0].Read? {
        assert AllEvents(s, ts) == rest;
      } else {
        assert AllEvents(s, ts)[1..] == rest;
      }
    }
  }

  // ----- when a saved binding survives -----

  /** The same binding but for the catalog's name and price. */
  predicate SameBinding(a: Binding, b: Binding) {
    a.mac == b.mac && a.itemID == b.itemID && a.bridgeID == b.bridgeID
  }

  /** The row still binds the tag as it was saved. */
  predicate Kept(s: Edit, b: Binding) {
    b.mac in s.shop.store && SameBinding(s.shop.store[b.mac], b)
  }

  /** The binding survives every one of the steps. */
  predicate Survives(s: Edit, ts: seq<Step>, b: Binding)
    requires AreSteps(s, ts)
    decreases |ts|
  {
    Kept(s, b) && (ts == [] || Survives(Take(s, ts[0]), ts[1..], b))
  }

  /** No step saves or deletes the MAC's row. */
  predicate Untouched(ts: seq<Step>, mac: string) {
    forall t | t in ts :: !(t.Save? && t.b.mac == mac) && t != Other(Delete(mac))
  }

  /** The step writes back one of these copies of the MAC's row, which was bound otherwise. */
  predicate Stale(copies: seq<Binding>, t: Step, b: Binding) {
    t.WriteBack? && t.i < |copies| && copies[t.i].mac == b.mac && !SameBinding(copies[t.i], b)
  }

  /** The MAC's rows read since those early copies are bound as saved. */
  ghost predicate ReadSince(s: Edit, early: seq<Binding>, b: Binding) {
    && Filed(s.shop.store) && early <= s.copies
    && forall i | |early| <= i < |s.copies| && s.copies[i].mac == b.mac :: SameBinding(s.copies[i], b)
  }

  lemma OneStep(s: Edit, early: seq<Binding>, t: Step, b: Binding)
    requires CanTake(s, t) && Kept(s, b) && ReadSince(s, early, b)
    requires !(t.Save? && t.b.mac == b.mac) && t != Other(Delete(b.mac))
    ensures Kept(Take(s, t), b) <==> !Stale(early, t, b)
    ensures Kept(Take(s, t), b) ==> ReadSince(Take(s, t), early, b)
  {
    if t.WriteBack? && t.i < |early| {
      assert s.copies[t.i] == early[t.i];
    }
  }

  /**
   When a saved binding survives, exactly: after it was saved, and until the MAC's row is saved or deleted
   again, it stays through any further steps if and only if none of them writes back a row of that MAC that
   was read before the save and was bound otherwise.
   */
  lemma {:induction false} SurvivesIff(s: Edit, early: seq<Binding>, ts: seq<Step>, b: Binding)
    requires AreSteps(s, ts) && Kept(s, b) && ReadSince(s, early, b) && Untouched(ts, b.mac)
    ensures Survives(s, ts, b) <==> forall t | t in ts :: !Stale(early, t, b)
    decreases |ts|
  {
    if ts != [] {
      assert ts[0] in ts && forall t :: t in ts <==> t == ts[0] || t in ts[1..];
      OneStep(s, early, ts[0], b);
      if Stale(early, ts[0], b) {
        assert !Kept(Take(s, ts[0]), b);
      } else {
        SurvivesIff(Take(s, ts[0]), early, ts[1..], b);
      }
    }
  }

  /** The same, from the save on: `s.copies` are the rows read before it. */
  lemma SavedSurvivesIff(s: Edit, ts: seq<Step>, b: Binding)
    requires Filed(s.shop.store) && AreSteps(Take(s, Save(b)), ts) && Untouched(ts, b.mac)
    ensures Survives(Take(s, Save(b)), ts, b) <==> forall t | t in ts :: !Stale(s.copies, t, b)
  {
    SurvivesIff(Take(s, Save(b)), s.copies, ts, b);
  }

  /**
   A tag is bound to another item while a change of its old one is being reconciled: the row that was read
   before is written back, and the store holds the old item again.
   */
  lemma RebindingLost(b0: Binding, b1: Binding, itemName: string, price: int)
    requires b0.mac == b1.mac && b0.itemID != b1.itemID
    ensures var ts, s := [Save(b0), Read(b0.mac), Save(b1), WriteBack(0, itemName, price)], Edit(Opening(map[]), []);
            && AreSteps(s, ts)
            && EditAfter(s, ts).shop.store == map[b0.mac := b0.(itemName := itemName, priceCents := price)]
  {
    var s := Edit(Opening(map[]), []);
    var t1, t2, t3, t4 := Save(b0), Read(b0.mac), Save(b1), WriteBack(0, itemName, price);
    var s1 := Take(s, t1);
    var s2 := Take(s1, t2);
    assert s2.copies == [b0];
    var s3 := Take(s2, t3);
    var s4 := Take(s3, t4);
    var ts := [t1, t2, t3, t4];
    assert ts[1..] == [t2, t3, t4] && [t2, t3, t4][1..] == [t3, t4] && [t3, t4][1..] == [t4] && [t4][1..] == [];
    assert AreSteps(s4, []) && EditAfter(s4, []) == s4;
    assert AreSteps(s3, [t4]) && EditAfter(s3, [t4]) == s4;
    assert AreSteps(s2, [t3, t4]) && EditAfter(s2, [t3, t4]) == s4;
    assert AreSteps(s1, [t2, t3, t4]) && EditAfter(s1, [t2, t3, t4]) == s4;
    assert s4.shop.store == map[b0.mac := b0.(itemName := itemName, priceCents := price)];
  }
}
