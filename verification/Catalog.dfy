/** The in-memory catalog. */
module Catalog {
  import opened Options

  datatype Item = Item(id: string, name: string, price: int)

  /** The item that an index built from a list holds for an id: the last one listed. */
  function Indexed(its: seq<Item>, id: string): Option<Item> {
    if its == [] then None
    else if its[|its| - 1].id == id then Some(its[|its| - 1])
    else Indexed(its[..|its| - 1], id)
  }

  /** An id is found exactly when it is listed, and what is found is the listed item, at k, with no later namesake. */
  lemma {:induction false} IndexedIsListed(its: seq<Item>, id: string) returns (k: nat)
    ensures Indexed(its, id).None? <==> forall i | 0 <= i < |its| :: its[i].id != id
    ensures Indexed(its, id).Some? ==>
              && k < |its| && its[k] == Indexed(its, id).value && its[k].id == id
              && forall i | k < i < |its| :: its[i].id != id
  {
    k := 0;
    if its != [] {
      if its[|its| - 1].id == id {
        k := |its| - 1;
      } else {
        k := IndexedIsListed(its[..|its| - 1], id);
      }
    }
  }

  class Cache {
    var items: seq<Item>
    var byID: map<string, Item>

    /** The index answers every lookup as the list does. */
    ghost predicate Valid()
      reads this
    {
      forall id :: (if id in byID then Some(byID[id]) else None) == Indexed(items, id)
    }

    constructor ()
      ensures Valid() && items == []
    {
      items, byID := [], map[];
    }

    method Replace(its: seq<Item>)
      modifies this
      ensures Valid() && items == its
    {
      items := its;
      byID := map[];
      for k := 0 to |its|
        invariant items == its
        invariant forall id :: (if id in byID then Some(byID[id]) else None) == Indexed(its[..k], id)
      {
        byID := byID[its[k].id := its[k]];
        assert its[..k + 1][..k] == its[..k];
      }
      assert its[..|its|] == its;
    }

    method Get(id: string) returns (r: Option<Item>)
      requires Valid()
      ensures r == Indexed(items, id)
    {
      if id in byID {
        r := Some(byID[id]);
      } else {
        r := None;
      }
    }
  }
}
