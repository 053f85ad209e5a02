/** The product's claim, composed from its parts: the tag ends up showing what the store says. */
module EndToEnd {
  import opened Images
  import opened Options
  import opened PushQueues
  import Panel
  import Encoder
  import EncoderLaws
  import QueueRuns
  import ShopRuns
  import opened Transfer
  import opened Connections
  import opened Reassembly
  import opened TagHistory
  import Server
  import Polling
  import Freshness

  /** How a face is drawn from an item's name and price; drawing itself is not part of this model. */
  type Drawing = (string, int) -> Picture

  /** The bytes `pushBinding` hands to the transport. */
  ghost function Bits(draw: Drawing, b: Binding): seq<byte> {
    Encoder.Encoded(draw(b.itemName, b.priceCents), Panel.DEFAULT_OPTS)
  }

  /** A tag's memory shows a face: its black bits are exactly the two bits of each ink pixel off column 0. */
  ghost predicate Shows(bytes: seq<byte>, face: Picture) {
    && |bytes| == 4125
    && forall r, c | 0 <= r < 125 && 0 <= c < 264 ::
         EncoderLaws.Black(bytes, r, c)
         <==> exists fx, fy :: EncoderLaws.FaceInk(face, fx, fy) && EncoderLaws.SentAs(fx, fy, r, c)
  }

  lemma EncodedShows(face: Picture)
    ensures Shows(Encoder.Encoded(face, Panel.DEFAULT_OPTS), face)
  {
    EncoderLaws.DefaultLayout(face, 0, 0);
    EncoderLaws.WireIsInk(face);
  }

  // ----- the worker's deliveries and the bridge's turns -----

  /** How the bridge reads a MAC; None if it cannot. */
  type Addressing = string -> Option<seq<byte>>

  /** A turn of the bridge, and which delivery of the queue made it; others, such as test patterns, make turns too. */
  datatype Call = Call(turn: Turn, of: Option<nat>)

  function Turns(calls: seq<Call>): seq<Turn> {
    seq(|calls|, j requires 0 <= j < |calls| => calls[j].turn)
  }

  /** A delivery over the bridge pushes its face to its MAC, and is recorded as "ok" only if the bridge says so. */
  ghost predicate Made(draw: Drawing, parse: Addressing, d: QueueRuns.Delivery, a: Air, turn: Turn)
    requires Inv(a.radio) && |turn.p.bits| < U32 && turn.wait <= |turn.es|
  {
    && turn.p.bits == Bits(draw, d.b) && turn.p.target == parse(d.b.mac)
    && (d.res == Ok ==> AnswersOk(a, turn))
  }

  /** The deliveries made over a bridge are turns of its history, in their order. */
  ghost predicate Coupled(draw: Drawing, parse: Addressing, done: seq<QueueRuns.Delivery>, calls: seq<Call>) {
    && IsHistory(QUIET, Turns(calls))
    && (forall j | 0 <= j < |calls| && calls[j].of.Some? :: CoupledAt(draw, parse, done, calls, j))
    && (forall i, j | 0 <= i < j < |calls| && calls[i].of.Some? && calls[j].of.Some? ::
          calls[i].of.value < calls[j].of.value)
  }

  ghost predicate CoupledAt(draw: Drawing, parse: Addressing, done: seq<QueueRuns.Delivery>, calls: seq<Call>, j: nat)
    requires IsHistory(QUIET, Turns(calls)) && j < |calls| && calls[j].of.Some?
  {
    var turn := calls[j].turn;
    && calls[j].of.value < |done| && |turn.p.bits| < U32 && turn.wait <= |turn.es|
    && Made(draw, parse, done[calls[j].of.value], AirBefore(QUIET, Turns(calls), j), turn)
  }

  /** Delivery d is the last one for the MAC. */
  predicate IsLast(done: seq<QueueRuns.Delivery>, d: nat, m: string) {
    d < |done| && done[d].b.mac == m && forall k | d < k < |done| :: done[k].b.mac != m
  }

  lemma {:induction false} LastIs(done: seq<QueueRuns.Delivery>, d: nat, m: string)
    requires IsLast(done, d, m)
    ensures QueueRuns.LastResult(m, done) == Some(done[d].res)
    ensures var b := QueueRuns.Of(m, QueueRuns.Bindings(done)); b != [] && b[|b| - 1] == done[d].b
    decreases |done|
  {
    var front := done[..|done| - 1];
    assert QueueRuns.Bindings(done)[..|done| - 1] == QueueRuns.Bindings(front);
    if d < |done| - 1 {
      LastIs(front, d, m);
    }
  }

  /**
   The last delivery for a MAC went over this bridge as call j, no other MAC of the queue names the same tag,
   nothing else pushed to the tag since, and no connection was left over when call j and the next one were
   set up.
   */
  ghost predicate Undisturbed(parse: Addressing, done: seq<QueueRuns.Delivery>, calls: seq<Call>, j: nat, m: string)
    requires IsHistory(QUIET, Turns(calls))
  {
    && j < |calls| && calls[j].of.Some? && IsLast(done, calls[j].of.value, m) && parse(m).Some?
    && (forall d | d in done && parse(d.b.mac) == parse(m) :: d.b.mac == m)
    && (forall i | j < i < |calls| && calls[i].of.None? :: calls[i].turn.p.target != parse(m))
    && Clear(AirBefore(QUIET, Turns(calls), j))
    && (j + 1 < |calls| ==> Clear(AirBefore(QUIET, Turns(calls), j + 1)))
  }

  /** Then call j is the last push to the tag. */
  lemma CallIsLast(draw: Drawing, parse: Addressing, done: seq<QueueRuns.Delivery>, calls: seq<Call>, j: nat, m: string)
    requires Coupled(draw, parse, done, calls) && Undisturbed(parse, done, calls, j, m)
    ensures LastPushTo(QUIET, parse(m).value, Turns(calls), j)
  {
    assert CoupledAt(draw, parse, done, calls, j);
    forall i | j < i < |calls|
      ensures calls[i].turn.p.target != parse(m)
    {
      if calls[i].of.Some? {
        assert CoupledAt(draw, parse, done, calls, i);
        assert calls[j].of.value < calls[i].of.value;
        assert done[calls[i].of.value] in done;
      }
    }
  }

  /** After a last delivery recorded as "ok", a careful tag shows the face drawn from what was delivered. */
  lemma OkDelivered(draw: Drawing, parse: Addressing, done: seq<QueueRuns.Delivery>, calls: seq<Call>, j: nat,
                    m: string, t: Tag)
    requires Coupled(draw, parse, done, calls) && Undisturbed(parse, done, calls, j, m)
    requires AlwaysCareful(QUIET, t, 0, parse(m).value, Turns(calls))
    requires QueueRuns.LastResult(m, done) == Some(Ok)
    ensures Follow(QUIET, t, 0, parse(m).value, Turns(calls)).shown == Some(Bits(draw, done[calls[j].of.value].b))
  {
    LastIs(done, calls[j].of.value, m);
    assert CoupledAt(draw, parse, done, calls, j);
    CallIsLast(draw, parse, done, calls, j, m);
    assert Turns(calls)[j] == calls[j].turn;
    LastPushShows(QUIET, t, 0, parse(m).value, Turns(calls), j);
  }

  // ----- the service -----

  /**
   A quiet end of a run in which writes succeeded and handlers for one MAC enqueued in the order of their
   store accesses, where a tag was enqueued, has no handler in progress and is still bound.
   */
  ghost predicate Settled(rows: map<string, Binding>, es: seq<ShopRuns.ShopEvent>, m: string) {
    && ShopRuns.Filed(rows)
    && ShopRuns.IsShopRun(ShopRuns.Opening(rows), es)
    && ShopRuns.InOrder(ShopRuns.Opening(rows), es)
    && var s := ShopRuns.ShopAfter(ShopRuns.Opening(rows), es);
       QueueRuns.Quiet(s.sys) && !ShopRuns.Held(s, m) && m in s.store && QueueRuns.Of(m, s.sys.enq) != []
  }

  /** The last binding delivered is the row, and the status shown is that delivery's outcome. */
  lemma DeliveredIsRow(rows: map<string, Binding>, es: seq<ShopRuns.ShopEvent>, m: string)
    requires Settled(rows, es, m)
    ensures var s := ShopRuns.ShopAfter(ShopRuns.Opening(rows), es);
            && ShopRuns.LastDelivered(s, m) == Some(s.store[m])
            && m in s.sys.q.status && QueueRuns.LastResult(m, s.sys.done) == Some(s.sys.q.status[m])
  {
    ShopRuns.TagsFollowStore(rows, es, m);
    ShopRuns.OpeningKeeps(rows);
    ShopRuns.ShopKeeps(rows, ShopRuns.Opening(rows), es);
    var s := ShopRuns.ShopAfter(ShopRuns.Opening(rows), es).sys;
    assert QueueRuns.LatestWins(s, m) && QueueRuns.StatusSound(s, m);
  }

  /** The tag named by the MAC, followed through the bridge's history, shows the face of a name and price. */
  ghost predicate TagShows(draw: Drawing, parse: Addressing, calls: seq<Call>, m: string, t: Tag,
                           itemName: string, price: int)
    requires IsHistory(QUIET, Turns(calls)) && parse(m).Some?
  {
    var shown := Follow(QUIET, t, 0, parse(m).value, Turns(calls)).shown;
    shown.Some? && Shows(shown.value, draw(itemName, price))
  }

  /** In a settled state an "ok" tag shows its row. */
  lemma RowShown(draw: Drawing, parse: Addressing, s: ShopRuns.Shop, m: string, calls: seq<Call>, j: nat, t: Tag)
    requires m in s.store && m in s.sys.q.status && ShopRuns.LastDelivered(s, m) == Some(s.store[m])
    requires QueueRuns.LastResult(m, s.sys.done) == Some(s.sys.q.status[m])
    requires Coupled(draw, parse, s.sys.done, calls) && Undisturbed(parse, s.sys.done, calls, j, m)
    requires AlwaysCareful(QUIET, t, 0, parse(m).value, Turns(calls))
    ensures s.sys.q.status[m] == Ok ==>
              TagShows(draw, parse, calls, m, t, s.store[m].itemName, s.store[m].priceCents)
  {
    if s.sys.q.status[m] == Ok {
      LastOne(s, calls[j].of.value, m);
      FaceDelivered(draw, parse, s.sys.done, calls, j, m, t);
    }
  }

  lemma LastOne(s: ShopRuns.Shop, d: nat, m: string)
    requires IsLast(s.sys.done, d, m)
    ensures ShopRuns.LastDelivered(s, m) == Some(s.sys.done[d].b)
  {
    LastIs(s.sys.done, d, m);
  }

  /**
   The tag shows what the store says.  Take any run of the service in which writes succeed and handlers for
   one MAC, overlapping or not, enqueue in the order of their store accesses, up to a quiet state; a bound
   tag with no handler in progress, whose last delivery went over the bridge undisturbed; and any history of
   the bridge in which the tag completes only images it got whole.  If the tag's status is "ok", it shows the
   face drawn from its current row.
   */
  lemma {:induction false} TagShowsStore(draw: Drawing, parse: Addressing, rows: map<string, Binding>,
                                         es: seq<ShopRuns.ShopEvent>, m: string, calls: seq<Call>, j: nat, t: Tag)
    requires Settled(rows, es, m)
    requires var done := ShopRuns.ShopAfter(ShopRuns.Opening(rows), es).sys.done;
             Coupled(draw, parse, done, calls) && Undisturbed(parse, done, calls, j, m)
    requires AlwaysCareful(QUIET, t, 0, parse(m).value, Turns(calls))
    ensures var s := ShopRuns.ShopAfter(ShopRuns.Opening(rows), es);
            && m in s.sys.q.status
            && (s.sys.q.status[m] == Ok ==>
                  TagShows(draw, parse, calls, m, t, s.store[m].itemName, s.store[m].priceCents))
  {
    DeliveredIsRow(rows, es, m);
    RowShown(draw, parse, ShopRuns.ShopAfter(ShopRuns.Opening(rows), es), m, calls, j, t);
  }

  lemma FaceDelivered(draw: Drawing, parse: Addressing, done: seq<QueueRuns.Delivery>, calls: seq<Call>, j: nat,
                      m: string, t: Tag)
    requires Coupled(draw, parse, done, calls) && Undisturbed(parse, done, calls, j, m)
    requires AlwaysCareful(QUIET, t, 0, parse(m).value, Turns(calls))
    requires QueueRuns.LastResult(m, done) == Some(Ok)
    ensures var b := done[calls[j].of.value].b; TagShows(draw, parse, calls, m, t, b.itemName, b.priceCents)
  {
    var b := done[calls[j].of.value].b;
    OkDelivered(draw, parse, done, calls, j, m, t);
    EncodedShows(draw(b.itemName, b.priceCents));
  }

  /**
   The tag shows what the catalog says.  Take the operations of the poller's loop over any rounds, in any
   interleaving with the queue's worker, up to a quiet state, and an item whose newest modification some
   round reached.  If the status of a tag bound to it is "ok" and its last delivery went over the bridge
   undisturbed, then the tag, careful as above, shows the face of that modification.
   */
  lemma {:induction false} TagShowsCatalog(draw: Drawing, parse: Addressing, rows: map<string, Binding>,
                                           d': Server.Desk, ops: seq<Server.Op>, es: seq<ShopRuns.ShopEvent>,
                                           mods: seq<Polling.Mod>, st: Polling.Station, rounds: seq<Polling.Round>,
                                           k: nat, i: nat, m: string, calls: seq<Call>, j: nat, t: Tag)
    requires ShopRuns.Filed(rows) && Polling.Polled(mods, st, rounds, Freshness.Fresh(rows), d', ops)
    requires Freshness.IsPolledRun(rows, ops, es)
    requires QueueRuns.Quiet(ShopRuns.ShopAfter(ShopRuns.Opening(rows), es).sys)
    requires Polling.InSequence(st, rounds) && Polling.Newest(mods, i) && Polling.Bound(mods, st, i, m)
    requires k < |rounds| && Polling.Reaches(mods, st, rounds, k, i)
    requires var done := ShopRuns.ShopAfter(ShopRuns.Opening(rows), es).sys.done;
             Coupled(draw, parse, done, calls) && Undisturbed(parse, done, calls, j, m)
    requires AlwaysCareful(QUIET, t, 0, parse(m).value, Turns(calls))
    ensures var s := ShopRuns.ShopAfter(ShopRuns.Opening(rows), es);
            && m in s.sys.q.status
            && (s.sys.q.status[m] == Ok ==>
                  TagShows(draw, parse, calls, m, t, mods[i].item.name, mods[i].item.price))
  {
    Freshness.ReachedIsSettled(rows, d', ops, es, mods, st, rounds, k, i, m);
    TagShowsStore(draw, parse, rows, es, m, calls, j, t);
  }
}
