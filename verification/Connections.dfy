/**
 Which connections exist while the bridge pushes.  A callback sees a connection only by its handle, and most
 not even that; here each connection remembers the push whose dial opened it, so that one can say whether a
 push that reports success reached its own tag.
 */
module Connections {
  import opened Transfer

  /**
   The bridge and its connections: how many pushes got to their wait, which of them have a connection attempt
   that has not ended, and the connections that are open, which one to be terminated is until it is reported
   disconnected.
   */
  datatype Air = Air(radio: Radio, pushes: nat, dialling: set<nat>, open: set<Link>)

  const QUIET := Air(IDLE, 0, {}, {})

  /** Connections are opened by a dial, under a handle not in use; only an open one carries notifications or ends. */
  predicate CanOccur(a: Air, e: Event) {
    match e
    case Connect(status, link) =>
      link.push in a.dialling && (status == 0 ==> forall l | l in a.open :: l.handle != link.handle)
    case Disconnect(link) => link in a.open
    case Notify(link, _) => link in a.open
    case _ => true
  }

  /** Handling the event, the bridge asks to connect to the address it found. */
  predicate Dials(s: Radio, e: Event)
    requires Inv(s)
  {
    e.Discovered? && Dial(e.addr) in Handle(s, e).1
  }

  function Occur(a: Air, e: Event): (a': Air)
    requires Inv(a.radio)
    ensures Inv(a'.radio)
  {
    var radio := Next(a.radio, e);
    match e
    case Connect(status, link) =>
      Air(radio, a.pushes, a.dialling - {link.push}, if status == 0 then a.open + {link} else a.open)
    case Disconnect(link) => a.(radio := radio, open := a.open - {link})
    case Discovered(_, _, connectOk) =>
      a.(radio := radio, dialling := if connectOk && Dials(a.radio, e) then a.dialling + {a.pushes} else a.dialling)
    case _ => a.(radio := radio)
  }

  /** A connection is new only by a successful `Connect`, an attempt only by a dial of the latest push. */
  lemma OccurLinks(a: Air, e: Event)
    requires Inv(a.radio)
    ensures var a' := Occur(a, e);
            && a'.pushes == a.pushes
            && (forall l | l in a'.open && l !in a.open :: e == Connect(0, l))
            && (forall d | d in a'.dialling && d !in a.dialling :: d == a.pushes && Dials(a.radio, e))
  {
  }

  lemma OccurRadio(a: Air, e: Event)
    requires Inv(a.radio)
    ensures Occur(a, e).radio == Next(a.radio, e) && Occur(a, e).pushes == a.pushes
    ensures Occur(a, e).radio.target == a.radio.target
  {
  }

  /** Only the address of the push in flight is dialled. */
  lemma DialsTarget(s: Radio, e: Event)
    requires Inv(s) && Dials(s, e)
    ensures e.addr == s.target
  {
  }

  /** After the first k events. */
  function At(a: Air, es: seq<Event>, k: nat): (a': Air)
    requires Inv(a.radio) && k <= |es|
    ensures Inv(a'.radio)
  {
    if k == 0 then a else Occur(At(a, es, k - 1), es[k - 1])
  }

  ghost predicate Causal(a: Air, es: seq<Event>)
    requires Inv(a.radio)
  {
    forall k | 0 <= k < |es| :: CanOccur(At(a, es, k), es[k])
  }

  function Startup(a: Air, p: Setup): (a': Air)
    requires Inv(a.radio) && |p.bits| < U32
    ensures Inv(a'.radio)
  {
    BeginKeeps(a.radio, p);
    var (radio, waits) := Begin(a.radio, p);
    a.(radio := radio, pushes := if waits then a.pushes + 1 else a.pushes)
  }

  lemma {:induction false} AtIsAfter(a: Air, es: seq<Event>, k: nat)
    requires Inv(a.radio) && k <= |es|
    ensures At(a, es, k).radio == AfterEvents(a.radio, es[..k])
  {
    if k > 0 {
      var before, e := At(a, es, k - 1), es[k - 1];
      AtIsAfter(a, es, k - 1);
      assert es[..k] == es[..k - 1] + [e];
      AfterMore(a.radio, es[..k - 1], [e]);
      OneEvent(before.radio, e);
      OccurRadio(before, e);
    }
  }

  lemma {:induction false} SameTarget(a: Air, es: seq<Event>, k: nat)
    requires Inv(a.radio) && k <= |es|
    ensures At(a, es, k).pushes == a.pushes && At(a, es, k).radio.target == a.radio.target
  {
    if k > 0 {
      SameTarget(a, es, k - 1);
      OccurRadio(At(a, es, k - 1), es[k - 1]);
    }
  }

  // ----- histories -----

  /**
   A call of `ble_push` and the events up to the next one, the first `wait` of them handled before it
   returned.  Calls refused because a push is in flight change nothing and can be left out.
   */
  datatype Turn = Turn(p: Setup, es: seq<Event>, wait: nat)

  ghost predicate IsHistory(a: Air, turns: seq<Turn>)
    requires Inv(a.radio)
    decreases |turns|
  {
    turns == [] ||
    var (p, es) := (turns[0].p, turns[0].es);
    && |p.bits| < U32 && Causal(Startup(a, p), es) && turns[0].wait <= |es|
    && IsHistory(AfterTurn(a, turns[0]), turns[1..])
  }

  /** After a turn. */
  function AfterTurn(a: Air, turn: Turn): (a': Air)
    requires Inv(a.radio) && |turn.p.bits| < U32
    ensures Inv(a'.radio)
  {
    At(Startup(a, turn.p), turn.es, |turn.es|)
  }

  /** After the first k turns of a history. */
  function AirBefore(a: Air, turns: seq<Turn>, k: nat): (a': Air)
    requires Inv(a.radio) && IsHistory(a, turns) && k <= |turns|
    ensures Inv(a'.radio)
    decreases k
  {
    if k == 0 then a else AirBefore(AfterTurn(a, turns[0]), turns[1..], k - 1)
  }

  function AirAfter(a: Air, turns: seq<Turn>): (a': Air)
    requires Inv(a.radio) && IsHistory(a, turns)
    ensures Inv(a'.radio)
  {
    AirBefore(a, turns, |turns|)
  }

  /** Connections and connection attempts are those of pushes so far. */
  ghost predicate Numbered(a: Air) {
    Inv(a.radio) && (forall d | d in a.dialling :: d <= a.pushes) && (forall l | l in a.open :: l.push <= a.pushes)
  }

  lemma OccurNumbered(a: Air, e: Event)
    requires Numbered(a) && CanOccur(a, e)
    ensures Numbered(Occur(a, e))
  {
    OccurLinks(a, e);
  }

  lemma EventKeeps(a: Air, es: seq<Event>, k: nat)
    requires Inv(a.radio) && Causal(a, es) && k < |es| && Numbered(At(a, es, k))
    ensures Numbered(At(a, es, k + 1))
  {
    assert CanOccur(At(a, es, k), es[k]);
    OccurNumbered(At(a, es, k), es[k]);
  }

  lemma {:induction false} EventsKeep(a: Air, es: seq<Event>, k: nat)
    requires Numbered(a) && Causal(a, es) && k <= |es|
    ensures Numbered(At(a, es, k))
  {
    if k > 0 {
      var j := k - 1;
      EventsKeep(a, es, j);
      EventKeeps(a, es, j);
    }
  }

  lemma TurnKeeps(a: Air, turn: Turn)
    requires Numbered(a) && |turn.p.bits| < U32 && Causal(Startup(a, turn.p), turn.es)
    ensures Numbered(AfterTurn(a, turn))
  {
    EventsKeep(Startup(a, turn.p), turn.es, |turn.es|);
  }

  /** So at every moment of a history from `QUIET` on, what is shown below of numbered states holds. */
  lemma {:induction false} HistoryKeeps(a: Air, turns: seq<Turn>, k: nat)
    requires Numbered(a) && IsHistory(a, turns) && k <= |turns|
    ensures Numbered(AirBefore(a, turns, k))
    decreases k
  {
    if k > 0 {
      TurnKeeps(a, turns[0]);
      HistoryKeeps(AfterTurn(a, turns[0]), turns[1..], k - 1);
    }
  }

  // ----- honest success -----

  /** During the wait the bridge dials the push's target. */
  ghost predicate DialsAt(a: Air, es: seq<Event>, i: nat)
    requires Inv(a.radio)
  {
    i < |es| && Dials(At(a, es, i).radio, es[i]) && es[i].addr == a.radio.target
  }

  /** The target is dialled, the connection comes up, and a completion arrives on it. */
  ghost predicate Serves(a: Air, es: seq<Event>, i: nat, j: nat, k: nat)
    requires Inv(a.radio)
  {
    && i < j < k < |es| && DialsAt(a, es, i)
    && es[j].Connect? && es[j].status == 0 && es[j].link.push == a.pushes
    && IsCompletion(es[k]) && es[k].link == es[j].link
  }

  /** The push reached its own tag, which reported completion. */
  ghost predicate TagCompleted(a: Air, es: seq<Event>)
    requires Inv(a.radio)
  {
    exists i: nat, j: nat, k: nat :: Serves(a, es, i, j, k)
  }

  predicate OwnCompletion(push: nat, e: Event) {
    IsCompletion(e) && e.link.push == push
  }

  /** No connection of the given push exists or is attempted. */
  ghost predicate Unlinked(a: Air, push: nat) {
    push !in a.dialling && forall l | l in a.open :: l.push != push
  }

  lemma {:induction false} DialledHere(a: Air, es: seq<Event>, k: nat) returns (i: nat)
    requires Inv(a.radio) && Causal(a, es) && k <= |es| && Unlinked(a, a.pushes)
    requires a.pushes in At(a, es, k).dialling
    ensures i < k && DialsAt(a, es, i)
  {
    i := k - 1;
    var before := At(a, es, i);
    SameTarget(a, es, i);
    OccurLinks(before, es[i]);
    if a.pushes in before.dialling {
      i := DialledHere(a, es, i);
    } else {
      DialsTarget(before.radio, es[i]);
    }
  }

  lemma {:induction false} OpenedHere(a: Air, es: seq<Event>, k: nat, link: Link) returns (i: nat, j: nat)
    requires Inv(a.radio) && Causal(a, es) && k <= |es| && Unlinked(a, a.pushes)
    requires link in At(a, es, k).open && link.push == a.pushes
    ensures i < j < k && DialsAt(a, es, i) && es[j].Connect? && es[j].status == 0 && es[j].link == link
  {
    j := k - 1;
    var before := At(a, es, j);
    OccurLinks(before, es[j]);
    if link in before.open {
      i, j := OpenedHere(a, es, j, link);
    } else {
      assert CanOccur(before, es[j]);
      i := DialledHere(a, es, j);
    }
  }

  /** A completion on a connection of the push is its own tag's, dialled and connected during the wait. */
  lemma OwnMeansCompleted(a: Air, es: seq<Event>)
    requires Inv(a.radio) && Causal(a, es) && Unlinked(a, a.pushes)
    ensures TagCompleted(a, es) <==> exists e | e in es :: OwnCompletion(a.pushes, e)
  {
    if TagCompleted(a, es) {
      var i: nat, j: nat, k: nat :| Serves(a, es, i, j, k);
      assert es[k] in es && OwnCompletion(a.pushes, es[k]);
    }
    if e :| e in es && OwnCompletion(a.pushes, e) {
      var k :| 0 <= k < |es| && es[k] == e;
      assert CanOccur(At(a, es, k), es[k]);
      var i, j := OpenedHere(a, es, k, e.link);
      assert Serves(a, es, i, j, k);
    }
  }

  /**
   When success is honest, run by run: whatever happens during the wait of a push, its success means only
   that some completion came; that its own target was dialled and connected and completed holds if and only
   if some completion of the wait came on a connection of that push, and not all of them from earlier ones.
   */
  lemma {:induction false} HonestIffOwn(a0: Air, p: Setup, es: seq<Event>)
    requires Numbered(a0) && |p.bits| < U32 && Begin(a0.radio, p).1 && Causal(Startup(a0, p), es)
    ensures var a := Startup(a0, p);
            && a.radio.target == p.target.value
            && (ReportsOk(At(a, es, |es|).radio) ==> exists e | e in es :: IsCompletion(e))
            && (TagCompleted(a, es) <==> exists e | e in es :: OwnCompletion(a.pushes, e))
  {
    SuccessHasCompletion(a0, p, es);
    OwnMeansCompleted(Startup(a0, p), es);
  }

  lemma SuccessHasCompletion(a: Air, p: Setup, es: seq<Event>)
    requires Inv(a.radio) && |p.bits| < U32 && Begin(a.radio, p).1
    ensures ReportsOk(At(Startup(a, p), es, |es|).radio) ==> exists e | e in es :: IsCompletion(e)
  {
    AtIsAfter(Startup(a, p), es, |es|);
    assert es[..|es|] == es;
    PushReport(a.radio, p, es);
  }

  /** No connection is open and none is being opened. */
  predicate Clear(a: Air) {
    a.dialling == {} && a.open == {}
  }

  ghost predicate OnlyOwn(a: Air, push: nat) {
    && Inv(a.radio) && a.pushes == push
    && (forall d | d in a.dialling :: d == push) && (forall l | l in a.open :: l.push == push)
  }

  lemma OccurOwn(a: Air, e: Event, push: nat)
    requires OnlyOwn(a, push) && CanOccur(a, e)
    ensures OnlyOwn(Occur(a, e), push)
  {
    OccurLinks(a, e);
  }

  lemma OneStaysOwn(a: Air, es: seq<Event>, k: nat, push: nat)
    requires Inv(a.radio) && Causal(a, es) && k < |es| && OnlyOwn(At(a, es, k), push)
    ensures OnlyOwn(At(a, es, k + 1), push)
  {
    assert CanOccur(At(a, es, k), es[k]);
    OccurOwn(At(a, es, k), es[k], push);
  }

  lemma {:induction false} StaysOwn(a: Air, es: seq<Event>, k: nat, push: nat)
    requires OnlyOwn(a, push) && Causal(a, es) && k <= |es|
    ensures OnlyOwn(At(a, es, k), push)
  {
    if k > 0 {
      var j := k - 1;
      StaysOwn(a, es, j, push);
      OneStaysOwn(a, es, j, push);
    }
  }

  /** From a clear start every connection in the events is the push's own. */
  lemma ClearMeansOwn(a: Air, es: seq<Event>, e: Event)
    requires Inv(a.radio) && Clear(a) && Causal(a, es) && e in es && e.Notify?
    ensures e.link.push == a.pushes
  {
    var k :| 0 <= k < |es| && es[k] == e;
    assert CanOccur(At(a, es, k), es[k]);
    StaysOwn(a, es, k, a.pushes);
  }

  /** The push reports success although its own tag completed nothing. */
  ghost predicate Lies(a: Air, es: seq<Event>)
    requires Inv(a.radio)
  {
    Causal(a, es) && ReportsOk(At(a, es, |es|).radio) && !TagCompleted(a, es)
  }

  /** A completion on this connection, which is then reported disconnected. */
  function Leftover(link: Link): seq<Event> {
    [Notify(link, [0x05, 0x08]), Disconnect(link)]
  }

  lemma LeftoverLies(a: Air, link: Link)
    requires Inv(a.radio) && link in a.open
    ensures Lies(a, Leftover(link))
  {
    var es := Leftover(link);
    var d := Padded([0x05, 0x08]);
    assert d[0] == 0x05 && d[1] == 0x08;
    assert At(a, es, 0) == a;
    var a1 := At(a, es, 1);
    assert a1 == Occur(a, es[0]) && a1.radio == a.radio.(ok := true) && a1.open == a.open;
    assert At(a, es, 2) == Occur(a1, es[1]) && At(a, es, 2).radio == Cleanup(a1.radio);
    assert forall i: nat :: !DialsAt(a, es, i);
  }

  lemma LateConnectLies(a: Air, push: nat)
    requires Inv(a.radio) && push in a.dialling && a.open == {}
    ensures Lies(a, [Connect(0, Link(push, 0))] + Leftover(Link(push, 0)))
  {
    var link := Link(push, 0);
    var first := Connect(0, link);
    var es := [first] + Leftover(link);
    var a1 := Occur(a, first);
    LeftoverLies(a1, link);
    assert es == [first, Leftover(link)[0], Leftover(link)[1]];
    assert At(a, es, 0) == a && At(a, es, 1) == a1 == At(a1, Leftover(link), 0);
    assert At(a, es, 2) == Occur(a1, Leftover(link)[0]) == At(a1, Leftover(link), 1);
    assert At(a, es, 3) == Occur(At(a, es, 2), Leftover(link)[1]) == At(a1, Leftover(link), 2);
    assert CanOccur(a1, Leftover(link)[0]) && CanOccur(At(a1, Leftover(link), 1), Leftover(link)[1]);
    assert forall i: nat :: !DialsAt(a, es, i);
  }

  /**
   When success can be trusted: every success of a push is honest, whatever happens during its wait, if and
   only if no connection of an earlier push is open or being opened when it is set up.
   */
  lemma {:induction false} HonestIffClear(a0: Air, p: Setup)
    requires Numbered(a0) && |p.bits| < U32 && Begin(a0.radio, p).1
    ensures (forall es :: !Lies(Startup(a0, p), es)) <==> Clear(a0)
  {
    var a := Startup(a0, p);
    if Clear(a0) {
      forall es
        ensures !Lies(a, es)
      {
        if Causal(a, es) && ReportsOk(At(a, es, |es|).radio) {
          SuccessHasCompletion(a0, p, es);
          var e :| e in es && IsCompletion(e);
          ClearMeansOwn(a, es, e);
          assert OwnCompletion(a.pushes, e);
          OwnMeansCompleted(a, es);
        }
      }
    } else if a0.open != {} {
      var link :| link in a0.open;
      LeftoverLies(a, link);
    } else {
      var push :| push in a0.dialling;
      LateConnectLies(a, push);
    }
  }

  // ----- a push cut short -----

  /** The event comes with a connection, or a connection attempt, of another push. */
  predicate Foreign(e: Event, push: nat) {
    !e.Watchdog? && !e.Discovered? && !e.ScanComplete? && e.link.push != push
  }

  /** Event k ends the push and frees its image. */
  ghost predicate EndsAt(a: Air, es: seq<Event>, k: nat)
    requires Inv(a.radio)
  {
    && k < |es| && At(a, es, k).radio.pushing && !At(a, es, k + 1).radio.pushing
    && At(a, es, k + 1).radio.img.None?
  }

  /** The push is ended by an event of another push. */
  ghost predicate CutShort(a: Air, es: seq<Event>)
    requires Inv(a.radio)
  {
    Causal(a, es) && exists k: nat :: EndsAt(a, es, k) && Foreign(es[k], a.pushes)
  }

  lemma EndsAtOnce(a: Air, e: Event)
    requires Inv(a.radio) && a.radio.pushing && CanOccur(a, e) && Foreign(e, a.pushes)
    requires e.Disconnect? || (e.Connect? && e.status != 0)
    ensures CutShort(a, [e]) && At(a, [e], 1).radio == Cleanup(a.radio)
  {
    assert At(a, [e], 0) == a;
    assert At(a, [e], 1) == Occur(a, e);
    assert EndsAt(a, [e], 0);
  }

  /**
   An earlier connection can also end a good push, since no callback asks whose it is: whatever happens
   during its wait, a push is ended only by events of its own, timers and scanning included, if and only if
   no connection of an earlier push is open or being opened when it is set up.
   */
  lemma {:induction false} OwnEndIffClear(a0: Air, p: Setup)
    requires Numbered(a0) && |p.bits| < U32 && Begin(a0.radio, p).1
    ensures (forall es :: !CutShort(Startup(a0, p), es)) <==> Clear(a0)
  {
    var a := Startup(a0, p);
    if Clear(a0) {
      forall es
        ensures !CutShort(a, es)
      {
        if Causal(a, es) {
          forall k | 0 <= k < |es|
            ensures !Foreign(es[k], a.pushes)
          {
            assert CanOccur(At(a, es, k), es[k]);
            StaysOwn(a, es, k, a.pushes);
          }
        }
      }
    } else if a0.open != {} {
      var link :| link in a0.open;
      EndsAtOnce(a, Disconnect(link));
    } else {
      var push :| push in a0.dialling;
      EndsAtOnce(a, Connect(1, Link(push, 0)));
    }
  }

  // ----- a success that is not honest -----

  /** A push whose tag connected and then stalled until the watchdog gave up. */
  function Stalled(p: Setup, handle: u16): Turn
    requires p.target.Some?
  {
    Turn(p, [Discovered(p.target.value, true, true), Connect(0, Link(1, handle)), Watchdog], 3)
  }

  predicate GoodSetup(p: Setup) {
    p.ready && p.target.Some? && 0 < |p.bits| < U32 && p.mallocOk && p.inferOk && p.scanOk
  }

  lemma StalledLeavesOpen(p: Setup, handle: u16)
    requires GoodSetup(p) && handle != CONN_NONE
    ensures IsHistory(QUIET, [Stalled(p, handle)])
    ensures var a := AirAfter(QUIET, [Stalled(p, handle)]);
            a.open == {Link(1, handle)} && a.dialling == {} && a.pushes == 1 && !a.radio.pushing
    ensures var a := Startup(QUIET, p);
            Handle(At(a, Stalled(p, handle).es, 2).radio, Watchdog).1 == [Terminate(handle)]
  {
    var turn := Stalled(p, handle);
    var a, es := Startup(QUIET, p), turn.es;
    assert At(a, es, 0) == a && a.radio.pushing && !a.radio.found && CanOccur(a, es[0]);
    var a1 := At(a, es, 1);
    assert a1 == Occur(a, es[0]) && a1.radio == a.radio.(found := true) && a1.dialling == {1};
    var a2 := At(a, es, 2);
    assert a2 == Occur(a1, es[1]) && a2.radio == a1.radio.(conn := handle);
    assert a2.dialling == {} && a2.open == {Link(1, handle)};
    var a3 := At(a, es, 3);
    assert a3 == Occur(a2, es[2]) && a3.radio == Cleanup(a2.radio);
    assert [turn][1..] == [];
    assert IsHistory(a3, []) && AfterTurn(QUIET, turn) == a3;
  }

  /**
   A completion from an earlier transfer counts: the first push's tag connects and stalls, the watchdog asks
   to terminate its connection and gives up, and the second push is set up before that connection is down.
   The first tag's completion then makes the second push report success, although its own tag was never
   found, and nothing was sent to it.
   */
  lemma LateCompletionCounts(p0: Setup, p: Setup, handle: u16)
    requires GoodSetup(p0) && GoodSetup(p) && handle != CONN_NONE
    ensures IsHistory(QUIET, [Stalled(p0, handle)])
    ensures var a, es := Startup(AirAfter(QUIET, [Stalled(p0, handle)]), p), Leftover(Link(1, handle));
            && a.radio.pushing && Lies(a, es)
            && !a.radio.found && !At(a, es, 1).radio.found && !At(a, es, 2).radio.found
            && Handle(a.radio, es[0]).1 == [Terminate(CONN_NONE)]
            && Handle(At(a, es, 1).radio, es[1]).1 == []
  {
    StalledLeavesOpen(p0, handle);
    var a, es := Startup(AirAfter(QUIET, [Stalled(p0, handle)]), p), Leftover(Link(1, handle));
    LeftoverLies(a, Link(1, handle));
    var d := Padded([0x05, 0x08]);
    assert d[0] == 0x05 && d[1] == 0x08;
    assert At(a, es, 0) == a;
    assert At(a, es, 1) == Occur(a, es[0]) && At(a, es, 2) == Occur(At(a, es, 1), es[1]);
  }

  /** After the same history the second push ends, its image freed, once the first one's connection is down. */
  lemma LateDisconnectEnds(p0: Setup, p: Setup, handle: u16)
    requires GoodSetup(p0) && GoodSetup(p) && handle != CONN_NONE
    ensures IsHistory(QUIET, [Stalled(p0, handle)])
    ensures var a, es := Startup(AirAfter(QUIET, [Stalled(p0, handle)]), p), [Disconnect(Link(1, handle))];
            a.radio.pushing && CutShort(a, es) && !ReportsOk(At(a, es, 1).radio)
  {
    StalledLeavesOpen(p0, handle);
    var a := Startup(AirAfter(QUIET, [Stalled(p0, handle)]), p);
    EndsAtOnce(a, Disconnect(Link(1, handle)));
  }
}
