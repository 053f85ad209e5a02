/** One tag followed through everything that a bridge does: pushes to it, pushes to others, late events. */
module TagHistory {
  import opened Images
  import opened Options
  import opened Transfer
  import opened Connections
  import opened Reassembly

  /** The bridge answers that the push succeeded. */
  ghost predicate AnswersOk(a: Air, turn: Turn)
    requires Inv(a.radio) && |turn.p.bits| < U32 && turn.wait <= |turn.es|
  {
    Begin(a.radio, turn.p).1 && ReportsOk(At(Startup(a, turn.p), turn.es, turn.wait).radio)
  }

  /** The turn gets to push to the tag with this address. */
  predicate PushesTo(a: Air, p: Setup, addr: seq<byte>)
    requires |p.bits| < U32
  {
    Begin(a.radio, p).1 && p.target == Some(addr)
  }

  /** The tag, its last push being the given one, when a turn begins; a push to it finds no transfer begun. */
  function AtStart(a: Air, t: Tag, push: nat, addr: seq<byte>, p: Setup): (Tag, nat)
    requires Inv(a.radio) && |p.bits| < U32
  {
    if PushesTo(a, p, addr) then (t.(link := None, mem := [], got := {}), Startup(a, p).pushes) else (t, push)
  }

  /** The tag, and its last push, after a turn. */
  function Turned(a: Air, t: Tag, push: nat, addr: seq<byte>, turn: Turn): (Tag, nat)
    requires Inv(a.radio) && |turn.p.bits| < U32
  {
    var (t0, n) := AtStart(a, t, push, addr, turn.p);
    (TagAfter(Startup(a, turn.p).radio, t0, n, turn.es), n)
  }

  /** The tag with an address after a history of the bridge. */
  function Follow(a: Air, t: Tag, push: nat, addr: seq<byte>, turns: seq<Turn>): Tag
    requires Inv(a.radio) && IsHistory(a, turns)
    decreases |turns|
  {
    if turns == [] then t
    else
      var (t1, n) := Turned(a, t, push, addr, turns[0]);
      Follow(AfterTurn(a, turns[0]), t1, n, addr, turns[1..])
  }

  /** During a turn the tag completes only what it got whole. */
  ghost predicate CarefulTurn(a: Air, t: Tag, push: nat, addr: seq<byte>, turn: Turn)
    requires Inv(a.radio) && |turn.p.bits| < U32
  {
    var (t0, n) := AtStart(a, t, push, addr, turn.p);
    Careful(Startup(a, turn.p).radio, t0, n, turn.es)
  }

  ghost predicate AlwaysCareful(a: Air, t: Tag, push: nat, addr: seq<byte>, turns: seq<Turn>)
    requires Inv(a.radio) && IsHistory(a, turns)
    decreases |turns|
  {
    turns == [] ||
    var (t1, n) := Turned(a, t, push, addr, turns[0]);
    && CarefulTurn(a, t, push, addr, turns[0])
    && AlwaysCareful(AfterTurn(a, turns[0]), t1, n, addr, turns[1..])
  }

  // ----- the turn that pushes to the tag -----

  /** A push that found no earlier connection and answers "ok" leaves its bits on its tag's panel. */
  lemma {:induction false} OkShowsBits(a0: Air, turn: Turn, t: Tag)
    requires Inv(a0.radio) && Clear(a0) && |turn.p.bits| < U32 && turn.wait <= |turn.es|
    requires var a := Startup(a0, turn.p);
             Causal(a, turn.es) && t.mem == [] && Careful(a.radio, t, a.pushes, turn.es)
    requires AnswersOk(a0, turn)
    ensures var a := Startup(a0, turn.p); TagAfter(a.radio, t, a.pushes, turn.es).shown == Some(turn.p.bits)
  {
    var a := Startup(a0, turn.p);
    forall e | e in turn.es
      ensures FromOwn(e, a.pushes)
    {
      if e.Notify? {
        ClearMeansOwn(a, turn.es, e);
      }
    }
    AtIsAfter(a, turn.es, turn.wait);
    OkMeansShown(a0.radio, turn.p, a.pushes, t, turn.es, turn.wait);
  }

  // ----- later turns -----

  /** The push is over and has no connection left. */
  ghost predicate Over(a: Air, push: nat) {
    Inv(a.radio) && Unlinked(a, push) && push <= a.pushes && (push == a.pushes ==> !a.radio.pushing)
  }

  lemma HandleNeverStarts(s: Radio, e: Event)
    requires Inv(s) && !s.pushing
    ensures !Next(s, e).pushing && !Dials(s, e)
  {
  }

  lemma OverNext(a: Air, e: Event, push: nat)
    requires Over(a, push) && CanOccur(a, e)
    ensures Over(Occur(a, e), push)
  {
    OccurLinks(a, e);
    OccurRadio(a, e);
    if push == a.pushes {
      HandleNeverStarts(a.radio, e);
    }
  }

  lemma OverStep(a: Air, es: seq<Event>, k: nat, push: nat)
    requires Inv(a.radio) && Causal(a, es) && k < |es| && Over(At(a, es, k), push)
    ensures Over(At(a, es, k + 1), push)
  {
    assert CanOccur(At(a, es, k), es[k]);
    OverNext(At(a, es, k), es[k], push);
  }

  lemma {:induction false} OverStays(a: Air, es: seq<Event>, k: nat, push: nat)
    requires Over(a, push) && Causal(a, es) && k <= |es|
    ensures Over(At(a, es, k), push)
  {
    if k > 0 {
      var j := k - 1;
      OverStays(a, es, j, push);
      OverStep(a, es, j, push);
    }
  }

  lemma OverIsSilent(a: Air, es: seq<Event>, e: Event, push: nat)
    requires Over(a, push) && Causal(a, es) && e in es && e.Notify?
    ensures e.link.push != push
  {
    var k :| 0 <= k < |es| && es[k] == e;
    assert CanOccur(At(a, es, k), es[k]);
    OverStays(a, es, k, push);
  }

  lemma OverAtSetup(a: Air, p: Setup, push: nat)
    requires Over(a, push) && |p.bits| < U32
    ensures Over(Startup(a, p), push)
  {
  }

  lemma {:induction false} ReceivingShowsNothing(t: Tag, sent: seq<Sent>)
    ensures ReceivesAll(t, sent).shown == t.shown
    decreases |sent|
  {
    if sent != [] {
      ReceivingShowsNothing(Receives(t, sent[0]), sent[1..]);
    }
  }

  lemma {:induction false} SilentTagShowsSame(s: Radio, t: Tag, push: nat, es: seq<Event>)
    requires Inv(s) && forall e | e in es && e.Notify? :: e.link.push != push
    ensures TagAfter(s, t, push, es).shown == t.shown
    decreases |es|
  {
    if es != [] {
      assert es[0] in es && forall e | e in es[1..] :: e in es;
      ReceivingShowsNothing(Acts(t, push, es[0]), Handle(s, es[0]).1);
      SilentTagShowsSame(Next(s, es[0]), TagNext(s, t, push, es[0]), push, es[1..]);
    }
  }

  lemma {:induction false} OthersLeaveIt(a: Air, t: Tag, push: nat, addr: seq<byte>, turns: seq<Turn>)
    requires Over(a, push) && IsHistory(a, turns)
    requires forall turn | turn in turns :: turn.p.target != Some(addr)
    ensures Follow(a, t, push, addr, turns).shown == t.shown
    decreases |turns|
  {
    if turns != [] {
      var a1, es := Startup(a, turns[0].p), turns[0].es;
      assert turns[0] in turns && forall turn | turn in turns[1..] :: turn in turns;
      OverAtSetup(a, turns[0].p, push);
      forall e | e in es && e.Notify?
        ensures e.link.push != push
      {
        OverIsSilent(a1, es, e, push);
      }
      SilentTagShowsSame(a1.radio, t, push, es);
      OverStays(a1, es, |es|, push);
      OthersLeaveIt(AfterTurn(a, turns[0]), TagAfter(a1.radio, t, push, es), push, addr, turns[1..]);
    }
  }

  // ----- the whole history -----

  /** Turn k pushes to the tag, with no connection left before it and after it, and no later turn does. */
  ghost predicate LastPushTo(a: Air, addr: seq<byte>, turns: seq<Turn>, k: nat)
    requires Inv(a.radio) && IsHistory(a, turns)
  {
    && k < |turns| && turns[k].p.target == Some(addr)
    && Clear(AirBefore(a, turns, k)) && (k + 1 < |turns| ==> Clear(AirBefore(a, turns, k + 1)))
    && forall j | k < j < |turns| :: turns[j].p.target != Some(addr)
  }

  lemma {:induction false} NeverRestarts(a: Air, es: seq<Event>, j: nat, k: nat)
    requires Inv(a.radio) && j <= k <= |es| && !At(a, es, j).radio.pushing
    ensures !At(a, es, k).radio.pushing
    decreases k
  {
    if j < k {
      NeverRestarts(a, es, j, k - 1);
      HandleNeverStarts(At(a, es, k - 1).radio, es[k - 1]);
      OccurRadio(At(a, es, k - 1), es[k - 1]);
    }
  }

  lemma OverAfterTurn(a: Air, turn: Turn)
    requires Inv(a.radio) && |turn.p.bits| < U32 && turn.wait <= |turn.es|
    requires AnswersOk(a, turn) && Clear(AfterTurn(a, turn))
    ensures Over(AfterTurn(a, turn), Startup(a, turn.p).pushes)
  {
    var a1 := Startup(a, turn.p);
    NeverRestarts(a1, turn.es, turn.wait, |turn.es|);
    SameTarget(a1, turn.es, |turn.es|);
  }

  lemma LastPushLater(a: Air, addr: seq<byte>, turns: seq<Turn>, k: nat)
    requires Inv(a.radio) && IsHistory(a, turns) && LastPushTo(a, addr, turns, k) && k > 0
    ensures LastPushTo(AfterTurn(a, turns[0]), addr, turns[1..], k - 1)
    ensures AirBefore(AfterTurn(a, turns[0]), turns[1..], k - 1) == AirBefore(a, turns, k)
  {
    var a1, rest := AfterTurn(a, turns[0]), turns[1..];
    assert AirBefore(a, turns, k) == AirBefore(a1, rest, k - 1);
    if k + 1 < |turns| {
      assert AirBefore(a, turns, k + 1) == AirBefore(a1, rest, k);
    }
  }

  lemma FollowOn(a: Air, t: Tag, push: nat, addr: seq<byte>, turns: seq<Turn>)
    requires Inv(a.radio) && IsHistory(a, turns) && turns != []
    ensures |turns[0].p.bits| < U32 && IsHistory(AfterTurn(a, turns[0]), turns[1..])
    ensures var (t1, n) := Turned(a, t, push, addr, turns[0]);
            && Follow(a, t, push, addr, turns) == Follow(AfterTurn(a, turns[0]), t1, n, addr, turns[1..])
            && (AlwaysCareful(a, t, push, addr, turns) ==>
                  AlwaysCareful(AfterTurn(a, turns[0]), t1, n, addr, turns[1..]))
  {
  }

  lemma FirstPushShows(a: Air, t: Tag, push: nat, addr: seq<byte>, turns: seq<Turn>)
    requires Inv(a.radio) && IsHistory(a, turns) && LastPushTo(a, addr, turns, 0)
    requires AlwaysCareful(a, t, push, addr, turns) && AnswersOk(a, turns[0])
    ensures Follow(a, t, push, addr, turns).shown == Some(turns[0].p.bits)
  {
    var turn := turns[0];
    var a1, a2 := Startup(a, turn.p), AfterTurn(a, turn);
    var (t0, n) := AtStart(a, t, push, addr, turn.p);
    assert n == a1.pushes && AirBefore(a, turns, 0) == a;
    OkShowsBits(a, turn, t0);
    if |turns| > 1 {
      assert AirBefore(a, turns, 1) == AirBefore(a2, turns[1..], 0) == a2;
      OverAfterTurn(a, turn);
      assert forall later | later in turns[1..] :: later.p.target != Some(addr);
      OthersLeaveIt(a2, TagAfter(a1.radio, t0, n, turn.es), n, addr, turns[1..]);
    }
  }

  /**
   What a tag shows in the end: through any history of the bridge, if the last push to a careful tag answered
   "ok" and no connection was left over when it and the next push were set up, the tag shows the bits of
   that push, whatever was pushed to others since.
   */
  lemma {:induction false} LastPushShows(a: Air, t: Tag, push: nat, addr: seq<byte>, turns: seq<Turn>, k: nat)
    requires Inv(a.radio) && IsHistory(a, turns) && LastPushTo(a, addr, turns, k)
    requires AlwaysCareful(a, t, push, addr, turns)
    requires |turns[k].p.bits| < U32 && turns[k].wait <= |turns[k].es| && AnswersOk(AirBefore(a, turns, k), turns[k])
    ensures Follow(a, t, push, addr, turns).shown == Some(turns[k].p.bits)
    decreases k
  {
    if k == 0 {
      FirstPushShows(a, t, push, addr, turns);
    } else {
      FollowOn(a, t, push, addr, turns);
      var (t1, n) := Turned(a, t, push, addr, turns[0]);
      LastPushLater(a, addr, turns, k);
      LastPushShows(AfterTurn(a, turns[0]), t1, n, addr, turns[1..], k - 1);
    }
  }
}
