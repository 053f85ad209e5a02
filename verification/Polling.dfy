/** The catalog poller: its overlap window, and what a change of the catalog does to the bindings. */
module Polling {
  import opened Options
  import opened PushQueues
  import opened Catalog
  import opened Server
  import QueueRuns

  // ----- time and the catalog source -----

  /** Times are nanoseconds; the catalog stamps and compares whole milliseconds. */
  const MILLI: int := 1_000_000
  const OVERLAP: int := 30_000 * MILLI

  function Milli(t: int): int {
    t / MILLI
  }

  /** A modification of an item at a time. */
  datatype Mod = Mod(item: Item, at: int)

  /** The last modification of an item up to a time, in a history of modifications. */
  function LastMod(mods: seq<Mod>, id: string, now: int): Option<Mod> {
    if mods == [] then None
    else
      var m, r := mods[|mods| - 1], LastMod(mods[..|mods| - 1], id, now);
      if m.item.id == id && m.at <= now && (r.None? || r.value.at <= m.at) then Some(m) else r
  }

  /** What is found is a modification of that item no later than that time. */
  lemma {:induction false} LastModIsOne(mods: seq<Mod>, id: string, now: int) returns (k: nat)
    ensures var r := LastMod(mods, id, now);
            r.Some? ==> k < |mods| && mods[k] == r.value && r.value.item.id == id && r.value.at <= now
  {
    k := 0;
    if mods != [] {
      k := LastModIsOne(mods[..|mods| - 1], id, now);
      if LastMod(mods, id, now) == Some(mods[|mods| - 1]) {
        k := |mods| - 1;
      }
    }
  }

  /** No later modification is overlooked: the stamp an item carries is at least that of any modification so far. */
  lemma {:induction false} LastModIsLatest(mods: seq<Mod>, id: string, now: int, k: nat)
    requires k < |mods| && mods[k].item.id == id && mods[k].at <= now
    ensures LastMod(mods, id, now).Some? && mods[k].at <= LastMod(mods, id, now).value.at <= now
  {
    var _ := LastModIsOne(mods, id, now);
    if k < |mods| - 1 {
      LastModIsLatest(mods[..|mods| - 1], id, now, k);
    }
  }

  /** The item as the catalog has it at a time; None before the first listing. */
  function CatalogAt(mods: seq<Mod>, listed: Option<int>, id: string): Option<Item> {
    var m := if listed.Some? then LastMod(mods, id, listed.value) else None;
    if m.Some? then Some(m.value.item) else None
  }

  /** The source's answer at a time: the items whose current stamp is not before `since`. */
  predicate Reports(mods: seq<Mod>, snap: int, since: int, id: string) {
    var m := LastMod(mods, id, snap);
    m.Some? && Milli(m.value.at) >= Milli(since)
  }

  // ----- the ticks -----

  /** A tick's fetch: it failed, or it saw the catalog as of `snap` and the poller then read the clock as `now`. */
  datatype Fetch = Failed | Fetched(snap: int, now: int)

  /** One turn of the poller's loop: its fetch, and when the listing of its reload was taken, if that succeeds. */
  datatype Round = Round(fetch: Fetch, reload: Option<int>)

  /** The poller's clock, when the cached listing was taken, and the binding rows. */
  datatype Station = Station(lastPoll: int, cached: Option<int>, rows: map<string, Binding>)

  /** The tick reports the item. */
  predicate Reported(mods: seq<Mod>, st: Station, f: Fetch, id: string) {
    f.Fetched? && Reports(mods, f.snap, st.lastPoll - OVERLAP, id)
  }

  ghost predicate Reloads(mods: seq<Mod>, st: Station, r: Round) {
    r.reload.Some? && exists id :: Reported(mods, st, r.fetch, id)
  }

  /** A row brought up to date with the cached listing. */
  function Current(mods: seq<Mod>, cached: Option<int>, b: Binding): Binding {
    var it := CatalogAt(mods, cached, b.itemID);
    if it.Some? && it.value.name != "" then b.(itemName := it.value.name, priceCents := it.value.price) else b
  }

  ghost function NextStation(mods: seq<Mod>, st: Station, r: Round): Station {
    var cached := if Reloads(mods, st, r) then r.reload else st.cached;
    Station(if r.fetch.Fetched? then r.fetch.now else st.lastPoll, cached,
            map m | m in st.rows ::
              if Reported(mods, st, r.fetch, st.rows[m].itemID) then Current(mods, cached, st.rows[m]) else st.rows[m])
  }

  ghost function After(mods: seq<Mod>, st: Station, rounds: seq<Round>): Station {
    if rounds == [] then st else NextStation(mods, After(mods, st, rounds[..|rounds| - 1]), rounds[|rounds| - 1])
  }

  lemma AfterNext(mods: seq<Mod>, st: Station, rounds: seq<Round>, k: nat)
    requires k < |rounds|
    ensures After(mods, st, rounds[..k + 1]) == NextStation(mods, After(mods, st, rounds[..k]), rounds[k])
  {
    assert rounds[..k + 1][..k] == rounds[..k];
  }

  predicate Prompt(f: Fetch) {
    f.Fetched? ==> f.now - f.snap <= OVERLAP
  }

  /** No successful tick before round k has seen time t, and each read its clock promptly. */
  predicate NotSeen(rounds: seq<Round>, k: nat, t: int)
    requires k <= |rounds|
  {
    forall j | 0 <= j < k :: Prompt(rounds[j].fetch) && (rounds[j].fetch.Fetched? ==> rounds[j].fetch.snap < t)
  }

  /** Unless a successful tick saw t before, the window of the next tick still reaches back to t. */
  lemma {:induction false} WindowReaches(mods: seq<Mod>, st: Station, rounds: seq<Round>, k: nat, t: int)
    requires k <= |rounds| && st.lastPoll - OVERLAP <= t && NotSeen(rounds, k, t)
    ensures After(mods, st, rounds[..k]).lastPoll - OVERLAP <= t
    decreases k
  {
    if k > 0 {
      AfterNext(mods, st, rounds, k - 1);
      WindowReaches(mods, st, rounds, k - 1, t);
    }
  }

  /** A tick that is the first to see a time, in a run whose clock started no later than 30 s after it. */
  predicate FirstToSee(st: Station, rounds: seq<Round>, k: nat, t: int)
    requires k < |rounds|
  {
    && st.lastPoll - OVERLAP <= t && NotSeen(rounds, k, t)
    && rounds[k].fetch.Fetched? && t <= rounds[k].fetch.snap
  }

  /**
   The poller misses nothing: when every successful fetch updates `lastPoll` at most 30 s after its
   snapshot, a modification stamped no earlier than 30 s before the initial `lastPoll` is reported by the
   first successful tick whose snapshot is not before it, whatever ticks failed in between.
   */
  lemma NothingMissed(mods: seq<Mod>, st: Station, rounds: seq<Round>, k: nat, i: nat)
    requires k < |rounds| && i < |mods| && FirstToSee(st, rounds, k, mods[i].at)
    ensures Reported(mods, After(mods, st, rounds[..k]), rounds[k].fetch, mods[i].item.id)
  {
    WindowReaches(mods, st, rounds, k, mods[i].at);
    LastModIsLatest(mods, mods[i].item.id, rounds[k].fetch.snap, i);
  }

  lemma ReportsOne(it: Item, at: int, snap: int, since: int)
    ensures Reports([Mod(it, at)], snap, since, it.id) <==> at <= snap && Milli(since) <= Milli(at)
  {
    var mods := [Mod(it, at)];
    assert mods[..|mods| - 1] == [];
    assert LastMod(mods, it.id, snap) == if at <= snap then Some(mods[0]) else None;
  }

  /**
   The 30 s bound is exact: of two successful ticks the second reports every modification made after the
   first snapshot and not after the second one, if and only if the first tick read the clock, in whole
   milliseconds, no later than 30 s past the nanosecond that follows its snapshot, or there is no time
   between the snapshots.
   */
  lemma OverlapIsExact(it: Item, first: Fetch, second: Fetch)
    requires first.Fetched? && second.Fetched?
    ensures (forall at | first.snap < at <= second.snap ::
               Reports([Mod(it, at)], second.snap, first.now - 30_000_000_000, it.id))
       <==> first.now / 1_000_000 - 30_000 <= (first.snap + 1) / 1_000_000 || second.snap <= first.snap
  {
    assert Milli(first.now - OVERLAP) == Milli(first.now) - 30_000;
    forall at
      ensures Reports([Mod(it, at)], second.snap, first.now - OVERLAP, it.id)
         <==> at <= second.snap && Milli(first.now) - 30_000 <= Milli(at)
    {
      ReportsOne(it, at, second.snap, first.now - OVERLAP);
    }
    if first.snap < second.snap {
      assert Reports([Mod(it, first.snap + 1)], second.snap, first.now - OVERLAP, it.id)
        <==> Milli(first.now) - 30_000 <= Milli(first.snap + 1);
    }
  }

  // ----- which changes reach the rows -----

  /** Listings are taken one after the other. */
  predicate InSequence(st: Station, rounds: seq<Round>) {
    && (forall k | 0 <= k < |rounds| && rounds[k].reload.Some? && st.cached.Some? ::
          st.cached.value <= rounds[k].reload.value)
    && (forall j, k | 0 <= j < k < |rounds| && rounds[j].reload.Some? && rounds[k].reload.Some? ::
          rounds[j].reload.value <= rounds[k].reload.value)
  }

  /** The cached listing is not older than a time. */
  predicate CachedSince(st: Station, t: int) {
    st.cached.Some? && t <= st.cached.value
  }

  lemma {:induction false} CachedSinceStays(mods: seq<Mod>, st: Station, rounds: seq<Round>, k: nat, n: nat, t: int)
    requires k <= n <= |rounds| && InSequence(st, rounds)
    ensures var c := After(mods, st, rounds[..n]).cached;
            c.Some? ==> c == st.cached || exists j | 0 <= j < n :: rounds[j].reload == c
    ensures CachedSince(After(mods, st, rounds[..k]), t) ==> CachedSince(After(mods, st, rounds[..n]), t)
    decreases n
  {
    if n > 0 {
      AfterNext(mods, st, rounds, n - 1);
      CachedSinceStays(mods, st, rounds, if k < n then k else n - 1, n - 1, t);
    }
  }

  /** The last modification of its item, with a name, and a name and price that no earlier one had. */
  ghost predicate Newest(mods: seq<Mod>, i: nat) {
    && i < |mods| && mods[i].item.name != ""
    && forall j | 0 <= j < |mods| && j != i && mods[j].item.id == mods[i].item.id ::
         mods[j].at < mods[i].at && !SameText(mods[j].item, mods[i].item)
  }

  predicate SameText(a: Item, b: Item) {
    a.name == b.name && a.price == b.price
  }

  /** The row shows the item's name and price. */
  predicate Carries(b: Binding, it: Item) {
    b.itemName == it.name && b.priceCents == it.price
  }

  lemma NewestListed(mods: seq<Mod>, i: nat, listed: Option<int>)
    requires Newest(mods, i)
    ensures var it := CatalogAt(mods, listed, mods[i].item.id);
            if listed.Some? && mods[i].at <= listed.value then it == Some(mods[i].item)
            else it.Some? ==> !SameText(it.value, mods[i].item)
  {
    if listed.Some? {
      var k := LastModIsOne(mods, mods[i].item.id, listed.value);
      if mods[i].at <= listed.value {
        LastModIsLatest(mods, mods[i].item.id, listed.value, i);
      }
    }
  }

  /** The k-th round reports the item and leaves a listing cached that is not older than its modification. */
  ghost predicate Reaches(mods: seq<Mod>, st: Station, rounds: seq<Round>, k: nat, i: nat)
    requires k < |rounds| && i < |mods|
  {
    && Reported(mods, After(mods, st, rounds[..k]), rounds[k].fetch, mods[i].item.id)
    && CachedSince(After(mods, st, rounds[..k + 1]), mods[i].at)
  }

  lemma {:induction false} RowsStayBound(mods: seq<Mod>, st: Station, rounds: seq<Round>, m: string)
    requires m in st.rows
    ensures var rows := After(mods, st, rounds).rows;
            rows.Keys == st.rows.Keys && rows[m] == st.rows[m].(itemName := rows[m].itemName,
                                                                priceCents := rows[m].priceCents)
  {
    if rounds != [] {
      RowsStayBound(mods, st, rounds[..|rounds| - 1], m);
    }
  }

  /** A row bound to the item of a newest modification. */
  predicate Bound(mods: seq<Mod>, st: Station, i: nat, m: string)
    requires i < |mods|
  {
    m in st.rows && st.rows[m].itemID == mods[i].item.id
  }

  /** One round: a reported row carries the modification exactly if the cached listing has it or it did before. */
  lemma RowInRound(mods: seq<Mod>, st: Station, rounds: seq<Round>, k: nat, i: nat, m: string)
    requires k < |rounds| && Newest(mods, i) && Bound(mods, st, i, m)
    ensures var before, now := After(mods, st, rounds[..k]), After(mods, st, rounds[..k + 1]);
            && Bound(mods, before, i, m) && Bound(mods, now, i, m)
            && (Reaches(mods, st, rounds, k, i) ==> Carries(now.rows[m], mods[i].item))
            && (!Reported(mods, before, rounds[k].fetch, mods[i].item.id) ==> now.rows[m] == before.rows[m])
            && (CachedSince(now, mods[i].at) && Carries(before.rows[m], mods[i].item) ==>
                  Carries(now.rows[m], mods[i].item))
            && (!CachedSince(now, mods[i].at) && !Carries(before.rows[m], mods[i].item) ==>
                  !Carries(now.rows[m], mods[i].item))
  {
    RowsStayBound(mods, st, rounds[..k], m);
    RowsStayBound(mods, st, rounds[..k + 1], m);
    AfterNext(mods, st, rounds, k);
    NewestListed(mods, i, After(mods, st, rounds[..k + 1]).cached);
  }

  /** Once a round has reached its rows, a newest modification stays there. */
  lemma {:induction false} ReachedStays(mods: seq<Mod>, st: Station, rounds: seq<Round>, k: nat, n: nat,
                                        i: nat, m: string)
    requires k < n <= |rounds| && InSequence(st, rounds) && Newest(mods, i) && Bound(mods, st, i, m)
    requires Reaches(mods, st, rounds, k, i)
    ensures Bound(mods, After(mods, st, rounds[..n]), i, m)
    ensures Carries(After(mods, st, rounds[..n]).rows[m], mods[i].item)
    decreases n
  {
    RowInRound(mods, st, rounds, n - 1, i, m);
    if k < n - 1 {
      CachedSinceStays(mods, st, rounds, k + 1, n, mods[i].at);
      ReachedStays(mods, st, rounds, k, n - 1, i, m);
    }
  }

  /** Until a round reaches its rows, none of them carries it. */
  lemma {:induction false} UnreachedStays(mods: seq<Mod>, st: Station, rounds: seq<Round>, n: nat, i: nat, m: string)
    requires n <= |rounds| && Newest(mods, i) && Bound(mods, st, i, m) && !Carries(st.rows[m], mods[i].item)
    requires forall k | 0 <= k < n :: !Reaches(mods, st, rounds, k, i)
    ensures Bound(mods, After(mods, st, rounds[..n]), i, m)
    ensures !Carries(After(mods, st, rounds[..n]).rows[m], mods[i].item)
    decreases n
  {
    if n > 0 {
      assert !Reaches(mods, st, rounds, n - 1, i);
      RowInRound(mods, st, rounds, n - 1, i, m);
      UnreachedStays(mods, st, rounds, n - 1, i, m);
    }
  }

  /**
   Which changes arrive, exactly: after any run of rounds, with fetches and reloads failing as they may, a
   bound row that did not show a newest modification before shows it if and only if some round reported the
   item while the cached listing, reloaded in that round or an earlier one, was not older than it.
   */
  lemma {:induction false} ChangeArrivesIff(mods: seq<Mod>, st: Station, rounds: seq<Round>, i: nat, m: string)
    requires InSequence(st, rounds) && Newest(mods, i) && Bound(mods, st, i, m)
    requires !Carries(st.rows[m], mods[i].item)
    ensures var rows := After(mods, st, rounds).rows;
            && m in rows
            && (Carries(rows[m], mods[i].item) <==> exists k | 0 <= k < |rounds| :: Reaches(mods, st, rounds, k, i))
  {
    assert rounds[..|rounds|] == rounds;
    if k :| 0 <= k < |rounds| && Reaches(mods, st, rounds, k, i) {
      ReachedStays(mods, st, rounds, k, |rounds|, i, m);
    } else {
      UnreachedStays(mods, st, rounds, |rounds|, i, m);
    }
  }

  /** Round k reports something and reloads the cache with a listing not older than a time. */
  ghost predicate ReloadedSince(mods: seq<Mod>, st: Station, rounds: seq<Round>, k: nat, t: int)
    requires k < |rounds|
  {
    Reloads(mods, After(mods, st, rounds[..k]), rounds[k]) && t <= rounds[k].reload.value
  }

  /** The cached listing is recent exactly if the first one was, or some round that reports anything reloaded it. */
  lemma {:induction false} CachedSinceIff(mods: seq<Mod>, st: Station, rounds: seq<Round>, n: nat, t: int)
    requires n <= |rounds| && InSequence(st, rounds)
    ensures CachedSince(After(mods, st, rounds[..n]), t) <==>
              CachedSince(st, t) || exists k | 0 <= k < n :: ReloadedSince(mods, st, rounds, k, t)
    decreases n
  {
    if n > 0 {
      AfterNext(mods, st, rounds, n - 1);
      var before := After(mods, st, rounds[..n - 1]);
      CachedSinceIff(mods, st, rounds, n - 1, t);
      CachedSinceStays(mods, st, rounds, n - 1, n, t);
      if ReloadedSince(mods, st, rounds, n - 1, t) {
        assert After(mods, st, rounds[..n]).cached == rounds[n - 1].reload;
      } else {
        assert forall k | 0 <= k < n && ReloadedSince(mods, st, rounds, k, t) :: k < n - 1;
      }
    }
  }

  /** The only modification of its item. */
  ghost predicate Once(mods: seq<Mod>, i: nat) {
    i < |mods| && forall j | 0 <= j < |mods| && j != i :: mods[j].item.id != mods[i].item.id
  }

  /** When an item was modified once, a tick reports it exactly if its window reaches back to that modification. */
  lemma ReportedOnce(mods: seq<Mod>, st: Station, f: Fetch, i: nat)
    requires Once(mods, i)
    ensures Reported(mods, st, f, mods[i].item.id) <==>
              f.Fetched? && mods[i].at <= f.snap && Milli(st.lastPoll) - 30_000 <= Milli(mods[i].at)
  {
    if f.Fetched? {
      var k := LastModIsOne(mods, mods[i].item.id, f.snap);
      if mods[i].at <= f.snap {
        LastModIsLatest(mods, mods[i].item.id, f.snap, i);
      }
    }
  }

  /** The window of round k, whose fetch succeeds, reaches back to a time that its snapshot has seen. */
  ghost predicate InWindow(mods: seq<Mod>, st: Station, rounds: seq<Round>, k: nat, t: int)
    requires k < |rounds|
  {
    var f := rounds[k].fetch;
    f.Fetched? && t <= f.snap && Milli(After(mods, st, rounds[..k]).lastPoll) - 30_000 <= Milli(t)
  }

  /** The window of round k reaches back to a time, and a listing not older than it is cached by then. */
  ghost predicate InTime(mods: seq<Mod>, st: Station, rounds: seq<Round>, k: nat, t: int)
    requires k < |rounds|
  {
    && InWindow(mods, st, rounds, k, t)
    && (CachedSince(st, t) || exists j | 0 <= j <= k :: ReloadedSince(mods, st, rounds, j, t))
  }

  /**
   The same in times alone, for an item modified once: its rows show the modification if and only if it was
   in the window of some round by which the cache had been reloaded from a listing not older than it.
   */
  lemma {:induction false} OnceModifiedArrivesIff(mods: seq<Mod>, st: Station, rounds: seq<Round>, i: nat, m: string)
    requires Once(mods, i) && mods[i].item.name != ""
    requires InSequence(st, rounds) && Bound(mods, st, i, m) && !Carries(st.rows[m], mods[i].item)
    ensures var rows := After(mods, st, rounds).rows;
            && m in rows
            && (Carries(rows[m], mods[i].item) <==>
                exists k | 0 <= k < |rounds| :: InTime(mods, st, rounds, k, mods[i].at))
  {
    ChangeArrivesIff(mods, st, rounds, i, m);
    forall k | 0 <= k < |rounds|
      ensures Reaches(mods, st, rounds, k, i) <==> InTime(mods, st, rounds, k, mods[i].at)
    {
      ReportedOnce(mods, After(mods, st, rounds[..k]), rounds[k].fetch, i);
      CachedSinceIff(mods, st, rounds, k + 1, mods[i].at);
    }
  }

  /**
   From a change of the catalog to the rows: when the first successful tick to see a newest modification
   also reloads the cache, every row bound to its item shows it from then on.
   */
  lemma {:induction false} ChangeReachesRows(mods: seq<Mod>, st: Station, rounds: seq<Round>, k: nat, i: nat, m: string)
    requires k < |rounds| && InSequence(st, rounds) && Newest(mods, i) && Bound(mods, st, i, m)
    requires FirstToSee(st, rounds, k, mods[i].at)
    requires rounds[k].reload.Some? && mods[i].at <= rounds[k].reload.value
    ensures var rows := After(mods, st, rounds).rows; m in rows && Carries(rows[m], mods[i].item)
  {
    NothingMissed(mods, st, rounds, k, i);
    AfterNext(mods, st, rounds, k);
    assert Reaches(mods, st, rounds, k, i);
    ReachedStays(mods, st, rounds, k, |rounds|, i, m);
    assert rounds[..|rounds|] == rounds;
  }

  // ----- a failed reload -----

  const MINUTE: int := 2 * OVERLAP

  /** A tick a minute after the item changed, with a reload that fails. */
  function Unlucky(at: int): Round {
    Round(Fetched(at + MINUTE, at + MINUTE), None)
  }

  /**
   A failed reload is not made up for: the tick after the only item's modification reports it, the reload
   fails, and `lastPoll` moves on, so that the row never shows the modification, however many fetches and
   reloads succeed later.
   */
  lemma FailedReloadIsLost(it: Item, at: int, cached: Option<int>, b: Binding, later: seq<Round>)
    requires it.name != "" && b.itemID == it.id && !Carries(b, it)
    requires forall r | r in later && r.fetch.Fetched? :: at + MINUTE <= r.fetch.now
    requires var st := Station(at, cached, map[b.mac := b]);
             !CachedSince(st, at) && InSequence(st, [Unlucky(at)] + later)
    ensures var st := Station(at, cached, map[b.mac := b]);
            && Reported([Mod(it, at)], st, Unlucky(at).fetch, it.id)
            && var rows := After([Mod(it, at)], st, [Unlucky(at)] + later).rows;
               b.mac in rows && !Carries(rows[b.mac], it)
  {
    var mods, st, rounds := [Mod(it, at)], Station(at, cached, map[b.mac := b]), [Unlucky(at)] + later;
    forall k | 0 <= k < |rounds|
      ensures !Reaches(mods, st, rounds, k, 0)
    {
      AfterNext(mods, st, rounds, k);
      if k == 0 {
        assert rounds[..0] == [] && rounds[0] == Unlucky(at);
      } else {
        LaterTicksMiss(it, at, st, rounds, k);
      }
    }
    ReportedOnce(mods, st, Unlucky(at).fetch, 0);
    ChangeArrivesIff(mods, st, rounds, 0, b.mac);
  }

  lemma LaterTicksMiss(it: Item, at: int, st: Station, rounds: seq<Round>, k: nat)
    requires 0 < k < |rounds| && rounds[0] == Unlucky(at)
    requires forall r | r in rounds && r.fetch.Fetched? :: at + MINUTE <= r.fetch.now
    ensures !Reported([Mod(it, at)], After([Mod(it, at)], st, rounds[..k]), rounds[k].fetch, it.id)
  {
    var mods := [Mod(it, at)];
    ClockAfterFirst(mods, st, rounds, k, at + MINUTE);
    ReportedOnce(mods, After(mods, st, rounds[..k]), rounds[k].fetch, 0);
    MinuteApart(at, After(mods, st, rounds[..k]).lastPoll);
  }

  lemma MinuteApart(at: int, now: int)
    ensures at + MINUTE <= now ==> Milli(at) < Milli(now) - 30_000
  {
  }

  lemma {:induction false} ClockAfterFirst(mods: seq<Mod>, st: Station, rounds: seq<Round>, k: nat, bound: int)
    requires 0 < k <= |rounds| && rounds[0].fetch.Fetched?
    requires forall r | r in rounds && r.fetch.Fetched? :: bound <= r.fetch.now
    ensures bound <= After(mods, st, rounds[..k]).lastPoll
    decreases k
  {
    AfterNext(mods, st, rounds, k - 1);
    if k > 1 {
      ClockAfterFirst(mods, st, rounds, k - 1, bound);
    } else {
      assert rounds[..0] == [];
    }
    assert rounds[k - 1] in rounds;
  }

  // ----- one tick of the poller -----

  class Poller {
    const cache: Cache
    var lastPoll: int

    constructor (cache: Cache, lastPoll: int)
      ensures this.cache == cache && this.lastPoll == lastPoll
    {
      this.cache, this.lastPoll := cache, lastPoll;
    }

    /** The initial load: the catalog is cached if the source lists it, and polling starts from now either way. */
    method Load(listed: Option<seq<Item>>, now: int)
      requires cache.Valid()
      modifies this`lastPoll, cache
      ensures cache.Valid() && lastPoll == now
      ensures cache.items == if listed.Some? then listed.value else old(cache.items)
    {
      if listed.Some? {
        cache.Replace(listed.value);
      }
      lastPoll := now;
    }

    /**
     A tick, given what the source answers to each `since` (None on error), the clock reading after the
     answer, and the outcome of the reload.  The result is the argument of `OnChange`, if it is called.
     */
    method Tick(source: int -> Option<seq<Item>>, now: int, reload: Option<seq<Item>>)
      returns (changed: Option<seq<string>>)
      requires cache.Valid()
      modifies this`lastPoll, cache
      ensures cache.Valid()
      ensures var answer := source(old(lastPoll) - 30_000_000_000);
              && lastPoll == (if answer.Some? then now else old(lastPoll))
              && (changed.Some? <==> answer.Some? && answer.value != [])
              && (changed.Some? ==>
                    && |changed.value| == |answer.value|
                    && forall k | 0 <= k < |changed.value| :: changed.value[k] == answer.value[k].id)
              && cache.items == if changed.Some? && reload.Some? then reload.value else old(cache.items)
    {
      var since := lastPoll - OVERLAP;
      var answer := source(since);
      if answer.None? {
        return None;
      }
      lastPoll := now;
      if |answer.value| == 0 {
        return None;
      }
      if reload.Some? {
        cache.Replace(reload.value);
      }
      var ids := [];
      for k := 0 to |answer.value|
        invariant |ids| == k
        invariant forall j | 0 <= j < k :: ids[j] == answer.value[j].id
      {
        ids := ids + [answer.value[k].id];
      }
      changed := Some(ids);
    }
  }

  /** The items in a source's answer; none if it failed. */
  ghost function Answered(answer: Option<seq<Item>>): set<string> {
    if answer.None? then {} else set it | it in answer.value :: it.id
  }

  /** What a tick meets: the source's answer to each `since`, the clock after it, and the reload's outcome. */
  datatype Input = Input(source: int -> Option<seq<Item>>, now: int, reload: Option<seq<Item>>)

  predicate Always(x: string) {
    true
  }

  /**
   A tick and the server's reaction, the store working: every row bound to a changed item is stored and
   queued as the cached list has it, after the reload, and every other row is as before.
   */
  method TickAndReconcile(p: Poller, s: Server, input: Input) returns (ghost ops: seq<Op>)
    requires s.Valid() && s.cache == p.cache
    modifies p, p.cache, s`store, s.queue
    ensures s.Valid() && Ticked(input, old(p.lastPoll), p.lastPoll, old(p.cache.items), p.cache.items)
    ensures Reconciled(old(s.Value()), s.Value(), Some(p.cache.items),
                       Answered(input.source(old(p.lastPoll) - OVERLAP)), Always)
    ensures Performed(old(s.Value()), s.Value(), ops, Always)
    ensures Signalled(old(s.queue.wake), s.queue.wake, ops)
  {
    ops := [];
    assert p.cache.Valid();
    ghost var answer := input.source(p.lastPoll - OVERLAP);
    var changed := p.Tick(input.source, input.now, input.reload);
    AnsweredNone(answer);
    if changed.Some? {
      ops := s.ReconcileChanged(changed.value, Always, Always);
      AnsweredIs(answer, changed.value);
    }
  }

  lemma AnsweredNone(answer: Option<seq<Item>>)
    ensures Answered(answer) == {} <==> answer.None? || answer.value == []
  {
    if answer.Some? && answer.value != [] {
      assert answer.value[0] in answer.value && answer.value[0].id in Answered(answer);
    }
  }

  lemma AnsweredIs(answer: Option<seq<Item>>, ids: seq<string>)
    requires answer.Some? && |ids| == |answer.value|
    requires forall k | 0 <= k < |ids| :: ids[k] == answer.value[k].id
    ensures Ids(ids, Always) == Answered(answer)
  {
    forall id | id in ids
      ensures id in Answered(answer)
    {
      var k :| 0 <= k < |ids| && ids[k] == id;
      assert answer.value[k] in answer.value;
    }
    forall it | it in answer.value
      ensures it.id in ids
    {
      var k :| 0 <= k < |ids| && answer.value[k] == it;
    }
  }

  /** How a tick leaves the poller's clock and the cached list. */
  ghost predicate Ticked(input: Input, lastPoll: int, lastPoll': int, list: seq<Item>, list': seq<Item>) {
    var answer := input.source(lastPoll - OVERLAP);
    && lastPoll' == (if answer.Some? then input.now else lastPoll)
    && list' == if Answered(answer) != {} && input.reload.Some? then input.reload.value else list
  }

  // ----- the loop, and what it does over any number of rounds -----

  /** A list that shows the catalog as it was at a time. */
  ghost predicate Shows(mods: seq<Mod>, listed: Option<int>, list: seq<Item>) {
    forall id :: Indexed(list, id) == CatalogAt(mods, listed, id)
  }

  /** The source lists exactly the items that the catalog at a time reports. */
  ghost predicate AnswersAsOf(mods: seq<Mod>, snap: int, since: int, input: Input) {
    && input.source(since).Some?
    && forall id :: id in Answered(input.source(since)) <==> Reports(mods, snap, since, id)
  }

  /** What a tick meets is what a catalog with these modifications answers. */
  ghost predicate Meets(mods: seq<Mod>, r: Round, input: Input) {
    && (r.fetch.Failed? ==> forall since :: input.source(since).None?)
    && (r.fetch.Fetched? ==> input.now == r.fetch.now && forall since :: AnswersAsOf(mods, r.fetch.snap, since, input))
    && (r.reload.Some? <==> input.reload.Some?)
    && (r.reload.Some? ==> Shows(mods, r.reload, input.reload.value))
  }

  /** Some of the rounds reports the item. */
  ghost predicate WasReported(mods: seq<Mod>, st: Station, rounds: seq<Round>, id: string) {
    exists k | 0 <= k < |rounds| :: Reported(mods, After(mods, st, rounds[..k]), rounds[k].fetch, id)
  }

  /** Rows of reported items are pending as they are in the store, the others as they were pending before. */
  ghost predicate QueueFollows(mods: seq<Mod>, st: Station, rounds: seq<Round>, d: Desk, d': Desk) {
    d'.store.Keys == d.store.Keys &&
    forall m | m in d.store ::
      if WasReported(mods, st, rounds, d.store[m].itemID) then QueueRuns.Pending(d'.q, m) == Some(d'.store[m])
      else SamePending(d, d', m)
  }

  lemma ReportedNext(mods: seq<Mod>, st: Station, rounds: seq<Round>, k: nat, id: string)
    requires k < |rounds|
    ensures WasReported(mods, st, rounds[..k + 1], id) <==>
              WasReported(mods, st, rounds[..k], id)
              || Reported(mods, After(mods, st, rounds[..k]), rounds[k].fetch, id)
  {
    var now, before := rounds[..k + 1], rounds[..k];
    assert now[..k] == before && now[k] == rounds[k];
    assert forall j | 0 <= j < k :: now[..j] == before[..j] && now[j] == before[j];
  }

  lemma QueueNext(mods: seq<Mod>, st: Station, rounds: seq<Round>, k: nat, input: Input,
                  d0: Desk, d: Desk, d': Desk, list': seq<Item>)
    requires k < |rounds| && st.rows == d0.store && d.store == After(mods, st, rounds[..k]).rows
    requires QueueFollows(mods, st, rounds[..k], d0, d) && Meets(mods, rounds[k], input)
    requires Reconciled(d, d', Some(list'),
                        Answered(input.source(After(mods, st, rounds[..k]).lastPoll - OVERLAP)), Always)
    ensures QueueFollows(mods, st, rounds[..k + 1], d0, d')
  {
    var before := After(mods, st, rounds[..k]);
    AnsweredIsReported(mods, before, rounds[k], input);
    forall m | m in d0.store
      ensures if WasReported(mods, st, rounds[..k + 1], d0.store[m].itemID)
              then QueueRuns.Pending(d'.q, m) == Some(d'.store[m]) else SamePending(d0, d', m)
    {
      ReportedNext(mods, st, rounds, k, d0.store[m].itemID);
      RowsStayBound(mods, st, rounds[..k], m);
      assert d.store[m].itemID == d0.store[m].itemID && Always(m);
    }
  }

  lemma AnsweredIsReported(mods: seq<Mod>, st: Station, r: Round, input: Input)
    requires Meets(mods, r, input)
    ensures input.source(st.lastPoll - OVERLAP).Some? <==> r.fetch.Fetched?
    ensures forall id :: id in Answered(input.source(st.lastPoll - OVERLAP)) <==> Reported(mods, st, r.fetch, id)
  {
    assert r.fetch.Fetched? ==> AnswersAsOf(mods, r.fetch.snap, st.lastPoll - OVERLAP, input);
  }

  lemma ReactionIsRound(mods: seq<Mod>, st: Station, r: Round, input: Input, d: Desk, d': Desk,
                        lastPoll': int, list: seq<Item>, list': seq<Item>)
    requires Meets(mods, r, input) && Shows(mods, st.cached, list) && d.store == st.rows
    requires Ticked(input, st.lastPoll, lastPoll', list, list')
    requires Reconciled(d, d', Some(list'), Answered(input.source(st.lastPoll - OVERLAP)), Always)
    ensures var st' := NextStation(mods, st, r);
            lastPoll' == st'.lastPoll && Shows(mods, st'.cached, list') && d'.store == st'.rows
  {
    var ids, st' := Answered(input.source(st.lastPoll - OVERLAP)), NextStation(mods, st, r);
    AnsweredIsReported(mods, st, r, input);
    assert forall id :: id in ids <==> Reported(mods, st, r.fetch, id);
    if id :| id in ids {
      assert Reported(mods, st, r.fetch, id);
    }
    assert Reloads(mods, st, r) <==> ids != {} && r.reload.Some?;
    forall m | m in d.store
      ensures d'.store[m] == st'.rows[m]
    {
      assert Refreshed(d.store[m], Some(list')) == Current(mods, st'.cached, d.store[m]);
    }
  }

  /** The operations of a run of rounds: they lead to the rows of the rounds, and queue what was reported. */
  ghost predicate Polled(mods: seq<Mod>, st: Station, rounds: seq<Round>, d: Desk, d': Desk, ops: seq<Op>) {
    && Performed(d, d', ops, Always)
    && st.rows == d.store && d'.store == After(mods, st, rounds).rows
    && QueueFollows(mods, st, rounds, d, d')
  }

  lemma RoundNext(mods: seq<Mod>, st: Station, rounds: seq<Round>, k: nat, input: Input, d: Desk, d': Desk,
                  lastPoll': int, list: seq<Item>, list': seq<Item>)
    requires k < |rounds| && d.store == After(mods, st, rounds[..k]).rows && Meets(mods, rounds[k], input)
    requires var st' := After(mods, st, rounds[..k]);
             && Shows(mods, st'.cached, list) && Ticked(input, st'.lastPoll, lastPoll', list, list')
             && Reconciled(d, d', Some(list'), Answered(input.source(st'.lastPoll - OVERLAP)), Always)
    ensures var st' := After(mods, st, rounds[..k + 1]);
            lastPoll' == st'.lastPoll && Shows(mods, st'.cached, list') && d'.store == st'.rows
  {
    ReactionIsRound(mods, After(mods, st, rounds[..k]), rounds[k], input, d, d', lastPoll', list, list');
    AfterNext(mods, st, rounds, k);
  }

  lemma PolledNext(mods: seq<Mod>, st: Station, rounds: seq<Round>, k: nat, input: Input, d0: Desk, d: Desk, d': Desk,
                   lastPoll': int, list: seq<Item>, list': seq<Item>, ops: seq<Op>, more: seq<Op>)
    requires k < |rounds| && Polled(mods, st, rounds[..k], d0, d, ops) && Meets(mods, rounds[k], input)
    requires var st' := After(mods, st, rounds[..k]);
             && Shows(mods, st'.cached, list) && Ticked(input, st'.lastPoll, lastPoll', list, list')
             && Reconciled(d, d', Some(list'), Answered(input.source(st'.lastPoll - OVERLAP)), Always)
    requires Performed(d, d', more, Always)
    ensures Polled(mods, st, rounds[..k + 1], d0, d', ops + more)
    ensures var st' := After(mods, st, rounds[..k + 1]); lastPoll' == st'.lastPoll && Shows(mods, st'.cached, list')
  {
    RoundNext(mods, st, rounds, k, input, d, d', lastPoll', list, list');
    QueueNext(mods, st, rounds, k, input, d0, d, d', list');
    PerformedMore(d0, d, d', ops, more, Always);
  }

  /**
   The poller's loop up to its cancellation, every change handed to the server: the class does, over any
   number of ticks, what the rounds say, and its operations on store and queue are a run of the system.
   */
  method Run(p: Poller, s: Server, listed: Option<seq<Item>>, now: int, inputs: seq<Input>,
             ghost mods: seq<Mod>, ghost first: Option<int>, ghost rounds: seq<Round>)
    returns (ghost ops: seq<Op>)
    requires s.Valid() && s.cache == p.cache && p.cache.items == []
    requires (listed.Some? <==> first.Some?) && (listed.Some? ==> Shows(mods, first, listed.value))
    requires |inputs| == |rounds| && forall k | 0 <= k < |rounds| :: Meets(mods, rounds[k], inputs[k])
    modifies p, p.cache, s`store, s.queue
    ensures var st := After(mods, Station(now, first, old(s.store)), rounds);
            s.Valid() && p.lastPoll == st.lastPoll && Shows(mods, st.cached, p.cache.items) && s.store == st.rows
    ensures Polled(mods, Station(now, first, old(s.store)), rounds, old(s.Value()), s.Value(), ops)
    ensures Signalled(old(s.queue.wake), s.queue.wake, ops)
  {
    p.Load(listed, now);
    ops := [];
    ghost var st := Station(now, first, s.store);
    assert rounds[..0] == [];
    for k := 0 to |inputs|
      invariant s.Valid() && p.lastPoll == After(mods, st, rounds[..k]).lastPoll
      invariant Shows(mods, After(mods, st, rounds[..k]).cached, p.cache.items)
      invariant Polled(mods, st, rounds[..k], old(s.Value()), s.Value(), ops)
      invariant Signalled(old(s.queue.wake), s.queue.wake, ops)
    {
      ghost var d, list := s.Value(), p.cache.items;
      ghost var more := TickAndReconcile(p, s, inputs[k]);
      PolledNext(mods, st, rounds, k, inputs[k], old(s.Value()), d, s.Value(), p.lastPoll, list, p.cache.items,
                 ops, more);
      ops := ops + more;
    }
    assert rounds[..|rounds|] == rounds;
  }
}
