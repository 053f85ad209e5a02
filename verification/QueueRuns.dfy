/**
 All interleavings of the push queue's worker with any number of enqueuers, at the granularity of its
 mutex: an enqueuer's critical section and its later wake-up send are separate steps, and so are the
 worker's `next`, each of its status writes, the end of a push, parking and waking.
 */
module QueueRuns {
  import opened Options
  import opened PushQueues

  datatype Worker =
    | Ready                                // about to call next
    | Parked                               // found nothing, waiting on the wake channel
    | Marking(b: Binding)                  // took b, has not yet marked it
    | Delivering(b: Binding)               // marked "pushing", push in progress
    | Reporting(b: Binding, res: Status)   // push returned, outcome not yet recorded
    | Settling                             // pausing before the next delivery
    | Stopped                              // context cancelled

  datatype Delivery = Delivery(b: Binding, res: Status)

  /** The queue, the wake token, the enqueuers between unlock and send, the worker, and the histories. */
  datatype Sys = Sys(q: Queue, wake: bool, sending: nat, worker: Worker,
                     enq: seq<Binding>, deq: seq<Binding>, done: seq<Delivery>)

  datatype Event =
    | Enqueue(b: Binding) | Send | Take | Wake | Mark | Return(res: Status) | Report | Settle | Cancel

  const INIT := Sys(Queue(map[], [], map[]), false, 0, Ready, [], [], [])

  predicate Final(st: Status) {
    st.Ok? || st.Failed?
  }

  predicate Enabled(s: Sys, e: Event) {
    match e
    case Enqueue(_) => true
    case Send => s.sending > 0
    case Take => s.worker.Ready?
    case Wake => s.worker.Parked? && s.wake
    case Mark => s.worker.Marking?
    case Return(res) => s.worker.Delivering? && Final(res)
    case Report => s.worker.Reporting?
    case Settle => s.worker.Settling?
    case Cancel => s.worker.Parked? || s.worker.Settling?
  }

  function Step(s: Sys, e: Event): Sys
    requires Enabled(s, e)
  {
    match e
    case Enqueue(b) => s.(q := Enqueued(s.q, b), sending := s.sending + 1, enq := s.enq + [b])
    case Send => s.(sending := s.sending - 1, wake := true)
    case Take =>
      var (q', r) := Dequeued(s.q);
      if r.Some? then s.(q := q', worker := Marking(r.value), deq := s.deq + [r.value])
      else s.(q := q', worker := Parked)
    case Wake => s.(wake := false, worker := Ready)
    case Mark => s.(q := WithStatus(s.q, s.worker.b.mac, Pushing), worker := Delivering(s.worker.b))
    case Return(res) => s.(worker := Reporting(s.worker.b, res))
    case Report =>
      s.(q := WithStatus(s.q, s.worker.b.mac, s.worker.res), worker := Settling,
         done := s.done + [Delivery(s.worker.b, s.worker.res)])
    case Settle => s.(worker := Ready)
    case Cancel => s.(worker := Stopped)
  }

  /** A schedule is a run when each of its events is enabled where it happens. */
  predicate IsRun(s: Sys, es: seq<Event>)
    decreases |es|
  {
    es == [] || (Enabled(s, es[0]) && IsRun(Step(s, es[0]), es[1..]))
  }

  function After(s: Sys, es: seq<Event>): Sys
    requires IsRun(s, es)
    decreases |es|
  {
    if es == [] then s else After(Step(s, es[0]), es[1..])
  }

  // ----- histories -----

  /** The part of a history that concerns one MAC. */
  ghost function Of(m: string, h: seq<Binding>): seq<Binding> {
    if h == [] then []
    else
      var earlier := Of(m, h[..|h| - 1]);
      if h[|h| - 1].mac == m then earlier + [h[|h| - 1]] else earlier
  }

  lemma OfAppend(m: string, h: seq<Binding>, b: Binding)
    ensures Of(m, h + [b]) == if b.mac == m then Of(m, h) + [b] else Of(m, h)
  {
    assert (h + [b])[..|h|] == h;
  }

  function Pending(q: Queue, m: string): Option<Binding> {
    if m in q.pending then Some(q.pending[m]) else None
  }

  ghost function Bindings(ds: seq<Delivery>): seq<Binding> {
    seq(|ds|, i requires 0 <= i < |ds| => ds[i].b)
  }

  /** The outcome recorded by the last delivery for a MAC. */
  ghost function LastResult(m: string, ds: seq<Delivery>): Option<Status> {
    if ds == [] then None
    else if ds[|ds| - 1].b.mac == m then Some(ds[|ds| - 1].res)
    else LastResult(m, ds[..|ds| - 1])
  }

  /** a is b with some elements left out, matched from the end. */
  ghost predicate Subsequence<T>(a: seq<T>, b: seq<T>)
    decreases |b|
  {
    a == [] || (b != [] && Subsequence(if a[|a| - 1] == b[|b| - 1] then a[..|a| - 1] else a, b[..|b| - 1]))
  }

  lemma {:induction false} SubsequenceLonger<T>(a: seq<T>, b: seq<T>, x: T)
    requires Subsequence(a, b)
    ensures Subsequence(a, b + [x])
    decreases |b|, 1
  {
    assert (b + [x])[..|b|] == b;
    if a != [] && a[|a| - 1] == x {
      SubsequenceShorter(a, b);
    }
  }

  lemma {:induction false} SubsequenceShorter<T>(a: seq<T>, b: seq<T>)
    requires a != [] && Subsequence(a, b)
    ensures Subsequence(a[..|a| - 1], b)
    decreases |b|, 0
  {
    var front, last := b[..|b| - 1], b[|b| - 1];
    if a[|a| - 1] != last {
      SubsequenceShorter(a, front);
    }
    SubsequenceLonger(a[..|a| - 1], front, last);
    assert front + [last] == b;
  }

  lemma SubsequenceBoth<T>(a: seq<T>, b: seq<T>, x: T)
    requires Subsequence(a, b)
    ensures Subsequence(a + [x], b + [x])
  {
    assert (b + [x])[..|b|] == b && (a + [x])[..|a|] == a;
  }

  // ----- invariants -----

  function InHand(w: Worker): seq<Binding> {
    if w.Marking? || w.Delivering? || w.Reporting? then [w.b] else []
  }

  /** The latest binding enqueued is the pending one, or was the last one taken. */
  ghost predicate Latest(e: seq<Binding>, d: seq<Binding>, pending: Option<Binding>) {
    match pending
    case Some(b) => e != [] && b == e[|e| - 1] && Subsequence(d, e[..|e| - 1])
    case None => Subsequence(d, e) && (e != [] ==> d != [] && d[|d| - 1] == e[|e| - 1])
  }

  lemma LatestEnqueued(e: seq<Binding>, d: seq<Binding>, pending: Option<Binding>, b: Binding)
    requires Latest(e, d, pending)
    ensures Latest(e + [b], d, Some(b))
  {
    LatestInOrder(e, d, pending);
    assert (e + [b])[..|e|] == e;
  }

  lemma LatestTaken(e: seq<Binding>, d: seq<Binding>, b: Binding)
    requires Latest(e, d, Some(b))
    ensures Latest(e, d + [b], None)
  {
    var front := e[..|e| - 1];
    SubsequenceBoth(d, front, b);
    assert front + [b] == e;
    assert (d + [b])[|d + [b]| - 1] == b;
  }

  lemma LatestInOrder(e: seq<Binding>, d: seq<Binding>, pending: Option<Binding>)
    requires Latest(e, d, pending)
    ensures Subsequence(d, e)
  {
    if pending.Some? {
      SubsequenceLonger(d, e[..|e| - 1], e[|e| - 1]);
      assert e[..|e| - 1] + [e[|e| - 1]] == e;
    }
  }

  ghost predicate LatestWins(s: Sys, m: string) {
    Latest(Of(m, s.enq), Of(m, s.deq), Pending(s.q, m))
  }

  /** What a status says about its MAC. */
  ghost predicate StatusSound(s: Sys, m: string) {
    (m in s.q.status <==> Of(m, s.enq) != []) &&
    (m in s.q.status ==>
      match s.q.status[m]
      case Queued => m in s.q.pending || (s.worker.Marking? && s.worker.b.mac == m)
      case Pushing => (s.worker.Delivering? || s.worker.Reporting?) && s.worker.b.mac == m
      case st => LastResult(m, s.done) == Some(st))
  }

  /** A worker parked before pending work has a wake-up in the channel or on its way. */
  ghost predicate NoLostWakeup(s: Sys) {
    s.worker.Parked? && s.q.pending != map[] ==> s.wake || s.sending > 0
  }

  ghost predicate Inv(s: Sys) {
    && WellFormed(s.q)
    && NoLostWakeup(s)
    && (s.worker.Reporting? ==> Final(s.worker.res))
    && s.deq == Bindings(s.done) + InHand(s.worker)
    && (forall m :: LatestWins(s, m))
    && (forall m :: StatusSound(s, m))
  }

  lemma EnqueueLatest(s: Sys, b: Binding, m: string)
    requires LatestWins(s, m)
    ensures LatestWins(Step(s, Enqueue(b)), m)
  {
    OfAppend(m, s.enq, b);
    if b.mac == m {
      LatestEnqueued(Of(m, s.enq), Of(m, s.deq), Pending(s.q, m), b);
    }
  }

  lemma EnqueueStatus(s: Sys, b: Binding, m: string)
    requires StatusSound(s, m)
    ensures StatusSound(Step(s, Enqueue(b)), m)
  {
    OfAppend(m, s.enq, b);
  }

  lemma TakeLatest(s: Sys, m: string)
    requires s.worker.Ready? && WellFormed(s.q) && LatestWins(s, m)
    ensures LatestWins(Step(s, Take), m)
  {
    NextServesHead(s.q);
    if s.q.order != [] {
      var mac := s.q.order[0];
      assert mac in s.q.order;
      OfAppend(m, s.deq, s.q.pending[mac]);
      if mac == m {
        LatestTaken(Of(m, s.enq), Of(m, s.deq), s.q.pending[mac]);
      }
    }
  }

  lemma TakeStatus(s: Sys, m: string)
    requires s.worker.Ready? && WellFormed(s.q) && StatusSound(s, m)
    ensures StatusSound(Step(s, Take), m)
  {
    NextServesHead(s.q);
    if s.q.order != [] {
      assert s.q.order[0] in s.q.order;
    }
  }

  lemma ReportLatest(s: Sys, m: string)
    requires s.worker.Reporting? && Final(s.worker.res) && LatestWins(s, m) && StatusSound(s, m)
    requires s.deq == Bindings(s.done) + InHand(s.worker)
    ensures LatestWins(Step(s, Report), m) && StatusSound(Step(s, Report), m)
  {
    var d := Delivery(s.worker.b, s.worker.res);
    assert (s.done + [d])[..|s.done|] == s.done;
    if s.worker.b.mac == m {
      TakenWasEnqueued(s, m);
    }
  }

  lemma StepPerMac(s: Sys, e: Event, m: string)
    requires Inv(s) && Enabled(s, e)
    ensures LatestWins(Step(s, e), m) && StatusSound(Step(s, e), m)
  {
    assert LatestWins(s, m) && StatusSound(s, m);
    match e {
      case Enqueue(b) =>
        EnqueueLatest(s, b, m);
        EnqueueStatus(s, b, m);
      case Take =>
        TakeLatest(s, m);
        TakeStatus(s, m);
      case Report => ReportLatest(s, m);
      case Mark =>
        if s.worker.b.mac == m {
          TakenWasEnqueued(s, m);
        }
      case _ =>
    }
  }

  lemma TakenWasEnqueued(s: Sys, m: string)
    requires LatestWins(s, m) && s.deq == Bindings(s.done) + InHand(s.worker)
    requires InHand(s.worker) != [] && s.worker.b.mac == m
    ensures Of(m, s.enq) != []
  {
    assert s.deq[..|s.deq| - 1] == Bindings(s.done);
    assert Of(m, s.deq) != [];
    LatestInOrder(Of(m, s.enq), Of(m, s.deq), Pending(s.q, m));
  }

  /** Every step of every interleaving keeps the invariant. */
  lemma StepKeeps(s: Sys, e: Event)
    requires Inv(s) && Enabled(s, e)
    ensures Inv(Step(s, e))
  {
    var s' := Step(s, e);
    NextServesHead(s.q);
    if e.Enqueue? {
      EnqueueKeeps(s.q, e.b);
    }
    if e.Report? {
      assert Bindings(s'.done) == Bindings(s.done) + [s.worker.b];
    }
    forall m
      ensures LatestWins(s', m) && StatusSound(s', m)
    {
      StepPerMac(s, e, m);
    }
  }

  lemma {:induction false} RunKeeps(s: Sys, es: seq<Event>)
    requires Inv(s) && IsRun(s, es)
    ensures Inv(After(s, es))
    decreases |es|
  {
    if es != [] {
      StepKeeps(s, es[0]);
      RunKeeps(Step(s, es[0]), es[1..]);
    }
  }

  lemma InitKeeps()
    ensures Inv(INIT)
  {
    forall m
      ensures LatestWins(INIT, m) && StatusSound(INIT, m)
    {
      assert Of(m, []) == [];
    }
  }

  // ----- what holds in every reachable state -----

  /**
   Latest wins and nothing is lost: after any run a pending MAC holds the last binding enqueued for it, a
   MAC that is not pending had exactly that binding taken last, and what was taken for a MAC is a
   subsequence of what was enqueued for it.
   */
  lemma NothingLost(es: seq<Event>, m: string)
    requires IsRun(INIT, es)
    ensures var s := After(INIT, es);
            var e, d := Of(m, s.enq), Of(m, s.deq);
            && Subsequence(d, e)
            && (m in s.q.pending ==> e != [] && s.q.pending[m] == e[|e| - 1])
            && (m !in s.q.pending && e != [] ==> d != [] && d[|d| - 1] == e[|e| - 1])
  {
    InitKeeps();
    RunKeeps(INIT, es);
    LatestMeans(After(INIT, es), m);
  }

  lemma LatestMeans(s: Sys, m: string)
    requires LatestWins(s, m)
    ensures var e, d := Of(m, s.enq), Of(m, s.deq);
            && Subsequence(d, e)
            && (m in s.q.pending ==> e != [] && s.q.pending[m] == e[|e| - 1])
            && (m !in s.q.pending && e != [] ==> d != [] && d[|d| - 1] == e[|e| - 1])
  {
    LatestInOrder(Of(m, s.enq), Of(m, s.deq), Pending(s.q, m));
  }

  lemma WakeupNeverLost(es: seq<Event>)
    requires IsRun(INIT, es)
    ensures WellFormed(After(INIT, es).q) && NoLostWakeup(After(INIT, es))
  {
    InitKeeps();
    RunKeeps(INIT, es);
  }

  /** At most one tag is "pushing", the one being delivered; a "queued" tag is pending or just taken. */
  lemma StatusesSound(es: seq<Event>, m: string)
    requires IsRun(INIT, es)
    requires m in After(INIT, es).q.status
    ensures var s := After(INIT, es);
            var st := s.q.status[m];
            && (st == Pushing ==> (s.worker.Delivering? || s.worker.Reporting?) && s.worker.b.mac == m)
            && (st == Queued ==> m in s.q.pending || (s.worker.Marking? && s.worker.b.mac == m))
            && (Final(st) ==> LastResult(m, s.done) == Some(st))
  {
    InitKeeps();
    RunKeeps(INIT, es);
    assert StatusSound(After(INIT, es), m);
  }

  lemma {:induction false} LastStep(s: Sys, es: seq<Event>)
    requires IsRun(s, es) && es != []
    ensures var front := es[..|es| - 1];
            && IsRun(s, front) && Enabled(After(s, front), es[|es| - 1])
            && After(s, es) == Step(After(s, front), es[|es| - 1])
    decreases |es|
  {
    if |es| > 1 {
      LastStep(Step(s, es[0]), es[1..]);
      assert es[1..][..|es| - 2] == es[..|es| - 1][1..];
    }
  }

  lemma {:induction false} PrefixRuns(s: Sys, es: seq<Event>, j: nat)
    requires IsRun(s, es) && j <= |es|
    ensures IsRun(s, es[..j])
    decreases |es|
  {
    if j == |es| {
      assert es[..j] == es;
    } else {
      LastStep(s, es);
      PrefixRuns(s, es[..|es| - 1], j);
      assert es[..|es| - 1][..j] == es[..j];
    }
  }

  /** Event j is the worker marking the MAC as being pushed, or recording the outcome of its push. */
  ghost predicate WorksOn(es: seq<Event>, j: nat, m: string)
    requires j < |es|
  {
    (es[j].Mark? || es[j].Report?) && IsRun(INIT, es[..j]) && Holding(After(INIT, es[..j]).worker, m)
  }

  predicate Holding(w: Worker, m: string) {
    (w.Marking? || w.Delivering? || w.Reporting?) && w.b.mac == m
  }

  /** Event k enqueues the MAC, and the worker has not turned to it since. */
  ghost predicate WaitsSince(es: seq<Event>, k: nat, m: string)
    requires k < |es|
  {
    es[k].Enqueue? && es[k].b.mac == m && forall j | k < j < |es| :: !WorksOn(es, j, m)
  }

  /**
   A tag shows "queued", exactly: over every run, from its enqueue until the worker marks it or records the
   outcome of an earlier push to it, whatever it showed before.
   */
  lemma {:induction false} QueuedIff(es: seq<Event>, m: string)
    requires IsRun(INIT, es)
    ensures var status := After(INIT, es).q.status;
            (m in status && status[m] == Queued) <==> exists k | 0 <= k < |es| :: WaitsSince(es, k, m)
    decreases |es|
  {
    if es != [] {
      var n := |es| - 1;
      var front := es[..n];
      LastStep(INIT, es);
      QueuedIff(front, m);
      ReportsFinal(front);
      forall j | 0 <= j < n
        ensures WorksOn(es, j, m) <==> WorksOn(front, j, m)
      {
        assert front[..j] == es[..j] && front[j] == es[j];
      }
      forall k | 0 <= k < n
        ensures WaitsSince(es, k, m) <==> WaitsSince(front, k, m) && !WorksOn(es, n, m)
      {
        WaitsOn(es, k, m);
      }
      QueuedNext(After(INIT, front), es[n], m);
      assert WorksOn(es, n, m) <==> (es[n].Mark? || es[n].Report?) && Holding(After(INIT, front).worker, m);
      assert WaitsSince(es, n, m) <==> es[n].Enqueue? && es[n].b.mac == m;
    }
  }

  lemma WaitsOn(es: seq<Event>, k: nat, m: string)
    requires k < |es| - 1
    requires forall j | 0 <= j < |es| - 1 :: WorksOn(es, j, m) <==> WorksOn(es[..|es| - 1], j, m)
    ensures WaitsSince(es, k, m) <==> WaitsSince(es[..|es| - 1], k, m) && !WorksOn(es, |es| - 1, m)
  {
    var front := es[..|es| - 1];
    assert front[k] == es[k];
    if WaitsSince(front, k, m) && !WorksOn(es, |es| - 1, m) {
      forall j | k < j < |es|
        ensures !WorksOn(es, j, m)
      {
        if j < |es| - 1 {
          assert !WorksOn(front, j, m);
        }
      }
    }
    if WaitsSince(es, k, m) {
      forall j | k < j < |front|
        ensures !WorksOn(front, j, m)
      {
        assert !WorksOn(es, j, m);
      }
    }
  }

  /** The outcome that the worker is about to record is a final one. */
  lemma {:induction false} ReportsFinal(es: seq<Event>)
    requires IsRun(INIT, es)
    ensures After(INIT, es).worker.Reporting? ==> Final(After(INIT, es).worker.res)
    decreases |es|
  {
    if es != [] {
      LastStep(INIT, es);
      ReportsFinal(es[..|es| - 1]);
    }
  }

  lemma QueuedNext(s: Sys, e: Event, m: string)
    requires Enabled(s, e) && (s.worker.Reporting? ==> Final(s.worker.res))
    ensures var was, now := m in s.q.status && s.q.status[m] == Queued,
                           m in Step(s, e).q.status && Step(s, e).q.status[m] == Queued;
            now <==> (e.Enqueue? && e.b.mac == m) || (was && !((e.Mark? || e.Report?) && Holding(s.worker, m)))
  {
    if e.Take? {
      TakeLeavesStatus(s.q);
    }
  }

  lemma {:induction false} TakeLeavesStatus(q: Queue)
    ensures Dequeued(q).0.status == q.status
    decreases |q.order|
  {
    if q.order != [] && q.order[0] !in q.pending {
      TakeLeavesStatus(q.(order := q.order[1..]));
    }
  }

  /** Nothing is pending and no binding is in the worker's hands. */
  ghost predicate Quiet(s: Sys) {
    s.q.pending == map[] && InHand(s.worker) == []
  }

  /**
   Once the system is quiet, every MAC that was ever enqueued shows "ok" or "failed", as the outcome of its
   last delivery, and that delivery was of the last binding enqueued for it.
   */
  lemma QuietMeansDelivered(es: seq<Event>, m: string)
    requires IsRun(INIT, es)
    requires var s := After(INIT, es); Quiet(s) && Of(m, s.enq) != []
    ensures var s := After(INIT, es);
            var e, d := Of(m, s.enq), Of(m, Bindings(s.done));
            && m in s.q.status && Final(s.q.status[m])
            && LastResult(m, s.done) == Some(s.q.status[m])
            && d != [] && d[|d| - 1] == e[|e| - 1]
  {
    InitKeeps();
    RunKeeps(INIT, es);
    var s := After(INIT, es);
    assert LatestWins(s, m) && StatusSound(s, m);
    assert s.deq == Bindings(s.done);
  }

  // ----- fairness -----

  /** Where a MAC that stood at position i, with n bindings taken before it, has got to. */
  ghost predicate Served(s: Sys, m: string, i: nat, n: nat) {
    var taken := |s.deq| - n;
    if taken <= i then 0 <= i - taken < |s.q.order| && s.q.order[i - taken] == m
    else n + i < |s.deq| && s.deq[n + i].mac == m
  }

  /**
   A MAC at position i of the waiting list of a reachable state is returned by the (i+1)-th successful
   `next` from there, whatever is enqueued in between; until then it has moved up a place for each `next`.
   */
  lemma FirstComeFirstServed(before: seq<Event>, es: seq<Event>, m: string, i: nat)
    requires IsRun(INIT, before) && IsRun(After(INIT, before), es)
    requires var s := After(INIT, before); i < |s.q.order| && s.q.order[i] == m
    ensures Served(After(After(INIT, before), es), m, i, |After(INIT, before).deq|)
  {
    InitKeeps();
    RunKeeps(INIT, before);
    var s := After(INIT, before);
    ServedFromHere(s, m, i);
    ServedInTurn(s, es, m, i, |s.deq|);
  }

  lemma ServedFromHere(s: Sys, m: string, i: nat)
    requires i < |s.q.order| && s.q.order[i] == m
    ensures Served(s, m, i, |s.deq|)
  {
  }

  lemma {:induction false} ServedInTurn(s: Sys, es: seq<Event>, m: string, i: nat, n: nat)
    requires Inv(s) && IsRun(s, es)
    requires n <= |s.deq| && Served(s, m, i, n)
    ensures n <= |After(s, es).deq| && Served(After(s, es), m, i, n)
    decreases |es|
  {
    if es != [] {
      StepKeeps(s, es[0]);
      ServedStep(s, es[0], m, i, n);
      ServedInTurn(Step(s, es[0]), es[1..], m, i, n);
    }
  }

  lemma ServedStep(s: Sys, e: Event, m: string, i: nat, n: nat)
    requires WellFormed(s.q) && Enabled(s, e)
    requires n <= |s.deq| && Served(s, m, i, n)
    ensures n <= |Step(s, e).deq| && Served(Step(s, e), m, i, n)
  {
    NextServesHead(s.q);
    if e.Take? && s.q.order != [] {
      assert s.q.order[0] in s.q.order;
    }
  }

  // ----- the worker drains the queue -----

  function Phase(w: Worker): nat {
    match w
    case Marking(_) => 5
    case Delivering(_) => 4
    case Reporting(_, _) => 3
    case Settling => 2
    case Ready => 1
    case _ => 0
  }

  function Work(s: Sys): nat {
    8 * |s.q.order| + 4 * s.sending + (if s.wake then 2 else 0) + Phase(s.worker)
  }

  predicate Drains(es: seq<Event>) {
    forall e | e in es :: !e.Enqueue? && !e.Cancel?
  }

  lemma TakeShrinks(s: Sys)
    requires WellFormed(s.q) && s.worker.Ready?
    ensures Work(Step(s, Take)) < Work(s)
  {
    NextServesHead(s.q);
  }

  lemma WorkShrinks(s: Sys, e: Event)
    requires WellFormed(s.q)
    requires Enabled(s, e) && !e.Enqueue? && !e.Cancel?
    ensures Work(Step(s, e)) < Work(s)
  {
    if e.Take? {
      TakeShrinks(s);
    }
  }

  lemma Stuck(s: Sys)
    requires Inv(s) && !s.worker.Stopped?
    requires forall e: Event | !e.Enqueue? && !e.Cancel? :: !Enabled(s, e)
    ensures Quiet(s) && s.worker.Parked?
  {
    assert !Enabled(s, Send) && !Enabled(s, Take) && !Enabled(s, Wake) && !Enabled(s, Mark);
    assert !Enabled(s, Return(Ok)) && !Enabled(s, Report) && !Enabled(s, Settle);
  }

  /**
   From any reachable state whose worker was not cancelled, a run without new work is bounded by the work
   at hand, and when it can go no further the worker is parked with nothing pending and nothing in its
   hands: no schedule leaves a tag waiting.
   */
  lemma NoTagLeftWaiting(before: seq<Event>, es: seq<Event>)
    requires IsRun(INIT, before) && !After(INIT, before).worker.Stopped?
    requires IsRun(After(INIT, before), es) && Drains(es)
    ensures |es| <= Work(After(INIT, before))
    ensures var s := After(After(INIT, before), es);
            (forall e: Event | !e.Enqueue? && !e.Cancel? :: !Enabled(s, e)) ==> Quiet(s) && s.worker.Parked?
  {
    InitKeeps();
    RunKeeps(INIT, before);
    WorkerDrains(After(INIT, before), es);
  }

  lemma {:induction false} WorkerDrains(s: Sys, es: seq<Event>)
    requires Inv(s) && IsRun(s, es) && Drains(es) && !s.worker.Stopped?
    ensures |es| <= Work(s)
    ensures var s' := After(s, es);
            (forall e: Event | !e.Enqueue? && !e.Cancel? :: !Enabled(s', e)) ==> Quiet(s') && s'.worker.Parked?
    decreases |es|
  {
    if es != [] {
      assert es[0] in es;
      WorkShrinks(s, es[0]);
      StepKeeps(s, es[0]);
      assert forall e | e in es[1..] :: e in es;
      WorkerDrains(Step(s, es[0]), es[1..]);
    } else if forall e: Event | !e.Enqueue? && !e.Cancel? :: !Enabled(s, e) {
      Stuck(s);
    }
  }
}
