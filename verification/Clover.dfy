/** The Clover client: retries on rate limiting, and pagination. */
module Clover {
  import opened Options
  import opened GoArith

  datatype CloverItem = CloverItem(id: string, name: string, price: int, hidden: bool, modifiedTime: int)

  /**
   What one request meets: a transport error, or a response with its status, the number in its
   Retry-After header if there is one, and the items its body decodes to, if it does.
   */
  datatype Outcome = NetError | Reply(status: int, retryAfter: Option<int>, items: Option<seq<CloverItem>>)

  datatype Error = NetFailure | ApiError(status: int) | Cancelled | Undecodable

  datatype Result<+T> = Success(value: T) | Failure(error: Error)

  const MAX_ATTEMPTS := 6
  const TOO_MANY_REQUESTS := 429
  const PAGE_LIMIT: nat := 100

  /** Seconds to wait after an attempt: the server's wish, or 1, 2, 4, ... capped at 30. */
  function RetryAfter(header: Option<int>, attempt: int): (d: nat)
    requires attempt >= 1
    ensures d >= 1
    ensures header.Some? && header.value > 0 ==> d == header.value
    ensures header.None? || header.value <= 0 ==>
              d <= 30 && d <= Pow2(attempt - 1) && (d == 30 || d == Pow2(attempt - 1))
  {
    if header.Some? && header.value > 0 then header.value
    else
      var d := Pow2(attempt - 1);
      PowerPositive(attempt - 1);
      if d > 30 then 30 else d
  }

  lemma {:induction false} PowerPositive(n: nat)
    ensures Pow2(n) >= 1
  {
    if n > 0 {
      PowerPositive(n - 1);
    }
  }

  predicate Limited(o: Outcome) {
    o.Reply? && o.status == TOO_MANY_REQUESTS
  }

  /** What an attempt that is not retried yields. */
  function Verdict(o: Outcome): Result<Option<seq<CloverItem>>> {
    match o
    case NetError => Failure(NetFailure)
    case Reply(status, _, items) => if status < 200 || status >= 300 then Failure(ApiError(status)) else Success(items)
  }

  /**
   The retry loop.  `outcomes(k)` is what attempt k meets and `cancelled(k)` whether the context ends during
   the wait after it; `waited` sums the completed waits in seconds.  The loop stops at the first attempt
   that is not rate limited, at the first cancelled wait, or at the sixth attempt, whose verdict stands.
   */
  method Get(outcomes: int -> Outcome, cancelled: int -> bool)
    returns (r: Result<Option<seq<CloverItem>>>, attempts: nat, waited: nat)
    ensures 1 <= attempts <= 6
    ensures forall k | 1 <= k < attempts :: outcomes(k).Reply? && outcomes(k).status == 429
    ensures var o := outcomes(attempts);
            attempts == 6 || !(o.Reply? && o.status == 429) ==>
              && (o.NetError? ==> r == Failure(NetFailure))
              && (o.Reply? && 200 <= o.status < 300 ==> r == Success(o.items))
              && (o.Reply? && !(200 <= o.status < 300) ==> r == Failure(ApiError(o.status)))
    ensures forall k | 1 <= k < attempts :: Limited(outcomes(k)) && !cancelled(k)
    ensures attempts < 6 && Limited(outcomes(attempts)) ==>
              cancelled(attempts) && r == Failure(Cancelled)
    ensures attempts == 6 || !Limited(outcomes(attempts)) ==> r == Verdict(outcomes(attempts))
    ensures r == Got(outcomes, cancelled, 1)
    ensures waited == TotalWait(outcomes, attempts)
  {
    var attempt := 1;
    waited := 0;
    while true
      invariant 1 <= attempt <= MAX_ATTEMPTS
      invariant forall k | 1 <= k < attempt :: Limited(outcomes(k)) && !cancelled(k)
      invariant Got(outcomes, cancelled, attempt) == Got(outcomes, cancelled, 1)
      invariant waited == TotalWait(outcomes, attempt)
      decreases MAX_ATTEMPTS - attempt
    {
      var o := outcomes(attempt);
      if Limited(o) && attempt < MAX_ATTEMPTS {
        if cancelled(attempt) {
          return Failure(Cancelled), attempt, waited;
        }
        waited := waited + RetryAfter(o.retryAfter, attempt);
        attempt := attempt + 1;
      } else {
        return Verdict(o), attempt, waited;
      }
    }
  }

  /** Each wait is what the server asks for, if it asks for any, or else doubles from one second up to thirty. */
  lemma WaitBefore(outcomes: int -> Outcome, n: int)
    requires 1 <= n < 6 && forall k | 1 <= k <= n :: Limited(outcomes(k))
    ensures var wait, asked := TotalWait(outcomes, n + 1) - TotalWait(outcomes, n), outcomes(n).retryAfter;
            wait == if asked.Some? && asked.value > 0 then asked.value else [1, 2, 4, 8, 16][n - 1]
  {
    assert Pow2(0) == 1 && Pow2(1) == 2 && Pow2(2) == 4 && Pow2(3) == 8 && Pow2(4) == 16;
  }

  /** The seconds waited before attempt n, all earlier attempts being rate limited. */
  function TotalWait(outcomes: int -> Outcome, n: int): nat
    requires n >= 1 && forall k | 1 <= k < n :: Limited(outcomes(k))
    decreases n
  {
    if n == 1 then 0
    else
      assert Limited(outcomes(n - 1));
      TotalWait(outcomes, n - 1) + RetryAfter(outcomes(n - 1).retryAfter, n - 1)
  }

  /** Without Retry-After headers attempt n comes after 2^(n-1) - 1 seconds, so after at most 31. */
  lemma {:induction false} BackoffDoubles(outcomes: int -> Outcome, n: int)
    requires 1 <= n <= MAX_ATTEMPTS
    requires forall k | 1 <= k < n :: Limited(outcomes(k)) && outcomes(k).retryAfter.None?
    ensures TotalWait(outcomes, n) == Pow2(n - 1) - 1 <= 31
    decreases n
  {
    assert Pow2(5) == 32 && Pow2(4) == 16 && Pow2(3) == 8 && Pow2(2) == 4;
    if n > 1 {
      BackoffDoubles(outcomes, n - 1);
    }
  }

  /** The result of the retry loop from attempt k on. */
  function Got(outcomes: int -> Outcome, cancelled: int -> bool, k: int): Result<Option<seq<CloverItem>>>
    requires 1 <= k <= MAX_ATTEMPTS
    decreases MAX_ATTEMPTS - k
  {
    if Limited(outcomes(k)) && k < MAX_ATTEMPTS then
      if cancelled(k) then Failure(Cancelled) else Got(outcomes, cancelled, k + 1)
    else Verdict(outcomes(k))
  }

  // ----- pagination -----

  function Least(a: int, b: int): int {
    if a < b then a else b
  }

  /** What the server lists from an offset on. */
  function Page(catalog: seq<CloverItem>, offset: nat): seq<CloverItem> {
    catalog[Least(offset, |catalog|)..Least(offset + PAGE_LIMIT, |catalog|)]
  }

  function Kept(its: seq<CloverItem>, keep: CloverItem -> bool): seq<CloverItem> {
    if its == [] then []
    else
      var n := |its| - 1;
      if keep(its[n]) then Kept(its[..n], keep) + [its[n]] else Kept(its[..n], keep)
  }

  /** Filtering keeps exactly the items to keep, each as often as it is listed. */
  lemma {:induction false} KeptExactly(its: seq<CloverItem>, keep: CloverItem -> bool, it: CloverItem)
    ensures multiset(Kept(its, keep))[it] == if keep(it) then multiset(its)[it] else 0
  {
    if its != [] {
      var n := |its| - 1;
      KeptExactly(its[..n], keep, it);
      assert its == its[..n] + [its[n]];
    }
  }

  /** And in their order: the one listed at i comes after those kept before it. */
  lemma {:induction false} KeptInOrder(its: seq<CloverItem>, keep: CloverItem -> bool, i: nat)
    requires i < |its| && keep(its[i])
    ensures var k := |Kept(its[..i], keep)|; k < |Kept(its, keep)| && Kept(its, keep)[k] == its[i]
  {
    var n := |its| - 1;
    if i < n {
      assert its[..n][..i] == its[..i];
      KeptInOrder(its[..n], keep, i);
    }
  }

  lemma {:induction false} KeptAppend(a: seq<CloverItem>, b: seq<CloverItem>, keep: CloverItem -> bool)
    ensures Kept(a + b, keep) == Kept(a, keep) + Kept(b, keep)
    decreases |b|
  {
    if b == [] {
      assert a + b == a;
    } else {
      assert (a + b)[..|a + b| - 1] == a + b[..|b| - 1];
      KeptAppend(a, b[..|b| - 1], keep);
    }
  }

  /** How requests at each offset and attempt fare, and which waits are cut short. */
  datatype Web = Web(serve: int -> int -> Outcome, cancelled: int -> int -> bool, gapCancelled: int -> bool)

  function Fetched(w: Web, offset: int): Result<Option<seq<CloverItem>>> {
    Got(w.serve(offset), w.cancelled(offset), 1)
  }

  /** The catalog does not change during the listing: every good reply holds the catalog's page. */
  ghost predicate Serves(w: Web, catalog: seq<CloverItem>) {
    forall offset: nat | Fetched(w, offset).Success? && Fetched(w, offset).value.Some? ::
      Fetched(w, offset).value.value == Page(catalog, offset)
  }

  /** Page number p is delivered and decodes, and the pause before the next one is not cut short. */
  predicate Delivered(w: Web, p: nat) {
    Fetched(w, p * PAGE_LIMIT).Success? && Fetched(w, p * PAGE_LIMIT).value.Some?
  }

  /** Pages 0 up to `last` are delivered, and no pause between them is cut short. */
  ghost predicate AllDelivered(w: Web, last: nat) {
    && (forall p: nat | p <= last :: Delivered(w, p))
    && (forall p: nat | p < last :: !w.gapCancelled(p))
  }

  /**
   Pagination is exact: the listing succeeds exactly when each of its |catalog|/100 + 1 pages is delivered
   and no pause between them is cancelled, and then it returns the kept items of the whole catalog, once
   each and in order.
   */
  method Pull(w: Web, keep: CloverItem -> bool, ghost catalog: seq<CloverItem>)
    returns (r: Result<seq<CloverItem>>, pages: nat)
    requires Serves(w, catalog)
    ensures r.Success? ==> r.value == Kept(catalog, keep) && pages == |catalog| / PAGE_LIMIT + 1
    ensures r.Success? <==> AllDelivered(w, |catalog| / PAGE_LIMIT)
  {
    var out: seq<CloverItem> := [];
    var offset: nat := 0;
    pages := 0;
    while true
      invariant offset == pages * PAGE_LIMIT && offset <= |catalog|
      invariant out == Kept(catalog[..offset], keep)
      invariant forall p: nat | p < pages :: Delivered(w, p) && !w.gapCancelled(p)
      decreases |catalog| - offset
    {
      var body := FetchPage(w, offset);
      assert pages <= |catalog| / PAGE_LIMIT;
      if body.Failure? {
        assert !Delivered(w, pages);
        return Failure(body.error), pages;
      }
      if body.value.None? {
        assert !Delivered(w, pages);
        return Failure(Undecodable), pages;
      }
      var page := body.value.value;
      assert page == Page(catalog, offset);
      PageAppends(catalog, offset, keep);
      out := Append(out, page, keep);
      pages := pages + 1;
      if |page| < PAGE_LIMIT {
        assert catalog[..Least(offset + PAGE_LIMIT, |catalog|)] == catalog;
        return Success(out), pages;
      }
      if w.gapCancelled(pages - 1) {
        return Failure(Cancelled), pages;
      }
      offset := offset + PAGE_LIMIT;
    }
  }

  method FetchPage(w: Web, offset: nat) returns (body: Result<Option<seq<CloverItem>>>)
    ensures body == Fetched(w, offset)
  {
    var attempts, waited;
    body, attempts, waited := Get(w.serve(offset), w.cancelled(offset));
  }

  lemma PageAppends(catalog: seq<CloverItem>, offset: nat, keep: CloverItem -> bool)
    requires offset <= |catalog|
    ensures Kept(catalog[..Least(offset + PAGE_LIMIT, |catalog|)], keep)
         == Kept(catalog[..offset], keep) + Kept(Page(catalog, offset), keep)
  {
    assert catalog[..Least(offset + PAGE_LIMIT, |catalog|)] == catalog[..offset] + Page(catalog, offset);
    KeptAppend(catalog[..offset], Page(catalog, offset), keep);
  }

  method Append(out0: seq<CloverItem>, page: seq<CloverItem>, keep: CloverItem -> bool)
    returns (out: seq<CloverItem>)
    ensures out == out0 + Kept(page, keep)
  {
    out := out0;
    for k := 0 to |page|
      invariant out == out0 + Kept(page[..k], keep)
    {
      assert page[..k + 1][..k] == page[..k];
      if keep(page[k]) {
        out := out + [page[k]];
      }
    }
    assert page[..|page|] == page;
  }

  /** The full catalog without its hidden items. */
  method ListItems(w: Web, ghost catalog: seq<CloverItem>) returns (r: Result<seq<CloverItem>>, pages: nat)
    requires Serves(w, catalog)
    ensures r.Success? ==>
              r.value == Kept(catalog, (it: CloverItem) => !it.hidden) && pages == |catalog| / 100 + 1
    ensures r.Success? ==> forall it: CloverItem ::
              multiset(r.value)[it] == if it.hidden then 0 else multiset(catalog)[it]
    ensures r.Success? <==> AllDelivered(w, |catalog| / 100)
  {
    forall it: CloverItem
      ensures multiset(Kept(catalog, (it: CloverItem) => !it.hidden))[it]
           == if it.hidden then 0 else multiset(catalog)[it]
    {
      KeptExactly(catalog, (it: CloverItem) => !it.hidden, it);
    }
    r, pages := Pull(w, (it: CloverItem) => !it.hidden, catalog);
  }

  /** The items of a catalog modified at or after a time. */
  ghost function Modified(catalog: seq<CloverItem>, since: int): seq<CloverItem> {
    Kept(catalog, (it: CloverItem) => it.modifiedTime >= since)
  }

  /** The items the server filters by modification time, hidden ones included, page by page of the filtered list. */
  method ChangedSince(w: Web, since: int, ghost catalog: seq<CloverItem>)
    returns (r: Result<seq<CloverItem>>, pages: nat)
    requires Serves(w, Modified(catalog, since))
    ensures r.Success? ==>
              r.value == Modified(catalog, since) && pages == |Modified(catalog, since)| / 100 + 1
    ensures r.Success? ==> forall it: CloverItem ::
              multiset(r.value)[it] == if it.modifiedTime >= since then multiset(catalog)[it] else 0
    ensures r.Success? <==> AllDelivered(w, |Modified(catalog, since)| / 100)
  {
    forall it: CloverItem
      ensures multiset(Modified(catalog, since))[it] == if it.modifiedTime >= since then multiset(catalog)[it] else 0
    {
      KeptExactly(catalog, (it: CloverItem) => it.modifiedTime >= since, it);
    }
    ghost var changed := Modified(catalog, since);
    r, pages := Pull(w, _ => true, changed);
    KeepAll(changed, _ => true);
  }

  lemma {:induction false} KeepAll(its: seq<CloverItem>, keep: CloverItem -> bool)
    requires forall it :: keep(it)
    ensures Kept(its, keep) == its
  {
    if its != [] {
      KeepAll(its[..|its| - 1], keep);
    }
  }
}
