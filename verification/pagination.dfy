/**
 * The pagination driver `fetch_all`: it asks for pages at increasing
 * offsets, passes every record on in order, and stops at an empty page, at
 * a page shorter than the page size, or once `max_records` records have
 * been passed on. The HTTP layer is replaced by a list of answers: the
 * `k`-th request receives `pages[k]`, where `None` stands for a request
 * exception, and once the list is used up the server answers with an
 * empty page.
 */
module Pagination {
  import opened Records

  /** The answer to the `k`-th page request. */
  function ResponseAt(pages: seq<Option<seq<Record>>>, k: nat): Option<seq<Record>> {
    if k < |pages| then pages[k] else Some([])
  }

  /** A page after which `fetch_all` asks for the next one: neither empty nor short. */
  predicate IsFullPage(response: Option<seq<Record>>, pageSize: nat) {
    response.Some? && |response.value| > 0 && |response.value| >= pageSize
  }

  /** The records of the answers to the first `n` requests, in order; a failed request contributes none. */
  function RecordsBefore(pages: seq<Option<seq<Record>>>, n: nat): seq<Record>
    requires n <= |pages|
  {
    if n == 0 then []
    else RecordsBefore(pages, n - 1) + (if pages[n - 1].Some? then pages[n - 1].value else [])
  }

  /** What a run of `fetch_all` without a record limit passes on, and whether it raised. */
  datatype Drained = Drained(records: seq<Record>, failed: bool)

  /** `fetch_all` without a record limit, from the `n`-th request on. */
  function DrainFrom(pages: seq<Option<seq<Record>>>, pageSize: nat, n: nat): Drained
    decreases |pages| - n
  {
    if n >= |pages| then Drained([], false)
    else
      match pages[n]
      case None => Drained([], true)
      case Some(page) =>
        if |page| == 0 then Drained([], false)
        else if |page| < pageSize then Drained(page, false)
        else
          var rest := DrainFrom(pages, pageSize, n + 1);
          Drained(page + rest.records, rest.failed)
  }

  /** `fetch_all` without a record limit. */
  function Drain(pages: seq<Option<seq<Record>>>, pageSize: nat): Drained {
    DrainFrom(pages, pageSize, 0)
  }

  /**
   * The limit `max_records` imposes: none when it is `None` or zero;
   * otherwise the run stops as soon as the count reaches it, which for a
   * negative value is right after the first record.
   */
  function Limit(maxRecords: Option<int>): Option<nat> {
    if maxRecords.Some? && maxRecords.value != 0 then
      Some(if maxRecords.value > 0 then maxRecords.value else 1)
    else None
  }

  /** The records passed on under a limit: a prefix of `records` of length min(limit, |records|). */
  function Take(records: seq<Record>, limit: Option<nat>): (r: seq<Record>)
    ensures r <= records
    ensures limit.None? ==> r == records
    ensures limit.Some? ==> |r| == if limit.value < |records| then limit.value else |records|
  {
    match limit
    case None => records
    case Some(n) => if |records| <= n then records else records[..n]
  }

  /** Whether the limit is reached before the run would end by itself. */
  predicate LimitReached(available: seq<Record>, limit: Option<nat>) {
    limit.Some? && |available| >= limit.value
  }

  /** Every request before the `n`-th was answered with a full page. */
  ghost predicate FullPagesBefore(pages: seq<Option<seq<Record>>>, pageSize: nat, n: nat) {
    forall k :: 0 <= k < n ==> IsFullPage(ResponseAt(pages, k), pageSize)
  }

  /** The `k`-th request was made at the offset that counts the records of the pages before it. */
  ghost predicate OffsetsCountRecords(pages: seq<Option<seq<Record>>>, offsets: seq<nat>) {
    && |offsets| <= |pages| + 1
    && forall k :: 0 <= k < |offsets| ==> k <= |pages| && offsets[k] == |RecordsBefore(pages, k)|
  }

  /** Logging the request for the `n`-th page at the offset that counts the records before it. */
  lemma LogRequest(pages: seq<Option<seq<Record>>>, offsets: seq<nat>, n: nat)
    requires |offsets| == n <= |pages| && OffsetsCountRecords(pages, offsets)
    ensures OffsetsCountRecords(pages, offsets + [|RecordsBefore(pages, n)|])
  {
  }

  /**
   * `fetch_all`. `yielded` is everything the generator passes on,
   * `offsets` the offset of each page request in turn, and `failed` whether
   * the generator ended by re-raising a request exception. The last request
   * is the one that ended the run: its answer was a failure, an empty page
   * or a short page, or the limit was reached within its page; no earlier
   * page reached the limit. The source
   * leaves its `while True` loop with `break` or `return`; nothing follows
   * the loop, so every exit is written as `return` here.
   */
  method FetchAll(pages: seq<Option<seq<Record>>>, pageSize: nat, maxRecords: Option<int>)
    returns (yielded: seq<Record>, offsets: seq<nat>, failed: bool)
    ensures 1 <= |offsets| <= |pages| + 1
    ensures FullPagesBefore(pages, pageSize, |offsets| - 1)
    ensures OffsetsCountRecords(pages, offsets)
    ensures !IsFullPage(ResponseAt(pages, |offsets| - 1), pageSize) ||
            (|offsets| - 1 < |pages| && LimitReached(RecordsBefore(pages, |offsets|), Limit(maxRecords)))
    ensures forall k :: 1 <= k < |offsets| ==> !LimitReached(RecordsBefore(pages, k), Limit(maxRecords))
    ensures yielded == Take(Drain(pages, pageSize).records, Limit(maxRecords))
    ensures failed <==> Drain(pages, pageSize).failed &&
                        !LimitReached(Drain(pages, pageSize).records, Limit(maxRecords))
  {
    var offset := 0;
    var totalFetched := 0;
    yielded, offsets, failed := [], [], false;
    ghost var limit := Limit(maxRecords);
    ghost var whole := Drain(pages, pageSize);
    var call := 0;  // which scripted answer the next request receives
    while true
      invariant call <= |pages| && |offsets| == call
      invariant FullPagesBefore(pages, pageSize, call)
      invariant OffsetsCountRecords(pages, offsets)
      invariant yielded == RecordsBefore(pages, call)
      invariant forall k :: 1 <= k <= call ==> |RecordsBefore(pages, k)| <= |yielded|
      invariant offset == totalFetched == |yielded|
      invariant whole == Drained(yielded + DrainFrom(pages, pageSize, call).records,
                                 DrainFrom(pages, pageSize, call).failed)
      invariant !LimitReached(yielded, limit)
      decreases |pages| - call
    {
      ghost var tail := DrainFrom(pages, pageSize, call);
      LogRequest(pages, offsets, call);
      offsets := offsets + [offset];
      var response := ResponseAt(pages, call);
      if response.None? {
        assert tail == Drained([], true);
        RunEnds(whole, yielded, tail, limit);
        failed := true;
        return;
      }
      var records := response.value;
      if |records| == 0 {
        assert tail == Drained([], false);
        RunEnds(whole, yielded, tail, limit);
        return;
      }
      PageStartsRest(pages, call, pageSize);
      ghost var before := yielded;
      var stopped;
      yielded, stopped := PassOnPage(records, maxRecords, yielded);
      totalFetched := |yielded|;
      if stopped {
        assert RecordsBefore(pages, call + 1) == before + records;
        LimitReachedInPage(whole, before, tail, records, limit);
        return;
      }
      offset := offset + |records|;
      if |records| < pageSize {
        RunEnds(whole, before, tail, limit);
        return;
      }
      NextPage(pages, call, pageSize, before, whole);
      call := call + 1;
    }
  }

  /** The run ends by itself, below the limit, after passing on `yielded` and then `tail`. */
  lemma RunEnds(whole: Drained, yielded: seq<Record>, tail: Drained, limit: Option<nat>)
    requires whole == Drained(yielded + tail.records, tail.failed)
    requires !LimitReached(yielded + tail.records, limit)
    ensures Take(whole.records, limit) == yielded + tail.records
    ensures (whole.failed && !LimitReached(whole.records, limit)) <==> tail.failed
  {
  }

  /** The limit is reached inside `page`, the first page of `tail`. */
  lemma LimitReachedInPage(whole: Drained, before: seq<Record>, tail: Drained,
                           page: seq<Record>, limit: Option<nat>)
    requires whole == Drained(before + tail.records, tail.failed)
    requires page <= tail.records
    requires LimitReached(before + page, limit)
    ensures Take(whole.records, limit) == Take(before + page, limit)
    ensures LimitReached(whole.records, limit)
  {
    assert before + page <= whole.records;
  }

  /**
   * The inner loop of `fetch_all` over one page: each record is passed on
   * and counted, and the generator returns as soon as the count reaches a
   * truthy `max_records`.
   */
  method PassOnPage(page: seq<Record>, maxRecords: Option<int>, yielded: seq<Record>)
    returns (passed: seq<Record>, stopped: bool)
    requires !LimitReached(yielded, Limit(maxRecords))
    ensures passed == Take(yielded + page, Limit(maxRecords))
    ensures stopped <==> LimitReached(yielded + page, Limit(maxRecords))
  {
    ghost var limit := Limit(maxRecords);
    passed := yielded;
    var totalFetched := |yielded|;
    for j := 0 to |page|
      invariant passed == yielded + page[..j]
      invariant totalFetched == |passed|
      invariant !LimitReached(passed, limit)
    {
      passed := passed + [page[j]];
      totalFetched := totalFetched + 1;
      assert page[..j + 1] == page[..j] + [page[j]];
      if maxRecords.Some? && maxRecords.value != 0 && totalFetched >= maxRecords.value {
        assert (yielded + page)[..|passed|] == passed;
        return passed, true;
      }
    }
    assert page[..|page|] == page;
    stopped := false;
  }

  /** A non-empty answered page is where the rest of the run starts. */
  lemma PageStartsRest(pages: seq<Option<seq<Record>>>, n: nat, pageSize: nat)
    requires ResponseAt(pages, n).Some? && |ResponseAt(pages, n).value| > 0
    ensures n < |pages|
    ensures pages[n].value <= DrainFrom(pages, pageSize, n).records
    ensures |pages[n].value| < pageSize ==> DrainFrom(pages, pageSize, n) == Drained(pages[n].value, false)
  {
  }

  /** After a full page the run goes on with the next request, and the records so far grow by that page. */
  lemma NextPage(pages: seq<Option<seq<Record>>>, n: nat, pageSize: nat,
                 before: seq<Record>, whole: Drained)
    requires n < |pages| && IsFullPage(pages[n], pageSize)
    requires whole == Drained(before + DrainFrom(pages, pageSize, n).records, DrainFrom(pages, pageSize, n).failed)
    ensures RecordsBefore(pages, n + 1) == RecordsBefore(pages, n) + pages[n].value
    ensures whole == Drained((before + pages[n].value) + DrainFrom(pages, pageSize, n + 1).records,
                             DrainFrom(pages, pageSize, n + 1).failed)
  {
    assert DrainFrom(pages, pageSize, n).records == pages[n].value + DrainFrom(pages, pageSize, n + 1).records;
  }

  /**
   * From the `m`-th request, a run that meets the first page that is not
   * full at request `n` passes on the pages from `m` up to `n` and then
   * that page's records if it was answered, and it raises exactly when
   * that request failed.
   */
  lemma {:induction false} DrainFromStops(pages: seq<Option<seq<Record>>>, pageSize: nat, m: nat, n: nat)
    requires m <= n < |pages|
    requires forall k :: m <= k < n ==> IsFullPage(pages[k], pageSize)
    requires !IsFullPage(pages[n], pageSize)
    ensures RecordsBefore(pages, m) + DrainFrom(pages, pageSize, m).records ==
            RecordsBefore(pages, n) + (if pages[n].Some? then pages[n].value else [])
    ensures DrainFrom(pages, pageSize, m).failed <==> pages[n].None?
    decreases n - m
  {
    if m < n {
      DrainFromStops(pages, pageSize, m + 1, n);
      assert RecordsBefore(pages, m + 1) == RecordsBefore(pages, m) + pages[m].value;
      assert DrainFrom(pages, pageSize, m).records == pages[m].value + DrainFrom(pages, pageSize, m + 1).records;
    }
  }

  /**
   * The run passes on every page before the first one that is not full,
   * then that page's records if it was answered, and it raises exactly when
   * that page's request failed.
   */
  lemma DrainStopsAtFirstPartialPage(pages: seq<Option<seq<Record>>>, pageSize: nat, n: nat)
    requires n < |pages|
    requires forall k :: 0 <= k < n ==> IsFullPage(pages[k], pageSize)
    requires !IsFullPage(pages[n], pageSize)
    ensures Drain(pages, pageSize).records ==
            RecordsBefore(pages, n) + (if pages[n].Some? then pages[n].value else [])
    ensures Drain(pages, pageSize).failed <==> pages[n].None?
  {
    DrainFromStops(pages, pageSize, 0, n);
  }

  /** From the `m`-th request on, when every answer is a full page the run passes all of them on. */
  lemma {:induction false} DrainFromAllFull(pages: seq<Option<seq<Record>>>, pageSize: nat, m: nat)
    requires m <= |pages|
    requires forall k :: m <= k < |pages| ==> IsFullPage(pages[k], pageSize)
    ensures RecordsBefore(pages, m) + DrainFrom(pages, pageSize, m).records == RecordsBefore(pages, |pages|)
    ensures !DrainFrom(pages, pageSize, m).failed
    decreases |pages| - m
  {
    if m < |pages| {
      DrainFromAllFull(pages, pageSize, m + 1);
      assert RecordsBefore(pages, m + 1) == RecordsBefore(pages, m) + pages[m].value;
    }
  }

  /** When every scripted answer is a full page, the run passes all of them on and ends normally. */
  lemma DrainAllFullPages(pages: seq<Option<seq<Record>>>, pageSize: nat)
    requires forall k :: 0 <= k < |pages| ==> IsFullPage(pages[k], pageSize)
    ensures Drain(pages, pageSize) == Drained(RecordsBefore(pages, |pages|), false)
  {
    DrainFromAllFull(pages, pageSize, 0);
  }

  /** From the `m`-th request on, the run passes on records in page order, skipping none. */
  lemma {:induction false} DrainFromIsPrefix(pages: seq<Option<seq<Record>>>, pageSize: nat, m: nat)
    requires m <= |pages|
    ensures RecordsBefore(pages, m) + DrainFrom(pages, pageSize, m).records <= RecordsBefore(pages, |pages|)
    decreases |pages| - m
  {
    if m < |pages| {
      DrainFromIsPrefix(pages, pageSize, m + 1);
      var next := RecordsBefore(pages, m + 1);
      assert next == RecordsBefore(pages, m) + (if pages[m].Some? then pages[m].value else []);
      if IsFullPage(pages[m], pageSize) {
        assert RecordsBefore(pages, m) + DrainFrom(pages, pageSize, m).records ==
               next + DrainFrom(pages, pageSize, m + 1).records;
      } else {
        PrefixOfLonger(RecordsBefore(pages, m), DrainFrom(pages, pageSize, m).records, next,
                       RecordsBefore(pages, |pages|));
      }
    }
  }

  lemma PrefixOfLonger(a: seq<Record>, b: seq<Record>, c: seq<Record>, d: seq<Record>)
    requires a + b <= c && c <= d
    ensures a + b <= d
  {
  }

  /** Whatever the answers, the run passes on records in page order, skipping none before it stops. */
  lemma DrainIsPrefixOfPages(pages: seq<Option<seq<Record>>>, pageSize: nat)
    ensures Drain(pages, pageSize).records <= RecordsBefore(pages, |pages|)
  {
    DrainFromIsPrefix(pages, pageSize, 0);
  }
}
