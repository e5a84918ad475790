/** The `find` operation of the USign node (nodes/USign/USign.node.ts:170-183):
    list an entity page by page until enough records are gathered or the
    server answers with a short page, then wrap every record for the host.

    The server is the caller-supplied function `fetch` from a listing URL to
    the records of that page; login, the bearer token and the HTTP transport
    are folded into it. */
module USign {
  import opened ListingUrl

  /** One entry of the node's output, `{ json: record }`. */
  datatype Item<R> = Item(json: R)

  /** One listing request the loop issued: its page number and page size. */
  datatype Request = Request(page: nat, perPage: nat)

  /** The server's cap on a page. */
  const MaxPerPage: nat := 100

  function Min(a: int, b: int): int {
    if a <= b then a else b
  }

  /** The loop guard, given how many records have been gathered so far. */
  predicate Continues(loadAll: bool, limit: int, have: nat) {
    (!loadAll && have < limit) || loadAll
  }

  /** The page size requested once `have` records are gathered: the cap when
      loading everything, otherwise the cap or what is still missing, whichever
      is smaller. */
  function PageSize(loadAll: bool, limit: int, have: nat): (size: int)
    ensures loadAll ==> size == MaxPerPage
    ensures !loadAll ==> size <= MaxPerPage && size <= limit - have
    ensures !loadAll ==> size == MaxPerPage || size == limit - have
    ensures Continues(loadAll, limit, have) ==> 1 <= size
  {
    if loadAll then MaxPerPage else Min(MaxPerPage, limit - have)
  }

  /** The records the server returns for one request. */
  function Response<R>(fetch: string -> seq<R>, l: Listing, rq: Request): seq<R> {
    fetch(Url(l, rq.perPage, rq.page))
  }

  /** A short page: fewer records than were asked for. */
  predicate Short<R>(fetch: string -> seq<R>, l: Listing, rq: Request) {
    |Response(fetch, l, rq)| < rq.perPage
  }

  /** The records gathered by a sequence of requests: the responses one after
      the other, each in the order the server gave it. */
  function Fetched<R>(fetch: string -> seq<R>, l: Listing, requests: seq<Request>): seq<R>
    decreases |requests|
  {
    if requests == [] then []
    else Fetched(fetch, l, requests[..|requests| - 1]) + Response(fetch, l, requests[|requests| - 1])
  }

  /** Every request was issued while the guard held, with the next page number
      and the page size that the records gathered before it call for. */
  ghost predicate Issued<R>(l: Listing, fetch: string -> seq<R>, loadAll: bool, limit: int, requests: seq<Request>) {
    forall i :: 0 <= i < |requests| ==>
      requests[i].page == i + 1
      && Continues(loadAll, limit, |Fetched(fetch, l, requests[..i])|)
      && requests[i].perPage == PageSize(loadAll, limit, |Fetched(fetch, l, requests[..i])|)
  }

  /** Issuing the next request keeps every request well issued, and adds its
      response after the records gathered so far. */
  lemma IssueNext<R>(l: Listing, fetch: string -> seq<R>, loadAll: bool, limit: int,
                     requests: seq<Request>, rq: Request)
    requires Issued(l, fetch, loadAll, limit, requests)
    requires rq.page == |requests| + 1
    requires Continues(loadAll, limit, |Fetched(fetch, l, requests)|)
    requires rq.perPage == PageSize(loadAll, limit, |Fetched(fetch, l, requests)|)
    ensures Issued(l, fetch, loadAll, limit, requests + [rq])
    ensures Fetched(fetch, l, requests + [rq]) == Fetched(fetch, l, requests) + Response(fetch, l, rq)
  {
    var next := requests + [rq];
    assert next[..|requests|] == requests;
    forall i | 0 <= i < |requests|
      ensures next[..i] == requests[..i]
    {
    }
  }

  /** No request before the last one got a short page. */
  ghost predicate FullUntilLast<R>(l: Listing, fetch: string -> seq<R>, requests: seq<Request>) {
    forall i :: 0 <= i < |requests| - 1 ==> !Short(fetch, l, requests[i])
  }

  /** The loop ended: the last page was short, or the guard fails. */
  ghost predicate Stopped<R>(l: Listing, fetch: string -> seq<R>, loadAll: bool, limit: int, requests: seq<Request>) {
    (requests != [] && Short(fetch, l, requests[|requests| - 1]))
    || !Continues(loadAll, limit, |Fetched(fetch, l, requests)|)
  }

  /** `requests` is the sequence of requests one run of `find` issues. */
  ghost predicate IsRun<R>(l: Listing, fetch: string -> seq<R>, loadAll: bool, limit: int, requests: seq<Request>) {
    Issued(l, fetch, loadAll, limit, requests)
    && FullUntilLast(l, fetch, requests)
    && Stopped(l, fetch, loadAll, limit, requests)
  }

  /** The server eventually answers a full-size request with a short page. */
  ghost predicate EventuallyShort<R>(l: Listing, fetch: string -> seq<R>) {
    exists n: nat :: 1 <= n && |fetch(Url(l, MaxPerPage, n))| < MaxPerPage
  }

  /** One output item per record, in the same order. */
  function Wrap<R>(records: seq<R>): (items: seq<Item<R>>)
    ensures |items| == |records|
    ensures forall i :: 0 <= i < |records| ==> items[i] == Item(records[i])
  {
    if records == [] then [] else [Item(records[0])] + Wrap(records[1..])
  }

  /** The `find` loop. Returns the node's output and the requests it issued. */
  method Find<R>(l: Listing, fetch: string -> seq<R>, loadAll: bool, limit: int)
    returns (output: seq<Item<R>>, requests: seq<Request>)
    requires loadAll ==> EventuallyShort(l, fetch)
    ensures IsRun(l, fetch, loadAll, limit, requests)
    ensures output == Wrap(Fetched(fetch, l, requests))
  {
    ghost var last: nat := 0;
    if loadAll {
      last :| 1 <= last && |fetch(Url(l, MaxPerPage, last))| < MaxPerPage;
    }
    var page: nat := 1;
    var allRecords: seq<R> := [];
    requests := [];
    while (!loadAll && |allRecords| < limit) || loadAll
      invariant page == |requests| + 1
      invariant allRecords == Fetched(fetch, l, requests)
      invariant Issued(l, fetch, loadAll, limit, requests)
      invariant forall i :: 0 <= i < |requests| ==> !Short(fetch, l, requests[i])
      invariant loadAll ==> page <= last
      decreases if loadAll then last - page else limit - |allRecords|
    {
      var perPage := if !loadAll && limit < 100 then limit else 100;
      perPage := if !loadAll && |allRecords| + perPage > limit then limit - |allRecords| else perPage;
      assert perPage == PageSize(loadAll, limit, |allRecords|);
      var url := Url(l, perPage, page);
      var records := fetch(url);
      IssueNext(l, fetch, loadAll, limit, requests, Request(page, perPage));
      allRecords := allRecords + records;
      requests := requests + [Request(page, perPage)];
      if |records| < perPage {
        break;
      }
      page := page + 1;
    }
    output := Wrap(allRecords);
  }

  /** What `Issued` says about the request at one position. */
  lemma IssuedAt<R>(l: Listing, fetch: string -> seq<R>, loadAll: bool, limit: int, requests: seq<Request>, i: nat)
    requires Issued(l, fetch, loadAll, limit, requests)
    requires i < |requests|
    ensures requests[i] == Request(i + 1, PageSize(loadAll, limit, |Fetched(fetch, l, requests[..i])|))
    ensures Continues(loadAll, limit, |Fetched(fetch, l, requests[..i])|)
  {
  }

  lemma PrefixStep<T>(s1: seq<T>, s2: seq<T>, i: nat)
    requires i < |s1| && i < |s2| && s1[..i] == s2[..i] && s1[i] == s2[i]
    ensures s1[..i + 1] == s2[..i + 1]
  {
    assert s1[..i + 1] == s1[..i] + [s1[i]];
    assert s2[..i + 1] == s2[..i] + [s2[i]];
  }

  /** Two runs that agree before position `i` issue the same request there. */
  lemma SameNextRequest<R>(l: Listing, fetch: string -> seq<R>, loadAll: bool, limit: int,
                           r1: seq<Request>, r2: seq<Request>, i: nat)
    requires Issued(l, fetch, loadAll, limit, r1) && Issued(l, fetch, loadAll, limit, r2)
    requires i < |r1| && i < |r2| && r1[..i] == r2[..i]
    ensures r1[i] == r2[i]
  {
    IssuedAt(l, fetch, loadAll, limit, r1, i);
    IssuedAt(l, fetch, loadAll, limit, r2, i);
  }

  /** The request each run issues at a position is fixed by the requests
      before it, so two runs agree on every common prefix. */
  lemma {:induction false} RunsAgreeOnPrefix<R>(l: Listing, fetch: string -> seq<R>, loadAll: bool, limit: int,
                                               r1: seq<Request>, r2: seq<Request>, k: nat)
    requires Issued(l, fetch, loadAll, limit, r1) && Issued(l, fetch, loadAll, limit, r2)
    requires k <= |r1| && k <= |r2|
    ensures r1[..k] == r2[..k]
  {
    if k > 0 {
      var i := k - 1;
      RunsAgreeOnPrefix(l, fetch, loadAll, limit, r1, r2, i);
      SameNextRequest(l, fetch, loadAll, limit, r1, r2, i);
      PrefixStep(r1, r2, i);
    }
  }

  /** If a sequence of well-issued requests goes on past position `n`, the
      guard held after its first `n` requests and none of them was short. */
  lemma RequestFollows<R>(l: Listing, fetch: string -> seq<R>, loadAll: bool, limit: int,
                          requests: seq<Request>, n: nat)
    requires Issued(l, fetch, loadAll, limit, requests) && FullUntilLast(l, fetch, requests)
    ensures n < |requests| ==> Continues(loadAll, limit, |Fetched(fetch, l, requests[..n])|)
    ensures n < |requests| && 0 < n ==> !Short(fetch, l, requests[n - 1])
  {
    if n < |requests| {
      IssuedAt(l, fetch, loadAll, limit, requests, n);
    }
  }

  /** The run specification admits at most one sequence of requests for given
      inputs, and `Find` supplies one whenever its precondition holds: it
      describes the loop completely. */
  lemma RunIsDetermined<R>(l: Listing, fetch: string -> seq<R>, loadAll: bool, limit: int,
                           r1: seq<Request>, r2: seq<Request>)
    requires IsRun(l, fetch, loadAll, limit, r1) && IsRun(l, fetch, loadAll, limit, r2)
    ensures r1 == r2
  {
    var n := Min(|r1|, |r2|);
    RunsAgreeOnPrefix(l, fetch, loadAll, limit, r1, r2, n);
    RequestFollows(l, fetch, loadAll, limit, r1, n);
    RequestFollows(l, fetch, loadAll, limit, r2, n);
    assert r1[..n] == r2[..n];
    assert n == |r1| ==> r1[..n] == r1;
    assert n == |r2| ==> r2[..n] == r2;
  }

  /** Page sizes: exactly the cap when loading everything; otherwise between
      1 and the cap, and never more than what is still missing. */
  lemma RequestSizes<R>(l: Listing, fetch: string -> seq<R>, loadAll: bool, limit: int,
                        requests: seq<Request>, i: nat)
    requires Issued(l, fetch, loadAll, limit, requests)
    requires i < |requests|
    ensures loadAll ==> requests[i].perPage == MaxPerPage
    ensures !loadAll ==> 1 <= requests[i].perPage <= MaxPerPage
    ensures !loadAll ==> requests[i].perPage <= limit - |Fetched(fetch, l, requests[..i])|
  {
  }

  /** If the server never returns more than it was asked for, a bounded run
      never gathers more than `limit` records. */
  lemma ResultWithinLimit<R>(l: Listing, fetch: string -> seq<R>, limit: int, requests: seq<Request>)
    requires IsRun(l, fetch, false, limit, requests)
    requires forall i :: 0 <= i < |requests| ==> |Response(fetch, l, requests[i])| <= requests[i].perPage
    ensures |Fetched(fetch, l, requests)| <= if limit < 0 then 0 else limit
  {
    if requests != [] {
      var n := |requests| - 1;
      assert Fetched(fetch, l, requests)
          == Fetched(fetch, l, requests[..n]) + Response(fetch, l, requests[n]);
    }
  }

  /** A bounded run gathers fewer than `limit` records only when the server
      answered its last request with a short page. */
  lemma FewerThanLimitMeansShortPage<R>(l: Listing, fetch: string -> seq<R>, limit: int, requests: seq<Request>)
    requires IsRun(l, fetch, false, limit, requests)
    requires |Fetched(fetch, l, requests)| < limit
    ensures requests != [] && Short(fetch, l, requests[|requests| - 1])
  {
  }

  /** With loading everything off and `limit <= 0`, the loop body never runs:
      the only run issues no request and gathers nothing. */
  lemma NonPositiveLimitIssuesNothing<R>(l: Listing, fetch: string -> seq<R>, limit: int)
    requires limit <= 0
    ensures forall requests :: IsRun(l, fetch, false, limit, requests) <==> requests == []
    ensures forall requests :: IsRun(l, fetch, false, limit, requests) ==> Fetched(fetch, l, requests) == []
  {
    forall requests | IsRun(l, fetch, false, limit, requests)
      ensures requests == []
    {
      if requests != [] {
        IssuedAt(l, fetch, false, limit, requests, 0);
        assert false;
      }
    }
  }

  /** When loading everything, `limit` plays no part. */
  lemma LoadAllIgnoresLimit<R>(l: Listing, fetch: string -> seq<R>, limit1: int, limit2: int, requests: seq<Request>)
    ensures IsRun(l, fetch, true, limit1, requests) <==> IsRun(l, fetch, true, limit2, requests)
  {
  }

  /** When loading everything, the run ends only on a short page to a
      full-size request, so the server must eventually send one. */
  lemma LoadAllEndsOnShortPage<R>(l: Listing, fetch: string -> seq<R>, limit: int, requests: seq<Request>)
    requires IsRun(l, fetch, true, limit, requests)
    ensures requests != [] && Short(fetch, l, requests[|requests| - 1])
    ensures forall i :: 0 <= i < |requests| ==> requests[i].perPage == MaxPerPage
    ensures EventuallyShort(l, fetch)
  {
    var n := |requests|;
    assert requests[n - 1].page == n && requests[n - 1].perPage == MaxPerPage;
    assert |fetch(Url(l, MaxPerPage, n))| < MaxPerPage;
  }

  /** No URL is requested twice in a run, so a server that answers by URL
      sees each (page size, page number) pair at most once. */
  lemma RunUrlsDistinct<R>(l: Listing, fetch: string -> seq<R>, loadAll: bool, limit: int,
                           requests: seq<Request>, i: nat, j: nat)
    requires Issued(l, fetch, loadAll, limit, requests)
    requires i < j < |requests|
    ensures Url(l, requests[i].perPage, requests[i].page) != Url(l, requests[j].perPage, requests[j].page)
  {
    IssuedAt(l, fetch, loadAll, limit, requests, i);
    IssuedAt(l, fetch, loadAll, limit, requests, j);
    if Url(l, requests[i].perPage, requests[i].page) == Url(l, requests[j].perPage, requests[j].page) {
      UrlDeterminesQuery(l, requests[i].perPage, requests[i].page, requests[j].perPage, requests[j].page);
    }
  }

  /** No request follows a short page. */
  lemma ShortPageIsLast<R>(l: Listing, fetch: string -> seq<R>, loadAll: bool, limit: int,
                           requests: seq<Request>, i: nat)
    requires IsRun(l, fetch, loadAll, limit, requests)
    requires i < |requests| && Short(fetch, l, requests[i])
    ensures i == |requests| - 1
  {
  }

  /** The records of the requests up to `k` come first, then the rest. */
  lemma {:induction false} FetchedSplit<R>(fetch: string -> seq<R>, l: Listing, requests: seq<Request>, k: nat)
    requires k <= |requests|
    ensures Fetched(fetch, l, requests) == Fetched(fetch, l, requests[..k]) + Fetched(fetch, l, requests[k..])
    decreases |requests|
  {
    if k == |requests| {
      assert requests[..k] == requests;
      assert requests[k..] == [];
    } else {
      var n := |requests|;
      var init, last := requests[..n - 1], requests[n - 1];
      FetchedSplit(fetch, l, init, k);
      DropLastSlices(requests, k);
      assert Fetched(fetch, l, requests[k..]) == Fetched(fetch, l, init[k..]) + Response(fetch, l, last);
    }
  }

  /** How slicing at `k` interacts with dropping the last element. */
  lemma DropLastSlices<T>(s: seq<T>, k: nat)
    requires k < |s|
    ensures s[..|s| - 1][..k] == s[..k]
    ensures s[k..][..|s| - k - 1] == s[..|s| - 1][k..]
    ensures s[k..][|s| - k - 1] == s[|s| - 1]
  {
  }

  /** Every record of a page lands right after the records of the pages
      before it, in the order the server sent it: nothing is reordered or
      dropped. */
  lemma RecordsInPageOrder<R>(fetch: string -> seq<R>, l: Listing, requests: seq<Request>, i: nat, j: nat)
    requires i < |requests| && j < |Response(fetch, l, requests[i])|
    ensures |Fetched(fetch, l, requests[..i])| + j < |Fetched(fetch, l, requests)|
    ensures Fetched(fetch, l, requests)[|Fetched(fetch, l, requests[..i])| + j] == Response(fetch, l, requests[i])[j]
  {
    FetchedSplit(fetch, l, requests, i);
    var rest := requests[i..];
    FetchedSplit(fetch, l, rest, 1);
    assert rest[..1] == [requests[i]];
    assert Fetched(fetch, l, [requests[i]]) == Response(fetch, l, requests[i]) by {
      assert [requests[i]][..0] == [];
    }
  }

  /** With a limit of 150 and full pages, the loop asks for 100 records on
      page 1, then 50 on page 2, and stops with 150 records. */
  lemma LimitOf150<R>(l: Listing, fetch: string -> seq<R>)
    requires |fetch(Url(l, 100, 1))| == 100 && |fetch(Url(l, 50, 2))| == 50
    ensures forall requests :: IsRun(l, fetch, false, 150, requests) <==> requests == [Request(1, 100), Request(2, 50)]
    ensures |Fetched(fetch, l, [Request(1, 100), Request(2, 50)])| == 150
  {
    var run := [Request(1, 100), Request(2, 50)];
    assert run[..0] == [] && run[..1] == [Request(1, 100)] && run[..2] == run;
    assert [Request(1, 100)][..0] == [];
    assert IsRun(l, fetch, false, 150, run);
    forall requests | IsRun(l, fetch, false, 150, requests)
      ensures requests == run
    {
      RunIsDetermined(l, fetch, false, 150, requests, run);
    }
  }

  /** Loading everything from a server whose pages hold 100, 100 and 37
      records takes three requests and gathers 237 records. */
  lemma LoadAllOf237<R>(l: Listing, fetch: string -> seq<R>, limit: int)
    requires |fetch(Url(l, 100, 1))| == 100 && |fetch(Url(l, 100, 2))| == 100
    requires |fetch(Url(l, 100, 3))| == 37
    ensures forall requests :: IsRun(l, fetch, true, limit, requests)
                               <==> requests == [Request(1, 100), Request(2, 100), Request(3, 100)]
    ensures |Fetched(fetch, l, [Request(1, 100), Request(2, 100), Request(3, 100)])| == 237
  {
    var run := [Request(1, 100), Request(2, 100), Request(3, 100)];
    assert run[..0] == [] && run[..1] == [Request(1, 100)] && run[..2] == [Request(1, 100), Request(2, 100)];
    assert run[..3] == run;
    assert [Request(1, 100)][..0] == [];
    assert [Request(1, 100), Request(2, 100)][..1] == [Request(1, 100)];
    assert IsRun(l, fetch, true, limit, run);
    forall requests | IsRun(l, fetch, true, limit, requests)
      ensures requests == run
    {
      RunIsDetermined(l, fetch, true, limit, requests, run);
    }
  }
}
