# USign node: paginated `find`

This project models the `find` operation of the USign workflow node. The node
lists the records of one entity of the uSign REST service. It asks for pages
1, 2, 3, … of `{urlBase}/{entity}/?noCache=true&tree=…&perPage=…&page=…`,
appends each page's records to an accumulator, and stops in one of two cases.
The first is a short page, meaning fewer records than requested. The second,
when "Load All Records" is off, is having gathered at least `limit` records
(more when the server returns more than it was asked for; none when `limit`
is 0 or less). Every record is then wrapped as `{ json: record }` for the host.

The model has two modules:

- `ListingUrl` (`listing_url.dfy`) builds the listing URL. It prints numbers
  in decimal and proves that the URL determines the page size and the page
  number it asks for.
- `USign` (`usign_find.dfy`) holds the loop itself, as the method `Find`, with
  a `while` loop over a `seq` accumulator. It also holds the specification the
  loop is proved against: `IsRun`, which characterises the sequence of requests
  one run issues. The lemmas state the operation's properties in terms of that
  specification.

The service is a parameter: a total function `fetch` from a listing URL to the
records of that page. Login, the bearer token and the HTTP transport are folded
into it. The method returns the node's output and the requests it issued, each
a page number and a page size. `RunIsDetermined` proves that `IsRun` admits
at most one such sequence, and `Find` supplies one whenever its precondition
holds, so `Find`'s postcondition pins its behaviour down completely. When
loading everything from a server that never sends a short page, no sequence
is a run at all (`LoadAllEndsOnShortPage`).

`limit` is an unbounded integer and is not validated, as in the code. The
host's form asks for a minimum of 1, but the loop itself accepts any value.
With loading everything off and `limit <= 0`, no request is issued. Any other
value, including a limit above 100, follows the code's clamping to
`min(100, limit - gathered)`.

## Model

| member | source | states |
|---|---|---|
| `ListingUrl.Decimal` | nodes/USign/USign.node.ts:176 | a page number or size is printed as a non-empty string of decimal digits with a leading zero only for 0 |
| `ListingUrl.DecimalRoundTrip` | nodes/USign/USign.node.ts:176 | reading the printed digits back yields the original number |
| `ListingUrl.UrlDeterminesQuery` | nodes/USign/USign.node.ts:176 | two listing URLs of the same listing are equal only if they ask for the same page size and page number |
| `ListingUrl.Url` | nodes/USign/USign.node.ts:176 | builds the listing URL `{urlBase}/{entity}/?noCache=true&tree={true or false}&perPage={perPage}&page={page}`; what is proved about it is in `ListingUrl.UrlDeterminesQuery` |
| `USign.Continues` | nodes/USign/USign.node.ts:172 | the loop guard (go on while loading everything, or while fewer than `limit` records are gathered), as a predicate on the number of records gathered; used by `USign.IsRun` |
| `USign.Response` | nodes/USign/USign.node.ts:178-179 | the records one GET of the request's listing URL returns (`records.data.data`); `USign.Short`, `USign.Fetched` and `USign.ResultWithinLimit` are stated through it |
| `USign.Short` | nodes/USign/USign.node.ts:180 | a short page: the server returned fewer records than the request's page size; used by `USign.IsRun` |
| `USign.Fetched` | nodes/USign/USign.node.ts:179 | the accumulator after a sequence of requests: each response appended after the ones before it; proved about in `USign.FetchedSplit` and `USign.RecordsInPageOrder` |
| `USign.IsRun` | nodes/USign/USign.node.ts:172-181 | the specification of one run of the loop that `USign.Find` is proved against: pages 1, 2, … each asked for while the guard held with the page size `USign.PageSize` gives, every page but the last full, and the run ended on a short page or a failing guard |
| `USign.PageSize` | nodes/USign/USign.node.ts:173-175 | the page size is exactly 100 when loading everything; otherwise at most 100, at most what is still missing, equal to one of the two, and at least 1 whenever the loop guard holds |
| `USign.Wrap` | nodes/USign/USign.node.ts:182 | the output has one `{ json: record }` entry per gathered record, at the same position |
| `USign.Find` | nodes/USign/USign.node.ts:170-183 | the loop issues exactly the requests of a run (pages 1, 2, … with the page size the code computes; the guard holds before each request; every page but the last is full; it stops on a short page or when the guard fails), and it outputs the wrapped concatenation of the responses |
| `USign.IssueNext` | nodes/USign/USign.node.ts:172-179 | issuing the next request while the guard holds keeps the run well formed and appends its response after the records gathered so far |
| `USign.RunsAgreeOnPrefix` | nodes/USign/USign.node.ts:172-176 | two runs with the same inputs issue the same requests on every common prefix |
| `USign.RunIsDetermined` | nodes/USign/USign.node.ts:172-180 | for given inputs and server, at most one sequence of requests is a run |
| `USign.RequestSizes` | nodes/USign/USign.node.ts:172-175 | each request asks for 100 records when loading everything; otherwise between 1 and 100, and never more than `limit` minus the records already gathered |
| `USign.ResultWithinLimit` | nodes/USign/USign.node.ts:172-180 | with loading everything off and a server that never returns more than requested, the result holds at most `max(limit, 0)` records |
| `USign.FewerThanLimitMeansShortPage` | nodes/USign/USign.node.ts:172-180 | with loading everything off, a result with fewer than `limit` records means the last request was answered with a short page |
| `USign.NonPositiveLimitIssuesNothing` | nodes/USign/USign.node.ts:172 | with loading everything off and `limit <= 0`, the only run issues no request and gathers nothing |
| `USign.LoadAllIgnoresLimit` | nodes/USign/USign.node.ts:172-175 | when loading everything, a sequence of requests is a run for one `limit` exactly when it is a run for any other |
| `USign.LoadAllEndsOnShortPage` | nodes/USign/USign.node.ts:172-180 | when loading everything, a run issues at least one request, every request asks for 100, the last one gets a short page, and so the server does send a short page for some full-size request |
| `USign.RunUrlsDistinct` | nodes/USign/USign.node.ts:172-178 | no URL is requested twice within one run |
| `USign.ShortPageIsLast` | nodes/USign/USign.node.ts:180 | a request that gets a short page is the last request of the run |
| `USign.FetchedSplit` | nodes/USign/USign.node.ts:179 | the gathered records are the records of the first `k` requests followed by those of the rest |
| `USign.RecordsInPageOrder` | nodes/USign/USign.node.ts:179 | record `j` of page `i` sits right after the records of the pages before `i`, so nothing is reordered, dropped or de-duplicated |
| `USign.LimitOf150` | nodes/USign/USign.node.ts:172-180 | with `limit` 150 and full pages, the only run asks for 100 records on page 1 and then 50 on page 2, and gathers 150 records |
| `USign.LoadAllOf237` | nodes/USign/USign.node.ts:172-180 | when loading everything from pages of 100, 100 and 37 records, the only run makes three requests of 100 and gathers 237 records |

## Left out

- USign.Find: when loading everything, it requires that the server eventually answers some full-size page with a short one. Against a server that always fills its pages, the code loops forever, and the model cannot represent a loop that never ends. `LoadAllEndsOnShortPage` shows that every run ends this way.
- A failed HTTP call is not modelled. In the code it aborts the whole operation with no partial result; `fetch` here is total.
- The server is a function, so it answers the same URL the same way. `RunUrlsDistinct` shows that a run never repeats a URL, so this assumption costs nothing.
- Page numbers, page sizes and record counts are unbounded integers in the model. In the code they are JavaScript numbers: `page += 1` stops advancing at 2^53 (so URLs would repeat, which `USign.RunUrlsDistinct` rules out for the model), an array's length is capped at 2^32 - 1, spreading a very large page into `push` (nodes/USign/USign.node.ts:179) throws, and numbers from 10^21 up print in exponent form rather than as `ListingUrl.Decimal` digits. These sizes are out of reach in practice; the spread of the whole result at line 182, below, is not.
- USign.Find: returns `Wrap` of every gathered record whatever their number. The code instead hands the whole result to a single `returnData.push(...)` as spread arguments (nodes/USign/USign.node.ts:182). The JavaScript engine caps the number of arguments a call can take, at an engine-dependent size in the order of 10^5. So a large listing, reachable with "Load All Records" on, makes that call throw, and the catch at lines 205-206 turns it into an operation failure with no output. The model has no argument-count limit and does not capture that failure.
- Non-integer `limit` values are not modelled, and neither is JavaScript's number formatting of them; the model takes `limit` as an integer.
- The `get`, `delete` and `put` operations (nodes/USign/USign.node.ts:184-201) are each a single pass-through HTTP call, and `put` also calls the foreign `JSON.parse`.
- Login and token handling (nodes/USign/USign.node.ts:158-166) are network I/O; `fetch` stands for the authenticated call.
- Reading credentials and parameters, and the debug and warning logging (nodes/USign/USign.node.ts:142-154, 163, 177), are host runtime plumbing.
- Wrapping errors into `NodeOperationError` (nodes/USign/USign.node.ts:202-207) only relabels I/O failures.
- The node descriptor (nodes/USign/USign.node.ts:11-98) is static configuration, and the commented-out `getEntidades` loader (nodes/USign/USign.node.ts:100-136) is dead code.
- `async`/`await` suspension is not modelled: the calls are strictly sequential.
