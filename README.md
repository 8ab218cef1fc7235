# SVEx-Crawler crawl controller in Dafny

SVEx-Crawler collects, for Pokémon generations 6 and 7, the Reddit threads of
r/SVExchange that announce a trainer's shiny value (TSV). It builds a table of
4096 slots, one per TSV, listing `{user, link}` for each thread. This project
models the control logic of `crawl.py` that does the work:

- `retry(times, except_handler)` (module `Retry`, file `retry.dfy`). The wrapped
  call is a sequence of attempt outcomes (`Ok(value)` or `Raise(error)`), and
  the handler is a log of the exceptions passed to it. `Retry.Run` is the
  wrapper's counted loop with its early `return`. It is proved against the
  specification functions `FirstOk`, `Calls` and `Outcome`.
- `get_all_tsvs(token, generation)` (module `Crawler`, file `crawl.dfy`). The
  search endpoint is an abstract page source: `source[k]` lists the outcomes of
  the successive attempts of the k-th request. Each outcome is a page
  `(after, children)` or an exception. Every request goes through `retry` with
  three attempts.
  - `Crawler.GetAllTsvs` is the `while True` loop. It fills a 4096-slot
    `array<seq<Entry>>` in place.
  - `Crawler.RecordPage` is the inner `for`/`else` loop with its `break`.
  - `GetAllTsvs` is proved equal to the functional description `Crawl`/`Walk`,
    which gives the requests made, the pages received, the children recorded
    and how the crawl ends. The table returned is `Fill` of the recorded
    children.
  - `RecordPage` is proved against the scan function `ScanPage` and the table
    function `Fill`.
- Properties of that description (module `CrawlProperties`, file
  `crawl_properties.dfy`):
  - the table's shape and contents;
  - the stale-child stop;
  - when another page is requested;
  - cursor threading;
  - how each kind of exception ends the crawl.

Decisions the model makes explicit:

- **Slots.** A title is what Python's `int()` makes of it, `None` when `int()`
  raises. `tsvs[t]` uses Python indexing: `0 <= t < 4096` is slot `t`, and
  `-4096 <= t < 0` is slot `t + 4096`. Any other integer raises `IndexError`.
- **Errors abort the crawl.** A bad title, or a request whose three attempts
  all fail, raises out of `get_all_tsvs`, because `retry` wraps only
  `get_tsvs`. The outcome is then `Failed(error)` and no table is returned.
- **Recording order.** A child is recorded before its age is tested. The stale
  child is therefore in the table, and processing stops right after it.
- **Next page.** Another page is requested only when the scan of the current
  page ended without `break`, the page was non-empty, and its `after` is not
  `None`. An empty-string cursor is still requested, and is sent as `after=none`.
- **The cutoff** is an integer parameter. In `crawl.py` it is
  `half_year_ago`, the start time minus 182 days (crawl.py:37).

## Model

| member | source | states |
|---|---|---|
| Retry.Budget | crawl.py:23-29 | The wrapped call runs at most `max(times, 1)` times: `times - 1` guarded calls plus one final call. |
| Retry.FirstOk | crawl.py:23-25 | Index of the first successful attempt: every attempt before it raised, and the one at it succeeded (or there is none). |
| Retry.Calls | crawl.py:23-29 | The wrapper calls at least once and at most `Budget(times)` times. Every call but the last raised. Stopping early means the last call succeeded. |
| Retry.Errors | crawl.py:26-28 | The exceptions of a run of failed attempts, one per attempt, in order. |
| Retry.Run | crawl.py:20-31 | The loop makes exactly `Calls(times, attempts)` calls and returns the last call's outcome. A propagated exception means the whole budget was used. The handler receives exactly the exceptions of the failed calls before the last one, in order, and only when it is set. |
| Retry.FirstSuccessReturned | crawl.py:23-25 | A success within the budget is returned. It is the first success, and no call follows it. |
| Retry.FailurePropagates | crawl.py:26-29 | An exception reaches the caller exactly when all `Budget(times)` calls fail, and it is the final call's exception. |
| Crawler.SlotOf | crawl.py:85 | A title has a slot if and only if it is an integer in [-4096, 4096). The slot is below 4096 and equals `t` or `t + 4096`. |
| Crawler.FirstStop | crawl.py:83-87 | Position of the first child that ends the inner loop: every child before it is indexable and fresh, and the child at it is not both. |
| Crawler.Fill | crawl.py:78-85 | Recording children into the initial `[[] for i in range(4096)]` keeps exactly 4096 slots. |
| Crawler.ScanSkipsFreshPrefix | crawl.py:83-87 | Children that are indexable and fresh are recorded and do not change how the rest of the page is scanned. |
| Crawler.ScanPageIsReference | crawl.py:83-87 | The inner loop records every child up to the first stopping one. A stale child is recorded and ends the page. A child without a slot is not recorded and raises. With no stopping child, the whole page is recorded. |
| Crawler.WalkContinues | crawl.py:88-90 | After a fully scanned, non-empty page with a cursor, the crawl continues with a request that carries that cursor. |
| Crawler.WalkStops | crawl.py:86-91 | In every other case, the page ends the crawl. It finishes, or aborts with the title's exception when the scan hit a bad title. |
| Crawler.CrawlContinues | crawl.py:80-90 | One `continue` of the outer loop keeps the crawl's trace split into what has been done and what remains. |
| Crawler.RecordPage | crawl.py:83-87 | The in-place inner loop leaves the table equal to `Fill` of every child recorded so far, and reports how the scan ended as `ScanPage` says. |
| Crawler.FetchPage | crawl.py:82 | One `get_tsvs` call through `retry(3, handle_request_exception)` yields the retry outcome of that request's attempts. |
| Crawler.GetAllTsvs | crawl.py:76-92 | The loop makes exactly the requests of `Crawl`. It returns `Fill` of the recorded children when the crawl finishes, and the crawl's exception otherwise. |
| CrawlProperties.EntriesAtSnoc | crawl.py:85 | Recording one more child appends its entry to its slot's listing, and only to that slot. |
| CrawlProperties.EntriesAtEmpty | crawl.py:78 | A slot's listing is empty if and only if no recorded child indexes it. |
| CrawlProperties.FillSlots | crawl.py:83-85 | Each slot holds `{user: author, link: id}` for exactly the children indexing it, in processing order. |
| CrawlProperties.TotalAppend | crawl.py:85 | An append adds exactly one entry to the table. |
| CrawlProperties.TotalEmpty | crawl.py:78 | The initial table holds no entry. |
| CrawlProperties.FillTotal | crawl.py:83-85 | The table holds as many entries as children recorded. |
| CrawlProperties.CrawlTable | crawl.py:76-92 | A returned table has 4096 slots. Slot `s` lists the processed children that index it, in order. A slot no processed child indexes is empty. The total number of entries equals the number of processed children. |
| CrawlProperties.WalkRequests | crawl.py:79-82 | The first request carries the starting cursor. Each later request carries the `after` of the page before it. At most the last request gets no page. |
| CrawlProperties.WalkPages | crawl.py:82 | The j-th page received is the retried outcome of the j-th request from the source. |
| CrawlProperties.WalkNextPage | crawl.py:88-90 | Another page is requested only after a page that was non-empty, had a cursor, and whose children were all recorded and fresh. |
| CrawlProperties.WalkFinished | crawl.py:85-91 | A finished crawl ends on a page whose scan stopped at a stale child, or ran through every child of a page that was empty or had no cursor. A child without a slot never lets the crawl finish. Every request got its page. |
| CrawlProperties.WalkTitleError | crawl.py:85 | A title exception comes from the last page received. Its scan reached a child without a slot, whose title is the one reported. Conversely, a last page whose scan reaches such a child aborts the crawl with that title's error. |
| CrawlProperties.WalkRequestFails | crawl.py:82 | A request failure is the final attempt's exception, after all three attempts of the last request failed. That request got no page. |
| CrawlProperties.WalkStale | crawl.py:85-87 | A processed (recorded) stale child is the last child processed, the crawl finishes, and no further page is requested. That a stale child reached by the scan is recorded is stated by `ScanPageIsReference` and `WalkProcessed`. |
| CrawlProperties.WalkProcessed | crawl.py:83-91 | The processed children are all children of every page but the last, followed by the part of the last page that its scan reached. |
| CrawlProperties.ProcessedAfterPage | crawl.py:83-90 | A fully recorded page in front of the rest of the crawl keeps that shape. |
| CrawlProperties.WalkIndexed | crawl.py:85 | Every processed child has a slot. |
| CrawlProperties.CrawlCursors | crawl.py:68-82 | The first request carries no cursor and is sent as `after=none`. Every later request carries exactly the (present) `after` of the previous page. All requests ask for the same generation. |

## Left out

- `rate_limit` (crawl.py:8-18): it waits on the wall clock and has a float period. It does not affect which requests are made or what they return.
- `get_token`, the HTTP request and JSON decoding in `get_tsvs` (crawl.py:39-46, 54-74): network and library code. They are replaced by the page source. The token parameter and the query fields other than `after` are not modelled.
- Missing JSON fields (`KeyError`) are not modelled: every child has all its fields.
- The environment reads and the computation of `now` (crawl.py:33-37): process configuration and float clock arithmetic. The cutoff is an integer parameter. `int(created_utc) <= half_year_ago` with a whole-second float cutoff compares the same as with the integer cutoff.
- `created_utc` is given already truncated by `int()`, and a title as the integer `int()` yields. Python's string-to-integer parsing is not modelled.
- `handle_request_exception` (crawl.py:48-49) sleeps 60 seconds. It is modelled only by the log of exceptions passed to it.
- A handler that itself raises, and exceptions that are not `Exception` subclasses (which `except Exception` does not catch, so they propagate from the first attempt that raises them), are not modelled.
- `main` and `json.dump` (crawl.py:94-104): file output. `main` calls the crawl once for generation 6 and once for generation 7, and records the start time and version.
- `print` progress messages (crawl.py:77, 81): console output.
- `SourceExhausted`: a finite page source can run out of responses, while the real server always answers. The model reports this as its own error, only for a request that has no response in the source.
- Crawler.FetchPage: states only the outcome it returns. The exact call count and handler log are stated by `Retry.Run`, which it calls.
