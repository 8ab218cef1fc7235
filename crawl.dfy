/**
 * `get_all_tsvs` of crawl.py: the paginated search that fills one generation
 * table of 4096 slots.
 *
 * The remote search (`get_tsvs`, retried by `retry(3, ...)`) is modelled by a
 * finite source of responses: `source[k]` holds the outcomes of the successive
 * invocations of the k-th request, each a page or an exception. Which cursor
 * each request carries is recorded in the request log.
 */
module Crawler {
  import opened Wrappers
  import Retry

  /** Slots in a generation table, one per TSV number 0..4095. */
  const TableSize: nat := 4096

  /** `get_tsvs` is decorated with `retry(3, handle_request_exception)`. */
  const RequestAttempts: int := 3

  /**
   * One search result (`e['data']`). `title` is what Python's `int()` makes of
   * the thread title, `None` when `int()` raises; `created` is
   * `int(e['created_utc'])`.
   */
  datatype Child = Child(title: Option<int>, author: string, id: string, created: int)

  /** One response of `get_tsvs`: the continuation cursor and the results. */
  datatype Page = Page(after: Option<string>, children: seq<Child>)

  /** A listing entry of a table slot: `{'user': author, 'link': id}`. */
  datatype Entry = Entry(user: string, link: string)

  /** The arguments of one call to `get_tsvs` (the token is left out). */
  datatype Request = Request(generation: int, after: Option<string>)

  /** The `after` query parameter of a request: `after or 'none'`. */
  function AfterParam(after: Option<string>): string
  {
    if after.None? || after.value == "" then "none" else after.value
  }

  /** Why a crawl ends with an exception instead of a table. */
  datatype CrawlError<+E> =
    | RequestFailed(error: E)       // the third attempt of a request raised
    | TitleNotInteger               // `int(e['title'])` raised ValueError
    | TitleOutOfRange(title: int)   // `tsvs[...]` raised IndexError
    | SourceExhausted               // the modelled source holds no response for this request

  datatype End<+E> = Finished | Aborted(error: CrawlError<E>)

  /**
   * What one crawl does: the requests it makes, the pages it receives, the
   * children it records (in processing order) and how it ends.
   */
  datatype Trace<+E> = Trace(requests: seq<Request>, pages: seq<Page>, processed: seq<Child>, end: End<E>)

  /** What `get_all_tsvs` returns, or the exception it raises. */
  datatype Outcome<+E> = Done(tsvs: seq<seq<Entry>>) | Failed(error: CrawlError<E>)

  type Source<E> = seq<seq<Retry.Attempt<Page, E>>>

  /** Every request of the source has an outcome for each attempt the retry budget allows. */
  predicate WellFormed<E>(source: Source<E>)
  {
    forall k :: 0 <= k < |source| ==> Retry.Budget(RequestAttempts) <= |source[k]|
  }

  /**
   * The slot `tsvs[t]` designates, Python's negative indices included, or
   * `None` when the title is not an integer or the index is out of range.
   */
  function SlotOf(title: Option<int>): (slot: Option<nat>)
    ensures slot.Some? <==> title.Some? && -(TableSize as int) <= title.value < TableSize
    ensures slot.Some? ==> slot.value < TableSize && (slot.value == title.value || slot.value == title.value + TableSize)
  {
    match title
    case None => None
    case Some(t) =>
      if 0 <= t < TableSize then Some(t)
      else if -(TableSize as int) <= t < 0 then Some(t + TableSize)
      else None
  }

  /** The exception a title without a slot raises. */
  function TitleError<E>(title: Option<int>): CrawlError<E>
  {
    if title.None? then TitleNotInteger else TitleOutOfRange(title.value)
  }

  predicate Indexed(c: Child)
  {
    SlotOf(c.title).Some?
  }

  predicate AllIndexed(cs: seq<Child>)
  {
    forall i :: 0 <= i < |cs| ==> Indexed(cs[i])
  }

  /** A child newer than the cutoff: it does not stop the crawl. */
  predicate Fresh(c: Child, cutoff: int)
  {
    c.created > cutoff
  }

  function EntryOf(c: Child): Entry
  {
    Entry(c.author, c.id)
  }

  /** How the scan of one page's children ends. */
  datatype Stop = Exhausted | Stale | Rejected(title: Option<int>)

  datatype PageScan = PageScan(processed: seq<Child>, stop: Stop)

  /**
   * The inner `for e in res` loop: each child is recorded, then its age is
   * tested; a stale child ends the scan (`break`), a title without a slot
   * raises before anything of that child is recorded.
   */
  function ScanPage(children: seq<Child>, cutoff: int): PageScan
  {
    if children == [] then PageScan([], Exhausted)
    else
      var c := children[0];
      if !Indexed(c) then PageScan([], Rejected(c.title))
      else if !Fresh(c, cutoff) then PageScan([c], Stale)
      else
        var rest := ScanPage(children[1..], cutoff);
        PageScan([c] + rest.processed, rest.stop)
  }

  /**
   * Index of the first child that stops the scan, being stale or without a
   * slot; `|children|` when every child is recorded and fresh.
   */
  function FirstStop(children: seq<Child>, cutoff: int): (m: nat)
    ensures m <= |children|
    ensures forall i :: 0 <= i < m ==> Indexed(children[i]) && Fresh(children[i], cutoff)
    ensures m < |children| ==> !Indexed(children[m]) || !Fresh(children[m], cutoff)
  {
    if children == [] then 0
    else if !Indexed(children[0]) || !Fresh(children[0], cutoff) then 0
    else 1 + FirstStop(children[1..], cutoff)
  }

  /**
   * The scan in closed form: every child before the first stopping one is
   * recorded; a stale stopping child is recorded too and ends the scan, one
   * without a slot is not and raises.
   */
  function ScanReference(children: seq<Child>, cutoff: int): PageScan
  {
    var m := FirstStop(children, cutoff);
    if m == |children| then PageScan(children, Exhausted)
    else if !Indexed(children[m]) then PageScan(children[..m], Rejected(children[m].title))
    else PageScan(children[..m + 1], Stale)
  }

  /** A trace preceded by one more round of requests, pages and recorded children. */
  function Extend<E>(requests: seq<Request>, pages: seq<Page>, processed: seq<Child>, t: Trace<E>): Trace<E>
  {
    Trace(requests + t.requests, pages + t.pages, processed + t.processed, t.end)
  }

  /**
   * The `while True` loop from the k-th request on, `after` being the cursor
   * that request carries.
   */
  function Walk<E>(source: Source<E>, cutoff: int, generation: int, k: nat, after: Option<string>): Trace<E>
    requires WellFormed(source) && k <= |source|
    decreases |source| - k
  {
    var request := Request(generation, after);
    if k == |source| then Trace([request], [], [], Aborted(SourceExhausted))
    else
      match Retry.Outcome(RequestAttempts, source[k])
      case Raise(e) => Trace([request], [], [], Aborted(RequestFailed(e)))
      case Ok(page) =>
        var scan := ScanPage(page.children, cutoff);
        match scan.stop
        case Rejected(title) => Trace([request], [page], scan.processed, Aborted(TitleError(title)))
        case Stale => Trace([request], [page], scan.processed, Finished)
        case Exhausted =>
          if |page.children| > 0 && page.after.Some? then
            Extend([request], [page], scan.processed, Walk(source, cutoff, generation, k + 1, page.after))
          else
            Trace([request], [page], scan.processed, Finished)
  }

  /** The whole crawl: the first request carries no cursor. */
  function Crawl<E>(source: Source<E>, cutoff: int, generation: int): (t: Trace<E>)
    requires WellFormed(source)
  {
    Walk(source, cutoff, generation, 0, None)
  }

  /** `[[] for i in range(4096)]`. */
  function EmptyTable(): (tsvs: seq<seq<Entry>>)
  {
    seq(TableSize, _ => [])
  }

  /**
   * `tsvs[int(e['title'])].append({'user': e['author'], 'link': e['id']})`.
   * A child whose title has no slot is never recorded: the crawl raises first.
   */
  function Record(tsvs: seq<seq<Entry>>, c: Child): seq<seq<Entry>>
    requires |tsvs| == TableSize
  {
    match SlotOf(c.title)
    case None => tsvs
    case Some(slot) => tsvs[slot := tsvs[slot] + [EntryOf(c)]]
  }

  /** The table after recording the given children, in order, into an empty one. */
  function Fill(processed: seq<Child>): (tsvs: seq<seq<Entry>>)
    ensures |tsvs| == TableSize
  {
    if processed == [] then EmptyTable()
    else Record(Fill(processed[..|processed| - 1]), processed[|processed| - 1])
  }

  /** What the crawl described by a trace returns or raises. */
  function Result<E>(t: Trace<E>): Outcome<E>
  {
    match t.end
    case Finished => Done(Fill(t.processed))
    case Aborted(e) => Failed(e)
  }

  /** Scanning past children that are recorded and fresh leaves the rest of the scan unchanged. */
  lemma {:induction false} ScanSkipsFreshPrefix(children: seq<Child>, cutoff: int, i: nat)
    requires i <= |children|
    requires forall j :: 0 <= j < i ==> Indexed(children[j]) && Fresh(children[j], cutoff)
    ensures ScanPage(children, cutoff) ==
              PageScan(children[..i] + ScanPage(children[i..], cutoff).processed, ScanPage(children[i..], cutoff).stop)
  {
    if i == 0 {
      assert children[0..] == children;
    } else {
      var tail := children[1..];
      ScanSkipsFreshPrefix(tail, cutoff, i - 1);
      assert tail[i - 1..] == children[i..];
      var rest := ScanPage(children[i..], cutoff);
      assert ScanPage(tail, cutoff) == PageScan(tail[..i - 1] + rest.processed, rest.stop);
      assert ScanPage(children, cutoff) == PageScan([children[0]] + ScanPage(tail, cutoff).processed, rest.stop);
      assert children[..i] == [children[0]] + tail[..i - 1];
    }
  }

  lemma ExtendTwice<E>(r1: seq<Request>, p1: seq<Page>, c1: seq<Child>, r2: seq<Request>, p2: seq<Page>, c2: seq<Child>, t: Trace<E>)
    ensures Extend(r1, p1, c1, Extend(r2, p2, c2, t)) == Extend(r1 + r2, p1 + p2, c1 + c2, t)
  {
    assert r1 + (r2 + t.requests) == (r1 + r2) + t.requests;
    assert p1 + (p2 + t.pages) == (p1 + p2) + t.pages;
    assert c1 + (c2 + t.processed) == (c1 + c2) + t.processed;
  }

  /** The scan loop computes its closed form. */
  lemma ScanPageIsReference(children: seq<Child>, cutoff: int)
    ensures ScanPage(children, cutoff) == ScanReference(children, cutoff)
  {
    var m := FirstStop(children, cutoff);
    ScanSkipsFreshPrefix(children, cutoff, m);
    if m == |children| {
      assert children[m..] == [] && children[..m] == children;
    } else {
      assert children[m..][0] == children[m];
      if Indexed(children[m]) {
        assert children[..m + 1] == children[..m] + [children[m]];
      }
    }
  }

  /** The step of `Walk` that requests the next page. */
  lemma WalkContinues<E>(source: Source<E>, cutoff: int, generation: int, k: nat, after: Option<string>, page: Page)
    requires WellFormed(source) && k < |source|
    requires Retry.Outcome(RequestAttempts, source[k]) == Retry.Ok(page)
    requires ScanPage(page.children, cutoff).stop.Exhausted?
    requires |page.children| > 0 && page.after.Some?
    ensures Walk(source, cutoff, generation, k, after) ==
              Extend([Request(generation, after)], [page], page.children, Walk(source, cutoff, generation, k + 1, page.after))
  {
    ScanPageIsReference(page.children, cutoff);
  }

  /** The step of `Walk` after which no further page is requested. */
  lemma WalkStops<E>(source: Source<E>, cutoff: int, generation: int, k: nat, after: Option<string>, page: Page)
    requires WellFormed(source) && k < |source|
    requires Retry.Outcome(RequestAttempts, source[k]) == Retry.Ok(page)
    requires !(ScanPage(page.children, cutoff).stop.Exhausted? && |page.children| > 0 && page.after.Some?)
    ensures var scan := ScanPage(page.children, cutoff);
      Walk(source, cutoff, generation, k, after) ==
        Trace([Request(generation, after)], [page], scan.processed,
              if scan.stop.Rejected? then Aborted(TitleError(scan.stop.title)) else Finished)
  {
  }

  /** The invariant of the `while True` loop survives a `continue` to the next page. */
  lemma CrawlContinues<E>(source: Source<E>, cutoff: int, generation: int, k: nat, after: Option<string>, page: Page,
                          requests: seq<Request>, pages: seq<Page>, processed: seq<Child>, whole: Trace<E>)
    requires WellFormed(source) && k < |source|
    requires whole == Extend(requests, pages, processed, Walk(source, cutoff, generation, k, after))
    requires Retry.Outcome(RequestAttempts, source[k]) == Retry.Ok(page)
    requires ScanPage(page.children, cutoff).stop.Exhausted?
    requires |page.children| > 0 && page.after.Some?
    ensures whole ==
              Extend(requests + [Request(generation, after)], pages + [page], processed + page.children,
                     Walk(source, cutoff, generation, k + 1, page.after))
  {
    WalkContinues(source, cutoff, generation, k, after, page);
    ExtendTwice(requests, pages, processed, [Request(generation, after)], [page], page.children,
                Walk(source, cutoff, generation, k + 1, page.after));
  }

  /**
   * The inner `for e in res` loop over one page: records the children into
   * `tsvs` until a stale child (recorded, then `break`) or a title without a
   * slot (the exception), and reports how the scan ended.
   */
  method RecordPage(tsvs: array<seq<Entry>>, children: seq<Child>, cutoff: int, ghost before: seq<Child>)
    returns (stop: Stop)
    requires tsvs.Length == TableSize && tsvs[..] == Fill(before)
    modifies tsvs
    ensures stop == ScanPage(children, cutoff).stop
    ensures tsvs[..] == Fill(before + ScanPage(children, cutoff).processed)
  {
    ghost var processed := before;
    var i := 0;
    while i < |children|
      invariant i <= |children|
      invariant forall j :: 0 <= j < i ==> Indexed(children[j]) && Fresh(children[j], cutoff)
      invariant processed == before + children[..i]
      invariant tsvs[..] == Fill(processed)
    {
      var c := children[i];
      var slot := SlotOf(c.title);
      if slot.None? {
        ScanSkipsFreshPrefix(children, cutoff, i);
        assert children[i..][0] == c;
        assert ScanPage(children[i..], cutoff) == PageScan([], Rejected(c.title));
        assert before + ScanPage(children, cutoff).processed == processed;
        return Rejected(c.title);
      }
      assert (processed + [c])[..|processed|] == processed;
      tsvs[slot.value] := tsvs[slot.value] + [EntryOf(c)];
      processed := processed + [c];
      assert children[..i + 1] == children[..i] + [c];
      if c.created <= cutoff {
        ScanSkipsFreshPrefix(children, cutoff, i);
        assert children[i..][0] == c;
        assert ScanPage(children[i..], cutoff) == PageScan([c], Stale);
        assert before + ScanPage(children, cutoff).processed == processed;
        return Stale;
      }
      i := i + 1;
    }
    ScanSkipsFreshPrefix(children, cutoff, i);
    assert children[..i] == children && children[i..] == [];
    assert ScanPage(children[i..], cutoff) == PageScan([], Exhausted);
    assert before + ScanPage(children, cutoff).processed == processed;
    return Exhausted;
  }

  /** One request of the crawl loop (crawl.py:82): `get_tsvs` wrapped in
      `retry` with three attempts and a handler. The page of the first
      attempt that succeeds within the budget, otherwise the last failure,
      as `Retry.Run` computes it. */
  method FetchPage<E>(attempts: seq<Retry.Attempt<Page, E>>) returns (r: Retry.Attempt<Page, E>)
    requires Retry.Budget(RequestAttempts) <= |attempts|
    ensures r == Retry.Outcome(RequestAttempts, attempts)
  {
    var calls, waits;
    r, calls, waits := Retry.Run(RequestAttempts, true, attempts);
  }

  /**
   * `get_all_tsvs(token, generation)`: returns the table, or the exception
   * that ends the crawl, and the log of the requests made.
   */
  method GetAllTsvs<E>(source: Source<E>, cutoff: int, generation: int)
    returns (outcome: Outcome<E>, requests: seq<Request>)
    requires WellFormed(source)
    ensures requests == Crawl(source, cutoff, generation).requests
    ensures outcome == Result(Crawl(source, cutoff, generation))
  {
    var tsvs := new seq<Entry>[TableSize](_ => []);
    var after: Option<string> := None;
    var k := 0;
    requests := [];
    ghost var pages: seq<Page> := [];
    ghost var processed: seq<Child> := [];
    ghost var whole := Crawl(source, cutoff, generation);
    assert tsvs[..] == Fill(processed);
    while true
      invariant k <= |source|
      invariant tsvs.Length == TableSize
      invariant tsvs[..] == Fill(processed)
      invariant whole == Extend(requests, pages, processed, Walk(source, cutoff, generation, k, after))
      decreases |source| - k
    {
      ghost var requestsBefore, pagesBefore, processedBefore, cursor := requests, pages, processed, after;
      requests := requests + [Request(generation, after)];
      if k == |source| {
        outcome := Failed(SourceExhausted);
        return;
      }
      var r := FetchPage(source[k]);
      if r.Raise? {
        outcome := Failed(RequestFailed(r.error));
        return;
      }
      var page := r.value;
      after := page.after;
      var stop := RecordPage(tsvs, page.children, cutoff, processed);
      processed := processed + ScanPage(page.children, cutoff).processed;
      pages := pages + [page];
      if stop.Rejected? {
        WalkStops(source, cutoff, generation, k, cursor, page);
        outcome := Failed(TitleError(stop.title));
        return;
      }
      if stop.Exhausted? && |page.children| > 0 && after.Some? {
        ScanPageIsReference(page.children, cutoff);
        CrawlContinues(source, cutoff, generation, k, cursor, page, requestsBefore, pagesBefore, processedBefore, whole);
        k := k + 1;
        continue;
      }
      WalkStops(source, cutoff, generation, k, cursor, page);
      break;
    }
    outcome := Done(tsvs[..]);
  }
}
