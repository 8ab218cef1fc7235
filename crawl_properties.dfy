/**
 * What `get_all_tsvs` promises, stated about the crawl model: the shape and
 * contents of the table it returns, which children it records, when it asks
 * for another page and which cursor that request carries.
 */
module CrawlProperties {
  import opened Wrappers
  import Retry
  import opened Crawler

  /** The entries slot `s` should hold: those of the children it indexes, in processing order. */
  function EntriesAt(cs: seq<Child>, s: nat): seq<Entry>
  {
    if cs == [] then []
    else (if SlotOf(cs[0].title) == Some(s) then [EntryOf(cs[0])] else []) + EntriesAt(cs[1..], s)
  }

  /** The number of entries in a table, over all its slots. */
  function Total(tsvs: seq<seq<Entry>>): nat
  {
    if tsvs == [] then 0 else |tsvs[0]| + Total(tsvs[1..])
  }

  /** The children of the given pages, page after page. */
  function Concat(pages: seq<Page>): seq<Child>
  {
    if pages == [] then [] else pages[0].children + Concat(pages[1..])
  }

  lemma {:induction false} EntriesAtSnoc(cs: seq<Child>, c: Child, s: nat)
    ensures EntriesAt(cs + [c], s) ==
              EntriesAt(cs, s) + (if SlotOf(c.title) == Some(s) then [EntryOf(c)] else [])
  {
    if cs == [] {
      assert cs + [c] == [c];
      assert [c][1..] == [];
    } else {
      var head := if SlotOf(cs[0].title) == Some(s) then [EntryOf(cs[0])] else [];
      assert (cs + [c])[0] == cs[0];
      assert (cs + [c])[1..] == cs[1..] + [c];
      EntriesAtSnoc(cs[1..], c, s);
      assert EntriesAt(cs + [c], s) == head + EntriesAt(cs[1..] + [c], s);
    }
  }

  /** A slot holds an entry exactly when some recorded child indexes it. */
  lemma {:induction false} EntriesAtEmpty(cs: seq<Child>, s: nat)
    ensures EntriesAt(cs, s) == [] <==> forall i :: 0 <= i < |cs| ==> SlotOf(cs[i].title) != Some(s)
  {
    if cs != [] {
      EntriesAtEmpty(cs[1..], s);
      assert forall i :: 1 <= i < |cs| ==> cs[i] == cs[1..][i - 1];
    }
  }

  /**
   * Recording children into an empty table puts into each slot the entries
   * of the children that index it, in the order they were recorded.
   */
  lemma {:induction false} FillSlots(cs: seq<Child>)
    ensures |Fill(cs)| == TableSize
    ensures forall s :: 0 <= s < TableSize ==> Fill(cs)[s] == EntriesAt(cs, s)
  {
    if cs != [] {
      var front, c := cs[..|cs| - 1], cs[|cs| - 1];
      assert front + [c] == cs;
      FillSlots(front);
      forall s | 0 <= s < TableSize
        ensures Fill(cs)[s] == EntriesAt(cs, s)
      {
        EntriesAtSnoc(front, c, s);
      }
    }
  }

  lemma {:induction false} TotalAppend(tsvs: seq<seq<Entry>>, slot: nat, e: Entry)
    requires slot < |tsvs|
    ensures Total(tsvs[slot := tsvs[slot] + [e]]) == Total(tsvs) + 1
  {
    if slot > 0 {
      assert tsvs[slot := tsvs[slot] + [e]][1..] == tsvs[1..][slot - 1 := tsvs[slot] + [e]];
      TotalAppend(tsvs[1..], slot - 1, e);
    } else {
      assert tsvs[slot := tsvs[slot] + [e]][1..] == tsvs[1..];
    }
  }

  lemma {:induction false} TotalEmpty(tsvs: seq<seq<Entry>>)
    requires forall s :: 0 <= s < |tsvs| ==> tsvs[s] == []
    ensures Total(tsvs) == 0
  {
    if tsvs != [] {
      TotalEmpty(tsvs[1..]);
    }
  }

  /** Every recorded child adds exactly one entry to the table. */
  lemma {:induction false} FillTotal(cs: seq<Child>)
    requires AllIndexed(cs)
    ensures Total(Fill(cs)) == |cs|
  {
    if cs == [] {
      TotalEmpty(EmptyTable());
    } else {
      var front, c := cs[..|cs| - 1], cs[|cs| - 1];
      FillTotal(front);
      TotalAppend(Fill(front), SlotOf(c.title).value, EntryOf(c));
    }
  }

  /**
   * The table `get_all_tsvs` returns has 4096 slots; slot `s` holds, in
   * processing order, `{user: author, link: id}` for each processed child
   * whose title designates `s`; a slot no processed child designates stays
   * empty; and there are as many entries as processed children.
   */
  lemma CrawlTable<E>(source: Source<E>, cutoff: int, generation: int)
    requires WellFormed(source)
    ensures var t := Crawl(source, cutoff, generation);
      Result(t).Done? ==>
        && |Result(t).tsvs| == TableSize
        && (forall s :: 0 <= s < TableSize ==> Result(t).tsvs[s] == EntriesAt(t.processed, s))
        && (forall s :: 0 <= s < TableSize && (forall i :: 0 <= i < |t.processed| ==> SlotOf(t.processed[i].title) != Some(s))
              ==> Result(t).tsvs[s] == [])
        && Total(Result(t).tsvs) == |t.processed|
  {
    var t := Crawl(source, cutoff, generation);
    if Result(t).Done? {
      WalkIndexed(source, cutoff, generation, 0, None);
      FillSlots(t.processed);
      FillTotal(t.processed);
      forall s | 0 <= s < TableSize && (forall i :: 0 <= i < |t.processed| ==> SlotOf(t.processed[i].title) != Some(s))
        ensures Result(t).tsvs[s] == []
      {
        EntriesAtEmpty(t.processed, s);
      }
    }
  }

  /**
   * Cursor threading: the k-th request carries the cursor it is given, each
   * later one the `after` of the page before it; at most the last request
   * receives no page.
   */
  lemma {:induction false} WalkRequests<E>(source: Source<E>, cutoff: int, generation: int, k: nat, after: Option<string>)
    requires WellFormed(source) && k <= |source|
    decreases |source| - k
    ensures var t := Walk(source, cutoff, generation, k, after);
      && 1 <= |t.requests| && |t.pages| <= |t.requests| <= |t.pages| + 1
      && t.requests[0] == Request(generation, after)
      && (forall j :: 1 <= j < |t.requests| ==> t.requests[j] == Request(generation, t.pages[j - 1].after))
  {
    if k < |source| {
      match Retry.Outcome(RequestAttempts, source[k])
      case Raise(_) =>
      case Ok(page) =>
        if ScanPage(page.children, cutoff).stop.Exhausted? && |page.children| > 0 && page.after.Some? {
          WalkContinues(source, cutoff, generation, k, after, page);
          WalkRequests(source, cutoff, generation, k + 1, page.after);
          var t := Walk(source, cutoff, generation, k, after);
          var rest := Walk(source, cutoff, generation, k + 1, page.after);
          forall j | 1 <= j < |t.requests|
            ensures t.requests[j] == Request(generation, t.pages[j - 1].after)
          {
            assert t.requests[j] == rest.requests[j - 1];
            if j > 1 {
              assert t.pages[j - 1] == rest.pages[j - 2];
            }
          }
        } else {
          WalkStops(source, cutoff, generation, k, after, page);
        }
    }
  }

  /** The j-th page received is what the (k+j)-th request, retried, returned. */
  lemma {:induction false} WalkPages<E>(source: Source<E>, cutoff: int, generation: int, k: nat, after: Option<string>, j: nat)
    requires WellFormed(source) && k <= |source|
    requires j < |Walk(source, cutoff, generation, k, after).pages|
    decreases |source| - k
    ensures k + j < |source|
    ensures Retry.Outcome(RequestAttempts, source[k + j]) == Retry.Ok(Walk(source, cutoff, generation, k, after).pages[j])
  {
    if k < |source| {
      match Retry.Outcome(RequestAttempts, source[k])
      case Raise(_) =>
      case Ok(page) =>
        if ScanPage(page.children, cutoff).stop.Exhausted? && |page.children| > 0 && page.after.Some? {
          WalkContinues(source, cutoff, generation, k, after, page);
          if j > 0 {
            WalkPages(source, cutoff, generation, k + 1, page.after, j - 1);
            assert (k + 1) + (j - 1) == k + j;
          }
        } else {
          WalkStops(source, cutoff, generation, k, after, page);
        }
    }
  }

  /**
   * Another page is requested only after a page that was non-empty, came
   * with a cursor, and whose every child was recorded and newer than the
   * cutoff.
   */
  lemma {:induction false} WalkNextPage<E>(source: Source<E>, cutoff: int, generation: int, k: nat, after: Option<string>)
    requires WellFormed(source) && k <= |source|
    decreases |source| - k
    ensures var t := Walk(source, cutoff, generation, k, after);
      && |t.requests| - 1 <= |t.pages|
      && forall j :: 0 <= j < |t.requests| - 1 ==>
        && t.pages[j].children != []
        && t.pages[j].after.Some?
        && ScanPage(t.pages[j].children, cutoff).stop.Exhausted?
  {
    if k < |source| {
      match Retry.Outcome(RequestAttempts, source[k])
      case Raise(_) =>
      case Ok(page) =>
        if ScanPage(page.children, cutoff).stop.Exhausted? && |page.children| > 0 && page.after.Some? {
          WalkContinues(source, cutoff, generation, k, after, page);
          WalkNextPage(source, cutoff, generation, k + 1, page.after);
          var t := Walk(source, cutoff, generation, k, after);
          var rest := Walk(source, cutoff, generation, k + 1, page.after);
          forall j | 0 <= j < |t.requests| - 1
            ensures t.pages[j].children != [] && t.pages[j].after.Some?
            ensures ScanPage(t.pages[j].children, cutoff).stop.Exhausted?
          {
            if j > 0 {
              assert t.pages[j] == rest.pages[j - 1];
            }
          }
        } else {
          WalkStops(source, cutoff, generation, k, after, page);
        }
    }
  }

  /**
   * A crawl finishes only after a page whose scan stopped at a stale child,
   * or ran through every child of a page that was empty or came without a
   * cursor; it then requests nothing more. A child without a slot never lets
   * the crawl finish.
   */
  lemma {:induction false} WalkFinished<E>(source: Source<E>, cutoff: int, generation: int, k: nat, after: Option<string>)
    requires WellFormed(source) && k <= |source|
    decreases |source| - k
    ensures var t := Walk(source, cutoff, generation, k, after);
      var n := |t.pages|;
      t.end.Finished? ==>
        && |t.requests| == n >= 1
        && (|| ScanPage(t.pages[n - 1].children, cutoff).stop.Stale?
            || (&& ScanPage(t.pages[n - 1].children, cutoff).stop.Exhausted?
                && (t.pages[n - 1].children == [] || t.pages[n - 1].after.None?)))
  {
    if k < |source| {
      match Retry.Outcome(RequestAttempts, source[k])
      case Raise(_) =>
      case Ok(page) =>
        if ScanPage(page.children, cutoff).stop.Exhausted? && |page.children| > 0 && page.after.Some? {
          WalkContinues(source, cutoff, generation, k, after, page);
          WalkFinished(source, cutoff, generation, k + 1, page.after);
        } else {
          WalkStops(source, cutoff, generation, k, after, page);
        }
    }
  }

  /**
   * A title error comes from the last page received: its scan reached a
   * child whose title has no slot, and no further page is requested.
   * Conversely, when the scan of the last page received reaches such a
   * child, the crawl aborts with that title's error.
   */
  lemma {:induction false} WalkTitleError<E>(source: Source<E>, cutoff: int, generation: int, k: nat, after: Option<string>)
    requires WellFormed(source) && k <= |source|
    decreases |source| - k
    ensures var t := Walk(source, cutoff, generation, k, after);
      var n := |t.pages|;
      t.end.Aborted? && (t.end.error.TitleNotInteger? || t.end.error.TitleOutOfRange?) ==>
        && |t.requests| == n >= 1
        && ScanPage(t.pages[n - 1].children, cutoff).stop.Rejected?
        && t.end.error == TitleError(ScanPage(t.pages[n - 1].children, cutoff).stop.title)
    ensures var t := Walk(source, cutoff, generation, k, after);
      var n := |t.pages|;
      n >= 1 && ScanPage(t.pages[n - 1].children, cutoff).stop.Rejected? ==>
        t.end == Aborted(TitleError(ScanPage(t.pages[n - 1].children, cutoff).stop.title))
  {
    if k < |source| {
      match Retry.Outcome(RequestAttempts, source[k])
      case Raise(_) =>
      case Ok(page) =>
        if ScanPage(page.children, cutoff).stop.Exhausted? && |page.children| > 0 && page.after.Some? {
          WalkContinues(source, cutoff, generation, k, after, page);
          WalkTitleError(source, cutoff, generation, k + 1, page.after);
        } else {
          WalkStops(source, cutoff, generation, k, after, page);
        }
    }
  }

  /**
   * A request failure aborts the crawl: every attempt of the last request
   * raised and the last attempt's exception is the one raised; that request
   * received no page. Running out of modelled responses is the only other
   * way a request receives none.
   */
  lemma {:induction false} WalkRequestFails<E>(source: Source<E>, cutoff: int, generation: int, k: nat, after: Option<string>)
    requires WellFormed(source) && k <= |source|
    decreases |source| - k
    ensures var t := Walk(source, cutoff, generation, k, after);
      var n := |t.pages|;
      && (t.end.Aborted? && t.end.error.RequestFailed? ==>
            && |t.requests| == n + 1
            && k + n < |source|
            && Retry.AllFail(RequestAttempts, source[k + n])
            && Retry.Raise(t.end.error.error) == source[k + n][Retry.Budget(RequestAttempts) - 1])
      && (t.end.Aborted? && t.end.error.SourceExhausted? ==> |t.requests| == n + 1 && k + n == |source|)
  {
    if k < |source| {
      Retry.FailurePropagates(RequestAttempts, source[k]);
      match Retry.Outcome(RequestAttempts, source[k])
      case Raise(_) =>
      case Ok(page) =>
        if ScanPage(page.children, cutoff).stop.Exhausted? && |page.children| > 0 && page.after.Some? {
          WalkContinues(source, cutoff, generation, k, after, page);
          WalkRequestFails(source, cutoff, generation, k + 1, page.after);
        } else {
          WalkStops(source, cutoff, generation, k, after, page);
        }
    }
  }

  /**
   * A stale child is recorded, and it is the last child processed: nothing
   * after it in its page is processed and no further page is requested.
   */
  lemma {:induction false} WalkStale<E>(source: Source<E>, cutoff: int, generation: int, k: nat, after: Option<string>)
    requires WellFormed(source) && k <= |source|
    decreases |source| - k
    ensures var t := Walk(source, cutoff, generation, k, after);
      forall i :: 0 <= i < |t.processed| && !Fresh(t.processed[i], cutoff) ==>
        i == |t.processed| - 1 && t.end.Finished? && |t.requests| == |t.pages|
  {
    if k < |source| {
      match Retry.Outcome(RequestAttempts, source[k])
      case Raise(_) =>
      case Ok(page) =>
        ScanPageIsReference(page.children, cutoff);
        if ScanPage(page.children, cutoff).stop.Exhausted? && |page.children| > 0 && page.after.Some? {
          WalkContinues(source, cutoff, generation, k, after, page);
          WalkStale(source, cutoff, generation, k + 1, page.after);
          WalkRequests(source, cutoff, generation, k + 1, page.after);
          var t := Walk(source, cutoff, generation, k, after);
          var rest := Walk(source, cutoff, generation, k + 1, page.after);
          forall i | 0 <= i < |t.processed| && !Fresh(t.processed[i], cutoff)
            ensures i == |t.processed| - 1 && t.end.Finished? && |t.requests| == |t.pages|
          {
            assert i >= |page.children|;
            assert t.processed[i] == rest.processed[i - |page.children|];
          }
        } else {
          WalkStops(source, cutoff, generation, k, after, page);
        }
    }
  }

  /**
   * The processed children are those of every page received but the last,
   * in full, followed by the part of the last page its scan reached.
   */
  lemma {:induction false} WalkProcessed<E>(source: Source<E>, cutoff: int, generation: int, k: nat, after: Option<string>)
    requires WellFormed(source) && k <= |source|
    decreases |source| - k
    ensures var t := Walk(source, cutoff, generation, k, after);
      && (t.pages == [] ==> t.processed == [])
      && (t.pages != [] ==>
            t.processed == Concat(t.pages[..|t.pages| - 1]) + ScanPage(t.pages[|t.pages| - 1].children, cutoff).processed)
  {
    if k < |source| {
      match Retry.Outcome(RequestAttempts, source[k])
      case Raise(_) =>
      case Ok(page) =>
        if ScanPage(page.children, cutoff).stop.Exhausted? && |page.children| > 0 && page.after.Some? {
          ScanPageIsReference(page.children, cutoff);
          WalkContinues(source, cutoff, generation, k, after, page);
          WalkProcessed(source, cutoff, generation, k + 1, page.after);
          var rest := Walk(source, cutoff, generation, k + 1, page.after);
          ProcessedAfterPage(page, rest, cutoff);
        } else {
          WalkStops(source, cutoff, generation, k, after, page);
        }
    }
  }

  /** The induction step of `WalkProcessed`: one full page in front of the rest of the crawl. */
  lemma ProcessedAfterPage<E>(page: Page, rest: Trace<E>, cutoff: int)
    requires rest.pages == [] ==> rest.processed == []
    requires rest.pages != [] ==>
               rest.processed == Concat(rest.pages[..|rest.pages| - 1]) + ScanPage(rest.pages[|rest.pages| - 1].children, cutoff).processed
    requires ScanPage(page.children, cutoff).processed == page.children
    ensures var pages, processed := [page] + rest.pages, page.children + rest.processed;
      processed == Concat(pages[..|pages| - 1]) + ScanPage(pages[|pages| - 1].children, cutoff).processed
  {
    var pages := [page] + rest.pages;
    if rest.pages == [] {
      assert pages[..|pages| - 1] == [];
    } else {
      var front := rest.pages[..|rest.pages| - 1];
      assert pages[..|pages| - 1] == [page] + front;
      assert ([page] + front)[1..] == front;
      assert Concat([page] + front) == page.children + Concat(front);
      assert pages[|pages| - 1] == rest.pages[|rest.pages| - 1];
    }
  }

  /**
   * Every processed child has a title that designates a slot: a title that
   * is not an integer in [-4096, 4096) ends the crawl before it is recorded.
   */
  lemma {:induction false} WalkIndexed<E>(source: Source<E>, cutoff: int, generation: int, k: nat, after: Option<string>)
    requires WellFormed(source) && k <= |source|
    decreases |source| - k
    ensures AllIndexed(Walk(source, cutoff, generation, k, after).processed)
  {
    if k < |source| {
      match Retry.Outcome(RequestAttempts, source[k])
      case Raise(_) =>
      case Ok(page) =>
        ScanPageIsReference(page.children, cutoff);
        if ScanPage(page.children, cutoff).stop.Exhausted? && |page.children| > 0 && page.after.Some? {
          WalkContinues(source, cutoff, generation, k, after, page);
          WalkIndexed(source, cutoff, generation, k + 1, page.after);
        } else {
          WalkStops(source, cutoff, generation, k, after, page);
        }
    }
  }

  /**
   * Cursor threading over the whole crawl: the first request carries no
   * cursor and is sent as `after=none`; every later one carries exactly the
   * (present) cursor of the page before it; all ask for the same generation.
   */
  lemma CrawlCursors<E>(source: Source<E>, cutoff: int, generation: int)
    requires WellFormed(source)
    ensures var t := Crawl(source, cutoff, generation);
      && |t.requests| <= |t.pages| + 1
      && t.requests[0].after == None
      && AfterParam(t.requests[0].after) == "none"
      && (forall j :: 1 <= j < |t.requests| ==> t.requests[j].after.Some? && t.requests[j].after == t.pages[j - 1].after)
      && (forall j :: 0 <= j < |t.requests| ==> t.requests[j].generation == generation)
  {
    WalkRequests(source, cutoff, generation, 0, None);
    WalkNextPage(source, cutoff, generation, 0, None);
  }
}
