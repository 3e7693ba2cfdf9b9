/**
  The pagination loop of the scraper (main.go:50-92): request page 1, 2, 3, ... in turn, write the
  rows of each page's listings, and stop after the first page whose "next" link is disabled.
  The browser is outside the model: what it answered for each page is an input sequence.
 */
module Pagination {
  import opened Wrappers
  import opened Decimal
  import opened Extract
  import opened Rows

  /** The address of a results page without its number (main.go:91). */
  const UrlPrefix: string := "https://www.ibm.com/careers/search?p="

  /** The first address requested (main.go:50). */
  const StartUrl: string := "https://www.ibm.com/careers/search?p=1"

  /** The address of results page `n`. */
  function PageUrl(n: nat): string {
    UrlPrefix + FormatNat(n)
  }

  /** The addresses of pages 1 to `n`, in order. */
  function PageUrls(n: nat): seq<string> {
    seq(n, i requires 0 <= i < n => PageUrl(i + 1))
  }

  /** The starting address is the address of page 1. */
  lemma {:induction false} StartUrlIsPageOne()
    ensures PageUrl(1) == StartUrl
  {
    assert FormatNat(1) == "1";
  }

  /** Different pages have different addresses, so no page is requested twice. */
  lemma {:induction false} PageUrlInjective(a: nat, b: nat)
    ensures PageUrl(a) == PageUrl(b) ==> a == b
  {
    if PageUrl(a) == PageUrl(b) {
      assert FormatNat(a) == PageUrl(a)[|UrlPrefix|..];
      assert FormatNat(b) == PageUrl(b)[|UrlPrefix|..];
      FormatInjective(a, b);
    }
  }

  /** What the browser produced for one page (main.go:59-64): a failure to navigate, wait or
      evaluate, or the outer HTML of every job card and whether the "next" link is disabled. */
  datatype PageResult =
    | RenderFailed
    | Loaded(listings: seq<Listing>, nextPageDisabled: bool)

  /** The loop's variables: the current page number and address, the count of rows written,
      and, as a record of the run, the addresses requested so far and the rows written so far. */
  datatype CrawlState = CrawlState(
    pageNumber: nat,
    url: string,
    totalItems: nat,
    requested: seq<string>,
    written: seq<Row>)

  /** The state before the loop starts (main.go:50-54). */
  const Initial: CrawlState := CrawlState(1, StartUrl, 0, [], [])

  /** The conditions that end the process through `log.Fatalf`. */
  datatype Fatal =
    | HeaderWriteFailed       // main.go:42-44
    | RendererFailed(page: nat)  // main.go:67-70
    | RowWriteFailed(page: nat)  // main.go:79-81

  /** How the crawl ends: after the last page, with a fatal error, or not at all within the
      page results given (the loop has no page limit). */
  datatype Outcome =
    | Completed(final: CrawlState)
    | Aborted(cause: Fatal, final: CrawlState)
    | Unfinished(final: CrawlState)

  /** The failing write, if any, is among writes `from + 1` to `to`. Writes are numbered from 0:
      write 0 is the header, write `k` the `k`-th data row. */
  predicate FaultHits(fault: Option<nat>, from: nat, to: nat) {
    fault.Some? && from < fault.value <= to
  }

  /** The end of the inner loop over one page's listings. */
  datatype ListingsEnd = AllWritten(st: CrawlState) | WriteFailed(st: CrawlState)

  /** The writes of the inner loop over one page's listings (main.go:79-82), given the rows its
      listings yield (`PageRows`; skipped listings have no effect): each row is written and
      counted in turn, and a write that fails ends the run. */
  function WriteRows(rows: seq<Row>, st: CrawlState, fault: Option<nat>): ListingsEnd
    decreases |rows|
  {
    if |rows| == 0 then AllWritten(st)
    else if fault == Some(|st.written| + 1) then WriteFailed(st)
    else WriteRows(rows[1..], st.(written := st.written + [rows[0]], totalItems := st.totalItems + 1), fault)
  }

  /** The rows are appended and counted in full, or, when write number `f` fails, exactly those
      before it. */
  lemma {:induction false} WriteRowsSpec(rows: seq<Row>, st: CrawlState, fault: Option<nat>)
    ensures
      var n := |st.written|;
      if FaultHits(fault, n, n + |rows|) then
        WriteRows(rows, st, fault) == WriteFailed(st.(written := st.written + rows[..fault.value - 1 - n],
                                                      totalItems := st.totalItems + (fault.value - 1 - n)))
      else
        WriteRows(rows, st, fault) == AllWritten(st.(written := st.written + rows, totalItems := st.totalItems + |rows|))
    decreases |rows|
  {
    if |rows| == 0 {
      assert st.written + rows == st.written;
    } else if fault == Some(|st.written| + 1) {
      assert st.written + rows[..0] == st.written;
    } else {
      var next := st.(written := st.written + [rows[0]], totalItems := st.totalItems + 1);
      WriteRowsSpec(rows[1..], next, fault);
      if FaultHits(fault, |st.written|, |st.written| + |rows|) {
        ConsPrefix(st.written, rows, fault.value - 1 - |st.written|);
      } else {
        ConsPrefix(st.written, rows, |rows|);
      }
    }
  }

  /** Appending the first element and then a prefix of the rest appends a prefix. */
  lemma {:induction false} ConsPrefix<T>(a: seq<T>, b: seq<T>, m: nat)
    requires 1 <= m <= |b|
    ensures a + [b[0]] + b[1..][..m - 1] == a + b[..m]
    ensures m == |b| ==> a + [b[0]] + b[1..] == a + b
  {
    assert b[..m] == [b[0]] + b[1..][..m - 1];
    if m == |b| {
      assert b == [b[0]] + b[1..];
    }
  }

  /** What one pass of the loop body does with the current page. */
  datatype StepResult = Next(st: CrawlState) | Stop(outcome: Outcome)

  /** One pass of the loop body (main.go:56-91): request the page, give up if the browser failed,
      write the page's rows, then stop if the "next" link is disabled or move to the next page. */
  function Step(st: CrawlState, page: PageResult, fault: Option<nat>): StepResult {
    var visiting := st.(requested := st.requested + [st.url]);
    match page
    case RenderFailed => Stop(Aborted(RendererFailed(st.pageNumber), visiting))
    case Loaded(listings, lastPage) =>
      match WriteRows(PageRows(listings), visiting, fault)
      case WriteFailed(after) => Stop(Aborted(RowWriteFailed(st.pageNumber), after))
      case AllWritten(after) =>
        if lastPage then Stop(Completed(after))
        else Next(after.(pageNumber := after.pageNumber + 1, url := PageUrl(after.pageNumber + 1)))
  }

  /** The loop run over the browser's results for the coming pages, one result per page. */
  function Run(pages: seq<PageResult>, st: CrawlState, fault: Option<nat>): Outcome
    decreases |pages|
  {
    if |pages| == 0 then Unfinished(st)
    else
      match Step(st, pages[0], fault)
      case Stop(o) => o
      case Next(st') => Run(pages[1..], st', fault)
  }

  /** The crawl of `main`: the header is written, then the loop runs from page 1. `pages[i]` is
      the browser's result for page `i + 1`; `fault` numbers the first write that fails, if any. */
  function Crawl(pages: seq<PageResult>, fault: Option<nat>): Outcome {
    if fault == Some(0) then Aborted(HeaderWriteFailed, Initial)
    else Run(pages, Initial, fault)
  }

  // ---------------------------------------------------------------------------------------------
  // Properties of the crawl

  /** The rows a page's listings yield; a page the browser failed on yields none. */
  function RowsOf(page: PageResult): seq<Row> {
    if page.Loaded? then PageRows(page.listings) else []
  }

  /** The rows of a run of pages, page by page. */
  function AllRows(pages: seq<PageResult>): seq<Row> {
    if |pages| == 0 then [] else RowsOf(pages[0]) + AllRows(pages[1..])
  }

  lemma {:induction false} AllRowsAppend(a: seq<PageResult>, b: seq<PageResult>)
    ensures AllRows(a + b) == AllRows(a) + AllRows(b)
    decreases |a|
  {
    if |a| == 0 {
      assert a + b == b;
    } else {
      assert (a + b)[1..] == a[1..] + b;
      AllRowsAppend(a[1..], b);
    }
  }

  /** The rows of the first `k + 1` pages are those of the first `k` and then page `k`'s. */
  lemma {:induction false} AllRowsPrefix(pages: seq<PageResult>, k: nat)
    requires k < |pages|
    ensures AllRows(pages[..k + 1]) == AllRows(pages[..k]) + RowsOf(pages[k])
  {
    assert pages[..k + 1] == pages[..k] + [pages[k]];
    AllRowsAppend(pages[..k], [pages[k]]);
    assert AllRows([pages[k]]) == RowsOf(pages[k]) + AllRows([]);
  }

  /** The first `k` pages all rendered with an enabled "next" link. */
  ghost predicate Continuing(pages: seq<PageResult>, k: nat) {
    k <= |pages| && forall i :: 0 <= i < k ==> pages[i].Loaded? && !pages[i].nextPageDisabled
  }

  /** The state just before page `n` is requested, with rows `w` written. */
  function Before(n: nat, w: seq<Row>): CrawlState
    requires n >= 1
  {
    CrawlState(n, PageUrl(n), |w|, PageUrls(n - 1), w)
  }

  /** The state once page `n` has been requested, with rows `w` written. */
  function After(n: nat, w: seq<Row>): CrawlState {
    CrawlState(n, PageUrl(n), |w|, PageUrls(n), w)
  }

  lemma {:induction false} InitialIsBeforeFirstPage()
    ensures Initial == Before(1, [])
  {
    StartUrlIsPageOne();
  }

  /** Requesting page `n` records its address. */
  lemma {:induction false} RequestPage(n: nat, w: seq<Row>)
    requires n >= 1
    ensures Before(n, w).(requested := Before(n, w).requested + [Before(n, w).url]) == After(n, w)
  {
    assert PageUrls(n - 1) + [PageUrl(n)] == PageUrls(n);
  }

  /** Moving on from page `n` sets up the request of page `n + 1`. */
  lemma {:induction false} AdvancePage(n: nat, w: seq<Row>)
    ensures After(n, w).(pageNumber := n + 1, url := PageUrl(n + 1)) == Before(n + 1, w)
  {
  }

  /** A page's rows, when none of their writes fails, are all appended and counted. */
  lemma {:induction false} WriteAllRows(n: nat, w: seq<Row>, rows: seq<Row>, fault: Option<nat>)
    requires !FaultHits(fault, |w|, |w| + |rows|)
    ensures WriteRows(rows, After(n, w), fault) == AllWritten(After(n, w + rows))
  {
    WriteRowsSpec(rows, After(n, w), fault);
  }

  /** One loaded page whose rows can all be written: the page is requested, its rows appended,
      and the loop stops if its "next" link is disabled and moves to the next page otherwise. */
  lemma {:induction false} StepLoaded(n: nat, w: seq<Row>, listings: seq<Listing>, lastPage: bool, fault: Option<nat>)
    requires n >= 1
    requires !FaultHits(fault, |w|, |w| + |PageRows(listings)|)
    ensures Step(Before(n, w), Loaded(listings, lastPage), fault)
         == if lastPage then Stop(Completed(After(n, w + PageRows(listings))))
            else Next(Before(n + 1, w + PageRows(listings)))
  {
    RequestPage(n, w);
    WriteAllRows(n, w, PageRows(listings), fault);
    AdvancePage(n, w + PageRows(listings));
  }

  /** A loaded page with an enabled "next" link, whose rows can all be written, hands over to the
      next page with its rows appended. */
  lemma {:induction false} RunLoaded(pages: seq<PageResult>, n: nat, w: seq<Row>, fault: Option<nat>)
    requires n >= 1 && |pages| > 0
    requires pages[0].Loaded? && !pages[0].nextPageDisabled
    requires !FaultHits(fault, |w|, |w| + |RowsOf(pages[0])|)
    ensures Run(pages, Before(n, w), fault) == Run(pages[1..], Before(n + 1, w + RowsOf(pages[0])), fault)
  {
    StepLoaded(n, w, pages[0].listings, false, fault);
  }

  /** A loaded page with a disabled "next" link, whose rows can all be written, ends the crawl
      with its rows appended. */
  lemma {:induction false} RunLast(pages: seq<PageResult>, n: nat, w: seq<Row>, fault: Option<nat>)
    requires n >= 1 && |pages| > 0
    requires pages[0].Loaded? && pages[0].nextPageDisabled
    requires !FaultHits(fault, |w|, |w| + |RowsOf(pages[0])|)
    ensures Run(pages, Before(n, w), fault) == Completed(After(n, w + RowsOf(pages[0])))
  {
    StepLoaded(n, w, pages[0].listings, true, fault);
  }

  /** A page the browser failed on ends the crawl once it has been requested. */
  lemma {:induction false} RunRenderFails(pages: seq<PageResult>, n: nat, w: seq<Row>, fault: Option<nat>)
    requires n >= 1 && |pages| > 0
    requires pages[0].RenderFailed?
    ensures Run(pages, Before(n, w), fault) == Aborted(RendererFailed(n), After(n, w))
  {
    RequestPage(n, w);
  }

  /** A write that fails among a page's rows ends the crawl with the rows before it written. */
  lemma {:induction false} RunWriteFails(pages: seq<PageResult>, n: nat, w: seq<Row>, f: nat)
    requires n >= 1 && |pages| > 0
    requires pages[0].Loaded?
    requires |w| < f <= |w| + |RowsOf(pages[0])|
    ensures Run(pages, Before(n, w), Some(f)) == Aborted(RowWriteFailed(n), After(n, (w + RowsOf(pages[0]))[..f - 1]))
  {
    var rows := RowsOf(pages[0]);
    RequestPage(n, w);
    WriteRowsSpec(rows, After(n, w), Some(f));
    assert w + rows[..f - 1 - |w|] == (w + rows)[..f - 1];
  }

  /** Pages that render with an enabled "next" link, and whose rows can all be written, are
      passed one after the other: after the first `k` of them, pages 1 to `k` have been requested
      and their rows written, and page `k + 1` is next. */
  lemma {:induction false} RunThrough(pages: seq<PageResult>, fault: Option<nat>, k: nat)
    requires Continuing(pages, k)
    requires !FaultHits(fault, 0, |AllRows(pages[..k])|)
    ensures Run(pages, Before(1, []), fault) == Run(pages[k..], Before(k + 1, AllRows(pages[..k])), fault)
    decreases k
  {
    if k == 0 {
      assert pages[..0] == [];
    } else {
      AllRowsPrefix(pages, k - 1);
      RunThrough(pages, fault, k - 1);
      PassPage(pages, fault, k - 1);
    }
  }

  /** Page `k + 1`, rendered with an enabled "next" link and with all its rows written, hands
      over to page `k + 2`. */
  lemma {:induction false} PassPage(pages: seq<PageResult>, fault: Option<nat>, k: nat)
    requires k < |pages| && pages[k].Loaded? && !pages[k].nextPageDisabled
    requires !FaultHits(fault, |AllRows(pages[..k])|, |AllRows(pages[..k + 1])|)
    ensures Run(pages[k..], Before(k + 1, AllRows(pages[..k])), fault)
         == Run(pages[k + 1..], Before(k + 2, AllRows(pages[..k + 1])), fault)
  {
    AllRowsPrefix(pages, k);
    RunLoaded(pages[k..], k + 1, AllRows(pages[..k]), fault);
    assert pages[k..][1..] == pages[k + 1..];
  }

  /** Termination on the flag: when page `k + 1` is the first whose "next" link is disabled, and
      nothing fails, exactly pages 1 to `k + 1` are requested and the rows of all of them, page
      `k + 1`'s included, are written and counted. */
  lemma {:induction false} CrawlCompletes(pages: seq<PageResult>, fault: Option<nat>, k: nat)
    requires k < |pages| && Continuing(pages, k)
    requires pages[k].Loaded? && pages[k].nextPageDisabled
    requires fault != Some(0) && !FaultHits(fault, 0, |AllRows(pages[..k + 1])|)
    ensures Crawl(pages, fault) == Completed(After(k + 1, AllRows(pages[..k + 1])))
  {
    InitialIsBeforeFirstPage();
    AllRowsPrefix(pages, k);
    RunThrough(pages, fault, k);
    RunLast(pages[k..], k + 1, AllRows(pages[..k]), fault);
  }

  /** A browser failure is fatal: the failing page is requested but none of its listings is
      processed, and no later page is requested. */
  lemma {:induction false} CrawlAbortsOnRenderFailure(pages: seq<PageResult>, fault: Option<nat>, k: nat)
    requires k < |pages| && Continuing(pages, k)
    requires pages[k].RenderFailed?
    requires fault != Some(0) && !FaultHits(fault, 0, |AllRows(pages[..k])|)
    ensures Crawl(pages, fault) == Aborted(RendererFailed(k + 1), After(k + 1, AllRows(pages[..k])))
  {
    InitialIsBeforeFirstPage();
    RunThrough(pages, fault, k);
    RunRenderFails(pages[k..], k + 1, AllRows(pages[..k]), fault);
  }

  /** A failed row write is fatal, not skipped: the run stops on the page of the failing write,
      with the rows before it written and no later page requested. */
  lemma {:induction false} CrawlAbortsOnWriteFailure(pages: seq<PageResult>, f: nat, k: nat)
    requires k < |pages| && Continuing(pages, k)
    requires pages[k].Loaded?
    requires |AllRows(pages[..k])| < f <= |AllRows(pages[..k + 1])|
    ensures Crawl(pages, Some(f)) == Aborted(RowWriteFailed(k + 1), After(k + 1, AllRows(pages[..k + 1])[..f - 1]))
  {
    InitialIsBeforeFirstPage();
    AllRowsPrefix(pages, k);
    RunThrough(pages, Some(f), k);
    RunWriteFails(pages[k..], k + 1, AllRows(pages[..k]), f);
  }

  /** There is no page limit: as long as every page renders with an enabled "next" link and the
      writes succeed, the crawl never ends, however many pages there are. */
  lemma {:induction false} CrawlHasNoPageCap(pages: seq<PageResult>, fault: Option<nat>)
    requires Continuing(pages, |pages|)
    requires fault != Some(0) && !FaultHits(fault, 0, |AllRows(pages)|)
    ensures Crawl(pages, fault) == Unfinished(Before(|pages| + 1, AllRows(pages)))
  {
    InitialIsBeforeFirstPage();
    assert pages[..|pages|] == pages;
    RunThrough(pages, fault, |pages|);
    assert [] + AllRows(pages) == AllRows(pages);
  }
}
