/**
  The loops of `main` written as loops (main.go:50-92), shown to compute the crawl defined
  page by page in `Crawl`.
 */
module Scrape {
  import opened Wrappers
  import opened Extract
  import opened Rows
  import opened Pagination

  /** The rows of a non-empty run of listings: the first listing's row, if any, then the rest's. */
  lemma {:induction false} PageRowsFirst(listings: seq<Listing>)
    requires |listings| > 0
    ensures PageRows(listings) == (if RowFor(listings[0]).Some? then [RowFor(listings[0]).value] else []) + PageRows(listings[1..])
  {
  }

  /** The inner loop (main.go:72-84): every listing of the page in order; a listing that yields
      a row has it written and counted, a failing write ends the page, the others are skipped. */
  method WritePage(listings: seq<Listing>, st: CrawlState, fault: Option<nat>) returns (e: ListingsEnd)
    ensures e == WriteRows(PageRows(listings), st, fault)
  {
    var cur := st;
    var j := 0;
    while j < |listings|
      invariant 0 <= j <= |listings|
      invariant WriteRows(PageRows(listings), st, fault) == WriteRows(PageRows(listings[j..]), cur, fault)
    {
      PageRowsFirst(listings[j..]);
      assert listings[j..][1..] == listings[j + 1..];
      var row := RowFor(listings[j]);
      if row.Some? {
        if fault == Some(|cur.written| + 1) {
          return WriteFailed(cur);
        }
        cur := cur.(written := cur.written + [row.value], totalItems := cur.totalItems + 1);
      }
      j := j + 1;
    }
    return AllWritten(cur);
  }

  /** The crawl of `main` (main.go:42-92): the header write, then one pass of the outer loop per
      page until the "next" link is disabled or a fatal error ends the process. */
  method Scrape(pages: seq<PageResult>, fault: Option<nat>) returns (o: Outcome)
    ensures o == Crawl(pages, fault)
  {
    if fault == Some(0) {
      return Aborted(HeaderWriteFailed, Initial);
    }
    var st := Initial;
    var i := 0;
    while i < |pages|
      invariant 0 <= i <= |pages|
      invariant Crawl(pages, fault) == Run(pages[i..], st, fault)
    {
      assert pages[i..][0] == pages[i] && pages[i..][1..] == pages[i + 1..];
      var page := pages[i];
      var visiting := st.(requested := st.requested + [st.url]);
      if page.RenderFailed? {
        return Aborted(RendererFailed(st.pageNumber), visiting);
      }
      var e := WritePage(page.listings, visiting, fault);
      if e.WriteFailed? {
        return Aborted(RowWriteFailed(st.pageNumber), e.st);
      }
      if page.nextPageDisabled {
        return Completed(e.st);
      }
      st := e.st.(pageNumber := e.st.pageNumber + 1, url := PageUrl(e.st.pageNumber + 1));
      i := i + 1;
    }
    return Unfinished(st);
  }
}
