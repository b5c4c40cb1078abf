/**
 * The crawl: fetching one page and keeping its records, the `stop_scraping`
 * rule, the planner that chooses how many pages to crawl, the batch loop,
 * and `main`, which merges what was crawled into the snapshot and saves it.
 *
 * The network is a parameter: `Site.fetch` gives what a request for a URL
 * yields (a failure, or the parsed `item-video` elements), and
 * `Site.resolve` stands for `urljoin(DOMAIN, _)`. Each batch is crawled by
 * a single worker, page after page, checking the flag before each page.
 */
module Crawl {
  import opened Wrappers
  import opened Extract
  import opened Snapshot
  import Output

  const MaxPages: int := 1000
  const BatchSize: int := 10

  /** The outcome of a request: an error (connection, timeout, HTTP status), or the page's video elements. */
  datatype Fetch = FetchFailed | Fetched(items: seq<Item>)

  datatype Site = Site(domain: string, fetch: string -> Fetch, resolve: string -> string)

  /** The shared crawl state: `all_video_data`, `stop_scraping` and `total_pages_scraped`. */
  datatype State = State(collected: seq<Record>, stop: bool, pagesScraped: nat)

  function PageFetch(site: Site, n: int): Fetch {
    site.fetch(PageUrl(site.domain, n))
  }

  /**
   * `scrape_page(n)`: an empty page sets the flag; a failed request changes
   * nothing; otherwise the page's records are appended and the page counted.
   */
  function AfterPage(s: State, site: Site, n: int): (r: State)
    ensures s.collected <= r.collected
    ensures forall i :: |s.collected| <= i < |r.collected| ==> r.collected[i].page == n
  {
    match PageFetch(site, n)
    case FetchFailed => s
    case Fetched(items) =>
      if items == [] then s.(stop := true)
      else s.(collected := s.collected + ExtractPage(n, items, site.resolve), pagesScraped := s.pagesScraped + 1)
  }

  /** The pages `lo..hi` crawled in order by one worker, which stops taking pages once the flag is set. */
  function AfterRange(s: State, site: Site, lo: int, hi: int): (r: State)
    ensures s.stop ==> r == s
    ensures s.collected <= r.collected
    ensures forall i :: |s.collected| <= i < |r.collected| ==> lo <= r.collected[i].page <= hi
    decreases hi - lo + 1
  {
    if lo > hi || s.stop then s else AfterRange(AfterPage(s, site, lo), site, lo + 1, hi)
  }

  function Min(a: int, b: int): int {
    if a <= b then a else b
  }

  /** The batch loop `while page_num <= pages and not stop_scraping`, from `pageNum` on. */
  function Dispatch(s: State, site: Site, pageNum: int, pages: int): State
    decreases pages - pageNum + BatchSize
  {
    if pageNum > pages || s.stop then s
    else Dispatch(AfterRange(s, site, pageNum, Min(pageNum + BatchSize - 1, pages)), site, pageNum + BatchSize, pages)
  }

  /** The batches that loop starts, as `(start_page, end_page)`. */
  function Batches(s: State, site: Site, pageNum: int, pages: int): seq<(int, int)>
    decreases pages - pageNum + BatchSize
  {
    if pageNum > pages || s.stop then []
    else
      var hi := Min(pageNum + BatchSize - 1, pages);
      [(pageNum, hi)] + Batches(AfterRange(s, site, pageNum, hi), site, pageNum + BatchSize, pages)
  }

  /** The batches the loop would start if the flag were never set. */
  function BatchPlan(pageNum: int, pages: int): seq<(int, int)>
    decreases pages - pageNum + BatchSize
  {
    if pageNum > pages then []
    else [(pageNum, Min(pageNum + BatchSize - 1, pages))] + BatchPlan(pageNum + BatchSize, pages)
  }

  /** The records of page 1, as scraped first to decide how far to crawl. */
  function FirstPage(site: Site): seq<Record> {
    match PageFetch(site, 1)
    case Fetched(items) => ExtractPage(1, items, site.resolve)
    case FetchFailed => []
  }

  /** The first scrape of page 1 keeps exactly the page's records, whatever the counter says. */
  lemma FirstPageRecords(site: Site, count: nat)
    ensures AfterPage(State([], false, count), site, 1).collected == FirstPage(site)
  {
  }

  /** Some page-1 record has an id the snapshot does not know. */
  predicate HasNew(page1: seq<Record>, d: Dict) {
    exists i :: 0 <= i < |page1| && page1[i].id !in d.entries
  }

  /** How many pages to crawl: all of them when page 1 shows a new post, else `LIMIT_PAGES_NO_NEW`. */
  function PagesToScrape(page1: seq<Record>, d: Dict, limit: int): int {
    if HasNew(page1, d) then MaxPages else limit
  }

  /** `has_new_posts`: scans page 1 and stops at the first unknown id. */
  method HasNewPosts(page1: seq<Record>, d: Dict) returns (found: bool)
    ensures found <==> exists i :: 0 <= i < |page1| && page1[i].id !in d.entries
  {
    found := false;
    var i := 0;
    while i < |page1|
      invariant 0 <= i <= |page1|
      invariant forall j :: 0 <= j < i ==> page1[j].id in d.entries
    {
      if page1[i].id !in d.entries {
        found := true;
        break;
      }
      i := i + 1;
    }
  }

  // ---------------------------------------------------------------------------
  // The stop flag

  /** A page sets the flag exactly when it is fetched and has no items; a failed request changes nothing. */
  lemma AfterPageStop(s: State, site: Site, n: int)
    ensures AfterPage(s, site, n).stop <==> s.stop || PageFetch(site, n) == Fetched([])
    ensures PageFetch(site, n) == FetchFailed ==> AfterPage(s, site, n) == s
  {
  }

  /** The flag is only ever set by an empty page of the range. */
  lemma {:induction false} StopFromEmptyPage(s: State, site: Site, lo: int, hi: int)
    requires !s.stop && AfterRange(s, site, lo, hi).stop
    ensures exists q :: lo <= q <= hi && PageFetch(site, q) == Fetched([])
    decreases hi - lo + 1
  {
    var t := AfterPage(s, site, lo);
    AfterPageStop(s, site, lo);
    if !t.stop {
      StopFromEmptyPage(t, site, lo + 1, hi);
    }
  }

  /** Once set, the flag stays set: a crawl of later pages changes nothing. */
  lemma {:induction false} StopStays(s: State, site: Site, pageNum: int, pages: int)
    requires s.stop
    ensures Dispatch(s, site, pageNum, pages) == s && Batches(s, site, pageNum, pages) == []
  {
  }

  // ---------------------------------------------------------------------------
  // Batches

  /** Crawling `lo..m` and then `m+1..hi` is crawling `lo..hi`. */
  lemma {:induction false} AfterRangeSplit(s: State, site: Site, lo: int, m: int, hi: int)
    requires lo - 1 <= m <= hi
    ensures AfterRange(AfterRange(s, site, lo, m), site, m + 1, hi) == AfterRange(s, site, lo, hi)
    decreases m - lo + 1
  {
    if lo <= m && !s.stop {
      AfterRangeSplit(AfterPage(s, site, lo), site, lo + 1, m, hi);
    }
  }

  /** The batch boundaries are invisible: the batch loop crawls `pageNum..pages` page by page. */
  lemma {:induction false} DispatchSequential(s: State, site: Site, pageNum: int, pages: int)
    ensures Dispatch(s, site, pageNum, pages) == AfterRange(s, site, pageNum, pages)
    decreases pages - pageNum + BatchSize
  {
    if pageNum <= pages && !s.stop {
      var hi := Min(pageNum + BatchSize - 1, pages);
      var t := AfterRange(s, site, pageNum, hi);
      DispatchSequential(t, site, pageNum + BatchSize, pages);
      if hi < pages {
        AfterRangeSplit(s, site, pageNum, hi, pages);
      } else {
        assert AfterRange(t, site, pageNum + BatchSize, pages) == t;
      }
    }
  }

  /** The planned batches: consecutive, at most ten pages each, ending at `pages`, the first at `pageNum`. */
  lemma {:induction false} BatchPlanShape(pageNum: int, pages: int)
    ensures var plan := BatchPlan(pageNum, pages);
      && (plan == [] <==> pageNum > pages)
      && (plan != [] ==> plan[0].0 == pageNum && plan[|plan| - 1].1 == pages)
      && (forall i :: 0 <= i < |plan| ==>
            plan[i].0 == pageNum + BatchSize * i && plan[i].0 <= plan[i].1 <= pages && plan[i].1 - plan[i].0 < BatchSize)
      && (forall i :: 0 <= i < |plan| - 1 ==> plan[i + 1].0 == plan[i].1 + 1)
    decreases pages - pageNum + BatchSize
  {
    if pageNum <= pages {
      var rest := BatchPlan(pageNum + BatchSize, pages);
      BatchPlanShape(pageNum + BatchSize, pages);
      var plan := BatchPlan(pageNum, pages);
      assert forall i :: 1 <= i < |plan| ==> plan[i] == rest[i - 1];
    }
  }

  /** Every page of `pageNum..pages` is in exactly one planned batch. */
  lemma BatchPlanCovers(pageNum: int, pages: int, q: int)
    ensures var plan := BatchPlan(pageNum, pages);
      && (pageNum <= q <= pages <==> exists i :: 0 <= i < |plan| && plan[i].0 <= q <= plan[i].1)
      && (forall i, j :: 0 <= i < j < |plan| ==> plan[i].1 < plan[j].0)
  {
    var plan := BatchPlan(pageNum, pages);
    BatchPlanShape(pageNum, pages);
    if pageNum <= q <= pages {
      var i := (q - pageNum) / BatchSize;
      var last := |plan| - 1;
      assert pageNum + BatchSize * i <= q < pageNum + BatchSize * i + BatchSize;
      assert plan[last].0 == pageNum + BatchSize * last && plan[last].1 == pages;
      assert i <= last;
      if i < last {
        assert plan[i + 1].0 == pageNum + BatchSize * (i + 1) == plan[i].1 + 1;
      }
      assert plan[i].0 <= q <= plan[i].1;
    }
    assert forall i :: 0 <= i < |plan| ==> plan[i].1 < plan[i].0 + BatchSize;
  }

  /** The batches started are the plan's first ones; all of them when the flag was never set. */
  lemma {:induction false} BatchesFollowPlan(s: State, site: Site, pageNum: int, pages: int)
    ensures Batches(s, site, pageNum, pages) <= BatchPlan(pageNum, pages)
    ensures !Dispatch(s, site, pageNum, pages).stop ==> Batches(s, site, pageNum, pages) == BatchPlan(pageNum, pages)
    decreases pages - pageNum + BatchSize
  {
    if pageNum <= pages && !s.stop {
      var hi := Min(pageNum + BatchSize - 1, pages);
      BatchesFollowPlan(AfterRange(s, site, pageNum, hi), site, pageNum + BatchSize, pages);
    }
  }

  /** No batch starts once the flag is set: the pages before each batch left it clear. */
  lemma {:induction false} BatchesStartClear(s: State, site: Site, pageNum: int, pages: int, i: nat)
    requires i < |Batches(s, site, pageNum, pages)|
    ensures !AfterRange(s, site, pageNum, Batches(s, site, pageNum, pages)[i].0 - 1).stop
    decreases pages - pageNum + BatchSize
  {
    var hi := Min(pageNum + BatchSize - 1, pages);
    var t := AfterRange(s, site, pageNum, hi);
    var rest := Batches(t, site, pageNum + BatchSize, pages);
    assert Batches(s, site, pageNum, pages) == [(pageNum, hi)] + rest;
    if i > 0 {
      BatchesStartClear(t, site, pageNum + BatchSize, pages, i - 1);
      BatchesFollowPlan(t, site, pageNum + BatchSize, pages);
      BatchPlanShape(pageNum + BatchSize, pages);
      StartClearStep(s, site, pageNum, hi, rest[i - 1].0 - 1);
    }
  }

  /** The flag is clear after `lo..j` when it is clear after `lo..hi` followed by `hi+1..j`. */
  lemma StartClearStep(s: State, site: Site, lo: int, hi: int, j: int)
    requires lo - 1 <= hi <= j && !AfterRange(AfterRange(s, site, lo, hi), site, hi + 1, j).stop
    ensures !AfterRange(s, site, lo, j).stop
  {
    AfterRangeSplit(s, site, lo, hi, j);
  }

  /** When more than one page is crawled, the batches start at page 2: page 1 is fetched only once. */
  lemma FirstPageOnce(s: State, site: Site, pages: int)
    requires pages > 1
    ensures forall b :: b in Batches(s, site, 2, pages) ==> 2 <= b.0 <= b.1 <= pages
  {
    BatchesFollowPlan(s, site, 2, pages);
    BatchPlanShape(2, pages);
    var bs := Batches(s, site, 2, pages);
    assert forall k :: 0 <= k < |bs| ==> bs[k] == BatchPlan(2, pages)[k];
  }

  /** With a limit of one page and page 1 not empty, page 1 is fetched a second time as the only batch. */
  lemma SinglePageRefetched(s: State, site: Site)
    requires !s.stop
    ensures Batches(s, site, 1, 1) == [(1, 1)]
  {
    assert Batches(AfterRange(s, site, 1, 1), site, 11, 1) == [];
  }

  /** The scraper's shared state, updated in place by each step of the crawl. */
  class Scraper {
    var collected: seq<Record>
    var stop: bool
    var pagesScraped: nat
    const site: Site

    function Current(): State
      reads this
    {
      State(collected, stop, pagesScraped)
    }

    /** The module-level initial values. */
    constructor (site: Site)
      ensures Current() == State([], false, 0) && this.site == site
    {
      collected, stop, pagesScraped := [], false, 0;
      this.site := site;
    }

    /** `scrape_page(n)`: the item loop builds `page_data`, which is appended at the end. */
    method ScrapePage(n: int)
      modifies this
      ensures Current() == AfterPage(old(Current()), site, n)
    {
      ghost var s0 := Current();
      var fetched := PageFetch(site, n);
      if fetched.FetchFailed? {
        return;
      }
      var items := fetched.items;
      if |items| == 0 {
        stop := true;
        return;
      }
      var pageData := ExtractRecords(n, items, site.resolve);
      collected := collected + pageData;
      pagesScraped := pagesScraped + 1;
      assert Current() == s0.(collected := s0.collected + pageData, pagesScraped := s0.pagesScraped + 1);
    }

    /** `process_batch(lo, hi)` with one worker: pages in order while the flag is clear. */
    method ProcessBatch(lo: int, hi: int)
      modifies this
      ensures Current() == AfterRange(old(Current()), site, lo, hi)
    {
      var p := lo;
      while p <= hi && !stop
        invariant AfterRange(Current(), site, p, hi) == AfterRange(old(Current()), site, lo, hi)
        decreases hi - p
      {
        ScrapePage(p);
        p := p + 1;
      }
    }

    /** The batch loop of `main`; returns the batches it started. */
    method DispatchBatches(first: int, pages: int) returns (log: seq<(int, int)>)
      modifies this
      ensures Current() == Dispatch(old(Current()), site, first, pages)
      ensures log == Batches(old(Current()), site, first, pages)
    {
      var pageNum := first;
      log := [];
      while pageNum <= pages && !stop
        invariant Dispatch(Current(), site, pageNum, pages) == Dispatch(old(Current()), site, first, pages)
        invariant log + Batches(Current(), site, pageNum, pages) == Batches(old(Current()), site, first, pages)
        decreases pages - pageNum
      {
        var endPage := Min(pageNum + BatchSize - 1, pages);
        ghost var before := Current();
        ProcessBatch(pageNum, endPage);
        assert Batches(before, site, pageNum, pages) == [(pageNum, endPage)] + Batches(Current(), site, pageNum + BatchSize, pages);
        log := log + [(pageNum, endPage)];
        pageNum := pageNum + BatchSize;
      }
    }

    /**
     * `main`: scrape page 1, choose the number of pages, crawl the rest in
     * batches, merge into the snapshot built from the saved records, and
     * compute what is saved.
     */
    method Run(existing: seq<Record>, limit: int) returns (pages: int, log: seq<(int, int)>, known: Dict, saved: Option<seq<Record>>)
      modifies this
      ensures var start := MergeAll(Empty, existing);
        var s1 := AfterPage(State([], false, old(pagesScraped)), site, 1);
        && pages == PagesToScrape(FirstPage(site), start, limit)
        && (pages > 1 ==>
              && Current() == Dispatch(s1, site, 2, pages)
              && log == Batches(s1, site, 2, pages))
        && (pages <= 1 ==>
              && Current() == Dispatch(s1.(collected := []), site, 1, pages)
              && log == Batches(s1.(collected := []), site, 1, pages))
        && known == MergeAll(start, collected)
        && saved == Output.SaveOrder(Values(known))
    {
      known := Merge(Empty, existing);
      collected := [];
      stop := false;
      ghost var s0 := Current();
      ScrapePage(1);
      ghost var s1 := Current();
      assert s1 == AfterPage(s0, site, 1);
      FirstPageRecords(site, s0.pagesScraped);
      var page1 := collected;
      collected := [];
      var hasNewPosts := HasNewPosts(page1, known);
      pages := if hasNewPosts then MaxPages else limit;
      var pageNum := 1;
      if pages > 1 {
        pageNum := 2;
        collected := collected + page1;
        assert collected == page1;
        assert Current() == s1;
      } else {
        assert Current() == s1.(collected := []);
      }
      log := DispatchBatches(pageNum, pages);
      known := Merge(known, collected);
      assert Valid(Empty);
      saved := Output.SaveOrder(Values(known));
    }
  }
}
