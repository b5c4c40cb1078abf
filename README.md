# Change-aware video-listing scraper: the core, in Dafny

`scrape_videos.py` crawls a WordPress-style video site one listing page at a
time. For each `div.item-video` element on a page it builds a record (post
id, title, link, thumbnail, view/comment/like counts, date, author,
summary). It uses page 1 to decide how far to crawl. If page 1 shows a post
the saved snapshot does not know, it crawls up to 1000 pages. Otherwise it
crawls `LIMIT_PAGES_NO_NEW` pages to refresh the counts. Pages are crawled
in batches of ten until a page comes back empty. Every crawled record is
written over the snapshot entry for its id, and the result is saved sorted
by page, then by numeric id descending.

This project models that core and proves its properties:

- `pystr.dfy` (`PyStr`): the Python `str` methods the code relies on:
  `strip()`, `lstrip(chars)` (a character set), `lower()`, `startswith`,
  and `replace(pat, '')`.
- `pynum.dfy` (`PyNum`): the text grammars of Python `int()` and `float()`,
  with exact decimal values, and `str()` of integers.
- `binary64.dfy` (`Binary64`): IEEE 754 binary64 rounding (round half to
  even, subnormals, overflow) for `float(...)`, `x * 1000` and `int(x)`.
  It is used only to state what the float path of `convert_views`
  computes.
- `views.dfy` (`Views`): `convert_views`, both exactly (`ConvertViews`) and
  through binary64 (`FloatConvertViews`).
- `extract.dfy` (`Extract`): the page URL rule, post-id recovery, title and
  summary cleaning, and the record built for an item and for a page.
- `snapshot.dfy` (`Snapshot`): the snapshot dictionary. Its keys keep their
  first-insertion order, as a Python `dict` does. It also holds the merge
  loop.
- `output.dfy` (`Output`): the sort done by `save_data`.
- `crawl.dfy` (`Crawl`): the shared crawl state as a class `Scraper`. Its
  fields are `all_video_data`, `stop_scraping` and `total_pages_scraped`.
  The class holds `scrape_page`, the batch loop and `main`. The module also
  holds the planner and the batch plan.

The network is a parameter, `Crawl.Site`:
- `fetch` maps a URL to `FetchFailed` or to the parsed `item-video`
  elements. `FetchFailed` covers connection errors, timeouts and HTTP error
  statuses.
- `resolve` stands for `urljoin(DOMAIN, _)`.

HTML navigation is abstract too. An `Extract.Item` holds what BeautifulSoup
finds inside one element: the class list, and the text or attribute of each
sub-element, `None` when that sub-element is missing.

The model follows the code, including where the code departs from what its
names and comments suggest:
- `lstrip('Permalink to ')` and `lstrip('Video ')` strip a *set* of
  characters, and the records are built with that cleaning
  (`Extract.CleanTitle`, `Extract.CleanSummary`). The view count of a record
  is computed through binary64, as the code does (`Views.FloatConvertViews`).
  The intended versions are modelled beside them (see Findings).
- The `k` test comes before the `m` test, and every occurrence of the
  letter is removed, not only a trailing one.
- When the page count chosen is at most 1, page 1's first records are not
  merged. When it is exactly 1 and the first fetch of page 1 left the flag
  clear (the page was not empty), page 1 is fetched a second time as the
  only batch (`Crawl.SinglePageRefetched`). When page 1 was empty, the flag
  is set and no batch starts.

## Model

| member | source | states |
|---|---|---|
| `PyStr.LStripChars` | scrape_videos.py:96 | `lstrip(chars)` returns a suffix of its input: every character removed is in the set, and the result is empty or starts outside the set |
| `PyStr.LStripCharsUnique` | scrape_videos.py:96 | anything with those three properties is the `lstrip` result, so they fully specify it |
| `PyStr.LStripCharsSkip` | scrape_videos.py:96 | a leading run of set characters is skipped whatever it spells |
| `PyStr.Strip` | scrape_videos.py:96 | `strip()` returns the piece of its input that starts after the leading whitespace and is followed only by whitespace, with no whitespace at either end; it is empty exactly when the input is all whitespace |
| `PyStr.StripUnique` | scrape_videos.py:96 | whitespace, an unpadded text and whitespace strip to that text: the contract of `Strip` has one solution |
| `PyStr.Lower` | scrape_videos.py:55 | `lower()` keeps the length and lower-cases each character in place |
| `PyStr.Replace` | scrape_videos.py:55 | `replace(pat, '')` never grows the string; for a one-character pattern `c` it leaves no `c` and keeps every other character that was present |
| `PyStr.ReplaceChar` | scrape_videos.py:55-58 | `replace(c, '')` is exactly `Without(s, c)`: the other characters, in their order and number |
| `PyStr.ReplaceNone` | scrape_videos.py:90 | a text in which the pattern starts nowhere is left as it is |
| `PyStr.ReplaceFirst` | scrape_videos.py:90 | the first occurrence is deleted and the scan goes on after it: `x + pat + y` with `pat` starting nowhere in `x` becomes `x` followed by the replacement in `y` |
| `PyStr.ReplaceJoin` | scrape_videos.py:58 | removing the single unit letter from `a + "k" + b` joins `a` and `b` |
| `PyStr.ReplaceLeading` | scrape_videos.py:90 | a leading `post-` is deleted by `replace` |
| `PyStr.RemovePrefix` | scrape_videos.py:96 | the intended prefix removal: it takes the prefix off when the text starts with it, and otherwise changes nothing |
| `PyNum.ParseInt` | scrape_videos.py:61 | `int(text)`: `None` where Python raises; characterised by `ParseIntDigits`, `ParseIntShow` and `ParseIntChars` |
| `PyNum.ParseFloat` | scrape_videos.py:58 | `float(text)` as an exact decimal, `None` where Python raises; characterised by `ParseFloatDecimal`, `ParseFloatDigits` and `ParseFloatChars` |
| `PyNum.ShowInt` | scrape_videos.py:72 | `str(i)`: non-empty and ending in a digit; `ParseIntShow` proves `int(str(i)) == i` |
| `PyNum.ParseIntDigits` | scrape_videos.py:61 | `int()` of a non-empty digit string is that string's decimal value |
| `PyNum.ParseIntShow` | scrape_videos.py:72 | `int(str(i)) == i` for every integer |
| `PyNum.ShowIntInjective` | scrape_videos.py:72 | different page numbers have different decimal spellings |
| `PyNum.ParseFloatDecimal` | scrape_videos.py:58 | `float("a.f")` for digit strings is exactly the decimal `a.f` |
| `PyNum.ParseFloatDigits` | scrape_videos.py:58 | `float()` of a digit string is exactly its integer value |
| `PyNum.ParseFloatChars` | scrape_videos.py:58 | every character of a text `float()` accepts is a digit, `_`, `.`, `e` or `E`, a sign or whitespace |
| `PyNum.ParseIntChars` | scrape_videos.py:61 | every character of a text `int()` accepts is a digit, `_`, a sign or whitespace |
| `PyNum.DigitsValueShow` | scrape_videos.py:61 | the digits of `str(n)` have the value `n` |
| `PyNum.DigitsIgnoreReplace` | scrape_videos.py:55 | deleting commas does not change the value of the digits or their count |
| `Binary64.RoundHalfEven` | scrape_videos.py:58 | the significand is the integer nearest to the exact quotient, ties to even |
| `Binary64.Nearest` | scrape_videos.py:58 | a finite result has a 53-bit significand (below `2^53` in magnitude at the top exponent, so it never exceeds the largest double) and an exponent in the binary64 range, and has the sign of the exact value |
| `Binary64.NearestRounds` | scrape_videos.py:58 | the result is the double nearest to `num / den`: its exponent is the spacing of doubles in the binade of `num / den` (at least `2^-1074`), its significand the multiple of that spacing nearest to `num / den`, ties to even; it overflows only from the top binade |
| `Binary64.FromDecimal` | scrape_videos.py:58 | `float(text)`: `Nearest` of the exact decimal that `ParseFloat` reads |
| `Binary64.Times` | scrape_videos.py:58-60 | `x * 1000` (or `* 1000000`): `Nearest` of the exact product |
| `Binary64.ToInt` | scrape_videos.py:58-60 | `int(x)`: truncation toward zero, `None` for infinity where Python raises |
| `Binary64.NearestScale` | scrape_videos.py:58 | rounding depends only on the value of the fraction, not on how it is written |
| `Binary64.WholeRoundTrip` | scrape_videos.py:58 | integers below 2^53 are exact in binary64, so `int(float(n)) == n` |
| `Binary64.WholeTimes` | scrape_videos.py:58 | `int(float(n) * k) == n * k` while the product is below 2^53 |
| `Views.Classify` | scrape_videos.py:55-61 | after lower-casing and deleting commas, the branch taken (`k` before `m` before plain) and the number parsed there; `ClassifyUnit` and `ClassifyBothUnits` state the choice |
| `Views.ConvertViews` | scrape_videos.py:53-63 | the count the text denotes, in exact arithmetic, 0 where a parse raises; characterised by the `ConvertViews…` lemmas below |
| `Views.FloatConvertViews` | scrape_videos.py:53-63 | the count as the code computes it, through binary64 `float`, `*` and `int`; `FloatConvertViewsWhole` and `FloatTruncation` relate it to `ConvertViews` |
| `Views.ConvertViewsGrouped` | scrape_videos.py:55-61 | digits with thousands commas and no unit convert to exactly the number they spell, on both the exact and the float path |
| `Views.ClassifyUnit` | scrape_videos.py:55-60 | a lone trailing `k`/`K` (`m`/`M`) selects the ×1000 (×1000000) branch on the text before it |
| `Views.ConvertViewsDecimal` | scrape_videos.py:57-60 | `"a.f"` with a unit converts to `int(a.f × 10^p)` exactly |
| `Views.ConvertViewsWhole` | scrape_videos.py:57-60 | `"<n>k"` converts to `n × 1000` and `"<n>m"` converts to `n × 1000000` |
| `Views.FloatConvertViewsWhole` | scrape_videos.py:58-60 | for whole numbers with a unit the float path agrees with the exact value while the count stays below 2^53 |
| `Views.ConvertViewsInnerUnit` | scrape_videos.py:57-58 | a `k` anywhere, not only at the end, is removed and selects ×1000 |
| `Views.ConvertViewsBothUnits` | scrape_videos.py:57-63 | a text with both a `k` and an `m` converts to 0: the `k` branch is taken, and `float()` then fails on the `m` |
| `Views.ConvertViewsForeign` | scrape_videos.py:56-63 | a text holding a character no branch accepts converts to 0 rather than raising |
| `Views.GroupedSample` | scrape_videos.py:55-61 | `"1,234"` converts to 1234 |
| `Views.ThousandsSample` | scrape_videos.py:57-58 | `"128.67K"` denotes 128670 views |
| `Views.BothUnitsSample` | scrape_videos.py:57-60 | `"2.5km"` converts to 0 |
| `Views.ForeignSample` | scrape_videos.py:61-63 | `"N/A"` converts to 0 |
| `Views.FloatTruncation` | scrape_videos.py:58 | as computed through binary64, `"128.67K"` gives 128669, one less than the 128670 it denotes |
| `Extract.PageUrl` | scrape_videos.py:69-72 | the domain for page 1, `<domain>/page/<n>/` otherwise; `PageUrlFirst` and `PageUrlInjective` state its properties |
| `Extract.PageUrlFirst` | scrape_videos.py:69-72 | the URL is the bare domain exactly for page 1 |
| `Extract.PageUrlInjective` | scrape_videos.py:69-72 | different pages are fetched from different URLs |
| `Extract.FirstPostClass` | scrape_videos.py:90 | finds the first class starting with `post-`; no earlier class starts with it |
| `Extract.PostId` | scrape_videos.py:89-92 | the first `post-` class with every `post-` deleted, or none; the `PostId…` lemmas below state its cases |
| `Extract.PostIdFromFirst` | scrape_videos.py:89-92 | the id is the first `post-` class with every `post-` deleted |
| `Extract.PostIdMissing` | scrape_videos.py:89-92 | an item without a `post-` class has no id |
| `Extract.PostIdBareFirst` | scrape_videos.py:89-92 | a bare `post-` class as the first match leaves an empty id, so the item is skipped even if a later `post-<n>` class exists |
| `Extract.PostIdDigits` | scrape_videos.py:89-92 | `post-<digits>` as the first match gives exactly the digits |
| `Extract.CleanTitle` | scrape_videos.py:96 | `title.lstrip('Permalink to ').strip()`, as written; `CleanTitleStart`, `CleanTitleSkipsPrefix` and `CleanTitleDropsSetLetters` state what it keeps |
| `Extract.CleanSummary` | scrape_videos.py:119-121 | `summary.strip().lstrip('Video ').strip()`, as written; `CleanSummaryStart` and `CleanSummaryDropsSetLetters` state what it keeps |
| `Extract.CleanTitleStart` | scrape_videos.py:94-96 | the cleaned title is `strip()` of a suffix of the title text that is empty or starts outside the set `Permalink to `, so it is a piece of the text with no whitespace at either end |
| `Extract.CleanSummaryStart` | scrape_videos.py:119-121 | the cleaned summary is `strip()` of a suffix of the stripped summary text that is empty or starts outside the set `Video ` |
| `Extract.CleanTitleSkipsPrefix` | scrape_videos.py:96 | the prefix is consumed as a run of set characters, never as a unit |
| `Extract.CleanTitleDropsSetLetters` | scrape_videos.py:96 | after the prefix, every further letter of the set is dropped too |
| `Extract.CleanTitleLosesLetters` | scrape_videos.py:96 | "Permalink to making tea" is cleaned to "g tea" |
| `Extract.CleanSummaryDropsSetLetters` | scrape_videos.py:120-121 | after "Video ", every further letter of the set is dropped too |
| `Extract.CleanSummaryLosesLetters` | scrape_videos.py:120-121 | "Video ideas" is cleaned to "as" |
| `Extract.IntendedTitle` | scrape_videos.py:94-96 | the intended title cleaning: the prefix removed once, then `strip()`; `IntendedTitleRemovesPrefix` and `IntendedTitleKeepsOthers` state both cases |
| `Extract.IntendedSummary` | scrape_videos.py:119-121 | the intended summary cleaning: `strip()`, the prefix `Video ` removed once, `strip()`; `IntendedSummaryRemovesPrefix` states it |
| `Extract.IntendedTitleRemovesPrefix` | scrape_videos.py:96 | intended cleaning removes exactly the prefix and keeps the whole title that follows |
| `Extract.IntendedTitleKeepsOthers` | scrape_videos.py:96 | a title without the prefix is only stripped |
| `Extract.IntendedSummaryRemovesPrefix` | scrape_videos.py:120-121 | intended cleaning of `"Video " + w` gives `w` stripped; when `w` is only whitespace it gives `"Video"`, because the first `strip()` removes the prefix's own space |
| `Extract.IntendedTitleSample` | scrape_videos.py:96 | intended cleaning keeps "making tea" |
| `Extract.IntendedSummarySample` | scrape_videos.py:121 | intended cleaning keeps "ideas" |
| `Extract.ExtractItem` | scrape_videos.py:88-139 | an item gives a record exactly when it has a post id and its comment and like counts parse (the `except` skips it otherwise); the record carries the page and that non-empty id; title, summary and views are computed as the code does |
| `Extract.ExtractPage` | scrape_videos.py:86-139 | a page yields at most one record per item, each with that page and a non-empty id |
| `Extract.ExtractRecords` | scrape_videos.py:86-139 | the item loop leaves `page_data` equal to `ExtractPage` of the page's items: one record per item that yields one, in item order |
| `Extract.ExtractPageAppend` | scrape_videos.py:87-139 | a page's records are extracted item by item: those of `a + b` are those of `a`, then those of `b` |
| `Extract.ExtractPageSource` | scrape_videos.py:87-139 | every record of a page comes from one of its items |
| `Snapshot.Put` | scrape_videos.py:267 | `d[id] = item`: the id's value becomes the item; an existing key keeps its position; a new key goes last; validity is kept |
| `Snapshot.MergeAll` | scrape_videos.py:266-267 | the merged key set is the old keys together with the merged ids, and validity is kept |
| `Snapshot.Values` | scrape_videos.py:269 | `list(d.values())`: one value per key, in key order |
| `Snapshot.Merge` | scrape_videos.py:266-267 | the merge loop computes `MergeAll`; it also builds the snapshot from the saved list |
| `Snapshot.LastWith` | scrape_videos.py:266-267 | the last record carrying a given id |
| `Snapshot.MergeLastWins` | scrape_videos.py:266-267 | after a merge, each merged id maps to the last merged record carrying it |
| `Snapshot.MergeUntouched` | scrape_videos.py:266-267 | a key that no merged record carries keeps its prior record |
| `Snapshot.MergePresentKeys` | scrape_videos.py:266-267 | merging ids that are all known already leaves the key order unchanged |
| `Snapshot.MergeIdempotent` | scrape_videos.py:266-267 | merging the same records twice equals merging them once |
| `Snapshot.MergeKeepsIds` | scrape_videos.py:266-267 | each entry's record carries its key as id, before and after any merge |
| `Output.Keyed` | scrape_videos.py:178 | there is a sort key for every record exactly when every id parses as an integer |
| `Output.Insert` | scrape_videos.py:178 | insertion adds exactly one element and keeps a sorted list sorted |
| `Output.SortEntries` | scrape_videos.py:178 | the sort returns a permutation, in key order |
| `Output.SaveOrder` | scrape_videos.py:176-198 | nothing is saved exactly when some id is not an integer: `int()` raises and the `except` swallows it |
| `Output.SaveOrderPermutation` | scrape_videos.py:178 | the saved records are exactly the merged ones, each as often |
| `Output.SaveOrderSorted` | scrape_videos.py:178 | saved by page ascending, then by integer id descending |
| `Output.SaveOrderStable` | scrape_videos.py:178 | records with equal keys keep their relative order: `sorted` is stable |
| `Crawl.FirstPage` | scrape_videos.py:229-233 | the records of page 1 from the first fetch (none when the request fails) |
| `Crawl.HasNew` | scrape_videos.py:236-240 | some page-1 record has an id that is not a snapshot key |
| `Crawl.PagesToScrape` | scrape_videos.py:242-247 | 1000 pages when page 1 shows a new post, `LIMIT_PAGES_NO_NEW` otherwise |
| `Crawl.BatchPlan` | scrape_videos.py:256-262 | the batches `(page_num, min(page_num + 9, pages))` the loop would start if the flag were never set; `BatchPlanShape` and `BatchPlanCovers` state its shape |
| `Crawl.Dispatch` | scrape_videos.py:256-262 | the state after the batch loop: batches of ten in turn while the flag is clear |
| `Crawl.Batches` | scrape_videos.py:256-262 | the batches the loop starts; `BatchesFollowPlan` and `BatchesStartClear` relate them to the plan and the flag |
| `Crawl.AfterPage` | scrape_videos.py:65-150 | a page scrape only appends, and only records of that page |
| `Crawl.AfterPageStop` | scrape_videos.py:78-150 | the flag becomes set exactly when the page is fetched with no items; a failed request changes nothing |
| `Crawl.AfterRange` | scrape_videos.py:152-217 | a batch appends only records of its own pages, and does nothing once the flag is set |
| `Crawl.StopFromEmptyPage` | scrape_videos.py:78-84 | the flag is only ever set by an empty page of the range crawled |
| `Crawl.StopStays` | scrape_videos.py:256 | once the flag is set, no further batch starts and nothing changes |
| `Crawl.AfterRangeSplit` | scrape_videos.py:201-217 | crawling `lo..m` and then `m+1..hi` is crawling `lo..hi` |
| `Crawl.DispatchSequential` | scrape_videos.py:256-262 | with one worker, the batch boundaries are invisible: the loop crawls the pages in order, page by page |
| `Crawl.BatchPlanShape` | scrape_videos.py:256-262 | batches are consecutive, start at the first page, hold at most ten pages, end at `pages`, and there are none exactly when the first page is beyond `pages` |
| `Crawl.BatchPlanCovers` | scrape_videos.py:256-262 | every page of the range lies in a batch, and the batches are disjoint |
| `Crawl.BatchesFollowPlan` | scrape_videos.py:256-262 | the batches started are the first ones of the plan, and all of them when the flag stays clear |
| `Crawl.BatchesStartClear` | scrape_videos.py:256 | no batch starts after the flag is set: the pages before each batch leave it clear |
| `Crawl.FirstPageOnce` | scrape_videos.py:250-254 | when more than one page is crawled, every batch lies within `2..pages` |
| `Crawl.SinglePageRefetched` | scrape_videos.py:250-262 | with a page count of 1 and the flag still clear after the first fetch of page 1, page 1 is fetched again as the single batch `(1, 1)` |
| `Crawl.FirstPageRecords` | scrape_videos.py:230-233 | `page1_data` is exactly the records of page 1 |
| `Crawl.HasNewPosts` | scrape_videos.py:236-240 | the scan reports a new post exactly when some page-1 id is not a snapshot key |
| `Crawl.Scraper.constructor` | scrape_videos.py:48-51 | the shared state starts empty, with the flag clear and the counter at 0 |
| `Crawl.Scraper.ScrapePage` | scrape_videos.py:65-150 | the item loop builds the page's records, and the new state is `AfterPage` of the old |
| `Crawl.Scraper.ProcessBatch` | scrape_videos.py:152-217 | one worker crawls the pages in order while the flag is clear |
| `Crawl.Scraper.DispatchBatches` | scrape_videos.py:256-262 | the batch loop reaches `Dispatch` of the old state and returns the batches it started |
| `Crawl.Scraper.Run` | scrape_videos.py:219-273 | `main`: the page count chosen from page 1; the crawl from page 2 with page 1's records kept, or from page 1 without them when the count is at most 1; the snapshot merged with the crawled records; and what is saved |

## Left out

- The HTTP requests, headers, timeout and `time.sleep(DETAIL_DELAY)` are not modelled. Each request is the abstract outcome `Site.fetch(url)`, a fixed function of the URL: two requests for the same URL get the same answer. So when page 1 is fetched a second time (a page count of 1), the model gives it the first answer again, where the site could answer differently (a time-out, then a success).
- BeautifulSoup navigation is not modelled. An `Item` holds what it finds.
- `urljoin` is the parameter `Site.resolve`. It is total: `urljoin` raising `ValueError` on a malformed bracketed host, which skips the item through the `except` at scrape_videos.py:138, is not modelled.
- An anchor or `img` found without `href`/`src` is not modelled: `urljoin(DOMAIN, None)` is a library detail.
- Threads are not modelled (`worker`, the queue, `NUM_THREADS`, the lock). Each batch is crawled by one worker in page order, checking the flag before each page. With several workers, pages already taken still finish after the flag is set, and records within a batch arrive in any order.
- Pages still queued when the flag is set are not modelled; no later batch starts, so they are never crawled.
- File I/O is not modelled (`config.json`, `load_existing_data`, `json.dump`). `Run` takes the loaded list and `LIMIT_PAGES_NO_NEW` as parameters.
- The pandas CSV export and the Google Sheets upload are not modelled. They are I/O after the sort.
- Logging is not modelled, including the every-100-pages progress line.
- `Crawl.Scraper.Run` returns the sorted list `save_data` would write; it does not write it.
- `Replace`: its own contract gives only the length bound and, for one-character patterns, which characters remain; `PyStr.ReplaceChar` fixes the value for one-character patterns, and for `post-`, `PyStr.ReplaceNone`, `PyStr.ReplaceFirst` and `PyStr.ReplaceLeading` state the scan.
- `Nearest`: its own contract gives only the range and the sign; `Binary64.NearestRounds` states that the result is the nearest double.
- Python's own overflow rule for `float()` (above the largest double) is modelled by `Nearest`'s `Infinite`; `Views.ConvertViews`, the intended count, gives the exact product for numbers beyond the largest double (such as `"1e400k"`), where the code gets infinity, `int()` raises and the count is 0.
- `PyStr.Lower` lower-cases ASCII letters only, and `PyNum` accepts ASCII digits only; Python also accepts other Unicode letters and digits.
- `ParseInt`: Python 3.11's default limit of 4300 digits on `int(text)` is not modelled; a longer count raises there (0 for a view count, a skipped item for a comment or like count).
- `float()` strings `inf`/`nan` are not modelled. They cannot reach a count without raising in `int()`, so the result, 0, is the same.

## Findings

| source | as written | input that shows it | evidently intended | confidence | as-written member | corrected member |
|---|---|---|---|---|---|---|
| scrape_videos.py:58 | the count is `int()` of the binary64 product `float(text) * 1000` | `"128.67K"`: the double nearest 128.67 is slightly below it, and the product truncates to 128669 | the count the text denotes, 128670 (`'128.67K'` is an input the docstring names) | high; derived by proof, not executed | `Views.FloatTruncation` | `Views.ThousandsSample` |
| scrape_videos.py:96 | `lstrip('Permalink to ')` strips any leading run of the characters `P e r m a l i n k t o` and space | `"Permalink to making tea"` becomes `"g tea"` | the prefix removed once, leaving `"making tea"` (the comment says "Remove") | high; derived by proof, not executed | `Extract.CleanTitleLosesLetters` | `Extract.IntendedTitleSample` |
| scrape_videos.py:121 | `lstrip('Video ')` strips any leading run of `V i d e o` and space | `"Video ideas"` becomes `"as"` | `"ideas"` | high; derived by proof, not executed | `Extract.CleanSummaryLosesLetters` | `Extract.IntendedSummarySample` |

`Extract.ExtractItem`, and so the whole crawl, uses the code as written: `Views.FloatConvertViews` for the count and `Extract.CleanTitle` and `Extract.CleanSummary` for the cleaning. The corrected definitions stand beside them with their intended properties proved: `Views.ConvertViews` is the exact conversion, and `Views.ConvertViewsDecimal` proves that it is `int(a.f × 10^p)` for every `"a.f"` with a unit; `Extract.IntendedTitle` and `Extract.IntendedSummary` remove the prefix once, and `Extract.IntendedTitleRemovesPrefix` and `Extract.IntendedSummaryRemovesPrefix` prove that they keep everything after it.
