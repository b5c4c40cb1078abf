/**
 * What the scraper keeps of one listing page: the page URL rule, and for
 * every `item-video` element the record built from its sub-elements
 * (post id, title, link, thumbnail, counts, date, author, summary).
 *
 * HTML navigation is not modelled: an `Item` holds what the parser finds
 * in one element (the text or attribute of each sub-element, `None` when
 * the sub-element is missing), and URL resolution against the domain is
 * a parameter.
 */
module Extract {
  import opened Wrappers
  import opened PyNum
  import opened PyStr
  import Views

  /** One scraped video, as stored and saved. `date` is `None` when the `time` element has no `datetime`. */
  datatype Record = Record(
    page: int, id: string, title: string, link: string, thumbnail: string,
    views: int, comments: int, likes: int, date: Option<string>, author: string, summary: string)

  /** The `time.entry-date` element: missing, or present with an optional `datetime` attribute. */
  datatype DateField = NoTimeElement | TimeElement(datetime: Option<string>)

  /** What the parser finds inside one `div.item-video`; `None` marks a missing sub-element. */
  datatype Item = Item(
    classes: seq<string>,
    titleText: Option<string>,
    linkHref: Option<string>,
    imageSrc: Option<string>,
    viewsText: Option<string>,
    commentsText: Option<string>,
    likesText: Option<string>,
    date: DateField,
    authorText: Option<string>,
    summaryText: Option<string>)

  // ---------------------------------------------------------------------------
  // Page URLs

  /** Page 1 is the domain itself; page `n` is `<domain>/page/<n>/`. */
  function PageUrl(domain: string, pageNum: int): string {
    if pageNum == 1 then domain else domain + "/page/" + ShowInt(pageNum) + "/"
  }

  /** The URL is the bare domain exactly for page 1. */
  lemma PageUrlFirst(domain: string, pageNum: int)
    ensures PageUrl(domain, pageNum) == domain <==> pageNum == 1
  {
  }

  /** Different pages are fetched from different URLs. */
  lemma PageUrlInjective(domain: string, n: int, m: int)
    requires PageUrl(domain, n) == PageUrl(domain, m)
    ensures n == m
  {
    if n != 1 && m != 1 {
      var u := PageUrl(domain, n);
      var k := |domain| + 6;
      assert u[k..|u| - 1] == ShowInt(n);
      assert PageUrl(domain, m)[k..|u| - 1] == ShowInt(m);
      ShowIntInjective(n, m);
    }
  }

  // ---------------------------------------------------------------------------
  // Post ids

  const PostPrefix: string := "post-"

  /** Index of the first class starting with `post-`, or `|classes|`. */
  function FirstPostClass(classes: seq<string>): (i: nat)
    ensures i <= |classes|
    ensures i < |classes| ==> StartsWith(classes[i], PostPrefix)
    ensures forall j :: 0 <= j < i ==> !StartsWith(classes[j], PostPrefix)
  {
    if classes == [] then 0
    else if StartsWith(classes[0], PostPrefix) then 0
    else 1 + FirstPostClass(classes[1..])
  }

  /**
   * The post id: the first `post-` class with every `post-` deleted;
   * `None` when there is no such class or nothing is left of it.
   */
  function PostId(classes: seq<string>): Option<string> {
    var i := FirstPostClass(classes);
    if i == |classes| then None
    else
      var id := Replace(classes[i], PostPrefix);
      if id == [] then None else Some(id)
  }

  /** The id comes from the first class starting with `post-`, with every `post-` deleted. */
  lemma PostIdFromFirst(classes: seq<string>, i: nat)
    requires i < |classes| && StartsWith(classes[i], PostPrefix)
    requires forall j :: 0 <= j < i ==> !StartsWith(classes[j], PostPrefix)
    requires Replace(classes[i], PostPrefix) != []
    ensures PostId(classes) == Some(Replace(classes[i], PostPrefix))
  {
    FirstPostClassAt(classes, i);
  }

  /** An item without a `post-` class has no id. */
  lemma PostIdMissing(classes: seq<string>)
    requires forall j :: 0 <= j < |classes| ==> !StartsWith(classes[j], PostPrefix)
    ensures PostId(classes) == None
  {
  }

  /** A class `post-` with nothing after it hides any later `post-<n>` class. */
  lemma PostIdBareFirst(before: seq<string>, after: seq<string>)
    requires forall j :: 0 <= j < |before| ==> !StartsWith(before[j], PostPrefix)
    ensures PostId(before + [PostPrefix] + after) == None
  {
    var classes := before + [PostPrefix] + after;
    assert classes[|before|] == PostPrefix;
    assert forall j :: 0 <= j < |before| ==> classes[j] == before[j];
    assert FirstPostClass(classes) == |before| by {
      FirstPostClassAt(classes, |before|);
    }
    ReplaceLeading(PostPrefix, []);
  }

  /** `post-<digits>` as the first `post-` class gives the digits as the id. */
  lemma PostIdDigits(before: seq<string>, digits: string, after: seq<string>)
    requires forall j :: 0 <= j < |before| ==> !StartsWith(before[j], PostPrefix)
    requires digits != [] && AllDigits(digits)
    ensures PostId(before + [PostPrefix + digits] + after) == Some(digits)
  {
    var classes := before + [PostPrefix + digits] + after;
    assert classes[|before|] == PostPrefix + digits;
    assert forall j :: 0 <= j < |before| ==> classes[j] == before[j];
    assert StartsWith(PostPrefix + digits, PostPrefix);
    FirstPostClassAt(classes, |before|);
    ReplaceLeading(PostPrefix, digits);
    assert 'p' !in digits;
    ReplaceMissingHead(digits, PostPrefix);
  }

  lemma FirstPostClassAt(classes: seq<string>, i: nat)
    requires i < |classes| && StartsWith(classes[i], PostPrefix)
    requires forall j :: 0 <= j < i ==> !StartsWith(classes[j], PostPrefix)
    ensures FirstPostClass(classes) == i
  {
  }

  // ---------------------------------------------------------------------------
  // Title and summary cleaning, as written: `lstrip` takes a set of characters

  /** The texts the code passes to `lstrip`; the intended cleaning removes each as a prefix. */
  const TitlePrefix: string := "Permalink to "
  const SummaryPrefix: string := "Video "

  /** `title.lstrip('Permalink to ').strip()`. */
  function CleanTitle(text: string): string {
    Strip(LStripChars(text, TitlePrefix))
  }

  /** `summary.strip().lstrip('Video ').strip()`. */
  function CleanSummary(text: string): string {
    Strip(LStripChars(Strip(text), SummaryPrefix))
  }

  /** The cleaned title starts where `lstrip` stopped: at the first character outside the set, after whitespace. */
  lemma CleanTitleStart(text: string)
    ensures var u := LStripChars(text, TitlePrefix);
      CleanTitle(text) == Strip(u) && u == text[|text| - |u|..] && (u == [] || u[0] !in TitlePrefix)
  {
  }

  /** The cleaned summary starts where `lstrip` stopped in the stripped summary text. */
  lemma CleanSummaryStart(text: string)
    ensures var t := Strip(text); var u := LStripChars(t, SummaryPrefix);
      CleanSummary(text) == Strip(u) && u == t[|t| - |u|..] && (u == [] || u[0] !in SummaryPrefix)
  {
  }

  /** The prefix "Permalink to " is consumed as part of the character set, never as a unit. */
  lemma CleanTitleSkipsPrefix(w: string)
    ensures CleanTitle(TitlePrefix + w) == CleanTitle(w)
  {
    LStripCharsSkip(TitlePrefix, w, TitlePrefix);
  }

  /**
   * Letters of the real title that belong to the set go with the prefix:
   * after "Permalink to " every further character of the set is dropped too.
   */
  lemma CleanTitleDropsSetLetters(t: string, x: string, w: string)
    requires t == TitlePrefix + x + w
    requires forall i :: 0 <= i < |x| ==> x[i] in TitlePrefix
    requires w != [] && w[0] !in TitlePrefix && !IsSpace(w[0]) && !IsSpace(w[|w| - 1])
    ensures CleanTitle(t) == w
  {
    assert t == TitlePrefix + (x + w);
    LStripCharsSkip(TitlePrefix, x + w, TitlePrefix);
    LStripCharsSkip(x, w, TitlePrefix);
    LStripCharsStop(w, TitlePrefix);
    StripUnpadded(w);
  }

  /** "Permalink to making tea" is cleaned to "g tea". */
  lemma CleanTitleLosesLetters()
    ensures CleanTitle("Permalink to making tea") == "g tea"
  {
    CleanTitleDropsSetLetters("Permalink to making tea", "makin", "g tea");
  }

  /** Likewise for summaries: after "Video " every further character of the set is dropped. */
  lemma CleanSummaryDropsSetLetters(t: string, x: string, w: string)
    requires t == SummaryPrefix + x + w
    requires forall i :: 0 <= i < |x| ==> x[i] in SummaryPrefix
    requires w != [] && w[0] !in SummaryPrefix && !IsSpace(w[0]) && !IsSpace(w[|w| - 1])
    ensures CleanSummary(t) == w
  {
    assert t == SummaryPrefix + (x + w);
    StripUnpadded(t);
    LStripCharsSkip(SummaryPrefix, x + w, SummaryPrefix);
    LStripCharsSkip(x, w, SummaryPrefix);
    LStripCharsStop(w, SummaryPrefix);
    StripUnpadded(w);
  }

  /** "Video ideas" is cleaned to "as". */
  lemma CleanSummaryLosesLetters()
    ensures CleanSummary("Video ideas") == "as"
  {
    CleanSummaryDropsSetLetters("Video ideas", "ide", "as");
  }

  // ---------------------------------------------------------------------------
  // Title and summary cleaning, as intended: the prefix removed as a unit

  function IntendedTitle(text: string): string {
    Strip(RemovePrefix(text, TitlePrefix))
  }

  function IntendedSummary(text: string): string {
    Strip(RemovePrefix(Strip(text), SummaryPrefix))
  }

  /** Exactly the prefix is removed: what follows it survives whole. */
  lemma IntendedTitleRemovesPrefix(w: string)
    ensures IntendedTitle(TitlePrefix + w) == Strip(w)
  {
    assert StartsWith(TitlePrefix + w, TitlePrefix);
    assert (TitlePrefix + w)[|TitlePrefix|..] == w;
  }

  /** A title without the prefix is only stripped of whitespace. */
  lemma IntendedTitleKeepsOthers(text: string)
    requires !StartsWith(text, TitlePrefix)
    ensures IntendedTitle(text) == Strip(text)
  {
  }

  /**
   * Exactly the prefix is removed: what follows it survives, stripped. A
   * summary that is only `Video` and whitespace loses its space to the
   * first `strip()`, so the prefix no longer matches and `Video` is kept.
   */
  lemma IntendedSummaryRemovesPrefix(w: string)
    ensures IntendedSummary(SummaryPrefix + w) == if Strip(w) == [] then "Video" else Strip(w)
  {
    if Strip(w) == [] { SummaryOnlyPrefix(w); } else { SummaryAfterPrefix(w); }
  }

  lemma SummaryOnlyPrefix(w: string)
    requires Strip(w) == []
    ensures IntendedSummary(SummaryPrefix + w) == "Video"
  {
    assert SummaryPrefix + w == [] + "Video" + ([' '] + w);
    StripUnique([], "Video", [' '] + w);
    StripUnpadded("Video");
  }

  lemma SummaryAfterPrefix(w: string)
    requires Strip(w) != []
    ensures IntendedSummary(SummaryPrefix + w) == Strip(w)
  {
    var v, n := Strip(w), LeadingSpaces(w);
    var a, b := w[..n], w[n + |v|..];
    StripParts(w, a, b);
    SummaryAround(w, a, v, b);
  }

  /** A summary `Video ` + whitespace + unpadded `v` + whitespace cleans to `v`. */
  lemma SummaryAround(w: string, a: string, v: string, b: string)
    requires w == a + v + b && v != [] && !IsSpace(v[0]) && !IsSpace(v[|v| - 1])
    requires forall i :: 0 <= i < |a| ==> IsSpace(a[i])
    requires forall i :: 0 <= i < |b| ==> IsSpace(b[i])
    ensures IntendedSummary(SummaryPrefix + w) == v
  {
    assert SummaryPrefix + w == SummaryPrefix + (a + v) + b;
    StripPrefixed(a + v, b);
    RemovedSummaryPrefix(a + v);
    StripLeading(a, v);
  }

  /** After the first `strip()`, only the trailing whitespace is gone. */
  lemma StripPrefixed(x: string, b: string)
    requires x != [] && !IsSpace(x[|x| - 1])
    requires forall i :: 0 <= i < |b| ==> IsSpace(b[i])
    ensures Strip(SummaryPrefix + x + b) == SummaryPrefix + x
  {
    var u := SummaryPrefix + x;
    assert u[0] == 'V' && u[|u| - 1] == x[|x| - 1];
    assert [] + u + b == u + b;
    StripUnique([], u, b);
  }

  /** The final `strip()` removes the whitespace left after the prefix. */
  lemma StripLeading(a: string, v: string)
    requires v != [] && !IsSpace(v[0]) && !IsSpace(v[|v| - 1])
    requires forall i :: 0 <= i < |a| ==> IsSpace(a[i])
    ensures Strip(a + v) == v
  {
    assert a + v + [] == a + v;
    StripUnique(a, v, []);
  }

  /** What `strip` removes from `w`: the whitespace `a` before `Strip(w)` and `b` after it. */
  lemma StripParts(w: string, a: string, b: string)
    requires |a| == LeadingSpaces(w) && a == w[..|a|] && b == w[|a| + |Strip(w)|..]
    ensures w == a + Strip(w) + b
    ensures forall i :: 0 <= i < |a| ==> IsSpace(a[i])
    ensures forall i :: 0 <= i < |b| ==> IsSpace(b[i])
  {
    var v, n := Strip(w), |a|;
    assert w == w[..n] + w[n..n + |v|] + w[n + |v|..];
    forall i | 0 <= i < |a| ensures IsSpace(a[i]) { assert a[i] == w[i]; }
    forall i | 0 <= i < |b| ensures IsSpace(b[i]) { assert b[i] == w[n + |v| + i]; }
  }

  lemma RemovedSummaryPrefix(x: string)
    ensures RemovePrefix(SummaryPrefix + x, SummaryPrefix) == x
  {
    assert StartsWith(SummaryPrefix + x, SummaryPrefix);
  }

  /** A title after the prefix that has no surrounding whitespace is kept whole. */
  lemma IntendedTitleKeepsRest(w: string)
    requires w != [] && !IsSpace(w[0]) && !IsSpace(w[|w| - 1])
    ensures IntendedTitle(TitlePrefix + w) == w
  {
    IntendedTitleRemovesPrefix(w);
    StripUnpadded(w);
  }

  lemma IntendedSummaryKeepsRest(w: string)
    requires w != [] && !IsSpace(w[0]) && !IsSpace(w[|w| - 1])
    ensures IntendedSummary(SummaryPrefix + w) == w
  {
    IntendedSummaryRemovesPrefix(w);
    StripUnpadded(w);
  }

  /** With the prefix removed as a unit, "Permalink to making tea" keeps its whole title. */
  lemma IntendedTitleSample()
    ensures IntendedTitle("Permalink to making tea") == "making tea"
  {
    IntendedTitleKeepsRest("making tea");
    assert TitlePrefix + "making tea" == "Permalink to making tea";
  }

  /** With the prefix removed as a unit, "Video ideas" keeps "ideas". */
  lemma IntendedSummarySample()
    ensures IntendedSummary("Video ideas") == "ideas"
  {
    IntendedSummaryKeepsRest("ideas");
    assert SummaryPrefix + "ideas" == "Video ideas";
  }

  // ---------------------------------------------------------------------------
  // Records

  function OrEmpty(t: Option<string>): string {
    match t
    case Some(s) => s
    case None => ""
  }

  /** A comment or like count: 0 when its element is missing, `None` where `int()` raises. */
  function CountField(t: Option<string>): Option<int> {
    match t
    case None => Some(0)
    case Some(s) => ParseInt(s)
  }

  function DateOf(d: DateField): Option<string> {
    match d
    case NoTimeElement => Some("")
    case TimeElement(attr) => attr
  }

  /**
   * The record for one item on page `page`, or `None` when the item is
   * skipped: it has no post id, or a comment or like count is not an
   * integer (the `int()` raises and the item's `except` skips it).
   */
  function ExtractItem(page: int, item: Item, resolve: string -> string): (r: Option<Record>)
    ensures r.Some? <==> PostId(item.classes).Some? && CountField(item.commentsText).Some? && CountField(item.likesText).Some?
    ensures r.Some? ==> r.value.page == page && r.value.id == PostId(item.classes).value && r.value.id != []
  {
    var id, comments, likes := PostId(item.classes), CountField(item.commentsText), CountField(item.likesText);
    if id.None? || comments.None? || likes.None? then None
    else
      Some(Record(
        page := page,
        id := id.value,
        title := CleanTitle(OrEmpty(item.titleText)),
        link := if item.linkHref.Some? then resolve(item.linkHref.value) else "",
        thumbnail := if item.imageSrc.Some? then resolve(item.imageSrc.value) else "",
        views := if item.viewsText.Some? then Views.FloatConvertViews(item.viewsText.value) else 0,
        comments := comments.value,
        likes := likes.value,
        date := DateOf(item.date),
        author := OrEmpty(item.authorText),
        summary := CleanSummary(OrEmpty(item.summaryText))))
  }

  /** The records of a page's items, in item order, skipping the items that yield none. */
  function ExtractPage(page: int, items: seq<Item>, resolve: string -> string): (rs: seq<Record>)
    ensures |rs| <= |items|
    ensures forall r :: r in rs ==> r.page == page && r.id != []
  {
    if items == [] then []
    else
      var rest := ExtractPage(page, items[..|items| - 1], resolve);
      match ExtractItem(page, items[|items| - 1], resolve)
      case Some(r) => rest + [r]
      case None => rest
  }

  /** One more item adds its record, if it has one, after those of the items before it. */
  lemma ExtractPageSnoc(page: int, items: seq<Item>, i: int, resolve: string -> string)
    requires 0 <= i < |items|
    ensures ExtractPage(page, items[..i + 1], resolve)
      == ExtractPage(page, items[..i], resolve)
         + (match ExtractItem(page, items[i], resolve) case Some(r) => [r] case None => [])
  {
    assert items[..i + 1][..i] == items[..i];
  }

  /** The item loop of `scrape_page`: each item's record, if it has one, is appended to `page_data`. */
  method ExtractRecords(page: int, items: seq<Item>, resolve: string -> string) returns (pageData: seq<Record>)
    ensures pageData == ExtractPage(page, items, resolve)
  {
    pageData := [];
    var i := 0;
    while i < |items|
      invariant 0 <= i <= |items|
      invariant pageData == ExtractPage(page, items[..i], resolve)
    {
      ExtractPageSnoc(page, items, i, resolve);
      var r := ExtractItem(page, items[i], resolve);
      if r.Some? {
        pageData := pageData + [r.value];
      }
      i := i + 1;
    }
    assert items[..i] == items;
  }

  /** Extraction works item by item: the records of `a + b` are those of `a`, then those of `b`. */
  lemma {:induction false} ExtractPageAppend(page: int, a: seq<Item>, b: seq<Item>, resolve: string -> string)
    ensures ExtractPage(page, a + b, resolve) == ExtractPage(page, a, resolve) + ExtractPage(page, b, resolve)
    decreases |b|
  {
    if b == [] {
      assert a + b == a;
    } else {
      assert (a + b)[..|a + b| - 1] == a + b[..|b| - 1];
      assert (a + b)[|a + b| - 1] == b[|b| - 1];
      ExtractPageAppend(page, a, b[..|b| - 1], resolve);
    }
  }

  /** Every record of a page comes from one of its items. */
  lemma {:induction false} ExtractPageSource(page: int, items: seq<Item>, resolve: string -> string, r: Record)
    requires r in ExtractPage(page, items, resolve)
    ensures exists k :: 0 <= k < |items| && ExtractItem(page, items[k], resolve) == Some(r)
    decreases |items|
  {
    var init := items[..|items| - 1];
    var last := items[|items| - 1];
    if r in ExtractPage(page, init, resolve) {
      ExtractPageSource(page, init, resolve, r);
      var k :| 0 <= k < |init| && ExtractItem(page, init[k], resolve) == Some(r);
      assert items[k] == init[k];
    } else {
      assert ExtractItem(page, last, resolve) == Some(r);
    }
  }
}
