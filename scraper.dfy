/** The page-accumulation loop of `scrape_tenders` (main.py:10-72).

    The site is given as the sequence of its listing pages, each a sequence
    of already-parsed articles; asking for a page past the end yields a page
    with no articles, which is how the site signals that it has run out. */
module Scraper {
  import opened Wrappers
  import opened Text
  import ClosingDate

  /** What the HTML parser yields for one `<article>`: the heading text
      (`get_text(strip=True)` of the `h2`), the text node after the
      "Company:" and "Sector:" labels, each `None` when `find` finds
      nothing, and the article's whole text. */
  datatype Article = Article(heading: Option<string>, company: Option<string>, sector: Option<string>, text: string)

  /** One scraped record, with the keys of the dictionary at main.py:54-60. */
  datatype Tender = Tender(date: string, company: string, url: string, sector: string, project: string)

  /** The exceptions the loop can raise: the `ValueError` of main.py:24, the
      `AttributeError`s of calling a method on the `None` that `find`
      returns (main.py:27-41), and the `UnboundLocalError` of reading
      `closing_date` before any article had a closing date (main.py:55). */
  datatype ScrapeError = NoArticlesFound | MissingHeading | MissingCompany | MissingSector | ClosingDateUnbound

  type Site = seq<seq<Article>>

  /** The articles of page `k` (numbered from 1). */
  function FetchPage(site: Site, k: nat): seq<Article> {
    if 1 <= k <= |site| then site[k - 1] else []
  }

  /** `f"{base_url}/page/{page_num}/?s={search_query}"` (main.py:17) */
  function PageUrl(baseUrl: string, pageNum: nat, searchQuery: string): string {
    baseUrl + "/page/" + NatToString(pageNum) + "/?s=" + searchQuery
  }

  /** Different pages are fetched from different URLs. */
  lemma PageUrlInjective(baseUrl: string, searchQuery: string, j: nat, k: nat)
    requires PageUrl(baseUrl, j, searchQuery) == PageUrl(baseUrl, k, searchQuery)
    ensures j == k
  {
    var pre := baseUrl + "/page/";
    var post := "/?s=" + searchQuery;
    var u := PageUrl(baseUrl, j, searchQuery);
    assert u == pre + (NatToString(j) + post);
    assert u == pre + (NatToString(k) + post);
    assert NatToString(j) + post == u[|pre|..] == NatToString(k) + post;
    assert |NatToString(j)| == |NatToString(k)|;
    assert NatToString(j) == (NatToString(j) + post)[..|NatToString(j)|];
    assert NatToString(k) == (NatToString(k) + post)[..|NatToString(k)|];
    NatToStringInjective(j, k);
  }

  /** An article together with the number of the page it came from and
      its own closing date, `ArticleDate(article)`. */
  datatype Slot = Slot(page: nat, article: Article, own: Option<string>)

  function Tag(page: nat, articles: seq<Article>): (r: seq<Slot>)
    ensures |r| == |articles|
  {
    seq(|articles|, i requires 0 <= i < |articles| => Slot(page, articles[i], ArticleDate(articles[i])))
  }

  /** The articles of pages 1 to `k`, in page order and then in the order
      of each page. */
  function Slots(site: Site, k: nat): seq<Slot> {
    if k == 0 then [] else Slots(site, k - 1) + Tag(k, FetchPage(site, k))
  }

  /** The article's own cleaned closing date, when the pattern of
      main.py:43 occurs in its text. */
  function ArticleDate(a: Article): Option<string> {
    match ClosingDate.Search(a.text)
    case Some(m) => Some(ClosingDate.Clean(m.group.Text()))
    case None => None
  }

  /** The value of `closing_date` after the given articles: the date of the
      last of them that had one. */
  function LastDate(slots: seq<Slot>): Option<string> {
    if slots == [] then None
    else match slots[|slots| - 1].own
      case Some(d) => Some(d)
      case None => LastDate(slots[..|slots| - 1])
  }

  /** The record for one article (main.py:27-61), given its page's URL and
      the `closing_date` left by the earlier articles. */
  function Build(s: Slot, url: string, previous: Option<string>): Result<Tender, ScrapeError> {
    var a := s.article;
    if a.heading.None? then Failure(MissingHeading)
    else if a.company.None? then Failure(MissingCompany)
    else if a.sector.None? then Failure(MissingSector)
    else
      var date := if s.own.Some? then s.own else previous;
      if date.None? then Failure(ClosingDateUnbound)
      else Success(Tender(date.value, Strip(a.company.value), url, Strip(a.sector.value), a.heading.value))
  }

  /** The records for a run of articles, or the first error among them. */
  function BuildAll(slots: seq<Slot>, baseUrl: string, searchQuery: string): (r: Result<seq<Tender>, ScrapeError>)
    ensures r.Success? ==> |r.value| == |slots|
    decreases |slots|, 1
  {
    if slots == [] then Success([]) else BuildLast(slots, baseUrl, searchQuery)
  }

  /** A non-empty run: the run over all but the last article, then the
      record of the last one, built with the date the others left. */
  function BuildLast(slots: seq<Slot>, baseUrl: string, searchQuery: string): (r: Result<seq<Tender>, ScrapeError>)
    requires slots != []
    ensures r.Success? ==> |r.value| == |slots|
    decreases |slots|, 0
  {
    var init := slots[..|slots| - 1];
    var last := slots[|slots| - 1];
    match BuildAll(init, baseUrl, searchQuery)
    case Failure(e) => Failure(e)
    case Success(ts) =>
      match Build(last, PageUrl(baseUrl, last.page, searchQuery), LastDate(init))
      case Failure(e) => Failure(e)
      case Success(t) => Success(ts + [t])
  }

  /** A successful run over a non-empty sequence of articles is the run
      over all but the last, followed by the record of the last one. */
  lemma BuildAllLast(slots: seq<Slot>, baseUrl: string, searchQuery: string)
    requires slots != [] && BuildAll(slots, baseUrl, searchQuery).Success?
    ensures var init := slots[..|slots| - 1];
      var ts := BuildAll(slots, baseUrl, searchQuery).value;
      && BuildAll(init, baseUrl, searchQuery) == Success(ts[..|init|])
      && Build(slots[|init|], PageUrl(baseUrl, slots[|init|].page, searchQuery), LastDate(init)) == Success(ts[|init|])
  {
  }

  /** Record `i` is the record of article `i`, built with the date left by
      the articles before it. */
  lemma {:induction false} BuildAllAt(slots: seq<Slot>, baseUrl: string, searchQuery: string, i: nat)
    requires BuildAll(slots, baseUrl, searchQuery).Success? && i < |slots|
    ensures Build(slots[i], PageUrl(baseUrl, slots[i].page, searchQuery), LastDate(slots[..i]))
         == Success(BuildAll(slots, baseUrl, searchQuery).value[i])
    decreases |slots|
  {
    var init := slots[..|slots| - 1];
    BuildAllLast(slots, baseUrl, searchQuery);
    if i < |init| {
      BuildAllAt(init, baseUrl, searchQuery, i);
      assert init[..i] == slots[..i] && init[i] == slots[i];
    }
  }

  /** The number of the last page the loop fetches: the first page, from
      `k` on, that has no articles or brings the record count to `n`. */
  function StopPage(site: Site, n: int, k: nat): (s: nat)
    requires 1 <= k
    ensures k <= s
    ensures FetchPage(site, s) == [] || n <= |Slots(site, s)|
    decreases |site| + 1 - k
  {
    if FetchPage(site, k) == [] || n <= |Slots(site, k)| then k else StopPage(site, n, k + 1)
  }

  /** No page before the last one stops the loop: each has articles and
      leaves the count below the target. */
  lemma {:induction false} StopPageFirst(site: Site, n: int, k: nat, j: nat)
    requires 1 <= k <= j < StopPage(site, n, k)
    ensures FetchPage(site, j) != [] && |Slots(site, j)| < n
    decreases |site| + 1 - k
  {
    if k < j {
      StopPageFirst(site, n, k + 1, j);
    }
  }

  /** What `scrape_tenders(base_url, search_query, num_tenders)` returns or
      raises for the given site. */
  function Scrape(site: Site, baseUrl: string, searchQuery: string, numTenders: int): Result<seq<Tender>, ScrapeError> {
    if numTenders <= 0 then Success([])
    else
      var last := StopPage(site, numTenders, 1);
      var built := BuildAll(Slots(site, last), baseUrl, searchQuery);
      if built.Failure? then built
      else if FetchPage(site, last) == [] then Failure(NoArticlesFound)
      else built
  }

  /** The progress increments reported after pages 1 to `k` (main.py:66-69). */
  function PageSizes(site: Site, k: nat): seq<int> {
    if k == 0 then [] else PageSizes(site, k - 1) + [|FetchPage(site, k)|]
  }

  function Sum(s: seq<int>): int {
    if s == [] then 0 else Sum(s[..|s| - 1]) + s[|s| - 1]
  }

  /** The progress updates after page `k` add up to the number of
      articles of pages 1 to `k`. */
  lemma {:induction false} SumPageSizes(site: Site, k: nat)
    ensures Sum(PageSizes(site, k)) == |Slots(site, k)|
  {
    if k > 0 {
      SumPageSizes(site, k - 1);
      var before := PageSizes(site, k - 1);
      assert (before + [|FetchPage(site, k)|])[..|before|] == before;
    }
  }

  /** The articles of the first `j` pages come first among those of the
      first `k` pages. */
  lemma {:induction false} SlotsPrefix(site: Site, j: nat, k: nat)
    requires j <= k
    ensures |Slots(site, j)| <= |Slots(site, k)| && Slots(site, k)[..|Slots(site, j)|] == Slots(site, j)
    decreases k
  {
    if j < k {
      SlotsPrefix(site, j, k - 1);
      assert Slots(site, k)[..|Slots(site, k - 1)|] == Slots(site, k - 1);
    }
  }

  /** Article `j` of page `p` sits right after the articles of the pages
      before `p`. */
  lemma SlotsAt(site: Site, k: nat, p: nat, j: nat)
    requires 1 <= p <= k && j < |FetchPage(site, p)|
    ensures |Slots(site, p - 1)| + j < |Slots(site, k)|
    ensures Slots(site, k)[|Slots(site, p - 1)| + j].page == p
    ensures Slots(site, k)[|Slots(site, p - 1)| + j].article == FetchPage(site, p)[j]
  {
    SlotsPrefix(site, p, k);
    var s := Slots(site, p);
    assert s == Slots(site, p - 1) + Tag(p, FetchPage(site, p));
    assert s[|Slots(site, p - 1)| + j] == Tag(p, FetchPage(site, p))[j];
    assert Slots(site, k)[|Slots(site, p - 1)| + j] == Slots(site, k)[..|s|][|Slots(site, p - 1)| + j];
  }

  /** An error among the first `m` articles is the error of the whole run. */
  lemma {:induction false} BuildAllPrefix(slots: seq<Slot>, m: nat, baseUrl: string, searchQuery: string)
    requires m <= |slots| && BuildAll(slots[..m], baseUrl, searchQuery).Failure?
    ensures BuildAll(slots, baseUrl, searchQuery) == BuildAll(slots[..m], baseUrl, searchQuery)
    decreases |slots|
  {
    if m < |slots| {
      var init := slots[..|slots| - 1];
      assert init[..m] == slots[..m];
      BuildAllPrefix(init, m, baseUrl, searchQuery);
    } else {
      assert slots[..m] == slots;
    }
  }

  /** A failure while building the records of the pages up to `p`, reached
      while `p` is still on the way to the last page, is what the whole call
      raises. */
  lemma PageFailure(site: Site, baseUrl: string, searchQuery: string, n: int, p: nat, e: ScrapeError)
    requires 0 < n && 1 <= p && StopPage(site, n, 1) == StopPage(site, n, p)
    requires BuildAll(Slots(site, p), baseUrl, searchQuery) == Failure(e)
    ensures Scrape(site, baseUrl, searchQuery, n) == Failure(e)
  {
    var last := StopPage(site, n, 1);
    SlotsPrefix(site, p, last);
    BuildAllPrefix(Slots(site, last), |Slots(site, p)|, baseUrl, searchQuery);
  }

  lemma TagSnoc(done: seq<Slot>, page: nat, articles: seq<Article>, i: nat)
    requires i < |articles|
    ensures done + Tag(page, articles[..i + 1]) == (done + Tag(page, articles[..i])) + [Slot(page, articles[i], ArticleDate(articles[i]))]
  {
    assert Tag(page, articles[..i + 1]) == Tag(page, articles[..i]) + [Slot(page, articles[i], ArticleDate(articles[i]))];
  }

  /** One more article: its record is appended, or its error is the run's. */
  lemma BuildAllSnoc(before: seq<Slot>, s: Slot, baseUrl: string, searchQuery: string)
    requires BuildAll(before, baseUrl, searchQuery).Success?
    ensures BuildAll(before + [s], baseUrl, searchQuery) ==
      match Build(s, PageUrl(baseUrl, s.page, searchQuery), LastDate(before))
      case Failure(e) => Failure(e)
      case Success(t) => Success(BuildAll(before, baseUrl, searchQuery).value + [t])
    ensures LastDate(before + [s]) == if s.own.Some? then s.own else LastDate(before)
  {
    assert (before + [s])[..|before|] == before;
  }

  /** A page without articles, reached on the way to the target, ends the
      call with the `ValueError` of main.py:24. */
  lemma EmptyPageFailure(site: Site, baseUrl: string, searchQuery: string, n: int, p: nat)
    requires 0 < n && 1 <= p && StopPage(site, n, 1) == StopPage(site, n, p) && FetchPage(site, p) == []
    requires BuildAll(Slots(site, p - 1), baseUrl, searchQuery).Success?
    ensures Scrape(site, baseUrl, searchQuery, n) == Failure(NoArticlesFound)
  {
    assert Slots(site, p) == Slots(site, p - 1) + Tag(p, []) == Slots(site, p - 1);
  }

  /** After a complete page `p` the loop either goes on to page `p + 1` or
      stops with `p` as the last page; the records so far are those of
      pages 1 to `p`, and the page's size is the next progress update. */
  lemma NextPage(site: Site, baseUrl: string, searchQuery: string, n: int, p: nat, ts: seq<Tender>)
    requires 1 <= p && StopPage(site, n, 1) == StopPage(site, n, p) && FetchPage(site, p) != []
    requires BuildAll(Slots(site, p), baseUrl, searchQuery) == Success(ts)
    ensures p <= |site|
    ensures |ts| == |Slots(site, p)| == |Slots(site, p - 1)| + |FetchPage(site, p)|
    ensures PageSizes(site, p) == PageSizes(site, p - 1) + [|FetchPage(site, p)|]
    ensures |ts| < n ==> StopPage(site, n, 1) == StopPage(site, n, p + 1)
    ensures n <= |ts| ==> StopPage(site, n, 1) == p
  {
  }

  /** An error on article `i` of a page is the error of the whole page. */
  lemma PagePrefixFailure(done: seq<Slot>, page: nat, articles: seq<Article>, i: nat, baseUrl: string, searchQuery: string)
    requires i < |articles|
    requires BuildAll(done + Tag(page, articles[..i + 1]), baseUrl, searchQuery).Failure?
    ensures BuildAll(done + Tag(page, articles), baseUrl, searchQuery)
         == BuildAll(done + Tag(page, articles[..i + 1]), baseUrl, searchQuery)
  {
    var all := done + Tag(page, articles);
    assert all[..|done| + i + 1] == done + Tag(page, articles[..i + 1]);
    BuildAllPrefix(all, |done| + i + 1, baseUrl, searchQuery);
  }

  /** The body of the `for` loop of main.py:26-61 over the articles of one
      page: `tenders` and `closingDate` are the values before the page, and
      `done` the articles they came from. */
  method ScrapePage(
    articles: seq<Article>, pageNum: nat, url: string, tenders: seq<Tender>, closingDate: Option<string>,
    ghost done: seq<Slot>, ghost baseUrl: string, ghost searchQuery: string)
    returns (outcome: Result<seq<Tender>, ScrapeError>, date: Option<string>)
    requires url == PageUrl(baseUrl, pageNum, searchQuery)
    requires BuildAll(done, baseUrl, searchQuery) == Success(tenders) && closingDate == LastDate(done)
    ensures outcome == BuildAll(done + Tag(pageNum, articles), baseUrl, searchQuery)
    ensures outcome.Success? ==> date == LastDate(done + Tag(pageNum, articles))
  {
    var acc := tenders;
    date := closingDate;
    assert done + Tag(pageNum, articles[..0]) == done;
    for i := 0 to |articles|
      invariant BuildAll(done + Tag(pageNum, articles[..i]), baseUrl, searchQuery) == Success(acc)
      invariant date == LastDate(done + Tag(pageNum, articles[..i]))
    {
      var article := articles[i];
      ghost var before := done + Tag(pageNum, articles[..i]);
      TagSnoc(done, pageNum, articles, i);
      ghost var slot := Slot(pageNum, article, ArticleDate(article));
      BuildAllSnoc(before, slot, baseUrl, searchQuery);
      if article.heading.None? {
        PagePrefixFailure(done, pageNum, articles, i, baseUrl, searchQuery);
        return Failure(MissingHeading), date;
      }
      var project := article.heading.value;
      if article.company.None? {
        PagePrefixFailure(done, pageNum, articles, i, baseUrl, searchQuery);
        return Failure(MissingCompany), date;
      }
      var company := Strip(article.company.value);
      if article.sector.None? {
        PagePrefixFailure(done, pageNum, articles, i, baseUrl, searchQuery);
        return Failure(MissingSector), date;
      }
      var sector := Strip(article.sector.value);
      var found := ClosingDate.Search(article.text);
      if found.Some? {
        date := Some(ClosingDate.Clean(found.value.group.Text()));
      }
      if date.None? {
        PagePrefixFailure(done, pageNum, articles, i, baseUrl, searchQuery);
        return Failure(ClosingDateUnbound), date;
      }
      assert ArticleDate(article) == if found.Some? then Some(ClosingDate.Clean(found.value.group.Text())) else None;
      assert Build(slot, url, LastDate(before)) == Success(Tender(date.value, company, url, sector, project));
      acc := acc + [Tender(date.value, company, url, sector, project)];
      assert BuildAll(before + [slot], baseUrl, searchQuery) == Success(acc);
      assert LastDate(before + [slot]) == date;
    }
    assert articles[..|articles|] == articles;
    outcome := Success(acc);
  }

  /** The state of the loop of main.py:16-69 before it fetches page `p`:
      the records and `closing_date` are those left by the articles of
      pages 1 to `p - 1`, each of these pages had articles, the progress
      updates so far are their sizes, and the last page the loop will fetch
      is still ahead unless the target is already met. */
  ghost predicate AfterPages(
    site: Site, baseUrl: string, searchQuery: string, n: int,
    p: nat, tenders: seq<Tender>, closingDate: Option<string>, updates: seq<int>)
  {
    && 1 <= p <= |site| + 1
    && (n <= 0 ==> p == 1)
    && BuildAll(Slots(site, p - 1), baseUrl, searchQuery) == Success(tenders)
    && closingDate == LastDate(Slots(site, p - 1))
    && (1 < p ==> FetchPage(site, p - 1) != [])
    && (|tenders| < n ==> StopPage(site, n, 1) == StopPage(site, n, p))
    && (0 < n <= |tenders| ==> StopPage(site, n, 1) == p - 1)
    && updates == PageSizes(site, p - 1)
  }

  /** The loop starts before page 1 with nothing scraped. */
  lemma AfterNoPages(site: Site, baseUrl: string, searchQuery: string, n: int)
    ensures AfterPages(site, baseUrl, searchQuery, n, 1, [], None, [])
  {
  }

  /** A page of articles whose records all succeed moves the loop on to the
      next page, with the page's size as the next progress update. */
  lemma AfterNextPage(
    site: Site, baseUrl: string, searchQuery: string, n: int,
    p: nat, tenders: seq<Tender>, closingDate: Option<string>, updates: seq<int>,
    ts: seq<Tender>, date: Option<string>)
    requires AfterPages(site, baseUrl, searchQuery, n, p, tenders, closingDate, updates) && |tenders| < n
    requires FetchPage(site, p) != []
    requires BuildAll(Slots(site, p - 1) + Tag(p, FetchPage(site, p)), baseUrl, searchQuery) == Success(ts)
    requires date == LastDate(Slots(site, p - 1) + Tag(p, FetchPage(site, p)))
    ensures AfterPages(site, baseUrl, searchQuery, n, p + 1, ts, date, updates + [|ts| - |tenders|])
  {
    NextPage(site, baseUrl, searchQuery, n, p, ts);
    assert |ts| - |tenders| == |FetchPage(site, p)|;
  }

  /** A page without articles ends the call with the `ValueError` of
      main.py:24. */
  lemma AfterEmptyPage(
    site: Site, baseUrl: string, searchQuery: string, n: int,
    p: nat, tenders: seq<Tender>, closingDate: Option<string>, updates: seq<int>)
    requires AfterPages(site, baseUrl, searchQuery, n, p, tenders, closingDate, updates) && |tenders| < n
    requires FetchPage(site, p) == []
    ensures Scrape(site, baseUrl, searchQuery, n) == Failure(NoArticlesFound)
  {
    EmptyPageFailure(site, baseUrl, searchQuery, n, p);
  }

  /** An error on page `p` is what the whole call raises. */
  lemma AfterFailedPage(
    site: Site, baseUrl: string, searchQuery: string, n: int,
    p: nat, tenders: seq<Tender>, closingDate: Option<string>, updates: seq<int>, e: ScrapeError)
    requires AfterPages(site, baseUrl, searchQuery, n, p, tenders, closingDate, updates) && |tenders| < n
    requires BuildAll(Slots(site, p - 1) + Tag(p, FetchPage(site, p)), baseUrl, searchQuery) == Failure(e)
    ensures Scrape(site, baseUrl, searchQuery, n) == Failure(e)
  {
    PageFailure(site, baseUrl, searchQuery, n, p, e);
  }

  /** Once the target is met, the records are the result of the call and
      the progress updates add up to their number. */
  lemma AfterLastPage(
    site: Site, baseUrl: string, searchQuery: string, n: int,
    p: nat, tenders: seq<Tender>, closingDate: Option<string>, updates: seq<int>)
    requires AfterPages(site, baseUrl, searchQuery, n, p, tenders, closingDate, updates) && n <= |tenders|
    ensures Scrape(site, baseUrl, searchQuery, n) == Success(tenders)
    ensures Sum(updates) == |tenders|
    ensures 0 < n ==> updates == PageSizes(site, StopPage(site, n, 1))
  {
    if 0 < n {
      var last := StopPage(site, n, 1);
      assert last == p - 1 && FetchPage(site, last) != [];
      assert BuildAll(Slots(site, last), baseUrl, searchQuery) == Success(tenders);
    }
    SumPageSizes(site, p - 1);
  }

  /** The loop of main.py:16-69: pages are fetched from `page_num = 1` on
      until the record count reaches `num_tenders`; each article of each
      page becomes one record. */
  method ScrapeTenders(site: Site, baseUrl: string, searchQuery: string, numTenders: int)
    returns (outcome: Result<seq<Tender>, ScrapeError>, updates: seq<int>)
    ensures outcome == Scrape(site, baseUrl, searchQuery, numTenders)
    ensures outcome.Success? ==> Sum(updates) == |outcome.value|
    ensures outcome.Success? && 0 < numTenders ==> updates == PageSizes(site, StopPage(site, numTenders, 1))
    ensures numTenders <= 0 ==> updates == []
  {
    var tenders: seq<Tender> := [];
    var pageNum: nat := 1;
    var prevLen := 0;
    // Python's `closing_date` starts unbound; `None` stands for that.
    var closingDate: Option<string> := None;
    updates := [];
    AfterNoPages(site, baseUrl, searchQuery, numTenders);
    while |tenders| < numTenders
      invariant AfterPages(site, baseUrl, searchQuery, numTenders, pageNum, tenders, closingDate, updates)
      invariant prevLen == |tenders|
      decreases |site| + 1 - pageNum
    {
      var url := PageUrl(baseUrl, pageNum, searchQuery);
      var articles := FetchPage(site, pageNum);
      if articles == [] {
        AfterEmptyPage(site, baseUrl, searchQuery, numTenders, pageNum, tenders, closingDate, updates);
        return Failure(NoArticlesFound), updates;
      }
      var page, date := ScrapePage(articles, pageNum, url, tenders, closingDate, Slots(site, pageNum - 1), baseUrl, searchQuery);
      if page.Failure? {
        AfterFailedPage(site, baseUrl, searchQuery, numTenders, pageNum, tenders, closingDate, updates, page.error);
        return Failure(page.error), updates;
      }
      AfterNextPage(site, baseUrl, searchQuery, numTenders, pageNum, tenders, closingDate, updates, page.value, date);
      tenders := page.value;
      closingDate := date;
      pageNum := pageNum + 1;
      var currentLen := |tenders|;
      var updateLen := currentLen - prevLen;
      updates := updates + [updateLen];
      prevLen := currentLen;
    }
    AfterLastPage(site, baseUrl, searchQuery, numTenders, pageNum, tenders, closingDate, updates);
    outcome := Success(tenders);
  }

  // ----- what a call of scrape_tenders promises -----

  /** With `num_tenders <= 0` nothing is fetched and the result is empty.
      Otherwise a successful call returns every article of pages 1 to the
      last page fetched, so at least `num_tenders` records and fewer than
      `num_tenders` plus the size of that last page. */
  lemma ScrapeCount(site: Site, baseUrl: string, searchQuery: string, n: int)
    ensures n <= 0 ==> Scrape(site, baseUrl, searchQuery, n) == Success([])
    ensures 0 < n && Scrape(site, baseUrl, searchQuery, n).Success? ==>
      var last := StopPage(site, n, 1);
      var ts := Scrape(site, baseUrl, searchQuery, n).value;
      |ts| == |Slots(site, last)| && n <= |ts| < n + |FetchPage(site, last)|
  {
    if 0 < n && Scrape(site, baseUrl, searchQuery, n).Success? {
      var last := StopPage(site, n, 1);
      if 1 < last {
        StopPageFirst(site, n, 1, last - 1);
      }
    }
  }

  /** Article `j` of page `p`, for every page up to `k`, is record number
      `|Slots(site, p - 1)| + j` of a successful run over pages 1 to `k`:
      records follow page order and then article order. The record holds
      the article's heading, its stripped company and sector, and the URL
      of page `p`. With `ScrapeSuccess` this describes every record a
      successful call returns. */
  lemma PagesRecord(site: Site, baseUrl: string, searchQuery: string, k: nat, p: nat, j: nat)
    requires BuildAll(Slots(site, k), baseUrl, searchQuery).Success?
    requires 1 <= p <= k && j < |FetchPage(site, p)|
    ensures var ts := BuildAll(Slots(site, k), baseUrl, searchQuery).value;
      var a := FetchPage(site, p)[j];
      var i := |Slots(site, p - 1)| + j;
      && i < |ts|
      && a.heading.Some? && a.company.Some? && a.sector.Some?
      && ts[i].project == a.heading.value
      && ts[i].company == Strip(a.company.value)
      && ts[i].sector == Strip(a.sector.value)
      && ts[i].url == PageUrl(baseUrl, p, searchQuery)
  {
    SlotsAt(site, k, p, j);
    BuildAllRecord(Slots(site, k), baseUrl, searchQuery, |Slots(site, p - 1)| + j);
  }

  /** A successful call returns the records of the articles of pages 1 to
      the last page fetched, and that page has articles. */
  lemma ScrapeSuccess(site: Site, baseUrl: string, searchQuery: string, n: int)
    requires 0 < n && Scrape(site, baseUrl, searchQuery, n).Success?
    ensures FetchPage(site, StopPage(site, n, 1)) != []
    ensures BuildAll(Slots(site, StopPage(site, n, 1)), baseUrl, searchQuery).Success?
    ensures Scrape(site, baseUrl, searchQuery, n).value == BuildAll(Slots(site, StopPage(site, n, 1)), baseUrl, searchQuery).value
  {
  }

  /** Record `i` of a successful run holds article `i`'s heading, its
      stripped company and sector, and the URL of its page. */
  lemma BuildAllRecord(slots: seq<Slot>, baseUrl: string, searchQuery: string, i: nat)
    requires BuildAll(slots, baseUrl, searchQuery).Success? && i < |slots|
    ensures var t := BuildAll(slots, baseUrl, searchQuery).value[i];
      var a := slots[i].article;
      && a.heading.Some? && a.company.Some? && a.sector.Some?
      && t.project == a.heading.value
      && t.company == Strip(a.company.value)
      && t.sector == Strip(a.sector.value)
      && t.url == PageUrl(baseUrl, slots[i].page, searchQuery)
  {
    BuildAllAt(slots, baseUrl, searchQuery, i);
    BuildSuccess(slots[i], PageUrl(baseUrl, slots[i].page, searchQuery), LastDate(slots[..i]), BuildAll(slots, baseUrl, searchQuery).value[i]);
  }

  /** In a successful run over pages 1 to `k`, a record's date is its own
      article's cleaned closing date when the article has one; otherwise it
      is the date of the record just before it, on the same page or on an
      earlier one. */
  lemma PagesDateCarriesForward(site: Site, baseUrl: string, searchQuery: string, k: nat, i: nat)
    requires BuildAll(Slots(site, k), baseUrl, searchQuery).Success? && i < |Slots(site, k)|
    ensures var ts := BuildAll(Slots(site, k), baseUrl, searchQuery).value;
      var a := Slots(site, k)[i].article;
      && (ArticleDate(a).Some? ==> ts[i].date == ArticleDate(a).value)
      && (ArticleDate(a).None? ==> 0 < i && ts[i].date == ts[i - 1].date)
  {
    var slots := Slots(site, k);
    var ts := BuildAll(slots, baseUrl, searchQuery).value;
    SlotsOwn(site, k, i);
    BuildAllAt(slots, baseUrl, searchQuery, i);
    var s := slots[i];
    BuildSuccess(s, PageUrl(baseUrl, s.page, searchQuery), LastDate(slots[..i]), ts[i]);
    if s.own.None? && 0 < i {
      var r := slots[i - 1];
      BuildAllAt(slots, baseUrl, searchQuery, i - 1);
      BuildSuccess(r, PageUrl(baseUrl, r.page, searchQuery), LastDate(slots[..i - 1]), ts[i - 1]);
      assert slots[..i][..i - 1] == slots[..i - 1];
    }
  }

  /** A successful record holds the article's heading, its stripped
      company and sector and the page's URL; its date is the article's own
      date when it has one, else the date it was given. */
  lemma BuildSuccess(s: Slot, url: string, previous: Option<string>, t: Tender)
    requires Build(s, url, previous) == Success(t)
    ensures s.article.heading.Some? && s.article.company.Some? && s.article.sector.Some?
    ensures t.project == s.article.heading.value && t.url == url
    ensures t.company == Strip(s.article.company.value) && t.sector == Strip(s.article.sector.value)
    ensures s.own.Some? ==> t.date == s.own.value
    ensures s.own.None? ==> previous.Some? && t.date == previous.value
  {
  }

  /** Every slot carries its own article's closing date. */
  lemma {:induction false} SlotsOwn(site: Site, k: nat, i: nat)
    requires i < |Slots(site, k)|
    ensures Slots(site, k)[i].own == ArticleDate(Slots(site, k)[i].article)
  {
    var before := Slots(site, k - 1);
    if i < |before| {
      SlotsOwn(site, k - 1, i);
      assert Slots(site, k)[i] == before[i];
    } else {
      assert Slots(site, k)[i] == Tag(k, FetchPage(site, k))[i - |before|];
    }
  }

  /** When the first article has no closing date, reading `closing_date`
      fails: the call raises instead of returning records. */
  lemma UndatedFirstArticleFails(site: Site, baseUrl: string, searchQuery: string, n: int)
    requires 0 < n && FetchPage(site, 1) != []
    requires var a := FetchPage(site, 1)[0];
      a.heading.Some? && a.company.Some? && a.sector.Some? && ArticleDate(a).None?
    ensures Scrape(site, baseUrl, searchQuery, n) == Failure(ClosingDateUnbound)
  {
    UndatedFirstArticleStops(site, baseUrl, searchQuery, StopPage(site, n, 1));
  }

  /** The run over any pages that include the first one stops at its first
      article when that article has no closing date. */
  lemma UndatedFirstArticleStops(site: Site, baseUrl: string, searchQuery: string, k: nat)
    requires 1 <= k && FetchPage(site, 1) != []
    requires var a := FetchPage(site, 1)[0];
      a.heading.Some? && a.company.Some? && a.sector.Some? && ArticleDate(a).None?
    ensures BuildAll(Slots(site, k), baseUrl, searchQuery) == Failure(ClosingDateUnbound)
  {
    var slots := Slots(site, k);
    SlotsAt(site, k, 1, 0);
    SlotsOwn(site, k, 0);
    var a := FetchPage(site, 1)[0];
    var first := Slot(1, a, ArticleDate(a));
    assert slots[..1] == [first];
    assert [first][..0] == [];
    assert Build(first, PageUrl(baseUrl, 1, searchQuery), LastDate([])) == Failure(ClosingDateUnbound);
    assert BuildLast([first], baseUrl, searchQuery) == Failure(ClosingDateUnbound);
    BuildAllPrefix(slots, 1, baseUrl, searchQuery);
  }

  /** A site with fewer than `num_tenders` articles in all makes the call
      raise, however many records the earlier pages produced: the loop
      runs into an empty page before it reaches the target. */
  lemma ShortSiteFails(site: Site, baseUrl: string, searchQuery: string, n: int)
    requires 0 < n && |Slots(site, |site|)| < n
    ensures Scrape(site, baseUrl, searchQuery, n).Failure?
  {
    var last := StopPage(site, n, 1);
    if FetchPage(site, last) != [] {
      SlotsPrefix(site, last, |site|);
      assert false;
    }
  }
}
