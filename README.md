# Tender scraper — a Dafny model

This project models the core of a small tender scraper (`main.py`). The
scraper has two parts:

- **`scrape_tenders`** reads the paginated search results of a tender
  listing site. It fetches `/page/1/?s=<query>`, `/page/2/?s=<query>`, and
  so on, until it holds at least `num_tenders` records. Each `<article>` on
  a page becomes one record with the keys Date, Company, URL, Sector and
  Project. The closing date is found with a regular expression in the
  article's text. Its whitespace is then cleaned: no-break spaces become
  spaces, each whitespace run becomes one space, and the ends are stripped.
  An article without a closing date of its own reuses the date of the
  article before it. The call raises in three cases:
  - a page with no articles;
  - an article without a heading, a "Company:" label or a "Sector:" label;
  - an article without a date when no earlier article had one.
- **`post_processing`** normalises the saved table. Sector is title-cased,
  and the exact value "Public" becomes "Govt". Date is rebuilt from the
  day, month and year extracted by three regular expressions.

The model has five modules:

- `Wrappers`: `Option` and `Result`.
- `Text`: Python's character classes, `str.strip()`, and the decimal
  rendering of the page number.
- `ClosingDate`: the closing-date pattern as a leftmost-search matcher, and
  the whitespace cleanup.
- `Scraper`: the pagination loop. The site is a sequence of pages of parsed
  articles; a page past the end has no articles. `Scrape` is a declarative
  definition of what a call returns or raises. `ScrapeTenders` is the
  imperative loop, with its per-page inner loop `ScrapePage`, and it is
  proved equal to `Scrape`. Lemmas state what a call promises.
- `PostProcessing`: `str.title()`, sector canonicalisation, the
  day/month/year extraction and the rebuilt date string.

`Series.replace` with a plain string replaces whole cell values only, so
"public works" becomes "Public Works" (`PostProcessing.SectorExamples`).

## Model

| member | source | states |
|---|---|---|
| Scraper.ScrapeTenders | main.py:10-72 | The loop returns or raises exactly what `Scrape` defines for the site; on success the progress updates add up to the number of records and are the sizes of the pages fetched; with `num_tenders <= 0` no page is fetched and no update is reported |
| Scraper.ScrapePage | main.py:26-61 | The per-page loop over articles appends one record per article, or stops with the first article's error, and leaves `closing_date` as the last date seen |
| Scraper.AfterNoPages | main.py:11-14 | The loop state before page 1: no records, `closing_date` unbound, no progress updates |
| Scraper.AfterNextPage | main.py:26-69 | A page whose records all succeed moves the loop to the next page, and the progress update is that page's size |
| Scraper.AfterEmptyPage | main.py:21-24 | A page with no articles, reached before the target, makes the call raise `ValueError("No articles found")` |
| Scraper.AfterFailedPage | main.py:26-55 | An error on an article of the current page is what the whole call raises |
| Scraper.AfterLastPage | main.py:16-72 | Once the target is met the accumulated records are the call's result, and the progress updates sum to their number |
| Scraper.PageUrlInjective | main.py:17 | Different page numbers give different URLs |
| Scraper.StopPage | main.py:16-24 | The last page fetched is at or after the first page, and it is either empty or brings the count to the target |
| Scraper.StopPageFirst | main.py:16-24 | Every page before the last one fetched has articles and leaves the count below the target |
| Scraper.BuildAll | main.py:26-61 | A successful run yields exactly one record per article |
| Scraper.BuildAllAt | main.py:26-61 | Record `i` is built from article `i` with the closing date left by the articles before it |
| Scraper.BuildAllPrefix | main.py:26-41 | An error among the first articles is the error of the whole run; nothing after it is processed |
| Scraper.BuildAllSnoc | main.py:53-61 | One more article either appends its record or ends the run with its error, and updates `closing_date` only when it has its own date |
| Scraper.SumPageSizes | main.py:66-69 | The progress updates after page `k` add up to the number of articles on pages 1 to `k` |
| Scraper.PageFailure | main.py:26-41 | An error on a page on the way to the last page is what the whole call raises |
| Scraper.EmptyPageFailure | main.py:21-24 | An empty page on the way to the target raises, even after earlier pages produced records |
| Scraper.NextPage | main.py:16-69 | After a full page the loop either continues with the next page or stops with this one as the last; the page's size is the next progress update |
| Scraper.ScrapeCount | main.py:16-72 | With `num_tenders <= 0` the result is empty; otherwise a successful result holds every article of the pages fetched: at least `num_tenders` records, and fewer than `num_tenders` plus the size of the last page |
| Scraper.ScrapeSuccess | main.py:16-72 | A successful call returns the records of the articles of pages 1 to the last page fetched, and that page has articles |
| Scraper.PagesRecord | main.py:53-61 | Article `j` of page `p` is the record right after the records of the earlier pages; it holds the heading, the stripped company and sector, and the URL of page `p` |
| Scraper.BuildAllRecord | main.py:27-61 | Each record of a successful run holds its article's heading, stripped company and sector, and its page's URL; every article had a heading, company and sector |
| Scraper.BuildSuccess | main.py:27-61 | A built record's date is the article's own date when it has one, else the date carried in from earlier articles |
| Scraper.PagesDateCarriesForward | main.py:43-55 | A record's date is its article's cleaned closing date, or else the previous record's date; an undated article is never the first record |
| Scraper.SlotsOwn | main.py:43-51 | Each article carries its own cleaned closing date, if any |
| Scraper.UndatedFirstArticleFails | main.py:47-55 | When the first article has no closing date, the call raises instead of returning records |
| Scraper.UndatedFirstArticleStops | main.py:47-55 | Any run that includes the first page stops at an undated first article |
| Scraper.ShortSiteFails | main.py:16-24 | A site with fewer than `num_tenders` articles in all makes the call raise |
| ClosingDate.TailAtSound | main.py:43 | What the tail matcher returns is a well-formed `\s+[A-Za-z,?]+\s+\d{4}` that occurs at that position |
| ClosingDate.GroupAtSound | main.py:43 | What the group matcher returns is a well-formed group 1 that occurs at that position |
| ClosingDate.MatchAtSound | main.py:43 | What the anchored matcher returns is a well-formed match: the label, whitespace, then the group |
| ClosingDate.TailAtComplete | main.py:43 | Wherever a well-formed tail occurs, the tail matcher finds exactly it |
| ClosingDate.GroupAtComplete | main.py:43 | Wherever a well-formed group occurs, the group matcher finds exactly it, so backtracking cannot change group 1 |
| ClosingDate.MatchAtComplete | main.py:43 | Wherever the label is followed by a well-formed match, the anchored matcher finds exactly that match |
| ClosingDate.FirstMatchFrom | main.py:45 | The position found lies in the searched range |
| ClosingDate.FirstMatchFromLeftmost | main.py:45 | The position found has a match, and no earlier position matches |
| ClosingDate.SearchLeftmost | main.py:43-45 | The search finds nothing exactly when no position matches; otherwise it yields the match at the leftmost matching position |
| ClosingDate.CollapseSpaces | main.py:49-50 | Collapsing whitespace runs gives an empty result only for an empty input |
| ClosingDate.CollapseShape | main.py:49-50 | After collapsing, whitespace occurs only as single ordinary spaces, and each end is whitespace exactly when it was before |
| ClosingDate.CollapseKeepsNonSpaces | main.py:49-50 | Collapsing keeps every non-whitespace character, in order |
| ClosingDate.NonSpacesReplace | main.py:50 | Replacing no-break spaces changes no non-whitespace character |
| ClosingDate.CleanIsClean | main.py:49-51 | The cleaned date has no no-break space, no whitespace at either end and no two whitespace characters in a row |
| ClosingDate.CleanKeepsNonSpaces | main.py:49-51 | The cleanup removes whitespace only: the other characters survive, in order |
| ClosingDate.CleanKeepsClean | main.py:49-51 | An already clean string is left unchanged |
| ClosingDate.CleanIdempotent | main.py:49-51 | Cleaning twice is the same as cleaning once |
| ClosingDate.ReplaceGroup | main.py:50 | In a matched group only the two whitespace gaps can hold no-break spaces |
| ClosingDate.CleanGroupText | main.py:48-51 | A matched group always cleans to "<day><suffix> <word> <year>" with single ordinary spaces |
| Text.StripIsSlice | main.py:31-41 | `strip()` keeps a contiguous slice and removes only whitespace on either side of it |
| Text.StripEnds | main.py:31-41 | What `strip()` keeps neither starts nor ends with whitespace |
| Text.StripKeepsStripped | main.py:31-41 | A string without whitespace at its ends is its own strip |
| Text.StripIdempotent | main.py:31-41 | Stripping twice is stripping once |
| Text.NatToString | main.py:17 | The page number renders as at least one digit, and as exactly one digit for numbers below ten |
| Text.NatToStringDigits | main.py:17 | The page number renders as digits only |
| Text.ParseNatToString | main.py:17 | The rendered page number reads back as the same number |
| Text.NatToStringInjective | main.py:17 | Distinct page numbers render differently |
| PostProcessing.TitleFrom | main.py:77 | Title-casing keeps the length |
| PostProcessing.TitleAt | main.py:77 | Each character of the title-cased string is lower case right after a letter and upper case elsewhere |
| PostProcessing.TitleKeepsKinds | main.py:77 | Title-casing only changes case: letters stay letters, other characters are kept |
| PostProcessing.TitleIsTitled | main.py:77 | The result of `title()` is titled, and a string is its own title exactly when it is titled |
| PostProcessing.TitleIdempotent | main.py:77 | Title-casing twice is title-casing once |
| PostProcessing.CanonicalSector | main.py:77 | The sector is the title-cased value, or "Govt" when that value is "Public"; it is never "Public" |
| PostProcessing.SectorGovtIff | main.py:77 | The sector is "Govt" exactly when the title-cased value is "Public" or "Govt"; any other value is kept |
| PostProcessing.SectorIdempotent | main.py:77 | Canonical sectors are titled, and canonicalising again changes nothing |
| PostProcessing.SectorExamples | main.py:77 | "public" and "PUBLIC" become "Govt", "public works" becomes "Public Works", "private" becomes "Private" |
| PostProcessing.FirstIn | main.py:78 | The first position of a class: no earlier character is in the class |
| PostProcessing.DayOf | main.py:78 | A day is found exactly when the date has a digit; it is the leftmost digit plus the next one if that is a digit too |
| PostProcessing.MonthAtSound | main.py:79 | What the anchored month matcher returns is a well-formed match that occurs there |
| PostProcessing.MonthAtComplete | main.py:79 | Wherever a well-formed month match occurs, the matcher finds its word, month and comma |
| PostProcessing.FirstMonthFrom | main.py:79 | The position found has a month match, and no earlier one does |
| PostProcessing.MonthOf | main.py:79 | The extracted month is a non-empty run of letters |
| PostProcessing.MonthOfLeftmost | main.py:79 | The extracted month is that of the leftmost month match |
| PostProcessing.YearOf | main.py:80 | The extracted year is four digits ending the date, or just before its final newline |
| PostProcessing.YearOfIff | main.py:80 | A year is extracted exactly when the date ends with four digits, optionally followed by a final newline |
| PostProcessing.DateParts | main.py:81-83 | The concatenation exists exactly when day, month and year all exist, and is day + month + year |
| PostProcessing.PostProcess | main.py:75-86 | One row per record: the rebuilt date parts, the canonical sector, and the other columns unchanged |
| PostProcessing.PartsOfCleanedDate | main.py:78-83 | A scraped date whose word is a month name (with an optional comma) yields its day, month and year, so day + month + year reaches the date parser |
| PostProcessing.DayOfCleanedDate | main.py:78 | The day of a cleaned closing date is its day digits |
| PostProcessing.MonthOfCleanedDate | main.py:79 | The month of a cleaned closing date is its month word without the comma |

## Left out

- The network: `requests.get` is replaced by the site given as a sequence of pages. A page number past the end yields a page with no articles. The HTTP response is not modelled.
- HTML parsing with BeautifulSoup: each article is given already parsed, as an optional heading, optional company and sector strings, and its whole text. How `find` and `find_next_sibling` locate these nodes is not modelled.
- `Scraper.ScrapeTenders`: the progress updates are specified on success and for `num_tenders <= 0` only. On a raise they are whatever was reported before it. The `tqdm` bar's rendering is not modelled, only the amounts passed to `update`.
- `pd.to_datetime`: `PostProcessing.PostProcess` stops at the concatenated `day + month + year` string, as an `Option` for a missing part. Date parsing in "mixed" format is not modelled.
- DataFrame mechanics: dropping the helper columns, CSV and Excel files, `argparse`, the `input()` confirmation, and the timestamped file names (`main.py:89-135`).
- `\d` and `\w` are restricted to ASCII. Python also accepts other Unicode digits and letters for them. `str.title()` changes the case of ASCII letters only. `\s` and `str.strip()` use Python's full whitespace set.
- A missing `Date` cell (NaN) in the saved table is not modelled: every record the scraper returns has a date.
