# SmartScrape pagination engine in Dafny

SmartScrape is a small desktop scraper. The operator enters a base URL and an HTML tag;
`scrape_thread` then opens a headless browser, decides how the site paginates, walks up to
`MAX_PAGES = 7` pages, collects the stripped, non-empty text of every element with that tag
into the module-level list `scraped_data`, quits the driver and reports either
"<n> items scraped." or "No Data". This project models that engine and proves what it does.

Pagination is detected by trying the hints `more`, `next`, `load`, `show`, `load-more` in
that order; the first one for which a clickable element is found selects *button mode*
(wait for the tag, extract, click, at most seven times); when none is found the run uses
*URL mode* (build the URL of page `i` for `i = 1..7`, navigate, wait, extract, stop at the
first page that yields nothing).

The browser is not modelled as a program but as an oracle (`Oracle.Browser`): whether the
session starts, whether `driver.get(url)` succeeds, whether the lookup for a hint succeeds,
what the presence wait and element read see on a page (a time-out, or the raw texts of
the matching elements in document order), whether the `k`-th click succeeds, and whether
`driver.quit()` returns normally. Every request the engine makes of the browser is
recorded, in order, in a log of `Action`s, so that the order of navigations, the number of
clicks and the final `driver.quit()` can be stated.

Modules, in dependency order:

- `Wrappers`, `Oracle` (oracle.dfy): `Option`; the browser oracle, the request log, and
  the navigations and clicks a log contains.
- `Seqs` (seqs.dfy): two generic facts about sequences (regrouping a concatenation,
  shifting a slice) that the string and log proofs share.
- `Text` (text.dfy): Python's `str.strip()`/`str.rstrip(chars)` and the comprehension
  `[el.text.strip() for el in elements if el.text.strip()]` as `Extract`, over one read of
  each element's text.
- `Urls` (urls.dfy): `in`, `str.replace`, `str.rstrip("/")`, `str(i)` and the page-URL
  builder `PageUrl`.
- `Detect` (detect.dfy): the hint list, its specification `FirstClickable`, and the
  imperative scan `FindButton`.
- `Walk` (walk.dfy): both page loops as specification functions (`ButtonWalk`, `UrlWalk`)
  written from the state a loop starts in to the state it leaves, and their stop rules.
- `Scraper` (scraper.dfy): the run as a whole, as the specification function `Scrape`,
  and the class `App` whose field `scrapedData` is `scraped_data`; `App.ScrapeThread`,
  `App.ButtonLoop`, `App.ButtonPage` and `App.UrlLoop` are the imperative code, each proved
  equal to its specification function.

How main.py behaves on its less common paths, all of which the model follows:

- `driver.quit()` (line 111) is reached only when the page loop ends normally. When the
  session fails to start (lines 62-67) no driver exists. Once the driver exists, a step that
  raises (the first navigation at line 69, a button-mode wait at line 85, a URL-mode
  navigation at line 100) goes straight to the handler at lines 120-121 and the driver is
  never quit.
- `driver.quit()` is itself inside the `try`: when it raises, the run reports an error
  and shows no count, although `scraped_data` already holds the gathered entries.
- In URL mode `driver.get(paged_url)` (line 100) is outside the inner `try`, so a page
  that cannot be reached ends the whole run with an error instead of ending the loop.
- In button mode the presence wait and element read (lines 85-86) are outside the inner
  `try`, so a time-out there also ends the run with an error; only a failed click ends the
  loop normally.
- Invalid input returns (line 52) before `scraped_data` is reset (line 59), so the data of
  the previous run is kept.
- The tag is only checked to be non-empty; any tag is accepted.

## Model

| member | source | states |
|---|---|---|
| Text.TrimLeftSpec | main.py:47 | lstrip removes only dropped characters, keeps a suffix of the input, and what it keeps does not start with a dropped character |
| Text.TrimRightSpec | main.py:98 | rstrip removes only dropped characters, keeps a prefix of the input, and what it keeps does not end with a dropped character |
| Text.IsSpace | main.py:47 | the characters `str.strip()` removes: those for which Python's `str.isspace()` holds |
| Text.TrimLeft | main.py:47 | `s.lstrip(chars)`; its meaning is stated by `Text.TrimLeftSpec` |
| Text.TrimRight | main.py:98 | `s.rstrip(chars)`; its meaning is stated by `Text.TrimRightSpec` |
| Text.Strip | main.py:47 | the stripped string is no longer than the input and neither starts nor ends with a dropped character |
| Text.StripSpace | main.py:47 | `s.strip()` with no argument: `Text.Strip` over `Text.IsSpace`, whose properties the rows around it state |
| Text.StripSlice | main.py:47 | strip returns one contiguous slice of the input, and every character outside that slice is a dropped one |
| Text.StripFixed | main.py:87 | a string that neither starts nor ends with whitespace is left unchanged by strip |
| Text.StripIdempotent | main.py:87 | stripping an already stripped text changes nothing |
| Text.StripEmptyIff | main.py:87 | `text.strip()` is empty exactly when every character of the text is whitespace |
| Text.StripSpaceExample | main.py:47 | `"  Hello  ".strip()` is `"Hello"` |
| Text.StripSpaceBlankExamples | main.py:87 | the empty and the whitespace-only text strip to nothing; `"World"` is unchanged |
| Text.Extract | main.py:87 | the extraction has at most one entry per element, and every entry is non-empty and neither starts nor ends with whitespace |
| Text.ExtractAppend | main.py:104 | extracting two consecutive runs of elements is concatenating their extractions, so document order is kept |
| Text.ExtractIdempotent | main.py:104 | extracting the extracted list gives it back unchanged |
| Text.ExtractEmptyIff | main.py:104-106 | a page yields nothing (the URL loop's `if not new_results`) exactly when every element text is blank |
| Text.ExtractMember | main.py:87 | an entry is in the extraction exactly when it is the non-empty strip of some element's text |
| Text.ExtractExample | main.py:104 | `["  Hello  ", "", " \t ", "World"]` extracts to `["Hello", "World"]` |
| Urls.CountPositive | main.py:95 | the left-to-right scan that `str.replace` performs finds an occurrence exactly when `"{page}" in base_url` holds |
| Urls.ReplaceAllAbsent | main.py:96 | replacing a pattern that does not occur leaves the string unchanged |
| Urls.ReplaceAllLength | main.py:96 | each replacement trades the pattern's length for the replacement's, so the result's length is fixed by the number of occurrences |
| Urls.ReplaceKeepsPrefix | main.py:96 | replacement leaves the part before the first occurrence untouched |
| Urls.ReplaceLeftmost | main.py:96 | the first occurrence is replaced and the scan resumes right after it |
| Urls.ReplaceAllInjective | main.py:96 | when the pattern occurs, different replacements give different results |
| Urls.Contains | main.py:95 | `"{page}" in base_url`; `Urls.CountPositive` ties it to the replacement scan |
| Urls.Count | main.py:96 | the number of occurrences the replacement scan meets, skipping over each one it replaces |
| Urls.ReplaceAll | main.py:96 | `str.replace(pat, rep)`: every occurrence met by a left-to-right scan is replaced; its meaning is stated by the `Replace*` lemmas |
| Urls.Decimal | main.py:96 | `str(i)`; its meaning is stated by `Urls.DecimalDigits` and `Urls.DecimalRoundTrip` |
| Urls.DecimalDigits | main.py:96 | `str(i)` is a non-empty string of digits with a leading zero only for 0 |
| Urls.DecimalRoundTrip | main.py:96 | reading back the decimal form of `i` gives `i` |
| Urls.DecimalInjective | main.py:96 | distinct page numbers have distinct decimal forms |
| Urls.PageUrl | main.py:95-98 | the URL of page `i`: the placeholder replaced by `str(i)` when present, otherwise the base without its trailing slashes then `/page/<i>/`; its meaning is stated by the lemmas that follow |
| Urls.PageUrlWithoutPlaceholder | main.py:97-98 | without `"{page}"` the URL is the base with all its trailing slashes removed, then `"/page/"`, `str(i)` and `"/"` |
| Urls.PlainPageUrl | main.py:97-98 | a base without `{` and without a trailing slash gets `"/page/" + str(i) + "/"` appended unchanged |
| Urls.PlaceholderAt | main.py:95-96 | with `"{page}"` first occurring at `n`, the URL keeps `base[..n]`, then `str(i)`, then the rest with every further placeholder replaced; no slash is stripped |
| Urls.PageUrlInjective | main.py:95-98 | in both modes, distinct page numbers give distinct URLs |
| Urls.PageUrlSuffixExample | main.py:98 | `"http://x/a"` at page 3 gives `"http://x/a/page/3/"` |
| Urls.PageUrlPlaceholderExample | main.py:95-96 | `"http://x/p{page}"` at page 3 gives `"http://x/p3"` |
| Urls.PageUrlPlaceholderKeepsSlash | main.py:95-96 | `"http://x/{page}/"` at page 3 gives `"http://x/3/"`: the trailing slash survives |
| Oracle.NavigationsMember | main.py:100 | a URL is among the navigations exactly when the log holds a `driver.get` of it |
| Oracle.ClicksZero | main.py:89 | no click was attempted exactly when the log holds no click |
| Detect.FirstClickable | main.py:72-81 | over the hints `more`, `next`, `load`, `show`, `load-more` of line 72: the chosen hint's lookup succeeds and every hint before it fails; with no choice, every hint fails |
| Detect.FindButton | main.py:72-81 | the scan returns the first hint whose lookup succeeds and looks up exactly the hints up to and including it (all five when none succeeds) |
| Detect.Tried | main.py:72-81 | the hints of `button_selectors` (line 72) the scan looks up: those up to and including the winner, all five when none wins |
| Detect.FirstFrom | main.py:74-81 | failing lookups only move the scan on to the next hint |
| Detect.DetectionPriority | main.py:72 | `more` beats `next` whenever both are clickable; `next` wins when it is the first clickable hint |
| Walk.PageUrlsAt | main.py:94-100 | the m-th URL requested from page `lo` on is that of page `lo + m`: pages go in increasing order |
| Walk.ButtonWalk | main.py:84-92 | the button loop from iteration `k`: wait and read (a time-out raises), extend `scraped_data`, click (a failure breaks), at most `MAX_PAGES` times; its properties are the `Button*` lemmas |
| Walk.UrlWalk | main.py:94-109 | the URL loop from page `i`: build the URL, navigate (a failure raises), wait and read (a time-out or an empty extraction breaks), extend; its properties are the `Url*` lemmas |
| Walk.ButtonStopHere | main.py:85-92 | at the iteration where button mode stops, a timed-out wait raises with nothing added and no click, and a failed click ends the loop normally with that page's extraction appended |
| Walk.ButtonStep | main.py:85-92 | an iteration whose wait and click succeed appends its extraction, even an empty one, and moves on to the next iteration |
| Walk.ButtonStopExit | main.py:84-92 | button mode raises exactly when the stopping iteration is below the cap and its wait timed out |
| Walk.ButtonStopData | main.py:84-92 | button mode appends exactly the extractions of the iterations up to the stopping one (included when its wait succeeded), in order |
| Walk.ButtonDataStep | main.py:87 | an iteration whose wait and click succeed puts its extraction before those of the iterations after it |
| Walk.ButtonClicksStep | main.py:89 | an iteration whose wait and click succeed adds exactly one click to those made after it |
| Walk.ButtonStopClicks | main.py:84-92 | button mode attempts one click per iteration whose wait succeeded |
| Walk.ButtonStopRule | main.py:84-92 | a wait time-out escapes with the earlier pages kept; a failed click ends the loop with that page's extraction already appended, even when empty; empty pages never stop the loop; the data is only appended to; at most 7 clicks |
| Walk.UrlStopHere | main.py:100-109 | at the stopping page nothing is added, its URL is the last one requested, and only an unreachable page raises |
| Walk.UrlStep | main.py:100-107 | a reachable page that yields something appends its extraction and moves on to the next page |
| Walk.UrlStopExit | main.py:94-109 | URL mode raises exactly when the stopping page is within the cap and unreachable |
| Walk.UrlStopData | main.py:94-109 | URL mode appends exactly the extractions of the pages before the stopping page, in page order |
| Walk.UrlNavigationsStep | main.py:100 | a page that lets the loop go on puts its URL before those of the later pages |
| Walk.UrlStopNavigations | main.py:94-109 | URL mode requests the pages from the start page up to the stopping page (or to page 7), in increasing order |
| Walk.UrlStopRule | main.py:94-109 | URL mode as a whole: exactly the extractions of pages `1..k-1` are appended, nothing of the stopping page `k`; only an unreachable page escapes; pages `1..min(k, 7)` are requested in order |
| Walk.ButtonWalkKept | main.py:87 | every entry button mode appends is stripped and non-empty |
| Walk.UrlWalkKept | main.py:104-107 | every entry URL mode appends is stripped and non-empty |
| Walk.ButtonWalkLog | main.py:84-92 | button mode only adds requests to the log and never quits the driver |
| Walk.UrlWalkLog | main.py:94-109 | URL mode only adds requests to the log and never quits the driver |
| Scraper.Setup | main.py:61-81 | before a loop starts, the session was started first and the driver not quit |
| Scraper.Paginate | main.py:83-109 | the loop detection selects keeps the requests made so far, quits nothing and appends only stripped, non-empty entries |
| Scraper.Scrape | main.py:46-124 | one run: validate, start the session, open the base URL, detect, paginate, quit, report; its properties are the `Scrape*` lemmas |
| Scraper.Pages | main.py:72-109 | the loop detection selects, started from the requests made before it and an empty `scraped_data` |
| Scraper.ScrapeOutcome | main.py:46-124 | input is rejected exactly when the stripped URL or the tag is empty, and then no browser work is done and the old data stays; otherwise the session starts first; success reports `len(scraped_data)` of a non-empty list, "No Data" an empty one, and either comes only after `driver.quit()` returned normally; every entry is stripped and non-empty; a quit is the last request |
| Scraper.ScrapeForgetsPrevious | main.py:58-59 | a valid run's outcome does not depend on what `scraped_data` held before it |
| Scraper.ScrapeErrors | main.py:61-121 | a valid run reports an error exactly when the session fails, the base URL cannot be opened, the page loop raises, or `driver.quit()` raises; the driver is asked to quit exactly when the page loop ended normally; a run that fails before its loop leaves `scraped_data` empty, any other leaves the loop's data |
| Scraper.ScrapeUrlMode | main.py:94-118 | with no hint clickable and `k` the first page that is unreachable or yields nothing: `scraped_data` is exactly the extractions of pages `1..k-1` in order; the report is an error for an unreachable page or a failing quit, else the count or "No Data" |
| Scraper.ScrapeButtonMode | main.py:84-118 | with a winning hint and `k` the first iteration that times out or fails to click: `scraped_data` is exactly the extractions of iterations `0..k-1`, and of `k` when its wait succeeded; a time-out or a failing quit is an error, else the count or "No Data" |
| Scraper.ExampleSiteUrl | main.py:97-98 | page `i` of `http://example.test/list` is `http://example.test/list/page/<i>/` |
| Scraper.ExampleSiteYield | main.py:102-104 | each page of the example site yields its `h2` texts as they are, page 4 nothing |
| Scraper.ExampleGathered | main.py:94-107 | pages 1-3 of the example site gather `A1, A2, B1, B2, C1, C2` in page order |
| Scraper.ScrapeExample | main.py:46-124 | on `http://example.test/list` with tag `h2`, no clickable control, two headings on each of pages 1-3 and none on page 4, a run leaves `["A1", "A2", "B1", "B2", "C1", "C2"]` and reports "6 items scraped.", whatever the data held before |
| Scraper.App.constructor | main.py:15 | `scraped_data` starts empty |
| Scraper.App.ScrapeThread | main.py:46-124 | the imperative run leaves `scraped_data`, the report and the request log exactly as `Scrape` specifies for the data held before |
| Scraper.App.ButtonLoop | main.py:84-92 | the imperative button loop ends in the state `ButtonWalk` specifies from iteration 0 |
| Scraper.App.ButtonPage | main.py:85-92 | one pass of the button loop body takes the state from iteration `k` to iteration `k + 1`, or to the loop's end when the wait times out or the click fails |
| Scraper.App.UrlLoop | main.py:94-109 | the imperative URL loop ends in the state `UrlWalk` specifies from page 1 |

## Left out

- The Tkinter interface (window, theme switching, progress bar, button state, text box
  rendering) and the message boxes: a run's message is the `Report` value, and the text of
  an exception (`str(e)`) is not modelled.
- Launching `scrape_thread` on a thread: the model is one sequential run; concurrent runs
  sharing `scraped_data` are not modelled.
- CSV and Excel export: file I/O through pandas and file dialogs.
- Selenium itself: the driver setup, the XPath lookup of a hint (id, class, or capitalised
  text containment), `WebDriverWait` and its 10-second limit, `ActionChains` and
  `time.sleep(2)` are the oracle's answers. A failing presence wait and a failing element
  read are one outcome, since each mode treats them alike.
- Text.Extract: the comprehension at lines 87 and 104 reads `el.text` twice for each
  element it keeps, once in the filter and once for the value, and each read asks the
  browser again. The oracle gives one text per element and `Extract` reads it once, so
  the model assumes both reads agree. If a page changes between them (for instance while
  it is still updating after a click), main.py can append `""` or a string other than the
  one it tested. `Walk.ButtonWalkKept`, `Walk.UrlWalkKept` and the clause of
  `Scraper.ScrapeOutcome` that every entry is stripped and non-empty rely on this
  assumption.
- The set of tags the interface offers: any non-empty tag is accepted, as the code does.
- `App.log` is not a variable of the program: it records the requests the run makes of the
  browser, so that their order, the clicks and the final quit can be stated.
