# Sitemap crawler: a Dafny model

The crawler in `index.js` scrapes one sitemap page and collects the links on it. It then saves every internal page as a CSV file and a PDF file. `crawlSiteFromSitemap` works in two phases:

- **Phase 1.** The sitemap page is scraped once. A falsy result or an empty markdown ends the run. Every `[text](http…)` match in the markdown is cut down to the text between its first `(` and its last character. That is the link's URL whenever the link text holds no `(`. URLs outside the base URL are dropped, and the rest are deduplicated in first-occurrence order. An empty list ends the run.
- **Phase 2.** A `while` loop runs at most `MAX_PASSES` (3) passes. Pass *p* tries every URL of its work list in order.
  - A URL whose scrape returns content and whose page `processSinglePage` saves counts as a success.
  - Any other URL goes on the retry list, which becomes the next pass's work list.
  - A pause of `BASE_DELAY_MS * p` (1500 ms times *p*) follows every URL.
  - Whatever is left after the loop is permanently failed.

`processSinglePage` writes the CSV file (a fixed header plus one row) and a PDF file. Both are named by `slugify` of the page URL.

The modules, in dependency order:

| module | file | what it holds |
|---|---|---|
| `Wrappers` | `wrappers.dfy` | `Option` |
| `JsText` | `js_text.dfy` | JavaScript string behaviour used by the crawler: `indexOf`, `substring` with its clamping and swapping, `startsWith`, `\w`, `\s`, ASCII `toLowerCase` |
| `LinkScanner` | `link_scanner.dfy` | A hand-written matcher for the global regex `\[.*?\]\((https?:\/\/[^\s\)]+)\)`: leftmost matches with a lazy link text that does not cross a line terminator, returning each match string (`allLinks`) |
| `UrlExtraction` | `url_extraction.dfy` | The `for` loop that cuts each match to a URL, filters by `baseUrl` and fills the insertion-ordered `Set` |
| `Slug` | `slug.dfy` | `slugify`: the chain of eight rewrites of the pathname, the `"index"` default, and the two random fallbacks |
| `PageOutput` | `page_output.dfy` | `processSinglePage`: the title default, the CSV text, the file paths and the PDF's text, plus a CSV reader that serves as the writer's partner |
| `RetryScheduler` | `retry_scheduler.dfy` | Phase 2: `ProcessPasses` (the `while` loop), `ProcessPass` (the `for` loop) and `TryUrl` (one `try` block), each proved against a pass-indexed specification (`WorkList`, `RunPass`, `Crawl`) |
| `SchedulerProperties` | `scheduler_properties.dfy` | What phase 2 guarantees: partition and conservation, order, no retry after success, the pause schedule, the pass bound |
| `Crawler` | `crawler.dfy` | `crawlSiteFromSitemap` as a method with its early exits, and lemmas that connect the sitemap's links to the run |

The environment is passed in as data:

- The scraping API is a function from (URL, pass number) to a thrown error or a result that may be falsy.
- The URL parser is a function from the URL to a pathname or a parse error.
- The random suffix is a function of (URL, pass number).
- Whether the file writes succeed is a function of (URL, pass number).
- `await delay(ms)` appends `ms` to a trace of pauses, and every scrape call is recorded as a (pass, URL) pair.

The scheduler's proofs use only which (URL, pass) attempts succeed (`Verdicts`). `Realizes` ties those verdicts to the environment.

## Model

| member | source | states |
|---|---|---|
| JsText.IndexOf | index.js:48 | `-1` exactly when the character does not occur; otherwise the position of its first occurrence |
| JsText.Substring | index.js:48 | With in-range, ordered bounds, the result is the slice between them (the clamping and swapping of other bounds is left to the body, which follows JavaScript) |
| JsText.LowerChar | index.js:188 | Maps each of `A`–`Z` to its own lower-case letter (32 code points further on) and leaves every other character unchanged; the result is a lower-case letter exactly when the input was a letter |
| LinkScanner.UrlRun | index.js:44 | The length of the longest prefix made of characters outside `\s` and `)`: every character before it is such a character, and the one at it is not |
| LinkScanner.TailAt | index.js:44 | The part after `.*?`, i.e. `\]\((https?:\/\/[^\s\)]+)\)`: when it matches, its closing `)` lies after the `](` and inside the text |
| LinkScanner.TailShape | index.js:44 | A tail that matches is `](`, then an `http://` or `https://` URL of URL characters, then `)` at the reported position |
| LinkScanner.TailOfWritten | index.js:44 | Conversely, `](url)` followed by anything matches as a tail for every such URL, closing right after the URL |
| LinkScanner.LazyScan | index.js:44 | The lazy `.*?` followed by the tail: when it finds a stop, the tail's `)` lies past the stop and inside the text. `LazyScanShape` and `LazyScanFirst` make the stop the first possible one |
| LinkScanner.LazyScanShape | index.js:44 | Where the lazy `.*?` stops: no line terminator before the stop, and a `](url)` tail starts exactly there |
| LinkScanner.LazyScanFirst | index.js:44 | The stop is the first such place: wherever a `](url)` tail starts with no line terminator before it, the scan finds a stop there or earlier, so a scan that finds nothing means there is no such place |
| LinkScanner.MatchAt | index.js:44 | One match attempt at a position starting with `[`: a match found there has a positive length within the text. `MatchAtShape` and `MatchAtLink` say what it is |
| LinkScanner.MatchAtShape | index.js:44 | A match found at a position is the text `[text](url)` of a link with an `http://` or `https://` URL and a text without line terminators |
| LinkScanner.MatchAtLink | index.js:44 | A well-formed link whose text holds no `]` is matched in full at its own start, with its own text and URL |
| LinkScanner.MatchAll | index.js:44-45 | The global search, resuming after each match: every link it returns is well formed. `MatchAllRender` shows that it finds every rendered link |
| LinkScanner.AllLinks | index.js:44-45 | `allLinks` holds the full text of each regex match, in order; every match is a well-formed link |
| LinkScanner.MatchAllRender | index.js:44-45 | A markdown that lists well-formed links one per line, with no `]` in a link text, yields exactly those links, in order |
| UrlExtraction.LinkUrl | index.js:48 | The cut for one match: the text after the first `(`, without the last character; with no `(` at all, everything but the last character |
| UrlExtraction.Candidates | index.js:47-48 | One URL per match, in order: each is the match from just after its first `(` up to, not including, its final character |
| UrlExtraction.LinkUrlOfMatch | index.js:48 | The URL cut from a match equals the regex's captured URL if and only if the link text holds no `(` |
| UrlExtraction.UniqueInternalUrls | index.js:46-54 | The work list has no duplicates, and holds a URL if and only if some match yields it and it starts with `baseUrl` |
| UrlExtraction.CollectUniqueUrls | index.js:46-54 | The `for` loop over `allLinks` produces exactly the work list `UniqueInternalUrls` |
| UrlExtraction.FirstOccurrenceOrder | index.js:46-54 | The work list keeps the order in which each URL first occurs among the cut URLs, as `Set` insertion order does |
| Slug.Lower | index.js:188 | Keeps the length, turns each upper-case ASCII letter into its own lower-case letter, and changes no other character |
| Slug.StripLeadingSlash | index.js:189 | The input is the result with at most one `/` in front, and the `/` is removed exactly when it is there |
| Slug.SlashesToHyphens | index.js:190 | Keeps the length, turns every `/` into `-`, and changes no other character |
| Slug.StripHtml | index.js:191 | The input is the result followed by `.html` exactly when it ends in `.html`, and by nothing otherwise |
| Slug.KeepWordChars | index.js:192 | Only word characters and `-` remain, and each of them occurs exactly as often as in the input |
| Slug.KeepWordCharsAppend | index.js:192 | The deletion works piece by piece: the result for a concatenation is the results for the parts, in order, so the kept characters keep their order |
| Slug.KeepWordCharsOne | index.js:192 | A single character is kept exactly when it is a word character or `-` |
| Slug.CollapseHyphens | index.js:193 | The result equals the character-by-character reference `SqueezeHyphens`, which drops each hyphen that the next character repeats: every run of hyphens becomes one `-` and every other character stays in place. No `--` is left, and the result is empty exactly when the input is |
| Slug.CollapseKeepsLetters | index.js:193 | With the hyphens removed, the result and the input are the same string: no other character moves or goes |
| Slug.TrimLeadingHyphens | index.js:194 | The result is a suffix of the input, only hyphens are removed, and it does not start with `-` |
| Slug.TrimTrailingHyphens | index.js:195 | The result is a prefix of the input, only hyphens are removed, and it does not end with `-` |
| Slug.SlugOfPath | index.js:185-195 | For every pathname the result is a slug: nonempty, only `a`–`z`, `0`–`9`, `_` and `-`, no `--`, and no leading or trailing `-` |
| Slug.Slugify | index.js:176-203 | An empty URL gives `invalid-url-` plus the random suffix; a URL that does not parse gives `malformed-url-` plus the suffix; otherwise the result is a slug |
| Slug.SlugifySafe | index.js:176-203 | With a base-36 suffix, every file name the function produces uses only slug characters |
| Slug.SlugOfSlug | index.js:185-195 | A pathname that is already a slug is returned unchanged |
| Slug.SlugOfSegment | index.js:185-195 | A one-segment pathname `/s`, where `s` is a slug, gives `s` |
| Slug.SlugIdempotent | index.js:185-195 | Applying the rewrite chain to its own output changes nothing |
| Slug.SlugExample | index.js:185-195 | `/a/B/Page.html` becomes `a-b-page` |
| Slug.RootIsIndex | index.js:195 | The root pathname `/` becomes `index` |
| PageOutput.TitleOf | index.js:144 | The title is never empty: a nonempty metadata title is kept, and a missing or empty one becomes `No Title Found` |
| PageOutput.EscapeQuotes | index.js:150 | Never shorter than the content, and equal to it when the content holds no `"` |
| PageOutput.CsvRow | index.js:151 | The row's layout: the URL first and the title second, both between quotes and as they are, then the escaped content between quotes, with `,` between the fields |
| PageOutput.CsvText | index.js:149-152 | The file text starts with the header `url,title,content` and a newline |
| PageOutput.PathParts | index.js:148 | The path joins the directory, the slug and the extension, and each can be read back from it |
| PageOutput.ProcessSinglePage | index.js:132-174 | The save succeeds exactly when the page has a metadata object and the writes succeed. Then it yields the record (the source URL, the defaulted title and the markdown), its CSV text, and paths under `output/csv` and `output/pdf` named by the slug |
| PageOutput.EscapeRoundTrip | index.js:150-151 | Reading back an escaped field up to its closing quote gives the original content, whatever `"` it holds |
| PageOutput.FieldRoundTrip | index.js:151 | A quoted escaped field followed by its separator reads back as the field and the rest of the text |
| PageOutput.CsvRoundTrip | index.js:149-152 | The CSV text reads back as its record whenever the URL and title hold no `"`; the content may hold any text |
| PageOutput.UnescapedTitleBreaksRow | index.js:151 | Because the title is not escaped, a title such as `a"b` makes the row unreadable |
| PageOutput.SavedPageReadsBack | index.js:142-166 | A saved page's CSV reads back as its record when the URL and title hold no `"`; its PDF shows the title, the `Source:` line and the content |
| RetryScheduler.PassDelay | index.js:69 | The pause of any pass numbered 1 or more is at least `BASE_DELAY_MS` |
| RetryScheduler.PassDelayIncreases | index.js:69 | A later pass has a strictly longer pause |
| RetryScheduler.Attempt | index.js:84-99 | A URL is saved exactly when its scrape returned a truthy result with `success` and nonempty markdown, the result carries metadata, and the writes succeed. The saved record has that URL and that markdown; any throw or other result is a failure |
| RetryScheduler.TryUrl | index.js:84-99 | The `try` block for one URL ends as `Attempt` says |
| RetryScheduler.VerdictsOf | index.js:84-99 | The verdict for every (URL, pass) is whether that attempt saves the page |
| RetryScheduler.VerdictsRealize | index.js:84-99 | The verdicts of an environment agree with its attempts |
| RetryScheduler.RunPass | index.js:76-101 | The succeeded list and the retry list together are as long as the work list; that they split it is `PassPartition` |
| RetryScheduler.ProcessPass | index.js:76-101 | The `for` loop adds the pass's successes to `successCount`, and its retry list is the pass's failures in list order. It records one call `(pass, url)` per URL and one pause of `BASE_DELAY_MS * pass` per URL |
| RetryScheduler.Crawl | index.js:64-108 | Phase 2's report: the success count plus the permanently failed URLs account for every URL of the work list. The `SchedulerProperties` lemmas below state its passes, calls, pauses and failures |
| RetryScheduler.ProcessPasses | index.js:64-108 | The `while` loop's report is `Crawl` of the work list, and the success count plus the number of permanent failures equals the number of URLs |
| RetryScheduler.WorkList | index.js:103 | No pass's work list is longer than the initial list |
| RetryScheduler.StopPass | index.js:68 | The loop stops no earlier than the pass it starts from |
| RetryScheduler.PassStep | index.js:78-101 | One more URL adds one bookkeeping step, one call and one pause to the pass |
| RetryScheduler.PassAdvance | index.js:68-104 | After a pass with work, the next work list is that pass's failures, the traces grow by the pass's own, and the stopping pass is unchanged |
| SchedulerProperties.PassPartition | index.js:87-98 | A pass splits its work list, as a multiset, into successes and failures |
| SchedulerProperties.PassMembership | index.js:87-98 | A URL is on the retry list if and only if it was in the work list and failed in this pass, and on the succeeded list if and only if it succeeded |
| SchedulerProperties.PassKeepsOrder | index.js:76-98 | The retry list and the succeeded list are each order-preserving subsequences of the work list |
| SchedulerProperties.PassKeepsNoDuplicates | index.js:94-98 | A work list without duplicates gives a retry list without duplicates |
| SchedulerProperties.PassAttemptsAt | index.js:78-85 | The k-th scrape call of a pass is `(pass, k-th URL)` |
| SchedulerProperties.PassSleepsAt | index.js:69-100 | Every pause of a pass is `BASE_DELAY_MS * pass` |
| SchedulerProperties.WorkListMembership | index.js:94-103 | A URL is in pass p's work list if and only if it was in the initial list and failed in every earlier pass |
| SchedulerProperties.WorkListKeepsOrder | index.js:103 | Each pass's work list is an order-preserving subsequence of the previous pass's |
| SchedulerProperties.WorkListNoDuplicates | index.js:103 | Work lists never hold duplicates when the initial list does not |
| SchedulerProperties.SavedNotRetried | index.js:89-103 | A URL saved in pass k is in no later pass's work list |
| SchedulerProperties.BoundaryPartition | index.js:88-103 | At every pass boundary, the initial list is, as a multiset, the URLs saved so far plus the current work list |
| SchedulerProperties.PassAttemptsMembership | index.js:78-85 | `(q, u)` is a call of a pass if and only if q is the pass number and u is in its work list |
| SchedulerProperties.CallsMembership | index.js:68-104 | `(q, u)` is a call made before pass p if and only if `1 <= q < p` and u was in pass q's work list |
| SchedulerProperties.NeverScrapedAfterSuccess | index.js:89-103 | After a URL's scrape in pass k succeeds, there is no call for that URL in any later pass |
| SchedulerProperties.Schedule | index.js:69-100 | As many pauses as calls; each call's pass lies between 1 and the current pass, and its pause is `BASE_DELAY_MS` times that pass; pass numbers never decrease along the trace |
| SchedulerProperties.ScheduleAppend | index.js:69-100 | Appending one pass's calls and pauses keeps the schedule well formed |
| SchedulerProperties.DelaysGrow | index.js:69-100 | Pauses never shrink along the trace, and a call from a later pass waits strictly longer |
| SchedulerProperties.StopPassBound | index.js:68 | The loop stops by pass `MAX_PASSES + 1` |
| SchedulerProperties.StopPassStops | index.js:68 | At the stopping pass, the work list is empty or the pass bound is reached |
| SchedulerProperties.StopPassBusy | index.js:68 | Every pass before the stopping pass has a nonempty work list |
| SchedulerProperties.StopPassShape | index.js:68 | The three facts above together: the loop runs exactly while there is work and the bound allows it |
| SchedulerProperties.CrawlPasses | index.js:64-105 | At most `MAX_PASSES` passes run; none runs exactly when the list is empty; any permanent failure means all passes ran |
| SchedulerProperties.CrawlEmpty | index.js:55-68 | An empty work list runs no pass: no calls, no pauses, `successCount` 0 and no failures |
| SchedulerProperties.CrawlPartition | index.js:88-108 | The initial list is, as a multiset, the saved URLs plus the permanently failed ones, and `successCount` counts the saved ones |
| SchedulerProperties.CrawlPermanentFailures | index.js:103-108 | A URL is permanently failed if and only if it was in the list and failed in every pass that ran |
| SchedulerProperties.CrawlNoDuplicates | index.js:108 | The permanently failed list has no duplicates |
| SchedulerProperties.CrawlAttempts | index.js:68-104 | Calls are exactly (pass, URL) for each URL of each pass's work list, and a URL saved in a pass is never scraped again |
| SchedulerProperties.CrawlSchedule | index.js:69-100 | One pause per call, equal to `BASE_DELAY_MS` times the call's pass; calls come pass by pass, so pauses never shrink |
| Crawler.SitemapUsable | index.js:39 | A sitemap result is used only when it is truthy with a nonempty markdown; its `success` flag is not looked at, so a result with `success` false but with markdown is used |
| Crawler.CrawlRun | index.js:26-127 | Each outcome has its cause. A critical error happens exactly when the sitemap scrape throws, and the sitemap is unavailable exactly when its result is falsy or has no markdown. No URLs are found exactly when the sitemap is usable but yields no internal URL. Otherwise the run completes on the sitemap's internal URLs, in first-occurrence order, with `Crawl`'s report. A completed work list is nonempty, has no duplicates and lies under `baseUrl`, and its saved and permanently failed counts add up to its length |
| Crawler.CrawlSiteFromSitemap | index.js:26-127 | The method ends in the run `CrawlRun` describes: a critical error when the sitemap scrape throws, an early exit on a falsy or empty sitemap or an empty work list, otherwise phase 2's report |
| Crawler.RenderedCandidates | index.js:44-48 | On a sitemap of well-formed links, one per line, with no `]` or `(` in any link text, the cut URLs are exactly the links' URLs |
| Crawler.RenderedInternalUrls | index.js:44-58 | For such a sitemap, the work list holds exactly the link URLs under `baseUrl`, and it is nonempty if and only if one link points under `baseUrl` |
| Crawler.UsableSitemapRun | index.js:39-58 | A sitemap result with content ends with no URLs found, or completes phase 2 on its internal URLs |
| Crawler.CrawlOfRenderedSitemap | index.js:36-108 | On such a sitemap, the run completes if and only if a link points under `baseUrl`, and otherwise reports no URLs found; a completed run's URLs are those links, each saved or permanently failed |

## Left out

- The Firecrawl client is not modelled: every scrape is an input keyed by (URL, pass). The model places no constraint on how the API behaves over time.
- The WHATWG `URL` parser is not modelled: `slugify` takes the parse result (a pathname, or a parse error) as an input. `toLowerCase` is modelled for ASCII only, which covers a parsed pathname's percent-encoded text.
- `Math.random().toString(36).substring(7)` is not modelled: the suffix is an input. `Slug.SlugifySafe` requires only that it is base 36.
- The file system is not modelled: `mkdirSync`, `writeFileSync` and the PDF write stream are reduced to one flag saying whether the writes succeed. A CSV file left behind when the PDF write fails afterwards is not modelled.
- The PDF layout (fonts, sizes, colours, alignment, the hyperlink) is not modelled. Only the three texts the document shows are kept.
- Console logging and the final report's printing are not modelled. The report's data (count, failed list, passes, calls, pauses) is returned instead.
- `setTimeout` timing and the async/await scheduling are not modelled. Every `await` is treated as sequential, and `delay` only records its length.
- Loading `.env`, the missing-API-key exit and the hard-coded sitemap URL and `baseUrl` (the constants at the top of the file) are not modelled. The sitemap scrape and `baseUrl` are inputs.
- Crawler.CrawlSiteFromSitemap: for thrown `Error` objects, the only throw outside a pass's own `try` is the sitemap scrape. A rejection with `null` or `undefined` makes `error.message` in the pass's `catch` throw in turn, which reaches the outer `catch`. That path is not modelled: such a failure counts as an ordinary failed attempt.
- PageOutput.ProcessSinglePage: the distinct ways it can throw are folded into one failure (no metadata object, or a failed write). `Slug.Slugify` itself never throws.
- PageOutput.ParseCsv and the reader around it are not part of the crawler. They are the writer's partner for the round-trip lemmas.
- The sitemap check tests only for a truthy result and a nonempty markdown; the result's `success` flag is not checked, as in the source.
- RetryScheduler.PassDelay: no limit on pass numbers is modelled. Integers are unbounded, which matches JavaScript numbers for the passes that can occur.
