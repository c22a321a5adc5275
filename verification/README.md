# Site mirror crawler: a Dafny model

This project models the decision logic of a small toolkit that mirrors a marketing website into a
`public/` directory and serves the copy:

- three Python crawlers (`scrape_recursive.py`, `scrape_soup.py`, `scrape_selenium.py`), each with
  its own URL-to-file mapping, link filter and traversal with a visited set and budgets;
- a Puppeteer scraper (`scraper.js`) that saves assets and up to ten same-origin pages;
- an Express server (`server.js`) with explicit routes for flattened service pages and a fallback
  that tries the path, the path plus `.html`, and the home page;
- a serverless contact-form handler (`netlify/functions/api.ts`) that validates a form, composes a
  mail and picks the reply status.

Network, browser, parser, file system and mail transport are oracles: function-valued fields of
datatypes (`Site`, `Browser`, `Env`, `FileSystem`, `send`) passed in as parameters. Global state
(`VISITED_URLS`, `DOWNLOADED_FILES`) is threaded through the crawlers as explicit state with a log
of the downloads made, so the properties are stated about that log.

Modules:

| file | module | models |
|---|---|---|
| `text.dfy` | `Text` | the Python string operations used: `strip`, `lstrip`, `split(c)[0]`, `os.path.basename`, `replace`, `lower` |
| `urls.dfy` | `Urls` | Python's `urlsplit`/`urlparse`, `urlunsplit` and `urljoin` (section 5.2 of RFC 3986 as Python implements it), written out concretely |
| `url_laws.dfy` | `UrlLaws` | proved laws of that model: split after unsplit, host kept by resolution, foreign schemes, fragments |
| `option.dfy`, `crawl.dfy` | `Optional`, `Crawl` | an option type; the depth rank that orders the recursive crawlers' calls |
| `scrape_recursive.dfy` | `ScrapeRecursive` | `LinkParser.handle_starttag`, `get_local_path`, `is_same_domain`, `normalize_url`, `scrape_page` |
| `scrape_soup.dfy` | `ScrapeSoup` | `get_local_filename`, `download_page`, `extract_links`, `scrape_recursive` |
| `scrape_selenium.dfy` | `ScrapeSelenium` | `get_local_filename`, `get_internal_links`, the `scrape_website` worklist loop |
| `scraper_js.dfy` | `ScraperJs` | link selection, dedup and `slice(0, 10)`, asset downloads, page file names |
| `server.dfy` | `Server` | `routeMap`, route matching, the fallback order |
| `contact_api.dfy` | `ContactApi` | the `/contact` handler: validation, defaults, subject and bodies, status |

## Model

| member | source | states |
|---|---|---|
| Text.Strip | scrape_soup.py:35 | `strip('/')` gives the middle of the input between a leading and a trailing run made only of the character, and that middle neither starts nor ends with it |
| Text.LStrip | scrape_recursive.py:53 | `lstrip('/')` removes exactly a prefix made only of the character, and what is left does not start with it |
| Text.BeforeFirst | scrape_recursive.py:105 | `split('#')[0]` is a prefix of the input free of the separator, ending where the first separator was |
| Text.AfterFirst | scrape_recursive.py:105 | the part after the first separator completes the input together with `BeforeFirst` |
| Text.BaseName | scrape_recursive.py:56 | `os.path.basename` is a '/'-free suffix of the path that starts right after a '/' or at the start |
| Text.ReplaceChar | scrape_soup.py:42 | `replace('/', '-')` keeps the length and changes exactly the occurrences of the one character |
| Text.Lower | scrape_soup.py:113 | `lower()` keeps the length and lowers each character on its own |
| Urls.Split | scrape_recursive.py:95 | `urlparse` gives a lower-case scheme, a netloc free of delimiters, a path free of '?' and '#', and no fragment when the URL has no '#' |
| UrlLaws.SplitUnsplit | scrape_recursive.py:108 | splitting the unsplit parts of an absolute URL gives those parts back |
| UrlLaws.ResolveHost | scrape_recursive.py:108 | `urljoin` against an http(s) base keeps the base scheme, takes the reference's netloc if it has one and the base's otherwise, and keeps the reference's fragment |
| UrlLaws.ResolveForeignScheme | scrape_recursive.py:108 | a reference with a scheme other than the base's is returned unchanged by `urljoin` |
| UrlLaws.ResolveFragmentFree | scrape_recursive.py:108 | `urljoin` of a '#'-free base and reference has no '#' |
| UrlLaws.SplitBeforeFragment | scrape_soup.py:108 | cutting a URL at its first '#' changes only the fragment of its parts |
| ScrapeRecursive.Lookup | scrape_recursive.py:29 | `dict(attrs)` has no entry for a name exactly when no attribute has that name |
| ScrapeRecursive.LookupLastWins | scrape_recursive.py:29 | when a name repeats, `dict(attrs)` holds the value of its last occurrence |
| ScrapeRecursive.HandleStartTagClassifies | scrape_recursive.py:28-41 | only `a` with `href` adds to the links; `img`/`script` with `src` and `link` with `href` add to the assets, in that order of tests; a tag adds at most one entry to each list |
| ScrapeRecursive.Feed | scrape_recursive.py:28-41 | feeding a page's start tags adds at most one link and at most one asset per tag |
| ScrapeRecursive.FeedCollects | scrape_recursive.py:28-41 | after feeding a page, a value is in the links (assets) exactly when some start tag of the page contributes it |
| ScrapeRecursive.LocalPath | scrape_recursive.py:49-59 | the file is never empty and never starts with '/'; an empty path or "/" gives `index.html` |
| ScrapeRecursive.GetLocalPath | scrape_recursive.py:44-59 | the file of any URL is non-empty and does not start with '/' |
| ScrapeRecursive.LocalPathPage | scrape_recursive.py:56-57 | an extension-less path becomes `<path>index.html` after a trailing '/', else `<path>.html` |
| ScrapeRecursive.LocalPathAsset | scrape_recursive.py:56-59 | a path whose last segment has '.' is kept, minus its leading '/' |
| ScrapeRecursive.LocalPathTrailingSlashDistinct | scrape_recursive.py:56-57 | `/x/` and `/x` map to the different files `x/index.html` and `x.html` |
| ScrapeRecursive.LocalPathLeaf | scrape_recursive.py:56-57 | a nested page keeps its directories: `/x/t` is saved as `x/t.html` |
| ScrapeRecursive.LocalPathIndexCollision | scrape_recursive.py:56-57 | `/x/` and `/x/index` collide on `x/index.html` |
| ScrapeRecursive.LocalPathRoot | scrape_recursive.py:49-57 | "" and "/" give `index.html`, while "//" passes the root test and gives `.html` |
| ScrapeRecursive.GetLocalPathIgnoresQuery | scrape_recursive.py:46-47 | URLs that differ only in query and fragment map to the same file |
| ScrapeRecursive.NormalizeUrl | scrape_recursive.py:98-114 | None for a missing or empty URL; a result has no '#' when the base has none |
| ScrapeRecursive.NormalizeSameDomain | scrape_recursive.py:108-114 | every URL `normalize_url` returns passes `is_same_domain` against the base |
| ScrapeRecursive.NormalizeSameScheme | scrape_recursive.py:93-114 | for a link in the base's scheme or without one, a result exists exactly when the link has no host or the base's host, and then it has the base's host |
| ScrapeRecursive.NormalizeRelative | scrape_recursive.py:105-112 | a relative link always normalizes, onto the base's host |
| ScrapeRecursive.NormalizeFragmentOnly | scrape_recursive.py:105-112 | a link that is only a fragment normalizes to the base itself |
| ScrapeRecursive.NormalizeRejectsOtherHost | scrape_recursive.py:111-114 | a link to another host in the same scheme gives None |
| ScrapeRecursive.NormalizeKeepsHostlessScheme | scrape_recursive.py:93-112 | a link in another scheme without a host (`mailto:`) passes `is_same_domain` and is returned unchanged |
| ScrapeRecursive.NormalizeIdempotent | scrape_recursive.py:98-114 | normalizing an already normalized URL against the same canonical base gives it back |
| ScrapeRecursive.ScrapePage | scrape_recursive.py:117-165 | the crawl only appends new downloads, each page and each asset at most once and every page within the depth bound; `VISITED_URLS` gains exactly the pages downloaded and `DOWNLOADED_FILES` exactly the assets downloaded; nothing happens past `max_depth` or for a visited URL; the URL is marked visited before the download, so a failed or empty download leaves only that mark; the page is downloaded first and every later page is deeper; when the page URL has no fragment, no download has one |
| ScrapeRecursive.ScrapeLinks | scrape_recursive.py:147-152 | following the links only adds new downloads, with every page at depth+1 or deeper and within the bound; the two sets grow by exactly the pages and assets downloaded; below `max_depth`, every link that normalises to a non-empty URL ends up visited |
| ScrapeRecursive.ScrapeAssets | scrape_recursive.py:155-162 | the asset loop adds only asset downloads, each new to `DOWNLOADED_FILES`, and visits no page; `DOWNLOADED_FILES` grows by exactly the assets downloaded, and every asset that normalises to a non-empty URL ends up in it |
| ScrapeRecursive.ScrapePageFollowsLinks | scrape_recursive.py:147-152 | below `max_depth`, each link found on a downloaded page that normalises to a non-empty URL is visited by the time `scrape_page` returns |
| ScrapeRecursive.ScrapePageFetchesAssets | scrape_recursive.py:155-162 | each asset found on a downloaded page that normalises to a non-empty URL is in `DOWNLOADED_FILES`, and so downloaded, by the time `scrape_page` returns |
| ScrapeSoup.PageFilename | scrape_soup.py:35-44 | the file is never empty and never starts with '/'; a path of only slashes gives `index.html` |
| ScrapeSoup.GetLocalFilename | scrape_soup.py:32-44 | the file for any URL is non-empty and does not start with '/' |
| ScrapeSoup.GetLocalFilenameIgnoresQuery | scrape_soup.py:34-35 | only the parsed path is consulted: URLs that differ only in query and fragment are saved to the same file |
| ScrapeSoup.PageFilenamePage | scrape_soup.py:41-42 | an extension-less path has every '/' replaced by '-' and `.html` appended |
| ScrapeSoup.PageFilenameFlat | scrape_soup.py:41-42 | a page file has no '/' and ends in `.html` |
| ScrapeSoup.PageFilenameTrailingSlash | scrape_soup.py:35 | `/a/b` and `/a/b/` map to the same file |
| ScrapeSoup.PageFilenameAsset | scrape_soup.py:44 | a path whose last segment has '.' is returned as it is after stripping |
| ScrapeSoup.PageFilenameCollision | scrape_soup.py:41-42 | `/x/y` and `/x-y` collide on one file |
| ScrapeSoup.NestedPage | scrape_soup.py:41-42 | `/x/y` is saved as `x-y.html` |
| ScrapeSoup.DownloadPage | scrape_soup.py:47-73 | between 1 and 3 attempts; every attempt but the last failed and was followed by its pause; the text is returned exactly when the last attempt succeeded, and it is that response's text; None only after 3 attempts |
| ScrapeSoup.Retry | scrape_soup.py:50-71 | from attempt `j` on, at most the remaining attempts are made, each failed one followed by its pause, and the text is that of the first success |
| ScrapeSoup.DownloadPageGivesUp | scrape_soup.py:49-73 | None exactly when all three attempts fail |
| ScrapeSoup.DownloadPageForbidden | scrape_soup.py:54-61 | three 403s wait 2 then 4 seconds and give None |
| ScrapeSoup.DownloadPageErrors | scrape_soup.py:63-71 | three request errors wait 2 and 2 seconds and give None |
| ScrapeSoup.ExtractLinksMember | scrape_soup.py:93-119 | a URL is extracted exactly when it is the fragment-cut `urljoin` of some `href` and passes the host and suffix tests |
| ScrapeSoup.ExtractLinksFiltered | scrape_soup.py:105-114 | every extracted link has no '#', exactly the base's netloc and none of the skipped suffixes in any letter case |
| ScrapeSoup.ExtractLinksRelative | scrape_soup.py:105-114 | a relative `href` whose candidate has no skipped suffix is extracted |
| ScrapeSoup.ScrapeRecursive | scrape_soup.py:122-163 | each visit is to a new page, within the depth bound, and `VISITED_URLS` grows by exactly the pages visited; the visited count never exceeds `max_pages` (or its starting size); nothing happens past the depth bound, at the budget or for a visited URL; otherwise the URL is visited first and every later visit is deeper |
| ScrapeSoup.FollowLinks | scrape_soup.py:156-163 | the child loop stays within budget and depth+1..max_depth, and when it ends below both bounds every link was visited |
| ScrapeSoup.ScrapeRecursiveComplete | scrape_soup.py:153-163 | when the crawl ends under budget, every link extracted from a page it downloaded below the depth bound was visited |
| ScrapeSoup.ScrapeRecursiveOnHost | scrape_soup.py:111-114 | every page the crawl visits after its start has the start URL's host and no fragment |
| ScrapeSelenium.PageFilename | scrape_selenium.py:48-60 | the file is never empty and never starts with '/'; a path of only slashes gives `index.html` |
| ScrapeSelenium.GetLocalFilename | scrape_selenium.py:48-60 | the file for any URL is non-empty and does not start with '/' |
| ScrapeSelenium.GetLocalFilenameIgnoresQuery | scrape_selenium.py:50-51 | only the parsed path is consulted: URLs that differ only in query and fragment are saved to the same file |
| ScrapeSelenium.PageFilenameKeepsPath | scrape_selenium.py:57-58 | a page's file is its stripped path, directories kept, followed by `.html` |
| ScrapeSelenium.PageFilenameNested | scrape_selenium.py:57-58 | `/x/y` is saved as `x/y.html` |
| ScrapeSelenium.PageFilenameAsset | scrape_selenium.py:60 | a path whose last segment has '.' is returned as it is after stripping |
| ScrapeSelenium.PageFilenameTrailingSlash | scrape_selenium.py:51 | a trailing '/' does not change the file |
| ScrapeSelenium.InternalLink | scrape_selenium.py:93-102 | what one anchor contributes is non-empty and has no '#' |
| ScrapeSelenium.GetInternalLinksMember | scrape_selenium.py:82-110 | a URL is among the links exactly when some anchor contributes it |
| ScrapeSelenium.GetInternalLinksFiltered | scrape_selenium.py:95-102 | every link is non-empty, has no '#' and has the base's netloc |
| ScrapeSelenium.GetInternalLinksRelative | scrape_selenium.py:95-102 | a relative `href` contributes its resolved URL, cut at '#' |
| ScrapeSelenium.ScrapeWebsite | scrape_selenium.py:113-160 | `pages_scraped` never exceeds `max_pages`, counts the saved pages and never exceeds the newly visited URLs; every navigation goes to a URL not visited before, the start URL or a link found on a page loaded earlier; a page counts only when it loaded and saved; the start URL is visited when the budget is positive; if the loop stops under budget, every link found was visited |
| ScrapeSelenium.Crawl | scrape_selenium.py:124-157 | the same facts for the loop over any link function |
| ScrapeSelenium.Pass | scrape_selenium.py:129-157 | one pass keeps the loop invariant and shrinks either the unvisited universe or the worklist |
| ScrapeSelenium.NewEachDistinct | scrape_selenium.py:131-134 | no URL is navigated to twice, nor one visited before the crawl |
| ScrapeSelenium.ChainedOnHost | scrape_selenium.py:151-152 | every navigation after the start is to a non-empty, fragment-free URL on the start URL's host |
| ScraperJs.SameOrigin | scraper.js:73-78 | the collected links are no more than the anchors, and each starts with the page origin |
| ScraperJs.SameOriginMember | scraper.js:73-78 | an anchor is collected exactly when it starts with the page origin |
| ScraperJs.SameOriginLookalike | scraper.js:75 | the prefix test also collects a host that only starts like the origin |
| ScraperJs.Dedup | scraper.js:111 | `[...new Set(links)]` has no duplicates and the same members |
| ScraperJs.DedupOrder | scraper.js:111 | the deduplicated links keep the order of their first occurrences |
| ScraperJs.DedupDistinct | scraper.js:111 | a list without duplicates is left as it is |
| ScraperJs.Candidates | scraper.js:111-112 | at most 10 distinct links, each a collected same-origin anchor |
| ScraperJs.CandidatesComplete | scraper.js:111-112 | when there are at most 10 distinct same-origin anchors, every one of them is tried |
| ScraperJs.CandidatesPrefix | scraper.js:111-112 | the candidates are the first min(10, n) of the n distinct same-origin anchors, in first-occurrence order |
| ScraperJs.CandidatesEarlier | scraper.js:111-112 | a same-origin anchor that first occurs before a candidate is a candidate too, so no later link displaces an earlier one |
| ScraperJs.PageFile | scraper.js:118 | the file name ends in `.html` |
| ScraperJs.PageFileInverse | scraper.js:118 | dropping `.html` gives the pathname back, or the pathname without its one trailing '/' |
| ScraperJs.PageFileTrailingSlash | scraper.js:118 | `/x` and `/x/` both give `/x.html` |
| ScraperJs.PageFileOneSlash | scraper.js:118 | only one trailing '/' is removed: `/a//` gives `/a/.html` |
| ScraperJs.DownloadAssets | scraper.js:93-108 | assets are tried in order, each written at its URL's pathname with `downloadFile`'s boolean recorded; all are tried exactly when every URL parses, and the first that does not stops the run |
| ScraperJs.CaptureLink | scraper.js:113-124 | a link is saved exactly when its pathname parses, is not "/", has no '.', and the capture succeeds; the file is the `.html` name of the pathname |
| ScraperJs.CaptureLinks | scraper.js:112-125 | every candidate link is tried on its own, in order, whatever became of the others |
| ScraperJs.Scrape | scraper.js:93-131 | the run completes exactly when every asset URL's pathname parses; assets are tried in order, each written at its pathname with `downloadFile`'s boolean recorded, and all of them when the run completes; a completed run tries every candidate link, in order and each on its own; an aborted run saves no page; at most 10 pages |
| ScraperJs.ScrapeTriesEveryAsset | scraper.js:93-108 | when every asset URL parses, the run completes and tries each stylesheet, script and image in order, whatever `downloadFile` returns |
| ScraperJs.ScrapeSavedPage | scraper.js:73-124 | a saved page comes from a same-origin anchor whose pathname is a page, and is saved under its `.html` name |
| Server.RouteMapFlattened | server.js:11-17 | every `routeMap` value is its key with the leading '/' dropped, the inner '/' turned into '-' and `.html` appended |
| Server.FlattenedIsSoupFile | server.js:11-17 | every flattened route serves the very file the flattening crawler saves for that path |
| Server.RouteMapDisjoint | server.js:11-24 | no request path matches two `routeMap` keys |
| Server.MatchesOwnPath | server.js:20-21 | a route matches its own path in any letter case, with or without a trailing '/' |
| Server.FirstRoute | server.js:20-24 | the handler that answers is the first registered route that matches, if any |
| Server.Fallback | server.js:27-37 | the file sent is the path, the path + `.html` or `index.html`; the path itself is sent only when it exists and is a regular file, and an existing regular file always wins; otherwise an existing path + `.html` wins over the home page; the home page is sent only when path + `.html` does not exist (unless the path itself names the home page) |
| Server.Serve | server.js:8-37 | static hits are answered by the static middleware; a GET that the static middleware passes on and that matches a route gets the first matching route's file; every other request, of any method, is answered by the fallback for its path; every file sent is under `public` |
| Server.RouteServed | server.js:20-27 | a GET matching a `routeMap` key is sent its mapped file, whatever the disk holds |
| Server.CapturedPageServed | server.js:32-33 | a page the Puppeteer scraper saved for `/x` is found by the fallback's `.html` step |
| Server.TrailingSlashMissesPage | server.js:28-35 | for `/x/` the fallback looks for `x/.html`, not the `x.html` the scraper wrote, and sends the home page |
| ContactApi.FromText | netlify/functions/api.ts:19-22 | a form string is falsy exactly when it is empty, and is shown as it is |
| ContactApi.OrDefault | netlify/functions/api.ts:72 | a truthy value is shown as it is, a falsy one is replaced by the default |
| ContactApi.Shown | netlify/functions/api.ts:64-76 | the five values interpolated, in order: first name, last name, phone, email or `Not provided`, message or `No message provided` |
| ContactApi.Interpolate | netlify/functions/api.ts:88-99 | a template literal starts with its first constant part and ends with its last |
| ContactApi.InterpolateLength | netlify/functions/api.ts:88-99 | nothing is inserted or escaped: the result is exactly as long as the parts and values together |
| ContactApi.Offset | netlify/functions/api.ts:88-99 | the `k`-th value starts after exactly the parts and values before it |
| ContactApi.InterpolateHole | netlify/functions/api.ts:88-99 | in a template literal, each value appears verbatim right after its literal part |
| ContactApi.OffsetsOrdered | netlify/functions/api.ts:88-99 | the values appear in order, each part and value following the previous |
| ContactApi.ApiTextLabels | netlify/functions/api.ts:92-95 | the text body puts the names after `Name: `, separated by one space, then the phone, email and message after their labels |
| ContactApi.Subject | netlify/functions/api.ts:105 | the subject starts with `New Contact Form Submission from ` and has room for exactly both names and one space |
| ContactApi.SubjectNames | netlify/functions/api.ts:105 | when the first name has no space, both names can be read back from the subject |
| ContactApi.SubjectNameAmbiguous | netlify/functions/api.ts:105 | different name splits can give the same subject |
| ContactApi.ComposeShowsField | netlify/functions/api.ts:64-95 | each of the five values appears verbatim after its label, in both the text and the HTML body |
| ContactApi.Contact | netlify/functions/api.ts:17-117 | 400 with no mail exactly when a required field is falsy; otherwise the composed mail is sent; success and 200 exactly when sending succeeds, 500 and the fixed apology message exactly when it fails |
| ContactApi.ContactDefaults | netlify/functions/api.ts:72-76 | with the optional fields empty, a mail is still sent, with the two defaults |

## Left out

- Network, browser and disk effects (`urlopen`, the `requests` session, the Selenium driver, Puppeteer, axios, `writeFileSync`, `makedirs`) are oracles given as parameters; `save_page`'s own failures are the oracle's answer.
- `time.sleep` is not modelled, except the retry pauses of `download_page`, which are kept as data.
- HTML parsing (`HTMLParser`, BeautifulSoup with lxml, the DOM queries in `page.evaluate`) is replaced by the sequence of start tags or `href` values it yields.
- `Text.Lower` lowers ASCII letters only; Python's full Unicode case mapping is not modelled.
- `Urls.Split` does not model `urlsplit`'s stripping of control characters, its IPv6 bracket checks or its port validation.
- ScrapeRecursive.HandleStartTag: its own contract only bounds each addition to one entry; the classification is stated by `HandleStartTagClassifies`.
- ScrapeRecursive.NormalizeUrl: its own contract covers the None and fragment cases; the domain filter is stated by `NormalizeSameDomain` and `NormalizeSameScheme`.
- The exception handlers of `scrape_page` (scrape_recursive.py:141-165) and `extract_links` (scrape_soup.py:97-117) are not modelled. What they catch is `urlsplit`'s `ValueError` for a malformed bracketed host such as `http://[x`, one of the checks `Urls.Split` leaves out (above). In `scrape_page` it can come from `normalize_url` (lines 148 and 156) or from a nested call's `get_local_path` (line 131), and it skips everything after it on that page: the remaining links and every asset in the links loop, the remaining assets in the assets loop. In `extract_links` it drops the anchors after the bad one. The model assumes no link raises, so `ScrapeLinks`, `ScrapeAssets` and `ExtractLinks` always run to the end of their lists.
- The Python set iteration order in `scrape_recursive` is an oracle (`Site.order`), required only to list exactly the set's members; repeats are allowed, and a repeated link is skipped as already visited.
- ScrapeSoup.ExtractLinks: its contract is stated by `ExtractLinksMember` and `ExtractLinksFiltered`, not on the function.
- ScrapeSelenium.GetInternalLinks: its contract is stated by `GetInternalLinksMember` and `GetInternalLinksFiltered`, not on the function.
- ScrapeSelenium.ScrapeWebsite: requires a finite set of URLs closed under the links found. A page that loads but whose `save_page` reports failure still adds its links and does not use up the budget (scrape_selenium.py:146-153), so on an unbounded site the loop need not stop at `max_pages`; which element `pop` takes is left open, so the contract holds for every choice.
- ScrapeSelenium.Crawl: carries the same finite, link-closed set of URLs as `ScrapeWebsite`, for the same reason.
- ScrapeSelenium.Pass: carries the same finite, link-closed set of URLs; it is what makes each pass shrink a finite measure.
- The per-anchor and per-visit exception handlers of `scrape_selenium.py` are covered by the browser oracle: a navigation that raises is recorded as not loaded and the loop goes on.
- `express.static`'s own lookup (server.js:8) is an oracle (`assets`); `path.join`'s normalisation of `..` and duplicate slashes is not modelled.
- Server.Serve: requests other than GET and HEAD are collapsed into one flag; the routes answer only GET.
- The WHATWG URL parser used by `new URL(...).pathname` in `scraper.js` is an oracle (`Env.pathname`, None when it throws).
- The `index.html` save at scraper.js:89 and the joining with `OUTPUT_DIR` are not modelled; assets and pages record the pathname they are written under.
- Rendering of arbitrary JavaScript values in the template literals of `api.ts` is abstracted as `Value` (whether it is truthy, and its text).
- The Express and serverless wiring of `api.ts` (the `Router` used at line 12, body parsing, `/hello`), environment variables, the SMTP port parse and the nodemailer transport are not modelled; `sendMail` is the `send` oracle.
- ContactApi.Compose: its own contract fixes only the subject; the bodies are stated by `ComposeShowsField` and `ApiTextLabels`.
- `scraper-advanced.js`, `replace_map.py` and `update_map.py` are not part of this model.
