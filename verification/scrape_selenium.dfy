/** `scrape_selenium.py`: the directory-keeping URL-to-file mapping, the
    same-host link filter, and the worklist crawler bounded by a page budget.
    The browser is an oracle: whether navigating to a URL succeeds, whether
    saving its page succeeds, and the `href` of each anchor on it.
 */
module ScrapeSelenium {
  import opened Text
  import opened Urls
  import opened UrlLaws
  import opened Optional

  // ---------------------------------------------------------------- get_local_filename

  /** `get_local_filename` on a path: strip '/' from both ends; nothing left is the home page;
      a last segment without '.' is a page and gets `.html`, keeping its directories; anything
      else is kept as it is. */
  function PageFilename(path: string): (r: string)
    ensures r != [] && r[0] != '/'
    ensures Strip(path, '/') == [] ==> r == "index.html"
  {
    var p := Strip(path, '/');
    if p == [] then "index.html"
    else if '.' !in BaseName(p) then p + ".html"
    else p
  }

  /** `get_local_filename(url, base_url)`: the mapping applied to `urlparse(url).path`. */
  function GetLocalFilename(url: string, baseUrl: string): (r: string)
    ensures r != [] && r[0] != '/'
  {
    PageFilename(ParsedPath(url))
  }

  /** Only the parsed path is consulted: URLs that differ only in query or fragment are saved
      to the same file. */
  lemma GetLocalFilenameIgnoresQuery(p: Parts, query: string, fragment: string, baseUrl: string)
    requires Absolute(p) && '#' !in query
    ensures GetLocalFilename(Unsplit(p), baseUrl) ==
            GetLocalFilename(Unsplit(p.(query := query, fragment := fragment)), baseUrl)
  {
    SplitUnsplit(p);
    SplitUnsplit(p.(query := query, fragment := fragment));
  }

  /** A page's file is its stripped path with `.html` after it: dropping the suffix gives the
      path back, directories included. */
  lemma PageFilenameKeepsPath(path: string)
    requires Strip(path, '/') != [] && '.' !in BaseName(Strip(path, '/'))
    ensures EndsWith(PageFilename(path), ".html")
    ensures PageFilename(path)[..|PageFilename(path)| - 5] == Strip(path, '/')
  {
    var p := Strip(path, '/');
    assert PageFilename(path) == p + ".html";
    assert (p + ".html")[|p|..] == ".html";
    assert (p + ".html")[..|p|] == p;
  }

  /** A path whose last segment has an extension is kept verbatim, minus its leading '/'. */
  lemma PageFilenameAsset(x: string)
    requires x != [] && x[0] != '/' && x[|x| - 1] != '/'
    requires '.' in BaseName(x)
    ensures PageFilename("/" + x) == x
  {
    StripOne(x, '/');
  }

  /** A trailing '/' does not change the file. */
  lemma PageFilenameTrailingSlash(path: string)
    ensures PageFilename(path + "/") == PageFilename(path)
  {
    StripTrailing(path, '/');
  }

  /** Nested pages stay nested: `/x/y` is saved as `x/y.html`. */
  lemma PageFilenameNested(x: string, y: string)
    requires x != [] && y != []
    requires x[0] != '/' && '/' !in y && '.' !in y
    ensures PageFilename("/" + x + "/" + y) == x + "/" + y + ".html"
  {
    var p := x + "/" + y;
    assert "/" + x + "/" + y == [ '/' ] + p;
    assert p[0] == x[0] && p[|p| - 1] == y[|y| - 1];
    StripOne(p, '/');
    BaseNameAfterSlash(x, y);
  }

  // ---------------------------------------------------------------- get_internal_links

  /** What one anchor contributes: nothing when its `href` is missing or empty, or when
      `urljoin(base_url, href)` is on another host; otherwise that URL cut at its first '#',
      unless nothing is left. The host test is made before the fragment is cut. */
  function InternalLink(baseUrl: string, href: Option<string>): (r: Option<string>)
    ensures r.Some? ==> r.value != [] && '#' !in r.value
  {
    if href.None? || href.value == [] then None
    else
      var absolute := Resolve(baseUrl, href.value);
      if Split(absolute).netloc != Split(baseUrl).netloc then None
      else
        var u := BeforeFirst(absolute, '#');
        if u == [] then None else Some(u)
  }

  /** `get_internal_links(driver, base_url)` on the `href` of every anchor of the page. */
  function GetInternalLinks(hrefs: seq<Option<string>>, baseUrl: string): set<string> {
    Gather(hrefs, h => InternalLink(baseUrl, h))
  }

  /** The loop of `get_internal_links`: add what `f` gives for each element, when it gives one. */
  function Gather(xs: seq<Option<string>>, f: Option<string> -> Option<string>): set<string> {
    if |xs| == 0 then {}
    else
      var rest := Gather(xs[1..], f);
      if f(xs[0]).Some? then rest + {f(xs[0]).value} else rest
  }

  lemma {:induction false} GatherMember(xs: seq<Option<string>>, f: Option<string> -> Option<string>, u: string)
    ensures u in Gather(xs, f) <==> exists k :: 0 <= k < |xs| && f(xs[k]) == Some(u)
  {
    if |xs| > 0 {
      GatherMember(xs[1..], f, u);
      if u in Gather(xs[1..], f) {
        var k :| 0 <= k < |xs| - 1 && f(xs[1..][k]) == Some(u);
        assert xs[k + 1] == xs[1..][k];
      }
      if exists k :: 0 <= k < |xs| && f(xs[k]) == Some(u) {
        var k :| 0 <= k < |xs| && f(xs[k]) == Some(u);
        if k > 0 {
          assert xs[1..][k - 1] == xs[k];
        }
      }
    }
  }

  /** The links are exactly what some anchor contributes. */
  lemma GetInternalLinksMember(hrefs: seq<Option<string>>, baseUrl: string, u: string)
    ensures u in GetInternalLinks(hrefs, baseUrl) <==>
      exists k :: 0 <= k < |hrefs| && InternalLink(baseUrl, hrefs[k]) == Some(u)
  {
    var f := h => InternalLink(baseUrl, h);
    GatherMember(hrefs, f, u);
    if u in GetInternalLinks(hrefs, baseUrl) {
      var k :| 0 <= k < |hrefs| && f(hrefs[k]) == Some(u);
      assert InternalLink(baseUrl, hrefs[k]) == Some(u);
    }
    if exists k :: 0 <= k < |hrefs| && InternalLink(baseUrl, hrefs[k]) == Some(u) {
      var k :| 0 <= k < |hrefs| && InternalLink(baseUrl, hrefs[k]) == Some(u);
      assert f(hrefs[k]) == Some(u);
    }
  }

  /** What an anchor contributes is on the base's host: cutting the fragment after the host
      test keeps the host. */
  lemma InternalLinkHost(baseUrl: string, href: Option<string>)
    requires InternalLink(baseUrl, href).Some?
    ensures Split(InternalLink(baseUrl, href).value).netloc == Split(baseUrl).netloc
  {
    SplitBeforeFragment(Resolve(baseUrl, href.value));
  }

  /** Every link found is non-empty, fragment-free and on the base's host. */
  lemma GetInternalLinksFiltered(hrefs: seq<Option<string>>, baseUrl: string, u: string)
    requires u in GetInternalLinks(hrefs, baseUrl)
    ensures u != [] && '#' !in u && Split(u).netloc == Split(baseUrl).netloc
  {
    GetInternalLinksMember(hrefs, baseUrl, u);
    var k :| 0 <= k < |hrefs| && InternalLink(baseUrl, hrefs[k]) == Some(u);
    InternalLinkHost(baseUrl, hrefs[k]);
  }

  /** Every non-empty relative `href` on a page of an http(s) site is found, cut at its '#'. */
  lemma GetInternalLinksRelative(hrefs: seq<Option<string>>, baseUrl: string, k: int)
    requires HttpBase(baseUrl) && 0 <= k < |hrefs| && hrefs[k].Some? && hrefs[k].value != []
    requires Split(hrefs[k].value).scheme == [] && Split(hrefs[k].value).netloc == []
    ensures BeforeFirst(Resolve(baseUrl, hrefs[k].value), '#') in GetInternalLinks(hrefs, baseUrl)
  {
    var u := BeforeFirst(Resolve(baseUrl, hrefs[k].value), '#');
    RelativeInternal(baseUrl, hrefs[k].value);
    GetInternalLinksMember(hrefs, baseUrl, u);
  }

  lemma RelativeInternal(baseUrl: string, href: string)
    requires HttpBase(baseUrl) && href != []
    requires Split(href).scheme == [] && Split(href).netloc == []
    ensures InternalLink(baseUrl, Some(href)) == Some(BeforeFirst(Resolve(baseUrl, href), '#'))
  {
    ResolveHost(baseUrl, href);
    SameHostInternal(baseUrl, href);
  }

  lemma SameHostInternal(baseUrl: string, href: string)
    requires href != [] && Split(baseUrl).netloc != []
    requires Split(Resolve(baseUrl, href)).netloc == Split(baseUrl).netloc
    ensures InternalLink(baseUrl, Some(href)) == Some(BeforeFirst(Resolve(baseUrl, href), '#'))
  {
    var u := BeforeFirst(Resolve(baseUrl, href), '#');
    SplitBeforeFragment(Resolve(baseUrl, href));
    HostNonEmpty(u);
  }

  /** A URL with a host is not empty. */
  lemma HostNonEmpty(u: string)
    requires Split(u).netloc != []
    ensures u != []
  {
    EmptyHostless();
  }

  lemma EmptyHostless()
    ensures Split([]).netloc == []
  {
  }

  // ---------------------------------------------------------------- scrape_website

  /** The browser as the crawler sees it: whether `driver.get(url)` returns without raising,
      whether `save_page` then reports success, and the `href` of each anchor of the page. */
  datatype Browser = Browser(loads: string -> bool, saves: string -> bool,
                             anchors: string -> seq<Option<string>>)

  /** One pass of the loop body for a URL not yet visited. */
  datatype Navigation = Navigation(url: string, loaded: bool, saved: bool)

  /** `get_internal_links(driver, start_url)` once the browser shows a page. The loop itself
      needs nothing about these links, so the definitions below take any `links`. */
  function LinksOf(browser: Browser, startUrl: string): string -> set<string> {
    url => GetInternalLinks(browser.anchors(url), startUrl)
  }

  /** A set of URLs the crawl cannot leave: the links found on any of them are among them. */
  ghost predicate Closed(links: string -> set<string>, universe: set<string>) {
    forall u :: u in universe ==> links(u) <= universe
  }

  /** The URLs navigated to. */
  function Visits(log: seq<Navigation>): set<string> {
    if |log| == 0 then {} else Visits(log[..|log| - 1]) + {log[|log| - 1].url}
  }

  /** How many pages were saved: `pages_scraped`. */
  function SavedCount(log: seq<Navigation>): (n: nat)
    ensures n <= |log|
  {
    if |log| == 0 then 0 else SavedCount(log[..|log| - 1]) + (if log[|log| - 1].saved then 1 else 0)
  }

  /** Every link found on a page that loaded. */
  function FoundOn(links: string -> set<string>, log: seq<Navigation>): set<string> {
    if |log| == 0 then {}
    else
      var last := log[|log| - 1];
      FoundOn(links, log[..|log| - 1]) + (if last.loaded then links(last.url) else {})
  }

  /** Each navigation goes to a URL visited neither before the crawl nor earlier in it. */
  predicate NewEach(log: seq<Navigation>, visited0: set<string>) {
    |log| == 0 ||
    (NewEach(log[..|log| - 1], visited0) && log[|log| - 1].url !in visited0 + Visits(log[..|log| - 1]))
  }

  /** Each navigation goes to the start URL or to a link found on a page loaded before it. */
  predicate Chained(links: string -> set<string>, startUrl: string, log: seq<Navigation>) {
    |log| == 0 ||
    (Chained(links, startUrl, log[..|log| - 1]) &&
     log[|log| - 1].url in {startUrl} + FoundOn(links, log[..|log| - 1]))
  }

  /** A page is saved only when it loaded, and the record agrees with the browser. */
  predicate Faithful(browser: Browser, log: seq<Navigation>) {
    forall k :: 0 <= k < |log| ==>
      log[k].loaded == browser.loads(log[k].url) &&
      log[k].saved == (log[k].loaded && browser.saves(log[k].url))
  }

  /** What holds before each pass of the loop: the budget is respected, the record agrees with
      the browser, navigations are new and reached from the start, and every link found so far
      is either visited or still to visit. */
  predicate Crawling(browser: Browser, links: string -> set<string>, startUrl: string, maxPages: nat,
                     visited0: set<string>, universe: set<string>, visited: set<string>,
                     log: seq<Navigation>, pagesScraped: nat, toVisit: set<string>) {
    && toVisit <= universe
    && pagesScraped <= maxPages && pagesScraped == SavedCount(log)
    && visited == visited0 + Visits(log) && |visited| == |visited0| + |log|
    && NewEach(log, visited0) && Faithful(browser, log) && Chained(links, startUrl, log)
    && toVisit <= {startUrl} + FoundOn(links, log)
    && FoundOn(links, log) <= visited + toVisit
    && startUrl in visited + toVisit
    && (log == [] || startUrl in visited)
    && (pagesScraped > 0 ==> log != [])
  }

  /** `scrape_website(start_url, max_pages)` with `VISITED_URLS` initially `visited0`: the loop
      below with the links `get_internal_links` finds. Every URL the crawl can reach must lie in
      some finite `universe`, or the loop need not end. */
  method ScrapeWebsite(browser: Browser, startUrl: string, maxPages: nat, visited0: set<string>,
                       ghost universe: set<string>)
    returns (visited: set<string>, log: seq<Navigation>, pagesScraped: nat)
    requires startUrl in universe && Closed(LinksOf(browser, startUrl), universe)
    ensures pagesScraped <= maxPages && pagesScraped == SavedCount(log)
    ensures pagesScraped <= |visited| - |visited0|
    ensures visited == visited0 + Visits(log) && |visited| == |visited0| + |log|
    ensures NewEach(log, visited0) && Faithful(browser, log) && Chained(LinksOf(browser, startUrl), startUrl, log)
    ensures maxPages > 0 ==> startUrl in visited
    ensures pagesScraped < maxPages ==> FoundOn(LinksOf(browser, startUrl), log) <= visited
  {
    visited, log, pagesScraped := Crawl(browser, LinksOf(browser, startUrl), startUrl, maxPages, visited0, universe);
  }

  /** The loop of `scrape_website`, with `links(url)` the links found on the page at `url`. It
      takes an arbitrary URL from `to_visit` (Python's `set.pop`), skips it if it was visited,
      and otherwise marks it visited before navigating; a page that fails to load is recorded and
      the loop goes on. It stops when `to_visit` is empty or `max_pages` pages were saved. */
  method Crawl(browser: Browser, links: string -> set<string>, startUrl: string, maxPages: nat,
               visited0: set<string>, ghost universe: set<string>)
    returns (visited: set<string>, log: seq<Navigation>, pagesScraped: nat)
    requires startUrl in universe && Closed(links, universe)
    ensures pagesScraped <= maxPages && pagesScraped == SavedCount(log)
    ensures visited == visited0 + Visits(log) && |visited| == |visited0| + |log|
    ensures NewEach(log, visited0) && Faithful(browser, log) && Chained(links, startUrl, log)
    ensures maxPages > 0 ==> startUrl in visited
    ensures pagesScraped < maxPages ==> FoundOn(links, log) <= visited
  {
    visited, log, pagesScraped := visited0, [], 0;
    var toVisit := {startUrl};
    while toVisit != {} && pagesScraped < maxPages
      invariant Crawling(browser, links, startUrl, maxPages, visited0, universe, visited, log, pagesScraped, toVisit)
      decreases |universe - visited|, |toVisit|
    {
      ghost var before, pending := visited, toVisit;
      visited, log, pagesScraped, toVisit :=
        Pass(browser, links, startUrl, maxPages, visited0, universe, visited, log, pagesScraped, toVisit);
      assert |universe - visited| < |universe - before| ||
        (visited == before && |toVisit| < |pending|);
    }
  }

  /** One pass of the loop body: pop a URL; skip it if visited; otherwise mark it visited,
      navigate, save the page and queue the links found that are not yet visited. */
  method Pass(browser: Browser, links: string -> set<string>, startUrl: string, maxPages: nat,
              visited0: set<string>, ghost universe: set<string>, visited: set<string>,
              log: seq<Navigation>, pagesScraped: nat, toVisit: set<string>)
    returns (visited': set<string>, log': seq<Navigation>, pagesScraped': nat, toVisit': set<string>)
    requires Closed(links, universe)
    requires Crawling(browser, links, startUrl, maxPages, visited0, universe, visited, log, pagesScraped, toVisit)
    requires toVisit != {} && pagesScraped < maxPages
    ensures Crawling(browser, links, startUrl, maxPages, visited0, universe, visited', log', pagesScraped', toVisit')
    ensures |universe - visited'| < |universe - visited| || (visited' == visited && |toVisit'| < |toVisit|)
  {
    var url :| url in toVisit;
    if url in visited {
      SkipStep(browser, links, startUrl, maxPages, visited0, universe, visited, log, pagesScraped, toVisit, url);
      return visited, log, pagesScraped, toVisit - {url};
    }
    var loaded := browser.loads(url);
    var saved := loaded && browser.saves(url);
    var found := if loaded then links(url) else {};
    VisitStep(browser, links, startUrl, maxPages, visited0, universe, visited, log, pagesScraped, toVisit, url);
    Shrinks(universe, visited, url);
    visited' := visited + {url};
    pagesScraped' := if saved then pagesScraped + 1 else pagesScraped;
    toVisit' := (toVisit - {url}) + (found - visited');
    log' := log + [Navigation(url, loaded, saved)];
  }

  /** Popping a URL that was visited already changes nothing else. */
  lemma SkipStep(browser: Browser, links: string -> set<string>, startUrl: string, maxPages: nat,
                 visited0: set<string>, universe: set<string>, visited: set<string>,
                 log: seq<Navigation>, pagesScraped: nat, toVisit: set<string>, url: string)
    requires Crawling(browser, links, startUrl, maxPages, visited0, universe, visited, log, pagesScraped, toVisit)
    requires url in toVisit && url in visited
    ensures Crawling(browser, links, startUrl, maxPages, visited0, universe, visited, log, pagesScraped, toVisit - {url})
    ensures |toVisit - {url}| < |toVisit|
  {
    Popped(toVisit, visited, FoundOn(links, log), url, startUrl);
  }

  lemma Popped(toVisit: set<string>, visited: set<string>, earlier: set<string>, url: string, startUrl: string)
    requires earlier <= visited + toVisit && startUrl in visited + toVisit && url in visited
    ensures earlier <= visited + (toVisit - {url}) && startUrl in visited + (toVisit - {url})
  {
  }

  /** One pass of the loop for a URL not yet visited keeps `Crawling`. */
  lemma VisitStep(browser: Browser, links: string -> set<string>, startUrl: string, maxPages: nat,
                  visited0: set<string>, universe: set<string>, visited: set<string>,
                  log: seq<Navigation>, pagesScraped: nat, toVisit: set<string>, url: string)
    requires Crawling(browser, links, startUrl, maxPages, visited0, universe, visited, log, pagesScraped, toVisit)
    requires url in toVisit && url !in visited && pagesScraped < maxPages
    requires browser.loads(url) ==> links(url) <= universe
    ensures
      var loaded := browser.loads(url);
      var saved := loaded && browser.saves(url);
      var found := if loaded then links(url) else {};
      Crawling(browser, links, startUrl, maxPages, visited0, universe, visited + {url},
               log + [Navigation(url, loaded, saved)], pagesScraped + (if saved then 1 else 0),
               (toVisit - {url}) + (found - (visited + {url})))
  {
    var loaded := browser.loads(url);
    var saved := loaded && browser.saves(url);
    var found := if loaded then links(url) else {};
    var n := Navigation(url, loaded, saved);
    Appended(links, startUrl, visited0, log, n);
    FaithfulAppend(browser, log, n);
    WorklistSets(toVisit, visited, FoundOn(links, log), found, url, startUrl);
    Within(toVisit, found, visited + {url}, universe, url);
    UnionOne(visited0, Visits(log), url);
    if log == [] {
      assert FoundOn(links, log) == {};
    }
  }

  /** Set algebra of one pass: popping `url`, marking it visited and adding the new links found
      (`found`) to the links found before (`earlier`) keeps the worklist relations. */
  lemma WorklistSets(toVisit: set<string>, visited: set<string>, earlier: set<string>, found: set<string>,
                 url: string, startUrl: string)
    requires toVisit <= {startUrl} + earlier && earlier <= visited + toVisit
    requires startUrl in visited + toVisit && url in toVisit && url !in visited
    ensures
      var toVisit' := (toVisit - {url}) + (found - (visited + {url}));
      && toVisit' <= {startUrl} + (earlier + found)
      && earlier + found <= (visited + {url}) + toVisit'
      && startUrl in (visited + {url}) + toVisit'
      && url in {startUrl} + earlier
  {
  }

  lemma Within(toVisit: set<string>, found: set<string>, visited: set<string>, universe: set<string>, url: string)
    requires toVisit <= universe && found <= universe
    ensures (toVisit - {url}) + (found - visited) <= universe
  {
  }

  lemma UnionOne(a: set<string>, b: set<string>, x: string)
    ensures (a + b) + {x} == a + (b + {x})
  {
  }

  lemma FaithfulAppend(browser: Browser, log: seq<Navigation>, n: Navigation)
    requires Faithful(browser, log)
    requires n.loaded == browser.loads(n.url) && n.saved == (n.loaded && browser.saves(n.url))
    ensures Faithful(browser, log + [n])
  {
    forall k | 0 <= k < |log + [n]|
      ensures (log + [n])[k] == if k < |log| then log[k] else n
    {
    }
  }

  /** The recursive summaries of a log extended by one navigation. */
  lemma Appended(links: string -> set<string>, startUrl: string, visited0: set<string>,
                 log: seq<Navigation>, n: Navigation)
    ensures Visits(log + [n]) == Visits(log) + {n.url}
    ensures SavedCount(log + [n]) == SavedCount(log) + (if n.saved then 1 else 0)
    ensures FoundOn(links, log + [n]) == FoundOn(links, log) + (if n.loaded then links(n.url) else {})
    ensures NewEach(log + [n], visited0) == (NewEach(log, visited0) && n.url !in visited0 + Visits(log))
    ensures Chained(links, startUrl, log + [n]) ==
      (Chained(links, startUrl, log) && n.url in {startUrl} + FoundOn(links, log))
  {
    assert (log + [n])[..|log|] == log;
  }

  /** Visiting a URL of the universe leaves fewer of it unvisited. */
  lemma Shrinks(universe: set<string>, visited: set<string>, url: string)
    requires url in universe && url !in visited
    ensures |universe - (visited + {url})| < |universe - visited|
  {
    assert (universe - (visited + {url})) + {url} == universe - visited;
  }

  // ---------------------------------------------------------------- what a finished crawl means

  /** No URL is navigated to twice, nor one visited before the crawl. */
  lemma {:induction false} NewEachDistinct(log: seq<Navigation>, visited0: set<string>)
    requires NewEach(log, visited0)
    ensures forall k :: 0 <= k < |log| ==> log[k].url !in visited0
    ensures forall i, j :: 0 <= i < j < |log| ==> log[i].url != log[j].url
  {
    if |log| > 0 {
      var init := log[..|log| - 1];
      NewEachDistinct(init, visited0);
      VisitsMember(init);
      forall k | 0 <= k < |log| - 1
        ensures log[k] == init[k]
      {
      }
    }
  }

  lemma {:induction false} VisitsMember(log: seq<Navigation>)
    ensures forall k :: 0 <= k < |log| ==> log[k].url in Visits(log)
  {
    if |log| > 0 {
      var init := log[..|log| - 1];
      VisitsMember(init);
      forall k | 0 <= k < |log| - 1
        ensures log[k] == init[k]
      {
      }
    }
  }

  /** The first navigation, if any, is to the start URL. */
  lemma {:induction false} ChainedStart(links: string -> set<string>, startUrl: string, log: seq<Navigation>)
    requires Chained(links, startUrl, log) && log != []
    ensures log[0].url == startUrl
  {
    if |log| == 1 {
      assert log[..0] == [];
      assert FoundOn(links, log[..0]) == {};
    } else {
      var init := log[..|log| - 1];
      ChainedStart(links, startUrl, init);
      assert init[0] == log[0];
    }
  }

  /** A link found during the crawl was found on a page that loaded. */
  lemma {:induction false} FoundOnMember(links: string -> set<string>, log: seq<Navigation>, u: string)
    requires u in FoundOn(links, log)
    ensures exists k :: 0 <= k < |log| && log[k].loaded && u in links(log[k].url)
  {
    var init := log[..|log| - 1];
    var last := log[|log| - 1];
    if u in FoundOn(links, init) {
      FoundOnMember(links, init, u);
      var k :| 0 <= k < |init| && init[k].loaded && u in links(init[k].url);
      assert log[k] == init[k];
    } else {
      assert last.loaded && u in links(last.url);
    }
  }

  /** Every URL the crawl navigates to, the start apart, is a link found during the crawl. */
  lemma {:induction false} ChainedFound(links: string -> set<string>, startUrl: string, log: seq<Navigation>)
    requires Chained(links, startUrl, log)
    ensures forall k :: 0 <= k < |log| ==> log[k].url == startUrl || log[k].url in FoundOn(links, log)
  {
    if |log| > 0 {
      var init := log[..|log| - 1];
      ChainedFound(links, startUrl, init);
      forall k | 0 <= k < |log| - 1
        ensures log[k] == init[k]
      {
      }
      assert FoundOn(links, init) <= FoundOn(links, log);
    }
  }

  /** Every URL the crawl navigates to, the start apart, is a link found on a page of the start
      URL's host: non-empty, fragment-free and on that host. */
  lemma ChainedOnHost(browser: Browser, startUrl: string, log: seq<Navigation>, k: int)
    requires Chained(LinksOf(browser, startUrl), startUrl, log)
    requires 0 <= k < |log| && log[k].url != startUrl
    ensures log[k].url != [] && '#' !in log[k].url && Split(log[k].url).netloc == Split(startUrl).netloc
  {
    ChainedFound(LinksOf(browser, startUrl), startUrl, log);
    FoundOnHost(browser, startUrl, log, log[k].url);
  }

  lemma FoundOnHost(browser: Browser, startUrl: string, log: seq<Navigation>, u: string)
    requires u in FoundOn(LinksOf(browser, startUrl), log)
    ensures u != [] && '#' !in u && Split(u).netloc == Split(startUrl).netloc
  {
    FoundOnMember(LinksOf(browser, startUrl), log, u);
    var k :| 0 <= k < |log| && log[k].loaded && u in LinksOf(browser, startUrl)(log[k].url);
    GetInternalLinksFiltered(browser.anchors(log[k].url), startUrl, u);
  }
}
