/** `scrape_soup.py`: the flattening URL-to-file mapping, the download with
    retries, link extraction, and the crawler bounded both by depth and by the
    number of pages visited.
 */
module ScrapeSoup {
  import opened Text
  import opened Urls
  import opened UrlLaws
  import opened Optional
  import opened Crawl

  // ---------------------------------------------------------------- get_local_filename

  /** `get_local_filename` on a path: strip '/' from both ends; nothing left is the home page;
      a last segment without '.' is a page, flattened with '-' and given `.html`; anything else
      is kept as it is. */
  function PageFilename(path: string): (r: string)
    ensures r != [] && r[0] != '/'
    ensures Strip(path, '/') == [] ==> r == "index.html"
  {
    var p := Strip(path, '/');
    if p == [] then "index.html"
    else if '.' !in BaseName(p) then ReplaceChar(p, '/', '-') + ".html"
    else p
  }

  /** `get_local_filename(url, base_url)`: the mapping applied to `urlparse(url).path`. */
  function GetLocalFilename(url: string, baseUrl: string): (r: string)
    ensures r != [] && r[0] != '/'
  {
    PageFilename(ParsedPath(url))
  }

  /** Only the parsed path is consulted: URLs that differ only in query or fragment are saved
      to the same file. */
  lemma GetLocalFilenameIgnoresQuery(p: Parts, query: string, fragment: string, baseUrl: string)
    requires Absolute(p) && '#' !in query
    ensures GetLocalFilename(Unsplit(p), baseUrl) ==
            GetLocalFilename(Unsplit(p.(query := query, fragment := fragment)), baseUrl)
  {
    SplitUnsplit(p);
    SplitUnsplit(p.(query := query, fragment := fragment));
  }

  /** A page name is flat: it holds no '/' and ends in `.html`. */
  lemma PageFilenameFlat(path: string)
    requires Strip(path, '/') != [] && '.' !in BaseName(Strip(path, '/'))
    ensures '/' !in PageFilename(path) && EndsWith(PageFilename(path), ".html")
  {
    var p := Strip(path, '/');
    var q := ReplaceChar(p, '/', '-');
    ReplaceRemoves(p, '/', '-');
    assert PageFilename(path) == q + ".html";
    HtmlName(q);
  }

  lemma HtmlName(q: string)
    requires '/' !in q
    ensures '/' !in q + ".html" && EndsWith(q + ".html", ".html")
  {
    assert (q + ".html")[|q|..] == ".html";
  }

  /** A trailing '/' does not change the file: `/services/` and `/services` are one page. */
  lemma PageFilenameTrailingSlash(path: string)
    ensures PageFilename(path + "/") == PageFilename(path)
  {
    StripTrailing(path, '/');
  }

  /** A path whose last segment has an extension is kept verbatim, minus its leading '/'. */
  lemma PageFilenameAsset(x: string)
    requires x != [] && x[0] != '/' && x[|x| - 1] != '/'
    requires '.' in BaseName(x)
    ensures PageFilename("/" + x) == x
  {
    StripOne(x, '/');
  }

  /** Flattening collides: `/x/y` and `/x-y` are saved to the same file. */
  lemma PageFilenameCollision(x: string, y: string)
    requires x != [] && y != []
    requires '/' !in x && '/' !in y && '.' !in x && '.' !in y
    ensures PageFilename("/" + x + "/" + y) == PageFilename("/" + x + "-" + y)
  {
    NestedPage(x, y);
    FlatPage(x, y);
  }

  lemma NestedPage(x: string, y: string)
    requires x != [] && y != []
    requires '/' !in x && '/' !in y && '.' !in y
    ensures PageFilename("/" + x + "/" + y) == x + "-" + y + ".html"
  {
    var nested := x + "/" + y;
    assert "/" + x + "/" + y == "/" + nested;
    assert nested[0] == x[0] && nested[|nested| - 1] == y[|y| - 1];
    BaseNameAfterSlash(x, y);
    PageFilenamePage(nested);
    ReplaceJoin(x, y);
  }

  lemma FlatPage(x: string, y: string)
    requires x != [] && y != []
    requires '/' !in x && '/' !in y && '.' !in x && '.' !in y
    ensures PageFilename("/" + x + "-" + y) == x + "-" + y + ".html"
  {
    var flat := x + "-" + y;
    assert "/" + x + "-" + y == "/" + flat;
    assert flat[0] == x[0] && flat[|flat| - 1] == y[|y| - 1];
    assert '/' !in flat && '.' !in flat;
    BaseNameFree(flat);
    PageFilenamePage(flat);
    ReplaceAbsent(flat, '/', '-');
  }

  /** A rooted page path maps to its flattened form plus `.html`. */
  lemma PageFilenamePage(x: string)
    requires x != [] && x[0] != '/' && x[|x| - 1] != '/'
    requires '.' !in BaseName(x)
    ensures PageFilename("/" + x) == ReplaceChar(x, '/', '-') + ".html"
  {
    StripOne(x, '/');
  }

  lemma ReplaceJoin(x: string, y: string)
    requires '/' !in x && '/' !in y
    ensures ReplaceChar(x + "/" + y, '/', '-') == x + "-" + y
  {
  }

  // ---------------------------------------------------------------- download_page

  /** What one `session.get` gives: a response with its status and text, or a
      `RequestException` (connection error, timeout). */
  datatype Attempt = Response(status: int, text: string) | RequestError

  /** The retry budget `max_retries`. */
  const MaxRetries: nat := 3

  /** An attempt that returns: a response that is not 403 and that `raise_for_status` lets
      through (status below 400 or from 600 on). */
  predicate Succeeds(a: Attempt) {
    a.Response? && !(400 <= a.status < 600)
  }

  /** The pause after failed attempt `j`: `(j + 1) * 2` seconds for a 403, 2 for any other failure. */
  function Pause(a: Attempt, j: nat): nat {
    if a.Response? && a.status == 403 then (j + 1) * 2 else 2
  }

  /** The result of `download_page`: the text (None for `return None`), the pauses slept between
      attempts, and how many attempts were made. */
  datatype Download = Download(text: Option<string>, pauses: seq<nat>, attempts: nat)

  /** `download_page(url)`, where `outcome(j)` is what attempt `j` of the session gives. */
  function DownloadPage(outcome: nat -> Attempt): (r: Download)
    ensures 1 <= r.attempts <= MaxRetries && |r.pauses| == r.attempts - 1
    ensures forall j :: 0 <= j < r.attempts - 1 ==> !Succeeds(outcome(j)) && r.pauses[j] == Pause(outcome(j), j)
    ensures r.text.Some? <==> Succeeds(outcome(r.attempts - 1))
    ensures r.text.Some? ==> r.text.value == outcome(r.attempts - 1).text
    ensures r.text.None? ==> r.attempts == MaxRetries
  {
    Retry(outcome, 0)
  }

  /** The `for attempt in range(max_retries)` loop from attempt `j` on. */
  function Retry(outcome: nat -> Attempt, j: nat): (r: Download)
    requires j < MaxRetries
    ensures 1 <= r.attempts <= MaxRetries - j && |r.pauses| == r.attempts - 1
    ensures forall i :: 0 <= i < r.attempts - 1 ==> !Succeeds(outcome(j + i)) && r.pauses[i] == Pause(outcome(j + i), j + i)
    ensures r.text.Some? <==> Succeeds(outcome(j + r.attempts - 1))
    ensures r.text.Some? ==> r.text.value == outcome(j + r.attempts - 1).text
    ensures r.text.None? ==> r.attempts == MaxRetries - j
    decreases MaxRetries - j
  {
    var a := outcome(j);
    if Succeeds(a) then Download(Some(a.text), [], 1)
    else if j < MaxRetries - 1 then
      var rest := Retry(outcome, j + 1);
      Download(rest.text, [Pause(a, j)] + rest.pauses, rest.attempts + 1)
    else Download(None, [], 1)
  }

  /** `download_page` gives up exactly when all three attempts fail. */
  lemma DownloadPageGivesUp(outcome: nat -> Attempt)
    ensures DownloadPage(outcome).text.None? <==> forall j :: 0 <= j < MaxRetries ==> !Succeeds(outcome(j))
  {
    var r := DownloadPage(outcome);
    if r.text.Some? {
      assert Succeeds(outcome(r.attempts - 1));
    }
  }

  /** Three 403 responses: the waits grow, 2 then 4 seconds, and nothing is returned. */
  lemma DownloadPageForbidden(outcome: nat -> Attempt)
    requires forall j :: 0 <= j < MaxRetries ==> outcome(j).Response? && outcome(j).status == 403
    ensures DownloadPage(outcome) == Download(None, [2, 4], 3)
  {
    DownloadPageGivesUp(outcome);
    var r := DownloadPage(outcome);
    assert r.pauses[0] == Pause(outcome(0), 0);
    assert r.pauses[1] == Pause(outcome(1), 1);
  }

  /** Three request errors: a fixed 2-second wait between attempts, and nothing is returned. */
  lemma DownloadPageErrors(outcome: nat -> Attempt)
    requires forall j :: 0 <= j < MaxRetries ==> outcome(j).RequestError?
    ensures DownloadPage(outcome) == Download(None, [2, 2], 3)
  {
    DownloadPageGivesUp(outcome);
    var r := DownloadPage(outcome);
    assert r.pauses[0] == Pause(outcome(0), 0);
    assert r.pauses[1] == Pause(outcome(1), 1);
  }

  // ---------------------------------------------------------------- extract_links

  /** The suffixes `extract_links` skips, matched against the lower-cased URL. */
  const SkippedSuffixes: seq<string> := [".pdf", ".zip", ".jpg", ".png", ".gif", ".css", ".js"]

  predicate Skipped(url: string) {
    exists k :: 0 <= k < |SkippedSuffixes| && EndsWith(Lower(url), SkippedSuffixes[k])
  }

  /** `urljoin(base_url, href).split('#')[0]`. */
  function Candidate(baseUrl: string, href: string): (r: string)
    ensures '#' !in r
  {
    BeforeFirst(Resolve(baseUrl, href), '#')
  }

  /** The test a candidate passes: the very same `netloc` as the base, and no skipped suffix. */
  predicate Kept(baseUrl: string, url: string) {
    Split(url).netloc == Split(baseUrl).netloc && !Skipped(url)
  }

  /** `u` is the candidate of some `href` and passes the test. */
  predicate Extracted(hrefs: seq<string>, baseUrl: string, u: string) {
    exists k :: 0 <= k < |hrefs| && u == Candidate(baseUrl, hrefs[k]) && Kept(baseUrl, u)
  }

  /** `extract_links(html, base_url)` on the `href`s of the page's anchors, in document order. */
  function ExtractLinks(hrefs: seq<string>, baseUrl: string): set<string> {
    Collect(hrefs, h => Candidate(baseUrl, h), u => Kept(baseUrl, u))
  }

  /** The loop of `extract_links`: add `candidate(h)` for each `h` whose candidate passes `keep`. */
  function Collect(hrefs: seq<string>, candidate: string -> string, keep: string -> bool): set<string> {
    if |hrefs| == 0 then {}
    else
      var rest := Collect(hrefs[1..], candidate, keep);
      var u := candidate(hrefs[0]);
      if keep(u) then rest + {u} else rest
  }

  lemma {:induction false} CollectMember(hrefs: seq<string>, candidate: string -> string, keep: string -> bool, u: string)
    ensures u in Collect(hrefs, candidate, keep) <==>
      exists k :: 0 <= k < |hrefs| && u == candidate(hrefs[k]) && keep(u)
  {
    if |hrefs| > 0 {
      CollectMember(hrefs[1..], candidate, keep, u);
      if u in Collect(hrefs[1..], candidate, keep) {
        var k :| 0 <= k < |hrefs| - 1 && u == candidate(hrefs[1..][k]) && keep(u);
        assert hrefs[k + 1] == hrefs[1..][k];
      }
      if exists k :: 0 <= k < |hrefs| && u == candidate(hrefs[k]) && keep(u) {
        var k :| 0 <= k < |hrefs| && u == candidate(hrefs[k]) && keep(u);
        if k > 0 {
          assert hrefs[1..][k - 1] == hrefs[k];
        }
      }
    }
  }

  /** The links are exactly the candidates that pass the test. */
  lemma ExtractLinksMember(hrefs: seq<string>, baseUrl: string, u: string)
    ensures u in ExtractLinks(hrefs, baseUrl) <==> Extracted(hrefs, baseUrl, u)
  {
    var candidate := h => Candidate(baseUrl, h);
    var keep := v => Kept(baseUrl, v);
    CollectMember(hrefs, candidate, keep, u);
    if u in ExtractLinks(hrefs, baseUrl) {
      var k :| 0 <= k < |hrefs| && u == candidate(hrefs[k]) && keep(u);
      assert u == Candidate(baseUrl, hrefs[k]) && Kept(baseUrl, u);
    }
    if Extracted(hrefs, baseUrl, u) {
      var k :| 0 <= k < |hrefs| && u == Candidate(baseUrl, hrefs[k]) && Kept(baseUrl, u);
      assert u == candidate(hrefs[k]) && keep(u);
    }
  }

  /** Every extracted link is fragment-free, on the base's host, and of no skipped type. */
  lemma ExtractLinksFiltered(hrefs: seq<string>, baseUrl: string, u: string)
    requires u in ExtractLinks(hrefs, baseUrl)
    ensures '#' !in u && Split(u).netloc == Split(baseUrl).netloc && !Skipped(u)
  {
    ExtractLinksMember(hrefs, baseUrl, u);
  }

  /** Every relative `href` of a page on an http(s) host is followed unless its type is skipped. */
  lemma ExtractLinksRelative(hrefs: seq<string>, baseUrl: string, k: int)
    requires HttpBase(baseUrl) && 0 <= k < |hrefs| && hrefs[k] != []
    requires Split(hrefs[k]).scheme == [] && Split(hrefs[k]).netloc == []
    requires !Skipped(Candidate(baseUrl, hrefs[k]))
    ensures Candidate(baseUrl, hrefs[k]) in ExtractLinks(hrefs, baseUrl)
  {
    assert Extracted(hrefs, baseUrl, Candidate(baseUrl, hrefs[k])) by {
      RelativeKept(baseUrl, hrefs[k]);
    }
    ExtractLinksMember(hrefs, baseUrl, Candidate(baseUrl, hrefs[k]));
  }

  lemma RelativeKept(baseUrl: string, href: string)
    requires HttpBase(baseUrl) && href != []
    requires Split(href).scheme == [] && Split(href).netloc == []
    requires !Skipped(Candidate(baseUrl, href))
    ensures Kept(baseUrl, Candidate(baseUrl, href))
  {
    var u := Resolve(baseUrl, href);
    ResolveHost(baseUrl, href);
    SplitBeforeFragment(u);
  }

  // ---------------------------------------------------------------- scrape_recursive

  /** The network, the parser and the set iteration order, as this crawler sees them:
      `outcome(url)(j)` is what attempt `j` to get `url` gives, `hrefs(html)` the `href` of every
      anchor that has one, in document order, and `order(links)` the order in which a `for` loop
      visits the members of the set `links`. */
  datatype Site = Site(outcome: string -> nat -> Attempt, hrefs: string -> seq<string>,
                       order: set<string> -> seq<string>)

  /** `xs` lists members of `s` only, and every one of them. */
  predicate Lists(xs: seq<string>, s: set<string>) {
    (forall k :: 0 <= k < |xs| ==> xs[k] in s) && (forall x :: x in s ==> x in xs)
  }

  /** Iterating a set visits exactly its members. */
  ghost predicate Enumerates(site: Site) {
    forall links: set<string> :: Lists(site.order(links), links)
  }

  /** One visited page: its URL, its depth, and whether a non-empty page was downloaded (and so
      saved to `GetLocalFilename(url)`). */
  datatype Visit = Visit(url: string, depth: nat, downloaded: bool)

  /** `VISITED_URLS` and the visits made so far, in order. */
  datatype Pages = Pages(visited: set<string>, log: seq<Visit>)

  /** `r` comes from `st` by visits to pages not visited before, at depths in `lo..hi`, each page
      once, and `VISITED_URLS` grows by exactly the pages visited. */
  predicate Grows(st: Pages, r: Pages, lo: nat, hi: nat) {
    && st.log <= r.log && st.visited <= r.visited
    && |r.visited| == |st.visited| + (|r.log| - |st.log|)
    && (forall i :: |st.log| <= i < |r.log| ==>
          r.log[i].url !in st.visited && r.log[i].url in r.visited && lo <= r.log[i].depth <= hi)
    && (forall i, j :: |st.log| <= i < j < |r.log| ==> r.log[i].url != r.log[j].url)
  }

  /** The larger of the pages already visited and the page budget. */
  function Ceiling(st: Pages, maxPages: nat): nat {
    if |st.visited| > maxPages then |st.visited| else maxPages
  }

  /** What a stretch of the crawl keeps: it grows `st` to `r` within `lo..hi` and stays within
      the page budget. */
  predicate Crawled(st: Pages, r: Pages, lo: nat, hi: nat, maxPages: nat) {
    Grows(st, r, lo, hi) && |r.visited| <= Ceiling(st, maxPages)
  }

  predicate AllVisited(links: seq<string>, visited: set<string>) {
    forall k :: 0 <= k < |links| ==> links[k] in visited
  }

  lemma GrowsRefl(st: Pages, lo: nat, hi: nat)
    ensures Grows(st, st, lo, hi)
  {
  }

  lemma CrawledRefl(st: Pages, lo: nat, hi: nat, maxPages: nat)
    ensures Crawled(st, st, lo, hi, maxPages)
  {
  }

  lemma GrowsTrans(a: Pages, b: Pages, c: Pages, lo: nat, hi: nat)
    requires Grows(a, b, lo, hi) && Grows(b, c, lo, hi)
    ensures Grows(a, c, lo, hi)
  {
    forall i | |a.log| <= i < |b.log|
      ensures c.log[i] == b.log[i]
    {
    }
  }

  /** The text of a page that downloads non-empty (`if not html_content: return` otherwise). */
  function Html(site: Site, url: string): Option<string> {
    var text := DownloadPage(site.outcome(url)).text;
    if text.Some? && text.value != [] then text else None
  }

  /** `scrape_recursive(url, base_url, depth, max_depth, max_pages)`. */
  function ScrapeRecursive(site: Site, baseUrl: string, url: string, depth: nat, maxDepth: nat,
                           maxPages: nat, st: Pages): (r: Pages)
    requires Enumerates(site)
    ensures Grows(st, r, depth, maxDepth)
    ensures |r.visited| <= Ceiling(st, maxPages)
    ensures depth > maxDepth || |st.visited| >= maxPages || url in st.visited ==> r == st
    ensures depth <= maxDepth && |st.visited| < maxPages ==> url in r.visited
    ensures depth <= maxDepth && |st.visited| < maxPages && url !in st.visited ==>
      |r.log| > |st.log| && r.log[|st.log|] == Visit(url, depth, Html(site, url).Some?) &&
      forall i :: |st.log| < i < |r.log| ==> r.log[i].depth > depth
    decreases Rank(depth, maxDepth), 1, 0
  {
    if depth > maxDepth || |st.visited| >= maxPages || url in st.visited then
      GrowsRefl(st, depth, maxDepth);
      st
    else
      var html := Html(site, url);
      var st1 := Pages(st.visited + {url}, st.log + [Visit(url, depth, html.Some?)]);
      if html.None? then st1
      else
        var links := ExtractLinks(site.hrefs(html.value), url);
        var r := FollowLinks(site, baseUrl, site.order(links), depth, maxDepth, maxPages, st1);
        FollowRest(st, st1, r, url, depth, maxDepth, maxPages);
        r
  }

  /** The bookkeeping of `ScrapeRecursive` once the page is visited (`st1`) and its links
      followed (`r`). */
  lemma FollowRest(st: Pages, st1: Pages, r: Pages, url: string, depth: nat, maxDepth: nat, maxPages: nat)
    requires url !in st.visited && depth <= maxDepth && |st.visited| < maxPages
    requires st1.visited == st.visited + {url} && |st1.log| == |st.log| + 1 && st.log <= st1.log
    requires st1.log[|st.log|].url == url && st1.log[|st.log|].depth == depth
    requires Crawled(st1, r, depth + 1, maxDepth, maxPages)
    ensures Grows(st, r, depth, maxDepth)
    ensures |r.visited| <= Ceiling(st, maxPages)
    ensures url in r.visited && |r.log| > |st.log| && r.log[|st.log|] == st1.log[|st.log|]
    ensures forall i :: |st.log| < i < |r.log| ==> r.log[i].depth > depth
  {
    assert r.log[|st.log|] == st1.log[|st.log|];
    assert Grows(st, st1, depth, maxDepth);
    assert Grows(st1, r, depth, maxDepth);
    GrowsTrans(st, st1, r, depth, maxDepth);
  }

  /** The `for link in links` loop of `scrape_recursive` at `depth`, over the links in iteration
      order: stop once the page budget is spent, otherwise crawl each link not yet visited one
      level deeper. Unless the budget ran out, every link was visited by the end. */
  function FollowLinks(site: Site, baseUrl: string, links: seq<string>, depth: nat,
                       maxDepth: nat, maxPages: nat, st: Pages): (r: Pages)
    requires Enumerates(site) && depth <= maxDepth
    ensures Crawled(st, r, depth + 1, maxDepth, maxPages)
    ensures depth < maxDepth && |r.visited| < maxPages ==> AllVisited(links, r.visited)
    decreases Rank(depth, maxDepth), 0, |links|
  {
    if |links| == 0 || |st.visited| >= maxPages then
      CrawledRefl(st, depth + 1, maxDepth, maxPages);
      st
    else
      var st1 := FollowLink(site, baseUrl, links[0], depth, maxDepth, maxPages, st);
      var r := FollowLinks(site, baseUrl, links[1..], depth, maxDepth, maxPages, st1);
      FollowSteps(st, st1, r, links, depth, maxDepth, maxPages);
      r
  }

  /** One iteration of the loop: crawl `link` unless it is already visited. */
  function FollowLink(site: Site, baseUrl: string, link: string, depth: nat,
                      maxDepth: nat, maxPages: nat, st: Pages): (r: Pages)
    requires Enumerates(site) && depth <= maxDepth
    ensures Crawled(st, r, depth + 1, maxDepth, maxPages)
    ensures depth < maxDepth && |st.visited| < maxPages ==> link in r.visited
    decreases Rank(depth, maxDepth), 0, 0
  {
    if link !in st.visited then
      ScrapeRecursive(site, baseUrl, link, depth + 1, maxDepth, maxPages, st)
    else
      CrawledRefl(st, depth + 1, maxDepth, maxPages);
      st
  }

  /** The bookkeeping of `FollowLinks` across one iteration (`st` to `st1`) and the rest (`r`). */
  lemma FollowSteps(st: Pages, st1: Pages, r: Pages, links: seq<string>, depth: nat, maxDepth: nat,
                    maxPages: nat)
    requires |links| > 0 && |st.visited| < maxPages
    requires Crawled(st, st1, depth + 1, maxDepth, maxPages)
    requires Crawled(st1, r, depth + 1, maxDepth, maxPages)
    requires depth < maxDepth ==> links[0] in st1.visited
    requires depth < maxDepth && |r.visited| < maxPages ==> AllVisited(links[1..], r.visited)
    ensures Crawled(st, r, depth + 1, maxDepth, maxPages)
    ensures depth < maxDepth && |r.visited| < maxPages ==> AllVisited(links, r.visited)
  {
    GrowsTrans(st, st1, r, depth + 1, maxDepth);
    if depth < maxDepth && |r.visited| < maxPages {
      forall k | 0 <= k < |links|
        ensures links[k] in r.visited
      {
        if k > 0 {
          assert links[k] == links[1..][k - 1];
        }
      }
    }
  }

  /** Unless the page budget ran out, every link of a downloaded page above the depth bound is
      visited. */
  lemma ScrapeRecursiveComplete(site: Site, baseUrl: string, url: string, depth: nat, maxDepth: nat,
                                maxPages: nat, st: Pages, u: string)
    requires Enumerates(site)
    requires depth < maxDepth && |st.visited| < maxPages && url !in st.visited
    requires Html(site, url).Some? && u in ExtractLinks(site.hrefs(Html(site, url).value), url)
    requires |ScrapeRecursive(site, baseUrl, url, depth, maxDepth, maxPages, st).visited| < maxPages
    ensures u in ScrapeRecursive(site, baseUrl, url, depth, maxDepth, maxPages, st).visited
  {
    var links := ExtractLinks(site.hrefs(Html(site, url).value), url);
    assert Lists(site.order(links), links);
    var k :| 0 <= k < |site.order(links)| && site.order(links)[k] == u;
  }

  // ---------------------------------------------------------------- staying on the host

  /** Every visit from index `from` on is to a fragment-free URL on `host`. */
  predicate OnHost(log: seq<Visit>, from: nat, host: string) {
    forall i :: from <= i < |log| ==> Split(log[i].url).netloc == host && '#' !in log[i].url
  }

  /** Links to follow: fragment-free, on `host`. */
  predicate Internal(links: seq<string>, host: string) {
    forall k :: 0 <= k < |links| ==> Split(links[k]).netloc == host && '#' !in links[k]
  }

  lemma OnHostSteps(a: seq<Visit>, b: seq<Visit>, c: seq<Visit>, host: string)
    requires a <= b <= c
    requires OnHost(b, |a|, host) && OnHost(c, |b|, host)
    ensures OnHost(c, |a|, host)
  {
    forall i | |a| <= i < |b|
      ensures c[i] == b[i]
    {
    }
  }

  /** The links of a page, in iteration order, are fragment-free and on the page's host. */
  lemma LinksInternal(site: Site, hrefs: seq<string>, url: string)
    requires Enumerates(site)
    ensures Internal(site.order(ExtractLinks(hrefs, url)), Split(url).netloc)
  {
    var links := ExtractLinks(hrefs, url);
    assert Lists(site.order(links), links);
    forall k | 0 <= k < |site.order(links)|
      ensures Split(site.order(links)[k]).netloc == Split(url).netloc && '#' !in site.order(links)[k]
    {
      ExtractLinksFiltered(hrefs, url, site.order(links)[k]);
    }
  }

  /** The crawl never leaves the host it starts on: every page visited from a fragment-free `url`
      is fragment-free and has `url`'s `netloc`. */
  lemma {:induction false} ScrapeRecursiveOnHost(site: Site, baseUrl: string, url: string, depth: nat,
                                                 maxDepth: nat, maxPages: nat, st: Pages)
    requires Enumerates(site) && '#' !in url
    ensures OnHost(ScrapeRecursive(site, baseUrl, url, depth, maxDepth, maxPages, st).log, |st.log|, Split(url).netloc)
    decreases Rank(depth, maxDepth), 2, 0
  {
    if !(depth > maxDepth || |st.visited| >= maxPages || url in st.visited) {
      var html := Html(site, url);
      var st1 := Pages(st.visited + {url}, st.log + [Visit(url, depth, html.Some?)]);
      if html.Some? {
        var r := FollowLinks(site, baseUrl, site.order(ExtractLinks(site.hrefs(html.value), url)), depth, maxDepth, maxPages, st1);
        assert ScrapeRecursive(site, baseUrl, url, depth, maxDepth, maxPages, st) == r;
        LinksInternal(site, site.hrefs(html.value), url);
        PageOnHost(site, baseUrl, site.order(ExtractLinks(site.hrefs(html.value), url)), Split(url).netloc,
                   url, depth, maxDepth, maxPages, st, st1, r);
      } else {
        assert ScrapeRecursive(site, baseUrl, url, depth, maxDepth, maxPages, st) == st1;
        VisitOnHost(st.log, Visit(url, depth, false), Split(url).netloc);
      }
    }
  }

  /** A downloaded page and the pages reached through its links are on the page's host. */
  lemma {:induction false} PageOnHost(site: Site, baseUrl: string, links: seq<string>, host: string, url: string,
                                      depth: nat, maxDepth: nat, maxPages: nat, st: Pages, st1: Pages, r: Pages)
    requires Enumerates(site) && '#' !in url && depth <= maxDepth
    requires Split(url).netloc == host && Internal(links, host)
    requires st1 == Pages(st.visited + {url}, st.log + [Visit(url, depth, true)])
    requires r == FollowLinks(site, baseUrl, links, depth, maxDepth, maxPages, st1)
    ensures OnHost(r.log, |st.log|, host)
    decreases Rank(depth, maxDepth), 1, 0
  {
    VisitOnHost(st.log, Visit(url, depth, true), host);
    FollowLinksOnHost(site, baseUrl, host, links, depth, maxDepth, maxPages, st1);
    OnHostSteps(st.log, st1.log, r.log, host);
  }

  lemma VisitOnHost(log: seq<Visit>, v: Visit, host: string)
    requires Split(v.url).netloc == host && '#' !in v.url
    ensures OnHost(log + [v], |log|, host)
  {
    OneOnHost(v, host);
    OnHostConcat(log, [v], host);
  }

  lemma OneOnHost(v: Visit, host: string)
    requires Split(v.url).netloc == host && '#' !in v.url
    ensures OnHost([v], 0, host)
  {
  }

  lemma OnHostConcat(log: seq<Visit>, tail: seq<Visit>, host: string)
    requires OnHost(tail, 0, host)
    ensures OnHost(log + tail, |log|, host)
  {
    forall i | |log| <= i < |log + tail|
      ensures (log + tail)[i] == tail[i - |log|]
    {
    }
  }

  lemma {:induction false} FollowLinksOnHost(site: Site, baseUrl: string, host: string, links: seq<string>,
                                             depth: nat, maxDepth: nat, maxPages: nat, st: Pages)
    requires Enumerates(site) && depth <= maxDepth && Internal(links, host)
    ensures OnHost(FollowLinks(site, baseUrl, links, depth, maxDepth, maxPages, st).log, |st.log|, host)
    decreases Rank(depth, maxDepth), 0, |links|
  {
    if |links| > 0 && |st.visited| < maxPages {
      var st1 := FollowLink(site, baseUrl, links[0], depth, maxDepth, maxPages, st);
      var r := FollowLinks(site, baseUrl, links[1..], depth, maxDepth, maxPages, st1);
      FollowLinkOnHost(site, baseUrl, host, links[0], depth, maxDepth, maxPages, st);
      assert Internal(links[1..], host);
      FollowLinksOnHost(site, baseUrl, host, links[1..], depth, maxDepth, maxPages, st1);
      OnHostSteps(st.log, st1.log, r.log, host);
    }
  }

  lemma {:induction false} FollowLinkOnHost(site: Site, baseUrl: string, host: string, link: string,
                                            depth: nat, maxDepth: nat, maxPages: nat, st: Pages)
    requires Enumerates(site) && depth <= maxDepth && Split(link).netloc == host && '#' !in link
    ensures OnHost(FollowLink(site, baseUrl, link, depth, maxDepth, maxPages, st).log, |st.log|, host)
    decreases Rank(depth, maxDepth), 0, 0
  {
    if link !in st.visited {
      ScrapeRecursiveOnHost(site, baseUrl, link, depth + 1, maxDepth, maxPages, st);
      assert FollowLink(site, baseUrl, link, depth, maxDepth, maxPages, st) ==
        ScrapeRecursive(site, baseUrl, link, depth + 1, maxDepth, maxPages, st);
    } else {
      assert FollowLink(site, baseUrl, link, depth, maxDepth, maxPages, st) == st;
    }
  }
}
