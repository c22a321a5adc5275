/** `scraper.js`: what the Puppeteer scraper does with the resources it found on
    the home page. Stylesheets, scripts and images are downloaded to the output
    directory under their URL's pathname; anchors that start with the page's
    origin are de-duplicated, the first ten are taken, and those whose pathname
    looks like a page are captured to `<pathname>.html`.

    The browser, the network and the file system are an oracle `Env`.
 */
module ScraperJs {
  import opened Text
  import opened Optional

  /** `BASE_URL`, which is also the page's `window.location.origin`. */
  const BaseUrl: string := "https://www.duttoncavanaugh.com"

  /** How many de-duplicated links are considered. */
  const MaxLinks: nat := 10

  // ---------------------------------------------------------------- link selection

  /** The anchors' resolved `href`s that start with the origin, in document order. */
  function SameOrigin(hrefs: seq<string>, origin: string): (r: seq<string>)
    ensures |r| <= |hrefs|
    ensures forall k :: 0 <= k < |r| ==> StartsWith(r[k], origin)
  {
    if |hrefs| == 0 then []
    else
      var init := SameOrigin(hrefs[..|hrefs| - 1], origin);
      var h := hrefs[|hrefs| - 1];
      if StartsWith(h, origin) then init + [h] else init
  }

  /** The kept links are exactly the anchors that start with the origin. */
  lemma {:induction false} SameOriginMember(hrefs: seq<string>, origin: string, x: string)
    ensures x in SameOrigin(hrefs, origin) <==> x in hrefs && StartsWith(x, origin)
  {
    if |hrefs| > 0 {
      var init := hrefs[..|hrefs| - 1];
      SameOriginMember(init, origin, x);
      assert hrefs == init + [hrefs[|hrefs| - 1]];
    }
  }

  /** The test is a prefix test on the text: a host that merely extends the origin's host
      passes it. */
  lemma SameOriginLookalike()
    ensures SameOrigin([BaseUrl + ".example.net/"], BaseUrl) == [BaseUrl + ".example.net/"]
  {
    var h := BaseUrl + ".example.net/";
    assert h[..|BaseUrl|] == BaseUrl;
    var none: seq<string> := [];
    assert [h][..0] == none;
  }

  /** `[...new Set(xs)]`: each value once, where it first occurs. */
  function Dedup(xs: seq<string>): (r: seq<string>)
    ensures forall i, j :: 0 <= i < j < |r| ==> r[i] != r[j]
    ensures forall x :: x in r <==> x in xs
  {
    if |xs| == 0 then []
    else
      var init := Dedup(xs[..|xs| - 1]);
      var x := xs[|xs| - 1];
      assert forall y :: y in xs <==> y in xs[..|xs| - 1] || y == x by {
        assert xs == xs[..|xs| - 1] + [x];
      }
      if x in init then init else init + [x]
  }

  /** Index of the first occurrence of `x` in `xs`. */
  function FirstIndex(xs: seq<string>, x: string): (i: nat)
    requires x in xs
    ensures i < |xs| && xs[i] == x && x !in xs[..i]
  {
    if xs[0] == x then 0
    else
      var j := FirstIndex(xs[1..], x);
      assert xs[..j + 1] == [xs[0]] + xs[1..][..j];
      j + 1
  }

  /** De-duplication keeps the order in which values first occur. */
  lemma {:induction false} DedupOrder(xs: seq<string>)
    ensures forall i, j :: 0 <= i < j < |Dedup(xs)| ==>
      FirstIndex(xs, Dedup(xs)[i]) < FirstIndex(xs, Dedup(xs)[j])
  {
    if |xs| > 0 {
      var init := xs[..|xs| - 1];
      var x := xs[|xs| - 1];
      DedupOrder(init);
      forall y | y in init
        ensures FirstIndex(xs, y) == FirstIndex(init, y)
      {
        FirstIndexPrefix(init, [x], y);
        assert xs == init + [x];
      }
      if x !in Dedup(init) {
        assert x !in init;
        FirstIndexLast(xs);
      }
    }
  }

  lemma {:induction false} FirstIndexPrefix(a: seq<string>, b: seq<string>, y: string)
    requires y in a
    ensures FirstIndex(a + b, y) == FirstIndex(a, y)
  {
    if a[0] != y {
      assert (a + b)[1..] == a[1..] + b;
      FirstIndexPrefix(a[1..], b, y);
    }
  }

  lemma FirstIndexLast(xs: seq<string>)
    requires |xs| > 0 && xs[|xs| - 1] !in xs[..|xs| - 1]
    ensures FirstIndex(xs, xs[|xs| - 1]) == |xs| - 1
  {
    var i := FirstIndex(xs, xs[|xs| - 1]);
  }

  /** Links that are already distinct come back unchanged. */
  lemma {:induction false} DedupDistinct(xs: seq<string>)
    requires forall i, j :: 0 <= i < j < |xs| ==> xs[i] != xs[j]
    ensures Dedup(xs) == xs
  {
    if |xs| > 0 {
      var init := xs[..|xs| - 1];
      DedupDistinct(init);
      assert xs[|xs| - 1] !in init;
      assert xs == init + [xs[|xs| - 1]];
    }
  }

  /** `uniqueLinks.slice(0, 10)` over the same-origin anchors. */
  function Candidates(hrefs: seq<string>, origin: string): (r: seq<string>)
    ensures |r| <= MaxLinks
    ensures forall i, j :: 0 <= i < j < |r| ==> r[i] != r[j]
    ensures forall k :: 0 <= k < |r| ==> r[k] in hrefs && StartsWith(r[k], origin)
  {
    var unique := Dedup(SameOrigin(hrefs, origin));
    forall k | 0 <= k < |unique|
      ensures unique[k] in hrefs && StartsWith(unique[k], origin)
    {
      SameOriginMember(hrefs, origin, unique[k]);
    }
    if |unique| <= MaxLinks then unique else unique[..MaxLinks]
  }

  /** Every same-origin anchor is considered when there are at most ten distinct ones. */
  lemma CandidatesComplete(hrefs: seq<string>, origin: string, x: string)
    requires x in hrefs && StartsWith(x, origin)
    requires |Dedup(SameOrigin(hrefs, origin))| <= MaxLinks
    ensures x in Candidates(hrefs, origin)
  {
    SameOriginMember(hrefs, origin, x);
  }

  /** The candidates are the first ten distinct same-origin anchors, in first-occurrence order. */
  lemma CandidatesPrefix(hrefs: seq<string>, origin: string)
    ensures var unique := Dedup(SameOrigin(hrefs, origin));
      Candidates(hrefs, origin) <= unique &&
      |Candidates(hrefs, origin)| == if |unique| <= MaxLinks then |unique| else MaxLinks
  {
  }

  /** A same-origin anchor that first occurs before a candidate is a candidate too, so no later
      link displaces an earlier one. */
  lemma CandidatesEarlier(hrefs: seq<string>, origin: string, x: string, y: string)
    requires x in Candidates(hrefs, origin)
    requires x in SameOrigin(hrefs, origin) && y in SameOrigin(hrefs, origin)
    requires FirstIndex(SameOrigin(hrefs, origin), y) < FirstIndex(SameOrigin(hrefs, origin), x)
    ensures y in Candidates(hrefs, origin)
  {
    var s := SameOrigin(hrefs, origin);
    var u := Dedup(s);
    var c := Candidates(hrefs, origin);
    CandidatesPrefix(hrefs, origin);
    var i := FirstIndex(c, x);
    assert u[i] == x;
    var j := FirstIndex(u, y);
    DedupOrder(s);
    assert j < i;
    assert c[j] == y;
  }

  // ---------------------------------------------------------------- page file names

  /** A link is captured only when its pathname is not the root and has no '.' anywhere. */
  predicate IsPage(pathname: string) {
    pathname != "/" && '.' !in pathname
  }

  /** `linkPath.replace(/\/$/, '') + '.html'`: at most one trailing '/' removed. */
  function PageFile(pathname: string): (r: string)
    ensures EndsWith(r, ".html") && |r| >= 5
  {
    var base := if |pathname| > 0 && pathname[|pathname| - 1] == '/' then pathname[..|pathname| - 1] else pathname;
    assert (base + ".html")[|base|..] == ".html";
    base + ".html"
  }

  /** Dropping the `.html` gives the pathname back, less one trailing '/'. */
  lemma PageFileInverse(pathname: string)
    ensures var r := PageFile(pathname);
      r[..|r| - 5] == pathname || r[..|r| - 5] + "/" == pathname
  {
    var r := PageFile(pathname);
    if |pathname| > 0 && pathname[|pathname| - 1] == '/' {
      var base := pathname[..|pathname| - 1];
      assert r == base + ".html";
      assert r[..|r| - 5] == base;
      assert base + "/" == pathname;
    } else {
      assert r == pathname + ".html";
      assert r[..|r| - 5] == pathname;
    }
  }

  /** `/services/` and `/services` are captured to the same file. */
  lemma PageFileTrailingSlash(p: string)
    requires p == [] || p[|p| - 1] != '/'
    ensures PageFile(p + "/") == PageFile(p) == p + ".html"
  {
    assert (p + "/")[..|p|] == p;
  }

  /** Only one '/' is removed: `/a//` is captured to `/a/.html`. */
  lemma PageFileOneSlash()
    ensures PageFile("/a//") == "/a/.html"
  {
    assert "/a//"[..3] == "/a/";
  }

  // ---------------------------------------------------------------- downloads

  /** The browser, the network and the disk: `pathname(url)` is `new URL(url).pathname`, or
      None when the constructor throws; `download(url)(file)` is the value `downloadFile(url,
      file)` resolves to (it catches every error and reports false); `capture(url)` says whether
      navigating to `url`, reading its HTML and writing the file all succeed. */
  datatype Env = Env(pathname: string -> Option<string>, download: string -> string -> bool,
                     capture: string -> bool)

  /** One `downloadFile` call: the file is the URL's pathname under the output directory. */
  datatype Asset = Asset(url: string, file: string, ok: bool)

  /** The loops over stylesheets, scripts and images. A failed download is recorded and the
      loop goes on; a URL whose pathname cannot be taken throws out of the whole scrape, so the
      result says whether every URL was reached. */
  function DownloadAssets(env: Env, urls: seq<string>): (r: (seq<Asset>, bool))
    ensures |r.0| <= |urls|
    ensures forall k :: 0 <= k < |r.0| ==>
      r.0[k].url == urls[k] && env.pathname(urls[k]) == Some(r.0[k].file) &&
      r.0[k].ok == env.download(urls[k])(r.0[k].file)
    ensures r.1 <==> forall k :: 0 <= k < |urls| ==> env.pathname(urls[k]).Some?
    ensures r.1 ==> |r.0| == |urls|
    ensures !r.1 ==> env.pathname(urls[|r.0|]).None?
  {
    if |urls| == 0 then ([], true)
    else
      match env.pathname(urls[0]) {
        case None => ([], false)
        case Some(file) =>
          var rest := DownloadAssets(env, urls[1..]);
          var a := Asset(urls[0], file, env.download(urls[0])(file));
          ([a] + rest.0, rest.1)
      }
  }

  /** What became of one candidate link. */
  datatype Capture =
    | NotAPage(url: string)             // the root, or a pathname with a '.'
    | Failed(url: string)               // threw; caught, and the loop goes on
    | Saved(url: string, file: string)  // written to `file` under the output directory

  function CaptureLink(env: Env, link: string): (c: Capture)
    ensures c.url == link
    ensures c.Saved? <==>
      env.pathname(link).Some? && IsPage(env.pathname(link).value) && env.capture(link)
    ensures c.Saved? ==> c.file == PageFile(env.pathname(link).value)
  {
    match env.pathname(link) {
      case None => Failed(link)
      case Some(p) =>
        if !IsPage(p) then NotAPage(link)
        else if env.capture(link) then Saved(link, PageFile(p))
        else Failed(link)
    }
  }

  /** The loop over the candidate links: every one is tried, whatever became of the others. */
  function CaptureLinks(env: Env, links: seq<string>): (r: seq<Capture>)
    ensures |r| == |links|
    ensures forall k :: 0 <= k < |r| ==> r[k] == CaptureLink(env, links[k])
  {
    if |links| == 0 then []
    else [CaptureLink(env, links[0])] + CaptureLinks(env, links[1..])
  }

  /** Everything after `page.evaluate`: the asset downloads in order, and the pages captured
      unless an asset URL threw first. */
  datatype Outcome = Outcome(assets: seq<Asset>, completed: bool, pages: seq<Capture>)

  function Scrape(env: Env, stylesheets: seq<string>, scripts: seq<string>, images: seq<string>,
                  anchors: seq<string>, origin: string): (r: Outcome)
    ensures r.completed <==> forall k :: 0 <= k < |stylesheets + scripts + images| ==>
      env.pathname((stylesheets + scripts + images)[k]).Some?
    ensures |r.assets| <= |stylesheets| + |scripts| + |images|
    ensures r.completed ==> |r.assets| == |stylesheets| + |scripts| + |images|
    ensures forall k :: 0 <= k < |r.assets| ==>
      var url := (stylesheets + scripts + images)[k];
      r.assets[k].url == url && env.pathname(url) == Some(r.assets[k].file) &&
      r.assets[k].ok == env.download(url)(r.assets[k].file)
    ensures r.completed ==> r.pages == CaptureLinks(env, Candidates(anchors, origin))
    ensures !r.completed ==> r.pages == []
    ensures |r.pages| <= MaxLinks
  {
    var downloaded := DownloadAssets(env, stylesheets + scripts + images);
    Outcome(downloaded.0, downloaded.1,
            if downloaded.1 then CaptureLinks(env, Candidates(anchors, origin)) else [])
  }

  /** A failed download does not stop the others: with every pathname available, every asset
      is attempted, in order, whatever `downloadFile` reports. */
  lemma ScrapeTriesEveryAsset(env: Env, stylesheets: seq<string>, scripts: seq<string>,
                              images: seq<string>, anchors: seq<string>, origin: string)
    requires forall k :: 0 <= k < |stylesheets + scripts + images| ==>
      env.pathname((stylesheets + scripts + images)[k]).Some?
    ensures var r := Scrape(env, stylesheets, scripts, images, anchors, origin);
      && r.completed
      && |r.assets| == |stylesheets| + |scripts| + |images|
      && forall k :: 0 <= k < |r.assets| ==> r.assets[k].url == (stylesheets + scripts + images)[k]
  {
  }

  /** A saved page was a same-origin anchor whose pathname looks like a page, and it is
      written to that pathname, less one trailing '/', with `.html`. */
  lemma ScrapeSavedPage(env: Env, stylesheets: seq<string>, scripts: seq<string>,
                        images: seq<string>, anchors: seq<string>, origin: string, k: int)
    requires var r := Scrape(env, stylesheets, scripts, images, anchors, origin);
      0 <= k < |r.pages| && r.pages[k].Saved?
    ensures var c := Scrape(env, stylesheets, scripts, images, anchors, origin).pages[k];
      && c.url in anchors && StartsWith(c.url, origin)
      && env.pathname(c.url).Some? && IsPage(env.pathname(c.url).value)
      && c.file == PageFile(env.pathname(c.url).value)
  {
    var r := Scrape(env, stylesheets, scripts, images, anchors, origin);
    var links := Candidates(anchors, origin);
    assert r.pages == CaptureLinks(env, links);
    assert r.pages[k] == CaptureLink(env, links[k]);
  }
}
