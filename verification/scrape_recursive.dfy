/** `scrape_recursive.py`: the link parser, the URL-to-file mapping that keeps
    directories, the same-domain test, URL normalisation, and the depth-bounded
    recursive crawler with its two process-wide sets made explicit state.
 */
module ScrapeRecursive {
  import opened Text
  import opened Urls
  import opened UrlLaws
  import opened Optional
  import opened Crawl

  // ---------------------------------------------------------------- LinkParser

  /** An attribute as `HTMLParser` reports it; a bare attribute (`<a href>`) has no value. */
  datatype Attr = Attr(name: string, value: Option<string>)

  /** A start tag with its attributes in document order. */
  datatype Tag = Tag(name: string, attrs: seq<Attr>)

  /** `attrs[i]` is the last attribute named `key`. */
  predicate LastWith(attrs: seq<Attr>, key: string, i: int) {
    0 <= i < |attrs| && attrs[i].name == key && forall j :: i < j < |attrs| ==> attrs[j].name != key
  }

  /** `dict(attrs)[key]` when `key in dict(attrs)`: a later attribute overrides an earlier one. */
  function Lookup(attrs: seq<Attr>, key: string): (r: Option<Option<string>>)
    ensures r.None? <==> forall i :: 0 <= i < |attrs| ==> attrs[i].name != key
  {
    if |attrs| == 0 then None
    else
      var n := |attrs| - 1;
      if attrs[n].name == key then Some(attrs[n].value) else Lookup(attrs[..n], key)
  }

  /** The value found is the one of the last attribute with that name. */
  lemma {:induction false} LookupLastWins(attrs: seq<Attr>, key: string)
    ensures Lookup(attrs, key).Some? ==>
      exists i :: LastWith(attrs, key, i) && attrs[i].value == Lookup(attrs, key).value
  {
    if |attrs| > 0 {
      var n := |attrs| - 1;
      if attrs[n].name == key {
        assert LastWith(attrs, key, n);
      } else if Lookup(attrs[..n], key).Some? {
        LookupLastWins(attrs[..n], key);
        var i :| LastWith(attrs[..n], key, i) && attrs[..n][i].value == Lookup(attrs[..n], key).value;
        LastWithExtend(attrs, key, i);
      }
    }
  }

  lemma LastWithExtend(attrs: seq<Attr>, key: string, i: int)
    requires |attrs| > 0 && attrs[|attrs| - 1].name != key
    requires LastWith(attrs[..|attrs| - 1], key, i)
    ensures LastWith(attrs, key, i) && attrs[i] == attrs[..|attrs| - 1][i]
  {
  }

  /** The attribute a tag contributes as an asset: `img` and `script` their `src`, `link` its `href`. */
  function AssetAttribute(tagName: string): string {
    if tagName == "img" || tagName == "script" then "src"
    else if tagName == "link" then "href"
    else ""
  }

  /** The link an anchor carries, if it is an anchor with an `href`. */
  function AnchorHref(tag: Tag): Option<Option<string>> {
    if tag.name == "a" then Lookup(tag.attrs, "href") else None
  }

  /** The asset reference a tag carries, if it is an `img`, `script` or `link` with its attribute. */
  function AssetRef(tag: Tag): Option<Option<string>> {
    if AssetAttribute(tag.name) != "" then Lookup(tag.attrs, AssetAttribute(tag.name)) else None
  }

  /** `LinkParser.handle_starttag`: what one start tag appends to `links` and to `assets`. */
  function HandleStartTag(tag: Tag): (r: (seq<Option<string>>, seq<Option<string>>))
    ensures |r.0| <= 1 && |r.1| <= 1
  {
    var links := if tag.name == "a" && Lookup(tag.attrs, "href").Some? then [Lookup(tag.attrs, "href").value] else [];
    var assets :=
      if tag.name == "img" && Lookup(tag.attrs, "src").Some? then [Lookup(tag.attrs, "src").value]
      else if tag.name == "link" && Lookup(tag.attrs, "href").Some? then [Lookup(tag.attrs, "href").value]
      else if tag.name == "script" && Lookup(tag.attrs, "src").Some? then [Lookup(tag.attrs, "src").value]
      else [];
    (links, assets)
  }

  /** A tag adds a link exactly when it is an anchor with an `href`, and an asset exactly when it
      is an `img`, `script` or `link` carrying its attribute; the value added is that attribute's. */
  lemma HandleStartTagClassifies(tag: Tag)
    ensures HandleStartTag(tag).0 == (if AnchorHref(tag).Some? then [AnchorHref(tag).value] else [])
    ensures HandleStartTag(tag).1 == (if AssetRef(tag).Some? then [AssetRef(tag).value] else [])
  {
  }

  /** `LinkParser().feed(html)`: the `links` and `assets` lists after every start tag. */
  function Feed(tags: seq<Tag>): (r: (seq<Option<string>>, seq<Option<string>>))
    ensures |r.0| <= |tags| && |r.1| <= |tags|
  {
    if |tags| == 0 then ([], [])
    else
      var first := HandleStartTag(tags[0]);
      var rest := Feed(tags[1..]);
      (first.0 + rest.0, first.1 + rest.1)
  }

  /** Some tag of `tags` is an anchor whose `href` is `x`. */
  predicate AnchorIn(tags: seq<Tag>, x: Option<string>) {
    exists i :: 0 <= i < |tags| && AnchorHref(tags[i]) == Some(x)
  }

  /** Some tag of `tags` is an `img`, `script` or `link` referring to `x`. */
  predicate AssetIn(tags: seq<Tag>, x: Option<string>) {
    exists i :: 0 <= i < |tags| && AssetRef(tags[i]) == Some(x)
  }

  /** Exactly the anchors' `href`s are collected as links, and exactly the `img`/`script` `src`s
      and `link` `href`s as assets. */
  lemma {:induction false} FeedCollects(tags: seq<Tag>)
    ensures forall x :: x in Feed(tags).0 <==> AnchorIn(tags, x)
    ensures forall x :: x in Feed(tags).1 <==> AssetIn(tags, x)
  {
    if |tags| > 0 {
      var rest := tags[1..];
      FeedCollects(rest);
      HandleStartTagClassifies(tags[0]);
      var first := HandleStartTag(tags[0]);
      forall x
        ensures x in Feed(tags).0 <==> AnchorIn(tags, x)
        ensures x in Feed(tags).1 <==> AssetIn(tags, x)
      {
        assert x in Feed(tags).0 <==> x in first.0 || x in Feed(rest).0;
        assert x in Feed(tags).1 <==> x in first.1 || x in Feed(rest).1;
        if AnchorIn(tags, x) {
          var i :| 0 <= i < |tags| && AnchorHref(tags[i]) == Some(x);
          if i > 0 {
            assert rest[i - 1] == tags[i];
          }
        }
        if AnchorIn(rest, x) {
          var i :| 0 <= i < |rest| && AnchorHref(rest[i]) == Some(x);
          assert rest[i] == tags[i + 1];
        }
        if AssetIn(tags, x) {
          var i :| 0 <= i < |tags| && AssetRef(tags[i]) == Some(x);
          if i > 0 {
            assert rest[i - 1] == tags[i];
          }
        }
        if AssetIn(rest, x) {
          var i :| 0 <= i < |rest| && AssetRef(rest[i]) == Some(x);
          assert rest[i] == tags[i + 1];
        }
      }
    }
  }

  // ---------------------------------------------------------------- get_local_path

  /** The file `get_local_path` chooses for a URL path. */
  function LocalPath(path: string): (r: string)
    ensures r != [] && r[0] != '/'
    ensures path == [] || path == "/" ==> r == "index.html"
  {
    if path == [] || path == "/" then "index.html"
    else
      var p := LStrip(path, '/');
      if '.' !in BaseName(p) then
        if EndsWith(p, "/") then p + "index.html" else p + ".html"
      else p
  }

  /** `get_local_path(url, base_url)`: only the parsed path is consulted. */
  function GetLocalPath(url: string, baseUrl: string): (r: string)
    ensures r != [] && r[0] != '/'
  {
    LocalPath(ParsedPath(url))
  }

  /** A page path without an extension becomes `<path>.html`, or `<path>index.html` after a
      trailing slash. */
  lemma LocalPathPage(x: string)
    requires x != [] && x[0] != '/' && '.' !in BaseName(x)
    ensures LocalPath("/" + x) == if EndsWith(x, "/") then x + "index.html" else x + ".html"
  {
    StripRoot(x);
  }

  /** Stripping the leading slashes of `/x` gives back `x` when `x` does not start with one. */
  lemma StripRoot(x: string)
    requires x != [] && x[0] != '/'
    ensures LStrip("/" + x, '/') == x
    ensures "/" + x != [] && "/" + x != "/"
  {
    var s := "/" + x;
    assert s[0] == '/';
    assert s[1..] == x;
    assert LStrip(x, '/') == x;
    assert |s| > 1;
  }

  /** A path whose last segment has a '.' is kept verbatim, minus its leading slashes. */
  lemma LocalPathAsset(x: string)
    requires x != [] && x[0] != '/' && '.' in BaseName(x)
    ensures LocalPath("/" + x) == x
  {
    StripRoot(x);
  }

  /** `/services/` and `/services` are written to different files. */
  lemma LocalPathTrailingSlashDistinct(x: string)
    requires x != [] && x[0] != '/' && x[|x| - 1] != '/' && '.' !in BaseName(x)
    ensures LocalPath("/" + x + "/") == x + "/" + "index.html"
    ensures LocalPath("/" + x) == x + ".html"
    ensures LocalPath("/" + x + "/") != LocalPath("/" + x)
  {
    var y := x + "/";
    assert "/" + x + "/" == "/" + y;
    BaseNameAfterSlash(x, "");
    assert x + "/" + "" == y;
    assert EndsWith(y, "/");
    LocalPathPage(y);
    assert !EndsWith(x, "/");
    LocalPathPage(x);
  }

  /** A last segment `t` without an extension becomes `t.html` under its directories. */
  lemma LocalPathLeaf(x: string, t: string)
    requires x != [] && x[0] != '/'
    requires t != [] && '/' !in t && '.' !in t
    ensures LocalPath("/" + x + "/" + t) == x + "/" + t + ".html"
  {
    var y := x + "/" + t;
    assert "/" + x + "/" + t == "/" + y;
    BaseNameAfterSlash(x, t);
    assert y[|y| - 1] == t[|t| - 1];
    assert !EndsWith(y, "/");
    LocalPathPage(y);
  }

  /** The mapping is not injective: `/a/` and `/a/index` share `a/index.html`. */
  lemma LocalPathIndexCollision(x: string)
    requires x != [] && x[0] != '/' && x[|x| - 1] != '/' && '.' !in BaseName(x)
    ensures LocalPath("/" + x + "/") == LocalPath("/" + x + "/index")
  {
    IndexSpelling(x);
    LocalPathLeaf(x, "index");
    LocalPathTrailingSlashDistinct(x);
  }

  lemma IndexSpelling(x: string)
    ensures "/" + x + "/" + "index" == "/" + x + "/index"
    ensures x + "/" + "index" + ".html" == x + "/" + "index.html"
  {
    assert "index" + ".html" == "index.html";
  }

  /** The root path and an empty path both map to `index.html`. */
  lemma LocalPathRoot()
    ensures LocalPath("") == "index.html" && LocalPath("/") == "index.html"
    ensures LocalPath("//") == ".html"
  {
    LocalPathSlashes("//");
  }

  /** A path of two or more slashes passes the root test and strips down to nothing. */
  lemma LocalPathSlashes(s: string)
    requires |s| >= 2 && forall k :: 0 <= k < |s| ==> s[k] == '/'
    ensures LocalPath(s) == ".html"
  {
    assert s != "/" by {
      assert |"/"| == 1;
    }
    StripAllSlashes(s);
    LocalPathEmptyStrip(s);
  }

  lemma StripAllSlashes(s: string)
    requires forall k :: 0 <= k < |s| ==> s[k] == '/'
    ensures LStrip(s, '/') == []
  {
  }

  lemma LocalPathEmptyStrip(s: string)
    requires s != [] && s != "/" && LStrip(s, '/') == []
    ensures LocalPath(s) == ".html"
  {
    var p: string := [];
    assert BaseName(p) == [];
    assert !EndsWith(p, "/");
    assert p + ".html" == ".html";
  }

  /** URLs that differ only in query or fragment map to the same file. */
  lemma GetLocalPathIgnoresQuery(p: Parts, query: string, fragment: string, baseUrl: string)
    requires Absolute(p) && '#' !in query
    ensures GetLocalPath(Unsplit(p), baseUrl) == GetLocalPath(Unsplit(p.(query := query, fragment := fragment)), baseUrl)
  {
    SplitUnsplit(p);
    SplitUnsplit(p.(query := query, fragment := fragment));
  }

  // ---------------------------------------------------------------- is_same_domain, normalize_url

  /** `is_same_domain`: the host matches the base's, or there is no host at all. */
  predicate IsSameDomain(url: string, baseUrl: string) {
    Split(url).netloc == Split(baseUrl).netloc || Split(url).netloc == []
  }

  /** `normalize_url`: drop the fragment, resolve against the base, keep only same-domain results. */
  function NormalizeUrl(url: Option<string>, baseUrl: string): (r: Option<string>)
    ensures url == None || url == Some([]) ==> r == None
    ensures r.Some? && '#' !in baseUrl ==> '#' !in r.value
  {
    if url.None? || url.value == [] then None
    else
      var ref := BeforeFirst(url.value, '#');
      var u := Resolve(baseUrl, ref);
      assert '#' !in baseUrl ==> '#' !in u by {
        if '#' !in baseUrl {
          ResolveFragmentFree(baseUrl, ref);
        }
      }
      if IsSameDomain(u, baseUrl) then Some(u) else None
  }

  /** Whatever `normalize_url` returns passes `is_same_domain` against the base. */
  lemma NormalizeSameDomain(url: Option<string>, baseUrl: string)
    ensures NormalizeUrl(url, baseUrl).Some? ==> IsSameDomain(NormalizeUrl(url, baseUrl).value, baseUrl)
  {
  }

  /** A link with no scheme of its own (or the base's) is accepted exactly when it names no host or
      the base's host; an accepted link always ends up on the base's host. */
  lemma NormalizeSameScheme(link: string, baseUrl: string)
    requires HttpBase(baseUrl)
    requires link != [] && link[0] != '#'
    requires Split(link).scheme == [] || Split(link).scheme == Split(baseUrl).scheme
    ensures NormalizeUrl(Some(link), baseUrl).Some? <==>
      Split(link).netloc == [] || Split(link).netloc == Split(baseUrl).netloc
    ensures NormalizeUrl(Some(link), baseUrl).Some? ==>
      Split(NormalizeUrl(Some(link), baseUrl).value).netloc == Split(baseUrl).netloc
  {
    var ref := BeforeFirst(link, '#');
    assert ref != [];
    var u := Resolve(baseUrl, ref);
    assert NormalizeUrl(Some(link), baseUrl) == if IsSameDomain(u, baseUrl) then Some(u) else None;
    assert Split(ref).netloc == Split(link).netloc && Split(ref).scheme == Split(link).scheme by {
      SplitBeforeFragment(link);
    }
    ResolveHost(baseUrl, ref);
  }

  /** A relative reference (no scheme, no host: `about`, `/about#team`, `?page=2`) is always kept,
      and lands on the base's host. */
  lemma NormalizeRelative(link: string, baseUrl: string)
    requires HttpBase(baseUrl) && link != []
    requires Split(link).scheme == [] && Split(link).netloc == []
    ensures NormalizeUrl(Some(link), baseUrl).Some?
    ensures Split(NormalizeUrl(Some(link), baseUrl).value).netloc == Split(baseUrl).netloc
  {
    if link[0] == '#' {
      NormalizeFragmentOnly(link, baseUrl);
    } else {
      NormalizeSameScheme(link, baseUrl);
    }
  }

  /** A same-page link `#section` normalises to the base itself. */
  lemma NormalizeFragmentOnly(link: string, baseUrl: string)
    requires baseUrl != [] && link != [] && link[0] == '#'
    ensures NormalizeUrl(Some(link), baseUrl) == Some(baseUrl)
  {
    assert BeforeFirst(link, '#') == [] by {
      assert IndexOf(link, '#') == 0;
    }
  }

  /** A root-relative path has neither scheme nor host, so it is always kept. */
  lemma RootRelativeSplit(link: string)
    requires link != [] && link[0] == '/' && (|link| == 1 || link[1] != '/')
    ensures Split(link).scheme == [] && Split(link).netloc == []
  {
    assert SplitScheme(link) == ([], link) by {
      var i := IndexOf(link, ':');
      if i > 0 {
        assert link[..i][0] == '/';
      }
    }
    assert SplitAuthority(link) == ([], link) by {
      if |link| >= 2 {
        assert link[..2][1] == link[1];
      }
    }
  }

  /** A link to another host is rejected (section 5.2.2 of RFC 3986 keeps the reference's authority). */
  lemma NormalizeRejectsOtherHost(link: string, baseUrl: string)
    requires HttpBase(baseUrl)
    requires link != [] && link[0] != '#'
    requires Split(link).scheme == [] || Split(link).scheme == Split(baseUrl).scheme
    requires Split(link).netloc != [] && Split(link).netloc != Split(baseUrl).netloc
    ensures NormalizeUrl(Some(link), baseUrl) == None
  {
    NormalizeSameScheme(link, baseUrl);
  }

  /** A link with a different scheme and no host (`tel:`, `mailto:`) passes the same-domain test,
      because `is_same_domain` accepts an empty host. */
  lemma NormalizeKeepsHostlessScheme(link: string, baseUrl: string)
    requires baseUrl != [] && link != [] && '#' !in link
    requires Split(link).scheme != [] && Split(link).scheme != Split(baseUrl).scheme
    requires Split(link).netloc == []
    ensures NormalizeUrl(Some(link), baseUrl) == Some(link)
  {
    ResolveForeignScheme(baseUrl, link);
  }

  /** Normalising an already normalised link changes nothing. */
  lemma NormalizeIdempotent(link: string, baseUrl: string)
    requires HttpBase(baseUrl) && Unsplit(Split(baseUrl)) == baseUrl
    requires NormalizeUrl(Some(link), baseUrl).Some?
    ensures NormalizeUrl(NormalizeUrl(Some(link), baseUrl), baseUrl) == NormalizeUrl(Some(link), baseUrl)
  {
    var v := NormalizeUrl(Some(link), baseUrl).value;
    assert '#' !in v;
    var ref := BeforeFirst(link, '#');
    assert BeforeFirst(v, '#') == v;
    if ref == [] {
      assert v == baseUrl;
      ResolveCanonical(baseUrl, baseUrl);
    } else {
      var b := Split(baseUrl);
      var r := Split(ref);
      if r.scheme != [] && r.scheme != b.scheme {
        ResolveForeignScheme(baseUrl, ref);
        assert v == ref;
      } else {
        ResolveHost(baseUrl, ref);
        ResolveIsCanonical(b, r, ref);
        ResolveCanonical(v, baseUrl);
      }
    }
  }

  /** A URL that `urlunsplit(urlsplit(...))` reproduces, on the base's scheme and host, resolves to itself. */
  lemma ResolveCanonical(v: string, baseUrl: string)
    requires HttpBase(baseUrl)
    requires Unsplit(Split(v)) == v && '#' !in v
    requires Split(v).scheme == Split(baseUrl).scheme && Split(v).netloc == Split(baseUrl).netloc
    ensures Resolve(baseUrl, v) == v
  {
    var p := Split(v);
    assert v != [] by {
      assert |Unsplit(p)| > 0;
    }
    assert Resolve(baseUrl, v) == ResolveSplit(Split(baseUrl), p, v);
    ResolveSplitSelf(Split(baseUrl), p, v);
  }

  /** Components on the base's scheme with a host of their own resolve to themselves. */
  lemma ResolveSplitSelf(b: Parts, p: Parts, ref: string)
    requires b.scheme != [] && b.scheme in UsesRelative && b.scheme in UsesNetloc
    requires p.scheme == b.scheme && p.netloc != []
    ensures ResolveSplit(b, p, ref) == Unsplit(p)
  {
    assert Parts(p.scheme, p.netloc, p.path, p.query, p.fragment) == p;
  }

  /** Unsplitting components with a scheme and a host, then splitting and unsplitting again,
      changes nothing. */
  lemma UnsplitCanonical(p: Parts)
    requires Absolute(p)
    ensures Unsplit(Split(Unsplit(p))) == Unsplit(p)
  {
    SplitUnsplit(p);
    assert Unsplit(p.(path := Rooted(p.path))) == Unsplit(p);
  }

  /** Whatever `urljoin` builds with `urlunsplit` is reproduced by splitting and unsplitting again. */
  lemma ResolveIsCanonical(b: Parts, r: Parts, ref: string)
    requires IsScheme(b.scheme) && Lower(b.scheme) == b.scheme
    requires b.netloc != [] && forall i :: 0 <= i < |b.netloc| ==> !IsNetlocDelimiter(b.netloc[i])
    requires forall i :: 0 <= i < |r.netloc| ==> !IsNetlocDelimiter(r.netloc[i])
    requires '?' !in b.path && '#' !in b.path && '#' !in b.query
    requires '?' !in r.path && '#' !in r.path && '#' !in r.query
    requires b.scheme in UsesRelative && b.scheme in UsesNetloc
    requires r.scheme == [] || r.scheme == b.scheme
    ensures Unsplit(Split(ResolveSplit(b, r, ref))) == ResolveSplit(b, r, ref)
  {
    if r.netloc != [] {
      var p := Parts(b.scheme, r.netloc, r.path, r.query, r.fragment);
      assert ResolveSplit(b, r, ref) == Unsplit(p);
      UnsplitCanonical(p);
    } else if r.path == [] {
      var p := Parts(b.scheme, b.netloc, b.path, if r.query == [] then b.query else r.query, r.fragment);
      assert ResolveSplit(b, r, ref) == Unsplit(p);
      UnsplitCanonical(p);
    } else {
      var p := Parts(b.scheme, b.netloc, MergePath(b.path, r.path), r.query, r.fragment);
      MergePathFree(b.path, r.path, '?');
      MergePathFree(b.path, r.path, '#');
      assert ResolveSplit(b, r, ref) == Unsplit(p);
      UnsplitCanonical(p);
    }
  }

  // ---------------------------------------------------------------- scrape_page

  /** The network and the HTML parser, as the crawler sees them: `fetch` is `download_file`'s
      result (None when it fails), `parse` the start tags of a downloaded page. */
  datatype Site = Site(fetch: string -> Option<string>, parse: string -> seq<Tag>)

  /** One `download_file` call: a page at its crawl depth, or an asset. */
  datatype Fetch =
    | PageFetch(url: string, depth: nat)
    | AssetFetch(url: string)

  /** `VISITED_URLS`, `DOWNLOADED_FILES` and the downloads made so far, in order. */
  datatype CrawlState = CrawlState(visited: set<string>, downloaded: set<string>, log: seq<Fetch>)

  /** `e` is a download made between states `st` and `r`: a page not visited before, visited
      after, at a depth in `lo..hi`; or an asset not downloaded before, downloaded after. */
  predicate NewEntry(st: CrawlState, r: CrawlState, e: Fetch, lo: nat, hi: nat) {
    match e
    case PageFetch(u, d) => u !in st.visited && u in r.visited && lo <= d <= hi
    case AssetFetch(u) => u !in st.downloaded && u in r.downloaded
  }

  /** The URLs of the pages downloaded from index `from` of the log on. */
  function PageUrls(log: seq<Fetch>, from: nat): set<string>
    decreases |log| - from
  {
    if from >= |log| then {}
    else (if log[from].PageFetch? then {log[from].url} else {}) + PageUrls(log, from + 1)
  }

  /** The URLs of the assets downloaded from index `from` of the log on. */
  function AssetUrls(log: seq<Fetch>, from: nat): set<string>
    decreases |log| - from
  {
    if from >= |log| then {}
    else (if log[from].AssetFetch? then {log[from].url} else {}) + AssetUrls(log, from + 1)
  }

  /** `r` comes from `st` by appending downloads that are each new, and never the same page or
      the same asset twice; `VISITED_URLS` gains exactly the pages downloaded and
      `DOWNLOADED_FILES` exactly the assets. */
  predicate Extends(st: CrawlState, r: CrawlState, lo: nat, hi: nat) {
    && st.log <= r.log
    && st.visited <= r.visited && st.downloaded <= r.downloaded
    && r.visited == st.visited + PageUrls(r.log, |st.log|)
    && r.downloaded == st.downloaded + AssetUrls(r.log, |st.log|)
    && (forall i :: |st.log| <= i < |r.log| ==> NewEntry(st, r, r.log[i], lo, hi))
    && (forall i, j :: |st.log| <= i < j < |r.log| && r.log[i].PageFetch? == r.log[j].PageFetch? ==>
          r.log[i].url != r.log[j].url)
  }

  /** Every download from index `from` on is of a URL without a fragment. */
  predicate FragmentFreeFrom(log: seq<Fetch>, from: nat) {
    forall i :: from <= i < |log| ==> '#' !in log[i].url
  }

  /** Every download from index `from` on is of an asset. */
  predicate AssetsFrom(log: seq<Fetch>, from: nat) {
    forall i :: from <= i < |log| ==> log[i].AssetFetch?
  }

  lemma ExtendsRefl(st: CrawlState, lo: nat, hi: nat)
    ensures Extends(st, st, lo, hi)
  {
  }

  /** The one entry appended to a log is all that was downloaded since. */
  lemma UrlsOfLast(log: seq<Fetch>, e: Fetch)
    ensures PageUrls(log + [e], |log|) == if e.PageFetch? then {e.url} else {}
    ensures AssetUrls(log + [e], |log|) == if e.AssetFetch? then {e.url} else {}
  {
    var l := log + [e];
    assert l[|log|] == e;
    assert PageUrls(l, |log| + 1) == {} && AssetUrls(l, |log| + 1) == {};
  }

  /** The downloads past `a` are those between `a` and `b` and those past `b`. */
  lemma {:induction false} UrlsSplit(a: nat, b: seq<Fetch>, c: seq<Fetch>)
    requires a <= |b| && b <= c
    ensures PageUrls(c, a) == PageUrls(b, a) + PageUrls(c, |b|)
    ensures AssetUrls(c, a) == AssetUrls(b, a) + AssetUrls(c, |b|)
    decreases |b| - a
  {
    if a < |b| {
      UrlsSplit(a + 1, b, c);
      assert c[a] == b[a];
    }
  }

  /** Visiting a page not visited before is an extension. */
  lemma ExtendsVisit(st: CrawlState, url: string, depth: nat, hi: nat)
    requires url !in st.visited && depth <= hi
    ensures Extends(st, st.(visited := st.visited + {url}, log := st.log + [PageFetch(url, depth)]), depth, hi)
  {
    UrlsOfLast(st.log, PageFetch(url, depth));
  }

  /** Recording an asset not downloaded before is an extension. */
  lemma ExtendsRecord(st: CrawlState, url: string, lo: nat, hi: nat)
    requires url !in st.downloaded
    ensures Extends(st, st.(downloaded := st.downloaded + {url}, log := st.log + [AssetFetch(url)]), lo, hi)
  {
    UrlsOfLast(st.log, AssetFetch(url));
  }

  lemma ExtendsTrans(a: CrawlState, b: CrawlState, c: CrawlState, lo: nat, hi: nat)
    requires Extends(a, b, lo, hi) && Extends(b, c, lo, hi)
    ensures Extends(a, c, lo, hi)
  {
    UrlsSplit(|a.log|, b.log, c.log);
    forall i | |a.log| <= i < |c.log|
      ensures NewEntry(a, c, c.log[i], lo, hi)
    {
      if i < |b.log| {
        assert c.log[i] == b.log[i];
      }
    }
    forall i, j | |a.log| <= i < j < |c.log| && c.log[i].PageFetch? == c.log[j].PageFetch?
      ensures c.log[i].url != c.log[j].url
    {
      if i < |b.log| {
        assert c.log[i] == b.log[i];
        if j < |b.log| {
          assert c.log[j] == b.log[j];
        }
      }
    }
  }

  /** What `normalize_url(item, page_url)` makes of each item, in order. */
  function Normalized(items: seq<Option<string>>, pageUrl: string): (r: seq<Option<string>>)
    ensures |r| == |items|
  {
    if |items| == 0 then [] else [NormalizeUrl(items[0], pageUrl)] + Normalized(items[1..], pageUrl)
  }

  lemma {:induction false} NormalizedAt(items: seq<Option<string>>, pageUrl: string, k: nat)
    requires k < |items|
    ensures Normalized(items, pageUrl)[k] == NormalizeUrl(items[k], pageUrl)
  {
    if k > 0 {
      NormalizedAt(items[1..], pageUrl, k - 1);
    }
  }

  /** A normalised link or asset is followed: when it is a non-empty URL, it is in `s`. */
  predicate Lands(next: Option<string>, s: set<string>) {
    next.Some? && next.value != [] ==> next.value in s
  }

  /** Every one of the normalised links or assets is followed. */
  predicate AllLand(nexts: seq<Option<string>>, s: set<string>) {
    forall k :: 0 <= k < |nexts| ==> Lands(nexts[k], s)
  }

  /** `scrape_page(url, base_url, depth, max_depth)`. */
  function ScrapePage(site: Site, baseUrl: string, url: string, depth: nat, maxDepth: nat, st: CrawlState): (r: CrawlState)
    ensures Extends(st, r, depth, maxDepth)
    ensures depth > maxDepth || url in st.visited ==> r == st
    ensures depth <= maxDepth ==> url in r.visited
    ensures depth <= maxDepth && url !in st.visited ==>
      |r.log| > |st.log| && r.log[|st.log|] == PageFetch(url, depth) &&
      forall i :: |st.log| < i < |r.log| && r.log[i].PageFetch? ==> r.log[i].depth > depth
    ensures depth <= maxDepth && url !in st.visited && (site.fetch(url).None? || site.fetch(url).value == []) ==>
      r == st.(visited := st.visited + {url}, log := st.log + [PageFetch(url, depth)])
    ensures '#' !in url ==> FragmentFreeFrom(r.log, |st.log|)
    decreases Rank(depth, maxDepth), 1, 0
  {
    if depth > maxDepth || url in st.visited then
      ExtendsRefl(st, depth, maxDepth);
      st
    else
      var st1 := st.(visited := st.visited + {url}, log := st.log + [PageFetch(url, depth)]);
      ExtendsVisit(st, url, depth, maxDepth);
      var content := site.fetch(url);
      if content.None? || content.value == [] then st1
      else
        var found := Feed(site.parse(content.value));
        var st2 := ScrapeLinks(site, baseUrl, url, found.0, depth, maxDepth, st1);
        var r := ScrapeAssets(baseUrl, url, found.1, st2);
        ScrapePageRest(st, st1, st2, r, url, depth, maxDepth);
        r
  }

  /** Below the depth bound, every link found on a downloaded page that normalises to a
      non-empty URL ends up visited (`NormalizedAt` gives the k-th normalised link). */
  lemma ScrapePageFollowsLinks(site: Site, baseUrl: string, url: string, depth: nat, maxDepth: nat, st: CrawlState)
    requires depth < maxDepth && url !in st.visited
    requires site.fetch(url).Some? && site.fetch(url).value != []
    ensures AllLand(Normalized(Feed(site.parse(site.fetch(url).value)).0, url),
                    ScrapePage(site, baseUrl, url, depth, maxDepth, st).visited)
  {
    var found := Feed(site.parse(site.fetch(url).value));
    var st1 := st.(visited := st.visited + {url}, log := st.log + [PageFetch(url, depth)]);
    var st2 := ScrapeLinks(site, baseUrl, url, found.0, depth, maxDepth, st1);
    assert ScrapePage(site, baseUrl, url, depth, maxDepth, st) == ScrapeAssets(baseUrl, url, found.1, st2);
  }

  /** Every asset found on a downloaded page that normalises to a non-empty URL ends up in
      `DOWNLOADED_FILES`, and so was downloaded. */
  lemma ScrapePageFetchesAssets(site: Site, baseUrl: string, url: string, depth: nat, maxDepth: nat, st: CrawlState)
    requires depth <= maxDepth && url !in st.visited
    requires site.fetch(url).Some? && site.fetch(url).value != []
    ensures AllLand(Normalized(Feed(site.parse(site.fetch(url).value)).1, url),
                    ScrapePage(site, baseUrl, url, depth, maxDepth, st).downloaded)
  {
    var found := Feed(site.parse(site.fetch(url).value));
    var st1 := st.(visited := st.visited + {url}, log := st.log + [PageFetch(url, depth)]);
    var st2 := ScrapeLinks(site, baseUrl, url, found.0, depth, maxDepth, st1);
    assert ScrapePage(site, baseUrl, url, depth, maxDepth, st) == ScrapeAssets(baseUrl, url, found.1, st2);
  }

  /** The bookkeeping of `ScrapePage` once the page is visited (`st1`), its links crawled (`st2`)
      and its assets downloaded (`r`). */
  lemma ScrapePageRest(st: CrawlState, st1: CrawlState, st2: CrawlState, r: CrawlState, url: string, depth: nat, maxDepth: nat)
    requires |st1.log| == |st.log| + 1 && url in st1.visited
    requires Extends(st, st1, depth, maxDepth)
    requires Extends(st1, st2, depth + 1, maxDepth)
    requires Extends(st2, r, 0, 0) && r.visited == st2.visited && AssetsFrom(r.log, |st2.log|)
    requires '#' !in url ==> FragmentFreeFrom(st1.log, |st.log|)
    requires '#' !in url ==> FragmentFreeFrom(st2.log, |st1.log|) && FragmentFreeFrom(r.log, |st2.log|)
    ensures Extends(st, r, depth, maxDepth)
    ensures url in r.visited && |r.log| > |st.log| && r.log[|st.log|] == st1.log[|st.log|]
    ensures forall i :: |st.log| < i < |r.log| && r.log[i].PageFetch? ==> r.log[i].depth > depth
    ensures '#' !in url ==> FragmentFreeFrom(r.log, |st.log|)
  {
    ExtendsDeeper(st1, st2, depth + 1, depth, maxDepth);
    assert Extends(st2, r, depth, maxDepth) by {
      forall i | |st2.log| <= i < |r.log|
        ensures NewEntry(st2, r, r.log[i], depth, maxDepth)
      {
        assert NewEntry(st2, r, r.log[i], 0, 0);
      }
    }
    ExtendsTrans(st1, st2, r, depth, maxDepth);
    ExtendsTrans(st, st1, r, depth, maxDepth);
    assert r.log[|st.log|] == st1.log[|st.log|];
    forall i | |st.log| < i < |r.log| && r.log[i].PageFetch?
      ensures r.log[i].depth > depth
    {
      if i < |st2.log| {
        assert r.log[i] == st2.log[i];
      }
    }
    if '#' !in url {
      forall i | |st.log| <= i < |r.log|
        ensures '#' !in r.log[i].url
      {
        if i < |st1.log| {
          assert r.log[i] == st1.log[i];
        } else if i < |st2.log| {
          assert r.log[i] == st2.log[i];
        }
      }
    }
  }

  /** Downloads whose depths lie in `lo..hi` also lie in any wider range. */
  lemma ExtendsDeeper(st: CrawlState, r: CrawlState, lo: nat, lo': nat, hi: nat)
    requires Extends(st, r, lo, hi) && lo' <= lo
    ensures Extends(st, r, lo', hi)
    ensures forall i :: |st.log| <= i < |r.log| && r.log[i].PageFetch? ==> r.log[i].depth >= lo
  {
    assert forall i :: |st.log| <= i < |r.log| ==> NewEntry(st, r, r.log[i], lo, hi);
  }

  /** The `for link in parser.links` loop of `scrape_page` at `depth`: each normalised link not yet
      visited is crawled one level deeper. */
  function ScrapeLinks(site: Site, baseUrl: string, pageUrl: string, links: seq<Option<string>>,
                       depth: nat, maxDepth: nat, st: CrawlState): (r: CrawlState)
    requires depth <= maxDepth
    ensures Extends(st, r, depth + 1, maxDepth)
    ensures '#' !in pageUrl ==> FragmentFreeFrom(r.log, |st.log|)
    ensures depth < maxDepth ==> AllLand(Normalized(links, pageUrl), r.visited)
    decreases Rank(depth, maxDepth), 0, |links|
  {
    if |links| == 0 then
      ExtendsRefl(st, depth + 1, maxDepth);
      st
    else
      var st1 := ScrapeLink(site, baseUrl, pageUrl, links[0], depth, maxDepth, st);
      var r := ScrapeLinks(site, baseUrl, pageUrl, links[1..], depth, maxDepth, st1);
      ExtendsTrans(st, st1, r, depth + 1, maxDepth);
      FragmentFreeSteps(st.log, st1.log, r.log, '#' !in pageUrl);
      LandsCons(NormalizeUrl(links[0], pageUrl), Normalized(links[1..], pageUrl), st1.visited, r.visited,
                depth < maxDepth);
      r
  }

  /** One iteration of the links loop: crawl the normalised link unless it is empty, off-site or
      already visited. */
  function ScrapeLink(site: Site, baseUrl: string, pageUrl: string, link: Option<string>,
                      depth: nat, maxDepth: nat, st: CrawlState): (r: CrawlState)
    requires depth <= maxDepth
    ensures Extends(st, r, depth + 1, maxDepth)
    ensures '#' !in pageUrl ==> FragmentFreeFrom(r.log, |st.log|)
    ensures depth < maxDepth ==> Lands(NormalizeUrl(link, pageUrl), r.visited)
    decreases Rank(depth, maxDepth), 0, 0
  {
    var next := NormalizeUrl(link, pageUrl);
    if next.Some? && next.value != [] && next.value !in st.visited then
      ScrapePage(site, baseUrl, next.value, depth + 1, maxDepth, st)
    else
      ExtendsRefl(st, depth + 1, maxDepth);
      st
  }

  /** Fragment-freedom of the entries past `a` follows from that of the two segments. */
  lemma FragmentFreeSteps(a: seq<Fetch>, b: seq<Fetch>, c: seq<Fetch>, on: bool)
    requires a <= b <= c
    requires on ==> FragmentFreeFrom(b, |a|) && FragmentFreeFrom(c, |b|)
    ensures on ==> FragmentFreeFrom(c, |a|)
  {
    if on {
      forall i | |a| <= i < |b|
        ensures c[i] == b[i]
      {
      }
    }
  }

  /** The `for asset in parser.assets` loop: each normalised asset not yet downloaded is recorded in
      `DOWNLOADED_FILES` and then downloaded. */
  function ScrapeAssets(baseUrl: string, pageUrl: string, assets: seq<Option<string>>, st: CrawlState): (r: CrawlState)
    ensures Extends(st, r, 0, 0)
    ensures r.visited == st.visited
    ensures AssetsFrom(r.log, |st.log|)
    ensures '#' !in pageUrl ==> FragmentFreeFrom(r.log, |st.log|)
    ensures AllLand(Normalized(assets, pageUrl), r.downloaded)
  {
    if |assets| == 0 then
      ExtendsRefl(st, 0, 0);
      st
    else
      var st1 := RecordAsset(pageUrl, assets[0], st);
      var r := ScrapeAssets(baseUrl, pageUrl, assets[1..], st1);
      ExtendsTrans(st, st1, r, 0, 0);
      FragmentFreeSteps(st.log, st1.log, r.log, '#' !in pageUrl);
      AssetSteps(st.log, st1.log, r.log);
      LandsCons(NormalizeUrl(assets[0], pageUrl), Normalized(assets[1..], pageUrl), st1.downloaded, r.downloaded,
                true);
      r
  }

  /** One iteration of the assets loop: record the normalised asset unless it is empty or already
      downloaded. */
  function RecordAsset(pageUrl: string, asset: Option<string>, st: CrawlState): (r: CrawlState)
    ensures Extends(st, r, 0, 0)
    ensures r.visited == st.visited
    ensures AssetsFrom(r.log, |st.log|)
    ensures '#' !in pageUrl ==> FragmentFreeFrom(r.log, |st.log|)
    ensures Lands(NormalizeUrl(asset, pageUrl), r.downloaded)
  {
    var next := NormalizeUrl(asset, pageUrl);
    if next.Some? && next.value != [] && next.value !in st.downloaded then
      ExtendsRecord(st, next.value, 0, 0);
      st.(downloaded := st.downloaded + {next.value}, log := st.log + [AssetFetch(next.value)])
    else
      ExtendsRefl(st, 0, 0);
      st
  }

  /** The first followed into an intermediate set and the rest into a larger final one: all of
      them are followed into the final set. */
  lemma LandsCons(next: Option<string>, rest: seq<Option<string>>, mid: set<string>, s: set<string>, on: bool)
    requires mid <= s
    requires on ==> Lands(next, mid) && AllLand(rest, s)
    ensures on ==> AllLand([next] + rest, s)
  {
    if on {
      forall k | 0 <= k < |[next] + rest|
        ensures Lands(([next] + rest)[k], s)
      {
        if k > 0 {
          assert ([next] + rest)[k] == rest[k - 1];
        }
      }
    }
  }

  lemma AssetSteps(a: seq<Fetch>, b: seq<Fetch>, c: seq<Fetch>)
    requires a <= b <= c
    requires AssetsFrom(b, |a|) && AssetsFrom(c, |b|)
    ensures AssetsFrom(c, |a|)
  {
    forall i | |a| <= i < |b|
      ensures c[i] == b[i]
    {
    }
  }
}
