/** `server.js`: the Express server that publishes the mirrored site from `public`.
    A request is answered, in this order, by the static-file middleware, by one of
    five explicit routes that map nested service paths to the flattened files the
    Python scrapers write, and finally by a fallback that tries the path, the path
    with `.html`, and the home page.

    The file system and the static middleware are oracles.
 */
module Server {
  import opened Text
  import ScrapeSoup
  import ScraperJs
  import opened Optional

  /** The directory every file is served from (`path.join(__dirname, 'public')`). */
  const Public: string := "public"

  /** One entry of `routeMap`: the request path `/dir/page` and the file under `public` it is
      served from. Every key of the map has exactly two segments. */
  datatype Route = Route(dir: string, page: string, file: string)

  function Key(r: Route): string {
    "/" + r.dir + "/" + r.page
  }

  /** `routeMap`, in the order its keys are registered. */
  const RouteMap: seq<Route> := [
    Route("griffin", "bookkeeping", "griffin-bookkeeping.html"),
    Route("griffin", "business-services", "griffin-business-services.html"),
    Route("griffin", "tax-planning", "griffin-tax-planning.html"),
    Route("griffin", "taxes", "griffin-taxes.html"),
    Route("griffin_accounting", "about", "griffin_accounting-about.html")
  ]

  /** A non-empty path segment. */
  predicate Segment(s: string) {
    s != [] && '/' !in s
  }

  /** A key whose file is its two segments joined with '-', plus `.html`. */
  predicate Flattened(r: Route) {
    && Segment(r.dir) && Segment(r.page) && '.' !in r.page
    && r.file == r.dir + "-" + r.page + ".html"
  }

  /** Every entry of `routeMap` maps its key to the flattened name. */
  lemma RouteMapFlattened()
    ensures forall k :: 0 <= k < |RouteMap| ==> Flattened(RouteMap[k])
  {
    DirSegments();
    BookkeepingSegment();
    BookkeepingFile();
    BusinessServicesSegment();
    BusinessServicesFile();
    TaxPlanningSegment();
    TaxPlanningFile();
    TaxesSegment();
    TaxesFile();
    AboutSegment();
    AboutFile();
  }

  lemma DirSegments()
    ensures Segment("griffin") && Segment("griffin_accounting")
  {
  }

  lemma BookkeepingSegment()
    ensures Segment("bookkeeping") && '.' !in "bookkeeping"
  {
  }

  lemma BookkeepingFile()
    ensures "griffin-bookkeeping.html" == "griffin" + "-" + "bookkeeping" + ".html"
  {
  }

  lemma BusinessServicesSegment()
    ensures Segment("business-services") && '.' !in "business-services"
  {
  }

  lemma BusinessServicesFile()
    ensures "griffin-business-services.html" == "griffin" + "-" + "business-services" + ".html"
  {
  }

  lemma TaxPlanningSegment()
    ensures Segment("tax-planning") && '.' !in "tax-planning"
  {
  }

  lemma TaxPlanningFile()
    ensures "griffin-tax-planning.html" == "griffin" + "-" + "tax-planning" + ".html"
  {
  }

  lemma TaxesSegment()
    ensures Segment("taxes") && '.' !in "taxes"
  {
  }

  lemma TaxesFile()
    ensures "griffin-taxes.html" == "griffin" + "-" + "taxes" + ".html"
  {
  }

  lemma AboutSegment()
    ensures Segment("about") && '.' !in "about"
  {
  }

  lemma AboutFile()
    ensures "griffin_accounting-about.html" == "griffin_accounting" + "-" + "about" + ".html"
  {
  }

  /** A flattened entry serves the very file `get_local_filename` of the flattening scraper
      writes for the key, so the routes serve what that scraper saved. */
  lemma FlattenedIsSoupFile(r: Route)
    requires Flattened(r)
    ensures r.file == ScrapeSoup.PageFilename(Key(r))
  {
    ScrapeSoup.NestedPage(r.dir, r.page);
  }

  /** Express's default route matching: case-insensitive, with one optional trailing '/'. */
  predicate Matches(route: string, path: string) {
    Lower(path) == Lower(route) || Lower(path) == Lower(route) + "/"
  }

  /** A route matches its own path, in any letter case, with or without a trailing '/'. */
  lemma MatchesOwnPath(route: string, path: string)
    requires Lower(path) == Lower(route)
    ensures Matches(route, path) && Matches(route, path + "/")
  {
    assert Lower(path + "/") == Lower(path) + "/" by {
      var l := Lower(path + "/");
      assert l[|path|] == LowerChar('/');
    }
  }

  /** Two routes no path can both match: different lengths, and where one is a character longer,
      that character is not '/'. */
  predicate Apart(a: string, b: string) {
    && |a| != |b|
    && (|b| == |a| + 1 ==> LowerChar(b[|a|]) != '/')
    && (|a| == |b| + 1 ==> LowerChar(a[|b|]) != '/')
  }

  lemma ApartNoCommonMatch(a: string, b: string, path: string)
    requires Apart(a, b)
    ensures !(Matches(a, path) && Matches(b, path))
  {
  }

  /** No two entries of `routes` can match the same request. */
  predicate Disjoint(routes: seq<Route>) {
    forall i, j :: 0 <= i < j < |routes| ==> Apart(Key(routes[i]), Key(routes[j]))
  }

  /** The keys of `routeMap` have lengths 20, 26, 21, 14 and 25; in the two pairs one apart the
      longer key has a letter where the shorter would need its trailing '/', so registration order
      never decides between them. */
  lemma RouteMapDisjoint()
    ensures Disjoint(RouteMap)
  {
    KeyShapes();
  }

  lemma KeyShapes()
    ensures |Key(RouteMap[0])| == 20 && |Key(RouteMap[1])| == 26 && |Key(RouteMap[2])| == 21
    ensures |Key(RouteMap[3])| == 14 && |Key(RouteMap[4])| == 25
    ensures Key(RouteMap[2])[20] == 'g' && Key(RouteMap[1])[25] == 's'
  {
  }

  /** Index of the first entry of `routes` matching `path`, or `|routes|` when none does. */
  function FirstRoute(routes: seq<Route>, path: string, from: nat): (k: nat)
    requires from <= |routes|
    ensures from <= k <= |routes|
    ensures k < |routes| ==> Matches(Key(routes[k]), path)
    ensures forall i :: from <= i < k ==> !Matches(Key(routes[i]), path)
    decreases |routes| - from
  {
    if from == |routes| then from
    else if Matches(Key(routes[from]), path) then from
    else FirstRoute(routes, path, from + 1)
  }

  /** The disk under the server: `present` is `fs.existsSync`, `isFile` is `statSync().isFile()`. */
  datatype FileSystem = FileSystem(present: string -> bool, isFile: string -> bool)

  /** A GET (or HEAD) request and its `req.path`. */
  datatype Request = Request(get: bool, path: string)

  /** What answers the request: the static middleware with whatever it sends, or `sendFile`. */
  datatype Reply = Static(sent: string) | SendFile(file: string)

  /** The file the fallback handler sends for `req.path`: the path itself if it is a file,
      else the path with `.html` if that exists at all, else the home page. */
  function Fallback(fs: FileSystem, path: string): (r: string)
    ensures r == Public + path || r == Public + path + ".html" || r == Public + "/index.html"
    ensures fs.present(Public + path) && fs.isFile(Public + path) ==> r == Public + path
    ensures r != Public + "/index.html" ==> fs.present(r)
    ensures r == Public + path && path != "/index.html" ==> fs.present(r) && fs.isFile(r)
    ensures !(fs.present(Public + path) && fs.isFile(Public + path)) && fs.present(Public + path + ".html") ==>
      r == Public + path + ".html"
    ensures r == Public + "/index.html" && path != "/index" && path != "/index.html" ==>
      !fs.present(Public + path + ".html")
  {
    var file := Public + path;
    FallbackNames(path);
    if fs.present(file) && fs.isFile(file) then file
    else if fs.present(file + ".html") then file + ".html"
    else Public + "/index.html"
  }

  /** The three candidates of the fallback differ, except where the request path itself names
      the home page. */
  lemma FallbackNames(path: string)
    ensures Public + path != Public + path + ".html"
    ensures Public + path == Public + "/index.html" ==> path == "/index.html"
    ensures Public + path + ".html" == Public + "/index.html" ==> path == "/index"
  {
    if Public + path == Public + "/index.html" {
      assert path == (Public + path)[|Public|..];
    }
    if Public + path + ".html" == Public + "/index.html" {
      assert path + ".html" == (Public + path + ".html")[|Public|..];
      assert path == (path + ".html")[..|path|];
      assert "/index" == "/index.html"[..6];
    }
  }

  /** The whole middleware stack for one request, with `routes` registered in order (the
      server registers `RouteMap`). `assets(p)` is what `express.static` sends for a GET of `p`,
      or None when it passes the request on. */
  function Serve(fs: FileSystem, assets: string -> Option<string>, routes: seq<Route>, req: Request): (r: Reply)
    ensures req.get && assets(req.path).Some? ==> r == Static(assets(req.path).value)
    ensures r.SendFile? ==> StartsWith(r.file, Public)
    ensures r.Static? ==> req.get
    ensures !req.get ==> r == SendFile(Fallback(fs, req.path))
    ensures req.get && assets(req.path).None? && (forall k :: 0 <= k < |routes| ==> !Matches(Key(routes[k]), req.path)) ==>
      r == SendFile(Fallback(fs, req.path))
    ensures req.get && assets(req.path).None? && (exists k :: 0 <= k < |routes| && Matches(Key(routes[k]), req.path)) ==>
      r == SendFile(Public + "/" + routes[FirstRoute(routes, req.path, 0)].file)
  {
    if req.get && assets(req.path).Some? then Static(assets(req.path).value)
    else
      var k := FirstRoute(routes, req.path, 0);
      if req.get && k < |routes| then SendFile(Public + "/" + routes[k].file)
      else SendFile(Fallback(fs, req.path))
  }

  /** A mapped route wins over the fallback whatever is on disk. */
  lemma RouteServed(fs: FileSystem, assets: string -> Option<string>, routes: seq<Route>,
                    req: Request, k: int)
    requires Disjoint(routes)
    requires req.get && assets(req.path).None?
    requires 0 <= k < |routes| && Matches(Key(routes[k]), req.path)
    ensures Serve(fs, assets, routes, req) == SendFile(Public + "/" + routes[k].file)
  {
    FirstRouteUnique(routes, req.path, k);
  }

  /** In disjoint routes, the first match is the only match. */
  lemma FirstRouteUnique(routes: seq<Route>, path: string, k: int)
    requires Disjoint(routes)
    requires 0 <= k < |routes| && Matches(Key(routes[k]), path)
    ensures FirstRoute(routes, path, 0) == k
  {
    var first := FirstRoute(routes, path, 0);
    if first < k {
      ApartNoCommonMatch(Key(routes[first]), Key(routes[k]), path);
    }
  }

  /** A page the Puppeteer scraper captured for `/x` is found by the fallback's `.html` step
      when the static middleware and the routes pass the request on and `public/x` is no file. */
  lemma CapturedPageServed(fs: FileSystem, assets: string -> Option<string>, routes: seq<Route>,
                           req: Request)
    requires req.get && assets(req.path).None?
    requires forall k :: 0 <= k < |routes| ==> !Matches(Key(routes[k]), req.path)
    requires req.path == [] || req.path[|req.path| - 1] != '/'
    requires !(fs.present(Public + req.path) && fs.isFile(Public + req.path))
    requires fs.present(Public + ScraperJs.PageFile(req.path))
    ensures Serve(fs, assets, routes, req) == SendFile(Public + ScraperJs.PageFile(req.path))
  {
    ScraperJs.PageFileTrailingSlash(req.path);
    assert Public + req.path + ".html" == Public + (req.path + ".html");
  }

  /** With a trailing '/', the fallback looks for `x/.html`, not for the `x.html` the scraper
      wrote for `/x/`: when neither `public/x/` nor `public/x/.html` is there, the home page
      is sent instead. */
  lemma TrailingSlashMissesPage(fs: FileSystem, x: string)
    requires x == [] || x[|x| - 1] != '/'
    requires fs.present(Public + ScraperJs.PageFile(x + "/"))
    requires !fs.present(Public + x + "/") && !fs.present(Public + x + "/" + ".html")
    ensures Fallback(fs, x + "/") == Public + "/index.html"
    ensures ScraperJs.PageFile(x + "/") == x + ".html"
  {
    assert ScraperJs.PageFile(x + "/") == x + ".html" by {
      ScraperJs.PageFileTrailingSlash(x);
    }
    assert Fallback(fs, x + "/") == Public + "/index.html" by {
      assert Public + (x + "/") == Public + x + "/";
      assert Public + (x + "/") + ".html" == Public + x + "/" + ".html";
      FallbackHome(fs, x + "/");
    }
  }

  /** Neither the path nor the path with `.html` present: the home page is sent. */
  lemma FallbackHome(fs: FileSystem, path: string)
    requires !fs.present(Public + path) && !fs.present(Public + path + ".html")
    ensures Fallback(fs, path) == Public + "/index.html"
  {
  }
}
