/** The part of Python's `urllib.parse` the crawlers rely on: `urlsplit`,
    `urlparse`'s path component, `urlunsplit` and `urljoin`.

    Components follow section 3 of RFC 3986 as Python splits them; reference
    resolution follows section 5.2 of RFC 3986 as Python's `urljoin` performs
    it. What the crawlers need from these functions is proved below as lemmas:
    splitting undoes unsplitting, a relative reference keeps the base's host,
    an absolute reference keeps its own, and dropping a fragment changes no
    other component.
 */
module Urls {
  import opened Text

  /** The five components `urlsplit` returns; absent ones are "". */
  datatype Parts = Parts(scheme: string, netloc: string, path: string, query: string, fragment: string)

  /** Schemes Python's `urljoin` resolves relative references against. */
  const UsesRelative: set<string> :=
    {"", "ftp", "http", "gopher", "nntp", "imap", "wais", "file", "https", "shttp", "mms",
     "prospero", "rtsp", "rtsps", "rtspu", "sftp", "svn", "svn+ssh", "ws", "wss"}

  /** Schemes whose URLs carry an authority (`//netloc`). */
  const UsesNetloc: set<string> :=
    {"", "ftp", "http", "gopher", "nntp", "telnet", "imap", "wais", "file", "mms", "https",
     "shttp", "snews", "prospero", "rtsp", "rtsps", "rtspu", "rsync", "svn", "svn+ssh", "sftp",
     "nfs", "git", "git+ssh", "ws", "wss", "itms-services"}

  /** Schemes whose last path segment may carry `;params`. */
  const UsesParams: set<string> :=
    {"", "ftp", "hdl", "prospero", "http", "imap", "https", "shttp", "rtsp", "rtsps", "rtspu",
     "sip", "sips", "mms", "sftp", "tel"}

  predicate IsAlpha(ch: char) {
    'a' <= ch <= 'z' || 'A' <= ch <= 'Z'
  }

  predicate IsSchemeChar(ch: char) {
    IsAlpha(ch) || '0' <= ch <= '9' || ch == '+' || ch == '-' || ch == '.'
  }

  /** A scheme: a letter followed by letters, digits, '+', '-' or '.'. */
  predicate IsScheme(s: string) {
    |s| > 0 && IsAlpha(s[0]) && forall i :: 0 <= i < |s| ==> IsSchemeChar(s[i])
  }

  predicate IsNetlocDelimiter(ch: char) {
    ch == '/' || ch == '?' || ch == '#'
  }

  /** Splits off `scheme:` when the text before the first ':' is a scheme. */
  function SplitScheme(s: string): (r: (string, string))
    ensures r.0 == [] ==> r.1 == s
    ensures r.0 != [] ==> IsScheme(r.0) && Lower(r.0) == r.0 && EndsWith(s, [':'] + r.1)
    ensures EndsWith(s, r.1)
  {
    var i := IndexOf(s, ':');
    if i > 0 && IsScheme(s[..i]) then
      LowerScheme(s[..i]);
      assert s[i..][0] == ':' && s[i..][1..] == s[i + 1..];
      assert s[i..] == [':'] + s[i + 1..];
      (Lower(s[..i]), s[i + 1..])
    else ([], s)
  }

  lemma LowerScheme(s: string)
    requires IsScheme(s)
    ensures IsScheme(Lower(s)) && Lower(Lower(s)) == Lower(s)
  {
  }

  /** Length of the authority: up to the first '/', '?' or '#'. */
  function NetlocEnd(s: string): (n: nat)
    ensures n <= |s|
    ensures forall i :: 0 <= i < n ==> !IsNetlocDelimiter(s[i])
    ensures n < |s| ==> IsNetlocDelimiter(s[n])
  {
    if |s| == 0 || IsNetlocDelimiter(s[0]) then 0 else 1 + NetlocEnd(s[1..])
  }

  /** Splits off `//netloc` when the text starts with "//". */
  function SplitAuthority(a: string): (r: (string, string))
    ensures forall i :: 0 <= i < |r.0| ==> !IsNetlocDelimiter(r.0[i])
    ensures EndsWith(a, r.1)
    ensures (r.0 == [] && r.1 == a) || StartsWith(a, "//" + r.0)
  {
    if |a| >= 2 && a[..2] == "//" then
      var n := NetlocEnd(a[2..]);
      assert a[2..][..n] == a[2..2 + n];
      (a[2..][..n], a[2..][n..])
    else ([], a)
  }

  /** Python `urlsplit(url)`. */
  function Split(url: string): (p: Parts)
    ensures p.scheme == [] || (IsScheme(p.scheme) && Lower(p.scheme) == p.scheme)
    ensures forall i :: 0 <= i < |p.netloc| ==> !IsNetlocDelimiter(p.netloc[i])
    ensures '?' !in p.path && '#' !in p.path && '#' !in p.query
    ensures '#' !in url ==> p.fragment == []
  {
    var sa := SplitScheme(url);
    var na := SplitAuthority(sa.1);
    assert '#' !in url ==> '#' !in na.1 by {
      if '#' !in url {
        AffixFree(url, sa.1, '#');
        AffixFree(sa.1, na.1, '#');
      }
    }
    WithRest(sa.0, na.0, na.1)
  }

  /** The components once scheme and authority are split off: path, `?query`, `#fragment`. */
  function WithRest(scheme: string, netloc: string, rest: string): (p: Parts)
    ensures p.scheme == scheme && p.netloc == netloc
    ensures '?' !in p.path && '#' !in p.path && '#' !in p.query
    ensures '#' !in rest ==> p.fragment == []
  {
    var c := BeforeFirst(rest, '#');
    var path := BeforeFirst(c, '?');
    var query := AfterFirst(c, '?');
    AffixFree(c, path, '#');
    AffixFree(c, query, '#');
    Parts(scheme, netloc, path, query, AfterFirst(rest, '#'))
  }

  /** Python `urlparse(url).path`: the split path with the last segment's `;params` removed. */
  function ParsedPath(url: string): string {
    var p := Split(url);
    PathWithoutParams(p.scheme, p.path)
  }

  function PathWithoutParams(scheme: string, path: string): (r: string)
    ensures StartsWith(path, r)
    ensures ';' !in path ==> r == path
  {
    if scheme in UsesParams && ';' in path then WithoutParams(path)
    else
      PrefixSelf(path);
      path
  }

  /** Python's `_splitparams`: cut the last segment at its first ';'. */
  function WithoutParams(path: string): (r: string)
    ensures StartsWith(path, r)
  {
    var slash := LastIndexOf(path, '/');
    var dir := path[..slash + 1];
    var last := path[slash + 1..];
    assert path == dir + last;
    PrefixConcat(dir, last, BeforeFirst(last, ';'));
    dir + BeforeFirst(last, ';')
  }

  /** The path `Unsplit` writes after an authority: rooted with a '/'. */
  function Rooted(path: string): (r: string)
    ensures r == [] || r[0] == '/'
  {
    if path != [] && path[0] != '/' then "/" + path else path
  }

  /** Python `urlunsplit(parts)`. */
  function Unsplit(p: Parts): string {
    var path :=
      if p.netloc != [] || (p.scheme != [] && p.scheme in UsesNetloc && !StartsWith(p.path, "//")) then
        "//" + p.netloc + Rooted(p.path)
      else p.path;
    var withScheme := if p.scheme != [] then p.scheme + ":" + path else path;
    var withQuery := if p.query != [] then withScheme + "?" + p.query else withScheme;
    if p.fragment != [] then withQuery + "#" + p.fragment else withQuery
  }

  /** Components `Unsplit` reproduces exactly: a scheme and a non-empty authority. */
  predicate Absolute(p: Parts) {
    && IsScheme(p.scheme) && Lower(p.scheme) == p.scheme
    && p.netloc != []
    && (forall i :: 0 <= i < |p.netloc| ==> !IsNetlocDelimiter(p.netloc[i]))
    && '?' !in p.path && '#' !in p.path && '#' !in p.query
  }

  /** A base a crawler starts from: an absolute http(s)-style URL with a host and no fragment. */
  predicate HttpBase(baseUrl: string) {
    var b := Split(baseUrl);
    && baseUrl != [] && b.scheme != [] && b.scheme in UsesRelative && b.scheme in UsesNetloc
    && b.netloc != [] && '#' !in baseUrl
  }

  /** Python's `urljoin(base, url)` (section 5.2.2 of RFC 3986). */
  function Resolve(base: string, ref: string): string {
    if base == [] then ref
    else if ref == [] then base
    else ResolveSplit(Split(base), Split(ref), ref)
  }

  /** `urljoin` once both URLs are split: `b` is the base's components, `r` the reference's. */
  function ResolveSplit(b: Parts, r: Parts, ref: string): string {
    var scheme := if r.scheme == [] then b.scheme else r.scheme;
    if scheme != b.scheme || scheme !in UsesRelative then ref
    else if scheme in UsesNetloc && r.netloc != [] then
      Unsplit(Parts(scheme, r.netloc, r.path, r.query, r.fragment))
    else
      var netloc := if scheme in UsesNetloc then b.netloc else r.netloc;
      if r.path == [] then
        Unsplit(Parts(scheme, netloc, b.path, if r.query == [] then b.query else r.query, r.fragment))
      else
        Unsplit(Parts(scheme, netloc, MergePath(b.path, r.path), r.query, r.fragment))
  }

  /** Path merging with dot-segment removal, as Python's `urljoin` performs it. */
  function MergePath(basePath: string, path: string): string {
    var joined := JoinWith(DotFree(MergeSegments(basePath, path)), '/');
    if joined == [] then "/" else joined
  }

  /** The base's directory segments followed by the reference's, or the reference's alone when it
      is rooted; empty inner segments are dropped from a relative merge. */
  function MergeSegments(basePath: string, path: string): (r: seq<string>)
    ensures |r| >= 1
    ensures forall x :: x !in basePath && x !in path ==> Free(r, x)
  {
    var baseParts := SplitOn(basePath, '/');
    var dir := if baseParts[|baseParts| - 1] != [] then baseParts[..|baseParts| - 1] else baseParts;
    var r :=
      if StartsWith(path, "/") then SplitOn(path, '/')
      else DropInnerEmpty(dir + SplitOn(path, '/'));
    forall x | x !in basePath && x !in path ensures Free(r, x) {
      MergeFree(basePath, path, dir, x);
    }
    r
  }

  /** The pieces a merge starts from hold no character absent from both paths. */
  lemma MergeFree(basePath: string, path: string, dir: seq<string>, x: char)
    requires dir <= SplitOn(basePath, '/')
    requires x !in basePath && x !in path
    ensures Free(SplitOn(path, '/'), x) && Free(dir + SplitOn(path, '/'), x)
  {
    SplitChars(basePath, '/', x);
    SplitChars(path, '/', x);
    assert Free(dir, x);
  }

  /** Dot-segment removal; a trailing '.' or '..' leaves a trailing '/'. */
  function DotFree(segments: seq<string>): (r: seq<string>)
    requires |segments| >= 1
    ensures forall x :: Free(segments, x) ==> Free(r, x)
  {
    var last := segments[|segments| - 1];
    var r := RemoveDots(segments, []) + (if last == "." || last == ".." then [[]] else []);
    assert forall x :: Free(segments, x) ==> Free(r, x) by {
      forall x | Free(segments, x) ensures Free(r, x) {
        assert Free(RemoveDots(segments, []), x);
      }
    }
    r
  }

  /** Python `segments[1:-1] = filter(None, segments[1:-1])`. */
  function DropInnerEmpty(segments: seq<string>): (r: seq<string>)
    requires |segments| >= 1
    ensures |r| >= 1 && r[|r| - 1] == segments[|segments| - 1]
    ensures forall x :: Free(segments, x) ==> Free(r, x)
  {
    if |segments| == 1 then segments
    else
      var inner := segments[1..|segments| - 1];
      var r := [segments[0]] + NonEmpty(inner) + [segments[|segments| - 1]];
      assert forall x :: Free(segments, x) ==> Free(r, x) by {
        forall x | Free(segments, x) ensures Free(r, x) {
          assert Free(inner, x);
        }
      }
      r
  }

  function NonEmpty(xs: seq<string>): (r: seq<string>)
    ensures forall k :: 0 <= k < |r| ==> r[k] != []
    ensures forall x :: Free(xs, x) ==> Free(r, x)
  {
    if |xs| == 0 then []
    else
      var rest := NonEmpty(xs[1..]);
      assert forall x :: Free(xs, x) ==> Free(xs[1..], x);
      if xs[0] == [] then rest else [xs[0]] + rest
  }

  /** '..' pops the last kept segment (if any), '.' is skipped, anything else is kept. */
  function RemoveDots(segments: seq<string>, kept: seq<string>): (r: seq<string>)
    ensures forall x :: Free(segments, x) && Free(kept, x) ==> Free(r, x)
  {
    if |segments| == 0 then kept
    else
      var seg := segments[0];
      var next := if seg == ".." then (if |kept| > 0 then kept[..|kept| - 1] else kept)
                  else if seg == "." then kept
                  else kept + [seg];
      RemoveDots(segments[1..], next)
  }
}
