/** Properties of the `urllib.parse` model that the crawlers depend on. */
module UrlLaws {
  import opened Text
  import opened Urls

  lemma SchemeFree(s: string, x: char)
    requires IsScheme(s)
    requires !IsSchemeChar(x)
    ensures x !in s
  {
  }

  /** The authority ends at the first delimiter of the left part, or where the left part ends. */
  lemma {:induction false} NetlocEndConcat(a: string, b: string)
    requires forall i :: 0 <= i < |a| ==> !IsNetlocDelimiter(a[i])
    requires b == [] || IsNetlocDelimiter(b[0])
    ensures NetlocEnd(a + b) == |a|
  {
    if |a| > 0 {
      assert (a + b)[1..] == a[1..] + b;
      NetlocEndConcat(a[1..], b);
    } else {
      assert a + b == b;
    }
  }

  lemma SplitSchemeOf(scheme: string, rest: string)
    requires IsScheme(scheme) && Lower(scheme) == scheme
    ensures SplitScheme(scheme + ":" + rest) == (scheme, rest)
  {
    var u := scheme + ":" + rest;
    SchemeFree(scheme, ':');
    IndexOfConcat(scheme, ":" + rest, ':');
    assert u == scheme + (":" + rest);
    assert u[..|scheme|] == scheme;
    assert u[|scheme| + 1..] == rest;
  }

  lemma SplitAuthorityOf(netloc: string, tail: string)
    requires forall i :: 0 <= i < |netloc| ==> !IsNetlocDelimiter(netloc[i])
    requires tail == [] || IsNetlocDelimiter(tail[0])
    ensures SplitAuthority("//" + netloc + tail) == (netloc, tail)
  {
    var t := "//" + netloc + tail;
    NetlocEndConcat(netloc, tail);
    assert t[2..] == netloc + tail;
    assert (netloc + tail)[..|netloc|] == netloc;
    assert (netloc + tail)[|netloc|..] == tail;
  }

  /** The text after the authority: rooted path, then `?query`, then `#fragment`, each only when non-empty. */
  function Tail(path: string, query: string, fragment: string): string {
    Rooted(path) + (if query != [] then "?" + query else []) + (if fragment != [] then "#" + fragment else [])
  }

  /** Appending an optional `c`-prefixed part to text free of `c` can be undone by cutting at `c`. */
  lemma CutOptional(x: string, c: char, part: string)
    requires c !in x
    ensures var t := x + (if part != [] then [c] + part else []);
      BeforeFirst(t, c) == x && AfterFirst(t, c) == part
  {
    if part != [] {
      CutAt(x, c, part);
      assert x + ([c] + part) == x + [c] + part;
    } else {
      assert x + [] == x;
    }
  }

  lemma CutTail(path: string, query: string, fragment: string)
    requires '?' !in path && '#' !in path && '#' !in query
    ensures var t := Tail(path, query, fragment);
      && BeforeFirst(BeforeFirst(t, '#'), '?') == Rooted(path)
      && AfterFirst(BeforeFirst(t, '#'), '?') == query
      && AfterFirst(t, '#') == fragment
  {
    var r := Rooted(path);
    var q := if query != [] then "?" + query else [];
    assert '?' !in r && '#' !in r;
    assert '#' !in q;
    CutOptional(r + q, '#', fragment);
    CutOptional(r, '?', query);
  }

  /** `urlsplit` undoes `urlunsplit` for an absolute URL; the path comes back rooted. */
  lemma SplitUnsplit(p: Parts)
    requires Absolute(p)
    ensures Split(Unsplit(p)) == p.(path := Rooted(p.path))
  {
    var tail := Tail(p.path, p.query, p.fragment);
    var t := "//" + p.netloc + tail;
    assert Unsplit(p) == p.scheme + ":" + t;
    SplitSchemeOf(p.scheme, t);
    assert tail == [] || IsNetlocDelimiter(tail[0]);
    SplitAuthorityOf(p.netloc, tail);
    CutTail(p.path, p.query, p.fragment);
  }

  /** What may follow the text before the first '#': nothing, or the fragment with its '#'. */
  predicate FragmentTail(t: string) {
    t == [] || t[0] == '#'
  }

  lemma {:induction false} NetlocEndAppend(a: string, b: string)
    ensures NetlocEnd(a) < |a| ==> NetlocEnd(a + b) == NetlocEnd(a)
    ensures NetlocEnd(a) == |a| ==> NetlocEnd(a + b) == |a| + NetlocEnd(b)
  {
    if |a| > 0 {
      assert (a + b)[1..] == a[1..] + b;
      NetlocEndAppend(a[1..], b);
    } else {
      assert a + b == b;
    }
  }

  lemma SplitSchemeAppend(s: string, t: string)
    requires '#' !in s && FragmentTail(t)
    ensures SplitScheme(s + t) == (SplitScheme(s).0, SplitScheme(s).1 + t)
  {
    IndexOfConcat(s, t, ':');
    var i := IndexOf(s + t, ':');
    if ':' in s {
      assert (s + t)[..i] == s[..i];
      assert (s + t)[i + 1..] == s[i + 1..] + t;
    } else if ':' in t {
      assert i > |s|;
      assert (s + t)[..i][|s|] == '#';
      assert !IsScheme((s + t)[..i]);
    }
  }

  lemma SplitAuthorityAppend(a: string, t: string)
    requires '#' !in a && FragmentTail(t)
    ensures SplitAuthority(a + t) == (SplitAuthority(a).0, SplitAuthority(a).1 + t)
  {
    if |a| >= 2 {
      assert (a + t)[..2] == a[..2];
      if a[..2] == "//" {
        var x := a[2..];
        assert (a + t)[2..] == x + t;
        NetlocEndAppend(x, t);
        var n := NetlocEnd(x);
        if n == |x| {
          assert '#' !in x;
          assert NetlocEnd(t) == 0;
        }
        assert (x + t)[..n] == x[..n];
        assert (x + t)[n..] == x[n..] + t;
      }
    } else if t != [] {
      assert (a + t)[|a|] == '#';
    } else {
      assert a + t == a;
    }
  }

  lemma WithRestAppend(scheme: string, netloc: string, b: string, t: string)
    requires '#' !in b && FragmentTail(t)
    ensures WithRest(scheme, netloc, b) == WithRest(scheme, netloc, b + t).(fragment := [])
  {
    if t != [] {
      CutAt(b, '#', t[1..]);
      assert b + t == b + ['#'] + t[1..];
    } else {
      assert b + t == b;
    }
  }

  /** Cutting the fragment off a URL leaves every other component as `urlsplit` finds it. */
  lemma SplitBeforeFragment(url: string)
    ensures Split(BeforeFirst(url, '#')) == Split(url).(fragment := [])
  {
    var s := BeforeFirst(url, '#');
    var t := url[|s|..];
    assert url == s + t;
    SplitSchemeAppend(s, t);
    var rest := SplitScheme(s).1;
    AffixFree(s, rest, '#');
    SplitAuthorityAppend(rest, t);
    var b := SplitAuthority(rest).1;
    AffixFree(rest, b, '#');
    WithRestAppend(SplitScheme(s).0, SplitAuthority(rest).0, b, t);
  }

  /** Merging never introduces a character other than '/'. */
  lemma MergePathFree(basePath: string, path: string, x: char)
    requires x != '/' && x !in basePath && x !in path
    ensures x !in MergePath(basePath, path)
  {
    JoinChars(DotFree(MergeSegments(basePath, path)), '/', x);
  }

  /** `urlunsplit` adds only ':', '/', '?' and, for a non-empty fragment, '#'. */
  lemma UnsplitFree(p: Parts, x: char)
    requires x != ':' && x != '/' && x != '?'
    requires x !in p.scheme && x !in p.netloc && x !in p.path && x !in p.query
    requires p.fragment == []
    ensures x !in Unsplit(p)
  {
  }

  /** Resolving a reference against an absolute http(s)-like base keeps the base's scheme; the
      result's host is the reference's own when it names one and the base's otherwise; the
      fragment is the reference's. */
  lemma ResolveHost(base: string, ref: string)
    requires base != [] && ref != []
    requires Split(base).scheme != [] && Split(base).netloc != []
    requires Split(base).scheme in UsesRelative && Split(base).scheme in UsesNetloc
    requires Split(ref).scheme == [] || Split(ref).scheme == Split(base).scheme
    ensures Split(Resolve(base, ref)).scheme == Split(base).scheme
    ensures Split(Resolve(base, ref)).netloc ==
      (if Split(ref).netloc != [] then Split(ref).netloc else Split(base).netloc)
    ensures Split(Resolve(base, ref)).fragment == Split(ref).fragment
  {
    ResolveSplitHost(Split(base), Split(ref), ref);
  }

  lemma ResolveSplitHost(b: Parts, r: Parts, ref: string)
    requires IsScheme(b.scheme) && Lower(b.scheme) == b.scheme
    requires b.netloc != [] && forall i :: 0 <= i < |b.netloc| ==> !IsNetlocDelimiter(b.netloc[i])
    requires forall i :: 0 <= i < |r.netloc| ==> !IsNetlocDelimiter(r.netloc[i])
    requires '?' !in b.path && '#' !in b.path && '#' !in b.query
    requires '?' !in r.path && '#' !in r.path && '#' !in r.query
    requires b.scheme in UsesRelative && b.scheme in UsesNetloc
    requires r.scheme == [] || r.scheme == b.scheme
    ensures Split(ResolveSplit(b, r, ref)).scheme == b.scheme
    ensures Split(ResolveSplit(b, r, ref)).netloc == (if r.netloc != [] then r.netloc else b.netloc)
    ensures Split(ResolveSplit(b, r, ref)).fragment == r.fragment
  {
    var p :=
      if r.netloc != [] then Parts(b.scheme, r.netloc, r.path, r.query, r.fragment)
      else if r.path == [] then Parts(b.scheme, b.netloc, b.path, if r.query == [] then b.query else r.query, r.fragment)
      else Parts(b.scheme, b.netloc, MergePath(b.path, r.path), r.query, r.fragment);
    if r.netloc == [] && r.path != [] {
      MergePathFree(b.path, r.path, '?');
      MergePathFree(b.path, r.path, '#');
    }
    assert ResolveSplit(b, r, ref) == Unsplit(p);
    SplitAbsolute(ResolveSplit(b, r, ref), p);
  }

  lemma SplitAbsolute(u: string, p: Parts)
    requires Absolute(p) && u == Unsplit(p)
    ensures Split(u).scheme == p.scheme && Split(u).netloc == p.netloc && Split(u).fragment == p.fragment
  {
    SplitUnsplit(p);
  }

  /** A reference whose scheme differs from the base's comes back unchanged. */
  lemma ResolveForeignScheme(base: string, ref: string)
    requires base != []
    requires Split(ref).scheme != [] && Split(ref).scheme != Split(base).scheme
    ensures Resolve(base, ref) == ref
  {
    ResolveSplitForeign(Split(base), Split(ref), ref);
  }

  lemma ResolveSplitForeign(b: Parts, r: Parts, ref: string)
    requires r.scheme != [] && r.scheme != b.scheme
    ensures ResolveSplit(b, r, ref) == ref
  {
  }

  /** Resolving a fragment-free reference against a fragment-free base yields a fragment-free URL. */
  lemma ResolveFragmentFree(base: string, ref: string)
    requires '#' !in base && '#' !in ref
    ensures '#' !in Resolve(base, ref)
  {
    if base != [] && ref != [] {
      ResolveSplitFragmentFree(Split(base), Split(ref), ref);
    }
  }

  lemma ResolveSplitFragmentFree(b: Parts, r: Parts, ref: string)
    requires b.scheme == [] || IsScheme(b.scheme)
    requires r.scheme == [] || IsScheme(r.scheme)
    requires '#' !in b.netloc && '#' !in b.path && '#' !in b.query
    requires '#' !in r.netloc && '#' !in r.path && '#' !in r.query && r.fragment == []
    requires '#' !in ref
    ensures '#' !in ResolveSplit(b, r, ref)
  {
    var scheme := if r.scheme == [] then b.scheme else r.scheme;
    if scheme == b.scheme && scheme in UsesRelative {
      if scheme != [] {
        SchemeFree(scheme, '#');
      }
      if scheme in UsesNetloc && r.netloc != [] {
        UnsplitFree(Parts(scheme, r.netloc, r.path, r.query, r.fragment), '#');
      } else {
        var netloc := if scheme in UsesNetloc then b.netloc else r.netloc;
        if r.path == [] {
          var q := if r.query == [] then b.query else r.query;
          UnsplitFree(Parts(scheme, netloc, b.path, q, r.fragment), '#');
        } else {
          MergePathFree(b.path, r.path, '#');
          UnsplitFree(Parts(scheme, netloc, MergePath(b.path, r.path), r.query, r.fragment), '#');
        }
      }
    }
  }
}
