/** Character-level string operations shared by the crawler models.

    Strings are `seq<char>`. Each operation mirrors the Python `str` method or
    JavaScript `String` method of the same purpose, and its contract states the
    result in terms of the input's characters. Case mapping is ASCII only.
 */
module Text {

  predicate StartsWith(s: string, prefix: string) {
    |prefix| <= |s| && s[..|prefix|] == prefix
  }

  predicate EndsWith(s: string, suffix: string) {
    |suffix| <= |s| && s[|s| - |suffix|..] == suffix
  }

  lemma PrefixSelf(s: string)
    ensures StartsWith(s, s)
  {
  }

  lemma PrefixConcat(a: string, b: string, p: string)
    requires StartsWith(b, p)
    ensures StartsWith(a + b, a + p)
  {
    assert (a + b)[..|a + p|] == a + b[..|p|];
  }

  /** Python `s.lstrip(c)`: drop every leading `c`. */
  function LStrip(s: string, c: char): (r: string)
    ensures |r| <= |s| && r == s[|s| - |r|..]
    ensures r == [] || r[0] != c
    ensures forall i :: 0 <= i < |s| - |r| ==> s[i] == c
  {
    if |s| > 0 && s[0] == c then LStrip(s[1..], c) else s
  }

  /** Python `s.rstrip(c)`: drop every trailing `c`. */
  function RStrip(s: string, c: char): (r: string)
    ensures |r| <= |s| && r == s[..|r|]
    ensures r == [] || r[|r| - 1] != c
    ensures forall i :: |r| <= i < |s| ==> s[i] == c
  {
    if |s| > 0 && s[|s| - 1] == c then RStrip(s[..|s| - 1], c) else s
  }

  /** `r` is `s[i..i + |r|]`, and everything of `s` before and after it is `c`. */
  predicate Between(s: string, c: char, r: string, i: int) {
    && 0 <= i && i + |r| <= |s| && r == s[i..i + |r|]
    && (forall k :: 0 <= k < i ==> s[k] == c)
    && (forall k :: i + |r| <= k < |s| ==> s[k] == c)
  }

  /** Python `s.strip(c)`: drop `c` from both ends. The result is the middle of `s` between a
      leading and a trailing run made only of `c`. */
  function Strip(s: string, c: char): (r: string)
    ensures |r| <= |s|
    ensures r == [] || (r[0] != c && r[|r| - 1] != c)
    ensures exists i :: Between(s, c, r, i)
  {
    var l := LStrip(s, c);
    var r := RStrip(l, c);
    StripBetween(s, c, l, r);
    r
  }

  lemma StripBetween(s: string, c: char, l: string, r: string)
    requires |l| <= |s| && l == s[|s| - |l|..] && forall k :: 0 <= k < |s| - |l| ==> s[k] == c
    requires |r| <= |l| && r == l[..|r|] && forall k :: |r| <= k < |l| ==> l[k] == c
    ensures Between(s, c, r, |s| - |l|)
  {
    var i := |s| - |l|;
    assert r == s[i..i + |r|];
    forall k | i + |r| <= k < |s|
      ensures s[k] == c
    {
      assert s[k] == l[k - i];
    }
  }

  /** Appending to a string that is not all `c` leaves its leading-`c` strip in front. */
  lemma {:induction false} LStripAppend(s: string, t: string, c: char)
    ensures LStrip(s, c) != [] ==> LStrip(s + t, c) == LStrip(s, c) + t
    ensures LStrip(s, c) == [] ==> LStrip(s + t, c) == LStrip(t, c)
  {
    if |s| == 0 {
      assert s + t == t;
    } else {
      assert (s + t)[0] == s[0];
      assert (s + t)[1..] == s[1..] + t;
      if s[0] == c {
        LStripAppend(s[1..], t, c);
      }
    }
  }

  /** A trailing `c` makes no difference to `Strip(_, c)`. */
  lemma StripTrailing(s: string, c: char)
    ensures Strip(s + [c], c) == Strip(s, c)
  {
    if LStrip(s, c) != [] {
      StripTrailingKept(s, c);
    } else {
      StripTrailingAll(s, c);
    }
  }

  lemma StripTrailingKept(s: string, c: char)
    requires LStrip(s, c) != []
    ensures Strip(s + [c], c) == Strip(s, c)
  {
    var l := LStrip(s, c);
    LStripAppend(s, [c], c);
    assert LStrip(s + [c], c) == l + [c];
    RStripTrailing(l, c);
  }

  lemma StripTrailingAll(s: string, c: char)
    requires LStrip(s, c) == []
    ensures Strip(s + [c], c) == Strip(s, c)
  {
    var t := s + [c];
    assert forall i :: 0 <= i < |t| ==> t[i] == c by {
      forall i | 0 <= i < |t| ensures t[i] == c {
        if i < |s| {
          assert t[i] == s[i];
        }
      }
    }
    LStripAll(t, c);
    assert RStrip([], c) == [];
  }

  /** Stripping a single leading `c` from text that neither starts nor ends with `c`. */
  lemma StripOne(x: string, c: char)
    requires x != [] && x[0] != c && x[|x| - 1] != c
    ensures Strip([c] + x, c) == x
  {
    assert ([c] + x)[1..] == x;
  }

  lemma LStripAll(s: string, c: char)
    requires forall i :: 0 <= i < |s| ==> s[i] == c
    ensures LStrip(s, c) == []
  {
  }

  lemma RStripTrailing(s: string, c: char)
    ensures RStrip(s + [c], c) == RStrip(s, c)
  {
    assert (s + [c])[..|s|] == s;
  }

  /** Index of the first `c` in `s`, or -1 (Python `str.find`). */
  function IndexOf(s: string, c: char): (i: int)
    ensures -1 <= i < |s|
    ensures i == -1 <==> c !in s
    ensures 0 <= i ==> s[i] == c && c !in s[..i]
  {
    if |s| == 0 then -1
    else if s[0] == c then 0
    else
      var j := IndexOf(s[1..], c);
      if j == -1 then -1
      else
        assert s[..j + 1] == [s[0]] + s[1..][..j];
        j + 1
  }

  /** Searching a concatenation searches the left part first. */
  lemma {:induction false} IndexOfConcat(a: string, b: string, c: char)
    ensures IndexOf(a + b, c) ==
      (if c in a then IndexOf(a, c) else if c in b then |a| + IndexOf(b, c) else -1)
  {
    if |a| > 0 {
      assert (a + b)[1..] == a[1..] + b;
      IndexOfConcat(a[1..], b, c);
    } else {
      assert a + b == b;
    }
  }

  /** Cutting at the first `c` recovers the two sides of a `c` the left side does not contain. */
  lemma CutAt(a: string, c: char, b: string)
    requires c !in a
    ensures BeforeFirst(a + [c] + b, c) == a
    ensures AfterFirst(a + [c] + b, c) == b
  {
    var s := a + [c] + b;
    assert s == a + ([c] + b);
    IndexOfConcat(a, [c] + b, c);
    assert IndexOf([c] + b, c) == 0;
    assert IndexOf(s, c) == |a|;
    assert s[..|a|] == a;
    assert s[|a| + 1..] == b;
  }

  /** Index of the last `c` in `s`, or -1 (Python `str.rfind`). */
  function LastIndexOf(s: string, c: char): (i: int)
    ensures -1 <= i < |s|
    ensures i == -1 <==> c !in s
    ensures 0 <= i ==> s[i] == c && c !in s[i + 1..]
  {
    if |s| == 0 then -1
    else if s[|s| - 1] == c then |s| - 1
    else
      var j := LastIndexOf(s[..|s| - 1], c);
      assert j >= 0 ==> s[j + 1..] == s[..|s| - 1][j + 1..] + [s[|s| - 1]];
      j
  }

  /** Python `s.split(c, 1)[0]`: the text before the first `c`. */
  function BeforeFirst(s: string, c: char): (r: string)
    ensures c !in r
    ensures StartsWith(s, r)
    ensures r == s || (|r| < |s| && s[|r|] == c)
  {
    var i := IndexOf(s, c);
    if i < 0 then s else s[..i]
  }

  /** Python `s.split(c, 1)[1]` when `c` occurs, otherwise "". */
  function AfterFirst(s: string, c: char): (r: string)
    ensures c in s ==> s == BeforeFirst(s, c) + [c] + r
    ensures c !in s ==> r == []
    ensures EndsWith(s, r)
  {
    var i := IndexOf(s, c);
    if i < 0 then [] else s[i + 1..]
  }

  /** A character absent from a string is absent from its prefixes and suffixes. */
  lemma AffixFree(s: string, t: string, c: char)
    requires EndsWith(s, t) || StartsWith(s, t)
    requires c !in s
    ensures c !in t
  {
    if EndsWith(s, t) {
      assert forall k :: 0 <= k < |t| ==> t[k] == s[|s| - |t| + k];
    } else {
      assert forall k :: 0 <= k < |t| ==> t[k] == s[k];
    }
  }

  /** POSIX `os.path.basename`: the text after the last '/'. */
  function BaseName(s: string): (r: string)
    ensures '/' !in r
    ensures EndsWith(s, r)
    ensures r == s || (|r| < |s| && s[|s| - |r| - 1] == '/')
  {
    s[LastIndexOf(s, '/') + 1..]
  }

  /** The base name of `a/t` is `t` when `t` has no '/'. */
  lemma {:induction false} BaseNameAfterSlash(a: string, t: string)
    requires '/' !in t
    ensures BaseName(a + "/" + t) == t
    decreases |t|
  {
    var s := a + "/" + t;
    if |t| == 0 {
      assert s[|s| - 1] == '/';
      assert s[|s|..] == [];
    } else {
      var n := |t| - 1;
      BaseNameAfterSlash(a, t[..n]);
      assert s[..|s| - 1] == a + "/" + t[..n];
      assert s[|s| - 1] == t[n];
      assert LastIndexOf(s, '/') == |a|;
      assert s[|a| + 1..] == t;
    }
  }

  /** Text without '/' is its own base name. */
  lemma BaseNameFree(s: string)
    requires '/' !in s
    ensures BaseName(s) == s
  {
  }

  /** Python `s.replace(a, b)` for single characters. */
  function ReplaceChar(s: string, a: char, b: char): (r: string)
    ensures |r| == |s|
    ensures forall i :: 0 <= i < |s| ==> r[i] == (if s[i] == a then b else s[i])
  {
    if |s| == 0 then [] else [if s[0] == a then b else s[0]] + ReplaceChar(s[1..], a, b)
  }

  /** After replacing `a` by another character, no `a` is left. */
  lemma ReplaceRemoves(s: string, a: char, b: char)
    requires a != b
    ensures a !in ReplaceChar(s, a, b)
  {
    var r := ReplaceChar(s, a, b);
    forall i | 0 <= i < |r|
      ensures r[i] != a
    {
    }
  }

  /** Replacing a character that does not occur changes nothing. */
  lemma ReplaceAbsent(s: string, a: char, b: char)
    requires a !in s
    ensures ReplaceChar(s, a, b) == s
  {
  }

  function LowerChar(ch: char): char {
    if 'A' <= ch <= 'Z' then (ch as int + 32) as char else ch
  }

  /** ASCII lower-casing (Python `str.lower`, JavaScript `toLowerCase` on ASCII). */
  function Lower(s: string): (r: string)
    ensures |r| == |s|
    ensures forall i :: 0 <= i < |s| ==> r[i] == LowerChar(s[i])
  {
    if |s| == 0 then [] else [LowerChar(s[0])] + Lower(s[1..])
  }

  /** No piece of `xs` contains `x`. */
  predicate Free(xs: seq<string>, x: char) {
    forall k :: 0 <= k < |xs| ==> x !in xs[k]
  }

  /** Python `s.split(c)`: always at least one piece, none containing `c`. */
  function SplitOn(s: string, c: char): (pieces: seq<string>)
    ensures |pieces| >= 1
    ensures forall k :: 0 <= k < |pieces| ==> c !in pieces[k]
    decreases |s|
  {
    var i := IndexOf(s, c);
    if i < 0 then [s] else [s[..i]] + SplitOn(s[i + 1..], c)
  }

  /** Python `c.join(pieces)`. */
  function JoinWith(pieces: seq<string>, c: char): string {
    if |pieces| == 0 then []
    else if |pieces| == 1 then pieces[0]
    else pieces[0] + [c] + JoinWith(pieces[1..], c)
  }

  /** Joining pieces back with the separator undoes `Split`. */
  lemma {:induction false} JoinSplitOn(s: string, c: char)
    ensures JoinWith(SplitOn(s, c), c) == s
    decreases |s|
  {
    var i := IndexOf(s, c);
    if i >= 0 {
      var rest := SplitOn(s[i + 1..], c);
      JoinSplitOn(s[i + 1..], c);
      JoinCons(s[..i], rest, c);
      assert s == s[..i] + [c] + s[i + 1..];
    }
  }

  /** Joining a piece in front of at least one more puts the separator between them. */
  lemma JoinCons(a: string, rest: seq<string>, c: char)
    requires |rest| >= 1
    ensures JoinWith([a] + rest, c) == a + [c] + JoinWith(rest, c)
  {
    assert ([a] + rest)[1..] == rest;
  }

  /** A character other than the separator occurs in a join only if it occurs in a piece. */
  lemma {:induction false} JoinChars(pieces: seq<string>, c: char, x: char)
    requires x != c
    requires forall k :: 0 <= k < |pieces| ==> x !in pieces[k]
    ensures x !in JoinWith(pieces, c)
  {
    if |pieces| > 1 {
      JoinChars(pieces[1..], c, x);
    }
  }

  /** A piece of a split contains only characters of the split string. */
  lemma {:induction false} SplitChars(s: string, c: char, x: char)
    requires x !in s
    ensures forall k :: 0 <= k < |SplitOn(s, c)| ==> x !in SplitOn(s, c)[k]
    decreases |s|
  {
    var i := IndexOf(s, c);
    if i >= 0 {
      SplitChars(s[i + 1..], c, x);
      assert s[..i] <= s;
    }
  }
}
