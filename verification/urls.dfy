/**
 * The part of `urllib.parse.urlsplit` that the checks read: the scheme and
 * the path of a source-control URL. This follows CPython 3.12: leading C0
 * control characters and spaces are stripped, tab, carriage return and line
 * feed are removed everywhere, the scheme is the text before the first ':'
 * when it is an ASCII letter followed by letters, digits, '+', '-' or '.'
 * (the scheme rule of section 3.1 of RFC 3986), and the network location
 * runs from a leading "//" to the first '/', '?' or '#'.
 */
module Urls {
  import opened Text

  /** A character `urlsplit` strips from the front of a URL: a C0 control character or a space. */
  predicate IsControlOrSpace(c: char) {
    c <= ' '
  }

  /** Every character is visible: nothing `urlsplit` would strip or remove. */
  predicate Visible(s: string) {
    forall i | 0 <= i < |s| :: !IsControlOrSpace(s[i])
  }

  function StripControlLeft(s: string): (r: string)
    ensures r == "" || !IsControlOrSpace(r[0])
    ensures EndsWith(s, r)
  {
    if |s| > 0 && IsControlOrSpace(s[0]) then
      var r := StripControlLeft(s[1..]);
      assert s[|s| - |r|..] == s[1..][|s| - 1 - |r|..];
      r
    else s
  }

  /** The characters `urlsplit` deletes wherever they stand. */
  predicate IsUnsafe(c: char) {
    c == '\t' || c == '\r' || c == '\n'
  }

  function RemoveUnsafe(s: string): (r: string)
    ensures forall i | 0 <= i < |r| :: !IsUnsafe(r[i])
    ensures |r| <= |s|
  {
    if |s| == 0 then ""
    else if IsUnsafe(s[|s| - 1]) then RemoveUnsafe(s[..|s| - 1])
    else RemoveUnsafe(s[..|s| - 1]) + [s[|s| - 1]]
  }

  lemma {:induction false} RemoveUnsafeVisible(s: string)
    requires Visible(s)
    ensures RemoveUnsafe(s) == s
  {
    if |s| > 0 {
      assert Visible(s[..|s| - 1]);
      RemoveUnsafeVisible(s[..|s| - 1]);
      assert s == s[..|s| - 1] + [s[|s| - 1]];
    }
  }

  lemma {:induction false} RemoveUnsafeAppend(a: string, b: string)
    ensures RemoveUnsafe(a + b) == RemoveUnsafe(a) + RemoveUnsafe(b)
    decreases |b|
  {
    if |b| > 0 {
      var init := b[..|b| - 1];
      assert (a + b)[..|a + b| - 1] == a + init;
      assert (a + b)[|a + b| - 1] == b[|b| - 1];
      RemoveUnsafeAppend(a, init);
    } else {
      assert a + b == a;
    }
  }

  /** The URL after the clean-up `urlsplit` does first. */
  function Sanitize(u: string): string {
    RemoveUnsafe(StripControlLeft(u))
  }

  lemma SanitizeVisible(u: string)
    requires Visible(u)
    ensures Sanitize(u) == u
  {
    assert StripControlLeft(u) == u;
    RemoveUnsafeVisible(u);
  }

  predicate IsAsciiLetter(c: char) {
    'a' <= c <= 'z' || 'A' <= c <= 'Z'
  }

  /** `urllib.parse.scheme_chars` */
  predicate IsSchemeChar(c: char) {
    IsAsciiLetter(c) || '0' <= c <= '9' || c == '+' || c == '-' || c == '.'
  }

  /** A well-formed scheme: a letter, then letters, digits, '+', '-' or '.'. */
  predicate IsSchemeName(s: string) {
    |s| > 0 && IsAsciiLetter(s[0]) && forall i | 0 <= i < |s| :: IsSchemeChar(s[i])
  }

  /** The scheme (lower-cased, possibly empty) and what follows its ':'. */
  function SplitScheme(s: string): (r: (string, string))
    ensures r.0 == "" ==> r.1 == s
    ensures r.0 == "" || (IsSchemeName(r.0) && Lower(r.0) == r.0)
  {
    var i := Find(s, ':');
    if i > 0 && IsSchemeName(s[..i]) then
      var scheme := Lower(s[..i]);
      assert forall k | 0 <= k < |scheme| :: LowerChar(LowerChar(s[k])) == LowerChar(s[k]);
      (scheme, s[i + 1..])
    else ("", s)
  }

  /** `urlsplit(u).scheme` */
  function Scheme(u: string): string {
    SplitScheme(Sanitize(u)).0
  }

  /** The path within what follows the scheme: past a "//" network location, up to a query or fragment. */
  function PathOf(rest: string): (r: string)
    ensures '?' !in r && '#' !in r
  {
    var afterNetloc :=
      if StartsWith(rest, "//") then rest[2 + |PrefixUntil(rest[2..], {'/', '?', '#'})|..] else rest;
    PrefixUntil(afterNetloc, {'#', '?'})
  }

  /** `urlsplit(u).path` */
  function UrlPath(u: string): string {
    PathOf(SplitScheme(Sanitize(u)).1)
  }

  /** `os.path.splitext(urlsplit(u).path.split("/")[-1])[0]`: the repository's short name. */
  function RepositoryName(u: string): string {
    Splitext(Basename(UrlPath(u))).0
  }

  /** A prefix free of stop characters, followed by a stop or nothing, is what `PrefixUntil` cuts. */
  lemma PrefixUntilStops(a: string, b: string, stops: set<char>)
    requires forall i | 0 <= i < |a| :: a[i] !in stops
    requires b == "" || b[0] in stops
    ensures PrefixUntil(a + b, stops) == a
  {
    assert forall i | 0 <= i < |a| :: (a + b)[i] == a[i];
    assert |b| > 0 ==> (a + b)[|a|] == b[0];
  }

  lemma VisibleAppend(a: string, b: string)
    requires Visible(a) && Visible(b)
    ensures Visible(a + b)
  {
    assert forall i | 0 <= i < |a + b| :: (a + b)[i] == if i < |a| then a[i] else b[i - |a|];
  }

  /** A scheme name followed by ':' is split off, lower-cased, whatever follows. */
  lemma SplitSchemeOf(scheme: string, tail: string)
    requires IsSchemeName(scheme)
    ensures SplitScheme(scheme + ":" + tail) == (Lower(scheme), tail)
  {
    var u := scheme + ":" + tail;
    assert u == scheme + [':'] + tail;
    assert ':' !in scheme by {
      assert forall i | 0 <= i < |scheme| :: IsSchemeChar(scheme[i]) && scheme[i] != ':';
    }
    FindAfter(scheme, ':', tail);
    assert u[..|scheme|] == scheme;
    assert u[|scheme| + 1..] == tail;
  }

  /** Whatever follows it, a scheme name before the first ':' is the URL's scheme, lower-cased. */
  lemma SchemeOfUrl(scheme: string, rest: string)
    requires IsSchemeName(scheme)
    ensures Scheme(scheme + ":" + rest) == Lower(scheme)
  {
    var u := scheme + ":" + rest;
    assert StripControlLeft(u) == u by {
      assert u[0] == scheme[0];
    }
    assert Visible(scheme + ":") by {
      forall i | 0 <= i < |scheme + ":"| ensures !IsControlOrSpace((scheme + ":")[i]) {
        if i < |scheme| { assert IsSchemeChar(scheme[i]); }
      }
    }
    RemoveUnsafeVisible(scheme + ":");
    RemoveUnsafeAppend(scheme + ":", rest);
    assert Sanitize(u) == scheme + ":" + RemoveUnsafe(rest);
    SplitSchemeOf(scheme, RemoveUnsafe(rest));
  }

  /** After "//", the network location ends at the first '/', and the path runs to the end. */
  lemma PathAfterNetloc(host: string, path: string)
    requires forall i | 0 <= i < |host| :: host[i] !in {'/', '?', '#'}
    requires forall i | 0 <= i < |path| :: path[i] !in {'?', '#'}
    requires path == "" || path[0] == '/'
    ensures PathOf("//" + host + path) == path
  {
    var rest := "//" + host + path;
    assert rest[2..] == host + path;
    PrefixUntilStops(host, path, {'/', '?', '#'});
    assert rest[2 + |host|..] == path;
    PrefixUntilStops(path, "", {'#', '?'});
    assert path + "" == path;
  }

  /**
   * For a URL `scheme://host/path...` made of visible characters, the scheme
   * is the lower-cased scheme and the path is everything from the first '/'
   * after the host.
   */
  lemma SchemeAndPathOfUrl(scheme: string, host: string, path: string)
    requires IsSchemeName(scheme)
    requires Visible(host) && forall i | 0 <= i < |host| :: host[i] !in {'/', '?', '#'}
    requires Visible(path) && forall i | 0 <= i < |path| :: path[i] !in {'?', '#'}
    requires path == "" || path[0] == '/'
    ensures Scheme(scheme + "://" + host + path) == Lower(scheme)
    ensures UrlPath(scheme + "://" + host + path) == path
  {
    var tail := "//" + host + path;
    var u := scheme + ":" + tail;
    assert u == scheme + "://" + host + path;
    assert Sanitize(u) == u by { SanitizeVisible(u); }
    assert SplitScheme(u) == (Lower(scheme), tail) by { SplitSchemeOf(scheme, tail); }
    assert PathOf(tail) == path by { PathAfterNetloc(host, path); }
  }

  /**
   * The repository name of `scheme://host/owner/file` is `file` with its
   * extension removed.
   */
  lemma RepositoryNameOfUrl(scheme: string, host: string, owner: string, file: string)
    requires IsSchemeName(scheme)
    requires Visible(host) && forall i | 0 <= i < |host| :: host[i] !in {'/', '?', '#'}
    requires Visible(owner) && forall i | 0 <= i < |owner| :: owner[i] !in {'/', '?', '#'}
    requires Visible(file) && forall i | 0 <= i < |file| :: file[i] !in {'/', '?', '#'}
    ensures RepositoryName(scheme + "://" + host + "/" + owner + "/" + file) == Splitext(file).0
  {
    var path := "/" + owner + "/" + file;
    assert scheme + "://" + host + "/" + owner + "/" + file == scheme + "://" + host + path;
    assert Visible(path) && forall i | 0 <= i < |path| :: path[i] !in {'?', '#'} by {
      forall i | 0 <= i < |path| ensures !IsControlOrSpace(path[i]) && path[i] !in {'?', '#'} {
        if i == 0 { }
        else if i <= |owner| { assert path[i] == owner[i - 1]; }
        else if i == |owner| + 1 { }
        else { assert path[i] == file[i - |owner| - 2]; }
      }
    }
    SchemeAndPathOfUrl(scheme, host, path);
    assert '/' !in file by {
      assert forall i | 0 <= i < |file| :: file[i] != '/';
    }
    assert path == "/" + owner + ['/'] + file;
    RFindBefore("/" + owner, '/', file);
  }
}
