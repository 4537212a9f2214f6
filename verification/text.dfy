/**
 * The handful of Python string operations the validation scripts rely on,
 * stated over `string` (a sequence of characters): `startswith`,
 * `endswith`, `in`, `find`, `rfind`, `lower`, `join`, `split`, `strip`,
 * `replace`, and the two path helpers `os.path.basename` and
 * `os.path.splitext` of the POSIX flavour.
 */
module Text {

  /** `s.startswith(p)` */
  predicate StartsWith(s: string, p: string) {
    |p| <= |s| && s[..|p|] == p
  }

  /** `s.endswith(p)` */
  predicate EndsWith(s: string, p: string) {
    |p| <= |s| && s[|s| - |p|..] == p
  }

  /** `sub` sits in `s` starting at index `i`. */
  predicate OccursAt(s: string, sub: string, i: int) {
    0 <= i && i + |sub| <= |s| && s[i..i + |sub|] == sub
  }

  /** `sub in s` */
  predicate Contains(s: string, sub: string) {
    exists i | 0 <= i <= |s| - |sub| :: OccursAt(s, sub, i)
  }

  lemma ContainsInfix(a: string, sub: string, b: string)
    ensures Contains(a + sub + b, sub)
  {
    assert (a + sub + b)[|a|..|a| + |sub|] == sub;
    assert OccursAt(a + sub + b, sub, |a|);
  }

  /** `c.lower()` on the ASCII letters; every other character is kept. */
  function LowerChar(c: char): char {
    if 'A' <= c <= 'Z' then (c as int - 'A' as int + 'a' as int) as char else c
  }

  /** A text lacking one of the characters of `sub` does not contain `sub`. */
  lemma AbsentCharNotContained(s: string, sub: string, c: char)
    requires c in sub && c !in s
    ensures !Contains(s, sub)
  {
    var k :| 0 <= k < |sub| && sub[k] == c;
    forall i | 0 <= i <= |s| - |sub| ensures !OccursAt(s, sub, i) {
      assert s[i..i + |sub|][k] == s[i + k] != c;
    }
  }

  /** `s.lower()`, character by character. */
  function Lower(s: string): (r: string)
    ensures |r| == |s|
    ensures forall i :: 0 <= i < |s| ==> r[i] == LowerChar(s[i])
  {
    seq(|s|, i requires 0 <= i < |s| => LowerChar(s[i]))
  }

  lemma LowerAppend(a: string, b: string)
    ensures Lower(a + b) == Lower(a) + Lower(b)
  {
    assert forall i :: 0 <= i < |a + b| ==> Lower(a + b)[i] == (Lower(a) + Lower(b))[i];
  }

  /** `s.find(c)`: the first index holding `c`, or -1. */
  function Find(s: string, c: char): (r: int)
    ensures -1 <= r < |s|
    ensures r == -1 <==> c !in s
    ensures r >= 0 ==> s[r] == c && c !in s[..r]
  {
    if |s| == 0 then -1
    else if s[0] == c then 0
    else
      var k := Find(s[1..], c);
      if k == -1 then -1 else k + 1
  }

  /** In `a + [c] + b`, the first `c` is the one after `a` when `a` has none. */
  lemma {:induction false} FindAfter(a: string, c: char, b: string)
    requires c !in a
    ensures Find(a + [c] + b, c) == |a|
  {
    var s := a + [c] + b;
    if a != [] {
      assert s[0] == a[0] && s[1..] == a[1..] + [c] + b;
      FindAfter(a[1..], c, b);
    }
  }

  /** `s.rfind(c)`: the last index holding `c`, or -1. */
  function RFind(s: string, c: char): (r: int)
    ensures -1 <= r < |s|
  {
    if |s| == 0 then -1
    else if s[|s| - 1] == c then |s| - 1
    else RFind(s[..|s| - 1], c)
  }

  /** `rfind` gives -1 exactly when `c` is absent, and otherwise an index of `c` with none after it. */
  lemma {:induction false} RFindFound(s: string, c: char)
    ensures RFind(s, c) == -1 <==> c !in s
    ensures RFind(s, c) >= 0 ==> s[RFind(s, c)] == c && c !in s[RFind(s, c) + 1..]
  {
    if |s| > 0 && s[|s| - 1] != c {
      RFindFound(s[..|s| - 1], c);
      assert s == s[..|s| - 1] + [s[|s| - 1]];
    }
  }

  /** In `a + [c] + b`, the last `c` is the one after `a` when `b` has none. */
  lemma {:induction false} RFindBefore(a: string, c: char, b: string)
    requires c !in b
    ensures RFind(a + [c] + b, c) == |a|
  {
    var s := a + [c] + b;
    if b != [] {
      var init := b[..|b| - 1];
      assert s[|s| - 1] == b[|b| - 1];
      assert s[..|s| - 1] == a + [c] + init;
      RFindBefore(a, c, init);
    }
  }

  /** The longest prefix of `s` holding none of `stops` (a `str.split` on the first stop). */
  function PrefixUntil(s: string, stops: set<char>): (r: string)
    ensures |r| <= |s| && r == s[..|r|]
    ensures forall i :: 0 <= i < |r| ==> r[i] !in stops
    ensures |r| < |s| ==> s[|r|] in stops
  {
    if |s| == 0 || s[0] in stops then "" else [s[0]] + PrefixUntil(s[1..], stops)
  }

  /** `os.path.basename(p)`: what follows the last '/'. */
  function Basename(p: string): (r: string)
    ensures '/' !in r
    ensures |r| <= |p|
  {
    RFindFound(p, '/');
    p[RFind(p, '/') + 1..]
  }

  /** The base name is a suffix of the path, preceded by a '/' unless it is the whole path. */
  lemma BasenameIsLastComponent(p: string)
    ensures EndsWith(p, Basename(p))
    ensures |Basename(p)| < |p| ==> p[|p| - |Basename(p)| - 1] == '/'
    ensures '/' !in p ==> Basename(p) == p
  {
    RFindFound(p, '/');
  }

  /** The base name of `dir/name` is `name` when `name` holds no '/'. */
  lemma BasenameOfJoin(dir: string, name: string)
    requires '/' !in name
    ensures Basename(dir + "/" + name) == name
  {
    assert dir + "/" + name == dir + ['/'] + name;
    RFindBefore(dir, '/', name);
  }

  /** Every character of `p[lo..hi]` is a '.'. */
  predicate AllDots(p: string, lo: int, hi: int)
    requires 0 <= lo <= hi <= |p|
    decreases hi - lo
  {
    lo == hi || (p[lo] == '.' && AllDots(p, lo + 1, hi))
  }

  /**
   * `os.path.splitext(p)`: the root and the extension. The extension is the
   * text from the last '.' of the last path component, except that a
   * component whose characters before that dot are all dots (".bashrc",
   * "..x") keeps its whole name and has no extension.
   */
  function Splitext(p: string): (r: (string, string))
  {
    var sep := RFind(p, '/');
    var dot := RFind(p, '.');
    if sep < dot && !AllDots(p, sep + 1, dot) then
      (p[..dot], p[dot..])
    else
      (p, "")
  }

  /** The root and the extension make up the path; the extension is empty or one dot and no further dot or slash. */
  lemma SplitextParts(p: string)
    ensures Splitext(p).0 + Splitext(p).1 == p
    ensures var ext := Splitext(p).1; ext == "" || (ext[0] == '.' && '.' !in ext[1..] && '/' !in ext)
  {
    RFindFound(p, '.');
    RFindFound(p, '/');
    var dot := RFind(p, '.');
    if dot >= 0 {
      assert p[dot + 1..] == p[dot..][1..];
    }
  }

  /** A dot-free name followed by a dot-free, slash-free extension splits at that dot. */
  lemma SplitextAtLastDot(name: string, ext: string)
    requires |name| > 0 && '.' !in name && '/' !in name
    requires '.' !in ext && '/' !in ext
    ensures Splitext(name + "." + ext) == (name, "." + ext)
  {
    var p := name + "." + ext;
    assert p == name + ['.'] + ext;
    RFindBefore(name, '.', ext);
    RFindFound(p, '/');
    assert '/' !in p by {
      assert forall i | 0 <= i < |p| :: p[i] != '/' by {
        forall i | 0 <= i < |p| ensures p[i] != '/' {
          if i < |name| { assert p[i] == name[i]; }
          else if i > |name| { assert p[i] == ext[i - |name| - 1]; }
        }
      }
    }
    assert p[0] == name[0] && name[0] != '.';
    assert p[..|name|] == name;
    assert p[|name|..] == "." + ext;
  }

  /** A name with no dot and no slash has no extension. */
  lemma SplitextNoDot(name: string)
    requires '.' !in name
    ensures Splitext(name) == (name, "")
  {
    RFindFound(name, '.');
  }

  /** A hidden file's name (".bashrc") has no extension: its only dot leads it. */
  lemma SplitextDotfile(name: string)
    requires '.' !in name && '/' !in name
    ensures Splitext("." + name) == ("." + name, "")
  {
    var p := "." + name;
    assert p == [] + ['.'] + name;
    RFindBefore([], '.', name);
    assert '/' !in p;
    RFindFound(p, '/');
  }

  /** `sep.join(parts)` */
  function Join(parts: seq<string>, sep: string): string {
    if |parts| == 0 then ""
    else if |parts| == 1 then parts[0]
    else parts[0] + sep + Join(parts[1..], sep)
  }

  /** `s.split(c)` for a one-character separator. */
  function Split(s: string, c: char): (r: seq<string>)
    ensures |r| > 0
    ensures forall i :: 0 <= i < |r| ==> c !in r[i]
    decreases |s|
  {
    var k := Find(s, c);
    if k == -1 then [s] else [s[..k]] + Split(s[k + 1..], c)
  }

  /** Splitting a join on a one-character separator that no part holds gives the parts back. */
  lemma {:induction false} SplitJoin(parts: seq<string>, c: char)
    requires |parts| > 0
    requires forall i :: 0 <= i < |parts| ==> c !in parts[i]
    ensures Split(Join(parts, [c]), c) == parts
  {
    if |parts| > 1 {
      var rest := Join(parts[1..], [c]);
      var s := parts[0] + [c] + rest;
      assert Join(parts, [c]) == s;
      assert Find(s, c) == |parts[0]| by {
        FindAfter(parts[0], c, rest);
      }
      assert s[..|parts[0]|] == parts[0];
      assert s[|parts[0]| + 1..] == rest;
      assert Split(s, c) == [parts[0]] + Split(rest, c);
      SplitJoin(parts[1..], c);
      assert parts == [parts[0]] + parts[1..];
    }
  }

  /** Python's `str.isspace` on one character. */
  predicate IsSpace(c: char) {
    || c == ' '
    || '\t' <= c <= '\r'
    || '\U{1C}' <= c <= '\U{1F}'
    || c == '\U{85}' || c == '\U{A0}' || c == '\U{1680}'
    || '\U{2000}' <= c <= '\U{200A}'
    || c == '\U{2028}' || c == '\U{2029}' || c == '\U{202F}' || c == '\U{205F}' || c == '\U{3000}'
  }

  function StripLeft(s: string): (r: string)
    ensures r == "" || !IsSpace(r[0])
    ensures EndsWith(s, r)
    ensures forall k | 0 <= k < |s| - |r| :: IsSpace(s[k])
    ensures (forall k | 0 <= k < |s| :: !IsSpace(s[k])) ==> r == s
  {
    if |s| > 0 && IsSpace(s[0]) then
      var r := StripLeft(s[1..]);
      assert s[|s| - |r|..] == s[1..][|s| - 1 - |r|..];
      r
    else s
  }

  function StripRight(s: string): (r: string)
    ensures r == "" || !IsSpace(r[|r| - 1])
    ensures StartsWith(s, r)
    ensures forall k | |r| <= k < |s| :: IsSpace(s[k])
    ensures (forall k | 0 <= k < |s| :: !IsSpace(s[k])) ==> r == s
  {
    if |s| > 0 && IsSpace(s[|s| - 1]) then
      var r := StripRight(s[..|s| - 1]);
      assert s[..|r|] == s[..|s| - 1][..|r|];
      r
    else s
  }

  /** `r` is the slice of `s` at `i`, with nothing but white space on either side of it. */
  predicate StrippedAt(s: string, r: string, i: int) {
    && 0 <= i <= |s| - |r|
    && s[i..i + |r|] == r
    && (forall k | 0 <= k < i :: IsSpace(s[k]))
    && (forall k | i + |r| <= k < |s| :: IsSpace(s[k]))
  }

  /** `s.strip()`: white space removed from both ends. */
  function Strip(s: string): (r: string)
    ensures r == "" || (!IsSpace(r[0]) && !IsSpace(r[|r| - 1]))
    ensures exists i :: StrippedAt(s, r, i)
    ensures (forall k | 0 <= k < |s| :: !IsSpace(s[k])) ==> r == s
  {
    var t := StripRight(s);
    assert forall k | 0 <= k < |t| :: t[k] == s[k];
    var r := StripLeft(t);
    assert StrippedAt(s, r, |t| - |r|) by {
      assert t[|t| - |r|..] == r;
      assert s[..|t|] == t;
    }
    r
  }

  /** `s.replace(pattern, replacement)`: every non-overlapping occurrence, left to right. */
  function ReplaceAll(s: string, pattern: string, replacement: string): (r: string)
    requires |pattern| > 0
    ensures StartsWith(s, pattern) ==> StartsWith(r, replacement)
    ensures !Contains(s, pattern) ==> r == s
    decreases |s|
  {
    if |s| < |pattern| then s
    else if s[..|pattern|] == pattern then
      assert OccursAt(s, pattern, 0);
      replacement + ReplaceAll(s[|pattern|..], pattern, replacement)
    else
      var rest := ReplaceAll(s[1..], pattern, replacement);
      assert Contains(s[1..], pattern) ==> Contains(s, pattern) by {
        if Contains(s[1..], pattern) {
          var i :| 0 <= i <= |s[1..]| - |pattern| && OccursAt(s[1..], pattern, i);
          assert s[i + 1..i + 1 + |pattern|] == s[1..][i..i + |pattern|];
          assert OccursAt(s, pattern, i + 1);
        }
      }
      assert !Contains(s, pattern) ==> [s[0]] + s[1..] == s;
      [s[0]] + rest
  }

  /** A pattern that leads the text is replaced there, and the rest is replaced on its own. */
  lemma ReplaceAllAtStart(pattern: string, rest: string, replacement: string)
    requires |pattern| > 0
    ensures ReplaceAll(pattern + rest, pattern, replacement) == replacement + ReplaceAll(rest, pattern, replacement)
  {
    var s := pattern + rest;
    assert s[..|pattern|] == pattern && s[|pattern|..] == rest;
  }

  /** With a one-character pattern, replacing in a concatenation replaces in each part. */
  lemma {:induction false} ReplaceCharAppend(a: string, b: string, c: char, replacement: string)
    ensures ReplaceAll(a + b, [c], replacement) == ReplaceAll(a, [c], replacement) + ReplaceAll(b, [c], replacement)
    decreases |a|
  {
    if |a| == 0 {
      assert a + b == b;
    } else {
      var s := a + b;
      assert s[..1] == a[..1] && s[1..] == a[1..] + b;
      ReplaceCharAppend(a[1..], b, c, replacement);
    }
  }

  /** A text without the character is left alone by replacing that character. */
  lemma {:induction false} ReplaceCharAbsent(s: string, c: char, replacement: string)
    requires c !in s
    ensures ReplaceAll(s, [c], replacement) == s
    decreases |s|
  {
    if |s| > 0 {
      assert s[..1] == [s[0]] && s[0] != c;
      ReplaceCharAbsent(s[1..], c, replacement);
      assert [s[0]] + s[1..] == s;
    }
  }

  /** Lower-casing leaves a text without upper-case ASCII letters unchanged. */
  lemma LowerUnchanged(s: string)
    requires forall i | 0 <= i < |s| :: !('A' <= s[i] <= 'Z')
    ensures Lower(s) == s
  {
  }

  /** No element of `s` appears twice. */
  predicate NoDuplicates<T(==)>(s: seq<T>) {
    forall i, j | 0 <= i < j < |s| :: s[i] != s[j]
  }

  /** A sequence without duplicates has as many distinct elements as entries. */
  lemma {:induction false} NoDuplicatesCardinality<T>(s: seq<T>)
    requires NoDuplicates(s)
    ensures |set x | x in s| == |s|
  {
    if |s| > 0 {
      var init := s[..|s| - 1];
      var last := s[|s| - 1];
      assert NoDuplicates(init);
      NoDuplicatesCardinality(init);
      assert forall i | 0 <= i < |init| :: init[i] == s[i] && s[i] != last;
      assert (set x | x in s) == (set x | x in init) + {last} by {
        assert s == init + [last];
      }
    }
  }
}
