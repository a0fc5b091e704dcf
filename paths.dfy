/**
 * PHP's path helpers as the package code uses them on Linux: `basename` and
 * the PATHINFO_EXTENSION / PATHINFO_FILENAME parts of `pathinfo`. Only '/'
 * separates directories.
 */
module Paths {

  predicate EndsWith(s: string, suffix: string) {
    |suffix| <= |s| && s[|s| - |suffix|..] == suffix
  }

  /** The path without the '/' characters it ends with. */
  function StripTrailingSlashes(p: string): (q: string)
    ensures |q| <= |p| && q == p[..|q|]
    ensures q == [] || q[|q| - 1] != '/'
    ensures forall k :: |q| <= k < |p| ==> p[k] == '/'
  {
    if p != [] && p[|p| - 1] == '/' then StripTrailingSlashes(p[..|p| - 1]) else p
  }

  /** Index of the last occurrence of `c` in `s`, or -1 when there is none. */
  function LastIndexOf(s: string, c: char): (r: int)
    ensures -1 <= r < |s|
    ensures r >= 0 ==> s[r] == c
    ensures forall k :: r < k < |s| ==> s[k] != c
  {
    if s == [] then -1
    else if s[|s| - 1] == c then |s| - 1
    else LastIndexOf(s[..|s| - 1], c)
  }

  /** PHP `basename`: the last non-empty component of the path, "" if there is none. */
  function Basename(p: string): (b: string)
    ensures '/' !in b
    ensures EndsWith(StripTrailingSlashes(p), b)
  {
    var q := StripTrailingSlashes(p);
    q[LastIndexOf(q, '/') + 1..]
  }

  /** PHP `pathinfo($p, PATHINFO_EXTENSION)`: what follows the last '.' of the basename. */
  function Extension(p: string): (e: string)
    ensures '.' !in e && '/' !in e
    ensures e != [] ==> StripTrailingSlashes(p) != []
  {
    DotSuffix(Basename(p))
  }

  /** What follows the last '.' of a name, "" when it has none. */
  function DotSuffix(b: string): (e: string)
    ensures '.' !in e
    ensures '/' !in b ==> '/' !in e
  {
    var d := LastIndexOf(b, '.');
    if d < 0 then "" else b[d + 1..]
  }

  /** PHP `pathinfo($p, PATHINFO_FILENAME)`: the basename up to its last '.'. */
  function FilenamePart(p: string): (f: string)
    ensures '/' !in f
  {
    var b := Basename(p);
    var d := LastIndexOf(b, '.');
    if d < 0 then b else b[..d]
  }

  lemma LastIndexOfAbsent(s: string, c: char)
    requires c !in s
    ensures LastIndexOf(s, c) == -1
  {
  }

  lemma LastIndexOfConcat(a: string, b: string, c: char)
    ensures c in b ==> LastIndexOf(a + b, c) == |a| + LastIndexOf(b, c)
    ensures c !in b ==> LastIndexOf(a + b, c) == LastIndexOf(a, c)
  {
    var s := a + b;
    var r := LastIndexOf(s, c);
    if c in b {
      var rb := LastIndexOf(b, c);
      var k :| 0 <= k < |b| && b[k] == c;
      assert rb >= 0;
      assert s[|a| + rb] == c;
    } else {
      var ra := LastIndexOf(a, c);
      assert r >= ra by {
        if ra >= 0 { assert s[ra] == a[ra]; }
      }
    }
  }

  lemma StripUnderDir(dir: string, name: string)
    requires StripTrailingSlashes(name) != []
    ensures StripTrailingSlashes(dir + name) == dir + StripTrailingSlashes(name)
    decreases |name|
  {
    if name != [] && name[|name| - 1] == '/' {
      assert (dir + name)[..|dir + name| - 1] == dir + name[..|name| - 1];
      StripUnderDir(dir, name[..|name| - 1]);
    }
  }

  /** A name without '/' is its own basename. */
  lemma BasenameOfPlainName(name: string)
    requires '/' !in name
    ensures Basename(name) == name
  {
    if name != [] { assert name[|name| - 1] in name; }
    LastIndexOfAbsent(name, '/');
  }

  /** Putting a name under a directory does not change its basename, unless the name is all slashes. */
  lemma BasenameUnderDir(dir: string, name: string)
    requires StripTrailingSlashes(name) != []
    ensures Basename(dir + "/" + name) == Basename(name)
  {
    var a := dir + "/";
    var q := StripTrailingSlashes(name);
    StripUnderDir(a, name);
    LastComponentUnderDir(a, q);
  }

  /** A non-empty name without '/' is the basename of any path that ends with "/" and it. */
  lemma BasenameOfComponent(dir: string, name: string)
    requires name != [] && '/' !in name
    ensures Basename(dir + "/" + name) == name
  {
    assert name[|name| - 1] in name;
    assert StripTrailingSlashes(name) == name;
    BasenameUnderDir(dir, name);
    BasenameOfPlainName(name);
  }

  /** Putting a name under a directory does not change its extension. */
  lemma ExtensionUnderDir(dir: string, name: string)
    requires StripTrailingSlashes(name) != []
    ensures Extension(dir + "/" + name) == Extension(name)
  {
    BasenameUnderDir(dir, name);
  }

  lemma Regroup(a: string, b: string, c: string)
    ensures a + "/" + (b + "/" + c) == (a + "/" + b) + "/" + c
  {
  }

  lemma LastComponentUnderDir(a: string, q: string)
    requires a != [] && a[|a| - 1] == '/'
    ensures (a + q)[LastIndexOf(a + q, '/') + 1..] == q[LastIndexOf(q, '/') + 1..]
  {
    var s := a + q;
    LastIndexOfConcat(a, q, '/');
    if '/' in q {
      var j := LastIndexOf(q, '/') + 1;
      assert s[|a| + j..] == q[j..];
    } else {
      LastIndexOfAbsent(q, '/');
      assert s[|a|..] == q;
    }
  }

  /** The extension is `ext` exactly when the path, trailing slashes aside, ends with "." + ext. */
  lemma ExtensionIs(p: string, ext: string)
    requires ext != [] && '.' !in ext && '/' !in ext
    ensures Extension(p) == ext <==> EndsWith(StripTrailingSlashes(p), "." + ext)
  {
    var q, b := StripTrailingSlashes(p), Basename(p);
    AfterLastDot(b, ext);
    SuffixOfLastComponent(q, "." + ext);
    if Extension(p) == ext {
      assert EndsWith(b, "." + ext);
    }
    if EndsWith(q, "." + ext) {
      assert EndsWith(b, "." + ext);
    }
  }

  lemma AfterLastDot(b: string, ext: string)
    requires ext != [] && '.' !in ext
    ensures (LastIndexOf(b, '.') >= 0 && b[LastIndexOf(b, '.') + 1..] == ext) <==> EndsWith(b, "." + ext)
  {
    var d := LastIndexOf(b, '.');
    var dotted := "." + ext;
    if d >= 0 && b[d + 1..] == ext {
      assert |b| - |dotted| == d;
      assert b[d..] == [b[d]] + b[d + 1..];
    }
    if EndsWith(b, dotted) {
      var stem := b[..|b| - |dotted|];
      assert b == stem + dotted;
      LastIndexOfConcat(".", ext, '.');
      assert LastIndexOf(dotted, '.') == 0;
      LastIndexOfConcat(stem, dotted, '.');
      assert d == |stem|;
      assert b[d + 1..] == ext;
    }
  }

  /** A prefix without '.' does not change what follows the last '.'. */
  lemma DotSuffixBehind(head: string, b: string)
    requires '.' !in head
    ensures DotSuffix(head + b) == DotSuffix(b)
  {
    LastIndexOfConcat(head, b, '.');
    if '.' in b {
      var d := LastIndexOf(b, '.');
      assert (head + b)[|head| + d + 1..] == b[d + 1..];
    } else {
      LastIndexOfAbsent(head, '.');
    }
  }

  lemma SuffixOfLastComponent(q: string, suffix: string)
    requires '/' !in suffix
    ensures EndsWith(q, suffix) <==> EndsWith(q[LastIndexOf(q, '/') + 1..], suffix)
  {
    if EndsWith(q, suffix) {
      SuffixAfterLastSlash(q, suffix);
      SameSuffix(q, LastIndexOf(q, '/') + 1, suffix);
    }
    if EndsWith(q[LastIndexOf(q, '/') + 1..], suffix) {
      SameSuffix(q, LastIndexOf(q, '/') + 1, suffix);
    }
  }

  /** A suffix without '/' lies after the last '/'. */
  lemma SuffixAfterLastSlash(q: string, suffix: string)
    requires '/' !in suffix && EndsWith(q, suffix)
    ensures LastIndexOf(q, '/') < |q| - |suffix|
  {
  }

  lemma SameSuffix(q: string, j: nat, suffix: string)
    requires j <= |q| && |suffix| <= |q| - j
    ensures EndsWith(q, suffix) <==> EndsWith(q[j..], suffix)
  {
    assert q[|q| - |suffix|..] == q[j..][|q| - j - |suffix|..];
  }
}
