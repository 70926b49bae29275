/**
 * The PHP path functions the plugin relies on, for Unix paths: dirname,
 * basename, pathinfo(PATHINFO_FILENAME / PATHINFO_EXTENSION) and WordPress's
 * trailingslashit.
 */
module Paths {
  import opened Strings

  /** rtrim($s, $cs) */
  function RTrim(s: string, cs: set<char>): (r: string)
    ensures |r| <= |s| && r == s[..|r|]
    ensures r == [] || r[|r| - 1] !in cs
    ensures forall i :: |r| <= i < |s| ==> s[i] in cs
  {
    s[..TrimEnd(s, cs, |s|)]
  }

  /** Where s[..e] ends once the characters of cs are trimmed off its end. */
  function TrimEnd(s: string, cs: set<char>, e: nat): (n: nat)
    requires e <= |s|
    ensures n <= e
    ensures n == 0 || s[n - 1] !in cs
    ensures forall i :: n <= i < e ==> s[i] in cs
  {
    if e > 0 && s[e - 1] in cs then TrimEnd(s, cs, e - 1) else e
  }

  /** dirname(): "." for a bare name, "/" when only the root is left. */
  function Dirname(p: string): string
  {
    if p == "" then ""
    else
      var t := RTrim(p, {'/'});
      if t == "" then "/"
      else
        var i := LastIndexOf(t, '/');
        if i < 0 then "."
        else
          var h := t[..TrimEnd(t, {'/'}, i)];
          if h == "" then "/" else h
  }

  /** trailingslashit(): strip trailing slashes and backslashes, then add one slash. */
  function TrailingSlashIt(s: string): string
  {
    RTrim(s, {'/', '\\'}) + "/"
  }

  /** trailingslashit(dirname($p)), the plugin's "subdir" of a relative path. */
  function Subdir(p: string): string
  {
    TrailingSlashIt(Dirname(p))
  }

  /** basename(): the last component, trailing slashes ignored. */
  function Basename(p: string): string
  {
    var t := RTrim(p, {'/'});
    t[LastIndexOf(t, '/') + 1..]
  }

  /** pathinfo($p, PATHINFO_FILENAME): the basename up to its last dot. */
  function PathFilename(p: string): string
  {
    var b := Basename(p);
    var i := LastIndexOf(b, '.');
    if i < 0 then b else b[..i]
  }

  /** pathinfo($p, PATHINFO_EXTENSION): the text after the basename's last dot, or "". */
  function PathExtension(p: string): string
  {
    var b := Basename(p);
    var i := LastIndexOf(b, '.');
    if i < 0 then "" else b[i + 1..]
  }

  /**
   * A file at the top of the uploads directory has dirname ".", so its subdir
   * is "./", never "/".
   */
  lemma RootSubdir(p: string)
    requires p != "" && '/' !in p
    ensures Subdir(p) == "./"
    ensures Basename(p) == p
  {
    assert RTrim(p, {'/'}) == p;
    assert LastIndexOf(p, '/') == -1;
    assert RTrim(".", {'/', '\\'}) == ".";
  }

  /** A file below a directory d has subdir d + "/". */
  lemma {:induction false} NestedSubdir(d: string, n: string)
    requires d != "" && d[|d| - 1] != '/' && d[|d| - 1] != '\\'
    requires n != "" && '/' !in n
    ensures Subdir(d + "/" + n) == d + "/"
    ensures Basename(d + "/" + n) == n
  {
    var p := d + "/" + n;
    assert p[|p| - 1] == n[|n| - 1];
    assert RTrim(p, {'/'}) == p;
    assert p == d + ['/'] + n;
    LastAt(d, '/', n);
    assert p[..|d|] == d;
    assert RTrim(d, {'/'}) == d;
    assert RTrim(d, {'/', '\\'}) == d;
    assert p[|d| + 1..] == n;
  }

  /** The last c in a + [c] + b, when b has none, is the one between them. */
  lemma LastAt(a: string, c: char, b: string)
    requires c !in b
    ensures LastIndexOf(a + [c] + b, c) == |a|
  {
    var p := a + [c] + b;
    assert p[|a|] == c;
  }

  lemma NoneAt(s: string, c: char)
    requires c !in s
    ensures LastIndexOf(s, c) == -1
  {
  }

  /** The basename of d + b, for a directory prefix d, is b. */
  lemma BasenameAfterDir(d: string, b: string)
    requires d == "" || d[|d| - 1] == '/'
    requires b != "" && '/' !in b
    ensures Basename(d + b) == b
  {
    var p := d + b;
    assert p[|p| - 1] == b[|b| - 1];
    assert RTrim(p, {'/'}) == p;
    if d == "" {
      assert p == b;
      NoneAt(b, '/');
    } else {
      assert p == d[..|d| - 1] + ['/'] + b;
      LastAt(d[..|d| - 1], '/', b);
      assert p[|d|..] == b;
    }
  }

  /** The last dot of stem + "." + ext, when ext has none, splits off ext. */
  lemma {:induction false} SplitAtDot(stem: string, ext: string)
    requires '.' !in ext
    ensures LastIndexOf(stem + "." + ext, '.') == |stem|
    ensures (stem + "." + ext)[..|stem|] == stem
    ensures (stem + "." + ext)[|stem| + 1..] == ext
  {
    assert stem + "." + ext == stem + ['.'] + ext;
    LastAt(stem, '.', ext);
  }

  lemma NoSlashInName(stem: string, ext: string)
    requires '/' !in stem && '/' !in ext
    ensures '/' !in stem + "." + ext
  {
    var b := stem + "." + ext;
    forall j | 0 <= j < |b| ensures b[j] != '/' {
      if j < |stem| { assert b[j] == stem[j]; } else if j > |stem| { assert b[j] == ext[j - |stem| - 1]; }
    }
  }

  /** pathinfo() splits dir + stem + "." + ext at the last dot of the basename. */
  lemma {:induction false} NameParts(d: string, stem: string, ext: string)
    requires d == "" || d[|d| - 1] == '/'
    requires '/' !in stem && '/' !in ext && '.' !in ext
    ensures Basename(d + (stem + "." + ext)) == stem + "." + ext
    ensures PathFilename(d + (stem + "." + ext)) == stem
    ensures PathExtension(d + (stem + "." + ext)) == ext
  {
    NoSlashInName(stem, ext);
    BasenameAfterDir(d, stem + "." + ext);
    BasenameParts(d + (stem + "." + ext), stem, ext);
  }

  /** A basename stem + "." + ext, with no dot in ext, is split at that dot. */
  lemma {:induction false} BasenameParts(p: string, stem: string, ext: string)
    requires Basename(p) == stem + "." + ext && '.' !in ext
    ensures PathFilename(p) == stem && PathExtension(p) == ext
  {
    SplitAtDot(stem, ext);
  }

  /** A path without a trailing slash ends with "." + its extension, when it has one. */
  lemma {:induction false} ExtensionSuffix(p: string)
    requires p != [] && p[|p| - 1] != '/'
    requires PathExtension(p) != ""
    ensures |PathExtension(p)| < |p| && p[|p| - |PathExtension(p)| - 1..] == "." + PathExtension(p)
  {
    var b := Basename(p);
    BasenameSuffix(p);
    var ext := PathExtension(p);
    DotExtension(b, ext);
    SuffixOfSuffix(p, b, |ext| + 1);
  }

  /** The basename of a path without a trailing slash is a suffix of it. */
  lemma BasenameSuffix(p: string)
    requires p != [] && p[|p| - 1] != '/'
    ensures |Basename(p)| <= |p| && Basename(p) == p[|p| - |Basename(p)|..]
  {
    assert TrimEnd(p, {'/'}, |p|) == |p|;
    assert RTrim(p, {'/'}) == p;
  }

  /** A basename with an extension ends with "." + that extension. */
  lemma DotExtension(b: string, ext: string)
    requires LastIndexOf(b, '.') >= 0 && ext == b[LastIndexOf(b, '.') + 1..]
    ensures |ext| < |b| && b[|b| - |ext| - 1..] == "." + ext
  {
    var i := LastIndexOf(b, '.');
    assert b[i..] == [b[i]] + b[i + 1..];
  }

  /** A suffix of a suffix of p is a suffix of p. */
  lemma SuffixOfSuffix(p: string, b: string, k: nat)
    requires |b| <= |p| && b == p[|p| - |b|..] && k <= |b|
    ensures p[|p| - k..] == b[|b| - k..]
  {
  }
}
