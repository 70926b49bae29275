/**
 * The regular expressions of the plugin's file-name tests, written out as
 * functions on strings. Each suffix pattern is anchored at the end, so the text
 * it matches is unique; each `...Len` function returns the length of that
 * text (0 when the pattern does not match), and the `...Form` predicates say
 * declaratively which strings the pattern matches in full.
 */
module Patterns {
  import opened Strings

  predicate IsDigit(c: char)
  {
    '0' <= c <= '9'
  }

  predicate AllDigits(s: string)
  {
    forall i :: 0 <= i < |s| ==> IsDigit(s[i])
  }

  /** The number of digits just before position e of s. */
  function DigitsBefore(s: string, e: nat): (n: nat)
    requires e <= |s|
    ensures n <= e
  {
    if e > 0 && IsDigit(s[e - 1]) then DigitsBefore(s, e - 1) + 1 else 0
  }

  /** What DigitsBefore counts are digits, and the character before them is not one. */
  lemma {:induction false} DigitsBeforeSpec(s: string, e: nat)
    requires e <= |s|
    ensures forall i :: e - DigitsBefore(s, e) <= i < e ==> IsDigit(s[i])
    ensures DigitsBefore(s, e) < e ==> !IsDigit(s[e - DigitsBefore(s, e) - 1])
  {
    if e > 0 && IsDigit(s[e - 1]) {
      DigitsBeforeSpec(s, e - 1);
    }
  }

  /** A run of n digits ending at e, not preceded by a digit, is what DigitsBefore counts. */
  lemma {:induction false} DigitsBeforeExact(s: string, e: nat, n: nat)
    requires n <= e <= |s|
    requires forall i :: e - n <= i < e ==> IsDigit(s[i])
    requires n < e ==> !IsDigit(s[e - n - 1])
    ensures DigitsBefore(s, e) == n
  {
    if n > 0 {
      DigitsBeforeExact(s, e - 1, n - 1);
    }
  }

  // ---- -WIDTHxHEIGHT -----------------------------------------------------

  /** The text `-\d+x\d+` matches in full. */
  ghost predicate SizeForm(t: string)
  {
    exists i :: 2 <= i < |t| - 1 && t[0] == '-' && t[i] == 'x' && AllDigits(t[1..i]) && AllDigits(t[i + 1..])
  }

  /** Length of the match of `\-\d+x\d+` that ends at position e of s, or 0. */
  function SizeMatchAt(s: string, e: nat): (n: nat)
    requires e <= |s|
    ensures n <= e
  {
    var d2 := DigitsBefore(s, e);
    if d2 == 0 || d2 == e || s[e - d2 - 1] != 'x' then 0
    else
      var d1 := DigitsBefore(s, e - d2 - 1);
      if d1 == 0 || d1 == e - d2 - 1 || s[e - d2 - 1 - d1 - 1] != '-' then 0
      else d1 + d2 + 2
  }

  /** The two runs of digits and their separators determine the match. */
  lemma SizeMatchFrom(s: string, e: nat, d2: nat, d1: nat)
    requires 0 < d2 < e <= |s| && DigitsBefore(s, e) == d2 && s[e - d2 - 1] == 'x'
    requires 0 < d1 < e - d2 - 1 && DigitsBefore(s, e - d2 - 1) == d1 && s[e - d2 - 1 - d1 - 1] == '-'
    ensures SizeMatchAt(s, e) == d1 + d2 + 2
  {
  }

  /** What SizeMatchAt finds has the form `-\d+x\d+`. */
  lemma SizeMatchSound(s: string, e: nat)
    requires e <= |s|
    ensures SizeMatchAt(s, e) > 0 ==> SizeForm(s[e - SizeMatchAt(s, e)..e])
  {
    var n := SizeMatchAt(s, e);
    if n > 0 {
      var d2 := DigitsBefore(s, e);
      var d1 := DigitsBefore(s, e - d2 - 1);
      assert n == d1 + d2 + 2;
      DigitsBeforeSpec(s, e);
      DigitsBeforeSpec(s, e - d2 - 1);
      SizeAt(s, e - n, d1, d2, e);
    }
  }

  /** A dash, d1 digits, an `x` and d2 digits ending at e make the form `-\d+x\d+`. */
  lemma SizeAt(s: string, b: nat, d1: nat, d2: nat, e: nat)
    requires b + d1 + d2 + 2 == e <= |s| && 0 < d1 && 0 < d2
    requires s[b] == '-' && s[b + d1 + 1] == 'x'
    requires forall j :: b < j < b + d1 + 1 ==> IsDigit(s[j])
    requires forall j :: b + d1 + 1 < j < e ==> IsDigit(s[j])
    ensures SizeForm(s[b..e])
  {
    var t := s[b..e];
    DigitsSlice(s, b, e, 1, d1 + 1);
    DigitsSlice(s, b, e, d1 + 2, |t|);
    assert t[d1 + 2..] == t[d1 + 2..|t|];
    assert t[0] == '-' && t[d1 + 1] == 'x';
  }

  /** Any `-\d+x\d+` ending at e is the one SizeMatchAt finds. */
  lemma {:induction false} SizeMatchComplete(s: string, e: nat, k: nat)
    requires 0 < k <= e <= |s| && SizeForm(s[e - k..e])
    ensures SizeMatchAt(s, e) == k
  {
    var b := e - k;
    var i := SizeSplit(s[b..e]);
    var d2 := k - i - 1;
    var d1 := i - 1;
    SliceDigits(s, b, e, i + 1, k);
    SliceDigits(s, b, e, 1, i);
    assert s[e - d2 - 1] == s[b..e][i];
    assert s[e - d2 - 1 - d1 - 1] == s[b..e][0];
    DigitsBeforeExact(s, e, d2);
    DigitsBeforeExact(s, e - d2 - 1, d1);
    SizeMatchFrom(s, e, d2, d1);
  }

  /** The position of the `x` in a text of the form `-\d+x\d+`. */
  lemma SizeSplit(t: string) returns (i: nat)
    requires SizeForm(t)
    ensures 2 <= i < |t| - 1 && t[0] == '-' && t[i] == 'x'
    ensures AllDigits(t[1..i]) && AllDigits(t[i + 1..|t|])
  {
    i :| 2 <= i < |t| - 1 && t[0] == '-' && t[i] == 'x' && AllDigits(t[1..i]) && AllDigits(t[i + 1..]);
    assert t[i + 1..] == t[i + 1..|t|];
  }

  /** Digits of s make a slice of digits. */
  lemma DigitsSlice(s: string, b: nat, e: nat, lo: nat, hi: nat)
    requires b <= e <= |s| && lo <= hi <= e - b
    requires forall j :: b + lo <= j < b + hi ==> IsDigit(s[j])
    ensures AllDigits(s[b..e][lo..hi])
  {
    forall k | 0 <= k < hi - lo ensures IsDigit(s[b..e][lo..hi][k]) {
      assert s[b..e][lo..hi][k] == s[b + lo + k];
    }
  }

  /** Digits in a slice of s are digits of s. */
  lemma SliceDigits(s: string, b: nat, e: nat, lo: nat, hi: nat)
    requires b <= e <= |s| && lo <= hi <= e - b
    requires AllDigits(s[b..e][lo..hi])
    ensures forall j :: b + lo <= j < b + hi ==> IsDigit(s[j])
  {
    forall j | b + lo <= j < b + hi ensures IsDigit(s[j]) {
      assert s[j] == s[b..e][lo..hi][j - b - lo];
    }
  }

  /** Length of the match of `(\-\d+x\d+)$`, or 0. */
  function SizeSuffixLen(s: string): (n: nat)
    ensures n <= |s|
  {
    SizeMatchAt(s, |s|)
  }

  /** What SizeSuffixLen finds has the form `-\d+x\d+`. */
  lemma SizeSuffixSound(s: string)
    ensures SizeSuffixLen(s) > 0 ==> SizeForm(s[|s| - SizeSuffixLen(s)..])
  {
    SizeMatchSound(s, |s|);
    assert s[|s| - SizeSuffixLen(s)..|s|] == s[|s| - SizeSuffixLen(s)..];
  }

  /** Any suffix of the form `-\d+x\d+` is the one SizeSuffixLen finds. */
  lemma SizeSuffixComplete(s: string, k: nat)
    requires 0 < k <= |s| && SizeForm(s[|s| - k..])
    ensures SizeSuffixLen(s) == k
  {
    assert s[|s| - k..|s|] == s[|s| - k..];
    SizeMatchComplete(s, |s|, k);
  }

  // ---- -pdf and -pdf-WIDTHxHEIGHT ----------------------------------------

  /** Length of the match of `(\-pdf(\-\d+x\d+)?)$`, or 0. */
  function PdfSuffixLen(s: string): (n: nat)
    ensures n <= |s| && (n == 0 || n >= 4)
    ensures n > 0 ==> EndsWith(s[..|s| - n + 4], "-pdf")
  {
    var k := SizeSuffixLen(s);
    if k > 0 && EndsWith(s[..|s| - k], "-pdf") then k + 4
    else if EndsWith(s, "-pdf") then 4
    else 0
  }

  /** Past its `-pdf`, what PdfSuffixLen finds is a `-WxH` or nothing. */
  lemma PdfSuffixSound(s: string)
    ensures PdfSuffixLen(s) > 4 ==> SizeForm(s[|s| - PdfSuffixLen(s) + 4..])
  {
    SizeSuffixSound(s);
  }

  // ---- -WIDTHxHEIGHT-<10 or more digits> ---------------------------------

  /** The text `-\d+x\d+-\d{10,}` matches in full. */
  ghost predicate EditorForm(t: string)
  {
    exists j :: 0 < j < |t| - 10 && t[j] == '-' && SizeForm(t[..j]) && AllDigits(t[j + 1..])
  }

  /** Length of the match of `\-\d+x\d+\-\d{10,}$`, or 0. */
  function EditorSuffixLen(s: string): (n: nat)
    ensures n <= |s|
  {
    var t := DigitsBefore(s, |s|);
    if t < 10 || t == |s| || s[|s| - t - 1] != '-' then 0
    else
      var k := SizeMatchAt(s, |s| - t - 1);
      if k == 0 then 0 else k + 1 + t
  }

  lemma EditorMatchFrom(s: string, t: nat, k: nat)
    requires 10 <= t < |s| && DigitsBefore(s, |s|) == t && s[|s| - t - 1] == '-'
    requires 0 < k && SizeMatchAt(s, |s| - t - 1) == k
    ensures EditorSuffixLen(s) == k + 1 + t
  {
  }

  /** What EditorSuffixLen finds has the form `-\d+x\d+-\d{10,}`. */
  lemma EditorSuffixSound(s: string)
    ensures EditorSuffixLen(s) > 0 ==> EditorForm(s[|s| - EditorSuffixLen(s)..])
  {
    var n := EditorSuffixLen(s);
    if n > 0 {
      var t := DigitsBefore(s, |s|);
      var k := SizeMatchAt(s, |s| - t - 1);
      assert n == k + 1 + t;
      DigitsBeforeSpec(s, |s|);
      SizeMatchSound(s, |s| - t - 1);
      EditorAt(s, |s| - n, k, t);
    }
  }

  /** A `-WxH` at b, a dash, and ten digits or more to the end make the editor's form. */
  lemma EditorAt(s: string, b: nat, k: nat, t: nat)
    requires b + k + 1 + t == |s| && 0 < k && 10 <= t
    requires s[b + k] == '-' && SizeForm(s[b..b + k])
    requires forall j :: b + k + 1 <= j < |s| ==> IsDigit(s[j])
    ensures EditorForm(s[b..])
  {
    var m := s[b..];
    assert m == s[b..|s|];
    assert m[..k] == s[b..b + k];
    DigitsSlice(s, b, |s|, k + 1, |m|);
    assert m[k + 1..] == m[k + 1..|m|];
    assert m[k] == '-';
  }

  /** Any suffix of the editor's form is the one EditorSuffixLen finds. */
  lemma {:induction false} EditorSuffixComplete(s: string, n: nat)
    requires 0 < n <= |s| && EditorForm(s[|s| - n..])
    ensures EditorSuffixLen(s) == n
  {
    var b := |s| - n;
    assert s[b..] == s[b..|s|];
    var j := EditorSplit(s[b..|s|]);
    var t := n - j - 1;
    SliceDigits(s, b, |s|, j + 1, n);
    assert s[|s| - t - 1] == s[b..|s|][j];
    DigitsBeforeExact(s, |s|, t);
    assert s[|s| - t - 1 - j..|s| - t - 1] == s[b..|s|][..j];
    SizeMatchComplete(s, |s| - t - 1, j);
    EditorMatchFrom(s, t, j);
  }

  /** The position of the second dash in a text of the editor's form. */
  lemma EditorSplit(m: string) returns (j: nat)
    requires EditorForm(m)
    ensures 0 < j < |m| - 10 && m[j] == '-' && SizeForm(m[..j]) && AllDigits(m[j + 1..|m|])
  {
    j :| 0 < j < |m| - 10 && m[j] == '-' && SizeForm(m[..j]) && AllDigits(m[j + 1..]);
    assert m[j + 1..] == m[j + 1..|m|];
  }

  // ---- other tests -------------------------------------------------------

  predicate EndsWithWebExt(l: string)
  {
    EndsWith(l, ".html") || EndsWith(l, ".htm") || EndsWith(l, ".php") || EndsWith(l, ".js") || EndsWith(l, ".css")
  }

  /** `/\.(html?|php|js|css)(\.(gz|br))?$/i`: page and script files, plain or pre-compressed. */
  predicate IsWebAsset(f: string)
  {
    var l := Lower(f);
    EndsWithWebExt(l) || ((EndsWith(l, ".gz") || EndsWith(l, ".br")) && EndsWithWebExt(l[..|l| - 3]))
  }

  /** `#^\d{4}/\d{2}/$#`: a year/month upload directory. */
  predicate IsDateDir(d: string)
  {
    |d| == 8 && AllDigits(d[..4]) && d[4] == '/' && AllDigits(d[5..7]) && d[7] == '/'
  }

  /**
   * `/^filename(\-\d+x\d+)?\.ext$/` with filename and ext quoted: the file
   * itself or one of its size variants, extension compared case-sensitively.
   */
  predicate IsSister(entry: string, filename: string, ext: string)
  {
    && |filename| + 1 + |ext| <= |entry|
    && StartsWith(entry, filename)
    && EndsWith(entry, "." + ext)
    && var mid := entry[|filename|..|entry| - |ext| - 1];
       mid == "" || SizeSuffixLen(mid) == |mid|
  }

  /** IsSister holds of exactly the two shapes the pattern allows. */
  lemma SisterShapes(entry: string, filename: string, ext: string)
    ensures IsSister(entry, filename, ext) <==>
      entry == filename + "." + ext ||
      exists size :: entry == filename + size + "." + ext && SizeForm(size)
  {
    if IsSister(entry, filename, ext) {
      SisterShapesSound(entry, filename, ext);
    }
    if entry == filename + "." + ext {
      SisterItself(filename, ext);
    }
    if exists size :: entry == filename + size + "." + ext && SizeForm(size) {
      var size :| entry == filename + size + "." + ext && SizeForm(size);
      SisterSized(filename, size, ext);
    }
  }

  lemma {:induction false} SisterShapesSound(entry: string, filename: string, ext: string)
    requires IsSister(entry, filename, ext)
    ensures entry == filename + "." + ext ||
      exists size :: entry == filename + size + "." + ext && SizeForm(size)
  {
    var mid := entry[|filename|..|entry| - |ext| - 1];
    SisterSplit(entry, filename, ext);
    if mid == "" {
      assert filename + mid == filename;
    } else {
      SizeSuffixSound(mid);
      assert mid[|mid| - |mid|..] == mid;
      assert entry == filename + mid + "." + ext && SizeForm(mid);
    }
  }

  /** A sister is the filename, the text between, and the extension. */
  lemma SisterSplit(entry: string, filename: string, ext: string)
    requires |filename| + 1 + |ext| <= |entry|
    requires StartsWith(entry, filename) && EndsWith(entry, "." + ext)
    ensures entry == filename + entry[|filename|..|entry| - |ext| - 1] + "." + ext
  {
    var mid := entry[|filename|..|entry| - |ext| - 1];
    assert entry[..|filename|] == filename;
    assert entry[|entry| - |ext| - 1..] == "." + ext;
    assert entry == entry[..|filename|] + mid + entry[|entry| - |ext| - 1..];
  }

  /** The canonical file is its own sister. */
  lemma {:induction false} SisterItself(filename: string, ext: string)
    ensures IsSister(filename + "." + ext, filename, ext)
  {
    var entry := filename + "." + ext;
    assert entry[..|filename|] == filename;
    assert entry[|entry| - |ext| - 1..] == "." + ext;
    assert entry[|filename|..|entry| - |ext| - 1] == "";
  }

  /** A size variant of the canonical file is a sister. */
  lemma {:induction false} SisterSized(filename: string, size: string, ext: string)
    requires SizeForm(size)
    ensures IsSister(filename + size + "." + ext, filename, ext)
  {
    var entry := filename + size + "." + ext;
    assert entry[|filename|..|entry| - |ext| - 1] == size;
    assert size[|size| - |size|..] == size;
    SizeSuffixComplete(size, |size|);
    assert entry[..|filename|] == filename;
    assert entry[|entry| - |ext| - 1..] == "." + ext;
  }
}
