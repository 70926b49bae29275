/**
 * get_orphans and webp_sister: the files of the uploads directory that no
 * attachment accounts for, either directly or as a derived copy of one.
 */
module Orphans {
  import opened Options
  import opened Strings
  import opened Sorting
  import opened Paths
  import opened Patterns
  import opened Site

  /** The rasters a WebP copy may have been made from, in the order they are tried. */
  const RasterExts: seq<string> := ["gif", "jpg", "jpeg", "png"]

  /** The first `stem . ext` that exists, trying exts in order. */
  function FirstExisting(fs: FileSystem, stem: string, exts: seq<string>): (r: Option<string>)
    ensures r.Some? ==> exists i :: (0 <= i < |exts| && r.value == stem + exts[i] && FileExists(fs, r.value) &&
      forall j :: 0 <= j < i ==> !FileExists(fs, stem + exts[j]))
    ensures r.None? <==> forall i :: 0 <= i < |exts| ==> !FileExists(fs, stem + exts[i])
  {
    if exts == [] then None
    else if FileExists(fs, stem + exts[0]) then Some(stem + exts[0])
    else
      var r := FirstExisting(fs, stem, exts[1..]);
      assert forall i :: 0 < i < |exts| ==> exts[i] == exts[1..][i - 1];
      r
  }

  /** The guards of webp_sister: a non-empty path ending in ".webp" (any case) that exists. */
  predicate WebpCandidate(fs: FileSystem, webp: string)
  {
    !Falsy(webp) && EndsWith(Lower(webp), ".webp") && FileExists(fs, webp)
  }

  /**
   * webp_sister($webp): the first of stem.gif, stem.jpg, stem.jpeg and
   * stem.png that exists, where stem is the path without "webp"; None when a
   * guard fails or none exists.
   */
  function WebpSister(fs: FileSystem, webp: string): (r: Option<string>)
    ensures !WebpCandidate(fs, webp) ==> r.None?
    ensures WebpCandidate(fs, webp) ==> |webp| >= 5 && r == FirstExisting(fs, webp[..|webp| - 4], RasterExts)
  {
    if !WebpCandidate(fs, webp) then None
    else FirstExisting(fs, webp[..|webp| - 4], RasterExts)
  }

  /** The subdir test: without $all only the top directory "/" and year/month directories count. */
  predicate InScope(all: bool, filepath: string)
  {
    all || filepath == "/" || IsDateDir(filepath)
  }

  /** `{$filepath}{$filename_original}.{$ext}` is an official path. */
  predicate OfficialAs(official: set<string>, filepath: string, original: string, ext: string)
  {
    filepath + original + ("." + ext) in official
  }

  /** A thumbnail `name-WxH.ext` of an official `name.ext`. */
  predicate SizeVariant(official: set<string>, filepath: string, filename: string, ext: string)
  {
    var n := SizeSuffixLen(filename);
    n > 0 && OfficialAs(official, filepath, filename[..|filename| - n], ext)
  }

  /** A preview `name-pdf(-WxH)?.ext` of an official `name.pdf`. */
  predicate PdfVariant(official: set<string>, filepath: string, filename: string)
  {
    var n := PdfSuffixLen(filename);
    n > 0 && OfficialAs(official, filepath, filename[..|filename| - n], "pdf")
  }

  /** Image-editor output `name-WxH-<10+ digits>.ext` of an official `name` or `name.ext`. */
  predicate EditorVariant(official: set<string>, filepath: string, filename: string, ext: string)
  {
    var n := EditorSuffixLen(filename);
    n > 0 &&
      (filepath + filename[..|filename| - n] in official || OfficialAs(official, filepath, filename[..|filename| - n], ext))
  }

  /**
   * The cascade get_orphans applies to each file (path relative to the
   * uploads directory), given the official paths.
   */
  function IsOrphan(fs: FileSystem, official: set<string>, all: bool, rel: string): (r: bool)
    ensures r ==> rel !in official
    ensures r ==> !IsWebAsset(rel)
    ensures r ==> InScope(all, Subdir(rel))
    ensures !IsWebAsset(rel) && rel !in official && InScope(all, Subdir(rel)) && Lower(PathExtension(rel)) == "webp" ==>
      (r <==> WebpSister(fs, rel).None?)
  {
    if IsWebAsset(rel) || rel in official then false
    else
      var filepath := Subdir(rel);
      var filename := PathFilename(rel);
      var ext := PathExtension(rel);
      if !InScope(all, filepath) then false
      else if Lower(ext) == "webp" then WebpSister(fs, rel).None?
      else
        !SizeVariant(official, filepath, filename, ext) &&
        !PdfVariant(official, filepath, filename) &&
        !EditorVariant(official, filepath, filename, ext)
  }

  /** A non-WebP file that any of the three variant rules accounts for is no orphan. */
  lemma VariantKept(fs: FileSystem, official: set<string>, all: bool, rel: string)
    requires Lower(PathExtension(rel)) != "webp"
    requires
      var filepath, filename, ext := Subdir(rel), PathFilename(rel), PathExtension(rel);
      SizeVariant(official, filepath, filename, ext) || PdfVariant(official, filepath, filename) ||
      EditorVariant(official, filepath, filename, ext)
    ensures !IsOrphan(fs, official, all, rel)
  {
  }

  /** A thumbnail of an official file is no orphan. */
  lemma SizeVariantKept(fs: FileSystem, official: set<string>, all: bool, rel: string, original: string, size: string)
    requires Lower(PathExtension(rel)) != "webp"
    requires PathFilename(rel) == original + size && SizeForm(size)
    requires Subdir(rel) + original + ("." + PathExtension(rel)) in official
    ensures !IsOrphan(fs, official, all, rel)
  {
    SizeVariantOf(official, Subdir(rel), PathFilename(rel), original, size, PathExtension(rel));
    VariantKept(fs, official, all, rel);
  }

  lemma SizeVariantOf(official: set<string>, filepath: string, f: string, original: string, size: string, ext: string)
    requires f == original + size && SizeForm(size)
    requires filepath + original + ("." + ext) in official
    ensures SizeVariant(official, filepath, f, ext)
  {
    assert f[|f| - |size|..] == size;
    SizeSuffixComplete(f, |size|);
    assert f[..|f| - |size|] == original;
  }

  /** `-pdf` at the end of a name is the whole match of the PDF pattern. */
  lemma {:induction false} PdfSuffixPlain(f: string, original: string)
    requires f == original + "-pdf"
    ensures PdfSuffixLen(f) == 4 && f[..|f| - 4] == original
  {
    assert DigitsBefore(f, |f|) == 0 by {
      assert f[|f| - 1] == 'f';
    }
    assert f[|f| - 4..] == "-pdf";
  }

  /** `-pdf-WxH` at the end of a name is the whole match of the PDF pattern. */
  lemma {:induction false} PdfSuffixSized(f: string, original: string, size: string)
    requires f == original + "-pdf" + size && SizeForm(size)
    ensures PdfSuffixLen(f) == |size| + 4 && f[..|f| - (|size| + 4)] == original
  {
    assert f[|f| - |size|..] == size;
    SizeSuffixComplete(f, |size|);
    var head := f[..|f| - |size|];
    assert head == original + "-pdf";
    assert head[|head| - 4..] == "-pdf";
    assert f[..|f| - (|size| + 4)] == head[..|head| - 4];
  }

  /** A preview of an official PDF, sized or not, is no orphan. */
  lemma PdfVariantKept(fs: FileSystem, official: set<string>, all: bool, rel: string, original: string, size: string)
    requires Lower(PathExtension(rel)) != "webp"
    requires PathFilename(rel) == original + "-pdf" + size && (size == "" || SizeForm(size))
    requires Subdir(rel) + original + ".pdf" in official
    ensures !IsOrphan(fs, official, all, rel)
  {
    PdfVariantOf(official, Subdir(rel), PathFilename(rel), original, size);
    VariantKept(fs, official, all, rel);
  }

  lemma PdfVariantOf(official: set<string>, filepath: string, f: string, original: string, size: string)
    requires f == original + "-pdf" + size && (size == "" || SizeForm(size))
    requires filepath + original + ".pdf" in official
    ensures PdfVariant(official, filepath, f)
  {
    if size == "" {
      assert f == original + "-pdf";
      PdfSuffixPlain(f, original);
    } else {
      PdfSuffixSized(f, original, size);
    }
    assert "." + "pdf" == ".pdf";
  }

  /** Image-editor output of an official file is no orphan, whichever way it was named. */
  lemma EditorVariantKept(fs: FileSystem, official: set<string>, all: bool, rel: string, original: string, tail: string)
    requires Lower(PathExtension(rel)) != "webp"
    requires PathFilename(rel) == original + tail && EditorForm(tail)
    requires Subdir(rel) + original in official || Subdir(rel) + original + ("." + PathExtension(rel)) in official
    ensures !IsOrphan(fs, official, all, rel)
  {
    EditorVariantOf(official, Subdir(rel), PathFilename(rel), original, tail, PathExtension(rel));
    VariantKept(fs, official, all, rel);
  }

  lemma EditorVariantOf(official: set<string>, filepath: string, f: string, original: string, tail: string, ext: string)
    requires f == original + tail && EditorForm(tail)
    requires filepath + original in official || filepath + original + ("." + ext) in official
    ensures EditorVariant(official, filepath, f, ext)
  {
    assert f[|f| - |tail|..] == tail;
    var j := EditorSplit(tail);
    EditorSuffixComplete(f, |tail|);
    assert f[..|f| - |tail|] == original;
  }

  /** A name whose extension is "webp" in any case ends in ".webp" in any case. */
  lemma {:induction false} WebpExtension(rel: string)
    requires rel != [] && rel[|rel| - 1] != '/'
    requires Lower(PathExtension(rel)) == "webp"
    ensures |rel| >= 5 && EndsWith(Lower(rel), ".webp")
  {
    var ext := PathExtension(rel);
    ExtensionSuffix(rel);
    var l := Lower(rel);
    forall k | 0 <= k < 5
      ensures l[|rel| - 5 + k] == ".webp"[k]
    {
      if k > 0 {
        assert rel[|rel| - 5 + k] == rel[|rel| - 5..][k] == ext[k - 1];
        assert Lower(ext)[k - 1] == "webp"[k - 1];
      }
    }
    assert l[|l| - 5..] == ".webp";
  }

  /**
   * A WebP file the cascade reaches is reported exactly when none of
   * stem.gif, stem.jpg, stem.jpeg and stem.png exists.
   */
  lemma WebpOrphan(fs: FileSystem, official: set<string>, all: bool, rel: string)
    requires IsFile(fs, rel) && rel != [] && rel[|rel| - 1] != '/'
    requires !IsWebAsset(rel) && rel !in official && InScope(all, Subdir(rel))
    requires Lower(PathExtension(rel)) == "webp"
    ensures IsOrphan(fs, official, all, rel) <==>
      forall i :: 0 <= i < |RasterExts| ==> !FileExists(fs, rel[..|rel| - 4] + RasterExts[i])
  {
    WebpExtension(rel);
    assert WebpCandidate(fs, rel);
  }

  /** The files of the walk that the cascade reports, in walk order. */
  function OrphansOf(fs: FileSystem, official: set<string>, all: bool, walk: seq<string>): (r: seq<string>)
    ensures |r| <= |walk|
  {
    if walk == [] then []
    else
      var f := walk[|walk| - 1];
      var r := OrphansOf(fs, official, all, walk[..|walk| - 1]);
      if IsOrphan(fs, official, all, f) then r + [f] else r
  }

  /** One more file walked. */
  lemma OrphansOfNext(fs: FileSystem, official: set<string>, all: bool, walk: seq<string>, i: int)
    requires 0 <= i < |walk|
    ensures OrphansOf(fs, official, all, walk[..i + 1]) ==
      OrphansOf(fs, official, all, walk[..i]) + (if IsOrphan(fs, official, all, walk[i]) then [walk[i]] else [])
  {
    assert walk[..i + 1][..i] == walk[..i];
  }

  /** OrphansOf keeps exactly the walked files the cascade reports. */
  lemma {:induction false} OrphansOfSpec(fs: FileSystem, official: set<string>, all: bool, walk: seq<string>, x: string)
    ensures x in OrphansOf(fs, official, all, walk) <==> x in walk && IsOrphan(fs, official, all, x)
  {
    if walk != [] {
      var init := walk[..|walk| - 1];
      assert walk == init + [walk[|walk| - 1]];
      OrphansOfSpec(fs, official, all, init, x);
    }
  }
}
