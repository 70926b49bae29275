/**
 * get_sister_files: the files of an attachment's directory that are the
 * attachment itself or one of its size variants.
 */
module Sisters {
  import opened Strings
  import opened Paths
  import opened Patterns
  import opened Site

  /** pathinfo(basename($source), PATHINFO_FILENAME) */
  function SisterName(source: string): string
  {
    PathFilename(Basename(source))
  }

  /** pathinfo(basename($source), PATHINFO_EXTENSION) */
  function SisterExt(source: string): string
  {
    PathExtension(Basename(source))
  }

  /** The directory entry is kept: not "." or "..", matching the pattern, and a regular file. */
  predicate Keeps(fs: FileSystem, subdir: string, entry: string, filename: string, ext: string)
  {
    entry != "." && entry != ".." && IsSister(entry, filename, ext) && IsFile(fs, subdir + entry)
  }

  /** The kept entries of a listing, in directory order, each prefixed with the subdir. */
  function Matching(fs: FileSystem, subdir: string, entries: seq<string>, filename: string, ext: string): (r: seq<string>)
    ensures forall x :: x in r <==> exists e :: e in entries && x == subdir + e && Keeps(fs, subdir, e, filename, ext)
  {
    if entries == [] then []
    else
      var e := entries[|entries| - 1];
      var r := Matching(fs, subdir, entries[..|entries| - 1], filename, ext);
      assert entries == entries[..|entries| - 1] + [e];
      if Keeps(fs, subdir, e, filename, ext) then r + [subdir + e] else r
  }

  /** One more directory entry read. */
  lemma MatchingNext(fs: FileSystem, subdir: string, entries: seq<string>, i: int, filename: string, ext: string)
    requires 0 <= i < |entries|
    ensures Matching(fs, subdir, entries[..i + 1], filename, ext) ==
      Matching(fs, subdir, entries[..i], filename, ext) + (if Keeps(fs, subdir, entries[i], filename, ext) then [subdir + entries[i]] else [])
  {
    assert entries[..i + 1][..i] == entries[..i];
  }

  /** Every guard of get_sister_files passes. */
  predicate Searched(fs: FileSystem, source: string)
  {
    !Falsy(source) && IsDir(fs, Subdir(source)) && !Falsy(SisterName(source)) && !Falsy(SisterExt(source))
  }

  /**
   * get_sister_files($source): nothing for an empty source, a missing
   * directory or a name without filename or extension; otherwise exactly
   * `subdir . entry` for the entries of the source's directory that are
   * regular files named `filename(-WxH)?.ext`.
   */
  function SisterFiles(fs: FileSystem, source: string): (r: seq<string>)
    ensures !Searched(fs, source) ==> r == []
    ensures forall x :: x in r <==>
      Searched(fs, source) &&
      exists e :: e in Listing(fs, Subdir(source)) && x == Subdir(source) + e &&
        IsFile(fs, x) && IsSister(e, SisterName(source), SisterExt(source))
  {
    if !Searched(fs, source) then []
    else
      var subdir := Subdir(source);
      var r := Matching(fs, subdir, Listing(fs, subdir), SisterName(source), SisterExt(source));
      assert forall e :: IsSister(e, SisterName(source), SisterExt(source)) ==> |e| >= 3;
      r
  }

  /** The source's own file, when its directory lists it, is among its sisters. */
  lemma SourceIsSister(fs: FileSystem, source: string)
    requires Searched(fs, source)
    requires Basename(source) == SisterName(source) + "." + SisterExt(source)
    requires Basename(source) in Listing(fs, Subdir(source))
    requires IsFile(fs, Subdir(source) + Basename(source))
    ensures Subdir(source) + Basename(source) in SisterFiles(fs, source)
  {
    var e := Basename(source);
    SisterItself(SisterName(source), SisterExt(source));
    assert IsSister(e, SisterName(source), SisterExt(source));
    SisterOf(fs, source, e);
  }

  lemma SisterOf(fs: FileSystem, source: string, e: string)
    requires Searched(fs, source)
    requires e in Listing(fs, Subdir(source)) && IsFile(fs, Subdir(source) + e)
    requires IsSister(e, SisterName(source), SisterExt(source))
    ensures Subdir(source) + e in SisterFiles(fs, source)
  {
  }

  /** Every size variant `filename-WxH.ext` the directory lists is among the sisters. */
  lemma SizedIsSister(fs: FileSystem, source: string, size: string)
    requires Searched(fs, source) && SizeForm(size)
    requires SisterName(source) + size + "." + SisterExt(source) in Listing(fs, Subdir(source))
    requires IsFile(fs, Subdir(source) + (SisterName(source) + size + "." + SisterExt(source)))
    ensures Subdir(source) + (SisterName(source) + size + "." + SisterExt(source)) in SisterFiles(fs, source)
  {
    SisterSized(SisterName(source), size, SisterExt(source));
    SisterOf(fs, source, SisterName(source) + size + "." + SisterExt(source));
  }
}
