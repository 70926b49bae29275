/**
 * The per-group logic of deduplicate_files: choosing the file to keep,
 * listing the files to retire, the search-replace pair for each, and the
 * bookkeeping as each one is removed.
 */
module Consolidate {
  import opened Options
  import opened Strings
  import opened PhpArray
  import opened Paths
  import opened Patterns
  import opened Site
  import opened Sisters

  // ---- choosing the primary ----------------------------------------------

  /** `$primary`, `$dupes` and `$in_lint` of one group. */
  datatype Selection = Selection(primary: string, dupes: seq<string>, inLint: nat)

  /** One turn of the loop over the group's paths. */
  function SelectStep(s: Selection, v2: string, linted: set<string>): Selection
  {
    if Falsy(s.primary) && v2 in linted then
      Selection(v2, s.dupes, s.inLint + 1)
    else
      Selection(s.primary, s.dupes + [v2], if v2 in linted then s.inLint + 1 else s.inLint)
  }

  /** The loop over the group's paths, from `$primary = ''`. */
  function ScanGroup(v: seq<string>, linted: set<string>): Selection
  {
    if v == [] then Selection("", [], 0)
    else SelectStep(ScanGroup(v[..|v| - 1], linted), v[|v| - 1], linted)
  }

  /**
   * The selection after `if (!$primary) $primary = array_shift($dupes);`.
   * array_shift of an empty list gives null, written "" here.
   */
  function Select(v: seq<string>, linted: set<string>): Selection
  {
    var s := ScanGroup(v, linted);
    if !Falsy(s.primary) then s
    else if s.dupes == [] then s.(primary := "")
    else Selection(s.dupes[0], s.dupes[1..], s.inLint)
  }

  /** The foreach over the group and the array_shift that follows it. */
  method SelectPrimary(v: seq<string>, linted: set<string>) returns (s: Selection)
    ensures s == Select(v, linted)
  {
    var primary, dupes, inLint := "", [], 0;
    for i := 0 to |v|
      invariant Selection(primary, dupes, inLint) == ScanGroup(v[..i], linted)
    {
      assert v[..i + 1][..i] == v[..i];
      var v2 := v[i];
      if Falsy(primary) && v2 in linted {
        primary := v2;
        inLint := inLint + 1;
      } else {
        dupes := dupes + [v2];
        if v2 in linted {
          inLint := inLint + 1;
        }
      }
    }
    assert v[..|v|] == v;
    if Falsy(primary) {
      if dupes == [] {
        primary := "";
      } else {
        primary := dupes[0];
        dupes := dupes[1..];
      }
    }
    s := Selection(primary, dupes, inLint);
  }

  /** Index of the first linted path, or |v|. */
  function FirstLinted(v: seq<string>, linted: set<string>): (k: nat)
    ensures k <= |v|
    ensures k < |v| ==> v[k] in linted
    ensures forall j :: 0 <= j < k ==> v[j] !in linted
  {
    if v == [] then 0
    else if v[0] in linted then 0
    else 1 + FirstLinted(v[1..], linted)
  }

  /** The number of the group's paths that are linted. */
  function LintedCount(v: seq<string>, linted: set<string>): nat
  {
    if v == [] then 0
    else LintedCount(v[..|v| - 1], linted) + (if v[|v| - 1] in linted then 1 else 0)
  }

  predicate NoFalsy(v: seq<string>)
  {
    forall j :: 0 <= j < |v| ==> !Falsy(v[j])
  }

  lemma FirstLintedAppend(v: seq<string>, x: string, linted: set<string>)
    ensures FirstLinted(v + [x], linted) ==
      if FirstLinted(v, linted) < |v| then FirstLinted(v, linted)
      else if x in linted then |v| else |v| + 1
  {
    var k := FirstLinted(v + [x], linted);
    var k0 := FirstLinted(v, linted);
    if k0 < |v| {
      assert (v + [x])[k0] == v[k0];
    } else if x in linted {
      assert (v + [x])[|v|] == x;
    }
    assert forall j :: 0 <= j < |v| ==> (v + [x])[j] == v[j];
  }

  /** The loop, on names that are never falsy, sets aside the first linted path. */
  lemma {:induction false} ScanGroupSpec(v: seq<string>, linted: set<string>)
    requires NoFalsy(v)
    ensures var s, k := ScanGroup(v, linted), FirstLinted(v, linted);
      && s.inLint == LintedCount(v, linted)
      && (k < |v| ==> s.primary == v[k] && s.dupes == v[..k] + v[k + 1..])
      && (k == |v| ==> s.primary == "" && s.dupes == v)
  {
    if v != [] {
      var w, x := v[..|v| - 1], v[|v| - 1];
      assert v == w + [x];
      assert NoFalsy(w) by {
        forall j | 0 <= j < |w| ensures !Falsy(w[j]) { assert w[j] == v[j]; }
      }
      ScanGroupSpec(w, linted);
      FirstLintedAppend(w, x, linted);
      var k0 := FirstLinted(w, linted);
      assert !Falsy(x);
      if k0 < |w| {
        assert v[..k0] == w[..k0];
        assert v[k0 + 1..] == w[k0 + 1..] + [x];
      } else if x in linted {
        assert v[..|w|] == w;
      }
    }
  }

  /**
   * On a group of names that are never falsy, the primary is the first
   * linted path, or else the first path; the dupes are the others, in group
   * order; and `$in_lint` counts the linted paths.
   */
  lemma SelectSpec(v: seq<string>, linted: set<string>)
    requires v != [] && NoFalsy(v)
    ensures var s, k := Select(v, linted), FirstLinted(v, linted);
      && s.inLint == LintedCount(v, linted)
      && (k < |v| ==> s.primary == v[k] && s.dupes == v[..k] + v[k + 1..])
      && (k == |v| ==> s.primary == v[0] && s.dupes == v[1..])
  {
    ScanGroupSpec(v, linted);
    assert !Falsy(v[0]);
  }

  /** The primary is not among the dupes, and together they are the group. */
  lemma SelectPartition(v: seq<string>, linted: set<string>)
    requires v != [] && NoFalsy(v) && Distinct(v)
    ensures Select(v, linted).primary !in Select(v, linted).dupes
    ensures forall x :: x in v <==> x == Select(v, linted).primary || x in Select(v, linted).dupes
  {
    SelectSpec(v, linted);
    var k := FirstLinted(v, linted);
    var i := if k < |v| then k else 0;
    RemoveAt(v, i);
  }

  /** Taking one entry out of a list without repeats splits it into that entry and the rest. */
  lemma RemoveAt(v: seq<string>, i: nat)
    requires Distinct(v) && i < |v|
    ensures v[i] !in v[..i] + v[i + 1..]
    ensures forall x :: x in v <==> x == v[i] || x in v[..i] + v[i + 1..]
  {
    var w := v[..i] + v[i + 1..];
    forall x | x in v ensures x == v[i] || x in w {
      var j :| 0 <= j < |v| && v[j] == x;
      if j < i { assert w[j] == x; } else if j > i { assert w[j - 1] == x; }
    }
    forall j | 0 <= j < |w| ensures w[j] != v[i] {
      if j < i { assert w[j] == v[j]; } else { assert w[j] == v[j + 1]; }
    }
  }

  /** Choosing again on the same group and the same linted view gives the same primary. */
  lemma SelectIdempotent(v: seq<string>, linted: set<string>)
    requires v != [] && NoFalsy(v) && Distinct(v)
    ensures var s := Select(v, linted);
      s.primary in linted ==> Select([s.primary] + s.dupes, linted).primary == s.primary
  {
    var s := Select(v, linted);
    SelectSpec(v, linted);
    SelectPartition(v, linted);
    var w := [s.primary] + s.dupes;
    if s.primary in linted {
      assert NoFalsy(w) by {
        forall j | 0 <= j < |w| ensures !Falsy(w[j]) { assert w[j] in v; }
      }
      SelectSpec(w, linted);
      assert FirstLinted(w, linted) == 0;
    }
  }

  /** What the general loop keeps, whatever the names. */
  lemma {:induction false} ScanGroupKeeps(v: seq<string>, linted: set<string>)
    ensures var s := ScanGroup(v, linted);
      && (s.primary == "" || s.primary in v)
      && (forall x :: x in s.dupes ==> x in v)
      && (forall x :: x in v && !Falsy(x) ==> x == s.primary || x in s.dupes)
  {
    if v != [] {
      var w, x := v[..|v| - 1], v[|v| - 1];
      assert v == w + [x];
      ScanGroupKeeps(w, linted);
    }
  }

  /**
   * On a group as the checksum index delivers it (two or more distinct
   * non-empty paths) the primary is one of the group, every dupe is, and no
   * path but possibly one named "0" is lost.
   */
  lemma SelectCovers(v: seq<string>, linted: set<string>)
    requires |v| >= 2 && Distinct(v) && "" !in v
    ensures var s := Select(v, linted);
      && s.primary in v
      && (forall x :: x in s.dupes ==> x in v)
      && (forall x :: x in v && !Falsy(x) ==> x == s.primary || x in s.dupes)
  {
    ScanGroupKeeps(v, linted);
    var x := if Falsy(v[0]) then v[1] else v[0];
    assert !Falsy(x) by {
      if Falsy(v[0]) { assert v[0] == "0" && v[1] != "0"; }
    }
  }

  // ---- the files to retire -----------------------------------------------

  /**
   * `$update_files += get_sister_files($v2)` for each dupe other than the
   * primary: a key-union, so a later dupe's list adds only the entries at
   * indexes the accumulated list does not have yet.
   */
  function UpdateFilesAsWritten(fs: FileSystem, dupes: seq<string>, primary: string): seq<string>
  {
    if dupes == [] then []
    else
      var u := UpdateFilesAsWritten(fs, dupes[..|dupes| - 1], primary);
      var d := dupes[|dupes| - 1];
      if d != primary then KeyUnion(u, SisterFiles(fs, d)) else u
  }

  /** One more dupe scanned. */
  lemma UpdateFilesNext(fs: FileSystem, dupes: seq<string>, i: int, primary: string)
    requires 0 <= i < |dupes|
    ensures UpdateFilesAsWritten(fs, dupes[..i + 1], primary) ==
      if dupes[i] != primary then KeyUnion(UpdateFilesAsWritten(fs, dupes[..i], primary), SisterFiles(fs, dupes[i]))
      else UpdateFilesAsWritten(fs, dupes[..i], primary)
  {
    assert dupes[..i + 1][..i] == dupes[..i];
  }

  /**
   * As written, the file kept can be on the list of files to delete: a dupe
   * `d/name.ext` lists its size variants, and the primary can be one of them,
   * `d/name-WxH.ext` with the same content.
   */
  lemma PrimaryListedAsWritten(fs: FileSystem, d: string, name: string, size: string, ext: string)
    requires d != "" && d[|d| - 1] != '/' && d[|d| - 1] != '\\'
    requires '/' !in name && '/' !in ext && '/' !in size && '.' !in ext
    requires !Falsy(name) && !Falsy(ext) && SizeForm(size)
    requires IsDir(fs, d + "/")
    requires name + size + "." + ext in Listing(fs, d + "/")
    requires IsFile(fs, d + "/" + (name + size + "." + ext))
    ensures var primary := d + "/" + (name + size + "." + ext);
      primary in Unique(UpdateFilesAsWritten(fs, [d + "/" + (name + "." + ext)], primary))
  {
    var dupe := d + "/" + (name + "." + ext);
    var primary := d + "/" + (name + size + "." + ext);
    var b := name + "." + ext;
    NoSlashInName(name, ext);
    NestedSubdir(d, b);
    NameParts("", name, ext);
    assert "" + b == b;
    assert SisterName(dupe) == name && SisterExt(dupe) == ext;
    assert Searched(fs, dupe);
    assert dupe != primary by {
      assert |primary| == |dupe| + |size|;
    }
    SizedIsSister(fs, dupe, size);
    assert [dupe][..0] == [];
    assert UpdateFilesAsWritten(fs, [dupe], primary) == KeyUnion([], SisterFiles(fs, dupe));
  }

  /** The entries of s that do not name the primary's file. */
  function Spare(s: seq<string>, primary: string): (r: seq<string>)
    ensures forall x :: x in r <==> x in s && StripDot(x) != StripDot(primary)
    ensures Distinct(s) ==> Distinct(r)
  {
    if s == [] then []
    else
      var r := Spare(s[..|s| - 1], primary);
      var x := s[|s| - 1];
      assert s == s[..|s| - 1] + [x];
      if StripDot(x) != StripDot(primary) then r + [x] else r
  }

  /**
   * The files deduplicate_files retires for a group: the dupes' sister lists
   * joined as written and made unique, without the primary's own file.
   */
  function UpdateFiles(fs: FileSystem, dupes: seq<string>, primary: string): (r: seq<string>)
    ensures Distinct(r)
    ensures forall x :: x in r ==> x in UpdateFilesAsWritten(fs, dupes, primary) && StripDot(x) != StripDot(primary)
  {
    Spare(Unique(UpdateFilesAsWritten(fs, dupes, primary)), primary)
  }

  // ---- rewriting references ----------------------------------------------

  /** The `-WxH` at the end of a file name, or "". */
  function SizeTag(filename: string): (t: string)
    ensures t == "" || SizeForm(t)
    ensures EndsWith(filename, t)
  {
    SizeSuffixSound(filename);
    var n := SizeSuffixLen(filename);
    if n == 0 then "" else filename[|filename| - n..]
  }

  /** The search-replace pair for a retired file. */
  datatype Rewrite = Rewrite(from: string, to: string)

  /** The primary's variant with the retired file's size, quotes removed. */
  function SizedTarget(v2: string, primary: string): string
  {
    RemoveChar(Subdir(primary) + PathFilename(primary) + SizeTag(PathFilename(v2)) + "." + PathExtension(primary), '\'')
  }

  /**
   * from is v2 without single quotes; to is the primary's variant of the
   * same size when that file exists, and the primary itself otherwise.
   */
  function RewriteFor(fs: FileSystem, v2: string, primary: string): (r: Rewrite)
    ensures '\'' !in r.from && |r.from| <= |v2| && ('\'' !in v2 ==> r.from == v2)
    ensures r.to == primary || (r.to == SizedTarget(v2, primary) && FileExists(fs, r.to))
    ensures !FileExists(fs, SizedTarget(v2, primary)) ==> r.to == primary
  {
    var to := SizedTarget(v2, primary);
    Rewrite(RemoveChar(v2, '\''), if FileExists(fs, to) then to else primary)
  }

  /** A retired thumbnail `name-WxH.ext` is pointed at the primary's own `-WxH` variant. */
  lemma RewriteKeepsSize(v2: string, primary: string, stem: string, size: string)
    requires PathFilename(v2) == stem + size && SizeForm(size)
    ensures SizedTarget(v2, primary) ==
      RemoveChar(Subdir(primary) + PathFilename(primary) + size + "." + PathExtension(primary), '\'')
  {
    var f := PathFilename(v2);
    assert f[|f| - |size|..] == size;
    SizeSuffixComplete(f, |size|);
  }

  /** The `wp search-replace` call for a rewrite. */
  function Replaced(rw: Rewrite): Event
  {
    SearchReplace(rw.from, rw.to)
  }

  // ---- retiring files ----------------------------------------------------

  /** The summary deduplicate_files returns. */
  datatype Report = Report(bytesSaved: nat, filesDeleted: seq<string>, filesSaved: seq<string>, posts: seq<int>)

  /** The uploads directory, the event log and the report while files are retired. */
  datatype Retiring = Retiring(fs: FileSystem, log: seq<Event>, report: Report)

  /**
   * One retired file: a search-replace when the database mentions it; then,
   * if it is a file, its size counted and its name reported, whether or not
   * unlink() succeeds.
   */
  function RetireOne(st: Retiring, v2: string, primary: string, referenced: string -> bool, unlinkOk: string -> bool): (r: Retiring)
    ensures r.log == st.log + (if referenced(v2) then [Replaced(RewriteFor(st.fs, v2, primary))] else [])
    ensures IsFile(st.fs, v2) ==> r.report == st.report.(bytesSaved := st.report.bytesSaved + Size(st.fs, v2), filesDeleted := st.report.filesDeleted + [v2])
    ensures !IsFile(st.fs, v2) ==> r.report == st.report && r.fs == st.fs
    ensures IsFile(st.fs, v2) && unlinkOk(v2) ==> !IsFile(r.fs, v2)
    ensures forall q :: StripDot(q) != StripDot(v2) ==> (IsFile(r.fs, q) <==> IsFile(st.fs, q))
    ensures r.fs.dirs == st.fs.dirs && r.fs.walk == st.fs.walk
    ensures Shrinks(st.fs, r.fs)
  {
    RemoveRetired(LogRetired(st, v2, primary, referenced), v2, unlinkOk)
  }

  /** The first half of RetireOne: the search-replace logged when the file is referenced. */
  function LogRetired(st: Retiring, v2: string, primary: string, referenced: string -> bool): (r: Retiring)
    ensures r.fs == st.fs && r.report == st.report
    ensures r.log == st.log + (if referenced(v2) then [Replaced(RewriteFor(st.fs, v2, primary))] else [])
  {
    if referenced(v2) then st.(log := st.log + [Replaced(RewriteFor(st.fs, v2, primary))]) else st
  }

  /** The second half of RetireOne: the file counted, reported and unlinked. */
  function RemoveRetired(st: Retiring, v2: string, unlinkOk: string -> bool): (r: Retiring)
    ensures r.log == st.log
    ensures IsFile(st.fs, v2) ==> r.report == st.report.(bytesSaved := st.report.bytesSaved + Size(st.fs, v2), filesDeleted := st.report.filesDeleted + [v2])
    ensures !IsFile(st.fs, v2) ==> r.report == st.report && r.fs == st.fs
    ensures IsFile(st.fs, v2) && unlinkOk(v2) ==> !IsFile(r.fs, v2)
    ensures forall q :: StripDot(q) != StripDot(v2) ==> (IsFile(r.fs, q) <==> IsFile(st.fs, q))
    ensures r.fs.dirs == st.fs.dirs && r.fs.walk == st.fs.walk
    ensures Shrinks(st.fs, r.fs)
  {
    if IsFile(st.fs, v2) then
      Retiring(
        if unlinkOk(v2) then Unlink(st.fs, v2) else st.fs,
        st.log,
        st.report.(bytesSaved := st.report.bytesSaved + Size(st.fs, v2), filesDeleted := st.report.filesDeleted + [v2]))
    else st
  }

  /** The loop over the files to retire. */
  function RetireAll(st: Retiring, files: seq<string>, primary: string, referenced: string -> bool, unlinkOk: string -> bool): Retiring
  {
    if files == [] then st
    else RetireOne(RetireAll(st, files[..|files| - 1], primary, referenced, unlinkOk), files[|files| - 1], primary, referenced, unlinkOk)
  }

  /** One more file retired. */
  lemma RetireNext(st: Retiring, files: seq<string>, i: int, primary: string, referenced: string -> bool, unlinkOk: string -> bool)
    requires 0 <= i < |files|
    ensures RetireAll(st, files[..i + 1], primary, referenced, unlinkOk) ==
      RetireOne(RetireAll(st, files[..i], primary, referenced, unlinkOk), files[i], primary, referenced, unlinkOk)
  {
    assert files[..i + 1][..i] == files[..i];
  }

  /**
   * Retiring files never removes a file none of them names; in particular
   * the primary survives the corrected list.
   */
  lemma {:induction false} RetireSpares(st: Retiring, files: seq<string>, primary: string, referenced: string -> bool, unlinkOk: string -> bool, q: string)
    requires forall x :: x in files ==> StripDot(x) != StripDot(q)
    ensures IsFile(RetireAll(st, files, primary, referenced, unlinkOk).fs, q) <==> IsFile(st.fs, q)
  {
    if files != [] {
      RetireSpares(st, files[..|files| - 1], primary, referenced, unlinkOk, q);
    }
  }

  /** Retiring files only ever removes files: every file left is one that was there, unchanged. */
  lemma {:induction false} RetireShrinks(st: Retiring, files: seq<string>, primary: string, referenced: string -> bool, unlinkOk: string -> bool)
    ensures Shrinks(st.fs, RetireAll(st, files, primary, referenced, unlinkOk).fs)
  {
    if files != [] {
      RetireShrinks(st, files[..|files| - 1], primary, referenced, unlinkOk);
    }
  }

  /** Every file reported deleted was on the list, and the byte count only grows. */
  lemma {:induction false} RetireReports(st: Retiring, files: seq<string>, primary: string, referenced: string -> bool, unlinkOk: string -> bool)
    ensures var r := RetireAll(st, files, primary, referenced, unlinkOk);
      && r.report.bytesSaved >= st.report.bytesSaved
      && |st.report.filesDeleted| <= |r.report.filesDeleted| <= |st.report.filesDeleted| + |files|
      && r.report.filesDeleted[..|st.report.filesDeleted|] == st.report.filesDeleted
      && (forall x :: x in r.report.filesDeleted[|st.report.filesDeleted|..] ==> x in files)
      && r.report.posts == st.report.posts && r.report.filesSaved == st.report.filesSaved
  {
    if files != [] {
      var init := files[..|files| - 1];
      RetireReports(st, init, primary, referenced, unlinkOk);
      var m := RetireAll(st, init, primary, referenced, unlinkOk);
      var r := RetireAll(st, files, primary, referenced, unlinkOk);
      RetireOneReport(m, files[|files| - 1], primary, referenced, unlinkOk);
      assert files == init + [files[|files| - 1]];
      ReportedStep(st.report.filesDeleted, m.report.filesDeleted, r.report.filesDeleted, init, files[|files| - 1]);
    }
  }


  /** One retirement adds at most the retired file to the report and leaves its other counters alone. */
  lemma RetireOneReport(st: Retiring, v2: string, primary: string, referenced: string -> bool, unlinkOk: string -> bool)
    ensures var r := RetireOne(st, v2, primary, referenced, unlinkOk);
      && r.report.bytesSaved >= st.report.bytesSaved
      && (r.report.filesDeleted == st.report.filesDeleted || r.report.filesDeleted == st.report.filesDeleted + [v2])
      && r.report.posts == st.report.posts && r.report.filesSaved == st.report.filesSaved
  {
  }

  /** The reported list grows by at most one name of the list per step, keeping its prefix. */
  lemma ReportedStep(a: seq<string>, b: seq<string>, c: seq<string>, init: seq<string>, f: string)
    requires |a| <= |b| <= |a| + |init| && b[..|a|] == a
    requires forall x :: x in b[|a|..] ==> x in init
    requires c == b || c == b + [f]
    ensures |a| <= |c| <= |a| + |init| + 1 && c[..|a|] == a
    ensures forall x :: x in c[|a|..] ==> x in init + [f]
  {
    assert c[..|b|] == b;
    assert c[..|a|] == b[..|a|];
    forall x | x in c[|a|..] ensures x in init + [f] {
      var j :| |a| <= j < |c| && c[j] == x;
      if j < |b| {
        assert b[|a|..][j - |a|] == x;
      } else {
        assert x == f;
      }
    }
  }
}
