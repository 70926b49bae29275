/**
 * The WordPress site the plugin works on: the attachment rows of the
 * database, the postmeta rows the plugin writes, the uploads directory, and a
 * log of the calls into WordPress and WP-CLI that the model does not follow.
 */
module Site {
  import opened Options
  import opened Strings
  import opened Paths

  /** What the plugin can learn about one regular file: md5_file() and filesize(). */
  datatype FileInfo = FileInfo(md5: Option<string>, size: nat)

  /**
   * The uploads directory. Paths are relative to it. `files` holds the regular
   * files, `dirs` each directory's readdir() listing (the root is "", a
   * subdirectory "2024/05"), and `walk` the order in which the recursive
   * directory iterator visits the files.
   */
  datatype FileSystem = FileSystem(files: map<string, FileInfo>, dirs: map<string, seq<string>>, walk: seq<string>)

  /** A leading "./" names the uploads directory itself. */
  function StripDot(p: string): string
  {
    if StartsWith(p, "./") then StripDot(p[2..]) else p
  }

  function DirKey(p: string): string
  {
    RTrim(StripDot(p), {'/'})
  }

  /** is_file() */
  predicate IsFile(fs: FileSystem, p: string)
  {
    StripDot(p) in fs.files
  }

  /** is_dir() */
  predicate IsDir(fs: FileSystem, p: string)
  {
    DirKey(p) in fs.dirs
  }

  /** file_exists(): a file or a directory. */
  predicate FileExists(fs: FileSystem, p: string)
  {
    IsFile(fs, p) || IsDir(fs, p)
  }

  /** md5_file(), None where PHP returns false. */
  function Md5(fs: FileSystem, p: string): Option<string>
  {
    if IsFile(fs, p) then fs.files[StripDot(p)].md5 else None
  }

  /** filesize() of a regular file. */
  function Size(fs: FileSystem, p: string): nat
    requires IsFile(fs, p)
  {
    fs.files[StripDot(p)].size
  }

  /** readdir() on a directory: its entries in directory order. */
  function Listing(fs: FileSystem, dir: string): seq<string>
    requires IsDir(fs, dir)
  {
    fs.dirs[DirKey(dir)]
  }

  /** r holds only files of fs, each as it was: files were at most removed. */
  predicate Shrinks(fs: FileSystem, r: FileSystem)
  {
    && r.files.Keys <= fs.files.Keys
    && (forall q :: q in r.files ==> r.files[q] == fs.files[q])
  }

  /** A successful unlink(). */
  function Unlink(fs: FileSystem, p: string): (r: FileSystem)
    ensures !IsFile(r, p)
    ensures r.dirs == fs.dirs && r.walk == fs.walk
    ensures Shrinks(fs, r)
    ensures forall q :: StripDot(q) != StripDot(p) ==> (IsFile(r, q) <==> IsFile(fs, q))
  {
    fs.(files := fs.files - {StripDot(p)})
  }

  /** The calls into WordPress and WP-CLI, recorded instead of followed. */
  datatype Event =
    | Repoint(ids: seq<int>, path: string)
      // UPDATE of the posts' guid and their _wp_attached_file to path
    | Metadata(source: int, ids: seq<int>, path: string)
      // wp_generate_attachment_metadata(source, path), stored for every id
    | SearchReplace(from: string, to: string)
      // `wp search-replace from to --all-tables-with-prefix`

  /** A postmeta row whose value is a post id. */
  datatype MetaRow = MetaRow(postId: int, key: string, value: int)

  class Site {
    /** posts of type attachment joined with their _wp_attached_file postmeta, in table order */
    var rows: seq<(int, string)>
    /** postmeta rows with a post id as value */
    var meta: seq<MetaRow>
    var fs: FileSystem
    var log: seq<Event>

    constructor (rows: seq<(int, string)>, meta: seq<MetaRow>, fs: FileSystem)
      ensures this.rows == rows && this.meta == meta && this.fs == fs && log == []
    {
      this.rows := rows;
      this.meta := meta;
      this.fs := fs;
      log := [];
    }
  }
}
