/**
 * The older `attachment` class: the same two static caches as `utility`,
 * the duplicate-post query, and the duplicate-file query. Unlike `utility`,
 * its load_checksums() never passes the refresh flag on to
 * load_attachments(), so a refresh of the index keeps a loaded catalog.
 */
module Attachment {
  import opened Options
  import opened PhpArray
  import opened Site
  import opened Catalog
  import opened Grouping

  class Attachment {
    /** The database and uploads directory the static methods reach. */
    const site: Site
    /** static::$attachments, None until first loaded */
    var attachments: Option<Attachments>
    /** static::$checksums, None until first loaded */
    var checksums: Option<Index>

    /** What every load leaves in the caches. */
    ghost predicate Valid()
      reads this
    {
      && (attachments.Some? ==> DistinctKeys(attachments.value) && Ascending(attachments.value))
      && (checksums.Some? ==> DistinctKeys(checksums.value))
    }

    constructor (site: Site)
      ensures this.site == site && attachments.None? && checksums.None?
      ensures Valid()
    {
      this.site := site;
      attachments := None;
      checksums := None;
    }

    /** load_attachments($refresh): (re)load the catalog when asked or not loaded yet. */
    method LoadAttachments(refresh: bool)
      requires Valid()
      modifies this
      ensures Valid()
      ensures attachments == if refresh || old(attachments).None? then Some(Catalog.Catalog(site.rows)) else old(attachments)
      ensures checksums == old(checksums)
    {
      if refresh || attachments.None? {
        var m := FetchCatalog(site.rows);
        CatalogSpec(site.rows);
        attachments := Some(m);
      }
    }

    /** get_attachments($refresh): the catalog, ids ascending; without refresh the cached one. */
    method GetAttachments(refresh: bool) returns (a: Attachments)
      requires Valid()
      modifies this
      ensures Valid()
      ensures attachments == if refresh || old(attachments).None? then Some(Catalog.Catalog(site.rows)) else old(attachments)
      ensures checksums == old(checksums)
      ensures a == attachments.value && DistinctKeys(a) && Ascending(a)
      ensures !refresh && old(attachments).Some? ==> a == old(attachments).value
    {
      LoadAttachments(refresh);
      a := attachments.value;
    }

    /**
     * load_checksums($refresh): when asked or not loaded yet, index the
     * catalog's paths by digest, loading the catalog only if it never was.
     */
    method LoadChecksums(refresh: bool)
      requires Valid()
      modifies this
      ensures Valid()
      ensures var rebuild := refresh || old(checksums).None?;
        && attachments == (if rebuild && old(attachments).None? then Some(Catalog.Catalog(site.rows)) else old(attachments))
        && checksums == (if rebuild then Some(ChecksumIndex(attachments.value, site.fs)) else old(checksums))
    {
      if refresh || checksums.None? {
        LoadAttachments(false);
        var idx := BuildChecksums(attachments.value, site.fs);
        ChecksumIndexSpec(attachments.value, site.fs);
        checksums := Some(idx);
      }
    }

    /** get_checksums($refresh) */
    method GetChecksums(refresh: bool) returns (c: Index)
      requires Valid()
      modifies this
      ensures Valid()
      ensures var rebuild := refresh || old(checksums).None?;
        && attachments == (if rebuild && old(attachments).None? then Some(Catalog.Catalog(site.rows)) else old(attachments))
        && checksums == (if rebuild then Some(ChecksumIndex(attachments.value, site.fs)) else old(checksums))
      ensures c == checksums.value
    {
      LoadChecksums(refresh);
      c := checksums.value;
    }

    /**
     * get_duplicate_posts($refresh): for each path held by two posts or more,
     * the ids holding it in the order the drain finds them (not re-sorted).
     */
    method GetDuplicatePosts(refresh: bool) returns (out: Groups)
      requires Valid()
      modifies this
      ensures Valid()
      ensures attachments == if refresh || old(attachments).None? then Some(Catalog.Catalog(site.rows)) else old(attachments)
      ensures checksums == old(checksums)
      ensures IsDuplicatePosts(attachments.value, out)
      ensures attachments.value == [] ==> out == []
    {
      var a := GetAttachments(refresh);
      out := DuplicatePostGroups(a);
    }

    /**
     * get_duplicate_files($refresh): the buckets of the (re)loaded index with
     * two paths or more, by ascending digest; nothing when there is no bucket.
     */
    method GetDuplicateFiles(refresh: bool) returns (out: Index)
      requires Valid()
      modifies this
      ensures Valid()
      ensures var rebuild := refresh || old(checksums).None?;
        && attachments == (if rebuild && old(attachments).None? then Some(Catalog.Catalog(site.rows)) else old(attachments))
        && checksums == (if rebuild then Some(ChecksumIndex(attachments.value, site.fs)) else old(checksums))
      ensures out == Duplicates(checksums.value)
      ensures checksums.value == [] ==> out == []
    {
      var c := GetChecksums(refresh);
      if |c| == 0 {
        return [];
      }
      out := FilterDuplicates(c);
    }
  }
}
